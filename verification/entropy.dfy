/**
 * Conditional ("split") entropy of a label given an attribute, computed from
 * (attribute value, label value) observations over the reals. The base-2
 * logarithm is a parameter: the model fixes no numerics beyond what each lemma
 * assumes of it (most need only log2(1) = 0).
 */
module Entropy {
  import opened Seqs

  /** One observation: (attribute value, label value). */
  type Pair = (string, string)

  /** The attribute values of the observations, in input order. */
  function Firsts(pairs: seq<Pair>): (vs: seq<string>)
    ensures |vs| == |pairs|
  {
    if pairs == [] then [] else [pairs[0].0] + Firsts(pairs[1..])
  }

  /** `Firsts` keeps the observations' order: position `i` holds observation `i`'s attribute value. */
  lemma {:induction false} FirstsContents(pairs: seq<Pair>)
    ensures forall i :: 0 <= i < |pairs| ==> Firsts(pairs)[i] == pairs[i].0
  {
    if pairs != [] {
      FirstsContents(pairs[1..]);
      forall i | 0 < i < |pairs|
        ensures Firsts(pairs)[i] == pairs[i].0
      {
        assert Firsts(pairs)[i] == Firsts(pairs[1..])[i - 1];
      }
    }
  }

  /** The label values of the observations whose attribute value is `v`, in input order. */
  function LabelsOf(pairs: seq<Pair>, v: string): seq<string>
  {
    if pairs == [] then []
    else
      var rest := LabelsOf(pairs[1..], v);
      if pairs[0].0 == v then [pairs[0].1] + rest else rest
  }

  /** Counting label `l` among the labels gathered for `v` counts the observations (v, l). */
  lemma {:induction false} LabelsOfCountsPairs(pairs: seq<Pair>, v: string, l: string)
    ensures Count(LabelsOf(pairs, v), l) == Count(pairs, (v, l))
  {
    if pairs != [] {
      LabelsOfCountsPairs(pairs[1..], v, l);
    }
  }

  /**
   * `n / total` over the reals. Every share the computation takes has a non-zero total (a
   * value is only weighed once observed); the 0 for a zero total keeps the function total.
   */
  function Share(n: nat, total: nat): real
  {
    if total == 0 then 0.0 else n as real / total as real
  }

  /** The share of the entries of `s` equal to `x` (p^i_mj = N^i_mj / N_mj when `s` holds one value's labels). */
  function Proportion(s: seq<string>, x: string): real
  {
    Share(Count(s, x), |s|)
  }

  /** attr_count / total_attr_count: the share N_mj / N_m of the observations whose attribute value is `v`. */
  function Weight(pairs: seq<Pair>, v: string): real
  {
    Share(|LabelsOf(pairs, v)|, |pairs|)
  }

  /** One label's contribution p * log2(p), p being its share of `ls`. */
  function LabelTerm(log2: real -> real, ls: seq<string>, l: string): real
  {
    var p := Proportion(ls, l);
    p * log2(p)
  }

  /** Sum of the contributions of the listed label values. */
  function LabelTerms(log2: real -> real, ls: seq<string>, labels: seq<string>): real
  {
    if labels == [] then 0.0
    else LabelTerm(log2, ls, labels[0]) + LabelTerms(log2, ls, labels[1..])
  }

  /** `attr_entropy`: the sum of p * log2(p) over the distinct labels of `ls`. */
  function LabelSum(log2: real -> real, ls: seq<string>): real
  {
    LabelTerms(log2, ls, Distinct(ls))
  }

  /** One attribute value's contribution: its weight times the label sum of its observations. */
  function ValueTerm(log2: real -> real, pairs: seq<Pair>, v: string): real
  {
    Weight(pairs, v) * LabelSum(log2, LabelsOf(pairs, v))
  }

  /** Sum of the contributions of the listed attribute values. */
  function ValueTerms(log2: real -> real, pairs: seq<Pair>, values: seq<string>): real
  {
    if values == [] then 0.0
    else ValueTerm(log2, pairs, values[0]) + ValueTerms(log2, pairs, values[1..])
  }

  /** `split_entropy`: the conditional entropy of the label given the attribute. */
  function SplitEntropy(log2: real -> real, pairs: seq<Pair>): (h: real)
    ensures pairs == [] ==> h == 0.0
  {
    -1.0 * ValueTerms(log2, pairs, Distinct(Firsts(pairs)))
  }

  /** The weight's numerator: the labels gathered for `v` are as many as the observations carrying `v`. */
  lemma {:induction false} LabelsOfCount(pairs: seq<Pair>, v: string)
    ensures |LabelsOf(pairs, v)| == Count(Firsts(pairs), v)
  {
    if pairs != [] {
      assert Firsts(pairs)[1..] == Firsts(pairs[1..]);
      LabelsOfCount(pairs[1..], v);
    }
  }

  /** Every label gathered for `v` comes from an observation carrying `v`. */
  lemma {:induction false} LabelsOfMembers(pairs: seq<Pair>, v: string)
    ensures forall i :: 0 <= i < |LabelsOf(pairs, v)| ==> (v, LabelsOf(pairs, v)[i]) in pairs
  {
    if pairs != [] {
      LabelsOfMembers(pairs[1..], v);
      var ls := LabelsOf(pairs, v);
      forall i | 0 <= i < |ls| ensures (v, ls[i]) in pairs {
        if pairs[0].0 == v && i == 0 {
          assert pairs[0] == (v, ls[0]);
        } else {
          var k := if pairs[0].0 == v then i - 1 else i;
          assert ls[i] == LabelsOf(pairs[1..], v)[k];
          assert (v, ls[i]) in pairs[1..];
        }
      }
    }
  }

  // ---------------------------------------------------------------------------
  // Zero entropy

  /** Every attribute value determines the label: each value's observations carry one label. */
  predicate PureSplit(pairs: seq<Pair>) {
    forall i, j :: 0 <= i < |pairs| && 0 <= j < |pairs| && pairs[i].0 == pairs[j].0 ==> pairs[i].1 == pairs[j].1
  }

  /** When the attribute determines the label, no uncertainty remains: the split entropy is 0. */
  lemma PureSplitHasZeroEntropy(log2: real -> real, pairs: seq<Pair>)
    requires log2(1.0) == 0.0
    requires PureSplit(pairs)
    ensures SplitEntropy(log2, pairs) == 0.0
  {
    PureValueTermsZero(log2, pairs, Distinct(Firsts(pairs)));
  }

  /** A single observation has split entropy 0 (the crate's `split_entropy_set_size_one` test). */
  lemma SingletonHasZeroEntropy(log2: real -> real, pair: Pair)
    requires log2(1.0) == 0.0
    ensures SplitEntropy(log2, [pair]) == 0.0
  {
    PureSplitHasZeroEntropy(log2, [pair]);
  }

  lemma {:induction false} PureValueTermsZero(log2: real -> real, pairs: seq<Pair>, values: seq<string>)
    requires log2(1.0) == 0.0
    requires PureSplit(pairs)
    ensures ValueTerms(log2, pairs, values) == 0.0
  {
    if values != [] {
      PureValueTermZero(log2, pairs, values[0]);
      PureValueTermsZero(log2, pairs, values[1..]);
    }
  }

  /** Under a pure split, each attribute value's labels are all one label. */
  lemma PureValueTermZero(log2: real -> real, pairs: seq<Pair>, v: string)
    requires log2(1.0) == 0.0
    requires PureSplit(pairs)
    ensures ValueTerm(log2, pairs, v) == 0.0
  {
    var ls := LabelsOf(pairs, v);
    if ls != [] {
      LabelsOfMembers(pairs, v);
      assert forall i :: 0 <= i < |ls| ==> ls[i] == ls[0] by {
        forall i | 0 <= i < |ls| ensures ls[i] == ls[0] {
          assert (v, ls[i]) in pairs && (v, ls[0]) in pairs;
        }
      }
      UniformLabelSumZero(log2, ls);
    }
    TimesZero(Weight(pairs, v), LabelSum(log2, ls));
  }

  /** A single repeated label has share 1, so its term 1 * log2(1) vanishes. */
  lemma UniformLabelSumZero(log2: real -> real, ls: seq<string>)
    requires log2(1.0) == 0.0
    requires |ls| > 0
    requires forall i :: 0 <= i < |ls| ==> ls[i] == ls[0]
    ensures LabelSum(log2, ls) == 0.0
  {
    var labels := Distinct(ls);
    UniformDistinct(ls);
    LabelTermsStep(log2, ls, labels);
    assert LabelTerms(log2, ls, labels[1..]) == 0.0;
    WholeShare(|ls|);
    var p := Proportion(ls, labels[0]);
    assert p == 1.0;
    assert log2(p) == 0.0;
    TimesZero(p, log2(p));
  }

  lemma LabelTermsStep(log2: real -> real, ls: seq<string>, labels: seq<string>)
    requires |labels| > 0
    ensures LabelTerms(log2, ls, labels)
         == Proportion(ls, labels[0]) * log2(Proportion(ls, labels[0])) + LabelTerms(log2, ls, labels[1..])
  {
  }

  // ---------------------------------------------------------------------------
  // Iteration order

  /**
   * The source sums over hash sets of values and of labels, whose iteration order is
   * unspecified. Any duplicate-free listing of the observed values gives the same split
   * entropy, so the first-occurrence order used here is as good as any.
   */
  lemma SplitEntropyOrderIndependent(log2: real -> real, pairs: seq<Pair>, order: seq<string>)
    requires NoDuplicates(order)
    requires forall v :: v in order <==> v in Firsts(pairs)
    ensures SplitEntropy(log2, pairs) == -1.0 * ValueTerms(log2, pairs, order)
  {
    ValueTermsPermutation(log2, pairs, Distinct(Firsts(pairs)), order);
  }

  /** Likewise, any duplicate-free listing of one value's labels gives the same label sum. */
  lemma LabelSumOrderIndependent(log2: real -> real, ls: seq<string>, order: seq<string>)
    requires NoDuplicates(order)
    requires forall l :: l in order <==> l in ls
    ensures LabelSum(log2, ls) == LabelTerms(log2, ls, order)
  {
    LabelTermsPermutation(log2, ls, Distinct(ls), order);
  }

  lemma {:induction false} ValueTermsPermutation(log2: real -> real, pairs: seq<Pair>, xs: seq<string>, ys: seq<string>)
    requires NoDuplicates(xs) && NoDuplicates(ys)
    requires forall v :: v in xs <==> v in ys
    ensures ValueTerms(log2, pairs, xs) == ValueTerms(log2, pairs, ys)
    decreases |xs|
  {
    if xs == [] {
      EmptyOrHasFirst(ys);
    } else {
      assert xs[0] in ys;
      var k :| 0 <= k < |ys| && ys[k] == xs[0];
      RemoveAtDistinct(ys, k);
      RemoveAtDistinct(xs, 0);
      assert RemoveAt(xs, 0) == xs[1..];
      ValueTermsRemoveAt(log2, pairs, ys, k);
      ValueTermsPermutation(log2, pairs, xs[1..], RemoveAt(ys, k));
    }
  }

  lemma {:induction false} ValueTermsRemoveAt(log2: real -> real, pairs: seq<Pair>, ys: seq<string>, k: nat)
    requires k < |ys|
    ensures ValueTerms(log2, pairs, ys) == ValueTerm(log2, pairs, ys[k]) + ValueTerms(log2, pairs, RemoveAt(ys, k))
  {
    if k == 0 {
      assert RemoveAt(ys, 0) == ys[1..];
    } else {
      ValueTermsRemoveAt(log2, pairs, ys[1..], k - 1);
      assert RemoveAt(ys, k) == [ys[0]] + RemoveAt(ys[1..], k - 1);
      assert RemoveAt(ys, k)[1..] == RemoveAt(ys[1..], k - 1);
    }
  }

  lemma {:induction false} LabelTermsPermutation(log2: real -> real, ls: seq<string>, xs: seq<string>, ys: seq<string>)
    requires NoDuplicates(xs) && NoDuplicates(ys)
    requires forall v :: v in xs <==> v in ys
    ensures LabelTerms(log2, ls, xs) == LabelTerms(log2, ls, ys)
    decreases |xs|
  {
    if xs == [] {
      EmptyOrHasFirst(ys);
    } else {
      assert xs[0] in ys;
      var k :| 0 <= k < |ys| && ys[k] == xs[0];
      RemoveAtDistinct(ys, k);
      RemoveAtDistinct(xs, 0);
      assert RemoveAt(xs, 0) == xs[1..];
      LabelTermsRemoveAt(log2, ls, ys, k);
      LabelTermsPermutation(log2, ls, xs[1..], RemoveAt(ys, k));
    }
  }

  lemma {:induction false} LabelTermsRemoveAt(log2: real -> real, ls: seq<string>, ys: seq<string>, k: nat)
    requires k < |ys|
    ensures LabelTerms(log2, ls, ys) == LabelTerm(log2, ls, ys[k]) + LabelTerms(log2, ls, RemoveAt(ys, k))
  {
    if k == 0 {
      assert RemoveAt(ys, 0) == ys[1..];
    } else {
      LabelTermsRemoveAt(log2, ls, ys[1..], k - 1);
      assert RemoveAt(ys, k) == [ys[0]] + RemoveAt(ys[1..], k - 1);
      assert RemoveAt(ys, k)[1..] == RemoveAt(ys[1..], k - 1);
    }
  }

  // ---------------------------------------------------------------------------
  // Counts and weights

  /** The per-value counts N_mj add up to the number of observations N_m. */
  lemma ValueCountsSumToTotal(pairs: seq<Pair>)
    ensures CountAll(Firsts(pairs), Distinct(Firsts(pairs))) == |pairs|
  {
    CountsOverDistinct(Firsts(pairs));
  }

  /** Within one attribute value, the per-label counts N^i_mj add up to that value's count N_mj. */
  lemma LabelCountsSumToValueCount(pairs: seq<Pair>, v: string)
    ensures CountAll(LabelsOf(pairs, v), Distinct(LabelsOf(pairs, v))) == Count(Firsts(pairs), v)
  {
    CountsOverDistinct(LabelsOf(pairs, v));
    LabelsOfCount(pairs, v);
  }

  /** Sum of the shares in `s` of the listed values. */
  function ProportionSum(s: seq<string>, xs: seq<string>): real
  {
    if xs == [] then 0.0 else Proportion(s, xs[0]) + ProportionSum(s, xs[1..])
  }

  lemma {:induction false} ProportionSumIsCountShare(s: seq<string>, xs: seq<string>)
    requires |s| > 0
    ensures ProportionSum(s, xs) == Share(CountAll(s, xs), |s|)
  {
    if xs != [] {
      ProportionSumIsCountShare(s, xs[1..]);
      SumOfShares(Count(s, xs[0]), CountAll(s, xs[1..]), |s|);
    }
  }

  /** The shares of the distinct values of a non-empty sequence sum to 1 (so do the p^i_mj of one value). */
  lemma ProportionsSumToOne(s: seq<string>)
    requires |s| > 0
    ensures ProportionSum(s, Distinct(s)) == 1.0
  {
    ProportionSumIsCountShare(s, Distinct(s));
    CountsOverDistinct(s);
    WholeShare(|s|);
  }

  /** Sum of the weights of the listed attribute values. */
  function WeightSum(pairs: seq<Pair>, values: seq<string>): real
  {
    if values == [] then 0.0 else Weight(pairs, values[0]) + WeightSum(pairs, values[1..])
  }

  lemma {:induction false} WeightSumIsProportionSum(pairs: seq<Pair>, values: seq<string>)
    ensures WeightSum(pairs, values) == ProportionSum(Firsts(pairs), values)
  {
    if values != [] {
      LabelsOfCount(pairs, values[0]);
      WeightSumIsProportionSum(pairs, values[1..]);
    }
  }

  /** The weights attr_count / total_attr_count of the observed attribute values sum to 1. */
  lemma WeightsSumToOne(pairs: seq<Pair>)
    requires |pairs| > 0
    ensures WeightSum(pairs, Distinct(Firsts(pairs))) == 1.0
  {
    WeightSumIsProportionSum(pairs, Distinct(Firsts(pairs)));
    ProportionsSumToOne(Firsts(pairs));
  }

  // ---------------------------------------------------------------------------
  // Sign

  /** The true logarithm is non-positive on (0, 1]. */
  ghost predicate NonPositiveOnUnitInterval(log2: real -> real) {
    forall x :: 0.0 < x <= 1.0 ==> log2(x) <= 0.0
  }

  /** If log2 is non-positive on (0, 1], as the true logarithm is, the split entropy is non-negative. */
  lemma SplitEntropyNonNegative(log2: real -> real, pairs: seq<Pair>)
    requires NonPositiveOnUnitInterval(log2)
    ensures SplitEntropy(log2, pairs) >= 0.0
  {
    ValueTermsNonPositive(log2, pairs, Distinct(Firsts(pairs)));
  }

  lemma {:induction false} ValueTermsNonPositive(log2: real -> real, pairs: seq<Pair>, values: seq<string>)
    requires NonPositiveOnUnitInterval(log2)
    ensures ValueTerms(log2, pairs, values) <= 0.0
  {
    if values != [] {
      var ls := LabelsOf(pairs, values[0]);
      LabelTermsNonPositive(log2, ls, Distinct(ls));
      ValueTermNonPositive(log2, pairs, values[0]);
      ValueTermsNonPositive(log2, pairs, values[1..]);
    }
  }

  /** A non-negative weight times a non-positive label sum. */
  lemma ValueTermNonPositive(log2: real -> real, pairs: seq<Pair>, v: string)
    requires LabelSum(log2, LabelsOf(pairs, v)) <= 0.0
    ensures ValueTerm(log2, pairs, v) <= 0.0
  {
    ShareNonNegative(|LabelsOf(pairs, v)|, |pairs|);
    NonNegTimesNonPos(Weight(pairs, v), LabelSum(log2, LabelsOf(pairs, v)));
  }

  lemma {:induction false} LabelTermsNonPositive(log2: real -> real, ls: seq<string>, labels: seq<string>)
    requires NonPositiveOnUnitInterval(log2)
    ensures LabelTerms(log2, ls, labels) <= 0.0
  {
    if labels != [] {
      var p := Proportion(ls, labels[0]);
      LabelTermsStep(log2, ls, labels);
      ShareAtMostOne(Count(ls, labels[0]), |ls|);
      if p > 0.0 {
        NonNegTimesNonPos(p, log2(p));
      } else {
        TimesZero(log2(p), p);
      }
      LabelTermsNonPositive(log2, ls, labels[1..]);
    }
  }

  // ---------------------------------------------------------------------------
  // Real arithmetic, one step at a time

  lemma SumOfShares(a: nat, b: nat, n: nat)
    requires n > 0
    ensures Share(a, n) + Share(b, n) == Share(a + b, n)
  {
  }

  lemma WholeShare(n: nat)
    requires n > 0
    ensures Share(n, n) == 1.0
  {
  }

  lemma ShareNonNegative(a: nat, n: nat)
    ensures Share(a, n) >= 0.0
  {
  }

  lemma ShareAtMostOne(a: nat, n: nat)
    requires a <= n
    ensures 0.0 <= Share(a, n) <= 1.0
  {
  }

  lemma TimesZero(a: real, b: real)
    requires b == 0.0
    ensures a * b == 0.0 && b * a == 0.0
  {
  }

  lemma NonNegTimesNonPos(a: real, b: real)
    requires a >= 0.0 && b <= 0.0
    ensures a * b <= 0.0
  {
  }
}
