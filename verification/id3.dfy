/**
 * The ID3 tree builder (the crate's `id3` module): uniform-label leaves, choice of
 * the split attribute with the smallest split entropy, and recursive partitioning
 * of the dataset with the split attribute removed from the candidates.
 */
module Id3 {
  import opened Wrappers
  import opened Seqs
  import opened Tree
  import opened Entropy

  /** The two places where the builder would panic. */
  datatype Id3Error =
    | EmptyDataset       // `records[0]` on an empty dataset
    | NoSplitAttribute   // `split_attribute(..).unwrap()` with no candidate besides the label

  /** Every attribute the build may query (the label and each candidate) is defined by every record. */
  predicate Queryable(dataset: Dataset, labelAttr: string, attributes: seq<string>) {
    && HasAttribute(dataset, labelAttr)
    && forall a :: a in attributes ==> HasAttribute(dataset, a)
  }

  /** Every record's value of `attr` is `value`. */
  function AllEqualTo(records: Dataset, attr: string, value: string): (b: bool)
    requires HasAttribute(records, attr)
    ensures b <==> forall i :: 0 <= i < |records| ==> records[i][attr] == value
  {
    if records == [] then true
    else records[0][attr] == value && AllEqualTo(records[1..], attr, value)
  }

  /** `attr_all_eq`: compares every record's value of `attr` with the first record's. */
  function AttrAllEq(records: Dataset, attr: string): (b: bool)
    requires |records| > 0
    requires HasAttribute(records, attr)
    ensures b <==> SameValue(records, attr)
  {
    AllEqualTo(records, attr, records[0][attr])
  }

  /**
   * The (attribute value, label value) pairs `split_attribute` hands to `split_entropy`.
   * Their attribute values are the column `id3` branches on.
   */
  function Pairs(records: Dataset, attr: string, labelAttr: string): (ps: seq<Pair>)
    requires HasAttribute(records, attr) && HasAttribute(records, labelAttr)
    ensures |ps| == |records|
    ensures forall i :: 0 <= i < |records| ==> ps[i] == (records[i][attr], records[i][labelAttr])
    ensures Firsts(ps) == Column(records, attr)
  {
    var ps := seq(|records|, i requires 0 <= i < |records| => (records[i][attr], records[i][labelAttr]));
    FirstsContents(ps);
    ps
  }

  /** Position of the first occurrence of `x`. */
  function FirstIndex(s: seq<string>, x: string): (k: nat)
    requires x in s
    ensures k < |s| && s[k] == x
    ensures forall j :: 0 <= j < k ==> s[j] != x
  {
    if s[0] == x then 0 else 1 + FirstIndex(s[1..], x)
  }

  /**
   * `best` is what the scan over attributes[..n] has selected: nothing when every
   * entry so far is the label; otherwise a non-label candidate whose score no candidate
   * undercuts, and which every candidate listed before its first occurrence scores
   * strictly above.
   */
  ghost predicate EarliestMinimum(attributes: seq<string>, labelAttr: string, score: string -> real, n: nat, best: Option<string>)
    requires n <= |attributes|
  {
    match best
    case None => forall j :: 0 <= j < n ==> attributes[j] == labelAttr
    case Some(b) =>
      && b in attributes
      && FirstIndex(attributes, b) < n
      && b != labelAttr
      && (forall j :: 0 <= j < n && attributes[j] != labelAttr ==> score(b) <= score(attributes[j]))
      && (forall j :: 0 <= j < FirstIndex(attributes, b) && attributes[j] != labelAttr ==> score(attributes[j]) > score(b))
  }

  /** The loop of `split_attribute` from position `i` on, `best` being the candidate kept so far. */
  function ScanCandidates(attributes: seq<string>, labelAttr: string, score: string -> real, i: nat, best: Option<string>): (r: Option<string>)
    requires i <= |attributes|
    requires EarliestMinimum(attributes, labelAttr, score, i, best)
    ensures EarliestMinimum(attributes, labelAttr, score, |attributes|, r)
    decreases |attributes| - i
  {
    if i == |attributes| then best
    else
      var a := attributes[i];
      if a == labelAttr then ScanCandidates(attributes, labelAttr, score, i + 1, best)
      else if best.None? || score(a) < score(best.value) then ScanCandidates(attributes, labelAttr, score, i + 1, Some(a))
      else ScanCandidates(attributes, labelAttr, score, i + 1, best)
  }

  /**
   * `split_attribute`: the candidate (never the label) with the smallest score; on a tie
   * the one listed first wins; None when no candidate other than the label is listed.
   */
  function SplitAttribute(attributes: seq<string>, labelAttr: string, score: string -> real): (r: Option<string>)
    ensures r.None? <==> forall a :: a in attributes ==> a == labelAttr
    ensures r.Some? ==> r.value in attributes && r.value != labelAttr
    ensures r.Some? ==> forall a :: a in attributes && a != labelAttr ==> score(r.value) <= score(a)
    ensures r.Some? ==> forall j :: 0 <= j < FirstIndex(attributes, r.value) && attributes[j] != labelAttr ==>
                          score(attributes[j]) > score(r.value)
  {
    ScanCandidates(attributes, labelAttr, score, 0, None)
  }

  /** The selection rule leaves no choice: at most one candidate is the earliest minimum. */
  lemma EarliestMinimumIsUnique(attributes: seq<string>, labelAttr: string, score: string -> real, b1: string, b2: string)
    requires EarliestMinimum(attributes, labelAttr, score, |attributes|, Some(b1))
    requires EarliestMinimum(attributes, labelAttr, score, |attributes|, Some(b2))
    ensures b1 == b2
  {
    var k1 := FirstIndex(attributes, b1);
    var k2 := FirstIndex(attributes, b2);
    assert k1 == k2;
  }

  /** The candidates a build may split on: the listed attributes other than the label. */
  function CandidateSet(attributes: seq<string>, labelAttr: string): set<string> {
    set a | a in attributes && a != labelAttr
  }

  /**
   * `t` is consistent with the non-empty `dataset` it was built from: a leaf's class is the
   * label of every record, and a branch has one child per value of its attribute observed
   * in the dataset, each consistent with the records carrying that value.
   */
  ghost predicate Fits(t: DecisionVertex, dataset: Dataset, labelAttr: string)
    decreases t
  {
    && dataset != []
    && match t
       case Leaf(c) => forall r :: r in dataset ==> labelAttr in r && r[labelAttr] == c
       case Branch(a, children) =>
         && HasAttribute(dataset, a)
         && children.Keys == ObservedValues(dataset, a)
         && forall v :: v in children ==> Fits(children[v], Subset(dataset, a, v), labelAttr)
  }


  /** The records carrying one value of `split` answer every query the parent's records answer. */
  lemma SubsetIsQueryable(dataset: Dataset, labelAttr: string, attributes: seq<string>, split: string, v: string)
    requires Queryable(dataset, labelAttr, attributes)
    requires split in attributes
    ensures Queryable(Subset(dataset, split, v), labelAttr, Remove(attributes, split))
  {
  }

  /**
   * `id3`: a leaf when all labels agree; otherwise a branch on the attribute of smallest
   * split entropy (see `Grow`). The threshold is passed down unchanged and otherwise unused.
   */
  function Id3(dataset: Dataset, labelAttr: string, attributes: seq<string>, entropyThreshold: real, log2: real -> real)
    : (r: Result<DecisionVertex, Id3Error>)
    requires Queryable(dataset, labelAttr, attributes)
    ensures r == Failure(EmptyDataset) <==> dataset == []
    ensures r.Success? ==> (r.value.Leaf? <==> SameValue(dataset, labelAttr))
    decreases |attributes|, 2
  {
    if dataset == [] then Failure(EmptyDataset)
    else if AttrAllEq(dataset, labelAttr) then Success(Leaf(dataset[0][labelAttr]))
    else
      match SplitAttribute(attributes, labelAttr, SplitScore(dataset, labelAttr, log2))
      case None => Failure(NoSplitAttribute)
      case Some(split) => Grow(dataset, labelAttr, attributes, split, entropyThreshold, log2)
  }

  /**
   * The score `split_attribute` ranks a candidate by: the split entropy of its pairs with
   * the label. Only candidates are ever scored, and every record defines each of them;
   * the 0 for an attribute some record lacks is never consulted.
   */
  function SplitScore(dataset: Dataset, labelAttr: string, log2: real -> real): (score: string -> real)
    requires HasAttribute(dataset, labelAttr)
  {
    a => if HasAttribute(dataset, a) then SplitEntropy(log2, Pairs(dataset, a, labelAttr)) else 0.0
  }

  /** The branch of `id3` on `split`: one subtree per value of `split` observed in the dataset. */
  function Grow(dataset: Dataset, labelAttr: string, attributes: seq<string>, split: string, entropyThreshold: real, log2: real -> real)
    : (r: Result<DecisionVertex, Id3Error>)
    requires Queryable(dataset, labelAttr, attributes)
    requires dataset != []
    requires split in attributes
    ensures r.Failure? ==> r.error == NoSplitAttribute
    ensures r.Success? ==> r.value.Branch? && r.value.attribute == split
    ensures r.Success? ==> r.value.children.Keys == ObservedValues(dataset, split)
    decreases |attributes|, 1
  {
    var values := Distinct(Column(dataset, split));
    match Subtrees(dataset, labelAttr, attributes, split, values, entropyThreshold, log2)
    case Failure(e) => Failure(e)
    case Success(children) => Success(Branch(split, children))
  }

  /**
   * The loop of `id3` over the observed values of `split`: one subtree per value. A failing
   * subtree fails the whole build, as a panic in the recursive call would.
   */
  function Subtrees(dataset: Dataset, labelAttr: string, attributes: seq<string>, split: string, values: seq<string>,
                    entropyThreshold: real, log2: real -> real)
    : (r: Result<map<string, DecisionVertex>, Id3Error>)
    requires Queryable(dataset, labelAttr, attributes)
    requires split in attributes
    requires forall v :: v in values ==> v in ObservedValues(dataset, split)
    ensures r.Failure? ==> r.error == NoSplitAttribute
    ensures r.Success? ==> r.value.Keys == set v | v in values
    decreases |attributes|, 0, |values|
  {
    if values == [] then Success(map[])
    else
      ObservedValueIsPresent(dataset, split, values[0]);
      match Subtree(dataset, labelAttr, attributes, split, values[0], entropyThreshold, log2)
      case Failure(e) => Failure(e)
      case Success(child) =>
        match Subtrees(dataset, labelAttr, attributes, split, values[1..], entropyThreshold, log2)
        case Failure(e) => Failure(e)
        case Success(rest) => Success(rest[values[0] := child])
  }

  /**
   * One iteration of that loop: the tree built from the records carrying value `v` of
   * `split`, with `split` removed from the candidates. Those records are never empty.
   */
  function Subtree(dataset: Dataset, labelAttr: string, attributes: seq<string>, split: string, v: string,
                   entropyThreshold: real, log2: real -> real)
    : (r: Result<DecisionVertex, Id3Error>)
    requires Queryable(dataset, labelAttr, attributes)
    requires split in attributes
    requires Subset(dataset, split, v) != []
    ensures r.Failure? ==> r.error == NoSplitAttribute
    decreases |attributes|, 0, 0
  {
    SubsetIsQueryable(dataset, labelAttr, attributes, split, v);
    Id3(Subset(dataset, split, v), labelAttr, Remove(attributes, split), entropyThreshold, log2)
  }

  /**
   * The loop succeeds exactly when every child build does: one failing child (a panic
   * in the recursive call) fails the whole branch.
   */
  lemma {:induction false} SubtreesSucceedIffChildrenDo(dataset: Dataset, labelAttr: string, attributes: seq<string>,
                                                       split: string, values: seq<string>,
                                                       entropyThreshold: real, log2: real -> real)
    requires Queryable(dataset, labelAttr, attributes)
    requires split in attributes
    requires forall v :: v in values ==> v in ObservedValues(dataset, split)
    ensures Subtrees(dataset, labelAttr, attributes, split, values, entropyThreshold, log2).Success?
        <==> forall i :: 0 <= i < |values| ==>
               Id3(Subset(dataset, split, values[i]), labelAttr, Remove(attributes, split), entropyThreshold, log2).Success?
  {
    if values != [] {
      SubtreesSucceedIffChildrenDo(dataset, labelAttr, attributes, split, values[1..], entropyThreshold, log2);
      ObservedValueIsPresent(dataset, split, values[0]);
      assert forall i :: 0 < i < |values| ==> values[i] == values[1..][i - 1];
    }
  }

  // ---------------------------------------------------------------------------
  // Properties of the built tree

  /** A non-empty dataset whose records all carry label `c` becomes the single leaf `c`. */
  lemma UniformLabelsGiveLeaf(dataset: Dataset, labelAttr: string, attributes: seq<string>, c: string,
                              entropyThreshold: real, log2: real -> real)
    requires Queryable(dataset, labelAttr, attributes)
    requires dataset != []
    requires forall r :: r in dataset ==> r[labelAttr] == c
    ensures Id3(dataset, labelAttr, attributes, entropyThreshold, log2) == Success(Leaf(c))
  {
    assert dataset[0] in dataset;
  }

  /**
   * Mixed labels with no candidate besides the label attribute: `split_attribute` yields
   * nothing and the build fails where the source unwraps.
   */
  lemma NoCandidateFails(dataset: Dataset, labelAttr: string, attributes: seq<string>,
                         entropyThreshold: real, log2: real -> real)
    requires Queryable(dataset, labelAttr, attributes)
    requires dataset != [] && !SameValue(dataset, labelAttr)
    requires forall a :: a in attributes ==> a == labelAttr
    ensures Id3(dataset, labelAttr, attributes, entropyThreshold, log2) == Failure(NoSplitAttribute)
  {
  }

  /** A branch at the root splits on what `split_attribute` chose under the split-entropy score. */
  lemma RootIsSplitAttribute(dataset: Dataset, labelAttr: string, attributes: seq<string>,
                             entropyThreshold: real, log2: real -> real, t: DecisionVertex)
    requires Queryable(dataset, labelAttr, attributes)
    ensures Id3(dataset, labelAttr, attributes, entropyThreshold, log2) == Success(t) && t.Branch? ==>
      SplitAttribute(attributes, labelAttr, SplitScore(dataset, labelAttr, log2)) == Some(t.attribute)
  {
  }

  /**
   * The root split: a listed attribute other than the label, of split entropy no larger than
   * any other candidate's, and strictly smaller than that of every candidate listed before it.
   */
  lemma RootSplitsOnEarliestMinimum(dataset: Dataset, labelAttr: string, attributes: seq<string>,
                                    entropyThreshold: real, log2: real -> real, t: DecisionVertex)
    requires Queryable(dataset, labelAttr, attributes)
    ensures Id3(dataset, labelAttr, attributes, entropyThreshold, log2) == Success(t) && t.Branch? ==>
      && t.attribute in attributes && t.attribute != labelAttr
      && (forall b :: b in attributes && b != labelAttr ==>
            SplitEntropy(log2, Pairs(dataset, t.attribute, labelAttr)) <= SplitEntropy(log2, Pairs(dataset, b, labelAttr)))
      && (forall j :: 0 <= j < FirstIndex(attributes, t.attribute) && attributes[j] != labelAttr ==>
            SplitEntropy(log2, Pairs(dataset, attributes[j], labelAttr)) > SplitEntropy(log2, Pairs(dataset, t.attribute, labelAttr)))
  {
    if Id3(dataset, labelAttr, attributes, entropyThreshold, log2) == Success(t) && t.Branch? {
      var score := SplitScore(dataset, labelAttr, log2);
      RootIsSplitAttribute(dataset, labelAttr, attributes, entropyThreshold, log2, t);
      var a := t.attribute;
      forall b | b in attributes && b != labelAttr
        ensures SplitEntropy(log2, Pairs(dataset, a, labelAttr)) <= SplitEntropy(log2, Pairs(dataset, b, labelAttr))
      {
        assert score(a) <= score(b);
      }
      forall j | 0 <= j < FirstIndex(attributes, a) && attributes[j] != labelAttr
        ensures SplitEntropy(log2, Pairs(dataset, attributes[j], labelAttr)) > SplitEntropy(log2, Pairs(dataset, a, labelAttr))
      {
        assert score(attributes[j]) > score(a);
      }
    }
  }

  /** A successful build is consistent with its dataset throughout (see `Fits`). */
  lemma {:induction false} Id3Fits(dataset: Dataset, labelAttr: string, attributes: seq<string>,
                                   entropyThreshold: real, log2: real -> real)
    requires Queryable(dataset, labelAttr, attributes)
    ensures var r := Id3(dataset, labelAttr, attributes, entropyThreshold, log2);
      r.Success? ==> Fits(r.value, dataset, labelAttr)
    decreases |attributes|, 2
  {
    var r := Id3(dataset, labelAttr, attributes, entropyThreshold, log2);
    if r.Success? && !AttrAllEq(dataset, labelAttr) {
      var split := SplitAttribute(attributes, labelAttr, SplitScore(dataset, labelAttr, log2)).value;
      GrowFits(dataset, labelAttr, attributes, split, entropyThreshold, log2);
    }
  }

  lemma {:induction false} GrowFits(dataset: Dataset, labelAttr: string, attributes: seq<string>, split: string,
                                    entropyThreshold: real, log2: real -> real)
    requires Queryable(dataset, labelAttr, attributes)
    requires dataset != []
    requires split in attributes
    ensures var r := Grow(dataset, labelAttr, attributes, split, entropyThreshold, log2);
      r.Success? ==> Fits(r.value, dataset, labelAttr)
    decreases |attributes|, 1
  {
    var values := Distinct(Column(dataset, split));
    SubtreesFit(dataset, labelAttr, attributes, split, values, entropyThreshold, log2);
    var sub := Subtrees(dataset, labelAttr, attributes, split, values, entropyThreshold, log2);
    if sub.Success? {
      var t := Branch(split, sub.value);
      assert Grow(dataset, labelAttr, attributes, split, entropyThreshold, log2) == Success(t);
      assert Fits(t, dataset, labelAttr);
    }
  }

  lemma {:induction false} SubtreesFit(dataset: Dataset, labelAttr: string, attributes: seq<string>, split: string,
                                       values: seq<string>, entropyThreshold: real, log2: real -> real)
    requires Queryable(dataset, labelAttr, attributes)
    requires split in attributes
    requires forall v :: v in values ==> v in ObservedValues(dataset, split)
    ensures var r := Subtrees(dataset, labelAttr, attributes, split, values, entropyThreshold, log2);
      r.Success? ==> forall v :: v in r.value ==> Fits(r.value[v], Subset(dataset, split, v), labelAttr)
    decreases |attributes|, 0, |values|
  {
    if values != [] {
      SubsetIsQueryable(dataset, labelAttr, attributes, split, values[0]);
      Id3Fits(Subset(dataset, split, values[0]), labelAttr, Remove(attributes, split), entropyThreshold, log2);
      SubtreesFit(dataset, labelAttr, attributes, split, values[1..], entropyThreshold, log2);
    }
  }

  /** Removing the split attribute from the list removes exactly it from the candidates. */
  lemma CandidatesAfterSplit(attributes: seq<string>, labelAttr: string, split: string)
    ensures CandidateSet(Remove(attributes, split), labelAttr) == CandidateSet(attributes, labelAttr) - {split}
  {
  }

  /**
   * A successful build splits only on candidates, each at most once per walk down the tree
   * (see `UsesOnly` and `PathsRespectAllowed`).
   */
  lemma {:induction false} Id3UsesOnly(dataset: Dataset, labelAttr: string, attributes: seq<string>,
                                       entropyThreshold: real, log2: real -> real)
    requires Queryable(dataset, labelAttr, attributes)
    ensures var r := Id3(dataset, labelAttr, attributes, entropyThreshold, log2);
      r.Success? ==> UsesOnly(r.value, CandidateSet(attributes, labelAttr))
    decreases |attributes|, 2
  {
    var r := Id3(dataset, labelAttr, attributes, entropyThreshold, log2);
    if r.Success? && !AttrAllEq(dataset, labelAttr) {
      var split := SplitAttribute(attributes, labelAttr, SplitScore(dataset, labelAttr, log2)).value;
      GrowUsesOnly(dataset, labelAttr, attributes, split, entropyThreshold, log2);
    }
  }

  lemma {:induction false} GrowUsesOnly(dataset: Dataset, labelAttr: string, attributes: seq<string>, split: string,
                                        entropyThreshold: real, log2: real -> real)
    requires Queryable(dataset, labelAttr, attributes)
    requires dataset != []
    requires split in attributes && split != labelAttr
    ensures var r := Grow(dataset, labelAttr, attributes, split, entropyThreshold, log2);
      r.Success? ==> UsesOnly(r.value, CandidateSet(attributes, labelAttr))
    decreases |attributes|, 1
  {
    var values := Distinct(Column(dataset, split));
    SubtreesUseOnly(dataset, labelAttr, attributes, split, values, entropyThreshold, log2);
    var sub := Subtrees(dataset, labelAttr, attributes, split, values, entropyThreshold, log2);
    if sub.Success? {
      var t := Branch(split, sub.value);
      assert Grow(dataset, labelAttr, attributes, split, entropyThreshold, log2) == Success(t);
      assert split in CandidateSet(attributes, labelAttr);
      assert UsesOnly(t, CandidateSet(attributes, labelAttr));
    }
  }

  lemma {:induction false} SubtreesUseOnly(dataset: Dataset, labelAttr: string, attributes: seq<string>, split: string,
                                           values: seq<string>, entropyThreshold: real, log2: real -> real)
    requires Queryable(dataset, labelAttr, attributes)
    requires split in attributes
    requires forall v :: v in values ==> v in ObservedValues(dataset, split)
    ensures var r := Subtrees(dataset, labelAttr, attributes, split, values, entropyThreshold, log2);
      r.Success? ==> forall v :: v in r.value ==> UsesOnly(r.value[v], CandidateSet(attributes, labelAttr) - {split})
    decreases |attributes|, 0, |values|
  {
    if values != [] {
      SubsetIsQueryable(dataset, labelAttr, attributes, split, values[0]);
      Id3UsesOnly(Subset(dataset, split, values[0]), labelAttr, Remove(attributes, split), entropyThreshold, log2);
      CandidatesAfterSplit(attributes, labelAttr, split);
      SubtreesUseOnly(dataset, labelAttr, attributes, split, values[1..], entropyThreshold, log2);
    }
  }

  /**
   * On every root-to-leaf walk of a built tree the split attributes are distinct candidates,
   * so the depth never exceeds the number of candidates.
   */
  lemma Id3PathsBounded(dataset: Dataset, labelAttr: string, attributes: seq<string>,
                        entropyThreshold: real, log2: real -> real, t: DecisionVertex, path: seq<string>)
    requires Queryable(dataset, labelAttr, attributes)
    ensures Id3(dataset, labelAttr, attributes, entropyThreshold, log2) == Success(t) && OnPath(t, path) ==>
      && NoDuplicates(path)
      && (forall a :: a in path ==> a in attributes && a != labelAttr)
      && |path| <= |CandidateSet(attributes, labelAttr)|
  {
    if Id3(dataset, labelAttr, attributes, entropyThreshold, log2) == Success(t) && OnPath(t, path) {
      Id3UsesOnly(dataset, labelAttr, attributes, entropyThreshold, log2);
      PathsRespectAllowed(t, CandidateSet(attributes, labelAttr), path);
    }
  }

  /** `entropy_threshold` is threaded through the recursion but never consulted. */
  lemma {:induction false} ThresholdIsUnused(dataset: Dataset, labelAttr: string, attributes: seq<string>,
                                             t1: real, t2: real, log2: real -> real)
    requires Queryable(dataset, labelAttr, attributes)
    ensures Id3(dataset, labelAttr, attributes, t1, log2) == Id3(dataset, labelAttr, attributes, t2, log2)
    decreases |attributes|, 2
  {
    if dataset != [] && !AttrAllEq(dataset, labelAttr) {
      var split := SplitAttribute(attributes, labelAttr, SplitScore(dataset, labelAttr, log2));
      if split.Some? {
        GrowThresholdIsUnused(dataset, labelAttr, attributes, split.value, t1, t2, log2);
      }
    }
  }

  lemma {:induction false} GrowThresholdIsUnused(dataset: Dataset, labelAttr: string, attributes: seq<string>, split: string,
                                                 t1: real, t2: real, log2: real -> real)
    requires Queryable(dataset, labelAttr, attributes)
    requires dataset != []
    requires split in attributes
    ensures Grow(dataset, labelAttr, attributes, split, t1, log2) == Grow(dataset, labelAttr, attributes, split, t2, log2)
    decreases |attributes|, 1
  {
    SubtreesThresholdIsUnused(dataset, labelAttr, attributes, split, Distinct(Column(dataset, split)), t1, t2, log2);
  }

  lemma {:induction false} SubtreesThresholdIsUnused(dataset: Dataset, labelAttr: string, attributes: seq<string>, split: string,
                                                     values: seq<string>, t1: real, t2: real, log2: real -> real)
    requires Queryable(dataset, labelAttr, attributes)
    requires split in attributes
    requires forall v :: v in values ==> v in ObservedValues(dataset, split)
    ensures Subtrees(dataset, labelAttr, attributes, split, values, t1, log2)
         == Subtrees(dataset, labelAttr, attributes, split, values, t2, log2)
    decreases |attributes|, 0, |values|
  {
    if values != [] {
      SubsetIsQueryable(dataset, labelAttr, attributes, split, values[0]);
      ThresholdIsUnused(Subset(dataset, split, values[0]), labelAttr, Remove(attributes, split), t1, t2, log2);
      SubtreesThresholdIsUnused(dataset, labelAttr, attributes, split, values[1..], t1, t2, log2);
    }
  }
}
