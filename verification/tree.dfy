/** The decision tree and the record abstraction it is built from (the crate's `tree` module). */
module Tree {
  import opened Seqs

  /** A labelled example: attribute name to discrete attribute value. `get_attribute` is a lookup. */
  type Record = map<string, string>

  /** The records a tree is induced from, in the caller's order. */
  type Dataset = seq<Record>

  /** A vertex of the tree: a split on an attribute with one child per observed value, or a decided class. */
  datatype DecisionVertex =
    | Branch(attribute: string, children: map<string, DecisionVertex>)
    | Leaf(category: string)

  /** Every record defines `attr`, so `get_attribute(attr)` is answered for each of them. */
  predicate HasAttribute(records: Dataset, attr: string) {
    forall r :: r in records ==> attr in r
  }

  /** All records agree on the value of `attr`. */
  predicate SameValue(records: Dataset, attr: string)
    requires HasAttribute(records, attr)
  {
    forall i, j :: 0 <= i < |records| && 0 <= j < |records| ==> records[i][attr] == records[j][attr]
  }

  /** The distinct values of `attr` that occur in the records. */
  function ObservedValues(records: Dataset, attr: string): set<string>
    requires HasAttribute(records, attr)
  {
    set r | r in records :: r[attr]
  }

  /** The value of `attr` in each record, in dataset order. */
  function Column(records: Dataset, attr: string): (vs: seq<string>)
    requires HasAttribute(records, attr)
    ensures |vs| == |records|
    ensures forall i :: 0 <= i < |records| ==> vs[i] == records[i][attr]
  {
    seq(|records|, i requires 0 <= i < |records| => records[i][attr])
  }

  /**
   * The column's elements are exactly the observed values, so iterating over it visits
   * the keys a branch on `attr` must have.
   */
  lemma ColumnHoldsObservedValues(records: Dataset, attr: string)
    requires HasAttribute(records, attr)
    ensures forall v :: v in Column(records, attr) <==> v in ObservedValues(records, attr)
  {
    forall v | v in ObservedValues(records, attr)
      ensures v in Column(records, attr)
    {
      var r :| r in records && r[attr] == v;
      var i :| 0 <= i < |records| && records[i] == r;
      assert Column(records, attr)[i] == v;
    }
  }

  /** The records whose value of `attr` is `value`, in dataset order. */
  function Subset(records: Dataset, attr: string, value: string): (sub: Dataset)
    requires HasAttribute(records, attr)
    ensures forall r :: r in sub <==> r in records && r[attr] == value
    ensures |sub| == Count(Column(records, attr), value)
  {
    if records == [] then []
    else
      assert Column(records[1..], attr) == Column(records, attr)[1..];
      var rest := Subset(records[1..], attr, value);
      if records[0][attr] == value then [records[0]] + rest else rest
  }

  /** Selection keeps the dataset's order: it distributes over concatenation. */
  lemma {:induction false} SubsetAppend(a: Dataset, b: Dataset, attr: string, value: string)
    requires HasAttribute(a, attr) && HasAttribute(b, attr)
    ensures Subset(a + b, attr, value) == Subset(a, attr, value) + Subset(b, attr, value)
  {
    if a == [] {
      assert a + b == b;
    } else {
      var ab := a + b;
      assert ab[0] == a[0] && ab[1..] == a[1..] + b;
      SubsetAppend(a[1..], b, attr, value);
    }
  }

  /** A record carrying `value` is selected as often as it occurs; any other record never. */
  lemma {:induction false} SubsetMultiplicity(records: Dataset, attr: string, value: string)
    requires HasAttribute(records, attr)
    ensures forall r :: r in records ==>
      multiset(Subset(records, attr, value))[r] == (if r[attr] == value then multiset(records)[r] else 0)
  {
    if records != [] {
      var rest := records[1..];
      SubsetMultiplicity(rest, attr, value);
      assert records == [records[0]] + rest;
      forall r | r in records
        ensures multiset(Subset(records, attr, value))[r] == (if r[attr] == value then multiset(records)[r] else 0)
      {
        if r !in rest {
          assert multiset(rest)[r] == 0;
          assert r !in Subset(rest, attr, value);
        }
      }
    }
  }

  /** Sum of the sizes of the subsets selected by the listed values. */
  function SubsetSizes(records: Dataset, attr: string, values: seq<string>): nat
    requires HasAttribute(records, attr)
  {
    if values == [] then 0 else |Subset(records, attr, values[0])| + SubsetSizes(records, attr, values[1..])
  }

  lemma {:induction false} SubsetSizesAreCounts(records: Dataset, attr: string, values: seq<string>)
    requires HasAttribute(records, attr)
    ensures SubsetSizes(records, attr, values) == CountAll(Column(records, attr), values)
  {
    if values != [] {
      SubsetSizesAreCounts(records, attr, values[1..]);
    }
  }

  /** A value observed in the records selects at least one of them. */
  lemma ObservedValueIsPresent(records: Dataset, attr: string, v: string)
    requires HasAttribute(records, attr)
    requires v in ObservedValues(records, attr)
    ensures Subset(records, attr, v) != []
  {
    var r :| r in records && r[attr] == v;
    assert r in Subset(records, attr, v);
  }

  /**
   * Grouping the records by their value of `attr` partitions them: every observed
   * value selects a non-empty group, every record lies in the group of its own value
   * (as often as it occurs in the records) and in no other, and the group sizes add up
   * to the number of records.
   */
  lemma PartitionByValue(records: Dataset, attr: string)
    requires HasAttribute(records, attr)
    ensures forall v :: v in ObservedValues(records, attr) ==> Subset(records, attr, v) != []
    ensures forall r, v :: r in records && r in Subset(records, attr, v) ==> v == r[attr]
    ensures forall r :: r in records ==> r[attr] in ObservedValues(records, attr) && r in Subset(records, attr, r[attr])
    ensures SubsetSizes(records, attr, Distinct(Column(records, attr))) == |records|
    ensures forall r :: r in records ==> multiset(Subset(records, attr, r[attr]))[r] == multiset(records)[r]
  {
    forall r | r in records
      ensures multiset(Subset(records, attr, r[attr]))[r] == multiset(records)[r]
    {
      SubsetMultiplicity(records, attr, r[attr]);
    }
    forall v | v in ObservedValues(records, attr)
      ensures Subset(records, attr, v) != []
    {
      ObservedValueIsPresent(records, attr, v);
    }
    SubsetSizesAreCounts(records, attr, Distinct(Column(records, attr)));
    CountsOverDistinct(Column(records, attr));
  }

  /** Every branch of `t` splits on an attribute of `allowed`, and its subtrees only on the others. */
  ghost predicate UsesOnly(t: DecisionVertex, allowed: set<string>)
    decreases t
  {
    match t
    case Leaf(_) => true
    case Branch(a, children) =>
      && a in allowed
      && forall v :: v in children ==> UsesOnly(children[v], allowed - {a})
  }

  /** `path` lists the split attributes met on some walk from the root of `t` down to a leaf. */
  ghost predicate OnPath(t: DecisionVertex, path: seq<string>)
    decreases t
  {
    match t
    case Leaf(_) => path == []
    case Branch(a, children) =>
      && |path| > 0
      && path[0] == a
      && exists v :: v in children && OnPath(children[v], path[1..])
  }

  /**
   * In a tree that splits only on `allowed`, each removed once used, no attribute is met twice
   * on a root-to-leaf walk, every one met is allowed, and the depth is at most |allowed|.
   */
  lemma {:induction false} PathsRespectAllowed(t: DecisionVertex, allowed: set<string>, path: seq<string>)
    requires UsesOnly(t, allowed)
    requires OnPath(t, path)
    ensures NoDuplicates(path)
    ensures forall a :: a in path ==> a in allowed
    ensures |path| <= |allowed|
    decreases t
  {
    match t
    case Leaf(_) =>
    case Branch(a, children) =>
      var v :| v in children && OnPath(children[v], path[1..]);
      PathsRespectAllowed(children[v], allowed - {a}, path[1..]);
      assert path == [a] + path[1..];
      assert |allowed - {a}| == |allowed| - 1;
  }
}
