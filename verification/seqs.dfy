/** Finite-sequence helpers: occurrence counts, first-occurrence deduplication and removal. */
module Seqs {

  /** Number of occurrences of `x` in `s`. */
  function Count<T(==,!new)>(s: seq<T>, x: T): (n: nat)
    ensures n <= |s|
    ensures n > 0 <==> x in s
  {
    if s == [] then 0 else (if s[0] == x then 1 else 0) + Count(s[1..], x)
  }

  predicate NoDuplicates<T(==,!new)>(s: seq<T>) {
    forall i, j :: 0 <= i < j < |s| ==> s[i] != s[j]
  }

  /** The distinct elements of `s`, in order of first occurrence. */
  function Distinct<T(==,!new)>(s: seq<T>): (r: seq<T>)
    ensures NoDuplicates(r)
    ensures forall x :: x in r <==> x in s
    ensures |r| <= |s|
  {
    if s == [] then []
    else
      var rest := Distinct(s[..|s| - 1]);
      if s[|s| - 1] in rest then rest else rest + [s[|s| - 1]]
  }

  /** `s` with every occurrence of `x` dropped, the rest kept in order. */
  function Remove<T(==,!new)>(s: seq<T>, x: T): (r: seq<T>)
    ensures forall y :: y in r <==> y in s && y != x
    ensures |r| == |s| - Count(s, x)
  {
    if s == [] then []
    else if s[0] == x then Remove(s[1..], x)
    else [s[0]] + Remove(s[1..], x)
  }

  /** Removal keeps the order of what remains: it distributes over concatenation. */
  lemma {:induction false} RemoveAppend<T(!new)>(s1: seq<T>, s2: seq<T>, x: T)
    ensures Remove(s1 + s2, x) == Remove(s1, x) + Remove(s2, x)
  {
    if s1 == [] {
      assert s1 + s2 == s2;
    } else {
      assert (s1 + s2)[1..] == s1[1..] + s2;
      RemoveAppend(s1[1..], s2, x);
    }
  }

  /** Total number of occurrences in `s` of the elements listed in `vs`. */
  function CountAll<T(==,!new)>(s: seq<T>, vs: seq<T>): nat {
    if vs == [] then 0 else Count(s, vs[0]) + CountAll(s, vs[1..])
  }

  lemma {:induction false} CountOfUnique<T(!new)>(vs: seq<T>, x: T)
    requires NoDuplicates(vs) && x in vs
    ensures Count(vs, x) == 1
  {
    if vs[0] == x {
      assert x !in vs[1..] by {
        forall k | 0 <= k < |vs| - 1 ensures vs[1..][k] != x {
          assert vs[1..][k] == vs[k + 1];
        }
      }
    } else {
      CountOfUnique(vs[1..], x);
    }
  }

  lemma {:induction false} CountAllCons<T(!new)>(x: T, s: seq<T>, vs: seq<T>)
    ensures CountAll([x] + s, vs) == CountAll(s, vs) + Count(vs, x)
  {
    if vs != [] {
      assert ([x] + s)[1..] == s;
      CountAllCons(x, s, vs[1..]);
    }
  }

  /** Counting every element of a duplicate-free cover of `s` accounts for each position of `s` once. */
  lemma {:induction false} CountAllCover<T(!new)>(s: seq<T>, vs: seq<T>)
    requires NoDuplicates(vs)
    requires forall x :: x in s ==> x in vs
    ensures CountAll(s, vs) == |s|
  {
    if s == [] {
      CountAllEmpty(vs);
    } else {
      assert s == [s[0]] + s[1..];
      CountAllCons(s[0], s[1..], vs);
      CountAllCover(s[1..], vs);
      CountOfUnique(vs, s[0]);
    }
  }

  lemma {:induction false} CountAllEmpty<T(!new)>(vs: seq<T>)
    ensures CountAll([], vs) == 0
  {
    if vs != [] {
      CountAllEmpty(vs[1..]);
    }
  }

  /** The occurrence counts of the distinct values of `s` sum to the length of `s`. */
  lemma CountsOverDistinct<T(!new)>(s: seq<T>)
    ensures CountAll(s, Distinct(s)) == |s|
  {
    CountAllCover(s, Distinct(s));
  }

  /** If every element of `s` equals its first one, `s` has exactly one distinct value, occurring |s| times. */
  lemma {:induction false} UniformDistinct<T(!new)>(s: seq<T>)
    requires |s| > 0
    requires forall i :: 0 <= i < |s| ==> s[i] == s[0]
    ensures Distinct(s) == [s[0]]
    ensures Count(s, s[0]) == |s|
  {
    if |s| > 1 {
      var p := s[..|s| - 1];
      assert forall i :: 0 <= i < |p| ==> p[i] == p[0];
      UniformDistinct(p);
      UniformCount(s);
    }
  }

  lemma {:induction false} UniformCount<T(!new)>(s: seq<T>)
    requires |s| > 0
    requires forall i :: 0 <= i < |s| ==> s[i] == s[0]
    ensures Count(s, s[0]) == |s|
  {
    if |s| > 1 {
      var t := s[1..];
      assert forall i :: 0 <= i < |t| ==> t[i] == t[0] by {
        forall i | 0 <= i < |t| ensures t[i] == t[0] {
          assert t[i] == s[i + 1];
        }
      }
      UniformCount(t);
    }
  }

  /** `s` without its element at position `k`. */
  function RemoveAt<T>(s: seq<T>, k: nat): (r: seq<T>)
    requires k < |s|
    ensures |r| == |s| - 1
    ensures forall i :: 0 <= i < |r| ==> r[i] == (if i < k then s[i] else s[i + 1])
  {
    s[..k] + s[k + 1..]
  }

  /** Dropping one position of a duplicate-free sequence drops exactly that element and keeps the rest distinct. */
  lemma RemoveAtDistinct<T(!new)>(s: seq<T>, k: nat)
    requires NoDuplicates(s) && k < |s|
    ensures NoDuplicates(RemoveAt(s, k))
    ensures forall y :: y in RemoveAt(s, k) <==> y in s && y != s[k]
  {
    var r := RemoveAt(s, k);
    forall y | y in s && y != s[k] ensures y in r {
      var j :| 0 <= j < |s| && s[j] == y;
      if j < k { assert r[j] == y; } else { assert r[j - 1] == y; }
    }
  }

  /** A sequence is empty or contains its first element. */
  lemma EmptyOrHasFirst<T>(s: seq<T>)
    ensures s == [] || s[0] in s
  {
  }
}
