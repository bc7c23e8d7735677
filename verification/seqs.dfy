/** Order-preserving filtering and first-occurrence de-duplication of
    sequences, as `Array.prototype.filter` and `Array.from(new Set(...))`
    do them. */
module Seqs {

  /** `a` is `b` with some elements left out, in the same order. */
  predicate IsSubsequence<T(==)>(a: seq<T>, b: seq<T>)
    decreases |b|
  {
    if a == [] then true
    else if b == [] then false
    else if a[0] == b[0] then IsSubsequence(a[1..], b[1..])
    else IsSubsequence(a, b[1..])
  }

  /** `r` is `s` filtered by `p`: in order, each element kept exactly as
      often as it occurs in `s` when it satisfies `p`, otherwise never. */
  predicate FilteredBy<T(==)>(r: seq<T>, s: seq<T>, p: T -> bool) {
    && IsSubsequence(r, s)
    && (forall x :: x in r ==> x in s)
    && (forall x :: x in s ==> multiset(r)[x] == if p(x) then multiset(s)[x] else 0)
  }

  /** `s.filter(p)`. */
  function Keep<T>(s: seq<T>, p: T -> bool): seq<T>
    decreases |s|
  {
    if s == [] then []
    else if p(s[0]) then [s[0]] + Keep(s[1..], p)
    else Keep(s[1..], p)
  }

  /** The kept elements satisfy `p`, come from `s` and keep their order. */
  lemma {:induction false} KeepSubsequence<T>(s: seq<T>, p: T -> bool)
    ensures IsSubsequence(Keep(s, p), s)
    ensures forall x :: x in Keep(s, p) ==> p(x) && x in s
    decreases |s|
  {
    if s != [] {
      var rest := Keep(s[1..], p);
      KeepSubsequence(s[1..], p);
      if p(s[0]) {
        assert ([s[0]] + rest)[1..] == rest;
      } else {
        assert rest != [] ==> rest[0] != s[0];
      }
    }
  }

  /** Each element of `s` satisfying `p` is kept as often as it occurs. */
  lemma {:induction false} KeepCounts<T>(s: seq<T>, p: T -> bool)
    ensures forall x :: x in s ==> multiset(Keep(s, p))[x] == if p(x) then multiset(s)[x] else 0
    decreases |s|
  {
    if s != [] {
      var rest := Keep(s[1..], p);
      KeepCounts(s[1..], p);
      KeepSubsequence(s[1..], p);
      assert s == [s[0]] + s[1..];
      assert multiset(s) == multiset{s[0]} + multiset(s[1..]);
      if p(s[0]) {
        assert multiset(Keep(s, p)) == multiset{s[0]} + multiset(rest);
      } else {
        assert Keep(s, p) == rest;
      }
    }
  }

  /** `Keep(s, p)` is `s` filtered by `p`. */
  lemma KeepFiltered<T>(s: seq<T>, p: T -> bool)
    ensures FilteredBy(Keep(s, p), s, p)
    ensures forall x :: x in s && p(x) ==> x in Keep(s, p)
  {
    KeepSubsequence(s, p);
    KeepCounts(s, p);
  }

  /** A filtered sequence holds every element of the original that
      satisfies the predicate. */
  lemma FilteredKeeps<T>(r: seq<T>, s: seq<T>, p: T -> bool, x: T)
    requires FilteredBy(r, s, p) && x in s && p(x)
    ensures x in r
  {
    assert multiset(s)[x] > 0;
  }

  /** `s.map(f)`. */
  function Map<T, U>(s: seq<T>, f: T -> U): (r: seq<U>)
    ensures |r| == |s|
    ensures forall i :: 0 <= i < |s| ==> r[i] == f(s[i])
  {
    if s == [] then [] else [f(s[0])] + Map(s[1..], f)
  }

  predicate NoDuplicates<T(==)>(s: seq<T>) {
    forall i, j :: 0 <= i < j < |s| ==> s[i] != s[j]
  }

  /** `Array.from(new Set(s))`: each value once, at its first occurrence. */
  function Dedup<T(==)>(s: seq<T>): (r: seq<T>)
    ensures NoDuplicates(r)
    ensures forall x :: x in r ==> x in s
    ensures forall x :: x in s ==> x in r
    decreases |s|
  {
    if s == [] then []
    else
      var d := Dedup(s[..|s| - 1]);
      assert s == s[..|s| - 1] + [s[|s| - 1]];
      if s[|s| - 1] in d then d else d + [s[|s| - 1]]
  }
}
