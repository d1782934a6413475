/** `combine`: the merge of two sorted sequences without duplicate keys, used for counter shards and
    for the cells of collections. */
module Combine {
  import opened Basics

  ghost predicate Sorted<T(!new)>(s: seq<T>, key: T -> int) {
    forall i, j :: 0 <= i < j < |s| ==> key(s[i]) < key(s[j])
  }

  /** The element with key `k`, if any. */
  function Find<T>(s: seq<T>, key: T -> int, k: int): (r: Option<T>)
    ensures r.Some? ==> r.value in s && key(r.value) == k
    ensures r.None? ==> forall x :: x in s ==> key(x) != k
  {
    if s == [] then None
    else if key(s[0]) == k then Some(s[0])
    else Find(s[1..], key, k)
  }

  function PickOpt<T>(a: Option<T>, b: Option<T>, pick: (T, T) -> T): Option<T> {
    if a.None? then b else if b.None? then a else Some(pick(a.value, b.value))
  }

  /** What `combine` produces. */
  function Combined<T>(a: seq<T>, b: seq<T>, key: T -> int, pick: (T, T) -> T): seq<T> {
    if a == [] then b
    else if b == [] then a
    else if key(a[0]) < key(b[0]) then [a[0]] + Combined(a[1..], b, key, pick)
    else if key(b[0]) < key(a[0]) then [b[0]] + Combined(a, b[1..], key, pick)
    else [pick(a[0], b[0])] + Combined(a[1..], b[1..], key, pick)
  }

  /** The loop of `combine`. */
  method CombineInto<T>(a: seq<T>, b: seq<T>, key: T -> int, pick: (T, T) -> T) returns (out: seq<T>)
    ensures out == Combined(a, b, key, pick)
  {
    hide Combined;
    out := [];
    var i, j := 0, 0;
    while i < |a| && j < |b|
      invariant i <= |a| && j <= |b|
      invariant out + Combined(a[i..], b[j..], key, pick) == Combined(a, b, key, pick)
      decreases |a| - i + |b| - j
    {
      Unroll(a, b, i, j, key, pick);
      ghost var rest := Combined(a[i..], b[j..], key, pick);
      if key(a[i]) < key(b[j]) {
        out := out + [a[i]];
        i := i + 1;
      } else if key(b[j]) < key(a[i]) {
        out := out + [b[j]];
        j := j + 1;
      } else {
        out := out + [pick(a[i], b[j])];
        i, j := i + 1, j + 1;
      }
      assert out + Combined(a[i..], b[j..], key, pick) == out[..|out| - 1] + rest;
    }
    OneLeft(a[i..], b[j..], key, pick);
    out := out + a[i..] + b[j..];
  }

  lemma Unroll<T>(a: seq<T>, b: seq<T>, i: nat, j: nat, key: T -> int, pick: (T, T) -> T)
    requires i < |a| && j < |b|
    ensures Combined(a[i..], b[j..], key, pick) ==
      if key(a[i]) < key(b[j]) then [a[i]] + Combined(a[i + 1..], b[j..], key, pick)
      else if key(b[j]) < key(a[i]) then [b[j]] + Combined(a[i..], b[j + 1..], key, pick)
      else [pick(a[i], b[j])] + Combined(a[i + 1..], b[j + 1..], key, pick)
  {
  }

  lemma OneLeft<T>(a: seq<T>, b: seq<T>, key: T -> int, pick: (T, T) -> T)
    requires a == [] || b == []
    ensures Combined(a, b, key, pick) == a + b
  {
  }

  ghost predicate KeepsKey<T(!new)>(key: T -> int, pick: (T, T) -> T) {
    forall x, y :: key(x) == key(y) ==> key(pick(x, y)) == key(x)
  }

  // ---------------------------------------------------------------- lookups determine sorted sequences

  lemma SortedTail<T(!new)>(s: seq<T>, key: T -> int)
    requires Sorted(s, key) && s != []
    ensures Sorted(s[1..], key)
    ensures forall k :: k <= key(s[0]) ==> Find(s[1..], key, k) == None
  {
    assert forall x :: x in s[1..] ==> key(x) > key(s[0]);
  }

  lemma FoundIn<T(!new)>(s: seq<T>, x: T, key: T -> int)
    requires Sorted(s, key) && x in s
    ensures Find(s, key, key(x)) == Some(x)
  {
    var f := Find(s, key, key(x)).value;
    var i, j :| 0 <= i < |s| && 0 <= j < |s| && s[i] == x && s[j] == f;
    var ki, kj := key(s[i]), key(s[j]);
    assert (i < j ==> ki < kj) && (j < i ==> kj < ki);
  }

  lemma {:induction false} SameLookups<T(!new)>(s: seq<T>, t: seq<T>, key: T -> int)
    requires Sorted(s, key) && Sorted(t, key)
    requires forall k :: Find(s, key, k) == Find(t, key, k)
    ensures s == t
  {
    assert s != [] ==> Find(s, key, key(s[0])) == Some(s[0]);
    assert t != [] ==> Find(t, key, key(t[0])) == Some(t[0]);
    if s != [] && t != [] {
      SortedTail(s, key);
      SortedTail(t, key);
      var ks, kt := key(s[0]), key(t[0]);
      assert ks < kt ==> Find(t, key, ks).None?;
      assert kt < ks ==> Find(s, key, kt).None?;
      forall k ensures Find(s[1..], key, k) == Find(t[1..], key, k) {
        assert Find(s, key, k) == Find(t, key, k);
      }
      SameLookups(s[1..], t[1..], key);
    }
  }

  lemma {:induction false} CombinedAbove<T(!new)>(a: seq<T>, b: seq<T>, key: T -> int, pick: (T, T) -> T, lo: int)
    requires KeepsKey(key, pick)
    requires forall x :: x in a || x in b ==> lo < key(x)
    ensures forall x :: x in Combined(a, b, key, pick) ==> lo < key(x)
    decreases |a| + |b|
  {
    if a != [] && b != [] {
      if key(a[0]) < key(b[0]) {
        CombinedAbove(a[1..], b, key, pick, lo);
      } else if key(b[0]) < key(a[0]) {
        CombinedAbove(a, b[1..], key, pick, lo);
      } else {
        CombinedAbove(a[1..], b[1..], key, pick, lo);
      }
    }
  }

  lemma {:induction false} CombinedSorted<T(!new)>(a: seq<T>, b: seq<T>, key: T -> int, pick: (T, T) -> T)
    requires Sorted(a, key) && Sorted(b, key) && KeepsKey(key, pick)
    ensures Sorted(Combined(a, b, key, pick), key)
    decreases |a| + |b|
  {
    if a != [] && b != [] {
      var a', b' := a, b;
      if key(a[0]) <= key(b[0]) {
        SortedTail(a, key);
        a' := a[1..];
      }
      if key(b[0]) <= key(a[0]) {
        SortedTail(b, key);
        b' := b[1..];
      }
      var lo := if key(a[0]) <= key(b[0]) then key(a[0]) else key(b[0]);
      CombinedSorted(a', b', key, pick);
      CombinedAbove(a', b', key, pick, lo);
    }
  }

  /** A lookup in the combination is the combination of the lookups, and the result is sorted. */
  lemma {:induction false} CombinedLookup<T(!new)>(a: seq<T>, b: seq<T>, key: T -> int, pick: (T, T) -> T, k: int)
    requires Sorted(a, key) && Sorted(b, key) && KeepsKey(key, pick)
    ensures Find(Combined(a, b, key, pick), key, k) == PickOpt(Find(a, key, k), Find(b, key, k), pick)
  {
    if a != [] && b != [] {
      SortedTail(a, key);
      SortedTail(b, key);
      if key(a[0]) < key(b[0]) {
        CombinedLookup(a[1..], b, key, pick, k);
      } else if key(b[0]) < key(a[0]) {
        CombinedLookup(a, b[1..], key, pick, k);
      } else {
        CombinedLookup(a[1..], b[1..], key, pick, k);
      }
    }
  }

  lemma {:induction false} FindAppend<T>(s: seq<T>, x: T, key: T -> int, k: int)
    ensures Find(s + [x], key, k) ==
      if Find(s, key, k).Some? then Find(s, key, k) else if key(x) == k then Some(x) else None
  {
    if s != [] && key(s[0]) != k {
      assert (s + [x])[1..] == s[1..] + [x];
      FindAppend(s[1..], x, key, k);
    }
  }

  // ---------------------------------------------------------------- laws

  lemma Commutes<T(!new)>(a: seq<T>, b: seq<T>, key: T -> int, pick: (T, T) -> T)
    requires Sorted(a, key) && Sorted(b, key) && KeepsKey(key, pick)
    requires forall x, y :: x in a && y in b && key(x) == key(y) ==> pick(x, y) == pick(y, x)
    ensures Combined(a, b, key, pick) == Combined(b, a, key, pick)
  {
    CombinedSorted(a, b, key, pick);
    CombinedSorted(b, a, key, pick);
    forall k ensures Find(Combined(a, b, key, pick), key, k) == Find(Combined(b, a, key, pick), key, k) {
      CombinedLookup(a, b, key, pick, k);
      CombinedLookup(b, a, key, pick, k);
    }
    SameLookups(Combined(a, b, key, pick), Combined(b, a, key, pick), key);
  }

  lemma Associates<T(!new)>(a: seq<T>, b: seq<T>, c: seq<T>, key: T -> int, pick: (T, T) -> T)
    requires Sorted(a, key) && Sorted(b, key) && Sorted(c, key) && KeepsKey(key, pick)
    requires forall x, y, z :: x in a && y in b && z in c && key(x) == key(y) == key(z) ==>
      pick(pick(x, y), z) == pick(x, pick(y, z))
    ensures Combined(Combined(a, b, key, pick), c, key, pick) == Combined(a, Combined(b, c, key, pick), key, pick)
  {
    var ab, bc := Combined(a, b, key, pick), Combined(b, c, key, pick);
    CombinedSorted(a, b, key, pick);
    CombinedSorted(b, c, key, pick);
    CombinedSorted(ab, c, key, pick);
    CombinedSorted(a, bc, key, pick);
    forall k ensures Find(Combined(ab, c, key, pick), key, k) == Find(Combined(a, bc, key, pick), key, k) {
      CombinedLookup(a, b, key, pick, k);
      CombinedLookup(b, c, key, pick, k);
      CombinedLookup(ab, c, key, pick, k);
      CombinedLookup(a, bc, key, pick, k);
    }
    SameLookups(Combined(ab, c, key, pick), Combined(a, bc, key, pick), key);
  }

  lemma {:induction false} Idempotent<T(!new)>(a: seq<T>, key: T -> int, pick: (T, T) -> T)
    requires forall x :: x in a ==> pick(x, x) == x
    ensures Combined(a, a, key, pick) == a
  {
    if a != [] {
      Idempotent(a[1..], key, pick);
    }
  }
}
