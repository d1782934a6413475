/** The legacy representation of compound keys, and comparing keys in its order without producing it. */
module LegacyCompound {
  import opened Basics
  import opened Bytes
  import opened Compounds

  /** The components of a key, and whether its type has exactly one of them. */
  datatype Key = Key(singular: bool, components: seq<bytes>) {
    ghost predicate Valid() {
      Encodable(components) && (singular ==> |components| == 1)
    }
  }

  function LegacyComponent(c: bytes): (b: bytes)
    requires |c| <= MAX_SIZE
    ensures |b| == |c| + 3
  {
    U16(|c|) + c + [0]
  }

  /** The representation: the bare component of a singular key, otherwise each component with its length
      and an end-of-component byte. */
  function LegacyComponents(cs: seq<bytes>): bytes
    requires Encodable(cs)
  {
    if cs == [] then [] else LegacyComponent(cs[0]) + LegacyComponents(cs[1..])
  }

  function Legacy(k: Key): bytes
    requires k.Valid()
  {
    if k.singular then k.components[0] else LegacyComponents(k.components)
  }

  lemma ComponentsFrom(cs: seq<bytes>, i: nat)
    requires Encodable(cs) && i <= |cs|
    ensures LegacyComponents(cs[i..]) ==
      if i == |cs| then [] else LegacyComponent(cs[i])[0..] + LegacyComponents(cs[i + 1..])
  {
    if i < |cs| {
      assert cs[i..][1..] == cs[i + 1..];
    }
  }

  lemma DropOne(s: bytes, k: nat, t: bytes)
    requires k < |s|
    ensures s[k..] + t != [] && (s[k..] + t)[1..] == s[k + 1..] + t
  {
  }

  // ---------------------------------------------------------------- the byte iterator

  /** `legacy_compound_view::iterator`: an offset in the virtual output of the current component, from
      -2 for the high byte of the length to the component's size for the end-of-component byte. */
  class ByteIterator {
    const key: Key
    var offset: int
    var i: nat

    /** What the iterator has left to produce. */
    ghost function Rest(): bytes
      requires Valid()
      reads this
    {
      if i == |key.components| then []
      else if key.singular then key.components[i][offset..] + []
      else LegacyComponent(key.components[i])[offset + 2..] + LegacyComponents(key.components[i + 1..])
    }

    ghost predicate Valid()
      reads this
    {
      && key.Valid() && i <= |key.components|
      && (i < |key.components| ==>
        if key.singular then 0 <= offset < |key.components[i]| else -2 <= offset <= |key.components[i]|)
      && (i == |key.components| ==> offset == EndOffset(key))
    }

    /** The offset of the end iterator. */
    static function EndOffset(key: Key): int {
      if key.singular && |key.components| > 0 && key.components[0] == [] then 0 else -2
    }

    /** The begin iterator. */
    constructor (key: Key)
      requires key.Valid()
      ensures this.key == key && Valid() && Rest() == Legacy(key)
    {
      hide LegacyComponents, LegacyComponent;
      if !key.singular {
        ComponentsFrom(key.components, 0);
      }
      this.key := key;
      offset := if key.singular then 0 else -2;
      i := if key.singular && key.components[0] == [] then |key.components| else 0;
    }

    /** Comparison with the end iterator. */
    predicate AtEnd()
      requires Valid()
      reads this
      ensures AtEnd() <==> i >= |key.components|
      ensures AtEnd() <==> Rest() == []
    {
      offset == EndOffset(key) && i == |key.components|
    }

    /** `operator*`. */
    method Get() returns (b: Byte)
      requires Valid() && i < |key.components|
      ensures Rest() != [] && b == Rest()[0]
    {
      hide LegacyComponents;
      var c := key.components[i];
      if offset == -2 {
        b := |c| / 256 % 256;
      } else if offset == -1 {
        b := |c| % 256;
      } else if offset < |c| {
        b := c[offset];
      } else {
        b := 0;
      }
    }

    /** `operator++`. */
    method Advance()
      requires Valid() && i < |key.components|
      modifies this
      ensures Valid() && old(Rest()) != [] && Rest() == old(Rest())[1..]
    {
      hide LegacyComponents, LegacyComponent;
      ComponentsFrom(key.components, i + 1);
      if key.singular {
        assert i == 0;
        DropOne(key.components[i], offset, []);
      } else {
        DropOne(LegacyComponent(key.components[i]), offset + 2, LegacyComponents(key.components[i + 1..]));
      }
      var size := |key.components[i]|;
      if offset < size && (!key.singular || offset != size - 1) {
        offset := offset + 1;
      } else {
        i := i + 1;
        offset := -2;
      }
    }
  }

  /** `size`: computed without iterating over the bytes. */
  method Size(k: Key) returns (n: nat)
    requires k.Valid()
    ensures n == |Legacy(k)|
  {
    if k.singular {
      return |k.components[0]|;
    }
    n := 0;
    for i := 0 to |k.components|
      invariant n + |LegacyComponents(k.components[i..])| == |LegacyComponents(k.components)|
    {
      n := n + 2 + |k.components[i]| + 1;
    }
  }

  /** `to_legacy`: copies the byte range into a buffer of the precomputed size, which it fills exactly. */
  method ToLegacy(k: Key) returns (out: array<Byte>)
    requires k.Valid()
    ensures out[..] == Legacy(k)
  {
    hide LegacyComponents, LegacyComponent, Legacy, U16, ByteIterator.Rest, ByteIterator.Valid;
    var n := Size(k);
    out := new Byte[n];
    var it := new ByteIterator(k);
    var pos := 0;
    while !it.AtEnd()
      invariant it.Valid() && it.key == k && pos <= n && out[..pos] + it.Rest() == Legacy(k)
      decreases |it.Rest()|
    {
      var b := it.Get();
      ghost var rest := it.Rest();
      assert pos < n by { assert |out[..pos] + rest| == n; }
      out[pos] := b;
      it.Advance();
      pos := pos + 1;
      assert out[..pos] + it.Rest() == out[..pos - 1] + rest;
    }
    assert out[..pos] == out[..] by { assert |out[..pos]| == n; }
  }

  // ---------------------------------------------------------------- the comparator

  /** The comparison of two components: by size first, then by contents. */
  function CompareComponents(a: bytes, b: bytes): int {
    if |a| != |b| || |a| == 0 then (if |a| < |b| then -1 else if |a| != 0 then 1 else 0)
    else CompareUnsigned(a, b)
  }

  function CompareLists(a: seq<bytes>, b: seq<bytes>): int {
    if a == [] || b == [] then Sign(|a|, |b|)
    else
      var c := CompareComponents(a[0], b[0]);
      if c != 0 then c else CompareLists(a[1..], b[1..])
  }

  /** `tri_comparator`. */
  function TriCompare(a: Key, b: Key): int
    requires a.Valid() && b.Valid() && a.singular == b.singular
  {
    if a.singular then CompareUnsigned(a.components[0], b.components[0])
    else CompareLists(a.components, b.components)
  }

  /** Different sizes already show in the length bytes. */
  lemma SizesDecide(a: bytes, b: bytes, ra: bytes, rb: bytes)
    requires |a| <= MAX_SIZE && |b| <= MAX_SIZE && |a| != |b|
    ensures CompareUnsigned(LegacyComponent(a) + ra, LegacyComponent(b) + rb) == Sign(|a|, |b|)
  {
    var x, y := LegacyComponent(a) + ra, LegacyComponent(b) + rb;
    assert x[0] == |a| / 256 && x[1] == |a| % 256 && y[0] == |b| / 256 && y[1] == |b| % 256;
    if x[0] != y[0] {
      CompareAt(x, y, 0);
    } else {
      assert x[..1] == y[..1];
      CompareAt(x, y, 1);
    }
  }

  /** Components of one size are decided by their first difference, before anything that follows. */
  lemma ContentsDecide(a: bytes, b: bytes, ra: bytes, rb: bytes)
    requires |a| == |b| <= MAX_SIZE && a != b
    ensures CompareUnsigned(LegacyComponent(a) + ra, LegacyComponent(b) + rb) == CompareUnsigned(a, b)
  {
    var n := Mismatch(a, b);
    var x, y := LegacyComponent(a) + ra, LegacyComponent(b) + rb;
    assert n < |a|;
    assert x[..2 + n] == U16(|a|) + a[..n] && y[..2 + n] == U16(|b|) + b[..n];
    assert x[2 + n] == a[n] && y[2 + n] == b[n];
    CompareAt(x, y, 2 + n);
  }

  lemma {:induction false} ListsAgree(a: seq<bytes>, b: seq<bytes>)
    requires Encodable(a) && Encodable(b)
    ensures CompareLists(a, b) == CompareUnsigned(LegacyComponents(a), LegacyComponents(b))
  {
    var x, y := LegacyComponents(a), LegacyComponents(b);
    if a == [] || b == [] {
      CompareAt(x, y, 0);
    } else {
      var ra, rb := LegacyComponents(a[1..]), LegacyComponents(b[1..]);
      if |a[0]| != |b[0]| {
        SizesDecide(a[0], b[0], ra, rb);
      } else if a[0] != b[0] {
        ContentsDecide(a[0], b[0], ra, rb);
      } else {
        ListsAgree(a[1..], b[1..]);
        CompareCommonPrefix(LegacyComponent(a[0]), ra, rb);
      }
    }
  }

  /** The component-wise comparator orders any two keys as their legacy byte strings are ordered. */
  lemma TriCompareIsLegacyOrder(a: Key, b: Key)
    requires a.Valid() && b.Valid() && a.singular == b.singular
    ensures TriCompare(a, b) == CompareUnsigned(Legacy(a), Legacy(b))
  {
    if !a.singular {
      ListsAgree(a.components, b.components);
    }
  }

  /** In particular it never calls different keys equal. */
  lemma {:induction false} LegacyInjective(a: seq<bytes>, b: seq<bytes>)
    requires Encodable(a) && Encodable(b) && LegacyComponents(a) == LegacyComponents(b)
    ensures a == b
  {
    ListsAgree(a, b);
    EqualLists(a, b);
  }

  lemma {:induction false} EqualLists(a: seq<bytes>, b: seq<bytes>)
    requires CompareLists(a, b) == 0
    ensures a == b
  {
    if a != [] && b != [] {
      EqualLists(a[1..], b[1..]);
      assert a == [a[0]] + a[1..] && b == [b[0]] + b[1..];
    }
  }
}
