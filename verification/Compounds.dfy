/** Compound keys: components with 16-bit length prefixes, and how they are read back. */
module Compounds {
  import opened Basics
  import opened Bytes

  const MAX_SIZE := 65535

  // ---------------------------------------------------------------- big-endian 16-bit lengths

  function U16(n: nat): (b: bytes)
    requires n <= MAX_SIZE
    ensures |b| == 2
  {
    [n / 256, n % 256]
  }

  function ReadU16(b: bytes): (n: nat)
    requires |b| >= 2
    ensures n <= MAX_SIZE
  {
    (b[0] as int) * 256 + b[1] as int
  }

  lemma U16RoundTrip(n: nat, rest: bytes)
    requires n <= MAX_SIZE
    ensures ReadU16(U16(n) + rest) == n
  {
  }

  lemma ReadU16RoundTrip(b: bytes)
    requires |b| >= 2
    ensures U16(ReadU16(b)) == b[..2]
  {
    var hi: int, lo: int := b[0], b[1];
    assert (hi * 256 + lo) / 256 == hi && (hi * 256 + lo) % 256 == lo;
  }

  // ---------------------------------------------------------------- the format

  ghost predicate Encodable(values: seq<bytes>) {
    forall v :: v in values ==> |v| <= MAX_SIZE
  }

  /** `<len(value1)><value1>...<len(value_n)><value_n>` */
  function Pack(values: seq<bytes>): bytes
    requires Encodable(values)
  {
    if values == [] then [] else U16(|values[0]|) + values[0] + Pack(values[1..])
  }

  function PackedSize(values: seq<bytes>): nat {
    if values == [] then 0 else 2 + |values[0]| + PackedSize(values[1..])
  }

  /** `serialize_value`: refuses keys over the limit. */
  method SerializeValue(values: seq<bytes>) returns (r: Option<bytes>)
    ensures r == if PackedSize(values) <= MAX_SIZE then Some(Packed(values)) else None
  {
    var size := 0;
    for i := 0 to |values|
      invariant size + PackedSize(values[i..]) == PackedSize(values)
    {
      size := size + 2 + |values[i]|;
    }
    if size > MAX_SIZE {
      return None;
    }
    SmallEnough(values);
    var out := WriteValues(values);
    r := Some(out);
  }

  method WriteValues(values: seq<bytes>) returns (out: bytes)
    requires Encodable(values)
    ensures out == Pack(values)
  {
    hide Pack, U16;
    out := [];
    for i := 0 to |values|
      invariant out + Pack(values[i..]) == Pack(values)
    {
      PackOne(values, i);
      ghost var before, rest := out, Pack(values[i + 1..]);
      out := out + (U16(|values[i]|) + values[i]);
      assert out + rest == before + (U16(|values[i]|) + values[i] + rest);
    }
    assert values[|values|..] == [];
    PackNone();
  }

  lemma PackOne(values: seq<bytes>, i: nat)
    requires Encodable(values) && i < |values|
    ensures Encodable(values[i..]) && Encodable(values[i + 1..])
    ensures Pack(values[i..]) == U16(|values[i]|) + values[i] + Pack(values[i + 1..])
  {
    assert values[i..][1..] == values[i + 1..];
  }

  lemma PackNone()
    ensures Pack([]) == []
  {
  }

  function Packed(values: seq<bytes>): bytes
    requires PackedSize(values) <= MAX_SIZE
  {
    SmallEnough(values);
    Pack(values)
  }

  lemma {:induction false} SmallEnough(values: seq<bytes>)
    requires PackedSize(values) <= MAX_SIZE
    ensures Encodable(values)
  {
    if values != [] {
      SmallEnough(values[1..]);
    }
  }

  lemma {:induction false} PackSize(values: seq<bytes>)
    requires Encodable(values)
    ensures |Pack(values)| == PackedSize(values)
  {
    if values != [] {
      PackSize(values[1..]);
    }
  }

  // ---------------------------------------------------------------- reading

  /** One component and what follows it; none if there are not enough bytes. */
  function ReadComponent(v: bytes): (r: Option<(bytes, bytes)>)
    ensures r.Some? ==> |r.value.0| <= MAX_SIZE && v == U16(|r.value.0|) + r.value.0 + r.value.1
  {
    if |v| < 2 || |v| - 2 < ReadU16(v) then None
    else
      ReadU16RoundTrip(v);
      var n := ReadU16(v);
      Some((v[2..2 + n], v[2 + n..]))
  }

  /** The component iterator: the unread bytes, the current component, and the bytes that were left
      when it was read; an exhausted iterator has none left. */
  class ComponentIterator {
    var v: bytes
    var current: bytes
    var remaining: nat

    constructor (v: bytes)
      ensures this.v == v && remaining == 0 && current == []
    {
      this.v, current, remaining := v, [], 0;
    }

    /** `read_current`; false stands for the exception on a truncated component. */
    method ReadCurrent() returns (ok: bool)
      modifies this
      ensures remaining == old(|v|)
      ensures old(v) == [] ==> ok && v == []
      ensures old(v) != [] ==> ok == ReadComponent(old(v)).Some?
      ensures old(v) != [] && ok ==> ReadComponent(old(v)) == Some((current, v)) && |v| < old(|v|)
    {
      remaining := |v|;
      if v == [] {
        return true;
      }
      if |v| < 2 {
        return false;
      }
      var n := ReadU16(v);
      if |v| - 2 < n {
        return false;
      }
      current := v[2..2 + n];
      v := v[2 + n..];
      ok := true;
    }
  }

  function Parse(v: bytes): Option<seq<bytes>> {
    if v == [] then Some([])
    else match ReadComponent(v)
      case None => None
      case Some((c, rest)) =>
        match Parse(rest) case None => None case Some(cs) => Some([c] + cs)
  }

  function Prepend(cs: seq<bytes>, rest: Option<seq<bytes>>): Option<seq<bytes>> {
    match rest case None => None case Some(r) => Some(cs + r)
  }

  lemma PrependOne(cs: seq<bytes>, v: bytes)
    requires v != [] && ReadComponent(v).Some?
    ensures Prepend(cs, Parse(v)) == Prepend(cs + [ReadComponent(v).value.0], Parse(ReadComponent(v).value.1))
  {
    var (c, rest) := ReadComponent(v).value;
    if Parse(rest).Some? {
      assert cs + ([c] + Parse(rest).value) == cs + [c] + Parse(rest).value;
    }
  }

  /** `deserialize_value`: collects the components from begin to end. */
  method DeserializeValue(v: bytes) returns (r: Option<seq<bytes>>)
    ensures r == Parse(v)
  {
    hide ReadComponent;
    var it := new ComponentIterator(v);
    var cs: seq<bytes> := [];
    ghost var unread := v;
    var ok := it.ReadCurrent();
    assert Prepend([], Parse(v)) == Parse(v) by { assert Parse(v).Some? ==> [] + Parse(v).value == Parse(v).value; }
    while ok && it.remaining != 0
      invariant it.remaining == |unread| && Parse(v) == Prepend(cs, Parse(unread))
      invariant unread != [] ==> ok == ReadComponent(unread).Some?
      invariant unread == [] ==> ok
      invariant unread != [] && ok ==> ReadComponent(unread) == Some((it.current, it.v)) && |it.v| < |unread|
      decreases |unread|
    {
      PrependOne(cs, unread);
      cs := cs + [it.current];
      unread := it.v;
      ok := it.ReadCurrent();
    }
    assert cs + [] == cs;
    r := if ok then Some(cs) else None;
  }

  /** Every list of components is read back as it was written. */
  lemma {:induction false} ParsePack(values: seq<bytes>)
    requires Encodable(values)
    ensures Parse(Pack(values)) == Some(values)
  {
    hide ReadComponent, U16;
    if values != [] {
      ReadBack(values[0], Pack(values[1..]));
      ParsePack(values[1..]);
      var packed := Pack(values);
      assert packed == U16(|values[0]|) + values[0] + Pack(values[1..]) && packed != [];
      assert values == [values[0]] + values[1..];
    }
  }

  lemma ReadBack(c: bytes, rest: bytes)
    requires |c| <= MAX_SIZE
    ensures ReadComponent(U16(|c|) + c + rest) == Some((c, rest))
  {
    var v := U16(|c|) + c + rest;
    U16RoundTrip(|c|, c + rest);
    assert v == U16(|c|) + (c + rest);
    assert v[2..2 + |c|] == c && v[2 + |c|..] == rest;
  }

  /** Whatever can be read is the encoding of what was read: there are no two encodings of a list. */
  lemma {:induction false} PackParse(v: bytes)
    requires Parse(v).Some?
    ensures Encodable(Parse(v).value) && Pack(Parse(v).value) == v
    decreases |v|
  {
    if v != [] {
      PackParse(ReadComponent(v).value.1);
      var cs := Parse(v).value;
      assert cs[1..] == Parse(ReadComponent(v).value.1).value;
    }
  }
}
