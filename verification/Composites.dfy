/** The composite format of column names and key bounds: components that each end in a marker byte. */
module Composites {
  import opened Basics
  import opened Bytes
  import opened Compounds
  import opened LegacyCompound

  /** `composite::eoc`. */
  datatype Eoc = Start | Plain | End

  /** The marker as the unsigned value of its byte. */
  function EocByte(m: Eoc): Byte {
    match m
    case Start => 255
    case Plain => 0
    case End => 1
  }

  /** `to_eoc`: the sign of the byte. */
  function ToEoc(b: Byte): Eoc {
    if b == 0 then Plain else if b >= 128 then Start else End
  }

  /** As signed bytes the markers are -1, 0 and 1, and every byte reads as the marker of its sign. */
  lemma MarkersAreSigns(m: Eoc, b: Byte)
    ensures var signed := if b < 128 then b else b - 256;
      (signed < 0 ==> ToEoc(b) == Start) && (signed == 0 ==> ToEoc(b) == Plain) && (signed > 0 ==> ToEoc(b) == End)
    ensures var signed := if EocByte(m) < 128 then EocByte(m) else EocByte(m) - 256;
      (m == Start ==> signed == -1) && (m == Plain ==> signed == 0) && (m == End ==> signed == 1)
  {
  }

  datatype Component = Component(value: bytes, marker: Eoc)

  // ---------------------------------------------------------------- writing

  /** The size limits; the first component of a compound must leave the static prefix free. */
  predicate Fits(values: seq<bytes>, isCompound: bool) {
    && (values != [] ==> |values[0]| <= MAX_SIZE - (if isCompound then 1 else 0))
    && (isCompound ==> forall i :: 1 <= i < |values| ==> |values[i]| <= MAX_SIZE)
  }

  lemma FitsEncodable(values: seq<bytes>)
    requires Fits(values, true)
    ensures Encodable(values)
  {
    forall v | v in values ensures |v| <= MAX_SIZE {
      var i :| 0 <= i < |values| && values[i] == v;
    }
  }

  /** One component with its marker, and a list of them of which only the last carries `m`. */
  function EncodeOne(c: Component): (b: bytes)
    requires |c.value| <= MAX_SIZE
    ensures |b| == |c.value| + 3
  {
    U16(|c.value|) + c.value + [EocByte(c.marker)]
  }

  function Encode(cs: seq<Component>): bytes
    requires forall c :: c in cs ==> |c.value| <= MAX_SIZE
  {
    if cs == [] then [] else EncodeOne(cs[0]) + Encode(cs[1..])
  }

  function Marked(values: seq<bytes>, m: Eoc): (cs: seq<Component>)
    ensures |cs| == |values|
    ensures forall i :: 0 <= i < |cs| ==> cs[i] == Component(values[i], if i == |values| - 1 then m else Plain)
  {
    seq(|values|, i requires 0 <= i < |values| => Component(values[i], if i == |values| - 1 then m else Plain))
  }

  /** What serialization produces. */
  function Serialized(values: seq<bytes>, isCompound: bool, m: Eoc): bytes
    requires isCompound || values != []
    requires Fits(values, isCompound)
  {
    if !isCompound then values[0] else FitsEncodable(values); Encode(Marked(values, m))
  }

  /** `serialized_size`; none stands for the exception on a component over the limit. */
  method SerializedSize(values: seq<bytes>, isCompound: bool) returns (size: Option<nat>)
    requires isCompound || values != []
    ensures size.Some? == Fits(values, isCompound)
    ensures size.Some? ==> size.value == |Serialized(values, isCompound, Plain)|
  {
    var len := 0;
    if values == [] {
      return Some(0);
    }
    var first := |values[0]|;
    if first > MAX_SIZE - (if isCompound then 1 else 0) {
      return None;
    }
    if !isCompound {
      return Some(first);
    }
    len := len + 2 + first + 1;
    for i := 1 to |values|
      invariant Fits(values[..i], true)
      invariant len == CompoundSize(values[..i])
    {
      if |values[i]| > MAX_SIZE {
        return None;
      }
      assert values[..i + 1] == values[..i] + [values[i]];
      CompoundSizeAppend(values[..i], values[i]);
      len := len + 2 + |values[i]| + 1;
    }
    assert values[..|values|] == values;
    FitsEncodable(values);
    EncodedSize(Marked(values, Plain), values);
    size := Some(len);
  }

  function CompoundSize(values: seq<bytes>): nat {
    if values == [] then 0 else |values[0]| + 3 + CompoundSize(values[1..])
  }

  lemma {:induction false} CompoundSizeAppend(values: seq<bytes>, v: bytes)
    ensures CompoundSize(values + [v]) == CompoundSize(values) + |v| + 3
  {
    if values != [] {
      assert (values + [v])[1..] == values[1..] + [v];
      CompoundSizeAppend(values[1..], v);
    }
  }

  lemma {:induction false} EncodedSize(cs: seq<Component>, values: seq<bytes>)
    requires |cs| == |values|
    requires forall i :: 0 <= i < |cs| ==> cs[i].value == values[i] && |values[i]| <= MAX_SIZE
    ensures |Encode(cs)| == CompoundSize(values)
  {
    if cs != [] {
      EncodedSize(cs[1..], values[1..]);
    }
  }

  /** The private `serialize_value` for a compound: every marker is plain. */
  method WriteComponents(values: seq<bytes>) returns (out: bytes)
    requires Encodable(values)
    ensures out == LegacyComponents(values)
  {
    hide LegacyComponents, LegacyComponent;
    out := [];
    for i := 0 to |values|
      invariant out + LegacyComponents(values[i..]) == LegacyComponents(values)
    {
      NextComponent(values, i);
      ghost var before, rest := out, LegacyComponents(values[i + 1..]);
      out := out + (U16(|values[i]|) + values[i] + [0]);
      assert out + rest == before + (U16(|values[i]|) + values[i] + [0] + rest);
    }
    NoComponents(values[|values|..]);
  }

  lemma NextComponent(values: seq<bytes>, i: nat)
    requires Encodable(values) && i < |values|
    ensures Encodable(values[i..]) && Encodable(values[i + 1..])
    ensures LegacyComponents(values[i..]) == U16(|values[i]|) + values[i] + [0] + LegacyComponents(values[i + 1..])
  {
    assert values[i..][1..] == values[i + 1..];
  }

  lemma NoComponents(values: seq<bytes>)
    requires values == []
    ensures LegacyComponents(values) == []
  {
  }

  /** `serialize_value`: the marker overwrites the last byte. */
  method SerializeValue(values: seq<bytes>, isCompound: bool, m: Eoc) returns (b: Option<bytes>)
    requires isCompound || values != []
    ensures b.Some? == Fits(values, isCompound)
    ensures b.Some? ==> b.value == Serialized(values, isCompound, m)
  {
    var size := SerializedSize(values, isCompound);
    if size.None? {
      return None;
    }
    if !isCompound {
      return Some(values[0]);
    }
    FitsEncodable(values);
    var out := WriteComponents(values);
    if values != [] {
      SetBack(values, m);
    }
    if out != [] {
      out := out[|out| - 1 := EocByte(m)];
    }
    b := Some(out);
  }

  lemma {:induction false} SetBack(values: seq<bytes>, m: Eoc)
    requires Encodable(values) && values != []
    ensures LegacyComponents(values) != []
    ensures LegacyComponents(values)[|LegacyComponents(values)| - 1 := EocByte(m)] == Encode(Marked(values, m))
  {
    hide Encode, EncodeOne, LegacyComponents, LegacyComponent, Marked;
    MarkedHead(values, m);
    ComponentsFrom(values, 0);
    assert values[0..] == values;
    if |values| == 1 {
      SetBackOne(values[0], m);
      ComponentsFrom(values, 1);
      assert LegacyComponent(values[0])[0..] + [] == LegacyComponent(values[0]);
    } else {
      SetBack(values[1..], m);
      PlainOne(values[0]);
      LaterBack(LegacyComponent(values[0]), LegacyComponents(values[1..]), EocByte(m));
    }
  }

  lemma MarkedHead(values: seq<bytes>, m: Eoc)
    requires Encodable(values) && values != []
    ensures Encode(Marked(values, m)) ==
      if |values| == 1 then EncodeOne(Component(values[0], m))
      else EncodeOne(Component(values[0], Plain)) + Encode(Marked(values[1..], m))
  {
    var cs := Marked(values, m);
    if |values| == 1 {
      assert cs[1..] == [];
      assert EncodeOne(cs[0]) + [] == EncodeOne(cs[0]);
    } else {
      assert cs[1..] == Marked(values[1..], m);
    }
  }

  lemma SetBackOne(c: bytes, m: Eoc)
    requires |c| <= MAX_SIZE
    ensures LegacyComponent(c)[|LegacyComponent(c)| - 1 := EocByte(m)] == EncodeOne(Component(c, m))
  {
  }

  lemma PlainOne(c: bytes)
    requires |c| <= MAX_SIZE
    ensures LegacyComponent(c) == EncodeOne(Component(c, Plain))
  {
  }

  lemma LaterBack(a: bytes, b: bytes, x: Byte)
    requires b != []
    ensures (a + b)[|a + b| - 1 := x] == a + b[|b| - 1 := x]
  {
  }

  /** `serialize_static`: the static prefix, one empty component for every clustering column, then the values. */
  method SerializeStatic(clusteringColumns: nat, values: seq<bytes>) returns (b: Option<bytes>)
    ensures b.Some? == Fits(Padded(clusteringColumns, values), true)
    ensures b.Some? ==> b.value == StaticOf(clusteringColumns, values)
  {
    var padded := seq(clusteringColumns, _ => []) + values;
    var rest := SerializeValue(padded, true, Plain);
    match rest {
      case None => return None;
      case Some(bytes) => return Some([255, 255] + bytes);
    }
  }

  function Padded(clusteringColumns: nat, values: seq<bytes>): seq<bytes> {
    seq(clusteringColumns, _ => []) + values
  }

  function StaticOf(clusteringColumns: nat, values: seq<bytes>): bytes
    requires Fits(Padded(clusteringColumns, values), true)
  {
    [255, 255] + Serialized(Padded(clusteringColumns, values), true, Plain)
  }

  // ---------------------------------------------------------------- reading

  predicate IsStatic(b: bytes, isCompound: bool) {
    isCompound && |b| > 2 && b[0] == 255 && b[1] == 255
  }

  /** One component and what follows it; none if there are not enough bytes. */
  function ReadOne(v: bytes): Option<(Component, bytes)> {
    match ReadComponent(v)
    case None => None
    case Some((value, rest)) => if rest == [] then None else Some((Component(value, ToEoc(rest[0])), rest[1..]))
  }

  function Before(c: Component, rest: Option<seq<Component>>): Option<seq<Component>> {
    match rest
    case None => None
    case Some(cs) => Some([c] + cs)
  }

  function Decode(v: bytes): Option<seq<Component>> {
    if v == [] then Some([])
    else match ReadOne(v)
      case None => None
      case Some((c, rest)) => Before(c, Decode(rest))
  }

  /** The components of a composite, static prefix excluded. */
  function Components(b: bytes, isCompound: bool): Option<seq<Component>> {
    if !isCompound then Some([Component(b, Plain)])
    else Decode(if IsStatic(b, isCompound) then b[2..] else b)
  }

  /** `composite::iterator`. `ok` is false after the exception on truncated input; `atEnd` is the null
      view of the end iterator, which comes one step after the last byte is consumed. */
  class CompositeIterator {
    var v: bytes
    var current: Component
    var atEnd: bool
    var ok: bool

    /** What iterating from here yields. */
    ghost function Rest(): Option<seq<Component>>
      reads this
    {
      if !ok then None else if atEnd then Some([]) else Before(current, Decode(v))
    }

    /** `read_current`. */
    method ReadCurrent()
      modifies this
      ensures old(v) == [] ==> ok && atEnd && v == []
      ensures old(v) != [] ==> !atEnd && ok == ReadOne(old(v)).Some?
      ensures old(v) != [] && ok ==> ReadOne(old(v)) == Some((current, v)) && |v| < old(|v|)
    {
      ok, atEnd := true, false;
      if v == [] {
        atEnd := true;
        return;
      }
      if |v| < 2 {
        ok := false;
        return;
      }
      var len := ReadU16(v);
      v := v[2..];
      if |v| < len {
        ok := false;
        return;
      }
      var value := v[..len];
      v := v[len..];
      if v == [] {
        ok := false;
        return;
      }
      assert value == old(v)[2..2 + len] && v == old(v)[2 + len..];
      current := Component(value, ToEoc(v[0]));
      v := v[1..];
    }

    constructor (b: bytes, isCompound: bool, isStatic: bool)
      requires isStatic ==> |b| >= 2
      ensures Rest() ==
        var body := if isStatic then b[2..] else b;
        if isCompound then Decode(body) else Some([Component(body, Plain)])
    {
      v := if isStatic then b[2..] else b;
      ok, atEnd := true, false;
      current := Component([], Plain);
      new;
      if isCompound {
        ReadCurrent();
      } else {
        current := Component(v, Plain);
        v := [];
        assert [current] + [] == [current];
      }
    }

    /** `operator++`. */
    method Advance()
      requires ok && !atEnd
      modifies this
      ensures old(Rest()) == Before(old(current), Rest())
      ensures atEnd == (old(v) == []) && (!atEnd && ok ==> |v| < old(|v|))
    {
      ReadCurrent();
    }
  }

  /** `explode`; none also stands for the exception on a marker before the last component. */
  method Explode(b: bytes, isCompound: bool) returns (values: Option<seq<bytes>>)
    ensures !isCompound ==> values == Some([b])
    ensures isCompound ==> values == Exploded(Components(b, isCompound))
  {
    hide Decode;
    if !isCompound {
      return Some([b]);
    }
    var result: seq<bytes> := [];
    var it := new CompositeIterator(b, isCompound, IsStatic(b, isCompound));
    ghost var all := it.Rest();
    AfterNothing(Exploded(all));
    while it.ok && !it.atEnd
      invariant Exploded(all) == After(result, Exploded(it.Rest()))
      decreases it.ok, !it.atEnd, |it.v|
    {
      result := result + [it.current.value];
      var marker := it.current.marker;
      ExplodeStep(result[..|result| - 1], it.current, Decode(it.v));
      it.Advance();
      if it.ok && !it.atEnd && marker != Plain {
        return None;
      }
    }
    assert result + [] == result;
    values := if it.ok then Some(result) else None;
  }

  function Exploded(cs: Option<seq<Component>>): Option<seq<bytes>> {
    match cs
    case None => None
    case Some(s) => ExplodedList(s)
  }

  function ExplodedList(cs: seq<Component>): Option<seq<bytes>> {
    if cs == [] then Some([])
    else if |cs| > 1 && cs[0].marker != Plain then None
    else After([cs[0].value], ExplodedList(cs[1..]))
  }

  function After(values: seq<bytes>, rest: Option<seq<bytes>>): Option<seq<bytes>> {
    match rest
    case None => None
    case Some(r) => Some(values + r)
  }

  lemma ExplodeStep(values: seq<bytes>, c: Component, rest: Option<seq<Component>>)
    ensures After(values, Exploded(Before(c, rest))) ==
      if rest.Some? && rest.value != [] && c.marker != Plain then None
      else After(values + [c.value], Exploded(rest))
  {
    if rest.Some? {
      assert ([c] + rest.value)[1..] == rest.value;
      var tail := ExplodedList(rest.value);
      if tail.Some? {
        assert values + ([c.value] + tail.value) == values + [c.value] + tail.value;
      }
    }
  }

  lemma AfterNothing(r: Option<seq<bytes>>)
    ensures After([], r) == r
  {
    if r.Some? {
      assert [] + r.value == r.value;
    }
  }

  /** Exploding succeeds exactly when no component but the last carries a marker. */
  lemma {:induction false} ExplodedMeans(cs: seq<Component>)
    ensures ExplodedList(cs).Some? <==> forall i :: 0 <= i < |cs| - 1 ==> cs[i].marker == Plain
    ensures ExplodedList(cs).Some? ==>
      |ExplodedList(cs).value| == |cs| && forall i :: 0 <= i < |cs| ==> ExplodedList(cs).value[i] == cs[i].value
  {
    if cs != [] {
      ExplodedMeans(cs[1..]);
      assert forall i :: 1 <= i < |cs| ==> cs[i] == cs[1..][i - 1];
      assert (forall i :: 0 <= i < |cs[1..]| - 1 ==> cs[1..][i].marker == Plain)
        <==> (forall i :: 1 <= i < |cs| - 1 ==> cs[i].marker == Plain) by {
        assert forall i :: 0 <= i < |cs[1..]| - 1 ==> cs[1..][i] == cs[i + 1];
      }
    }
  }

  /** `is_valid`: whether the sizes of the components add up to the size of the whole. */
  method IsValid(b: bytes, isCompound: bool) returns (valid: bool)
    ensures valid <==> isCompound && !IsStatic(b, isCompound) && Decode(b).Some?
  {
    hide Decode;
    var it := new CompositeIterator(b, isCompound, IsStatic(b, isCompound));
    ghost var all := it.Rest();
    var s := 0;
    while it.ok && !it.atEnd
      invariant all.Some? == it.Rest().Some?
      invariant all.Some? ==> TotalSize(all.value) == s + TotalSize(it.Rest().value)
      decreases it.ok, !it.atEnd, |it.v|
    {
      TotalSizeStep(it.current, Decode(it.v));
      s := s + |it.current.value| + 2 + 1;
      it.Advance();
    }
    if isCompound {
      DecodedSize(if IsStatic(b, isCompound) then b[2..] else b);
    } else {
      assert TotalSize(all.value) == |b| + 3;
    }
    valid := it.ok && s == |b|;
  }

  function TotalSize(cs: seq<Component>): nat {
    if cs == [] then 0 else |cs[0].value| + 3 + TotalSize(cs[1..])
  }

  lemma TotalSizeStep(c: Component, rest: Option<seq<Component>>)
    ensures Before(c, rest).Some? == rest.Some?
    ensures rest.Some? ==> TotalSize(Before(c, rest).value) == |c.value| + 3 + TotalSize(rest.value)
  {
    if rest.Some? {
      assert ([c] + rest.value)[1..] == rest.value;
    }
  }

  /** Components that decode account for every byte. */
  lemma {:induction false} DecodedSize(v: bytes)
    ensures Decode(v).Some? ==> TotalSize(Decode(v).value) == |v|
    decreases |v|
  {
    if v != [] && ReadOne(v).Some? {
      var (c, rest) := ReadOne(v).value;
      DecodedSize(rest);
      TotalSizeStep(c, Decode(rest));
    }
  }

  // ---------------------------------------------------------------- round trips

  lemma {:induction false} DecodeEncode(cs: seq<Component>)
    requires forall c :: c in cs ==> |c.value| <= MAX_SIZE
    ensures Decode(Encode(cs)) == Some(cs)
  {
    if cs != [] {
      DecodeEncode(cs[1..]);
      ReadOneBack(cs[0], Encode(cs[1..]));
      assert cs == [cs[0]] + cs[1..];
    }
  }

  lemma ReadOneBack(c: Component, rest: bytes)
    requires |c.value| <= MAX_SIZE
    ensures EncodeOne(c) + rest != [] && ReadOne(EncodeOne(c) + rest) == Some((c, rest))
  {
    var tail := [EocByte(c.marker)] + rest;
    assert EncodeOne(c) + rest == U16(|c.value|) + c.value + tail;
    ReadBack(c.value, tail);
    assert tail[1..] == rest;
  }

  /** The legacy representation of a clustering key reads as a composite whose components all carry the plain marker. */
  lemma LegacyReadsPlain(values: seq<bytes>)
    requires Encodable(values)
    ensures Decode(LegacyComponents(values)) == Some(Marked(values, Plain))
  {
    if values == [] {
      NoComponents(values);
      assert Marked(values, Plain) == [];
    } else {
      SetBack(values, Plain);
      var legacy := LegacyComponents(values);
      LastIsPlain(values);
      assert legacy[|legacy| - 1 := EocByte(Plain)] == legacy;
      DecodeEncode(Marked(values, Plain));
    }
  }

  lemma {:induction false} LastIsPlain(values: seq<bytes>)
    requires Encodable(values) && values != []
    ensures var legacy := LegacyComponents(values); legacy != [] && legacy[|legacy| - 1] == 0
  {
    NextComponent(values, 0);
    assert values[0..] == values;
    if |values| > 1 {
      LastIsPlain(values[1..]);
    }
  }

  /** An ordinary compound never looks static. */
  lemma NeverStatic(values: seq<bytes>, m: Eoc)
    requires Fits(values, true)
    ensures !IsStatic(Serialized(values, true, m), true)
  {
    if values != [] {
      FitsEncodable(values);
      var cs := Marked(values, m);
      assert Serialized(values, true, m) == EncodeOne(cs[0]) + Encode(cs[1..]);
    }
  }

  /** Iterating a composite yields the components it was made from, and the marker on the last. */
  lemma ComponentsOfSerialized(values: seq<bytes>, m: Eoc)
    requires Fits(values, true)
    ensures Components(Serialized(values, true, m), true) == Some(Marked(values, m))
  {
    FitsEncodable(values);
    NeverStatic(values, m);
    DecodeEncode(Marked(values, m));
  }

  /** A static composite is recognised as such exactly when it has a component, and decodes to them. */
  lemma ComponentsOfStatic(clusteringColumns: nat, values: seq<bytes>)
    requires Fits(Padded(clusteringColumns, values), true)
    ensures var b := StaticOf(clusteringColumns, values);
      var padded := Padded(clusteringColumns, values);
      && (IsStatic(b, true) <==> padded != [])
      && (padded != [] ==> Components(b, true) == Some(Marked(padded, Plain)))
      && (padded == [] ==> Components(b, true) == None)
  {
    var b := StaticOf(clusteringColumns, values);
    var padded := Padded(clusteringColumns, values);
    FitsEncodable(padded);
    if padded != [] {
      var cs := Marked(padded, Plain);
      assert Encode(cs) == EncodeOne(cs[0]) + Encode(cs[1..]);
      DecodeEncode(cs);
      assert b[2..] == Encode(cs);
    }
  }

  lemma ExplodedMarked(values: seq<bytes>, m: Eoc)
    ensures ExplodedList(Marked(values, m)) == Some(values)
  {
    ExplodedMeans(Marked(values, m));
    assert ExplodedList(Marked(values, m)).value == values;
  }

  /** `from_exploded`: no components are written as a lone marker. */
  function FromExploded(values: seq<bytes>, isCompound: bool, m: Eoc): bytes
    requires Fits(values, isCompound)
  {
    if values == [] then [EocByte(m)] else Serialized(values, isCompound, m)
  }

  /** `explode` undoes it for every list but the empty one, on whose marker iteration fails. */
  lemma ExplodeFromExploded(values: seq<bytes>, m: Eoc)
    requires Fits(values, true)
    ensures Exploded(Components(FromExploded(values, true, m), true)) == if values != [] then Some(values) else None
  {
    if values != [] {
      ComponentsOfSerialized(values, m);
      ExplodedMarked(values, m);
    }
  }

  /** `last_eoc`. */
  function LastEoc(b: bytes, isCompound: bool): Eoc {
    if !isCompound || b == [] then Plain else ToEoc(b[|b| - 1])
  }

  ghost predicate Canonical(v: bytes) {
    v == [] || v[|v| - 1] == EocByte(Start) || v[|v| - 1] == EocByte(Plain) || v[|v| - 1] == EocByte(End)
  }

  lemma {:induction false} EncodeDecode(v: bytes)
    requires Decode(v).Some? && ExplodedList(Decode(v).value).Some?
    ensures forall c :: c in Decode(v).value ==> |c.value| <= MAX_SIZE
    ensures Encode(Decode(v).value) == v <==> Canonical(v)
    ensures Decode(v).value == Marked(ExplodedList(Decode(v).value).value, LastEoc(v, true))
    decreases |v|
  {
    hide ReadOne, Encode, EncodeOne, Canonical;
    if v == [] {
      EncodeNothing();
    } else {
      var (c, rest) := ReadOne(v).value;
      var cs := Decode(v).value;
      assert cs[1..] == Decode(rest).value;
      ReadOneMeans(v);
      ExplodedMeans(cs);
      EncodeDecode(rest);
      EncodeFirst(cs);
      if rest == [] {
        EncodeNothing();
        assert EncodeOne(c) + [] == EncodeOne(c);
      } else {
        LongerDecode(rest);
        SameRest(EncodeOne(c), Encode(cs[1..]), rest);
      }
    }
  }

  lemma EncodeNothing()
    ensures Encode([]) == [] && Canonical([])
  {
  }

  lemma EncodeFirst(cs: seq<Component>)
    requires cs != [] && forall c :: c in cs ==> |c.value| <= MAX_SIZE
    ensures Encode(cs) == EncodeOne(cs[0]) + Encode(cs[1..])
  {
  }

  lemma SameRest(a: bytes, b: bytes, c: bytes)
    ensures a + b == a + c <==> b == c
  {
    if a + b == a + c {
      assert b == (a + b)[|a|..] && c == (a + c)[|a|..];
    }
  }

  /** The bytes of the component that was read, and those of the marker it was taken for. */
  lemma ReadOneMeans(v: bytes)
    requires ReadOne(v).Some?
    ensures var (c, rest) := ReadOne(v).value;
      && |c.value| <= MAX_SIZE && |rest| < |v|
      && (c.marker == Plain ==> v == EncodeOne(c) + rest)
      && (rest == [] ==> c.marker == LastEoc(v, true) && (EncodeOne(c) == v <==> Canonical(v)))
      && (rest != [] ==> LastEoc(rest, true) == LastEoc(v, true) && (Canonical(v) <==> Canonical(rest)))
  {
    var (c, rest) := ReadOne(v).value;
    var last := ReadComponent(v).value.1;
    var body := U16(|c.value|) + c.value;
    assert v == body + last && last == [last[0]] + rest;
    assert v == body + [last[0]] + rest;
    assert EncodeOne(c) == body + [EocByte(c.marker)];
    if rest == [] {
      assert v == body + [last[0]] && v[|v| - 1] == last[0];
      SameRest(body, [EocByte(c.marker)], [last[0]]);
    } else {
      assert v[|v| - 1] == rest[|rest| - 1];
    }
  }

  lemma LongerDecode(v: bytes)
    requires v != [] && Decode(v).Some?
    ensures Decode(v).value != []
  {
  }

  /** What decodes without a static prefix is what its components and last marker serialize to, exactly
      when its last byte is one of the three markers. */
  lemma SerializedOfExploded(b: bytes)
    requires !IsStatic(b, true) && Exploded(Components(b, true)).Some?
    ensures var values := Exploded(Components(b, true)).value;
      && Fits(values, true)
      && (Serialized(values, true, LastEoc(b, true)) == b <==> Canonical(b))
  {
    EncodeDecode(b);
    var cs := Decode(b).value;
    var values := ExplodedList(cs).value;
    ExplodedMeans(cs);
    if b != [] {
      FirstFits(b);
    }
    assert forall i :: 0 <= i < |values| ==> cs[i] in cs && |values[i]| <= MAX_SIZE;
  }

  lemma FirstFits(b: bytes)
    requires b != [] && Decode(b).Some? && !IsStatic(b, true)
    ensures |Decode(b).value| > 0 && |Decode(b).value[0].value| < MAX_SIZE
  {
    var (c, rest) := ReadOne(b).value;
    assert b == U16(|c.value|) + c.value + ReadComponent(b).value.1;
  }
}
