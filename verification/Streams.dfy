/** Streams of mutation fragments and what they mean: for every key, the row delivered for it and the
    range tombstone in force when the stream passes it. */
module Streams {
  import opened Positions
  import opened CacheRows

  datatype Fragment = ClusteringRow(key: real, row: Row) | RangeTombstoneChange(at: Pos, tomb: Tombstone) {
    function Position(): Pos {
      if ClusteringRow? then K(key) else at
    }
  }

  type Stream = seq<Fragment>

  /** Positions never go back, no key is delivered twice, and changes stand between rows. */
  ghost predicate Ordered(s: Stream) {
    && (forall i, j :: 0 <= i < j < |s| ==> Le(s[i].Position(), s[j].Position()))
    && (forall i, j :: 0 <= i < j < |s| && s[i].ClusteringRow? ==> Lt(s[i].Position(), s[j].Position()))
    && (forall i :: 0 <= i < |s| && s[i].RangeTombstoneChange? ==> !IsRow(s[i].at))
  }

  // -------------------------------------------------- reading a stream from its end

  /** The tombstone in force at key `r` once `s` has been read: the last change before `r`. */
  function TombAt(s: Stream, r: real): Tombstone {
    if s == [] then NoTomb
    else
      var f := s[|s| - 1];
      if f.RangeTombstoneChange? && Lt(f.at, K(r)) then f.tomb else TombAt(s[..|s| - 1], r)
  }

  function RowAt(s: Stream, r: real): Row {
    if s == [] then EmptyRow
    else
      var f := s[|s| - 1];
      if f.ClusteringRow? && f.key == r then f.row else RowAt(s[..|s| - 1], r)
  }

  lemma Pushed(s: Stream, f: Fragment, r: real)
    ensures TombAt(s + [f], r) == if f.RangeTombstoneChange? && Lt(f.at, K(r)) then f.tomb else TombAt(s, r)
    ensures RowAt(s + [f], r) == if f.ClusteringRow? && f.key == r then f.row else RowAt(s, r)
  {
    assert (s + [f])[..|s|] == s;
  }

  // -------------------------------------------------- reading a stream from its front

  /** The tombstone at key `r` when the unread stream is `s` and `t` is in force now. */
  function TombAhead(s: Stream, t: Tombstone, r: real): Tombstone {
    if s == [] then t
    else if s[0].RangeTombstoneChange? && Lt(s[0].at, K(r)) then TombAhead(s[1..], s[0].tomb, r)
    else TombAhead(s[1..], t, r)
  }

  function RowAhead(s: Stream, r: real): Row {
    if s == [] then EmptyRow
    else if s[0].ClusteringRow? && s[0].key == r then s[0].row
    else RowAhead(s[1..], r)
  }

  /** Nothing that lies ahead concerns a key below the first unread position. */
  lemma {:induction false} NothingBehind(s: Stream, t: Tombstone, r: real)
    requires forall i :: 0 <= i < |s| ==> Lt(K(r), s[i].Position())
    ensures TombAhead(s, t, r) == t && RowAhead(s, r) == EmptyRow
  {
    if s != [] {
      NothingBehind(s[1..], t, r);
    }
  }

  /** The unread stream `s`, entered with tombstone `t`, delivers the source between two positions. */
  ghost predicate Delivers(u: Source, s: Stream, t: Tombstone, from: Pos, to: Pos) {
    forall r: real :: Lt(from, K(r)) && Lt(K(r), to) ==>
      u.row(r) == RowAhead(s, r) && u.tomb(r) == TombAhead(s, t, r)
  }

  ghost predicate Between(s: Stream, from: Pos, to: Pos) {
    && (forall i :: 0 <= i < |s| ==> Le(from, s[i].Position()) && Le(s[i].Position(), to))
    && (forall i :: 0 <= i < |s| && s[i].ClusteringRow? ==> Lt(s[i].Position(), to))
  }

  /** What the underlying reader yields after `fast_forward_to([from, to))`. */
  ghost predicate IsRead(u: Source, s: Stream, from: Pos, to: Pos) {
    Ordered(s) && Between(s, from, to) && Delivers(u, s, NoTomb, from, to)
  }

  /** Reading a row: up to it the source is clear, the row is the source's, the rest still delivers. */
  lemma RowRead(u: Source, s: Stream, t: Tombstone, from: Pos, to: Pos)
    requires Ordered(s) && s != [] && s[0].ClusteringRow?
    requires Lt(from, K(s[0].key)) && Lt(K(s[0].key), to) && Delivers(u, s, t, from, to)
    ensures Clear(u, from, K(s[0].key), t)
    ensures u.row(s[0].key) == s[0].row && u.tomb(s[0].key) == t
    ensures Delivers(u, s[1..], t, K(s[0].key), to)
  {
    forall r: real | Lt(from, K(r)) && Lt(K(r), K(s[0].key)) ensures u.row(r) == EmptyRow && u.tomb(r) == t {
      NothingBehind(s, t, r);
    }
    NothingBehind(s[1..], t, s[0].key);
  }

  /** Reading a change: up to it the source is clear under the old tombstone, after it the rest
      delivers under the new one. */
  lemma ChangeRead(u: Source, s: Stream, t: Tombstone, from: Pos, to: Pos)
    requires Ordered(s) && s != [] && s[0].RangeTombstoneChange?
    requires Le(s[0].at, to) && Delivers(u, s, t, from, to)
    ensures Clear(u, from, s[0].at, t)
    ensures Le(from, s[0].at) ==> Delivers(u, s[1..], s[0].tomb, s[0].at, to)
    ensures s[0].tomb == t || s[0].at == to ==> Delivers(u, s[1..], t, from, to)
  {
    forall r: real | Lt(from, K(r)) && Lt(K(r), s[0].at) ensures u.row(r) == EmptyRow && u.tomb(r) == t {
      NothingBehind(s, t, r);
    }
  }

  lemma TailBetween(s: Stream, from: Pos, to: Pos)
    requires Ordered(s) && s != [] && Between(s, from, to)
    ensures Ordered(s[1..]) && Between(s[1..], AfterKey(s[0].Position()), to) && Between(s[1..], from, to)
    ensures Le(from, s[0].Position()) && Le(s[0].Position(), to)
    ensures s[0].ClusteringRow? ==> Lt(s[0].Position(), to)
    ensures s[0].RangeTombstoneChange? ==> !IsRow(s[0].at)
  {
  }

  /** No key lies between a row and the cut after it. */
  lemma DeliversFromRow(u: Source, s: Stream, t: Tombstone, p: Pos, to: Pos)
    requires Delivers(u, s, t, AfterKey(p), to)
    ensures Delivers(u, s, t, p, to)
  {
  }

  lemma DeliversWithin(u: Source, s: Stream, t: Tombstone, from: Pos, from': Pos, to: Pos)
    requires Delivers(u, s, t, from, to) && Le(from, from')
    ensures Delivers(u, s, t, from', to)
  {
  }

  lemma NothingUnread(u: Source, t: Tombstone, from: Pos, to: Pos)
    requires Delivers(u, [], t, from, to)
    ensures Clear(u, from, to, t)
  {
  }

  /** The tombstone in force on entering a read does not matter if the read opens with a change there. */
  lemma OpeningChange(u: Source, s: Stream, t: Tombstone, t': Tombstone, from: Pos, to: Pos)
    requires Delivers(u, s, t, from, to)
    requires s != [] && s[0].RangeTombstoneChange? && s[0].at == from
    ensures Delivers(u, s, t', from, to)
  {
  }

  // -------------------------------------------------- a read of several clustering ranges

  /** A clustering range of the query.  `Single` is a singular range on a full key. */
  datatype Range = Single(key: real) | Span(lo: Pos, hi: Pos) {
    function Start(): Pos { if Single? then Pos(key, -1) else lo }
    function End(): Pos { if Single? then Pos(key, 1) else hi }
    predicate HasStart() { Start() != Bottom }
  }

  /** Query ranges are proper, ordered and disjoint. */
  ghost predicate RangesOk(ranges: seq<Range>) {
    && (forall i :: 0 <= i < |ranges| ==>
      && Lt(ranges[i].Start(), ranges[i].End())
      && Le(Bottom, ranges[i].Start()) && Le(ranges[i].End(), Top)
      && !IsRow(ranges[i].Start()) && !IsRow(ranges[i].End()))
    && (forall i, j :: 0 <= i < j < |ranges| ==> Le(ranges[i].End(), ranges[j].Start()))
  }

  lemma RangeBounds(ranges: seq<Range>, i: nat)
    requires RangesOk(ranges) && i < |ranges|
    ensures Lt(ranges[i].Start(), ranges[i].End()) && Le(ranges[i].Start(), ranges[i].End())
    ensures Le(Bottom, ranges[i].Start()) && Le(ranges[i].End(), Top)
    ensures !IsRow(ranges[i].Start()) && !IsRow(ranges[i].End())
    ensures Le(ranges[i].Start(), Top) && Le(Bottom, ranges[i].End())
  {
  }

  ghost predicate InRanges(ranges: seq<Range>, r: real) {
    exists i :: 0 <= i < |ranges| && Lt(ranges[i].Start(), K(r)) && Lt(K(r), ranges[i].End())
  }

  ghost function WantedTomb(u: Source, ranges: seq<Range>, r: real): Tombstone {
    if InRanges(ranges, r) then u.tomb(r) else NoTomb
  }

  ghost function WantedRow(u: Source, ranges: seq<Range>, r: real): Row {
    if InRanges(ranges, r) then u.row(r) else EmptyRow
  }

  /** `out` is right for every key below `lower`; above it nothing was delivered yet and the tombstone
      in force is `current`. */
  ghost predicate Emitted(u: Source, ranges: seq<Range>, out: Stream, lower: Pos, current: Tombstone) {
    && Ordered(out) && !IsRow(lower)
    && (forall i :: 0 <= i < |out| ==> Le(out[i].Position(), lower))
    && (forall r: real :: Lt(K(r), lower) ==>
      TombAt(out, r) == WantedTomb(u, ranges, r) && RowAt(out, r) == WantedRow(u, ranges, r))
    && (forall r: real :: Lt(lower, K(r)) ==> TombAt(out, r) == current && RowAt(out, r) == EmptyRow)
  }

  lemma NothingEmitted(u: Source, ranges: seq<Range>)
    requires RangesOk(ranges)
    ensures Emitted(u, ranges, [], if ranges == [] then Top else ranges[0].Start(), NoTomb)
  {
    forall r: real | Lt(K(r), if ranges == [] then Top else ranges[0].Start())
      ensures !InRanges(ranges, r)
    {
      forall j | 0 <= j < |ranges| ensures !(Lt(ranges[j].Start(), K(r)) && Lt(K(r), ranges[j].End())) {
        assert j == 0 || Le(ranges[0].End(), ranges[j].Start());
      }
    }
  }

  lemma EmitChange(u: Source, ranges: seq<Range>, out: Stream, lower: Pos, current: Tombstone, t: Tombstone)
    requires Emitted(u, ranges, out, lower, current)
    ensures Emitted(u, ranges, out + [RangeTombstoneChange(lower, t)], lower, t)
  {
    forall r: real {
      Pushed(out, RangeTombstoneChange(lower, t), r);
    }
  }

  /** Moving on through part of a range where the source has no row and keeps the tombstone. */
  lemma EmitNothing(u: Source, ranges: seq<Range>, i: nat, out: Stream, lower: Pos, lower': Pos, current: Tombstone)
    requires Emitted(u, ranges, out, lower, current) && Le(lower, lower') && !IsRow(lower')
    requires i < |ranges| && Le(ranges[i].Start(), lower) && Le(lower', ranges[i].End())
    requires Clear(u, lower, lower', current)
    ensures Emitted(u, ranges, out, lower', current)
  {
    forall r: real | Lt(K(r), lower')
      ensures TombAt(out, r) == WantedTomb(u, ranges, r) && RowAt(out, r) == WantedRow(u, ranges, r)
    {
      if Lt(lower, K(r)) {
        assert Lt(ranges[i].Start(), K(r)) && Lt(K(r), ranges[i].End());
      }
    }
  }

  lemma EmitRow(u: Source, ranges: seq<Range>, i: nat, out: Stream, lower: Pos, current: Tombstone, key: real)
    requires Emitted(u, ranges, out, lower, current) && Lt(lower, K(key))
    requires i < |ranges| && Le(ranges[i].Start(), lower) && Lt(K(key), ranges[i].End())
    requires Clear(u, lower, K(key), current) && u.tomb(key) == current
    ensures Emitted(u, ranges, out + [ClusteringRow(key, u.row(key))], Pos(key, 1), current)
  {
    var f := ClusteringRow(key, u.row(key));
    forall r: real {
      Pushed(out, f, r);
    }
    forall r: real | Lt(K(r), Pos(key, 1))
      ensures TombAt(out + [f], r) == WantedTomb(u, ranges, r) && RowAt(out + [f], r) == WantedRow(u, ranges, r)
    {
      if Lt(lower, K(r)) {
        assert Lt(ranges[i].Start(), K(r)) && Lt(K(r), ranges[i].End());
      }
    }
  }

  /** Moving from the end of range `i` to the start of the next one, or past the last. */
  lemma EmitGap(u: Source, ranges: seq<Range>, i: nat, out: Stream, lower': Pos)
    requires RangesOk(ranges) && i < |ranges| && Emitted(u, ranges, out, ranges[i].End(), NoTomb)
    requires lower' == if i + 1 < |ranges| then ranges[i + 1].Start() else Top
    ensures Emitted(u, ranges, out, lower', NoTomb)
  {
    assert Le(ranges[i].End(), lower');
    forall r: real | Lt(ranges[i].End(), K(r)) && Lt(K(r), lower')
      ensures !InRanges(ranges, r)
    {
      forall j | 0 <= j < |ranges| ensures !(Lt(ranges[j].Start(), K(r)) && Lt(K(r), ranges[j].End())) {
        assert j <= i + 1 || Le(ranges[i + 1].End(), ranges[j].Start());
      }
    }
  }

  /** The stream is in order and carries, for every key, exactly what the source holds in the requested
      ranges: no row and no tombstone elsewhere. */
  ghost predicate Exact(u: Source, ranges: seq<Range>, out: Stream) {
    && Ordered(out)
    && forall r: real :: TombAt(out, r) == WantedTomb(u, ranges, r) && RowAt(out, r) == WantedRow(u, ranges, r)
  }

  lemma EmittedAll(u: Source, ranges: seq<Range>, out: Stream)
    requires RangesOk(ranges) && Emitted(u, ranges, out, Top, NoTomb)
    ensures Exact(u, ranges, out)
  {
    forall r: real ensures TombAt(out, r) == WantedTomb(u, ranges, r) && RowAt(out, r) == WantedRow(u, ranges, r) {
      assert Lt(Top, K(r)) ==> !InRanges(ranges, r);
    }
  }
}
