/** The walker that trims range tombstone changes to the clustering ranges of a query. */
module RangesWalker {
  import opened Basics
  import opened Positions
  import opened CacheRows

  /** A half-open range of positions. */
  datatype Segment = Segment(start: Pos, end: Pos)

  datatype Change = Change(at: Pos, tomb: Tombstone)

  /** The position of the static row precedes all clustered positions. */
  const StaticRow := Pos(-1.0, 0)

  // ---------------------------------------------------------------- what a call does, as a function

  /** Where the walker stands: the number of segments left behind, and whether it is known to be at or
      past the start of the next one. */
  datatype Place = Place(index: nat, inside: bool)

  /** The outcome of `advance_to`. */
  datatype Progress = Progress(changes: seq<Change>, contained: bool, place: Place)

  function Opening(s: Segment, inside: bool, t: Tombstone): seq<Change> {
    if !inside && t != NoTomb then [Change(s.start, t)] else []
  }

  function Closing(s: Segment, t: Tombstone): seq<Change> {
    if t != NoTomb then [Change(s.end, NoTomb)] else []
  }

  function Switch(pos: Pos, prev: Tombstone, next: Tombstone): seq<Change> {
    if prev != next then [Change(pos, next)] else []
  }

  /** `advance_to`.  Past the last segment the walker stands at an empty one after all rows. */
  function Walk(segs: seq<Segment>, at: Place, pos: Pos, prev: Tombstone, next: Tombstone): (p: Progress)
    requires at.index <= |segs| && (at.index == |segs| ==> !at.inside)
    ensures at.index <= p.place.index <= |segs| && (p.place.index == |segs| ==> !p.place.inside)
    ensures p.contained == p.place.inside
    decreases |segs| - at.index
  {
    if at.index == |segs| then
      var s := Segment(Top, Top);
      if Lt(pos, Top) then Progress([], false, at)
      else Progress(Opening(s, false, prev) + Closing(s, prev), false, at)
    else
      var s := segs[at.index];
      if !at.inside && Lt(pos, s.start) then Progress([], false, at)
      else if Lt(pos, s.end) then
        Progress(Opening(s, at.inside, prev) + Switch(pos, prev, next), true, Place(at.index, true))
      else
        var left := Opening(s, at.inside, prev) + Closing(s, prev);
        if at.index + 1 == |segs| then Progress(left, false, Place(at.index + 1, false))
        else
          var p := Walk(segs, Place(at.index + 1, false), pos, prev, next);
          p.(changes := left + p.changes)
  }

  datatype Call = Call(pos: Pos, tomb: Tombstone)

  /** The changes emitted by a sequence of calls. */
  function Emits(segs: seq<Segment>, at: Place, t: Tombstone, calls: seq<Call>): seq<Change>
    requires at.index <= |segs| && (at.index == |segs| ==> !at.inside)
    decreases |calls|
  {
    if calls == [] then []
    else
      var p := Walk(segs, at, calls[0].pos, t, calls[0].tomb);
      p.changes + Emits(segs, p.place, calls[0].tomb, calls[1..])
  }

  // ---------------------------------------------------------------- single steps

  lemma WalkDone(segs: seq<Segment>, pos: Pos, t: Tombstone, next: Tombstone)
    requires Lt(pos, Top)
    ensures Walk(segs, Place(|segs|, false), pos, t, next) == Progress([], false, Place(|segs|, false))
  {
  }

  lemma WalkBefore(segs: seq<Segment>, k: nat, pos: Pos, t: Tombstone, next: Tombstone)
    requires k < |segs| && Lt(pos, segs[k].start)
    ensures Walk(segs, Place(k, false), pos, t, next) == Progress([], false, Place(k, false))
  {
  }

  lemma WalkInto(segs: seq<Segment>, at: Place, pos: Pos, t: Tombstone, next: Tombstone)
    requires at.index < |segs| && (at.inside || Le(segs[at.index].start, pos)) && Lt(pos, segs[at.index].end)
    ensures Walk(segs, at, pos, t, next) ==
      Progress(Opening(segs[at.index], at.inside, t) + Switch(pos, t, next), true, Place(at.index, true))
  {
  }

  lemma WalkPast(segs: seq<Segment>, at: Place, pos: Pos, t: Tombstone, next: Tombstone)
    requires at.index < |segs| && (at.inside || Le(segs[at.index].start, pos)) && Le(segs[at.index].end, pos)
    requires Lt(pos, Top) || at.index + 1 < |segs|
    ensures var p := Walk(segs, Place(at.index + 1, false), pos, t, next);
      Walk(segs, at, pos, t, next) == p.(changes := Opening(segs[at.index], at.inside, t) + Closing(segs[at.index], t) + p.changes)
  {
  }

  lemma WalkPastLast(segs: seq<Segment>, at: Place, pos: Pos, t: Tombstone, next: Tombstone)
    requires at.index + 1 == |segs| && (at.inside || Le(segs[at.index].start, pos)) && Le(segs[at.index].end, pos)
    ensures Walk(segs, at, pos, t, next) ==
      Progress(Opening(segs[at.index], at.inside, t) + Closing(segs[at.index], t), false, Place(|segs|, false))
  {
  }

  function SegmentHere(segs: seq<Segment>, k: nat): Segment {
    if k < |segs| then segs[k] else Segment(Top, Top)
  }

  /** All steps at once, as the loop takes them. */
  lemma WalkUnfold(segs: seq<Segment>, at: Place, pos: Pos, t: Tombstone, next: Tombstone)
    requires at.index <= |segs| && (at.index == |segs| ==> !at.inside)
    ensures var s := SegmentHere(segs, at.index);
      var left := Opening(s, at.inside, t) + Closing(s, t);
      Walk(segs, at, pos, t, next) ==
        if !at.inside && Lt(pos, s.start) then Progress([], false, at)
        else if Lt(pos, s.end) then Progress(Opening(s, at.inside, t) + Switch(pos, t, next), true, Place(at.index, true))
        else if at.index + 1 < |segs| then
          var p := Walk(segs, Place(at.index + 1, false), pos, t, next);
          p.(changes := left + p.changes)
        else Progress(left, false, Place(|segs|, false))
  {
  }

  // ---------------------------------------------------------------- independence of where it is called

  /** A call that keeps the tombstone on the way to a later position changes nothing. */
  lemma {:induction false} DetourIsFree(segs: seq<Segment>, at: Place, q: Pos, pos: Pos, t: Tombstone, next: Tombstone)
    requires at.index <= |segs| && (at.index == |segs| ==> !at.inside) && Le(q, pos)
    requires Lt(pos, Top) || Walk(segs, at, q, t, t).place.index < |segs|
    ensures var first := Walk(segs, at, q, t, t);
      var second := Walk(segs, first.place, pos, t, next);
      Walk(segs, at, pos, t, next) == second.(changes := first.changes + second.changes)
    decreases |segs| - at.index
  {
    hide Walk, Opening, Closing, Switch;
    if at.index == |segs| {
      WalkDone(segs, q, t, t);
      WalkDone(segs, pos, t, next);
    } else if !at.inside && Lt(q, segs[at.index].start) {
      WalkBefore(segs, at.index, q, t, t);
    } else if Lt(q, segs[at.index].end) {
      WalkInto(segs, at, q, t, t);
      AlreadyInside(segs, at, pos, t, next);
      assert Switch(q, t, t) == [] by { NoSwitch(q, t); }
    } else {
      var after := Place(at.index + 1, false);
      if at.index + 1 == |segs| {
        WalkPastLast(segs, at, q, t, t);
      }
      WalkPast(segs, at, q, t, t);
      WalkPast(segs, at, pos, t, next);
      DetourIsFree(segs, after, q, pos, t, next);
      var first := Walk(segs, after, q, t, t);
      Regroup(Opening(segs[at.index], at.inside, t) + Closing(segs[at.index], t), first.changes,
              Walk(segs, first.place, pos, t, next).changes);
    }
  }

  lemma NoSwitch(q: Pos, t: Tombstone)
    ensures Switch(q, t, t) == []
  {
  }

  /** Entering the current segment beforehand only moves its opening change forward. */
  lemma AlreadyInside(segs: seq<Segment>, at: Place, pos: Pos, t: Tombstone, next: Tombstone)
    requires at.index < |segs| && (at.inside || Le(segs[at.index].start, pos))
    ensures var p := Walk(segs, Place(at.index, true), pos, t, next);
      Walk(segs, at, pos, t, next) == p.(changes := Opening(segs[at.index], at.inside, t) + p.changes)
  {
    hide Closing, Walk, Switch;
    if Lt(pos, segs[at.index].end) {
      WalkInto(segs, at, pos, t, next);
      WalkInto(segs, Place(at.index, true), pos, t, next);
    } else if at.index + 1 == |segs| {
      WalkPastLast(segs, at, pos, t, next);
      WalkPastLast(segs, Place(at.index, true), pos, t, next);
    } else {
      WalkPast(segs, at, pos, t, next);
      WalkPast(segs, Place(at.index, true), pos, t, next);
      Regroup(Opening(segs[at.index], at.inside, t), Closing(segs[at.index], t),
              Walk(segs, Place(at.index + 1, false), pos, t, next).changes);
    }
  }

  ghost predicate Monotonic(calls: seq<Call>) {
    && (forall i, j :: 0 <= i < j < |calls| ==> Le(calls[i].pos, calls[j].pos))
    && (forall i :: 0 <= i < |calls| ==> Lt(calls[i].pos, Top))
  }

  /** The calls that matter: those that change the tombstone, and the last one. */
  function Essential(calls: seq<Call>, t: Tombstone): (r: seq<Call>)
    ensures calls != [] ==> r != [] && r[|r| - 1] == calls[|calls| - 1]
  {
    if |calls| <= 1 then calls
    else if calls[0].tomb == t then Essential(calls[1..], t)
    else [calls[0]] + Essential(calls[1..], calls[0].tomb)
  }

  /** The emitted changes depend only on where the tombstone changes and where the walk ends, not on
      the positions of the other calls. */
  lemma {:induction false} OnlyEssentialCallsMatter(segs: seq<Segment>, at: Place, t: Tombstone, calls: seq<Call>)
    requires at.index <= |segs| && (at.index == |segs| ==> !at.inside) && Monotonic(calls)
    ensures Emits(segs, at, t, calls) == Emits(segs, at, t, Essential(calls, t))
    decreases |calls|
  {
    if |calls| > 1 {
      var p := Walk(segs, at, calls[0].pos, t, calls[0].tomb);
      OnlyEssentialCallsMatter(segs, p.place, calls[0].tomb, calls[1..]);
      if calls[0].tomb == t {
        OnlyEssentialCallsMatter(segs, at, t, calls[1..]);
        SkipOne(segs, at, t, calls);
      } else {
        var rest := Essential(calls[1..], calls[0].tomb);
        assert ([calls[0]] + rest)[1..] == rest;
      }
    }
  }

  lemma SkipOne(segs: seq<Segment>, at: Place, t: Tombstone, calls: seq<Call>)
    requires at.index <= |segs| && (at.index == |segs| ==> !at.inside) && Monotonic(calls)
    requires |calls| > 1 && calls[0].tomb == t
    ensures Emits(segs, at, t, calls) == Emits(segs, at, t, calls[1..])
  {
    hide Walk;
    var q, c := calls[0].pos, calls[1];
    DetourIsFree(segs, at, q, c.pos, t, c.tomb);
    var first := Walk(segs, at, q, t, t);
    var second := Walk(segs, first.place, c.pos, t, c.tomb);
    var rest := Emits(segs, second.place, c.tomb, calls[1..][1..]);
    assert Emits(segs, first.place, t, calls[1..]) == second.changes + rest;
    Regroup(first.changes, second.changes, rest);
  }

  // ---------------------------------------------------------------- what the changes mean

  /** The tombstone in force at `x` after the changes up to `x`, starting from `t`. */
  function InForce(changes: seq<Change>, t: Tombstone, x: Pos): Tombstone {
    if changes == [] then t
    else InForce(changes[1..], if Le(changes[0].at, x) then changes[0].tomb else t, x)
  }

  /** The walker's input as a function of the position: the tombstone given by the last call up to `x`. */
  function Requested(calls: seq<Call>, t: Tombstone, x: Pos): Tombstone {
    if calls == [] then t
    else Requested(calls[1..], if Le(calls[0].pos, x) then calls[0].tomb else t, x)
  }

  ghost predicate Within(segs: seq<Segment>, x: Pos) {
    exists i :: 0 <= i < |segs| && Le(segs[i].start, x) && Lt(x, segs[i].end)
  }

  ghost predicate SegmentsOk(segs: seq<Segment>) {
    && (forall i :: 0 <= i < |segs| ==> Le(segs[i].start, segs[i].end) && Le(segs[i].end, Top))
    && (forall i, j :: 0 <= i < j < |segs| ==> Le(segs[i].end, segs[j].start))
  }

  /** The place of a walker whose calls have reached `p`. */
  ghost predicate StandsAt(segs: seq<Segment>, at: Place, p: Pos) {
    && at.index <= |segs|
    && (at.index > 0 ==> Le(segs[at.index - 1].end, p))
    && (at.index < |segs| ==>
      if at.inside then Le(segs[at.index].start, p) && Lt(p, segs[at.index].end) else Le(p, segs[at.index].start))
    && (at.index == |segs| ==> !at.inside)
  }

  lemma {:induction false} InForceConcat(a: seq<Change>, b: seq<Change>, t: Tombstone, x: Pos)
    ensures InForce(a + b, t, x) == InForce(b, InForce(a, t, x), x)
  {
    if a == [] {
      assert a + b == b;
    } else {
      assert (a + b)[1..] == a[1..] + b;
      InForceConcat(a[1..], b, if Le(a[0].at, x) then a[0].tomb else t, x);
    }
  }

  lemma {:induction false} InForceLater(changes: seq<Change>, t: Tombstone, x: Pos)
    requires forall c :: c in changes ==> Lt(x, c.at)
    ensures InForce(changes, t, x) == t
  {
    if changes != [] {
      InForceLater(changes[1..], t, x);
    }
  }

  lemma {:induction false} RequestedLater(calls: seq<Call>, t: Tombstone, x: Pos)
    requires forall c :: c in calls ==> Lt(x, c.pos)
    ensures Requested(calls, t, x) == t
  {
    if calls != [] {
      RequestedLater(calls[1..], t, x);
    }
  }

  lemma WithinAt(segs: seq<Segment>, k: nat, x: Pos)
    requires SegmentsOk(segs) && k <= |segs|
    requires (k > 0 ==> Le(segs[k - 1].end, x)) && (k < |segs| ==> Lt(x, segs[k].end))
    ensures Within(segs, x) <==> k < |segs| && Le(segs[k].start, x)
  {
    forall i | 0 <= i < |segs| && i != k ensures !(Le(segs[i].start, x) && Lt(x, segs[i].end)) {
      assert i < k ==> i == k - 1 || Le(segs[i].end, segs[k - 1].start);
      assert i > k ==> Le(segs[k].end, segs[i].start);
    }
  }

  /** What has been emitted as the tombstone in force: the current one inside a segment, none outside. */
  function Shown(inside: bool, t: Tombstone): Tombstone { if inside then t else NoTomb }

  lemma OpeningMeaning(s: Segment, inside: bool, t: Tombstone, x: Pos)
    ensures InForce(Opening(s, inside, t), Shown(inside, t), x) == Shown(inside || Le(s.start, x), t)
  {
  }

  lemma ClosingMeaning(s: Segment, e: Tombstone, t: Tombstone, x: Pos)
    requires e == t || e == NoTomb
    ensures InForce(Closing(s, t), e, x) == if Le(s.end, x) then NoTomb else e
  {
  }

  lemma SwitchMeaning(pos: Pos, t: Tombstone, next: Tombstone, e: Tombstone, x: Pos)
    requires Le(pos, x) ==> e == t
    ensures InForce(Switch(pos, t, next), e, x) == if Le(pos, x) then next else e
  {
  }

  /** One call: up to its position the changes carry the old tombstone, cut to the segments; from there
      on the new one if the position is contained. */
  lemma {:induction false} WalkMeaning(segs: seq<Segment>, at: Place, p: Pos, pos: Pos, t: Tombstone, next: Tombstone, x: Pos)
    requires SegmentsOk(segs) && StandsAt(segs, at, p) && Le(p, pos) && Le(p, x) && Lt(pos, Top)
    ensures var w := Walk(segs, at, pos, t, next);
      && StandsAt(segs, w.place, pos) && (w.contained <==> Within(segs, pos)) && w.contained == w.place.inside
      && (forall c :: c in w.changes ==> Le(p, c.at) && Le(c.at, pos))
      && InForce(w.changes, Shown(at.inside, t), x) ==
        if Lt(x, pos) then Shown(Within(segs, x), t) else Shown(w.place.inside, next)
    decreases |segs| - at.index, 1
  {
    hide Walk, Opening, Closing, Switch, SegmentsOk, InForce, Within;
    var k := at.index;
    if k == |segs| {
      WalkDone(segs, pos, t, next);
      WithinAt(segs, k, x);
      WithinAt(segs, k, pos);
      InForceLater([], NoTomb, x);
    } else if !at.inside && Lt(pos, segs[k].start) {
      WalkBefore(segs, k, pos, t, next);
      SegmentAt(segs, k);
      if Lt(x, pos) { WithinAt(segs, k, x); }
      WithinAt(segs, k, pos);
      InForceLater([], NoTomb, x);
    } else if Lt(pos, segs[k].end) {
      WalkInto(segs, at, pos, t, next);
      OpeningMeaning(segs[k], at.inside, t, x);
      SwitchMeaning(pos, t, next, Shown(at.inside || Le(segs[k].start, x), t), x);
      InForceConcat(Opening(segs[k], at.inside, t), Switch(pos, t, next), Shown(at.inside, t), x);
      if Lt(x, pos) { WithinAt(segs, k, x); }
      WithinAt(segs, k, pos);
      OpeningAt(segs[k], at.inside, t, pos, next);
    } else {
      SegmentAt(segs, k);
      PastMeaning(segs, at, p, pos, t, next, x);
    }
  }

  lemma SegmentAt(segs: seq<Segment>, k: nat)
    requires SegmentsOk(segs) && k < |segs|
    ensures Le(segs[k].start, segs[k].end) && Le(segs[k].end, Top)
    ensures k + 1 < |segs| ==> Le(segs[k].end, segs[k + 1].start)
  {
  }

  lemma OpeningAt(s: Segment, inside: bool, t: Tombstone, pos: Pos, next: Tombstone)
    ensures forall c :: c in Opening(s, inside, t) ==> c.at == s.start && !inside
    ensures forall c :: c in Switch(pos, t, next) ==> c.at == pos
    ensures forall c :: c in Closing(s, t) ==> c.at == s.end
  {
  }

  lemma {:induction false} PastMeaning(segs: seq<Segment>, at: Place, p: Pos, pos: Pos, t: Tombstone, next: Tombstone, x: Pos)
    requires SegmentsOk(segs) && StandsAt(segs, at, p) && Le(p, pos) && Le(p, x) && Lt(pos, Top)
    requires at.index < |segs| && (at.inside || Le(segs[at.index].start, pos)) && Le(segs[at.index].end, pos)
    ensures var w := Walk(segs, at, pos, t, next);
      && StandsAt(segs, w.place, pos) && (w.contained <==> Within(segs, pos)) && w.contained == w.place.inside
      && (forall c :: c in w.changes ==> Le(p, c.at) && Le(c.at, pos))
      && InForce(w.changes, Shown(at.inside, t), x) ==
        if Lt(x, pos) then Shown(Within(segs, x), t) else Shown(w.place.inside, next)
    decreases |segs| - at.index, 0
  {
    hide Walk, Opening, Closing, Switch, SegmentsOk, InForce, Within;
    var k, s, after := at.index, segs[at.index], Place(at.index + 1, false);
    SegmentAt(segs, k);
    WalkPast(segs, at, pos, t, next);
    var rest := Walk(segs, after, pos, t, next);
    var left := Opening(s, at.inside, t) + Closing(s, t);
    OpeningMeaning(s, at.inside, t, x);
    ClosingMeaning(s, Shown(at.inside || Le(s.start, x), t), t, x);
    InForceConcat(Opening(s, at.inside, t), Closing(s, t), Shown(at.inside, t), x);
    InForceConcat(left, rest.changes, Shown(at.inside, t), x);
    OpeningAt(s, at.inside, t, pos, next);
    if Lt(x, s.end) {
      WalkMeaning(segs, after, s.end, pos, t, next, s.end);
      InForceLater(rest.changes, Shown(at.inside || Le(s.start, x), t), x);
      WithinAt(segs, k, x);
    } else {
      WalkMeaning(segs, after, s.end, pos, t, next, x);
    }
  }

  /** A whole run: up to the last position reached, the emitted changes carry exactly the requested
      tombstones cut to the segments, and they stay within what has been walked. */
  lemma {:induction false} RunMeaning(segs: seq<Segment>, at: Place, p: Pos, t: Tombstone, calls: seq<Call>, x: Pos)
    requires SegmentsOk(segs) && StandsAt(segs, at, p) && Monotonic(calls) && calls != []
    requires Le(p, calls[0].pos) && Le(p, x) && Le(x, calls[|calls| - 1].pos)
    ensures forall c :: c in Emits(segs, at, t, calls) ==> Le(p, c.at)
    ensures InForce(Emits(segs, at, t, calls), Shown(at.inside, t), x) == Shown(Within(segs, x), Requested(calls, t, x))
    decreases |calls|
  {
    hide Walk, SegmentsOk, InForce, Within;
    var pos, next, rest := calls[0].pos, calls[0].tomb, calls[1..];
    WalkMeaning(segs, at, p, pos, t, next, x);
    var w := Walk(segs, at, pos, t, next);
    var later := Emits(segs, w.place, next, rest);
    InForceConcat(w.changes, later, Shown(at.inside, t), x);
    if rest == [] {
      InForceLater([], InForce(w.changes, Shown(at.inside, t), x), x);
      RequestedLater([], if Le(pos, x) then next else t, x);
      assert Le(pos, x) ==> x == pos;
    } else {
      RunMeaning(segs, w.place, pos, next, rest, if Lt(x, pos) then pos else x);
      if Lt(x, pos) {
        InForceLater(later, Shown(Within(segs, x), t), x);
        RequestedLater(rest, t, x);
      }
    }
  }

  /** A walker outside its segments emits nothing before the next one. */
  lemma {:induction false} EmitsFromStart(segs: seq<Segment>, k: nat, t: Tombstone, calls: seq<Call>)
    requires SegmentsOk(segs) && k <= |segs| && Monotonic(calls)
    ensures forall c :: c in Emits(segs, Place(k, false), t, calls) ==> k < |segs| && Le(segs[k].start, c.at)
    decreases |calls|
  {
    hide Walk, SegmentsOk;
    if calls != [] {
      var pos, next, rest := calls[0].pos, calls[0].tomb, calls[1..];
      if k == |segs| {
        WalkDone(segs, pos, t, next);
        EmitsFromStart(segs, k, next, rest);
      } else if Lt(pos, segs[k].start) {
        WalkBefore(segs, k, pos, t, next);
        EmitsFromStart(segs, k, next, rest);
      } else {
        PrevBefore(segs, k);
        WalkMeaning(segs, Place(k, false), segs[k].start, pos, t, next, pos);
        var w := Walk(segs, Place(k, false), pos, t, next);
        if rest != [] {
          RunMeaning(segs, w.place, pos, next, rest, pos);
        }
      }
    }
  }

  lemma PrevBefore(segs: seq<Segment>, k: nat)
    requires SegmentsOk(segs) && k < |segs|
    ensures k > 0 ==> Le(segs[k - 1].end, segs[k].start)
  {
  }

  /** A run that goes on after the segments were trimmed, with `e` in force from before: the changes carry the requested
      tombstones cut to the trimmed segments exactly when `e` is what the walker takes to be in force, or the walk goes
      on at the start of a segment, which it opens anew. */
  lemma RunAfterTrim(segs: seq<Segment>, at: Place, p: Pos, t: Tombstone, e: Tombstone, calls: seq<Call>)
    requires SegmentsOk(segs) && StandsAt(segs, at, p) && Monotonic(calls) && calls != [] && Le(p, calls[0].pos)
    requires (e == t || e == NoTomb) && (at.inside ==> e == t)
    ensures (forall x :: Le(p, x) && Le(x, calls[|calls| - 1].pos) ==>
      InForce(Emits(segs, at, t, calls), e, x) == Shown(Within(segs, x), Requested(calls, t, x))) <==>
        e == Shown(at.inside, t) || (at.index < |segs| && segs[at.index].start == p)
  {
    hide Walk, SegmentsOk, InForce, Within, Requested, Emits;
    var last := calls[|calls| - 1].pos;
    var emits := Emits(segs, at, t, calls);
    Trichotomy(p, p);
    if e == Shown(at.inside, t) {
      forall x | Le(p, x) && Le(x, last) ensures InForce(emits, e, x) == Shown(Within(segs, x), Requested(calls, t, x)) {
        RunMeaning(segs, at, p, t, calls, x);
      }
    } else if at.index < |segs| && segs[at.index].start == p {
      OpensFirst(segs, at.index, t, calls);
      forall x | Le(p, x) && Le(x, last) ensures InForce(emits, e, x) == Shown(Within(segs, x), Requested(calls, t, x)) {
        RunMeaning(segs, at, p, t, calls, x);
        FirstDecides(emits, e, NoTomb, x);
      }
    } else {
      EmitsFromStart(segs, at.index, t, calls);
      if at.index < |segs| {
        SegmentAt(segs, at.index);
      }
      WithinAt(segs, at.index, p);
      InForceLater(emits, e, p);
      assert Le(p, last);
    }
  }

  lemma OpensFirst(segs: seq<Segment>, k: nat, t: Tombstone, calls: seq<Call>)
    requires k < |segs| && calls != [] && Le(segs[k].start, calls[0].pos) && t != NoTomb
    ensures var emits := Emits(segs, Place(k, false), t, calls);
      emits != [] && emits[0] == Change(segs[k].start, t)
  {
  }

  lemma FirstDecides(changes: seq<Change>, e: Tombstone, e': Tombstone, x: Pos)
    requires changes != [] && Le(changes[0].at, x)
    ensures InForce(changes, e, x) == InForce(changes, e', x)
  {
  }

  // ---------------------------------------------------------------- no redundant changes

  /** Every change really changes the tombstone in force. */
  predicate Alternates(changes: seq<Change>, e: Tombstone) {
    changes == [] || (changes[0].tomb != e && Alternates(changes[1..], changes[0].tomb))
  }

  function Final(changes: seq<Change>, e: Tombstone): Tombstone {
    if changes == [] then e else changes[|changes| - 1].tomb
  }

  lemma {:induction false} AlternatesConcat(a: seq<Change>, b: seq<Change>, e: Tombstone)
    requires Alternates(a, e) && Alternates(b, Final(a, e))
    ensures Alternates(a + b, e) && Final(a + b, e) == Final(b, Final(a, e))
  {
    if a == [] {
      assert a + b == b;
    } else {
      assert (a + b)[1..] == a[1..] + b;
      AlternatesConcat(a[1..], b, a[0].tomb);
    }
  }

  lemma {:induction false} WalkAlternates(segs: seq<Segment>, at: Place, pos: Pos, t: Tombstone, next: Tombstone)
    requires at.index <= |segs| && (at.index == |segs| ==> !at.inside) && Lt(pos, Top)
    ensures var w := Walk(segs, at, pos, t, next);
      Alternates(w.changes, Shown(at.inside, t)) && Final(w.changes, Shown(at.inside, t)) == Shown(w.place.inside, next)
    decreases |segs| - at.index
  {
    hide Walk;
    if at.index == |segs| {
      WalkDone(segs, pos, t, next);
    } else if !at.inside && Lt(pos, segs[at.index].start) {
      WalkBefore(segs, at.index, pos, t, next);
    } else if Lt(pos, segs[at.index].end) {
      WalkInto(segs, at, pos, t, next);
      AlternatesConcat(Opening(segs[at.index], at.inside, t), Switch(pos, t, next), Shown(at.inside, t));
    } else {
      WalkPast(segs, at, pos, t, next);
      WalkAlternates(segs, Place(at.index + 1, false), pos, t, next);
      AlternatesConcat(Opening(segs[at.index], at.inside, t), Closing(segs[at.index], t), Shown(at.inside, t));
      AlternatesConcat(Opening(segs[at.index], at.inside, t) + Closing(segs[at.index], t),
                       Walk(segs, Place(at.index + 1, false), pos, t, next).changes, Shown(at.inside, t));
    }
  }

  lemma {:induction false} NoRedundantChanges(segs: seq<Segment>, at: Place, t: Tombstone, calls: seq<Call>)
    requires at.index <= |segs| && (at.index == |segs| ==> !at.inside) && Monotonic(calls)
    ensures Alternates(Emits(segs, at, t, calls), Shown(at.inside, t))
    decreases |calls|
  {
    if calls != [] {
      hide Walk;
      var w := Walk(segs, at, calls[0].pos, t, calls[0].tomb);
      WalkAlternates(segs, at, calls[0].pos, t, calls[0].tomb);
      NoRedundantChanges(segs, w.place, calls[0].tomb, calls[1..]);
      AlternatesConcat(w.changes, Emits(segs, w.place, calls[0].tomb, calls[1..]), Shown(at.inside, t));
    }
  }

  // ---------------------------------------------------------------- after all rows

  /** At the position after all rows the promise of `DetourIsFree` is broken: once the segments are
      exhausted, each call there with an active tombstone emits an opening and a closing change.  A
      detour is free exactly when there is no tombstone, the detour leaves a segment ahead, or the
      segments were exhausted before and the detour stops short of the end.  Where it stops decides. */
  lemma DetourToTheEnd(segs: seq<Segment>, at: Place, q: Pos, t: Tombstone, next: Tombstone)
    requires at.index <= |segs| && (at.index == |segs| ==> !at.inside) && SegmentsOk(segs) && Le(q, Top)
    ensures var first := Walk(segs, at, q, t, t);
      var second := Walk(segs, first.place, Top, t, next);
      Walk(segs, at, Top, t, next) == second.(changes := first.changes + second.changes) <==>
        t == NoTomb || if at.index < |segs| then Lt(q, segs[|segs| - 1].end) else Lt(q, Top)
  {
    hide Walk, SegmentsOk;
    var first := Walk(segs, at, q, t, t);
    StaysWithin(segs, at, q, t);
    if first.place.index < |segs| {
      DetourIsFree(segs, at, q, Top, t, next);
    } else {
      ExtraPair(segs, t, next);
      if at.index == |segs| {
        if Lt(q, Top) { WalkDone(segs, q, t, t); } else { ExtraPair(segs, t, t); }
      } else {
        ExhaustedTwice(segs, at, q, t, next);
      }
      var second := Walk(segs, first.place, Top, t, next);
      assert |first.changes + second.changes| == |first.changes| + if t == NoTomb then 0 else 2;
    }
  }

  /** A call leaves a segment ahead exactly when it stops short of the end of the last one. */
  lemma {:induction false} StaysWithin(segs: seq<Segment>, at: Place, q: Pos, t: Tombstone)
    requires at.index <= |segs| && (at.index == |segs| ==> !at.inside) && SegmentsOk(segs)
    ensures Walk(segs, at, q, t, t).place.index < |segs| <==> at.index < |segs| && Lt(q, segs[|segs| - 1].end)
    decreases |segs| - at.index
  {
    hide Walk, Opening, Closing;
    var k := at.index;
    if k < |segs| {
      var last := segs[|segs| - 1];
      assert k + 1 < |segs| ==> Le(segs[k].end, last.start);
      if !at.inside && Lt(q, segs[k].start) {
        WalkBefore(segs, k, q, t, t);
      } else if Lt(q, segs[k].end) {
        WalkInto(segs, at, q, t, t);
      } else if k + 1 == |segs| {
        WalkPastLast(segs, at, q, t, t);
      } else {
        WalkPast(segs, at, q, t, t);
        StaysWithin(segs, Place(k + 1, false), q, t);
      }
    }
  }

  lemma ExtraPair(segs: seq<Segment>, t: Tombstone, next: Tombstone)
    ensures Walk(segs, Place(|segs|, false), Top, t, next) ==
      Progress(if t == NoTomb then [] else [Change(Top, t), Change(Top, NoTomb)], false, Place(|segs|, false))
  {
  }

  lemma {:induction false} ExhaustedTwice(segs: seq<Segment>, at: Place, q: Pos, t: Tombstone, next: Tombstone)
    requires at.index < |segs| && SegmentsOk(segs) && Le(q, Top)
    requires Walk(segs, at, q, t, t).place.index == |segs|
    ensures Walk(segs, at, Top, t, next) == Walk(segs, at, q, t, t)
    decreases |segs| - at.index
  {
    hide Walk, Opening, Closing, SegmentsOk;
    var k := at.index;
    SegmentAt(segs, k);
    if !at.inside && Lt(q, segs[k].start) {
      WalkBefore(segs, k, q, t, t);
    } else if Lt(q, segs[k].end) {
      WalkInto(segs, at, q, t, t);
    } else if k + 1 == |segs| {
      WalkPastLast(segs, at, q, t, t);
      WalkPastLast(segs, at, Top, t, next);
    } else {
      WalkPast(segs, at, q, t, t);
      WalkPast(segs, at, Top, t, next);
      ExhaustedTwice(segs, Place(k + 1, false), q, t, next);
    }
  }

  // ---------------------------------------------------------------- the walker itself

  /** The ranges to walk: with a static row, the first one starts there if it has no start of its own,
      otherwise the static row is a segment by itself. */
  function SegmentsOf(ranges: seq<Segment>, withStaticRow: bool): (segs: seq<Segment>)
    ensures |segs| > 0 && |ranges| <= |segs| <= |ranges| + 1
  {
    if withStaticRow then
      if ranges != [] && ranges[0].start == Bottom then [Segment(StaticRow, ranges[0].end)] + ranges[1..]
      else [Segment(StaticRow, Bottom)] + ranges
    else if ranges == [] then [Segment(Bottom, Bottom)]
    else ranges
  }

  /** The ranges of a query lie among the clustered rows. */
  ghost predicate RangesOk(ranges: seq<Segment>) {
    SegmentsOk(ranges) && forall i :: 0 <= i < |ranges| ==> Le(Bottom, ranges[i].start)
  }

  /** The ranges are the last of the segments, except that the first may begin with the static row instead. */
  lemma SegmentIs(ranges: seq<Segment>, withStaticRow: bool, k: nat)
    requires k < |SegmentsOf(ranges, withStaticRow)|
    ensures var segs := SegmentsOf(ranges, withStaticRow); var i := k - (|segs| - |ranges|);
      if i < 0 then segs[k] == Segment(if withStaticRow then StaticRow else Bottom, Bottom)
      else segs[k] == if k == 0 && withStaticRow then Segment(StaticRow, ranges[i].end) else ranges[i]
    ensures k == |SegmentsOf(ranges, withStaticRow)| - |ranges| == 0 && withStaticRow ==> ranges[0].start == Bottom
  {
  }

  /** The segments hold the clustered positions of the ranges and no others, and the static row if it is asked for. */
  lemma SegmentsHold(ranges: seq<Segment>, withStaticRow: bool, x: Pos)
    requires RangesOk(ranges) && (Le(Bottom, x) || x == StaticRow)
    ensures Within(SegmentsOf(ranges, withStaticRow), x) <==> if x == StaticRow then withStaticRow else Within(ranges, x)
  {
    hide SegmentsOf;
    var segs := SegmentsOf(ranges, withStaticRow);
    var d := |segs| - |ranges|;
    if Within(segs, x) {
      var k :| 0 <= k < |segs| && Le(segs[k].start, x) && Lt(x, segs[k].end);
      SegmentIs(ranges, withStaticRow, k);
      assert k >= d && Le(Bottom, x) ==> Le(ranges[k - d].start, x) && Lt(x, ranges[k - d].end);
    }
    if Within(ranges, x) {
      var i :| 0 <= i < |ranges| && Le(ranges[i].start, x) && Lt(x, ranges[i].end);
      SegmentIs(ranges, withStaticRow, i + d);
      assert Le(segs[i + d].start, x) && Lt(x, segs[i + d].end);
    }
    SegmentIs(ranges, withStaticRow, 0);
    if withStaticRow {
      assert Le(segs[0].start, StaticRow) && Lt(StaticRow, segs[0].end);
    }
  }

  lemma SegmentsFormed(ranges: seq<Segment>, withStaticRow: bool)
    requires RangesOk(ranges)
    ensures SegmentsOk(SegmentsOf(ranges, withStaticRow))
    ensures StandsAt(SegmentsOf(ranges, withStaticRow), Place(0, withStaticRow), StaticRow)
  {
    var segs := SegmentsOf(ranges, withStaticRow);
    var d := |segs| - |ranges|;
    assert forall i :: 0 < i < |segs| ==> segs[i] == ranges[i - d];
  }

  /** Where a walker stands after a sequence of calls. */
  function PlaceAfter(segs: seq<Segment>, at: Place, t: Tombstone, calls: seq<Call>): (p: Place)
    requires at.index <= |segs| && (at.index == |segs| ==> !at.inside)
    ensures p.index <= |segs| && (p.index == |segs| ==> !p.inside)
    decreases |calls|
  {
    if calls == [] then at
    else PlaceAfter(segs, Walk(segs, at, calls[0].pos, t, calls[0].tomb).place, calls[0].tomb, calls[1..])
  }

  lemma {:induction false} StandsAfter(segs: seq<Segment>, at: Place, p: Pos, t: Tombstone, calls: seq<Call>)
    requires SegmentsOk(segs) && StandsAt(segs, at, p) && Monotonic(calls) && (calls != [] ==> Le(p, calls[0].pos))
    ensures StandsAt(segs, PlaceAfter(segs, at, t, calls), if calls == [] then p else calls[|calls| - 1].pos)
    decreases |calls|
  {
    hide Walk, SegmentsOk, InForce, Within;
    if calls != [] {
      WalkMeaning(segs, at, p, calls[0].pos, t, calls[0].tomb, calls[0].pos);
      StandsAfter(segs, Walk(segs, at, calls[0].pos, t, calls[0].tomb).place, calls[0].pos, calls[0].tomb, calls[1..]);
    }
  }

  /** A fresh walker, after any calls in order, finds a position contained exactly when the query asks for it. */
  lemma ContainedIsRequested(ranges: seq<Segment>, withStaticRow: bool, calls: seq<Call>, pos: Pos, t: Tombstone, next: Tombstone)
    requires RangesOk(ranges) && Monotonic(calls) && (Le(Bottom, pos) || pos == StaticRow) && Lt(pos, Top)
    requires forall i :: 0 <= i < |calls| ==> Le(StaticRow, calls[i].pos) && Le(calls[i].pos, pos)
    ensures var segs := SegmentsOf(ranges, withStaticRow);
      var at := PlaceAfter(segs, Place(0, withStaticRow), NoTomb, calls);
      Walk(segs, at, pos, t, next).contained <==> if pos == StaticRow then withStaticRow else Within(ranges, pos)
  {
    hide Walk, SegmentsOk, InForce, Within, SegmentsOf, RangesOk, StandsAt;
    var segs := SegmentsOf(ranges, withStaticRow);
    SegmentsFormed(ranges, withStaticRow);
    SegmentsHold(ranges, withStaticRow, pos);
    StandsAfter(segs, Place(0, withStaticRow), StaticRow, NoTomb, calls);
    var p := if calls == [] then StaticRow else calls[|calls| - 1].pos;
    WalkMeaning(segs, PlaceAfter(segs, Place(0, withStaticRow), NoTomb, calls), p, pos, t, next, pos);
  }

  /** The changes a fresh walker emits mean the requested tombstones cut to the ranges of the query. */
  lemma FreshRunMeaning(ranges: seq<Segment>, withStaticRow: bool, calls: seq<Call>, x: Pos)
    requires RangesOk(ranges) && Monotonic(calls) && calls != [] && Le(StaticRow, calls[0].pos)
    requires Le(Bottom, x) && Le(x, calls[|calls| - 1].pos)
    ensures InForce(Emits(SegmentsOf(ranges, withStaticRow), Place(0, withStaticRow), NoTomb, calls), NoTomb, x) ==
      Shown(Within(ranges, x), Requested(calls, NoTomb, x))
  {
    hide Walk, SegmentsOk, InForce, Within, SegmentsOf, RangesOk, StandsAt, Emits;
    SegmentsFormed(ranges, withStaticRow);
    SegmentsHold(ranges, withStaticRow, x);
    RunMeaning(SegmentsOf(ranges, withStaticRow), Place(0, withStaticRow), StaticRow, NoTomb, calls, x);
  }

  ghost predicate Left(segs: seq<Segment>, k: nat, x: Pos) {
    exists i :: k <= i < |segs| && Le(segs[i].start, x) && Lt(x, segs[i].end)
  }

  /** Whether some segment from `k` on has the position strictly inside. */
  ghost predicate CutsInside(segs: seq<Segment>, k: nat, pos: Pos) {
    exists i :: k <= i < |segs| && Lt(segs[i].start, pos) && Lt(pos, segs[i].end)
  }

  ghost predicate PassedBelow(segs: seq<Segment>, k0: nat, k: nat, pos: Pos) {
    k0 <= k <= |segs| && forall i :: k0 <= i < k ==> Le(segs[i].end, pos)
  }

  lemma TrimCuts(segs: seq<Segment>, k0: nat, k: nat, pos: Pos)
    requires SegmentsOk(segs) && PassedBelow(segs, k0, k, pos) && k < |segs|
    requires Lt(segs[k].start, pos) && Lt(pos, segs[k].end)
    ensures var cut := segs[k := Segment(pos, segs[k].end)];
      SegmentsOk(cut) && CutsInside(segs, k0, pos) && forall x :: Left(cut, k, x) <==> Left(segs, k0, x) && Le(pos, x)
  {
    var cut := segs[k := Segment(pos, segs[k].end)];
    forall x ensures Left(cut, k, x) <==> Left(segs, k0, x) && Le(pos, x) {
      assert forall i :: k < i < |segs| ==> Le(segs[k].end, segs[i].start);
      if Left(cut, k, x) {
        var i :| k <= i < |cut| && Le(cut[i].start, x) && Lt(x, cut[i].end);
        assert Le(segs[i].start, x) && Lt(x, segs[i].end);
      }
      if Left(segs, k0, x) && Le(pos, x) {
        var i :| k0 <= i < |segs| && Le(segs[i].start, x) && Lt(x, segs[i].end);
        assert k <= i && Le(cut[i].start, x) && Lt(x, cut[i].end);
      }
    }
  }

  lemma TrimStops(segs: seq<Segment>, k0: nat, k: nat, pos: Pos)
    requires SegmentsOk(segs) && PassedBelow(segs, k0, k, pos) && (k < |segs| ==> Le(pos, segs[k].start))
    ensures !CutsInside(segs, k0, pos) && forall x :: Left(segs, k, x) <==> Left(segs, k0, x) && Le(pos, x)
  {
    assert forall i :: k < i < |segs| ==> Le(segs[k].end, segs[i].start);
    assert forall i :: k <= i < |segs| ==> Le(pos, segs[i].start);
    forall x | Left(segs, k0, x) && Le(pos, x) ensures Left(segs, k, x) {
      var i :| k0 <= i < |segs| && Le(segs[i].start, x) && Lt(x, segs[i].end);
      assert k <= i;
    }
  }

  class Walker {
    const ranges: seq<Segment>
    const withStaticRow: bool

    var range: nat                   // index of the first range not left behind
    var inCurrent: bool
    var pastCurrent: bool
    var usingClusteringRange: bool
    var currentStart: Pos
    var currentEnd: Pos
    var trim: Option<Pos>
    var changeCounter: nat
    var tombstone: Tombstone

    ghost var segs: seq<Segment>     // the segments, the current one trimmed
    ghost var index: nat             // the current one

    ghost function At(): Place
      reads this
    {
      Place(index, inCurrent)
    }

    ghost predicate Valid()
      reads this
    {
      Structure() && !pastCurrent && (index == |segs| ==> !inCurrent)
    }

    ghost predicate Structure()
      reads this`range, this`usingClusteringRange, this`currentStart, this`currentEnd, this`segs, this`index
      ensures Structure() ==> index <= |segs| && SegmentHere(segs, index) == Segment(currentStart, currentEnd)
    {
      var base := SegmentsOf(ranges, withStaticRow);
      var offset := |base| - |ranges|;
      && |segs| == |base| && index <= |segs|
      && (forall i :: 0 <= i < |segs| ==> segs[i].end == base[i].end)
      && (forall i :: index < i < |segs| ==> segs[i] == base[i])
      && usingClusteringRange == (index >= offset) && range == (if index >= offset then index - offset else 0)
      && (if index < |segs| then currentStart == segs[index].start && currentEnd == segs[index].end
          else currentStart == Top && currentEnd == Top)
    }

    /** The positions the walker will still find contained. */
    ghost predicate Remains(x: Pos)
      reads this`segs, this`index
    {
      Left(segs, index, x)
    }

    /** `lower_bound_change_counter`: it has not gone back from `count`, and has moved on if the lower bound is not `bound`. */
    ghost predicate Counted(count: nat, bound: Pos)
      reads this`changeCounter, this`currentStart
    {
      count <= changeCounter && (currentStart != bound ==> count < changeCounter)
    }

    constructor (ranges: seq<Segment>, withStaticRow: bool)
      ensures Valid() && this.ranges == ranges && this.withStaticRow == withStaticRow
      ensures segs == SegmentsOf(ranges, withStaticRow) && At() == Place(0, withStaticRow)
      ensures trim == None && tombstone == NoTomb && changeCounter > 0
      ensures RangesOk(ranges) ==> SegmentsOk(segs) && forall x | Le(Bottom, x) :: Remains(x) <==> Within(ranges, x)
      ensures RangesOk(ranges) ==> (Remains(StaticRow) <==> withStaticRow)
    {
      this.ranges := ranges;
      this.withStaticRow := withStaticRow;
      range, inCurrent, pastCurrent, changeCounter := 0, withStaticRow, false, 1;
      trim, tombstone := None, NoTomb;
      var start, end, using := FirstPositions(ranges, withStaticRow);
      currentStart, currentEnd, usingClusteringRange := start, end, using;
      segs, index := SegmentsOf(ranges, withStaticRow), 0;
      new;
      AllRemain();
    }

    /** Nothing is left behind yet. */
    lemma AllRemain()
      requires segs == SegmentsOf(ranges, withStaticRow) && index == 0
      ensures RangesOk(ranges) ==> SegmentsOk(segs) && forall x | Le(Bottom, x) :: Remains(x) <==> Within(ranges, x)
      ensures RangesOk(ranges) ==> (Remains(StaticRow) <==> withStaticRow)
    {
      hide SegmentsOf, RangesOk, SegmentsOk;
      assert forall x :: Remains(x) <==> Within(segs, x);
      if RangesOk(ranges) {
        SegmentsFormed(ranges, withStaticRow);
        SegmentsHold(ranges, withStaticRow, StaticRow);
        forall x | Le(Bottom, x) ensures Remains(x) <==> Within(ranges, x) {
          SegmentsHold(ranges, withStaticRow, x);
        }
      }
    }

    /** `set_current_positions`. */
    static method FirstPositions(ranges: seq<Segment>, withStaticRow: bool) returns (start: Pos, end: Pos, using: bool)
      ensures var base := SegmentsOf(ranges, withStaticRow);
        start == base[0].start && end == base[0].end && using == (|base| == |ranges|)
    {
      start, end, using := StaticRow, Bottom, false;
      if !withStaticRow {
        if ranges == [] {
          start := Bottom;
        } else {
          start, end, using := ranges[0].start, ranges[0].end, true;
        }
      } else if ranges != [] && ranges[0].start == Bottom {
        end, using := ranges[0].end, true;
      }
    }

    /** `advance_to_next_range`. */
    method AdvanceToNextRange() returns (more: bool)
      requires Structure()
      modifies this`inCurrent, this`pastCurrent, this`range, this`changeCounter, this`usingClusteringRange
      modifies this`currentStart, this`currentEnd, this`index
      ensures Valid() && !inCurrent && Counted(old(changeCounter), old(currentStart))
      ensures index == if old(index) == |segs| then |segs| else old(index) + 1
      ensures more == (index < |segs|)
    {
      inCurrent := false;
      pastCurrent := false;
      if usingClusteringRange {
        if range == |ranges| {
          return false;
        }
        range := range + 1;
      }
      changeCounter := changeCounter + 1;
      usingClusteringRange := true;
      index := index + 1;
      if range == |ranges| {
        currentStart, currentEnd := Top, Top;
        return false;
      }
      currentStart, currentEnd := ranges[range].start, ranges[range].end;
      more := true;
    }

    /** `advance_to` with a new tombstone. */
    method AdvanceTo(pos: Pos, next: Tombstone) returns (contained: bool, changes: seq<Change>)
      requires Valid()
      modifies this`inCurrent, this`pastCurrent, this`range, this`changeCounter, this`usingClusteringRange
      modifies this`currentStart, this`currentEnd, this`index, this`tombstone
      ensures Valid() && tombstone == next && Counted(old(changeCounter), old(currentStart))
      ensures Progress(changes, contained, At()) == Walk(segs, old(At()), pos, old(tombstone), next)
    {
      hide Walk, Structure;
      var prev := tombstone;
      tombstone := next;
      changes := [];
      ghost var whole := Walk(segs, At(), pos, prev, next);
      while true
        invariant Valid() && tombstone == next && Counted(old(changeCounter), old(currentStart))
        invariant var p := Walk(segs, At(), pos, prev, next); p.(changes := changes + p.changes) == whole
        decreases |segs| - index
      {
        ghost var before := changes;
        var finished, emitted;
        finished, contained, emitted := Iterate(pos, prev, next);
        changes := changes + emitted;
        if finished {
          return;
        }
        Regroup(before, emitted, Walk(segs, At(), pos, prev, next).changes);
      }
    }

    /** One iteration of the loop of `advance_to`. */
    method Iterate(pos: Pos, prev: Tombstone, next: Tombstone) returns (finished: bool, contained: bool, changes: seq<Change>)
      requires Valid()
      modifies this`inCurrent, this`pastCurrent, this`range, this`changeCounter, this`usingClusteringRange
      modifies this`currentStart, this`currentEnd, this`index
      ensures Valid() && (!finished ==> index == old(index) + 1) && Counted(old(changeCounter), old(currentStart))
      ensures finished ==> Walk(segs, old(At()), pos, prev, next) == Progress(changes, contained, At())
      ensures !finished ==> var p := Walk(segs, At(), pos, prev, next);
        Walk(segs, old(At()), pos, prev, next) == p.(changes := changes + p.changes)
    {
      hide Walk, Structure, Lt;
      WalkUnfold(segs, At(), pos, prev, next);
      changes := [];
      if !inCurrent && Lt(pos, currentStart) {
        return true, false, [];
      }
      if !inCurrent && prev != NoTomb {
        changes := [Change(currentStart, prev)];
      }
      inCurrent := true;
      if Lt(pos, currentEnd) {
        if prev != next {
          changes := changes + [Change(pos, next)];
        }
        return true, true, changes;
      }
      if !pastCurrent && prev != NoTomb {
        changes := changes + [Change(currentEnd, NoTomb)];
      }
      pastCurrent := true;
      var more := AdvanceToNextRange();
      finished, contained := !more, false;
    }

    /** `trim_front`: excludes the positions below `pos`.  The trim is recorded only if it cuts a segment. */
    method TrimFront(pos: Pos)
      requires Valid() && SegmentsOk(segs) && Le(pos, Top)
      modifies this
      ensures Valid() && SegmentsOk(segs) && unchanged(`tombstone) && Counted(old(changeCounter), old(currentStart))
      ensures forall x :: Remains(x) <==> old(Remains(x)) && Le(pos, x)
      ensures index < |segs| ==> Le(pos, currentStart)
      ensures trim == if CutsInside(old(segs), old(index), pos) then Some(pos) else old(trim)
      ensures inCurrent == (old(inCurrent) && Le(pos, old(currentStart)))
      ensures index >= old(index) && |segs| == |old(segs)| && (inCurrent ==> unchanged(`index, `segs, `currentStart))
      ensures segs == old(segs) || (index < |segs| && segs == old(segs)[index := Segment(pos, currentEnd)] && Lt(pos, currentEnd))
      ensures CutsInside(old(segs), old(index), pos) ==> index < |segs| && currentStart == pos
      ensures forall p :: old(StandsAt(segs, At(), p)) && Le(p, pos) ==> StandsAt(segs, At(), pos)
    {
      hide SegmentsOk, Left, CutsInside, Structure;
      while Lt(currentStart, pos)
        invariant Valid() && segs == old(segs) && unchanged(`tombstone, `trim) && Counted(old(changeCounter), old(currentStart))
        invariant PassedBelow(segs, old(index), index, pos)
        invariant inCurrent ==> old(inCurrent) && index == old(index) && currentStart == old(currentStart)
        invariant old(inCurrent) && !inCurrent ==> Lt(old(currentStart), pos)
        decreases |segs| - index
      {
        if Lt(pos, currentEnd) {
          TrimCuts(segs, old(index), index, pos);
          CutCurrent(pos);
          return;
        }
        var more := AdvanceToNextRange();
        if !more {
          break;
        }
      }
      TrimStops(segs, old(index), index, pos);
    }

    method CutCurrent(pos: Pos)
      requires Valid() && index < |segs|
      modifies this`trim, this`currentStart, this`inCurrent, this`changeCounter, this`segs
      ensures Valid() && trim == Some(pos) && segs == old(segs)[index := Segment(pos, currentEnd)]
      ensures currentStart == pos && !inCurrent && changeCounter > old(changeCounter)
    {
      trim := Some(pos);
      currentStart := pos;
      inCurrent := false;
      changeCounter := changeCounter + 1;
      segs := segs[index := Segment(pos, currentEnd)];
    }

    /** `reset`: starts over with whatever trim is on record. */
    method Reset()
      requires Valid() && SegmentsOk(SegmentsOf(ranges, withStaticRow)) && (trim.Some? ==> Le(trim.value, Top))
      modifies this
      ensures Valid() && unchanged(`tombstone) && changeCounter > old(changeCounter)
      ensures forall x :: Remains(x) <==> Within(SegmentsOf(ranges, withStaticRow), x) && (old(trim).Some? ==> Le(old(trim).value, x))
      ensures RangesOk(ranges) ==> forall x | Le(Bottom, x) ::
        Remains(x) <==> Within(ranges, x) && (old(trim).Some? ==> Le(old(trim).value, x))
    {
      hide SegmentsOk, SegmentsOf, Structure, RangesOk;
      StartOver();
      AllRemain();
      assert forall x :: Remains(x) <==> Within(segs, x);
      if trim.Some? {
        var pos := trim.value;
        trim := None;
        TrimFront(pos);
      }
    }

    method StartOver()
      modifies this
      ensures Valid() && segs == SegmentsOf(ranges, withStaticRow) && At() == Place(0, withStaticRow)
      ensures unchanged(`tombstone, `trim) && changeCounter > old(changeCounter)
    {
      range, inCurrent, pastCurrent := 0, withStaticRow, false;
      currentStart, currentEnd, usingClusteringRange := FirstPositions(ranges, withStaticRow);
      segs, index := SegmentsOf(ranges, withStaticRow), 0;
      changeCounter := changeCounter + 1;
    }

    /** `advance_to` for a range of positions: does it overlap what is left? */
    method AdvanceToRange(start: Pos, end: Pos) returns (overlaps: bool)
      requires Valid() && SegmentsOk(segs) && Le(end, Top)
      modifies this`inCurrent, this`pastCurrent, this`range, this`changeCounter, this`usingClusteringRange
      modifies this`currentStart, this`currentEnd, this`index
      ensures Valid() && Counted(old(changeCounter), old(currentStart))
      ensures overlaps <==> exists i :: old(index) <= i < |segs| && Lt(segs[i].start, end) && Lt(start, segs[i].end)
      ensures forall i :: old(index) <= i < index && i < |segs| ==> Le(segs[i].end, start)
    {
      while Lt(currentStart, end)
        invariant Valid() && index >= old(index) && Counted(old(changeCounter), old(currentStart))
        invariant forall i :: old(index) <= i < index && i < |segs| ==> Le(segs[i].end, start)
        decreases |segs| - index
      {
        if Lt(start, currentEnd) {
          return true;
        }
        var more := AdvanceToNextRange();
        if !more {
          return false;
        }
      }
      overlaps := false;
    }

    /** `contains_tombstone`. */
    method ContainsTombstone(start: Pos, end: Pos) returns (overlaps: bool)
      requires Valid() && SegmentsOk(ranges)
      ensures overlaps <==>
        && (trim.Some? ==> Lt(trim.value, end))
        && exists i :: range <= i < |ranges| && Lt(ranges[i].start, end) && Lt(start, ranges[i].end)
    {
      if trim.Some? && !Lt(trim.value, end) {
        return false;
      }
      var i := range;
      while i < |ranges|
        invariant range <= i
        invariant forall j :: range <= j < i && j < |ranges| ==> Le(ranges[j].end, start)
      {
        if !Lt(ranges[i].start, end) {
          return false;
        }
        if Lt(start, ranges[i].end) {
          return true;
        }
        i := i + 1;
      }
      overlaps := false;
    }

    /** `split_tombstone`: the parts of a range tombstone within the ranges, the first apart from the rest. The
        assertion in the source, that nothing was found before a range that encloses the tombstone, holds. */
    method SplitTombstone(rt: Segment) returns (first: Option<Segment>, rest: seq<Segment>)
      requires Valid() && SegmentsOk(ranges) && Lt(rt.start, rt.end)
      ensures first.None? ==> rest == []
      ensures forall x :: Covers(Pieces(first, rest), x) <==>
        Holds(rt, x) && (trim.Some? ==> Le(trim.value, x)) && Left(ranges, range, x)
    {
      hide SegmentsOk, Structure, Left, LeftBefore, Covers;
      first, rest := None, [];
      var cut := rt;
      if trim.Some? {
        if !Lt(trim.value, rt.end) {
          NoPieces();
          return;
        }
        if Lt(rt.start, trim.value) {
          cut := Segment(trim.value, rt.end);
        }
      }
      var i := range;
      NoPieces();
      LeftNone(ranges, range);
      while i < |ranges|
        invariant range <= i && (i > |ranges| ==> i == range)
        invariant first.None? ==> rest == []
        invariant first.Some? ==> Overlapped(ranges, range, i, cut)
        invariant forall x :: Covers(Pieces(first, rest), x) <==> Holds(cut, x) && LeftBefore(ranges, range, i, x)
      {
        var s := ranges[i];
        LeftOneMore(ranges, range, i);
        CommonPart(cut, s);
        if !Lt(cut.start, s.start) && !Lt(s.end, cut.end) {
          Enclosed(ranges, range, i, cut);
          assert first.None?;
          OnePiece(cut);
          LeftAll(ranges, range, i, cut);
          return Some(cut), [];
        }
        if Lt(s.start, cut.end) && Lt(cut.start, s.end) {
          var piece := Common(cut, s);
          PieceAdded(Pieces(first, rest), piece);
          if first.Some? {
            assert Pieces(first, rest + [piece]) == Pieces(first, rest) + [piece];
            rest := rest + [piece];
          } else {
            assert Pieces(Some(piece), rest) == Pieces(first, rest) + [piece];
            first := Some(piece);
          }
        }
        i := i + 1;
      }
      LeftEnd(ranges, range, i);
    }
  }

  predicate Holds(s: Segment, x: Pos) {
    Le(s.start, x) && Lt(x, s.end)
  }

  function Pieces(first: Option<Segment>, rest: seq<Segment>): seq<Segment> {
    (if first.Some? then [first.value] else []) + rest
  }

  ghost predicate Covers(pieces: seq<Segment>, x: Pos) {
    exists i :: 0 <= i < |pieces| && Holds(pieces[i], x)
  }

  ghost predicate LeftBefore(segs: seq<Segment>, k: nat, n: nat, x: Pos) {
    exists i :: k <= i < n && i < |segs| && Holds(segs[i], x)
  }

  ghost predicate Overlapped(segs: seq<Segment>, k: nat, n: nat, rt: Segment) {
    exists i :: k <= i < n && i < |segs| && Lt(segs[i].start, rt.end) && Lt(rt.start, segs[i].end)
  }

  /** `range_tombstone::trim` to an overlapping range. */
  function Common(rt: Segment, s: Segment): Segment {
    Segment(if Lt(rt.start, s.start) then s.start else rt.start, if Lt(s.end, rt.end) then s.end else rt.end)
  }

  lemma CommonPart(rt: Segment, s: Segment)
    ensures forall x :: Holds(rt, x) && Holds(s, x) <==> Holds(Common(rt, s), x)
    ensures !(Lt(s.start, rt.end) && Lt(rt.start, s.end)) ==> forall x :: !(Holds(rt, x) && Holds(s, x))
  {
  }

  lemma NoPieces()
    ensures forall x :: !Covers(Pieces(None, []), x)
  {
  }

  lemma OnePiece(s: Segment)
    ensures forall x :: Covers(Pieces(Some(s), []), x) <==> Holds(s, x)
  {
    assert Pieces(Some(s), []) == [s];
    forall x | Holds(s, x) ensures Covers([s], x) {
      assert Holds([s][0], x);
    }
  }

  lemma PieceAdded(pieces: seq<Segment>, piece: Segment)
    ensures forall x :: Covers(pieces + [piece], x) <==> Covers(pieces, x) || Holds(piece, x)
  {
    forall x ensures Covers(pieces + [piece], x) <==> Covers(pieces, x) || Holds(piece, x) {
      assert (pieces + [piece])[|pieces|] == piece;
      if Covers(pieces, x) {
        var i :| 0 <= i < |pieces| && Holds(pieces[i], x);
        assert Holds((pieces + [piece])[i], x);
      }
    }
  }

  lemma LeftNone(segs: seq<Segment>, k: nat)
    ensures forall x :: !LeftBefore(segs, k, k, x)
  {
  }

  lemma LeftOneMore(segs: seq<Segment>, k: nat, n: nat)
    requires k <= n < |segs|
    ensures forall x :: LeftBefore(segs, k, n + 1, x) <==> LeftBefore(segs, k, n, x) || Holds(segs[n], x)
  {
    forall x ensures LeftBefore(segs, k, n + 1, x) <==> LeftBefore(segs, k, n, x) || Holds(segs[n], x) {
      if LeftBefore(segs, k, n + 1, x) {
        var i :| k <= i < n + 1 && i < |segs| && Holds(segs[i], x);
        assert i < n || i == n;
      }
    }
  }

  lemma LeftEnd(segs: seq<Segment>, k: nat, n: nat)
    requires |segs| <= n
    ensures forall x :: LeftBefore(segs, k, n, x) <==> Left(segs, k, x)
  {
    forall x ensures LeftBefore(segs, k, n, x) <==> Left(segs, k, x) {
      if LeftBefore(segs, k, n, x) {
        var i :| k <= i < n && i < |segs| && Holds(segs[i], x);
        assert Le(segs[i].start, x) && Lt(x, segs[i].end);
      }
      if Left(segs, k, x) {
        var i :| k <= i < |segs| && Le(segs[i].start, x) && Lt(x, segs[i].end);
        assert Holds(segs[i], x);
      }
    }
  }

  /** A range that encloses the tombstone is the only one it overlaps. */
  lemma Enclosed(segs: seq<Segment>, k: nat, n: nat, rt: Segment)
    requires SegmentsOk(segs) && k <= n < |segs| && Le(segs[n].start, rt.start)
    ensures !Overlapped(segs, k, n, rt)
  {
  }

  lemma LeftAll(segs: seq<Segment>, k: nat, n: nat, rt: Segment)
    requires k <= n < |segs| && Le(segs[n].start, rt.start) && Le(rt.end, segs[n].end)
    ensures forall x :: Holds(rt, x) ==> Left(segs, k, x)
  {
  }

  /** A trim survives `reset` exactly when it cuts a segment or has nothing to cut off: a trim that
      lands between segments is forgotten. */
  method TrimThenReset(ranges: seq<Segment>, withStaticRow: bool, pos: Pos) returns (w: Walker)
    requires SegmentsOk(SegmentsOf(ranges, withStaticRow)) && Le(pos, Top)
    ensures var base := SegmentsOf(ranges, withStaticRow);
      (forall x :: w.Remains(x) <==> Within(base, x) && Le(pos, x)) <==>
        (exists i :: 0 <= i < |base| && Lt(base[i].start, pos) && Lt(pos, base[i].end)) ||
        (forall i :: 0 <= i < |base| && Lt(base[i].start, base[i].end) ==> Le(pos, base[i].start))
  {
    hide SegmentsOk, SegmentsOf, Walker.Structure;
    w := new Walker(ranges, withStaticRow);
    ghost var base := SegmentsOf(ranges, withStaticRow);
    w.TrimFront(pos);
    assert CutsInside(base, 0, pos) <==> exists i :: 0 <= i < |base| && Lt(base[i].start, pos) && Lt(pos, base[i].end);
    w.Reset();
    Forgotten(SegmentsOf(ranges, withStaticRow), pos);
  }

  /** A trim between two ranges leaves the first behind, and `reset` brings it back. */
  method TrimInGap() returns (w: Walker)
    ensures w.Remains(Pos(0.25, -1))
  {
    var ranges := [Segment(Pos(0.25, -1), Pos(0.375, -1)), Segment(Pos(0.625, -1), Pos(0.75, -1))];
    w := new Walker(ranges, false);
    w.TrimFront(Pos(0.5, -1));
    w.Reset();
    assert Le(ranges[0].start, Pos(0.25, -1)) && Lt(Pos(0.25, -1), ranges[0].end);
  }

  /** `trim_front` promises that `advance_to(lower_bound())` then emits a change for the position if a tombstone is
      active.  It does exactly when the position is still contained and is not the start of a range already entered. */
  method TrimThenAdvance(w: Walker, pos: Pos) returns (changes: seq<Change>)
    requires w.Valid() && SegmentsOk(w.segs) && Le(pos, Top) && w.tombstone != NoTomb
    requires forall i :: w.index <= i < |w.segs| ==> Lt(w.segs[i].start, w.segs[i].end)
    modifies w
    ensures w.Valid()
    ensures old(exists x :: w.Remains(x) && Le(pos, x)) ==>
      && (Change(pos, w.tombstone) in changes <==> old(w.Remains(pos)) && !old(w.inCurrent && w.currentStart == pos))
      && changes == if old(w.inCurrent && Le(pos, w.currentStart)) then [] else [Change(w.currentStart, w.tombstone)]
  {
    hide SegmentsOk, Walker.Structure, Walk, CutsInside;
    ghost var segs := w.segs;
    w.TrimFront(pos);
    if w.index < |w.segs| {
      assert Lt(segs[w.index].start, segs[w.index].end);
      FirstLeft(w.segs, w.index, pos);
      WalkInto(w.segs, w.At(), w.currentStart, w.tombstone, w.tombstone);
    }
    var contained;
    contained, changes := w.AdvanceTo(w.currentStart, w.tombstone);
  }

  lemma FirstLeft(segs: seq<Segment>, k: nat, pos: Pos)
    requires SegmentsOk(segs) && k < |segs| && Lt(segs[k].start, segs[k].end) && Le(pos, segs[k].start)
    ensures Left(segs, k, pos) <==> segs[k].start == pos
  {
    assert forall i :: k < i < |segs| ==> Le(segs[k].end, segs[i].start);
    assert segs[k].start == pos ==> Le(segs[k].start, pos) && Lt(pos, segs[k].end);
  }

  lemma Forgotten(base: seq<Segment>, pos: Pos)
    ensures (forall x :: Within(base, x) ==> Le(pos, x)) <==>
      (forall i :: 0 <= i < |base| && Lt(base[i].start, base[i].end) ==> Le(pos, base[i].start))
  {
    forall i | 0 <= i < |base| && Lt(base[i].start, base[i].end) ensures Within(base, base[i].start) {
      assert Le(base[i].start, base[i].start);
    }
  }
}
