/** Intervals over a dense unbounded order, possibly wrapping around, and their algebra. */
module Intervals {
  import opened Basics

  /** `interval_bound`. */
  datatype Bound = Bound(value: real, inclusive: bool)

  /** `wrapping_interval`. A singular interval keeps its value in the start bound. */
  datatype Interval = Interval(first: Option<Bound>, last: Option<Bound>, singular: bool) {
    ghost predicate Valid() {
      singular ==> first.Some? && first.value.inclusive && last.None?
    }

    function Start(): Option<Bound> {
      first
    }

    function End(): Option<Bound> {
      if singular then first else last
    }

    /** `is_wrap_around`. */
    predicate Wraps() {
      && last.Some? && first.Some?
      && (|| End().value.value < Start().value.value
          || (End().value.value == Start().value.value && (!Start().value.inclusive || !End().value.inclusive)))
    }
  }

  function Make(start: Option<Bound>, end: Option<Bound>): (i: Interval)
    ensures i.Valid()
  {
    Interval(start, end, false)
  }

  // ---------------------------------------------------------------- bound comparisons

  datatype Ordering = Less | Equal | Greater

  function Compare(a: real, b: real): Ordering {
    if a < b then Less else if a == b then Equal else Greater
  }

  /** `require_ordering_and_on_equal_return`. */
  predicate Requires(input: Ordering, wanted: Ordering, onEqual: bool) {
    if input == wanted then true else if input == Equal then onEqual else false
  }

  predicate EndReachesStart(end: Option<Bound>, start: Option<Bound>) {
    || end.None? || start.None?
    || Requires(Compare(end.value.value, start.value.value), Greater, end.value.inclusive && start.value.inclusive)
  }

  predicate StartAtMost(a: Option<Bound>, b: Option<Bound>) {
    || a.None?
    || (b.Some? && Requires(Compare(a.value.value, b.value.value), Less, a.value.inclusive || !b.value.inclusive))
  }

  predicate StartBelow(a: Option<Bound>, b: Option<Bound>) {
    && b.Some?
    && (|| a.None?
        || Requires(Compare(a.value.value, b.value.value), Less, a.value.inclusive && !b.value.inclusive))
  }

  predicate EndAtLeast(a: Option<Bound>, b: Option<Bound>) {
    || a.None?
    || (b.Some? && Requires(Compare(a.value.value, b.value.value), Greater, a.value.inclusive || !b.value.inclusive))
  }

  // ---------------------------------------------------------------- cuts: what the bounds mean

  /** A place between points: below all of them, just below or just above one, or above all. */
  datatype Cut = Bottom | At(value: real, above: bool) | Top

  predicate CutLess(a: Cut, b: Cut) {
    match (a, b)
    case (Bottom, _) => !b.Bottom?
    case (_, Top) => !a.Top?
    case (At(v, u), At(w, t)) => v < w || (v == w && !u && t)
    case (_, _) => false
  }

  predicate CutAtMost(a: Cut, b: Cut) {
    !CutLess(b, a)
  }

  predicate Under(c: Cut, x: real) {
    match c
    case Bottom => true
    case Top => false
    case At(v, above) => v < x || (v == x && !above)
  }

  function Lower(b: Option<Bound>): Cut {
    match b
    case None => Bottom
    case Some(Bound(v, inclusive)) => At(v, !inclusive)
  }

  function Upper(b: Option<Bound>): Cut {
    match b
    case None => Top
    case Some(Bound(v, inclusive)) => At(v, inclusive)
  }

  function Low(i: Interval): Cut {
    Lower(i.Start())
  }

  function High(i: Interval): Cut {
    Upper(i.End())
  }

  lemma BoundsAreCuts(a: Option<Bound>, b: Option<Bound>)
    ensures EndReachesStart(a, b) <==> CutLess(Lower(b), Upper(a))
    ensures StartAtMost(a, b) <==> CutAtMost(Lower(a), Lower(b))
    ensures StartBelow(a, b) <==> CutLess(Lower(a), Lower(b))
    ensures EndAtLeast(a, b) <==> CutAtMost(Upper(b), Upper(a))
  {
  }

  lemma UnderMonotone(a: Cut, b: Cut, x: real)
    requires CutAtMost(a, b) && Under(b, x)
    ensures Under(a, x)
  {
  }

  /** Between two cuts there is a point. */
  lemma PointBetween(a: Cut, b: Cut) returns (x: real)
    requires CutLess(a, b)
    ensures Under(a, x) && !Under(b, x)
  {
    match (a, b)
    case (Bottom, Top) => x := 0.0;
    case (Bottom, At(w, _)) => x := w - 1.0;
    case (At(v, _), Top) => x := v + 1.0;
    case (At(v, u), At(w, t)) => x := (v + w) / 2.0;
  }

  /** The points of an interval. */
  ghost predicate In(i: Interval, x: real) {
    if i.Wraps() then Under(Low(i), x) || !Under(High(i), x) else Under(Low(i), x) && !Under(High(i), x)
  }

  /** The bounds of an interval that does not wrap have points between them. */
  lemma Straight(i: Interval)
    requires i.Valid() && !i.Wraps()
    ensures CutLess(Low(i), High(i))
  {
  }

  /** An interval whose end bound is where its start bound is, so that it goes all the way around. */
  predicate FullCircle(i: Interval) {
    i.Wraps() && Low(i) == High(i)
  }

  // ---------------------------------------------------------------- points and other intervals

  predicate Before(i: Interval, x: real) {
    if i.Start().None? then false
    else if x < i.Start().value.value then true
    else !i.Start().value.inclusive && x == i.Start().value.value
  }

  predicate After(i: Interval, x: real) {
    if i.End().None? then false
    else if i.End().value.value < x then true
    else !i.End().value.inclusive && x == i.End().value.value
  }

  function Unwrap(i: Interval): (Interval, Interval) {
    (Make(None, i.End()), Make(i.Start(), None))
  }

  predicate ContainsPoint(i: Interval, x: real) {
    if i.Wraps() then
      var (a, b) := Unwrap(i);
      (!Before(a, x) && !After(a, x)) || (!Before(b, x) && !After(b, x))
    else !Before(i, x) && !After(i, x)
  }

  lemma ContainsPointIsMembership(i: Interval, x: real)
    requires i.Valid()
    ensures ContainsPoint(i, x) <==> In(i, x)
  {
  }

  predicate OverlapStraight(a: Interval, b: Interval) {
    if a.Start().None? && b.Start().None? then true
    else EndReachesStart(a.End(), b.Start()) && EndReachesStart(b.End(), a.Start())
  }

  predicate Overlaps(a: Interval, b: Interval) {
    if a.Wraps() && b.Wraps() then true
    else if a.Wraps() then
      var (u, v) := Unwrap(a);
      OverlapStraight(b, u) || OverlapStraight(b, v)
    else if b.Wraps() then
      var (u, v) := Unwrap(b);
      OverlapStraight(a, u) || OverlapStraight(a, v)
    else OverlapStraight(a, b)
  }

  lemma StraightOverlap(a: Interval, b: Interval) returns (x: real)
    requires a.Valid() && b.Valid() && !a.Wraps() && !b.Wraps()
    ensures OverlapStraight(a, b) ==> In(a, x) && In(b, x)
    ensures !OverlapStraight(a, b) ==> forall y :: !(In(a, y) && In(b, y))
  {
    Straight(a);
    Straight(b);
    var low := if CutLess(Low(a), Low(b)) then Low(b) else Low(a);
    var high := if CutLess(High(a), High(b)) then High(a) else High(b);
    BoundsAreCuts(a.End(), b.Start());
    BoundsAreCuts(b.End(), a.Start());
    if CutLess(low, high) {
      x := PointBetween(low, high);
      assert Under(Low(a), x) && Under(Low(b), x) && !Under(High(a), x) && !Under(High(b), x);
    } else {
      x := 0.0;
      assert !OverlapStraight(a, b);
      forall y ensures !(In(a, y) && In(b, y)) {
        if Under(low, y) {
          UnderMonotone(high, low, y);
        }
      }
    }
  }

  /** Intervals overlap when they have a point in common, wrapping or not. */
  lemma OverlapsMeans(a: Interval, b: Interval)
    requires a.Valid() && b.Valid()
    ensures Overlaps(a, b) <==> exists x :: In(a, x) && In(b, x)
  {
    if a.Wraps() && b.Wraps() {
      var x := PointAbove(Low(a), Low(b));
      assert In(a, x) && In(b, x);
    } else if a.Wraps() {
      WrappedOverlap(b, a);
    } else if b.Wraps() {
      WrappedOverlap(a, b);
    } else {
      var x := StraightOverlap(a, b);
    }
  }

  lemma PointAbove(a: Cut, b: Cut) returns (x: real)
    requires !a.Top? && !b.Top?
    ensures Under(a, x) && Under(b, x)
  {
    x := PointBetween(if CutLess(a, b) then b else a, Top);
  }

  lemma WrappedOverlap(a: Interval, b: Interval)
    requires a.Valid() && b.Valid() && !a.Wraps() && b.Wraps()
    ensures var (u, v) := Unwrap(b);
      OverlapStraight(a, u) || OverlapStraight(a, v) <==> exists x :: In(a, x) && In(b, x)
  {
    var (u, v) := Unwrap(b);
    assert forall x :: In(b, x) <==> In(u, x) || In(v, x);
    var x := StraightOverlap(a, u);
    var y := StraightOverlap(a, v);
  }

  /** `contains` of an interval. */
  predicate ContainsInterval(a: Interval, b: Interval) {
    if a.Wraps() && b.Wraps() then
      && Requires(Compare(a.Start().value.value, b.Start().value.value), Less,
                  a.Start().value.inclusive || !b.Start().value.inclusive)
      && Requires(Compare(a.End().value.value, b.End().value.value), Greater,
                  a.End().value.inclusive || !b.End().value.inclusive)
    else if !a.Wraps() && !b.Wraps() then StartAtMost(a.Start(), b.Start()) && EndAtLeast(a.End(), b.End())
    else if b.Wraps() then a.Start().None? && a.End().None?
    else
      || (b.Start().Some? && Requires(Compare(a.Start().value.value, b.Start().value.value), Less,
                                      a.Start().value.inclusive || !b.Start().value.inclusive))
      || (b.End().Some? && Requires(Compare(a.End().value.value, b.End().value.value), Greater,
                                    a.End().value.inclusive || !b.End().value.inclusive))
  }

  ghost predicate Subset(b: Interval, a: Interval) {
    forall x :: In(b, x) ==> In(a, x)
  }

  /** The test in terms of cuts. */
  lemma ContainsIntervalCuts(a: Interval, b: Interval)
    requires a.Valid() && b.Valid()
    ensures ContainsInterval(a, b) <==>
      if a.Wraps() && !b.Wraps() then CutAtMost(Low(a), Low(b)) || CutAtMost(High(b), High(a))
      else if b.Wraps() && !a.Wraps() then Low(a).Bottom? && High(a).Top?
      else CutAtMost(Low(a), Low(b)) && CutAtMost(High(b), High(a))
  {
    BoundsAreCuts(a.Start(), b.Start());
    BoundsAreCuts(a.End(), b.End());
  }

  lemma ContainsIntervalSound(a: Interval, b: Interval)
    requires a.Valid() && b.Valid() && ContainsInterval(a, b)
    ensures Subset(b, a)
  {
    hide ContainsInterval;
    ContainsIntervalCuts(a, b);
    forall x | In(b, x) ensures In(a, x) {
    }
  }

  function MaxCut(a: Cut, b: Cut): (c: Cut)
    ensures CutAtMost(a, c) && CutAtMost(b, c) && (c == a || c == b)
  {
    if CutLess(a, b) then b else a
  }

  function MinCut(a: Cut, b: Cut): (c: Cut)
    ensures CutAtMost(c, a) && CutAtMost(c, b) && (c == a || c == b)
  {
    if CutLess(a, b) then a else b
  }

  /** What the test turns down has a point outside, unless the outer interval goes all the way around. */
  lemma ContainsIntervalComplete(a: Interval, b: Interval)
    requires a.Valid() && b.Valid() && !ContainsInterval(a, b) && !FullCircle(a)
    ensures exists x :: In(b, x) && !In(a, x)
  {
    hide ContainsInterval;
    ContainsIntervalCuts(a, b);
    var x;
    if a.Wraps() && !b.Wraps() {
      Straight(b);
      x := PointBetween(MaxCut(High(a), Low(b)), MinCut(Low(a), High(b)));
    } else if !a.Wraps() && !b.Wraps() {
      Straight(a);
      Straight(b);
      if CutLess(Low(b), Low(a)) {
        x := PointBetween(Low(b), MinCut(Low(a), High(b)));
      } else {
        x := PointBetween(MaxCut(Low(b), High(a)), High(b));
      }
    } else if !a.Wraps() && !Low(a).Bottom? {
      x := PointBetween(Bottom, MinCut(Low(a), High(b)));
    } else if !a.Wraps() {
      x := PointAbove(High(a), Low(b));
    } else if CutLess(Low(b), Low(a)) {
      x := PointBetween(MaxCut(High(a), Low(b)), Low(a));
    } else {
      x := PointBetween(High(a), MinCut(Low(a), High(b)));
    }
    assert In(b, x) && !In(a, x);
  }

  /** Whether a cut falls inside an interval. */
  predicate Straddles(i: Interval, c: Cut) {
    if i.Wraps() then CutLess(Low(i), c) || CutLess(c, High(i)) else CutLess(Low(i), c) && CutLess(c, High(i))
  }

  /** `contains` answers whether one interval is a subset of the other, except where the outer one goes all
      the way around and the inner one passes the place where it starts. */
  lemma ContainsIntervalExact(a: Interval, b: Interval)
    requires a.Valid() && b.Valid()
    ensures (ContainsInterval(a, b) <==> Subset(b, a)) <==> !(FullCircle(a) && Straddles(b, Low(a)))
  {
    ContainsIntervalCuts(a, b);
    if FullCircle(a) {
      assert Subset(b, a);
    } else if ContainsInterval(a, b) {
      ContainsIntervalSound(a, b);
    } else {
      ContainsIntervalComplete(a, b);
    }
  }

  /** For instance [5, 5) holds every value, and is said not to contain [3, 7]. */
  lemma MissedSubset()
    ensures var a := Make(Some(Bound(5.0, true)), Some(Bound(5.0, false)));
      var b := Make(Some(Bound(3.0, true)), Some(Bound(7.0, true)));
      Subset(b, a) && !ContainsInterval(a, b)
  {
  }

  // ---------------------------------------------------------------- intersection and splitting

  /** `interval::intersection`, for intervals that do not wrap. */
  function Intersection(a: Interval, b: Interval): Option<Interval> {
    var (p, q) := if StartBelow(b.Start(), a.Start()) then (b, a) else (a, b);
    if EndReachesStart(p.End(), q.Start()) then
      Some(Make(q.Start(), if !EndAtLeast(q.End(), p.End()) then q.End() else p.End()))
    else None
  }

  /** The common points, and no interval exactly when there are none. */
  lemma IntersectionMeans(a: Interval, b: Interval)
    requires a.Valid() && b.Valid() && !a.Wraps() && !b.Wraps()
    ensures match Intersection(a, b)
      case Some(i) => i.Valid() && !i.Wraps() && forall x :: In(i, x) <==> In(a, x) && In(b, x)
      case None => forall x :: !(In(a, x) && In(b, x))
  {
    var (p, q) := if StartBelow(b.Start(), a.Start()) then (b, a) else (a, b);
    Straight(a);
    Straight(b);
    BoundsAreCuts(b.Start(), a.Start());
    BoundsAreCuts(p.End(), q.Start());
    BoundsAreCuts(q.End(), p.End());
    forall x ensures In(p, x) && In(q, x) <==> In(a, x) && In(b, x) {
    }
    match Intersection(a, b)
    case Some(i) =>
      assert CutLess(Low(i), High(i));
      forall x ensures In(i, x) <==> In(p, x) && In(q, x) {
      }
    case None =>
      forall x ensures !(In(p, x) && In(q, x)) {
      }
  }

  /** `interval::split_after`. */
  function SplitAfter(i: Interval, x: real): Option<Interval> {
    if i.End().Some? && x >= i.End().value.value then None
    else if i.Start().Some? && x < i.Start().value.value then Some(i)
    else Some(Make(Some(Bound(x, false)), i.End()))
  }

  lemma SplitAfterMeans(i: Interval, x: real)
    requires i.Valid() && !i.Wraps()
    ensures match SplitAfter(i, x)
      case Some(r) => r.Valid() && !r.Wraps() && forall y :: In(r, y) <==> In(i, y) && x < y
      case None => forall y :: In(i, y) ==> y <= x
  {
  }

  // ---------------------------------------------------------------- subtraction

  ghost predicate InSome(s: seq<Interval>, x: real) {
    exists i :: 0 <= i < |s| && In(s[i], x)
  }

  ghost predicate AllStraight(s: seq<Interval>) {
    forall i :: 0 <= i < |s| ==> s[i].Valid() && !s[i].Wraps()
  }

  /** Intervals that come one after the other without overlapping. */
  ghost predicate Ordered(s: seq<Interval>) {
    forall i, j :: 0 <= i < j < |s| ==> CutAtMost(High(s[i]), Low(s[j]))
  }

  /** How many of the intervals overlap `r`. */
  function Hits(s: seq<Interval>, r: Interval): nat {
    if s == [] then 0
    else (if CutLess(Low(r), High(s[0])) && CutLess(Low(s[0]), High(r)) then 1 else 0) + Hits(s[1..], r)
  }

  lemma InSomeConcat(s: seq<Interval>, t: seq<Interval>, x: real)
    ensures InSome(s + t, x) <==> InSome(s, x) || InSome(t, x)
  {
    if InSome(s, x) {
      var i :| 0 <= i < |s| && In(s[i], x);
      assert In((s + t)[i], x);
    } else if InSome(t, x) {
      var i :| 0 <= i < |t| && In(t[i], x);
      assert In((s + t)[|s| + i], x);
    }
  }

  lemma InSomeHead(s: seq<Interval>, x: real)
    requires s != []
    ensures InSome(s, x) <==> In(s[0], x) || InSome(s[1..], x)
  {
    InSomeConcat([s[0]], s[1..], x);
    assert s == [s[0]] + s[1..];
    if In(s[0], x) {
      assert In([s[0]][0], x);
    }
  }

  lemma OrderedParts(s: seq<Interval>, t: seq<Interval>)
    ensures Ordered(s + t) <==>
      Ordered(s) && Ordered(t) && forall i, j :: 0 <= i < |s| && 0 <= j < |t| ==> CutAtMost(High(s[i]), Low(t[j]))
  {
    if Ordered(s + t) {
      forall i, j | 0 <= i < j < |s| ensures CutAtMost(High(s[i]), Low(s[j])) {
        assert (s + t)[i] == s[i] && (s + t)[j] == s[j];
      }
      forall i, j | 0 <= i < j < |t| ensures CutAtMost(High(t[i]), Low(t[j])) {
        assert (s + t)[|s| + i] == t[i] && (s + t)[|s| + j] == t[j];
      }
      forall i, j | 0 <= i < |s| && 0 <= j < |t| ensures CutAtMost(High(s[i]), Low(t[j])) {
        assert (s + t)[i] == s[i] && (s + t)[|s| + j] == t[j];
      }
    }
  }

  lemma Ascend(a: Cut, b: Cut, c: Cut)
    requires CutAtMost(a, b) && CutAtMost(b, c)
    ensures CutAtMost(a, c)
  {
  }

  /** A wrapping interval as the two it unwraps to. */
  function Parts(i: Interval): (s: seq<Interval>)
    requires i.Valid()
    ensures AllStraight(s) && Ordered(s)
  {
    if i.Wraps() then
      var (u, v) := Unwrap(i);
      [u, v]
    else [i]
  }

  lemma PartsMean(i: Interval, x: real)
    requires i.Valid()
    ensures InSome(Parts(i), x) <==> In(i, x)
  {
    var s := Parts(i);
    InSomeHead(s, x);
    if i.Wraps() {
      InSomeHead(s[1..], x);
      assert s[1..] == [Unwrap(i).1];
    }
  }

  /** What is left of `r1` on either side of `r2`. */
  function Pieces(r1: Interval, r2: Interval): seq<Interval> {
    (if StartAtMost(r2.Start(), r1.Start()) then []
     else [Make(r1.Start(), Some(Bound(r2.Start().value.value, !r2.Start().value.inclusive)))]) +
    (if EndAtLeast(r2.End(), r1.End()) then []
     else [Make(Some(Bound(r2.End().value.value, !r2.End().value.inclusive)), r1.End())])
  }

  lemma NotWrapping(start: Option<Bound>, end: Option<Bound>)
    requires CutLess(Lower(start), Upper(end))
    ensures !Make(start, end).Wraps()
  {
  }

  /** The pieces in terms of cuts. */
  lemma PiecesAre(r1: Interval, r2: Interval)
    requires r1.Valid() && r2.Valid() && !r1.Wraps() && !r2.Wraps()
    requires CutLess(Low(r1), High(r2)) && CutLess(Low(r2), High(r1))
    ensures var p := Pieces(r1, r2);
      && AllStraight(p) && Ordered(p)
      && (forall i :: 0 <= i < |p| ==> CutAtMost(Low(r1), Low(p[i])) && CutAtMost(High(p[i]), High(r1)))
      && (forall i :: 0 <= i < |p| ==> High(p[i]) == Low(r2) || Low(p[i]) == High(r2))
  {
    Straight(r1);
    Straight(r2);
    BoundsAreCuts(r2.Start(), r1.Start());
    BoundsAreCuts(r2.End(), r1.End());
    if !StartAtMost(r2.Start(), r1.Start()) {
      NotWrapping(r1.Start(), Some(Bound(r2.Start().value.value, !r2.Start().value.inclusive)));
    }
    if !EndAtLeast(r2.End(), r1.End()) {
      NotWrapping(Some(Bound(r2.End().value.value, !r2.End().value.inclusive)), r1.End());
    }
  }

  lemma PiecesMean(r1: Interval, r2: Interval, x: real)
    requires r1.Valid() && r2.Valid() && !r1.Wraps() && !r2.Wraps()
    requires CutLess(Low(r1), High(r2)) && CutLess(Low(r2), High(r1))
    ensures InSome(Pieces(r1, r2), x) <==> In(r1, x) && !In(r2, x)
  {
    var p := Pieces(r1, r2);
    PiecesAre(r1, r2);
    Straight(r1);
    Straight(r2);
    BoundsAreCuts(r2.Start(), r1.Start());
    BoundsAreCuts(r2.End(), r1.End());
    if p != [] {
      InSomeHead(p, x);
      if |p| == 2 {
        InSomeHead(p[1..], x);
      }
    }
  }

  /** The points that are in the result or will be. */
  ghost predicate Remaining(result: seq<Interval>, left: seq<Interval>, right: seq<Interval>, x: real) {
    InSome(result, x) || (InSome(left, x) && !InSome(right, x))
  }

  lemma DropRight(result: seq<Interval>, left: seq<Interval>, right: seq<Interval>, x: real)
    requires AllStraight(left) && AllStraight(right) && Ordered(left) && left != [] && right != []
    requires CutAtMost(High(right[0]), Low(left[0]))
    ensures Remaining(result, left, right[1..], x) <==> Remaining(result, left, right, x)
  {
    InSomeHead(right, x);
    if InSome(left, x) {
      var i :| 0 <= i < |left| && In(left[i], x);
      Straight(left[0]);
      assert CutAtMost(Low(left[0]), Low(left[i]));
      assert Under(High(right[0]), x);
    }
  }

  lemma KeepLeft(result: seq<Interval>, left: seq<Interval>, right: seq<Interval>, x: real)
    requires AllStraight(left) && AllStraight(right) && Ordered(right) && left != [] && right != []
    requires CutAtMost(High(left[0]), Low(right[0]))
    ensures Remaining(result + [left[0]], left[1..], right, x) <==> Remaining(result, left, right, x)
  {
    InSomeHead(left, x);
    InSomeConcat(result, [left[0]], x);
    InSomeHead([left[0]], x);
    if InSome(right, x) {
      var i :| 0 <= i < |right| && In(right[i], x);
      Straight(right[0]);
      assert CutAtMost(Low(right[0]), Low(right[i]));
      assert Under(High(left[0]), x);
    }
  }

  lemma CutLeft(result: seq<Interval>, left: seq<Interval>, right: seq<Interval>, x: real)
    requires AllStraight(left) && AllStraight(right) && left != [] && right != []
    requires CutLess(Low(left[0]), High(right[0])) && CutLess(Low(right[0]), High(left[0]))
    ensures Remaining(result, Pieces(left[0], right[0]) + left[1..], right, x) <==> Remaining(result, left, right, x)
  {
    hide In;
    InSomeHead(left, x);
    InSomeHead(right, x);
    PiecesMean(left[0], right[0], x);
    InSomeConcat(Pieces(left[0], right[0]), left[1..], x);
  }

  lemma OrderedPieces(result: seq<Interval>, left: seq<Interval>, p: seq<Interval>)
    requires left != [] && Ordered(result + left) && Ordered(p)
    requires forall i :: 0 <= i < |p| ==> CutAtMost(Low(left[0]), Low(p[i])) && CutAtMost(High(p[i]), High(left[0]))
    ensures Ordered(result + (p + left[1..]))
  {
    OrderedParts(result, left);
    assert left == [left[0]] + left[1..];
    OrderedParts([left[0]], left[1..]);
    forall i, j | 0 <= i < |p| && 0 <= j < |left[1..]| ensures CutAtMost(High(p[i]), Low(left[1..][j])) {
      assert CutAtMost(High([left[0]][0]), Low(left[1..][j]));
      Ascend(High(p[i]), High(left[0]), Low(left[1..][j]));
    }
    OrderedParts(p, left[1..]);
    forall i, j | 0 <= i < |result| && 0 <= j < |p + left[1..]| ensures CutAtMost(High(result[i]), Low((p + left[1..])[j])) {
      if j < |p| {
        assert CutAtMost(High(result[i]), Low(left[0]));
        Ascend(High(result[i]), Low(left[0]), Low(p[j]));
      } else {
        assert (p + left[1..])[j] == left[j - |p| + 1];
      }
    }
    OrderedParts(result, p + left[1..]);
  }

  lemma {:induction false} HitsPieces(p: seq<Interval>, rest: seq<Interval>, r: Interval)
    requires forall i :: 0 <= i < |p| ==> High(p[i]) == Low(r) || Low(p[i]) == High(r)
    ensures Hits(p + rest, r) == Hits(rest, r)
  {
    if p == [] {
      assert p + rest == rest;
    } else {
      HitsPieces(p[1..], rest, r);
      assert (p + rest)[1..] == p[1..] + rest;
    }
  }

  /** `subtract`. The loop consumes `right`; what overlaps its first element is cut into at most two pieces
      that do not, so the number of hits goes down when the length of `left` does not. */
  method Subtract(a: Interval, b: Interval) returns (result: seq<Interval>)
    requires a.Valid() && b.Valid()
    ensures AllStraight(result) && Ordered(result)
    ensures forall x :: InSome(result, x) <==> In(a, x) && !In(b, x)
  {
    hide InSome, Ordered, In, CutLess, Pieces, Parts, EndReachesStart;
    result := [];
    var left := Parts(a);
    var right := Parts(b);
    assert result + left == left;
    forall x ensures Remaining(result, left, right, x) <==> In(a, x) && !In(b, x) {
      Nowhere(x);
      PartsMean(a, x);
      PartsMean(b, x);
    }
    while left != [] && right != []
      invariant AllStraight(left) && AllStraight(right) && AllStraight(result)
      invariant Ordered(result + left) && Ordered(right)
      invariant forall x :: Remaining(result, left, right, x) <==> In(a, x) && !In(b, x)
      decreases |right|, if right == [] then 0 else Hits(left, right[0]), |left|
    {
      result, left, right := SubtractStep(result, left, right);
    }
    forall x ensures InSome(result + left, x) <==> In(a, x) && !In(b, x) {
      InSomeConcat(result, left, x);
      Nowhere(x);
      assert Remaining(result, left, right, x) <==> In(a, x) && !In(b, x);
    }
    result := result + left;
  }

  lemma Nowhere(x: real)
    ensures !InSome([], x)
  {
  }

  method SubtractStep(result: seq<Interval>, left: seq<Interval>, right: seq<Interval>)
    returns (done: seq<Interval>, l: seq<Interval>, r: seq<Interval>)
    requires left != [] && right != []
    requires AllStraight(left) && AllStraight(right) && AllStraight(result)
    requires Ordered(result + left) && Ordered(right)
    ensures AllStraight(l) && AllStraight(r) && AllStraight(done)
    ensures Ordered(done + l) && Ordered(r)
    ensures forall x :: Remaining(done, l, r, x) <==> Remaining(result, left, right, x)
    ensures |r| < |right| ||
      (r == right && (Hits(l, r[0]) < Hits(left, r[0]) || (Hits(l, r[0]) == Hits(left, r[0]) && |l| < |left|)))
  {
    hide InSome, Ordered, In, Remaining, Pieces, CutLess, EndReachesStart;
    var r1, r2 := left[0], right[0];
    done, l, r := result, left, right;
    BoundsAreCuts(r2.End(), r1.Start());
    BoundsAreCuts(r1.End(), r2.Start());
    OrderedParts(result, left);
    if !EndReachesStart(r2.End(), r1.Start()) {
      forall x ensures Remaining(result, left, right[1..], x) <==> Remaining(result, left, right, x) {
        DropRight(result, left, right, x);
      }
      assert right == [r2] + right[1..];
      OrderedParts([r2], right[1..]);
      r := right[1..];
    } else if !EndReachesStart(r1.End(), r2.Start()) {
      forall x ensures Remaining(result + [r1], left[1..], right, x) <==> Remaining(result, left, right, x) {
        KeepLeft(result, left, right, x);
      }
      assert result + left == result + [r1] + left[1..];
      done := result + [r1];
      l := left[1..];
    } else {
      PiecesAre(r1, r2);
      var pieces := Pieces(r1, r2);
      forall x ensures Remaining(result, pieces + left[1..], right, x) <==> Remaining(result, left, right, x) {
        CutLeft(result, left, right, x);
      }
      OrderedPieces(result, left, pieces);
      HitsPieces(pieces, left[1..], r2);
      l := pieces + left[1..];
    }
  }

  // ---------------------------------------------------------------- removing overlaps

  ghost predicate SortedByStart(s: seq<Interval>) {
    forall i, j :: 0 <= i < j < |s| ==> !StartBelow(s[j].Start(), s[i].Start())
  }

  function InsertByStart(s: seq<Interval>, r: Interval): seq<Interval> {
    if s == [] then [r]
    else if StartBelow(r.Start(), s[0].Start()) then [r] + s
    else [s[0]] + InsertByStart(s[1..], r)
  }

  lemma {:induction false} InsertKeepsSorted(s: seq<Interval>, r: Interval)
    requires SortedByStart(s)
    ensures SortedByStart(InsertByStart(s, r)) && multiset(InsertByStart(s, r)) == multiset(s) + multiset{r}
  {
    if s == [] {
    } else if StartBelow(r.Start(), s[0].Start()) {
      forall j | 0 <= j < |s| ensures !StartBelow(s[j].Start(), r.Start()) {
        BoundsAreCuts(s[j].Start(), s[0].Start());
        BoundsAreCuts(r.Start(), s[0].Start());
        BoundsAreCuts(s[j].Start(), r.Start());
      }
    } else {
      var rest := InsertByStart(s[1..], r);
      InsertKeepsSorted(s[1..], r);
      assert s == [s[0]] + s[1..];
      forall j | 0 <= j < |rest| ensures !StartBelow(rest[j].Start(), s[0].Start()) {
        assert rest[j] in multiset(rest);
        assert rest[j] in multiset(s[1..]) || rest[j] == r;
      }
    }
  }

  /** Any sort by the start bound will do. */
  method SortByStart(a: seq<Interval>) returns (s: seq<Interval>)
    ensures SortedByStart(s) && multiset(s) == multiset(a)
  {
    s := [];
    for n := 0 to |a|
      invariant SortedByStart(s) && multiset(s) == multiset(a[..n])
    {
      assert a[..n + 1] == a[..n] + [a[n]];
      InsertKeepsSorted(s, a[n]);
      s := InsertByStart(s, a[n]);
    }
    assert a[..|a|] == a;
  }

  lemma SameMembers(a: seq<Interval>, b: seq<Interval>)
    requires multiset(a) == multiset(b)
    ensures AllStraight(a) ==> AllStraight(b)
    ensures forall x :: InSome(a, x) <==> InSome(b, x)
  {
    forall r ensures r in a <==> r in b {
      assert r in a <==> r in multiset(a);
      assert r in b <==> r in multiset(b);
    }
    forall x ensures InSome(a, x) <==> InSome(b, x) {
      MemberIn(a, x);
      MemberIn(b, x);
    }
    if AllStraight(a) {
      forall i | 0 <= i < |b| ensures b[i].Valid() && !b[i].Wraps() {
        assert b[i] in a;
      }
    }
  }

  lemma MemberIn(s: seq<Interval>, x: real)
    ensures InSome(s, x) <==> exists r :: r in s && In(r, x)
  {
    if r :| r in s && In(r, x) {
      var i :| 0 <= i < |s| && s[i] == r;
    }
  }

  /** The next interval against the one being grown: inside it, overlapping its end, or past it. */
  lemma GrowStep(current: Interval, r: Interval, x: real)
    requires current.Valid() && r.Valid() && !current.Wraps() && !r.Wraps()
    requires CutAtMost(Low(current), Low(r))
    ensures EndReachesStart(r.End(), current.Start())
    ensures EndAtLeast(current.End(), r.End()) && In(r, x) ==> In(current, x)
    ensures !EndAtLeast(current.End(), r.End()) && EndReachesStart(current.End(), r.Start()) ==>
      var merged := Make(current.Start(), r.End());
      !merged.Wraps() && Low(merged) == Low(current) && (In(merged, x) <==> In(current, x) || In(r, x))
    ensures !EndReachesStart(current.End(), r.Start()) ==> CutAtMost(High(current), Low(r))
  {
    Straight(current);
    Straight(r);
    BoundsAreCuts(r.End(), current.Start());
    BoundsAreCuts(current.End(), r.End());
    BoundsAreCuts(current.End(), r.Start());
    if !EndAtLeast(current.End(), r.End()) {
      NotWrapping(current.Start(), r.End());
    }
  }

  /** `deoverlap`. */
  method Deoverlap(intervals: seq<Interval>) returns (result: seq<Interval>)
    requires AllStraight(intervals)
    ensures AllStraight(result) && Ordered(result)
    ensures forall x :: InSome(result, x) <==> InSome(intervals, x)
  {
    hide In, InSome, EndReachesStart, EndAtLeast, CutLess, Ordered;
    if |intervals| <= 1 {
      OrderedFew(intervals);
      return intervals;
    }
    var sorted := SortByStart(intervals);
    SameMembers(intervals, sorted);
    SortedCuts(sorted);
    assert |sorted| == |intervals| by { assert |multiset(sorted)| == |multiset(intervals)|; }
    result := [];
    var current := sorted[0];
    OrderedFew([current]);
    assert sorted[..1] == [current] && result + [current] == [current];
    for n := 1 to |sorted|
      invariant AllStraight(result + [current]) && Ordered(result + [current])
      invariant forall m :: n <= m < |sorted| ==> CutAtMost(Low(current), Low(sorted[m]))
      invariant forall x :: InSome(result + [current], x) <==> InSome(sorted[..n], x)
    {
      var r := sorted[n];
      assert current == (result + [current])[|result|];
      ghost var before := result + [current];
      result, current := Grow(result, current, r);
      assert sorted[..n + 1] == sorted[..n] + [r];
      forall x ensures InSome(result + [current], x) <==> InSome(sorted[..n + 1], x) {
        InSomeLast(sorted[..n], r, x);
        InSomeLast(before, r, x);
      }
      forall m | n + 1 <= m < |sorted| ensures CutAtMost(Low(current), Low(sorted[m])) {
        Ascend(Low(current), Low(r), Low(sorted[m]));
      }
    }
    assert sorted[..|sorted|] == sorted;
    result := result + [current];
  }

  lemma OrderedFew(s: seq<Interval>)
    requires |s| <= 1
    ensures Ordered(s)
  {
  }

  lemma SortedCuts(s: seq<Interval>)
    requires SortedByStart(s)
    ensures forall i, j :: 0 <= i < j < |s| ==> CutAtMost(Low(s[i]), Low(s[j]))
  {
    forall i, j | 0 <= i < j < |s| ensures CutAtMost(Low(s[i]), Low(s[j])) {
      BoundsAreCuts(s[j].Start(), s[i].Start());
    }
  }

  method Grow(done: seq<Interval>, current: Interval, r: Interval) returns (result: seq<Interval>, grown: Interval)
    requires AllStraight(done + [current]) && Ordered(done + [current]) && r.Valid() && !r.Wraps()
    requires CutAtMost(Low(current), Low(r))
    ensures AllStraight(result + [grown]) && Ordered(result + [grown])
    ensures CutAtMost(Low(grown), Low(r))
    ensures forall x :: InSome(result + [grown], x) <==> InSome(done + [current] + [r], x)
  {
    hide In, InSome, EndReachesStart, EndAtLeast, Ordered;
    assert current == (done + [current])[|done|];
    result, grown := done, current;
    var includesEnd := EndReachesStart(r.End(), current.Start()) && EndAtLeast(current.End(), r.End());
    if includesEnd {
      forall x ensures InSome(done + [current], x) <==> InSome(done + [current] + [r], x) {
        GrowStep(current, r, x);
        InSomeLast(done, current, x);
        InSomeLast(done + [current], r, x);
      }
      return;
    }
    GrowStep(current, r, 0.0);
    if EndReachesStart(current.End(), r.Start()) {
      grown := Make(current.Start(), r.End());
      OrderedParts(done, [current]);
      OrderedFew([grown]);
      assert forall i :: 0 <= i < |done| ==> done[i] == (done + [current])[i];
      forall i, j | 0 <= i < |done| && 0 <= j < |[grown]| ensures CutAtMost(High(done[i]), Low([grown][j])) {
        assert CutAtMost(High(done[i]), Low([current][0]));
      }
      OrderedParts(done, [grown]);
      forall x ensures InSome(done + [grown], x) <==> InSome(done + [current] + [r], x) {
        GrowStep(current, r, x);
        InSomeLast(done, grown, x);
        InSomeLast(done, current, x);
        InSomeLast(done + [current], r, x);
      }
    } else {
      result := done + [current];
      grown := r;
      PastLast(done, current, r);
    }
  }

  lemma InSomeLast(s: seq<Interval>, r: Interval, x: real)
    ensures InSome(s + [r], x) <==> InSome(s, x) || In(r, x)
  {
    InSomeConcat(s, [r], x);
    InSomeHead([r], x);
  }

  lemma PastLast(done: seq<Interval>, current: Interval, r: Interval)
    requires AllStraight(done + [current]) && Ordered(done + [current]) && CutAtMost(High(current), Low(r))
    ensures Ordered(done + [current] + [r])
  {
    var s := done + [current];
    forall i, j | 0 <= i < j < |s + [r]| ensures CutAtMost(High((s + [r])[i]), Low((s + [r])[j])) {
      if i < |done| && j == |s| {
        Straight(s[|done|]);
        assert CutAtMost(High(s[i]), Low(s[|done|]));
        Ascend(Low(current), High(current), Low(r));
        Ascend(High(s[i]), Low(current), Low(r));
      }
    }
  }
}
