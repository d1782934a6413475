/** The forward cache reader: serves a read from the cached rows where they are continuous, from the
    underlying source elsewhere, and populates the cache on the way. */
module CacheReader {
  import opened Positions
  import opened CacheRows
  import opened CachePopulation
  import opened Streams

  /** One partition version shared by all readers of the partition.  `mark` changes whenever iterators
      into the rows may have been invalidated. */
  class Partition {
    var rows: Rows
    var mark: nat

    constructor (rows: Rows)
      ensures this.rows == rows && mark == 0
    {
      this.rows := rows;
      mark := 0;
    }
  }

  datatype State = BeforeStaticRow | ReadingFromCache | MoveToUnderlying | ReadingFromUnderlying | EndOfStream

  /** `partition_snapshot_row_cursor` over a single version: the entry's position and the attributes
      it had when the cursor was last brought up to date. */
  datatype Cursor = Cursor(pos: Pos, cont: bool, rt: Tombstone, rtForRow: Tombstone, mark: nat)

  /** `partition_snapshot_row_weakref`.  Letting go of the row keeps the last position. */
  datatype RowRef = RowRef(engaged: bool, pos: Pos, mark: nat)

  function Ref(pos: Pos, mark: nat): RowRef { RowRef(true, pos, mark) }
  function NoRef(was: RowRef): RowRef { was.(engaged := false) }

  /** What the reader can observe of the snapshot: whether it is the latest version, and whether the
      underlying source it reads is still the one the cache mirrors. */
  datatype Snapshot = Snapshot(atLatest: bool, phaseMatches: bool) {
    predicate CanPopulate() { atLatest && phaseMatches }
  }

  /** What one step of any reader, or of eviction, may do to the shared rows. */
  ghost predicate Step(u: Source, rows: Rows, mark: nat, rows': Rows, mark': nat) {
    && Wf(rows') && Agrees(u, rows')
    && mark <= mark'
    && (mark == mark' ==> Extends(rows, rows'))
  }

  lemma Idle(u: Source, rows: Rows, mark: nat)
    requires Wf(rows) && Agrees(u, rows)
    ensures Step(u, rows, mark, rows, mark)
  {
  }

  lemma StepThenStep(u: Source, rows: Rows, mark: nat, rows': Rows, mark': nat, rows'': Rows, mark'': nat)
    requires Step(u, rows, mark, rows', mark') && Step(u, rows', mark', rows'', mark'')
    ensures Step(u, rows, mark, rows'', mark'')
  {
  }

  function CursorAt(rows: Rows, i: nat, mark: nat): Cursor
    requires i < |rows|
  {
    var e := rows[i];
    Cursor(e.pos, e.cont, if e.cont then e.rt else NoTomb, e.rt, mark)
  }

  /** The cache cannot serve what follows `p`. */
  predicate Misses(rows: Rows, p: Pos)
    requires |rows| > 0 && Le(p, rows[|rows| - 1].pos)
  {
    var e := rows[LowerBound(rows, p)];
    !NoRowBetweenWeak(p, e.pos) && !e.cont
  }

  /** What a cursor just placed on an entry says of it and of the interval before it is true. */
  lemma CursorTells(u: Source, rows: Rows, i: nat, p: Pos, mark: nat)
    requires Wf(rows) && Agrees(u, rows) && i < |rows| && Le(PrevPos(rows, i), p)
    ensures var c := CursorAt(rows, i, mark);
      && Le(Bottom, c.pos) && Le(c.pos, Top) && HasPos(rows, c.pos)
      && (IsRow(c.pos) ==> u.tomb(c.pos.rank) == c.rtForRow)
      && (c.cont ==> Clear(u, p, c.pos, c.rt))
  {
    hide Agrees;
    AgreesAt(u, rows, i);
    assert HasPos(rows, rows[i].pos);
  }

  /** Whether entering a range leaves a dummy at its start: the cache cannot serve what follows it. */
  predicate MarksStart(rows: Rows, range: Range, snp: Snapshot)
    requires |rows| > 0 && Le(range.Start(), rows[|rows| - 1].pos)
  {
    Misses(rows, range.Start()) && range.HasStart() && !range.Single? && snp.CanPopulate()
  }

  /** The rows once a range has been entered. */
  function Entered(rows: Rows, range: Range, snp: Snapshot): (r: Rows)
    requires |rows| > 0 && Le(range.Start(), rows[|rows| - 1].pos)
    ensures |r| > 0
  {
    if MarksStart(rows, range, snp) then Inserted(rows, Entry(range.Start(), false, NoTomb, EmptyRow)) else rows
  }

  lemma EnteredAgrees(u: Source, rows: Rows, range: Range, snp: Snapshot, mark: nat)
    requires Wf(rows) && Agrees(u, rows) && Le(Bottom, range.Start()) && Le(range.Start(), Top) && !IsRow(range.Start())
    ensures Step(u, rows, mark, Entered(rows, range, snp), mark)
    ensures MarksStart(rows, range, snp) ==> HasPos(Entered(rows, range, snp), range.Start())
    ensures var c := CursorAt(rows, LowerBound(rows, range.Start()), mark);
      && Le(Bottom, c.pos) && Le(c.pos, Top) && Le(range.Start(), c.pos) && HasPos(Entered(rows, range, snp), c.pos)
      && (IsRow(c.pos) ==> u.tomb(c.pos.rank) == c.rtForRow)
      && (c.cont ==> Clear(u, range.Start(), c.pos, c.rt))
  {
    hide Agrees, Clear;
    CursorTells(u, rows, LowerBound(rows, range.Start()), range.Start(), mark);
    Idle(u, rows, mark);
    InsertedAgrees(u, rows, Entry(range.Start(), false, NoTomb, EmptyRow));
  }

  /** Entering a range forgets nothing, and nothing stands between its start and the cursor. */
  lemma EnteredAlone(u: Source, rows: Rows, range: Range, snp: Snapshot, mark: nat)
    requires Wf(rows) && Agrees(u, rows) && Le(Bottom, range.Start()) && Le(range.Start(), Top) && !IsRow(range.Start())
    ensures Keeps(rows, Entered(rows, range, snp))
    ensures var c := CursorAt(rows, LowerBound(rows, range.Start()), mark);
      && NothingBetween(Entered(rows, range, snp), range.Start(), c.pos) && Le(range.Start(), c.pos)
      && (c.cont ==> ContinuousAt(Entered(rows, range, snp), c.pos))
  {
    hide Agrees, KnownAt, Wf, Keeps, Learned, HasPos, Extends;
    LastIsTop(rows);
    var i, e := LowerBound(rows, range.Start()), Entry(range.Start(), false, NoTomb, EmptyRow);
    KeepsItself(rows);
    FromLookup(rows, range.Start());
    if MarksStart(rows, range, snp) {
      assert Inserted(rows, e) == Added(rows, e);
      AddedAgrees(u, rows, e);
      AddedLearns(u, rows, e);
      LearnedKeeps(u, rows, Added(rows, e), range.Start(), range.Start());
      AddedOnTheWay(rows, e, range.Start(), rows[i].pos);
    }
  }

  /** Only the first range can start before all rows. */
  lemma OnlyFirstAtBottom(ranges: seq<Range>, i: nat)
    requires RangesOk(ranges) && i < |ranges| && ranges[i].Start() == Bottom
    ensures i == 0
  {
    assert i > 0 ==> Le(ranges[0].End(), ranges[i].Start());
    assert Lt(ranges[0].Start(), ranges[0].End());
  }

  lemma EnteredKeeps(rows: Rows, range: Range, snp: Snapshot)
    requires |rows| > 0 && Le(range.Start(), rows[|rows| - 1].pos)
    ensures forall e :: e in rows ==> e in Entered(rows, range, snp)
  {
  }

  /** How far a reader is from its end, the most significant part first: ranges left, whether the cursor is out of date,
      entries ahead of it, how far it is from reading the cache again, and fragments still to be taken over. */
  datatype Distance = Distance(ranges: nat, stale: nat, entries: nat, phase: nat, unread: nat)

  predicate Nearer(a: Distance, b: Distance) {
    a.ranges < b.ranges || (a.ranges == b.ranges && (
      a.stale < b.stale || (a.stale == b.stale && (
        a.entries < b.entries || (a.entries == b.entries && (
          a.phase < b.phase || (a.phase == b.phase && a.unread < b.unread)))))))
  }

  lemma NearerTransitive(a: Distance, b: Distance, c: Distance)
    requires Nearer(a, b) && Nearer(b, c)
    ensures Nearer(a, c)
  {
  }

  class Reader {
    const partition: Partition
    const ranges: seq<Range>
    ghost const u: Source

    var state: State
    var curr: nat
    var lower: Pos
    var upper: Pos
    var underlyingUpper: Pos
    var lastRow: RowRef
    var next: Cursor
    var nextInRange: bool
    var current: Tombstone
    var hasRt: bool
    var populatesFromStart: bool
    var unread: Stream
    var out: Stream

    // ------------------------------------------------------------------ invariants

    /** How many entries the cursor has in front of it, its own included. */
    function EntriesAhead(): nat
      requires Wf(partition.rows) && Le(next.pos, Top)
      reads `next, partition`rows
    {
      Ahead(partition.rows, next.pos)
    }

    /** The end of what can be served before the next cached entry. */
    function Horizon(): Pos
      reads `nextInRange, `next, `upper
    {
      if nextInRange then BeforeKey(next.pos) else upper
    }

    /** The shared rows are well formed and say nothing that the source does not. */
    ghost predicate Base()
      reads `next, partition
    {
      && Wf(partition.rows) && Agrees(u, partition.rows) && RangesOk(ranges)
      && next.mark <= partition.mark
    }

    ghost predicate CursorOk()
      reads `next, partition
    {
      && Le(next.pos, Top) && Le(Bottom, next.pos)
      && (next.mark == partition.mark ==> HasPos(partition.rows, next.pos))
      && (IsRow(next.pos) ==> u.tomb(next.pos.rank) == next.rtForRow)
    }

    ghost predicate LastRowOk()
      reads `lastRow, `lower, `next, `upper, partition
    {
      lastRow.engaged ==>
        && Le(Bottom, lastRow.pos) && Le(lastRow.pos, lower) && Lt(lastRow.pos, next.pos) && Lt(lastRow.pos, upper)
        && lastRow.mark <= partition.mark
        && (lastRow.mark == partition.mark ==> HasPos(partition.rows, lastRow.pos))
    }

    /** Everything requested below `lower` has been emitted, nothing above it. */
    ghost predicate Progress()
      reads `curr, `upper, `lower, `out, `current
    {
      && curr < |ranges| && upper == ranges[curr].End()
      && Le(ranges[curr].Start(), lower) && Le(lower, upper) && !IsRow(lower)
      && Emitted(u, ranges, out, lower, current)
    }

    ghost predicate CursorInRange()
      reads `nextInRange, `next, `upper, `lower
    {
      && nextInRange == Lt(next.pos, upper)
      && Le(lower, Horizon())
    }

    /** The stretch up to the next entry is known to be clear. */
    ghost predicate CacheClaim()
      reads `nextInRange, `next, `upper, `lower
    {
      lower == Horizon() || (next.cont && Clear(u, lower, Horizon(), next.rt))
    }

    /** From where on the interval read so far may be marked continuous. */
    ghost function PopulationStart(): Pos
      reads `lastRow, `populatesFromStart, `lower
    {
      if lastRow.engaged then lastRow.pos else if populatesFromStart then Bottom else lower
    }

    ghost predicate UnderlyingOk()
      reads `underlyingUpper, `nextInRange, `next, `upper, `lastRow, `populatesFromStart, `lower, `unread, `current
    {
      && underlyingUpper == Horizon()
      && (populatesFromStart ==> !lastRow.engaged) && Le(PopulationStart(), lower)
      && Ordered(unread) && Between(unread, lower, underlyingUpper)
      && Delivers(u, unread, current, PopulationStart(), underlyingUpper)
    }

    ghost predicate Valid()
      reads this, partition
    {
      && Base()
      && match state
         case BeforeStaticRow => out == [] && current == NoTomb && !hasRt
         case EndOfStream => Emitted(u, ranges, out, Top, NoTomb)
         case ReadingFromCache => CursorOk() && Progress() && CursorInRange() && CacheClaim()
         case MoveToUnderlying =>
           && CursorOk() && Progress() && CursorInRange() && LastRowOk()
           && (lastRow.engaged ==> AfterKey(lastRow.pos) == lower)
         case ReadingFromUnderlying =>
           && CursorOk() && Progress() && CursorInRange() && LastRowOk() && UnderlyingOk()
    }

    // What a reader with the partition to itself that populates on every turn keeps besides.

    /** Nothing stands between `from` and the next entry, and everything up to `from` is known. */
    ghost predicate AloneFrom(from: Pos)
      reads `next, `lastRow, partition
    {
      && next.mark == partition.mark && (lastRow.engaged ==> lastRow.mark == partition.mark) && !next.cont
      && NothingBetween(partition.rows, from, next.pos) && Remembered(ranges, partition.rows, AfterKey(from))
    }

    ghost predicate AloneInCache()
      reads `next, `lower, partition
    {
      && next.mark == partition.mark && (next.cont ==> ContinuousAt(partition.rows, next.pos))
      && NothingBetween(partition.rows, lower, next.pos) && Remembered(ranges, partition.rows, lower)
    }

    ghost predicate AloneAtMiss()
      reads `next, `lastRow, `lower, `curr, partition
    {
      && AloneFrom(if lastRow.engaged then lastRow.pos else lower) && (lastRow.engaged ==> AfterKey(lastRow.pos) == lower)
      && (curr < |ranges| && ranges[curr].Span? ==> lastRow.engaged || lower == Bottom)
      && (!lastRow.engaged && lower == Bottom ==> lastRow.pos == Bottom != next.pos)
    }

    ghost predicate AlonePopulating()
      reads `next, `lastRow, `lower, `curr, `populatesFromStart, partition
    {
      && AloneFrom(PopulationStart())
      && (curr < |ranges| && ranges[curr].Span? ==> CanExtend())
      && (curr < |ranges| ==> Le(ranges[curr].Start(), AfterKey(PopulationStart())))
      && (populatesFromStart ==> lastRow.pos == Bottom != next.pos)
    }

    ghost predicate Alone()
      reads this, partition
    {
      match state
      case BeforeStaticRow => !lastRow.engaged && lastRow.pos == Bottom
      case ReadingFromCache => AloneInCache()
      case MoveToUnderlying => AloneAtMiss()
      case ReadingFromUnderlying => AlonePopulating()
      case EndOfStream => Remembered(ranges, partition.rows, Top)
    }

    ghost function ToGo(): Distance
      requires Valid()
      reads this, partition
    {
      match state
      case BeforeStaticRow => Distance(|ranges| + 1, 0, 0, 0, 0)
      case EndOfStream => Distance(0, 0, 0, 0, 0)
      case _ =>
        var stale := if next.mark == partition.mark then 0 else 1;
        var phase := if state == MoveToUnderlying then 2 else if state == ReadingFromUnderlying then 1 else 0;
        Distance(|ranges| - curr, stale, EntriesAhead(), phase, if state == ReadingFromUnderlying then |unread| else 0)
    }

    constructor (partition: Partition, ranges: seq<Range>, ghost u: Source)
      requires Wf(partition.rows) && Agrees(u, partition.rows) && RangesOk(ranges)
      ensures Valid() && Alone() && state == BeforeStaticRow
      ensures this.partition == partition && this.ranges == ranges && this.u == u
    {
      this.partition := partition;
      this.ranges := ranges;
      this.u := u;
      state := BeforeStaticRow;
      curr := 0;
      lower, upper, underlyingUpper := Bottom, Bottom, Bottom;
      lastRow := RowRef(false, Bottom, 0);
      next := Cursor(Bottom, false, NoTomb, NoTomb, 0);
      nextInRange, hasRt, populatesFromStart := false, false, false;
      current := NoTomb;
      unread := [];
      out := [];
    }

    /** `partition_snapshot_row_cursor::advance_to`. */
    method AdvanceTo(p: Pos) returns (adjacent: bool)
      requires Wf(partition.rows) && Le(Bottom, p) && Le(p, Top)
      modifies this`next
      ensures next == CursorAt(partition.rows, LowerBound(partition.rows, p), partition.mark)
      ensures Le(p, next.pos) && adjacent == NoRowBetweenWeak(p, next.pos)
      ensures Agrees(u, partition.rows) ==> CursorOk() && (next.cont ==> Clear(u, BeforeKey(p), next.pos, next.rt))
    {
      hide Agrees, Clear;
      var i := LowerBound(partition.rows, p);
      next := CursorAt(partition.rows, i, partition.mark);
      if Agrees(u, partition.rows) {
        CursorTells(u, partition.rows, i, BeforeKey(p), partition.mark);
      }
      adjacent := NoRowBetweenWeak(p, next.pos);
    }

    /** Where `move_to_range` takes the reader, from the rows it found. */
    ghost predicate AtRange(i: nat, rows: Rows, snp: Snapshot)
      requires Wf(rows) && RangesOk(ranges) && i < |ranges|
      reads this, partition
    {
      RangeBounds(ranges, i);
      && curr == i && lower == ranges[i].Start() && upper == ranges[i].End() && nextInRange == Lt(next.pos, upper)
      && next == CursorAt(rows, LowerBound(rows, lower), partition.mark)
      && state == (if Misses(rows, lower) then MoveToUnderlying else ReadingFromCache)
      && partition.rows == Entered(rows, ranges[i], snp)
      && (if MarksStart(rows, ranges[i], snp) then lastRow == Ref(lower, partition.mark) else !lastRow.engaged)
    }

    method EnterRange(i: nat, snp: Snapshot)
      requires Wf(partition.rows) && RangesOk(ranges) && i < |ranges| && state == ReadingFromCache
      modifies this`state, this`curr, this`lower, this`upper, this`lastRow, this`next, this`nextInRange, partition`rows
      ensures AtRange(i, old(partition.rows), snp) && (!lastRow.engaged ==> lastRow.pos == old(lastRow.pos))
    {
      hide Wf, RangesOk, Lt, Le, NoRowBetweenWeak, Inserted, LowerBound, Agrees, CursorOk, Clear;
      RangeBounds(ranges, i);
      LastIsTop(partition.rows);
      lastRow := NoRef(lastRow);
      lower := ranges[i].Start();
      upper := ranges[i].End();
      curr := i;
      var adjacent := AdvanceTo(lower);
      nextInRange := Lt(next.pos, upper);
      if !adjacent && !next.cont {
        if ranges[i].HasStart() && !ranges[i].Single? && snp.CanPopulate() {
          partition.rows := Inserted(partition.rows, Entry(lower, false, NoTomb, EmptyRow));
          lastRow := Ref(lower, partition.mark);
        }
        state := MoveToUnderlying;
      }
    }

    /** Entering a range with everything before it emitted. */
    lemma RangeEntered(i: nat, rows: Rows, snp: Snapshot)
      requires Wf(rows) && Agrees(u, rows) && RangesOk(ranges) && i < |ranges| && AtRange(i, rows, snp)
      requires current == NoTomb && Emitted(u, ranges, out, ranges[i].Start(), NoTomb)
      ensures Valid() && Step(u, rows, partition.mark, partition.rows, partition.mark)
    {
      hide Agrees, Wf, Emitted, RangesOk, Clear, HasPos, Extends, LowerBound, Entered, Inserted, NoRowBetweenWeak, Lt, Le, BeforeKey;
      RangeBounds(ranges, i);
      EnteredAgrees(u, rows, ranges[i], snp, partition.mark);
      HorizonBounds(lower, next.pos, upper);
      if state == ReadingFromCache && next.cont {
        ClearWithin(u, lower, next.pos, lower, Horizon(), next.rt);
      }
    }

    lemma RangeEnteredAlone(i: nat, rows: Rows, snp: Snapshot)
      requires Wf(rows) && Agrees(u, rows) && RangesOk(ranges) && i < |ranges| && AtRange(i, rows, snp) && snp.CanPopulate()
      requires Remembered(ranges, rows, ranges[i].Start()) && (i == 0 && !lastRow.engaged ==> lastRow.pos == Bottom)
      ensures Alone() && Keeps(rows, partition.rows)
    {
      hide Agrees, Wf, RangesOk, LowerBound, Entered, NoRowBetweenWeak, Lt, Le, Remembered, NothingBetween, Keeps;
      RangeBounds(ranges, i);
      LastIsTop(rows);
      EnteredAlone(u, rows, ranges[i], snp, partition.mark);
      RememberedKept(ranges, rows, partition.rows, lower);
      HorizonBounds(lower, next.pos, upper);
      if lower == Bottom {
        OnlyFirstAtBottom(ranges, i);
      }
    }

    /** `move_to_range`. */
    method MoveToRange(i: nat, snp: Snapshot)
      requires Wf(partition.rows) && RangesOk(ranges) && i < |ranges| && state == ReadingFromCache
      modifies this`state, this`curr, this`lower, this`upper, this`lastRow, this`next, this`nextInRange, partition`rows
      ensures AtRange(i, old(partition.rows), snp)
      ensures Agrees(u, old(partition.rows)) && current == NoTomb && Emitted(u, ranges, out, ranges[i].Start(), NoTomb) ==>
        Valid() && Step(u, old(partition.rows), partition.mark, partition.rows, partition.mark)
      ensures snp.CanPopulate() && Agrees(u, old(partition.rows)) && (i == 0 ==> old(lastRow.pos) == Bottom) ==>
        Remembered(ranges, old(partition.rows), ranges[i].Start()) ==> Alone() && Keeps(old(partition.rows), partition.rows)
    {
      hide Agrees, Wf, Emitted, RangesOk, Step, Valid, AtRange, Remembered, Keeps, Alone;
      EnterRange(i, snp);
      if Agrees(u, old(partition.rows)) && snp.CanPopulate() && Remembered(ranges, old(partition.rows), ranges[i].Start()) {
        if i == 0 ==> old(lastRow.pos) == Bottom {
          RangeEnteredAlone(i, old(partition.rows), snp);
        }
      }
      if Agrees(u, old(partition.rows)) && current == NoTomb && Emitted(u, ranges, out, ranges[i].Start(), NoTomb) {
        RangeEntered(i, old(partition.rows), snp);
      }
    }

    /** `move_to_next_range`, once the current range is done. */
    method MoveToNextRange(snp: Snapshot)
      requires Wf(partition.rows) && RangesOk(ranges) && state == ReadingFromCache && curr < |ranges|
      modifies this`state, this`curr, this`lower, this`upper, this`lastRow, this`next, this`nextInRange, partition`rows
      modifies this`current, this`out
      ensures state in {ReadingFromCache, MoveToUnderlying, EndOfStream} && curr == old(curr) + 1
      ensures forall e :: e in old(partition.rows) ==> e in partition.rows
      ensures old(Base() && Progress() && Clear(u, lower, upper, current)) ==>
        && Valid() && (state != EndOfStream ==> next.mark == partition.mark)
        && Step(u, old(partition.rows), partition.mark, partition.rows, partition.mark)
        && (snp.CanPopulate() && Remembered(ranges, old(partition.rows), old(upper)) ==>
             Alone() && Keeps(old(partition.rows), partition.rows))
    {
      hide Agrees, Wf, Emitted, RangesOk, Clear, HasPos, Extends, Step, Lt, Le, LowerBound, Misses, Entered, Remembered, Keeps;
      hide AloneInCache, AloneAtMiss, AlonePopulating;
      ghost var ready := Base() && Progress() && Clear(u, lower, upper, current);
      LastIsTop(partition.rows);
      if ready {
        Idle(u, partition.rows, partition.mark);
        RangeDone();
        KeepsItself(partition.rows);
        if Remembered(ranges, partition.rows, upper) {
          RememberedGap(ranges, curr, partition.rows);
        }
      }
      if current != NoTomb {
        out := out + [RangeTombstoneChange(upper, NoTomb)];
        current := NoTomb;
      }
      if curr + 1 == |ranges| {
        state := EndOfStream;
        curr := curr + 1;
        if ready {
          AllRead();
        }
      } else {
        RangeBounds(ranges, curr + 1);
        EnteredKeeps(partition.rows, ranges[curr + 1], snp);
        MoveToRange(curr + 1, snp);
      }
    }

    /** The end of a range: whatever is in force is closed there, and nothing is requested up to the next range. */
    lemma RangeDone()
      requires Base() && Progress() && Clear(u, lower, upper, current)
      ensures Emitted(u, ranges, if current == NoTomb then out else out + [RangeTombstoneChange(upper, NoTomb)],
        if curr + 1 < |ranges| then ranges[curr + 1].Start() else Top, NoTomb)
    {
      hide Agrees, Wf, Emitted, RangesOk, Clear, HasPos, Extends;
      RangeBounds(ranges, curr);
      EmitNothing(u, ranges, curr, out, lower, upper, current);
      EmitChange(u, ranges, out, upper, current, NoTomb);
      EmitGap(u, ranges, curr, if current == NoTomb then out else out + [RangeTombstoneChange(upper, NoTomb)],
        if curr + 1 < |ranges| then ranges[curr + 1].Start() else Top);
    }

    lemma AllRead()
      requires Base() && state == EndOfStream && Emitted(u, ranges, out, Top, NoTomb)
      ensures Valid()
    {
    }

    /** `maybe_drop_last_entry`. */
    method MaybeDropLastEntry(rt: Tombstone, snp: Snapshot)
      requires Base() && CursorOk() && next.mark == partition.mark
      requires lastRow.engaged ==> HasPos(partition.rows, lastRow.pos) && Lt(lastRow.pos, next.pos)
      modifies this`lastRow, this`next, partition
      ensures Base() && CursorOk() && next == old(next).(mark := partition.mark)
      ensures Step(u, old(partition.rows), old(partition.mark), partition.rows, partition.mark)
      ensures if old(lastRow).engaged && snp.atLatest && Redundant(old(partition.rows), old(lastRow).pos, rt)
        then partition.rows == Dropped(old(partition.rows), old(lastRow).pos, rt) && !lastRow.engaged
        else unchanged(partition, `lastRow)
      ensures EntriesAhead() == old(EntriesAhead())
    {
      hide Agrees, Ahead;
      if lastRow.engaged && snp.atLatest && Redundant(partition.rows, lastRow.pos, rt) {
        FoundAtLowerBound(partition.rows, lastRow.pos);
        var i := LowerBound(partition.rows, lastRow.pos);
        EvictShape(partition.rows, i);
        EvictAgrees(u, partition.rows, i);
        EvictBehind(partition.rows, i, next.pos);
        partition.rows := Evict(partition.rows, i);
        partition.mark := partition.mark + 1;
        lastRow := NoRef(lastRow);
        next := next.(mark := partition.mark);
      }
    }

    /** `partition_snapshot_row_cursor::next`. */
    method NextEntry()
      requires Wf(partition.rows) && Agrees(u, partition.rows)
      requires HasPos(partition.rows, next.pos) && Lt(next.pos, Top)
      modifies this`next
      ensures CursorOk() && next.mark == partition.mark && Lt(old(next.pos), next.pos)
      ensures next.cont ==> Clear(u, old(next.pos), next.pos, next.rt)
      ensures next == CursorAt(partition.rows, Following(partition.rows, old(next.pos)), partition.mark)
      ensures EntriesAhead() == old(EntriesAhead()) - 1
    {
      hide Agrees, Clear;
      FoundAtLowerBound(partition.rows, next.pos);
      var i := LowerBound(partition.rows, next.pos);
      CursorTells(u, partition.rows, i + 1, next.pos, partition.mark);
      next := CursorAt(partition.rows, i + 1, partition.mark);
      AheadIs(partition.rows, next.pos, i + 1);
    }

    /** The rest of the range lies ahead of the entry just consumed. */
    method StepToNextEntry(snp: Snapshot)
      requires Base() && CursorOk() && state == ReadingFromCache && Progress()
      requires next.mark == partition.mark && Lt(next.pos, upper) && lower == AfterKey(next.pos)
      modifies this`state, this`lastRow, this`next, this`nextInRange, partition
      ensures Valid() && state == (if next.cont then ReadingFromCache else MoveToUnderlying)
      ensures old(Base() && CursorOk())
      ensures next == CursorAt(old(partition.rows), Following(old(partition.rows), old(next.pos)), partition.mark)
      ensures Step(u, old(partition.rows), old(partition.mark), partition.rows, partition.mark)
      ensures state == MoveToUnderlying ==> unchanged(partition) && lastRow == Ref(old(next.pos), partition.mark)
      ensures state == ReadingFromCache && snp.atLatest ==> partition.rows == Dropped(old(partition.rows), old(next.pos), next.rt)
      ensures CursorOk() && EntriesAhead() < old(EntriesAhead())
    {
      hide Agrees, Wf, Emitted, RangesOk, Clear, HasPos, Ahead, Extends, Lt, Le;
      hide AfterKey, BeforeKey, Redundant, Evict, LowerBound, Following;
      RangeBounds(ranges, curr);
      LastIsTop(partition.rows);
      Idle(u, partition.rows, partition.mark);
      LeavesEntry(next.pos, upper);
      ghost var from := next.pos;
      lastRow := Ref(next.pos, next.mark);
      NextEntry();
      nextInRange := Lt(next.pos, upper);
      NextAfter(from, next.pos);
      HorizonBounds(lower, next.pos, upper);
      if !next.cont {
        state := MoveToUnderlying;
      } else {
        ClearWithin(u, from, next.pos, lower, Horizon(), next.rt);
        MaybeDropLastEntry(next.rt, snp);
      }
    }

    lemma SteppedAlone(rows: Rows, from: Pos)
      requires Wf(rows) && HasPos(rows, from) && Lt(from, Top) && lower == AfterKey(from) && Remembered(ranges, rows, lower)
      requires next == CursorAt(rows, Following(rows, from), partition.mark)
      requires state == (if next.cont then ReadingFromCache else MoveToUnderlying)
      requires if next.cont then partition.rows == Dropped(rows, from, next.rt)
               else partition.rows == rows && lastRow == Ref(from, partition.mark)
      ensures Alone() && Keeps(rows, partition.rows)
    {
      hide Wf, HasPos, Remembered, Keeps, NothingBetween, ContinuousAt, Dropped, Following;
      StepKeeps(rows, from);
      KeepsItself(rows);
      RememberedKept(ranges, rows, partition.rows, lower);
      NothingBetweenLess(partition.rows, from, next.pos, lower, next.pos);
    }

    /** `move_to_next_entry`, once the entry under the cursor has been consumed. */
    method MoveToNextEntry(snp: Snapshot)
      requires Base() && CursorOk() && state == ReadingFromCache && Progress()
      requires next.mark == partition.mark && Lt(next.pos, upper) && lower == AfterKey(next.pos)
      modifies this`state, this`curr, this`lower, this`upper, this`lastRow, this`next, this`nextInRange, partition
      modifies this`current, this`out
      ensures Valid() && state in {ReadingFromCache, MoveToUnderlying, EndOfStream}
      ensures state != EndOfStream ==> next.mark == partition.mark
      ensures Step(u, old(partition.rows), old(partition.mark), partition.rows, partition.mark)
      ensures NoRowBetween(old(next.pos), old(upper)) ==> curr == old(curr) + 1
      ensures !NoRowBetween(old(next.pos), old(upper)) ==>
        && unchanged(`curr, `lower, `upper, `current, `out)
        && old(Base() && CursorOk())
        && next == CursorAt(old(partition.rows), Following(old(partition.rows), old(next.pos)), partition.mark)
        && state == (if next.cont then ReadingFromCache else MoveToUnderlying)
        && (state == MoveToUnderlying ==> unchanged(partition) && lastRow == Ref(old(next.pos), partition.mark))
        && CursorOk() && EntriesAhead() < old(EntriesAhead())
      ensures snp.CanPopulate() && Remembered(ranges, old(partition.rows), old(lower)) ==>
        Alone() && Keeps(old(partition.rows), partition.rows)
    {
      hide Agrees, Wf, Emitted, RangesOk, Clear, HasPos, Lt, Le, AfterKey, NoRowBetween, Step, Valid, Following, Ahead;
      hide Alone, Remembered, Keeps, Dropped;
      RangeBounds(ranges, curr);
      LeavesEntry(next.pos, upper);
      if NoRowBetween(next.pos, upper) {
        ClearNothing(u, lower, current);
        MoveToNextRange(snp);
      } else {
        StepToNextEntry(snp);
        if snp.CanPopulate() && Remembered(ranges, old(partition.rows), lower) {
          SteppedAlone(old(partition.rows), old(next.pos));
        }
      }
    }

    /** The first half of `copy_from_cache_to_buffer`: enters the interval before the next entry. */
    method EnterInterval()
      requires Base() && CursorOk() && Progress() && CursorInRange() && CacheClaim()
      modifies this`current, this`out, this`lower
      ensures Progress() && CursorInRange() && Clear(u, lower, Horizon(), current)
      ensures if next.rt == old(current) || old(lower) == Horizon() then unchanged(`current, `out, `lower)
        else out == old(out) + [RangeTombstoneChange(old(lower), next.rt)] && lower == Horizon() && current == next.rt
    {
      hide Agrees, Wf, Emitted, RangesOk, Clear, HasPos, Extends;
      RangeBounds(ranges, curr);
      ClearNothing(u, Horizon(), current);
      if next.rt != current {
        var bound := Horizon();
        if lower != bound {
          EmitChange(u, ranges, out, lower, current, next.rt);
          out := out + [RangeTombstoneChange(lower, next.rt)];
          EmitNothing(u, ranges, curr, out, lower, bound, next.rt);
          current := next.rt;
          lower := bound;
          ClearNothing(u, Horizon(), current);
        }
      }
    }

    /** The second half: the entry itself, when it is inside the range. */
    method EmitEntry()
      requires Base() && CursorOk() && next.mark == partition.mark && Progress() && CursorInRange() && nextInRange
      requires Clear(u, lower, Horizon(), current)
      modifies this`current, this`out, this`lower
      ensures Progress() && lower == AfterKey(next.pos) && current == next.rtForRow
    {
      hide Agrees, Wf, Emitted, RangesOk, Clear, Extends, HasPos;
      RangeBounds(ranges, curr);
      EmitNothing(u, ranges, curr, out, lower, Horizon(), current);
      if next.rtForRow != current {
        EmitChange(u, ranges, out, Horizon(), current, next.rtForRow);
        lower := BeforeKey(next.pos);
        out := out + [RangeTombstoneChange(lower, next.rtForRow)];
        current := next.rtForRow;
        ClearNothing(u, lower, current);
      }
      if IsRow(next.pos) {
        EntryUnderCursor();
        ClearToRow(u, lower, next.pos.rank, current);
        EmitRow(u, ranges, curr, out, lower, current, next.pos.rank);
        out := out + [ClusteringRow(next.pos.rank, partition.rows[LowerBound(partition.rows, next.pos)].row)];
        lower := Pos(next.pos.rank, 1);
      } else if Lt(lower, next.pos) {
        lower := next.pos;
      }
    }

    /** A valid cursor at a row finds the source's row there. */
    lemma EntryUnderCursor()
      requires Base() && CursorOk() && next.mark == partition.mark && IsRow(next.pos)
      ensures |partition.rows| > 0 && Le(next.pos, partition.rows[|partition.rows| - 1].pos)
      ensures partition.rows[LowerBound(partition.rows, next.pos)].row == u.row(next.pos.rank)
    {
      FoundAtLowerBound(partition.rows, next.pos);
      var i := LowerBound(partition.rows, next.pos);
      assert EntryAgrees(u, partition.rows[i], PrevPos(partition.rows, i));
    }

    lemma ServedAlone()
      requires Valid() && state == ReadingFromCache && AloneInCache()
      ensures nextInRange ==> Remembered(ranges, partition.rows, AfterKey(next.pos))
      ensures !nextInRange ==> Remembered(ranges, partition.rows, upper)
    {
      hide Agrees, Wf, Emitted, RangesOk, Clear, HasPos, Remembered, NothingBetween, ContinuousAt;
      RangeBounds(ranges, curr);
      RememberedServed(ranges, partition.rows, lower, next.pos, if nextInRange then AfterKey(next.pos) else upper);
    }

    /** `copy_from_cache_to_buffer`. */
    method CopyFromCacheToBuffer(snp: Snapshot)
      requires Valid() && state == ReadingFromCache && next.mark == partition.mark
      modifies this`state, this`curr, this`lower, this`upper, this`lastRow, this`next, this`nextInRange, partition
      modifies this`current, this`out
      ensures Valid() && state in {ReadingFromCache, MoveToUnderlying, EndOfStream}
      ensures state != EndOfStream ==> next.mark == partition.mark
      ensures Step(u, old(partition.rows), old(partition.mark), partition.rows, partition.mark)
      ensures Nearer(ToGo(), old(ToGo()))
      ensures snp.CanPopulate() && old(Alone()) ==> Alone() && Keeps(old(partition.rows), partition.rows)
    {
      hide Agrees, Wf, Emitted, RangesOk, Clear, HasPos, Extends, Step, Ahead, Remembered, Keeps, NothingBetween, ContinuousAt;
      hide AloneAtMiss, AlonePopulating;
      if AloneInCache() {
        ServedAlone();
      }
      EnterInterval();
      if nextInRange {
        EmitEntry();
        MoveToNextEntry(snp);
      } else {
        MoveToNextRange(snp);
      }
    }

    // ------------------------------------------------------------------ reading from underlying

    /** Whether the tombstone in force is closed before the underlying source takes over: it does not open with a change. */
    predicate ClosesTombstone(stream: Stream)
      reads `current, `lower
    {
      current != NoTomb && !(stream != [] && stream[0].RangeTombstoneChange? && stream[0].at == lower)
    }

    /** The source continues what has been emitted so far. */
    lemma Continues(stream: Stream)
      requires Progress() && LastRowOk() && (lastRow.engaged ==> AfterKey(lastRow.pos) == lower)
      requires IsRead(u, stream, lower, Horizon())
      ensures Le(lower, lower) && (lastRow.engaged ==> Le(lastRow.pos, lower))
      ensures Ordered(stream) && Between(stream, lower, Horizon())
      ensures var (o, t) := if ClosesTombstone(stream) then (out + [RangeTombstoneChange(lower, NoTomb)], NoTomb) else (out, current);
        && Emitted(u, ranges, o, lower, t) && Delivers(u, stream, t, lower, Horizon())
        && (lastRow.engaged ==> Delivers(u, stream, t, lastRow.pos, Horizon()))
    {
      hide Emitted, Ordered, Between, Delivers, AfterKey, BeforeKey;
      EmitChange(u, ranges, out, lower, current, NoTomb);
      var t := if ClosesTombstone(stream) then NoTomb else current;
      if t != NoTomb {
        OpeningChange(u, stream, NoTomb, t, lower, Horizon());
      }
      if lastRow.engaged {
        DeliversFromRow(u, stream, t, lastRow.pos, Horizon());
      }
    }

    /** The `move_to_underlying` branch of `do_fill_buffer`; `stream` is what the underlying reader
        yields for the range it is forwarded to (nothing, if the partition does not exist there). */
    method MoveToUnderlyingSource(stream: Stream)
      requires Valid() && state == MoveToUnderlying
      requires IsRead(u, stream, lower, Horizon())
      modifies this`state, this`populatesFromStart, this`underlyingUpper, this`unread, this`current, this`out
      ensures Valid() && state == ReadingFromUnderlying && unread == stream
      ensures populatesFromStart == (lower == Bottom && !lastRow.engaged)
      ensures if old(ClosesTombstone(stream))
        then out == old(out) + [RangeTombstoneChange(lower, NoTomb)] && current == NoTomb
        else unchanged(`current, `out)
    {
      hide Agrees, Wf, Emitted, RangesOk, HasPos, Ordered, Between, Delivers, Clear, Lt, Le, AfterKey, BeforeKey;
      hide IsRead;
      Continues(stream);
      if current != NoTomb {
        if stream == [] || !stream[0].RangeTombstoneChange? || stream[0].at != lower {
          out := out + [RangeTombstoneChange(lower, NoTomb)];
          current := NoTomb;
        }
      }
      state := ReadingFromUnderlying;
      populatesFromStart := lower == Bottom && !lastRow.engaged;
      underlyingUpper := Horizon();
      unread := stream;
    }

    lemma ForwardedAlone()
      requires Valid() && state == ReadingFromUnderlying && AloneAtMiss()
      requires populatesFromStart == (lower == Bottom && !lastRow.engaged)
      ensures AlonePopulating()
    {
      hide Agrees, Wf, Emitted, RangesOk, HasPos, Ordered, Between, Delivers, Clear, Remembered, NothingBetween;
    }

    /** The interval read so far starts at an entry that is still there, or before all rows. */
    predicate CanExtend()
      reads `populatesFromStart, `lastRow, partition`rows
    {
      populatesFromStart || (lastRow.engaged && HasPos(partition.rows, lastRow.pos))
    }

    /** `ensure_population_lower_bound`.  A reference that cannot be found again is still stamped with
        the current mark. */
    method EnsurePopulationLowerBound() returns (ok: bool)
      requires Wf(partition.rows) && LastRowOk() && Le(lower, Top) && (populatesFromStart ==> !lastRow.engaged)
      modifies this`lastRow
      ensures lastRow.engaged == old(lastRow).engaged && lastRow.pos == old(lastRow).pos
      ensures ok <==> CanExtend()
      ensures ok && lastRow.engaged ==> lastRow.mark == partition.mark
    {
      if populatesFromStart {
        ok := true;
      } else if !lastRow.engaged {
        ok := false;
      } else if lastRow.mark == partition.mark {
        ok := true;
      } else {
        lastRow := lastRow.(mark := partition.mark);
        FoundAtLowerBound(partition.rows, lastRow.pos);
        ok := partition.rows[LowerBound(partition.rows, lastRow.pos)].pos == lastRow.pos;
      }
    }

    /** Inserts an entry that vouches for nothing but its own row, splitting the interval it falls into. */
    method AddEntry(e: Entry)
      requires Base() && CursorOk() && Le(Bottom, e.pos) && Le(e.pos, Top) && !e.cont
      requires IsRow(e.pos) ==> u.row(e.pos.rank) == e.row && u.tomb(e.pos.rank) == e.rt
      modifies partition`rows
      ensures Base() && CursorOk() && HasPos(partition.rows, e.pos)
      ensures Step(u, old(partition.rows), partition.mark, partition.rows, partition.mark)
      ensures partition.rows == Added(old(partition.rows), e)
      ensures forall p :: HasPos(partition.rows, p) ==> p == e.pos || HasPos(old(partition.rows), p)
      ensures Lt(e.pos, next.pos) ==> EntriesAhead() == old(EntriesAhead())
    {
      hide Agrees, RangesOk, Ahead;
      AddedAgrees(u, partition.rows, e);
      if Lt(e.pos, next.pos) {
        InsertBehind(partition.rows, Restored(e, partition.rows[LowerBound(partition.rows, e.pos)]), next.pos);
      }
      partition.rows := Added(partition.rows, e);
    }

    /** Marks an entry continuous, over an interval found clear since the population lower bound. */
    method MarkContinuous(p: Pos, t: Tombstone)
      requires Base() && CursorOk() && HasPos(partition.rows, p) && Le(p, Top)
      requires CanExtend() && (populatesFromStart ==> !lastRow.engaged) && (lastRow.engaged ==> Lt(lastRow.pos, p))
      requires Clear(u, PopulationStart(), p, t) && (IsRow(p) ==> u.tomb(p.rank) == t)
      modifies partition`rows
      ensures Base() && CursorOk()
      ensures Step(u, old(partition.rows), partition.mark, partition.rows, partition.mark)
      ensures partition.rows == Marked(old(partition.rows), p, t) && EntriesAhead() == old(EntriesAhead())
    {
      hide Agrees, RangesOk, Clear, Ahead;
      FoundAtLowerBound(partition.rows, p);
      SetContinuousAhead(partition.rows, LowerBound(partition.rows, p), t, next.pos);
      PopulateAgrees(u, partition.rows, LowerBound(partition.rows, p), PopulationStart(), t);
      partition.rows := Marked(partition.rows, p, t);
    }

    /** `maybe_add_to_cache` of a clustering row. */
    method MaybeAddRow(key: real, row: Row, snp: Snapshot)
      requires Base() && CursorOk() && LastRowOk() && Le(lower, Top) && (populatesFromStart ==> !lastRow.engaged)
      requires Le(Bottom, K(key)) && Lt(K(key), Top) && Lt(PopulationStart(), K(key))
      requires Clear(u, PopulationStart(), K(key), current) && u.row(key) == row && u.tomb(key) == current
      modifies this`lastRow, this`populatesFromStart, partition`rows
      ensures Base() && CursorOk() && !populatesFromStart
      ensures Step(u, old(partition.rows), partition.mark, partition.rows, partition.mark)
      ensures snp.CanPopulate() ==>
        && lastRow == Ref(K(key), partition.mark) && HasPos(partition.rows, K(key))
        && var added := Added(old(partition.rows), Entry(K(key), false, current, row));
           partition.rows == if old(CanExtend()) then Marked(added, K(key), current) else added
      ensures snp.CanPopulate() ==>
        if old(CanExtend()) then LearnedTo(u, old(partition.rows), partition.rows, K(key))
        else Learned(u, old(partition.rows), partition.rows, BeforeKey(K(key)), K(key))
      ensures !snp.CanPopulate() ==> !lastRow.engaged && partition.rows == old(partition.rows)
      ensures Lt(K(key), next.pos) ==> EntriesAhead() == old(EntriesAhead())
    {
      hide Agrees, Wf, RangesOk, HasPos, Clear, Added, Marked, Ahead, Learned, LowerBound;
      Idle(u, partition.rows, partition.mark);
      LastIsTop(partition.rows);
      if !snp.CanPopulate() {
        lastRow := NoRef(lastRow);
        populatesFromStart := false;
        return;
      }
      ghost var e := Entry(K(key), false, current, row);
      AddEntry(Entry(K(key), false, current, row));
      AddedLearns(u, old(partition.rows), e);
      var ok := EnsurePopulationLowerBound();
      if ok {
        MarkContinuous(K(key), current);
        PopulatedLearns(u, old(partition.rows), e, current);
      }
      lastRow := Ref(K(key), partition.mark);
      populatesFromStart := false;
    }

    /** `maybe_add_to_cache` of a range tombstone change, past its early returns. */
    method MaybeAddDummy(at: Pos, prev: Tombstone, snp: Snapshot)
      requires Base() && CursorOk() && LastRowOk() && Le(lower, Top) && (populatesFromStart ==> !lastRow.engaged)
      requires !IsRow(at) && Le(Bottom, at) && Le(at, Top) && Le(PopulationStart(), at)
      requires Clear(u, PopulationStart(), at, prev)
      modifies this`lastRow, this`populatesFromStart, partition`rows
      ensures Base() && CursorOk() && !populatesFromStart
      ensures Step(u, old(partition.rows), partition.mark, partition.rows, partition.mark)
      ensures snp.CanPopulate() ==>
        && lastRow == Ref(at, partition.mark) && HasPos(partition.rows, at)
        && var added := Added(old(partition.rows), Entry(at, false, NoTomb, EmptyRow));
           partition.rows == if old(CanExtend()) && old(lastRow.pos) != at then Marked(added, at, prev) else added
      ensures snp.CanPopulate() ==>
        if old(CanExtend()) && old(lastRow.pos) != at then LearnedTo(u, old(partition.rows), partition.rows, at)
        else Learned(u, old(partition.rows), partition.rows, at, at)
      ensures !snp.CanPopulate() ==> !lastRow.engaged && partition.rows == old(partition.rows)
      ensures Lt(at, next.pos) ==> EntriesAhead() == old(EntriesAhead())
    {
      hide Agrees, Wf, RangesOk, HasPos, Clear, Added, Marked, Ahead, Learned, LowerBound;
      Idle(u, partition.rows, partition.mark);
      LastIsTop(partition.rows);
      if !snp.CanPopulate() {
        lastRow := NoRef(lastRow);
        populatesFromStart := false;
        return;
      }
      ghost var e := Entry(at, false, NoTomb, EmptyRow);
      AddEntry(Entry(at, false, NoTomb, EmptyRow));
      AddedLearns(u, old(partition.rows), e);
      var ok := EnsurePopulationLowerBound();
      if ok && lastRow.pos != at {
        MarkContinuous(at, prev);
        PopulatedLearns(u, old(partition.rows), e, prev);
      }
      lastRow := Ref(at, partition.mark);
      populatesFromStart := false;
    }

    /** What is known while the underlying source is read. */
    lemma Reading()
      requires Valid() && state == ReadingFromUnderlying
      ensures Base() && CursorOk() && LastRowOk() && (populatesFromStart ==> !lastRow.engaged) && Le(lower, Top)
      ensures Wf(partition.rows)
      ensures curr < |ranges| && upper == ranges[curr].End() && nextInRange == Lt(next.pos, upper) && underlyingUpper == Horizon()
    {
      hide Agrees, Wf, Emitted, RangesOk, HasPos, Ordered, Between, Delivers, Clear;
      RangeBounds(ranges, curr);
    }

    /** The fragment at `at` has been passed on, and the next interval to populate starts there. */
    lemma Offered(at: Pos)
      requires Base() && CursorOk() && state == ReadingFromUnderlying && !populatesFromStart
      requires curr < |ranges| && upper == ranges[curr].End() && nextInRange == Lt(next.pos, upper) && underlyingUpper == Horizon()
      requires lower == AfterKey(at) && Le(Bottom, at) && Lt(at, next.pos) && Lt(at, upper) && Le(lower, Horizon())
      requires Le(ranges[curr].Start(), lower) && Le(lower, upper) && Emitted(u, ranges, out, lower, current)
      requires Ordered(unread) && Between(unread, lower, underlyingUpper)
      requires Delivers(u, unread, current, at, underlyingUpper) && Delivers(u, unread, current, lower, underlyingUpper)
      requires lastRow.engaged ==> lastRow == Ref(at, partition.mark) && HasPos(partition.rows, at)
      ensures Valid()
    {
      hide Agrees, Wf, Emitted, RangesOk, HasPos, Ordered, Between, Delivers, CursorOk;
      RangeBounds(ranges, curr);
    }

    lemma AloneFacts()
      requires Valid() && state == ReadingFromUnderlying && AlonePopulating()
      ensures next.mark == partition.mark && !next.cont && Le(next.pos, Top) && Wf(partition.rows) && RangesOk(ranges)
      ensures NothingBetween(partition.rows, PopulationStart(), next.pos)
      ensures Remembered(ranges, partition.rows, AfterKey(PopulationStart()))
      ensures curr < |ranges| && (ranges[curr].Span? ==> CanExtend())
      ensures Le(ranges[curr].Start(), AfterKey(PopulationStart()))
      ensures CanExtend() ==> lastRow.pos == PopulationStart()
    {
      hide Agrees, Wf, Emitted, RangesOk, Ordered, Between, Delivers, Clear, Remembered, NothingBetween;
    }

    /** A fragment at the entry `e` has been populated. */
    lemma OfferedAlone(rows: Rows, e: Entry, start: Pos, t: Tombstone, learned: bool, before: Pos)
      requires Wf(rows) && RangesOk(ranges) && curr < |ranges| && Le(next.pos, Top) && next.mark == partition.mark && !next.cont
      requires NothingBetween(rows, start, next.pos) && Remembered(ranges, rows, AfterKey(start))
      requires Le(ranges[curr].Start(), AfterKey(start)) && Lt(e.pos, ranges[curr].End())
      requires Le(start, e.pos) && Le(Bottom, e.pos) && Lt(e.pos, next.pos)
      requires lastRow == Ref(e.pos, partition.mark) && !populatesFromStart && HasPos(partition.rows, e.pos)
      requires Le(e.pos, Top) && (partition.rows == Added(rows, e) || partition.rows == Marked(Added(rows, e), e.pos, t))
      requires if learned then LearnedTo(u, rows, partition.rows, e.pos)
               else Learned(u, rows, partition.rows, before, e.pos) && (start == e.pos || ranges[curr].Single?)
      ensures AlonePopulating() && Keeps(rows, partition.rows)
    {
      hide Wf, HasPos, RangesOk, Remembered, NothingBetween, Keeps, Learned, LearnedTo, Added, Marked;
      LastIsTop(rows);
      AddedOnTheWay(rows, e, start, next.pos);
      MarkedOnTheWay(Added(rows, e), e.pos, t, e.pos, next.pos);
      if !learned {
        LearnedKeeps(u, rows, partition.rows, before, e.pos);
      }
      RememberedOffer(u, ranges, curr, rows, partition.rows, start, e.pos);
    }

    /** What follows from the invariant when the next unread fragment is a row. */
    lemma NextIsRow()
      requires Valid() && state == ReadingFromUnderlying && unread != [] && unread[0].ClusteringRow?
      ensures var key := unread[0].key;
        && Le(Bottom, K(key)) && Lt(K(key), Top) && Le(K(key), Top)
        && Lt(PopulationStart(), K(key)) && Le(PopulationStart(), K(key)) && Lt(K(key), next.pos) && Lt(K(key), upper)
        && Clear(u, PopulationStart(), K(key), current) && u.row(key) == unread[0].row && u.tomb(key) == current
        && Emitted(u, ranges, out + [unread[0]], Pos(key, 1), current)
        && Ordered(unread[1..]) && Between(unread[1..], Pos(key, 1), underlyingUpper)
        && Delivers(u, unread[1..], current, K(key), underlyingUpper)
        && Delivers(u, unread[1..], current, Pos(key, 1), underlyingUpper)
        && Le(ranges[curr].Start(), Pos(key, 1)) && Le(Pos(key, 1), Horizon()) && Le(Pos(key, 1), upper)
    {
      hide Agrees, Wf, Emitted, RangesOk, HasPos, Ordered, Between, Delivers, Clear;
      RangeBounds(ranges, curr);
      var key := unread[0].key;
      TailBetween(unread, lower, underlyingUpper);
      RowRead(u, unread, current, PopulationStart(), underlyingUpper);
      ClearWithin(u, PopulationStart(), K(key), lower, K(key), current);
      EmitRow(u, ranges, curr, out, lower, current, key);
      DeliversWithin(u, unread[1..], current, K(key), Pos(key, 1), underlyingUpper);
    }

    /** `offer_from_underlying` for a clustering row. */
    method OfferRow(snp: Snapshot)
      requires Valid() && state == ReadingFromUnderlying && unread != [] && unread[0].ClusteringRow?
      modifies this`lastRow, this`populatesFromStart, this`out, this`lower, this`unread, partition`rows
      ensures Valid() && unread == old(unread)[1..] && out == old(out) + [old(unread)[0]]
      ensures Step(u, old(partition.rows), partition.mark, partition.rows, partition.mark)
      ensures snp.CanPopulate() ==>
        var key := old(unread)[0].key;
        old(Base()) && Le(K(key), Top) &&
        var added := Added(old(partition.rows), Entry(K(key), false, current, old(unread)[0].row));
        partition.rows == if old(CanExtend()) then Marked(added, K(key), current) else added
      ensures !snp.CanPopulate() ==> partition.rows == old(partition.rows)
      ensures old(CursorOk()) && EntriesAhead() == old(EntriesAhead())
      ensures snp.CanPopulate() && old(AlonePopulating()) ==> AlonePopulating() && Keeps(old(partition.rows), partition.rows)
    {
      hide Agrees, Wf, Emitted, RangesOk, HasPos, Ordered, Between, Delivers, Clear, Added, Marked, Step, Ahead;
      hide Lt, Le, Base, CursorOk, Valid, LastRowOk, UnderlyingOk, Progress, CursorInRange, PopulationStart, CanExtend;
      hide AlonePopulating, AloneFrom, Keeps, Learned, LearnedTo, Remembered, NothingBetween;
      Reading();
      NextIsRow();
      var key := unread[0].key;
      ghost var e := Entry(K(key), false, current, unread[0].row);
      ghost var alone, start := AlonePopulating(), PopulationStart();
      if alone {
        AloneFacts();
      }
      MaybeAddRow(key, unread[0].row, snp);
      out := out + [unread[0]];
      lower := Pos(key, 1);
      unread := unread[1..];
      Offered(K(key));
      if snp.CanPopulate() && alone {
        OfferedAlone(old(partition.rows), e, start, current, old(CanExtend()), BeforeKey(K(key)));
      }
    }

    /** What follows from the invariant when the next unread fragment is a change inside the read. */
    lemma NextIsChange()
      requires Valid() && state == ReadingFromUnderlying
      requires unread != [] && unread[0].RangeTombstoneChange? && unread[0].at != underlyingUpper
      ensures var at := unread[0].at;
        && Le(Bottom, at) && Le(at, Top) && Lt(at, next.pos) && Lt(at, upper) && !IsRow(at)
        && Le(PopulationStart(), at) && Le(lower, Top)
        && Clear(u, PopulationStart(), at, current)
        && Emitted(u, ranges, out + [unread[0]], at, unread[0].tomb)
        && Ordered(unread[1..]) && Between(unread[1..], at, underlyingUpper)
        && Delivers(u, unread[1..], unread[0].tomb, at, underlyingUpper)
        && Le(ranges[curr].Start(), at) && Le(at, Horizon()) && Le(at, upper) && Le(at, at)
    {
      hide Agrees, Wf, Emitted, RangesOk, HasPos, Ordered, Between, Delivers, Clear;
      RangeBounds(ranges, curr);
      TailBetween(unread, lower, underlyingUpper);
      ChangeRead(u, unread, current, PopulationStart(), underlyingUpper);
      var at := unread[0].at;
      Trichotomy(at, underlyingUpper);
      ClearWithin(u, PopulationStart(), at, lower, at, current);
      EmitNothing(u, ranges, curr, out, lower, at, current);
      EmitChange(u, ranges, out, at, current, unread[0].tomb);
    }

    method ApplyChange(snp: Snapshot)
      requires Valid() && state == ReadingFromUnderlying
      requires unread != [] && unread[0].RangeTombstoneChange? && unread[0].at != underlyingUpper
      modifies this`lastRow, this`populatesFromStart, this`out, this`lower, this`unread, this`current, this`hasRt
      modifies partition`rows
      ensures Valid() && unread == old(unread)[1..]
      ensures Step(u, old(partition.rows), partition.mark, partition.rows, partition.mark)
      ensures out == old(out) + [old(unread)[0]] && hasRt && current == old(unread)[0].tomb
      ensures old(CursorOk()) && EntriesAhead() == old(EntriesAhead())
      ensures snp.CanPopulate() ==>
        var at, e := old(unread)[0].at, Entry(old(unread)[0].at, false, NoTomb, EmptyRow);
        && lastRow == Ref(at, partition.mark) && HasPos(partition.rows, at) && !populatesFromStart
        && Wf(old(partition.rows)) && Le(at, Top)
        && (if old(CanExtend()) && old(lastRow.pos) != at
            then LearnedTo(u, old(partition.rows), partition.rows, at)
              && partition.rows == Marked(Added(old(partition.rows), e), at, old(current))
            else Learned(u, old(partition.rows), partition.rows, at, at) && partition.rows == Added(old(partition.rows), e))
    {
      hide Agrees, Wf, Emitted, RangesOk, HasPos, Ordered, Between, Delivers, Clear, Added, Marked, Step, Ahead;
      hide Lt, Le, AfterKey, BeforeKey, Base, CursorOk, Valid, LastRowOk, UnderlyingOk, Progress, CursorInRange, PopulationStart, CanExtend;
      hide Learned, LearnedTo;
      Reading();
      NextIsChange();
      HorizonBounds(unread[0].at, unread[0].at, unread[0].at);
      var RangeTombstoneChange(at, t) := unread[0];
      MaybeAddDummy(at, current, snp);
      current := t;
      hasRt := true;
      lower := at;
      out := out + [unread[0]];
      unread := unread[1..];
      Offered(at);
    }

    method CloseRead()
      requires Valid() && state == ReadingFromUnderlying
      requires unread != [] && unread[0].RangeTombstoneChange? && unread[0].at == underlyingUpper
      modifies this`lower, this`unread
      ensures Valid() && unread == old(unread)[1..] && Le(old(lower), lower)
    {
      hide Agrees, Wf, Emitted, RangesOk, HasPos, Ordered, Between, Delivers, Clear;
      RangeBounds(ranges, curr);
      TailBetween(unread, lower, underlyingUpper);
      ChangeRead(u, unread, current, PopulationStart(), underlyingUpper);
      ClearWithin(u, PopulationStart(), underlyingUpper, lower, underlyingUpper, current);
      EmitNothing(u, ranges, curr, out, lower, underlyingUpper, current);
      DeliversWithin(u, unread[1..], current, PopulationStart(), underlyingUpper, underlyingUpper);
      lower := unread[0].at;
      unread := unread[1..];
    }

    /** A read moved on without populating anything. */
    lemma ClosedAlone(start: Pos)
      requires RangesOk(ranges) && curr < |ranges| && !IsRow(lower) && Le(lower, ranges[curr].End())
      requires next.mark == partition.mark && !next.cont && (lastRow.engaged ==> lastRow.mark == partition.mark)
      requires (ranges[curr].Span? ==> CanExtend()) && (populatesFromStart ==> lastRow.pos == Bottom != next.pos)
      requires Le(ranges[curr].Start(), AfterKey(start))
      requires if lastRow.engaged || populatesFromStart then PopulationStart() == start else Le(start, lower)
      requires NothingBetween(partition.rows, start, next.pos) && Remembered(ranges, partition.rows, AfterKey(start))
      ensures AlonePopulating()
    {
      hide RangesOk, NothingBetween, Remembered, HasPos;
      if !lastRow.engaged && !populatesFromStart {
        NothingBetweenLess(partition.rows, start, next.pos, lower, next.pos);
        RememberedSingle(ranges, curr, partition.rows, AfterKey(start), lower);
      }
    }

    /** `offer_from_underlying` for a range tombstone change.  The change that closes the read and a
        change to the tombstone already in force are swallowed. */
    method OfferChange(snp: Snapshot)
      requires Valid() && state == ReadingFromUnderlying && unread != [] && unread[0].RangeTombstoneChange?
      modifies this`lastRow, this`populatesFromStart, this`out, this`lower, this`unread, this`current, this`hasRt
      modifies partition`rows
      ensures Valid() && unread == old(unread)[1..]
      ensures Step(u, old(partition.rows), partition.mark, partition.rows, partition.mark)
      ensures if old(unread)[0].at == underlyingUpper || old(unread)[0].tomb == old(current)
        then unchanged(`out, `hasRt, `current, `lastRow, `populatesFromStart, partition)
        else out == old(out) + [old(unread)[0]] && hasRt && current == old(unread)[0].tomb
      ensures old(CursorOk()) && EntriesAhead() == old(EntriesAhead())
      ensures snp.CanPopulate() && old(AlonePopulating()) ==> AlonePopulating() && Keeps(old(partition.rows), partition.rows)
    {
      hide Agrees, Wf, Emitted, RangesOk, HasPos, Ordered, Between, Delivers, Clear, Extends, Ahead;
      hide Remembered, NothingBetween, Keeps, Learned, LearnedTo, Added, Marked;
      Idle(u, partition.rows, partition.mark);
      KeepsItself(partition.rows);
      TailBetween(unread, lower, underlyingUpper);
      ChangeRead(u, unread, current, PopulationStart(), underlyingUpper);
      ghost var alone, start, at := AlonePopulating(), PopulationStart(), unread[0].at;
      if alone {
        AloneFacts();
      }
      if unread[0].at == underlyingUpper {
        CloseRead();
        if alone {
          ClosedAlone(start);
        }
      } else if unread[0].tomb != current {
        NextIsChange();
        ApplyChange(snp);
        if snp.CanPopulate() && alone {
          ghost var extended := old(CanExtend() && lastRow.pos != at);
          OfferedAlone(old(partition.rows), Entry(at, false, NoTomb, EmptyRow), start, old(current), extended, at);
        }
      } else {
        unread := unread[1..];
      }
    }

    /** No entry has been put between the last one and the next one. */
    ghost predicate Unbroken()
      reads `lastRow, `next, partition`rows
    {
      lastRow.engaged ==> NothingBetween(partition.rows, lastRow.pos, next.pos)
    }

    /** Whether dropping the last entry would break the interval before it. */
    predicate TooMuch()
      reads `lastRow, `next, `current, partition`rows
    {
      var rows := partition.rows;
      && lastRow.engaged && |rows| > 0 && Le(lastRow.pos, rows[|rows| - 1].pos) && Le(next.pos, rows[|rows| - 1].pos)
      && DropsTooMuch(rows, lastRow.pos, next.pos, current)
    }

    /** `maybe_update_continuity`. */
    method MaybeUpdateContinuity(snp: Snapshot)
      requires Base() && CursorOk() && next.mark == partition.mark && LastRowOk() && Le(lower, Top)
      requires populatesFromStart ==> !lastRow.engaged
      requires Clear(u, PopulationStart(), BeforeKey(next.pos), current)
      modifies this`lastRow, this`next, partition
      ensures Base() && CursorOk() && next == old(next).(mark := partition.mark)
      ensures Step(u, old(partition.rows), old(partition.mark), partition.rows, partition.mark)
      ensures if snp.CanPopulate() && old(CanExtend()) && old(lastRow.pos) != next.pos
        then var continued := Continued(old(partition.rows), next.pos, current);
             partition.rows == if old(lastRow.engaged) then Dropped(continued, old(lastRow.pos), current) else continued
        else partition.rows == old(partition.rows)
      ensures EntriesAhead() == old(EntriesAhead())
      ensures snp.CanPopulate() && old(CanExtend() && lastRow.pos != next.pos && Unbroken()) ==>
        && (LearnedTo(u, old(partition.rows), partition.rows, next.pos) <==> !old(TooMuch()))
        && (old(TooMuch()) ==> !Keeps(old(partition.rows), partition.rows))
    {
      hide Agrees, Wf, RangesOk, HasPos, Clear, Continued, Ahead, Learned, NothingBetween, DropsTooMuch, LowerBound, Redundant, Keeps;
      Idle(u, partition.rows, partition.mark);
      LastIsTop(partition.rows);
      if snp.CanPopulate() {
        var ok := EnsurePopulationLowerBound();
        if ok && lastRow.pos != next.pos {
          ContinuedAgrees(u, partition.rows, next.pos, PopulationStart(), current);
          ContinuedAhead(partition.rows, next.pos, current);
          partition.rows := Continued(partition.rows, next.pos, current);
          ContinuedLearns(u, old(partition.rows), next.pos, current);
          LastIsTop(partition.rows);
          MaybeDropLastEntry(current, snp);
          if old(lastRow.engaged && Unbroken()) {
            ContinuedThenDropped(u, old(partition.rows), old(lastRow.pos), next.pos, current);
          }
        }
      }
    }

    /** Population at the end of a range whose next entry lies beyond it. */
    method PopulateUpperBound(snp: Snapshot)
      requires Base() && CursorOk() && next.mark == partition.mark && LastRowOk() && !IsRow(upper)
      requires Le(lower, Top) && Le(Bottom, upper) && Le(upper, next.pos) && (populatesFromStart ==> !lastRow.engaged)
      requires Clear(u, PopulationStart(), upper, current)
      modifies this`lastRow, this`next, partition
      ensures Base() && CursorOk() && next == old(next).(mark := partition.mark)
      ensures Step(u, old(partition.rows), old(partition.mark), partition.rows, partition.mark)
      ensures if old(CanExtend())
        then var marked := Marked(Added(old(partition.rows), Entry(upper, false, NoTomb, EmptyRow)), upper, current);
             partition.rows == if old(lastRow.engaged) && snp.atLatest then Dropped(marked, old(lastRow.pos), current) else marked
        else partition.rows == old(partition.rows)
      ensures old(CanExtend()) && (old(lastRow).engaged ==> NothingBetween(old(partition.rows), old(lastRow.pos), upper)) ==>
        LearnedTo(u, old(partition.rows), partition.rows, upper)
    {
      hide Agrees, Wf, RangesOk, HasPos, Clear, Added, Marked, Learned, NothingBetween, LowerBound, Redundant;
      Idle(u, partition.rows, partition.mark);
      LastIsTop(partition.rows);
      var ok := EnsurePopulationLowerBound();
      if ok {
        AddEntry(Entry(upper, false, NoTomb, EmptyRow));
        MarkContinuous(upper, current);
        PopulatedLearns(u, old(partition.rows), Entry(upper, false, NoTomb, EmptyRow), current);
        LastIsTop(partition.rows);
        MaybeDropLastEntry(current, snp);
        if old(lastRow).engaged && snp.atLatest && NothingBetween(old(partition.rows), old(lastRow.pos), upper) {
          PopulatedThenDropped(u, old(partition.rows), old(lastRow.pos), upper, current);
        }
      }
    }

    /** Population at the end of a single-row read. */
    method PopulateEmptyRow(key: real)
      requires Base() && CursorOk() && Le(Bottom, K(key)) && Lt(K(key), Top)
      modifies partition`rows
      ensures partition.rows == WithEmptyRow(old(partition.rows), key)
      ensures if Agrees(u, partition.rows)
        then Base() && CursorOk() && Step(u, old(partition.rows), partition.mark, partition.rows, partition.mark)
        else Misstates(u, partition.rows, key)
    {
      hide Agrees, RangesOk, Misstates, WithEmptyRow;
      EmptyRowAgrees(u, partition.rows, key);
      partition.rows := WithEmptyRow(partition.rows, key);
    }

    /** Whether the next step ends a read of the underlying source. */
    predicate AtEndOfRead()
      reads `state, `unread
    {
      state == ReadingFromUnderlying && unread == []
    }

    /** Whether the cursor, brought up to date, is where it was. */
    predicate StaysPut()
      requires Wf(partition.rows) && Le(next.pos, Top)
      reads `next, partition
    {
      next.mark == partition.mark || NoRowBetweenWeak(next.pos, partition.rows[LowerBound(partition.rows, next.pos)].pos)
    }

    /** Whether the end of this read inserts an empty entry for a single-row range. */
    predicate InsertsEmptyRow(snp: Snapshot)
      requires Valid() && AtEndOfRead()
      reads this, partition
    {
      ranges[curr].Single? && snp.CanPopulate() && !hasRt && !nextInRange && StaysPut()
    }

    /** What the reader itself has passed on for a key: a row or a tombstone of its own stream, or, for a key not yet
        passed, the tombstone in force. */
    predicate SawSomething(key: real)
      reads `lower, `out, `current
    {
      if Lt(K(key), lower) then RowAt(out, key) != EmptyRow || TombAt(out, key) != NoTomb
      else current != NoTomb
    }

    /** The next turn inserts an entry without row and tombstone for a key at which the reader saw one of them. */
    predicate Forgets(snp: Snapshot)
      requires Valid()
      reads this, partition
    {
      && AtEndOfRead() && InsertsEmptyRow(snp)
      && !HasPos(partition.rows, K(ranges[curr].key)) && SawSomething(ranges[curr].key)
    }

    /** That is exactly when the entry is wrong. */
    lemma ForgetsExactly(snp: Snapshot)
      requires Valid() && AtEndOfRead() && ranges[curr].Single? && !nextInRange
      ensures var key := ranges[curr].key;
        && Le(Bottom, K(key)) && Lt(K(key), Top)
        && (Agrees(u, WithEmptyRow(partition.rows, key)) <==> HasPos(partition.rows, K(key)) || !SawSomething(key))
    {
      hide Agrees, Clear, HasPos, WithEmptyRow;
      RangeBounds(ranges, curr);
      var key := ranges[curr].key;
      EmptyRowAgrees(u, partition.rows, key);
      assert InRanges(ranges, key);
    }

    /** Everything up to the bound of the read has been delivered and emitted. */
    ghost predicate ReadFinished()
      reads this, partition
    {
      && Base() && CursorOk() && Progress() && CursorInRange() && LastRowOk() && (populatesFromStart ==> !lastRow.engaged)
      && state == ReadingFromCache && lower == Horizon() && Clear(u, PopulationStart(), Horizon(), current)
    }

    method FinishRead()
      requires Valid() && state == ReadingFromUnderlying && unread == []
      modifies this`state, this`lower
      ensures ReadFinished() && (old(AlonePopulating()) ==> AlonePopulating())
    {
      hide Agrees, Wf, Emitted, RangesOk, HasPos, Clear, Delivers, Ordered, Between, Remembered, NothingBetween;
      RangeBounds(ranges, curr);
      ghost var alone, start := AlonePopulating(), PopulationStart();
      NothingUnread(u, current, PopulationStart(), underlyingUpper);
      ClearWithin(u, PopulationStart(), underlyingUpper, lower, underlyingUpper, current);
      EmitNothing(u, ranges, curr, out, lower, underlyingUpper, current);
      ClearNothing(u, underlyingUpper, current);
      lower := underlyingUpper;
      state := ReadingFromCache;
      if alone {
        ClosedAlone(start);
      }
    }

    /** `partition_snapshot_row_cursor::maybe_refresh`: true if no row can lie between the old position
        and the new one. */
    method MaybeRefresh() returns (same: bool)
      requires Base() && CursorOk()
      modifies this`next
      ensures Base() && CursorOk() && next.mark == partition.mark && Le(old(next.pos), next.pos)
      ensures same == old(StaysPut()) && (old(next.mark) == partition.mark ==> next == old(next))
      ensures same ==> next.pos == old(next.pos) || (IsRow(next.pos) && old(next.pos) == BeforeKey(next.pos))
      ensures !same && next.cont ==> Clear(u, BeforeKey(old(next.pos)), next.pos, next.rt)
    {
      hide Agrees, Wf, RangesOk, HasPos, Clear;
      same := true;
      if next.mark != partition.mark {
        same := AdvanceTo(next.pos);
      }
    }

    /** The entry that bounded the read is gone: whatever follows it is read afresh or from the cache. */
    method ResumeAfterEviction(ghost bound: Pos)
      requires Base() && CursorOk() && Progress() && state == ReadingFromCache && Le(lower, next.pos)
      requires lower == upper || Le(BeforeKey(bound), lower)
      requires next.cont ==> Clear(u, BeforeKey(bound), next.pos, next.rt)
      modifies this`state, this`lastRow, this`nextInRange
      ensures Valid() && state in {ReadingFromCache, MoveToUnderlying}
    {
      hide Agrees, Wf, Emitted, RangesOk, HasPos, Clear;
      nextInRange := Lt(next.pos, upper);
      if !next.cont {
        lastRow := NoRef(lastRow);
        state := MoveToUnderlying;
      } else if lower != upper {
        ClearWithin(u, BeforeKey(bound), next.pos, lower, Horizon(), next.rt);
      }
    }

    /** Brings the cursor up to date at the end of a read. */
    method RefreshAfterRead() returns (same: bool)
      requires ReadFinished()
      modifies this`state, this`lastRow, this`next, this`nextInRange
      ensures next.mark == partition.mark && same == old(StaysPut()) && (old(next.mark) == partition.mark ==> next == old(next))
      ensures same ==> ReadFinished() && nextInRange == old(nextInRange)
      ensures old(next.mark) == partition.mark ==> same && unchanged(`state, `lastRow, `next, `nextInRange)
      ensures !same ==> Valid() && state in {ReadingFromCache, MoveToUnderlying} && old(next.mark) != partition.mark
    {
      hide Agrees, Wf, Emitted, RangesOk, HasPos, Clear;
      RangeBounds(ranges, curr);
      ghost var bound := next.pos;
      same := MaybeRefresh();
      if !same {
        ResumeAfterEviction(bound);
      }
    }

    /** Population has come to the end of the read, or there was nothing to populate. */
    lemma CameTo(rows: Rows, start: Pos, to: Pos)
      requires Wf(rows) && RangesOk(ranges) && curr < |ranges| && upper == ranges[curr].End() && !IsRow(upper)
      requires Remembered(ranges, rows, AfterKey(start)) && NothingBetween(rows, start, to)
      requires Le(Bottom, to) && Le(to, Top) && Le(start, to) && (Lt(to, upper) || to == upper)
      requires LearnedTo(u, rows, partition.rows, to)
      ensures Remembered(ranges, partition.rows, AfterKey(to)) && Keeps(rows, partition.rows)
    {
      hide Wf, RangesOk, Remembered, NothingBetween, Learned, Keeps, LowerBound;
      LastIsTop(rows);
      PredecessorAtMost(rows, start, to);
      LearnedKeeps(u, rows, partition.rows, Predecessor(rows, to), to);
      RememberedMore(u, ranges, rows, partition.rows, Predecessor(rows, to), start, to);
    }

    /** The end of a read before the next entry of the range. */
    method ContinueRange(snp: Snapshot)
      requires ReadFinished() && next.mark == partition.mark && nextInRange
      modifies this`lastRow, this`next, partition
      ensures Valid() && next.mark == partition.mark
      ensures old(Base() && CursorOk()) && CursorOk() && EntriesAhead() == old(EntriesAhead())
      ensures Step(u, old(partition.rows), old(partition.mark), partition.rows, partition.mark)
      ensures snp.CanPopulate() && old(AlonePopulating()) ==>
        && (Keeps(old(partition.rows), partition.rows) <==> !old(CanExtend() && TooMuch()))
        && (Keeps(old(partition.rows), partition.rows) ==> AloneInCache())
    {
      hide Agrees, Wf, Emitted, RangesOk, HasPos, Clear, Extends, Continued, Dropped, Ahead, Step;
      hide Remembered, NothingBetween, Keeps, LearnedTo, TooMuch, ContinuousAt;
      RangeBounds(ranges, curr);
      ghost var alone, start := AlonePopulating(), PopulationStart();
      KeepsItself(partition.rows);
      MaybeUpdateContinuity(snp);
      NothingBeforeKey(partition.rows, next.pos);
      if snp.CanPopulate() && alone {
        if old(CanExtend() && !TooMuch()) {
          CameTo(old(partition.rows), start, next.pos);
          RememberedLess(ranges, partition.rows, AfterKey(next.pos), lower);
        } else if !old(CanExtend()) {
          RememberedLess(ranges, partition.rows, AfterKey(start), lower);
        }
      }
    }

    method PopulateRangeEnd(snp: Snapshot)
      requires ReadFinished() && next.mark == partition.mark && !nextInRange
      modifies this`lastRow, this`next, partition
      ensures Wf(partition.rows)
      ensures ranges[curr].Single? && snp.CanPopulate() && !hasRt ==>
        Le(K(ranges[curr].key), Top) && old(Base()) && partition.rows == WithEmptyRow(old(partition.rows), ranges[curr].key)
      ensures if Agrees(u, partition.rows)
        then
          && Base() && CursorOk() && Clear(u, lower, upper, current)
          && Step(u, old(partition.rows), old(partition.mark), partition.rows, partition.mark)
        else ranges[curr].Single? && snp.CanPopulate() && !hasRt && Misstates(u, partition.rows, ranges[curr].key)
      ensures snp.CanPopulate() && old(AlonePopulating()) ==>
        Remembered(ranges, partition.rows, upper) && Keeps(old(partition.rows), partition.rows)
    {
      hide Agrees, Wf, Emitted, RangesOk, HasPos, Clear, Extends, Added, Marked, Dropped, WithEmptyRow, Misstates;
      hide Remembered, NothingBetween, Keeps, LearnedTo;
      RangeBounds(ranges, curr);
      Idle(u, partition.rows, partition.mark);
      ClearNothing(u, lower, current);
      KeepsItself(partition.rows);
      ghost var alone, start := AlonePopulating(), PopulationStart();
      if snp.CanPopulate() {
        if ranges[curr].Single? {
          if !hasRt {
            EmptyRowAgrees(u, partition.rows, ranges[curr].key);
            EmptyRowKeeps(partition.rows, ranges[curr].key);
            PopulateEmptyRow(ranges[curr].key);
          }
          if alone {
            RememberedKept(ranges, old(partition.rows), partition.rows, AfterKey(start));
            RememberedSingle(ranges, curr, partition.rows, AfterKey(start), upper);
          }
        } else {
          if alone {
            NothingBetweenLess(partition.rows, start, next.pos, start, upper);
          }
          PopulateUpperBound(snp);
          if alone {
            CameTo(old(partition.rows), start, upper);
          }
        }
      }
    }

    /** The end of a read that reaches the end of its range. */
    method EndRange(snp: Snapshot)
      requires ReadFinished() && next.mark == partition.mark && !nextInRange
      modifies this`state, this`curr, this`lower, this`upper, this`lastRow, this`next, this`nextInRange, partition
      modifies this`current, this`out
      ensures Le(ranges[old(curr)].Start(), Top) && old(Base())
      ensures Agrees(u, partition.rows) <==>
        ranges[old(curr)].Single? && snp.CanPopulate() && !hasRt ==>
          Agrees(u, WithEmptyRow(old(partition.rows), ranges[old(curr)].key))
      ensures Agrees(u, partition.rows) ==>
        && Valid() && state in {ReadingFromCache, MoveToUnderlying, EndOfStream} && curr == old(curr) + 1
        && (state != EndOfStream ==> next.mark == partition.mark)
        && Step(u, old(partition.rows), old(partition.mark), partition.rows, partition.mark)
        && (snp.CanPopulate() && old(AlonePopulating()) ==> Alone() && Keeps(old(partition.rows), partition.rows))
    {
      hide Agrees, Wf, Emitted, RangesOk, HasPos, Clear, WithEmptyRow, Step, Valid, CursorOk, LastRowOk;
      hide Remembered, Keeps, Alone, AlonePopulating;
      RangeBounds(ranges, curr);
      PopulateRangeEnd(snp);
      ghost var rows, mark := partition.rows, partition.mark;
      MoveToNextRange(snp);
      if Agrees(u, rows) {
        StepThenStep(u, old(partition.rows), old(partition.mark), rows, mark, partition.rows, partition.mark);
        if snp.CanPopulate() && old(AlonePopulating()) {
          KeepsTransitive(old(partition.rows), rows, partition.rows);
        }
      } else {
        MisstatesDisagrees(u, partition.rows, ranges[old(curr)].key);
      }
    }

    /** The next turn, in its haste to drop a dummy, makes the interval before it unknown. */
    predicate Unlearns(snp: Snapshot)
      reads this, partition
    {
      AtEndOfRead() && nextInRange && snp.CanPopulate() && CanExtend() && TooMuch()
    }

    /** The end-of-stream continuation of `read_from_underlying`. */
    method UnderlyingDone(snp: Snapshot)
      requires Valid() && AtEndOfRead()
      modifies this`state, this`curr, this`lower, this`upper, this`lastRow, this`next, this`nextInRange, partition
      modifies this`current, this`out
      ensures Agrees(u, partition.rows) <==> !old(Forgets(snp))
      ensures Agrees(u, partition.rows) ==>
        && Valid() && state in {ReadingFromCache, MoveToUnderlying, EndOfStream}
        && (state != EndOfStream ==> next.mark == partition.mark)
        && Step(u, old(partition.rows), old(partition.mark), partition.rows, partition.mark)
        && Nearer(ToGo(), old(ToGo()))
        && (snp.CanPopulate() && old(Alone()) ==>
          && (Keeps(old(partition.rows), partition.rows) <==> !old(Unlearns(snp)))
          && (Keeps(old(partition.rows), partition.rows) ==> Alone()))
    {
      hide Agrees, Wf, Emitted, RangesOk, HasPos, Clear, Delivers, Ordered, Between, WithEmptyRow, Ahead, Step, Lt, Le;
      hide SawSomething, StaysPut, LastRowOk, CursorInRange;
      hide Keeps, AloneInCache, AloneAtMiss, TooMuch, Remembered, NothingBetween;
      Idle(u, partition.rows, partition.mark);
      if ranges[curr].Single? && !nextInRange {
        ForgetsExactly(snp);
      }
      FinishRead();
      var samePos := RefreshAfterRead();
      if samePos {
        if nextInRange {
          ContinueRange(snp);
        } else {
          EndRange(snp);
        }
      }
    }

    // ------------------------------------------------------------------ one step of the reader

    /** `fill_buffer` on a fresh reader, for a schema without static columns. */
    method Start(snp: Snapshot)
      requires Valid() && state == BeforeStaticRow
      modifies this, partition
      ensures Valid() && state != BeforeStaticRow && unchanged(`out, `current, `hasRt) && partition.mark == old(partition.mark)
      ensures Step(u, old(partition.rows), old(partition.mark), partition.rows, partition.mark)
      ensures ranges == [] ==> state == EndOfStream
      ensures old(Valid()) && ranges != [] ==>
        && RangesOk(ranges) && Le(ranges[0].Start(), Top) && curr == 0 && lower == ranges[0].Start()
        && upper == ranges[0].End() && nextInRange == Lt(next.pos, upper)
        && next == CursorAt(old(partition.rows), LowerBound(old(partition.rows), lower), partition.mark)
        && state == (if Misses(old(partition.rows), lower) then MoveToUnderlying else ReadingFromCache)
        && (ranges[0].Single? ==> !lastRow.engaged) && partition.rows == Entered(old(partition.rows), ranges[0], snp)
      ensures snp.CanPopulate() && old(Alone()) ==> Alone() && Keeps(old(partition.rows), partition.rows)
    {
      hide Agrees, Wf, RangesOk, HasPos, Extends, Remembered, Keeps, AloneInCache, AloneAtMiss;
      Idle(u, partition.rows, partition.mark);
      KeepsItself(partition.rows);
      NothingEmitted(u, ranges);
      RememberedNothing(ranges, partition.rows);
      LastIsTop(partition.rows);
      if |ranges| == 0 {
        state := EndOfStream;
      } else {
        RangeBounds(ranges, 0);
        state := ReadingFromCache;
        MoveToRange(0, snp);
      }
    }

    /** The `reading_from_cache` branch of `do_fill_buffer`; `budget` bounds the entries copied before
        the reader yields. */
    method ReadFromCache(snp: Snapshot, budget: nat)
      requires Valid() && state == ReadingFromCache
      modifies this`state, this`curr, this`lower, this`upper, this`lastRow, this`next, this`nextInRange, partition
      modifies this`current, this`out
      ensures Valid() && state in {ReadingFromCache, MoveToUnderlying, EndOfStream}
      ensures Step(u, old(partition.rows), old(partition.mark), partition.rows, partition.mark)
      ensures Nearer(ToGo(), old(ToGo()))
      ensures snp.CanPopulate() && old(Alone()) ==> Alone() && Keeps(old(partition.rows), partition.rows)
    {
      hide Agrees, Wf, Emitted, RangesOk, HasPos, Clear, Extends, Step, Ahead, Nearer, Keeps;
      hide Remembered, NothingBetween, AloneAtMiss, AlonePopulating, ContinuousAt;
      RangeBounds(ranges, curr);
      Idle(u, partition.rows, partition.mark);
      KeepsItself(partition.rows);
      if next.mark != partition.mark {
        Reposition();
      }
      var copied := 0;
      while state == ReadingFromCache && copied <= budget
        invariant Valid() && state in {ReadingFromCache, MoveToUnderlying, EndOfStream}
        invariant state != EndOfStream ==> next.mark == partition.mark
        invariant Step(u, old(partition.rows), old(partition.mark), partition.rows, partition.mark)
        invariant snp.CanPopulate() && old(Alone()) ==> Alone() && Keeps(old(partition.rows), partition.rows)
        invariant Nearer(ToGo(), old(ToGo())) || (state == ReadingFromCache && copied == 0 && ToGo() == old(ToGo()))
        decreases budget - copied
      {
        ghost var rows, mark, toGo := partition.rows, partition.mark, ToGo();
        CopyFromCacheToBuffer(snp);
        if snp.CanPopulate() && old(Alone()) {
          KeepsTransitive(old(partition.rows), rows, partition.rows);
        }
        if copied > 0 || toGo != old(ToGo()) {
          NearerTransitive(ToGo(), toGo, old(ToGo()));
        }
        StepThenStep(u, old(partition.rows), old(partition.mark), rows, mark, partition.rows, partition.mark);
        copied := copied + 1;
      }
    }

    /** Looks the next entry up again after the cursor was invalidated. */
    method Reposition()
      requires Valid() && state == ReadingFromCache
      modifies this`state, this`lastRow, this`next, this`nextInRange
      ensures Valid() && state in {ReadingFromCache, MoveToUnderlying} && next.mark == partition.mark
      ensures state == MoveToUnderlying <==> Misses(partition.rows, lower)
      ensures old(next.mark) != partition.mark ==> Nearer(ToGo(), old(ToGo()))
    {
      hide Agrees, Wf, Emitted, RangesOk, HasPos, Clear, Ahead;
      RangeBounds(ranges, curr);
      var adjacent := AdvanceTo(lower);
      nextInRange := Lt(next.pos, upper);
      if !adjacent && !next.cont {
        lastRow := NoRef(lastRow);
        state := MoveToUnderlying;
      } else if next.cont {
        ClearWithin(u, BeforeKey(lower), next.pos, lower, Horizon(), next.rt);
      }
    }

    lemma Formed()
      requires Valid()
      ensures Wf(partition.rows)
    {
    }

    /** One turn of the reader between two points where it may be preempted; `stream` is used when the
        turn forwards the underlying reader. */
    method DoFillBuffer(stream: Stream, snp: Snapshot, budget: nat)
      requires Valid()
      requires state == MoveToUnderlying ==> IsRead(u, stream, lower, Horizon())
      modifies this, partition
      ensures Agrees(u, partition.rows) <==> !old(Forgets(snp))
      ensures Agrees(u, partition.rows) ==>
        Valid() && Step(u, old(partition.rows), old(partition.mark), partition.rows, partition.mark)
      ensures Agrees(u, partition.rows) && old(state) != EndOfStream ==> Nearer(ToGo(), old(ToGo()))
      ensures old(state) == EndOfStream ==> out == old(out) && state == EndOfStream
      ensures Agrees(u, partition.rows) && snp.CanPopulate() && old(Alone()) ==>
        && (Keeps(old(partition.rows), partition.rows) <==> !old(Unlearns(snp)))
        && (Keeps(old(partition.rows), partition.rows) ==> Alone())
    {
      hide Agrees, Wf, Emitted, RangesOk, HasPos, Extends, Step, CursorOk, CursorInRange, Progress, UnderlyingOk, LastRowOk;
      hide Keeps, AloneInCache, AloneAtMiss, AlonePopulating, Remembered;
      Idle(u, partition.rows, partition.mark);
      Formed();
      KeepsItself(partition.rows);
      match state
      case BeforeStaticRow => Start(snp);
      case MoveToUnderlying =>
        MoveToUnderlyingSource(stream);
        if old(Alone()) {
          ForwardedAlone();
        }
      case ReadingFromUnderlying =>
        if unread == [] {
          UnderlyingDone(snp);
        } else if unread[0].ClusteringRow? {
          OfferRow(snp);
        } else {
          OfferChange(snp);
        }
      case ReadingFromCache => ReadFromCache(snp, budget);
      case EndOfStream =>
    }

    /** Nothing that others do to the rows between two turns can upset this reader. */
    twostate lemma Stable()
      requires old(Valid()) && unchanged(this)
      requires Step(u, old(partition.rows), old(partition.mark), partition.rows, partition.mark)
      ensures Valid()
    {
    }
  }

  // -------------------------------------------------------------------- whole runs

  /** What happens next: a turn of some reader, the eviction of some entry, or anything that invalidates iterators
      without changing the rows. */
  datatype Action = Turn(reader: Reader, snp: Snapshot, budget: nat) | Eviction(entry: nat) | Invalidation

  /** Readers of one partition, over one source. */
  ghost predicate Together(readers: set<Reader>, partition: Partition, u: Source)
    reads readers, partition
  {
    && Wf(partition.rows) && Agrees(u, partition.rows)
    && (forall r :: r in readers ==> r.partition == partition && r.u == u && r.Valid())
  }

  /** The underlying reader answers every request for a range with the source's contents there. */
  ghost predicate Answers(u: Source, underlying: (nat, Pos, Pos) -> Stream) {
    forall n, a, b :: Le(a, b) ==> IsRead(u, underlying(n, a, b), a, b)
  }

  /** One turn of one reader. */
  method TakeTurn(readers: set<Reader>, partition: Partition, ghost u: Source, reader: Reader, stream: Stream,
                  snp: Snapshot, budget: nat)
    requires Together(readers, partition, u) && reader in readers
    requires reader.state == MoveToUnderlying ==> IsRead(u, stream, reader.lower, reader.Horizon())
    modifies reader, partition
    ensures Agrees(u, partition.rows) <==> !old(reader.Forgets(snp))
    ensures Agrees(u, partition.rows) ==> Together(readers, partition, u)
  {
    hide Agrees, Wf, Reader.Valid, Reader.Forgets, IsRead;
    reader.DoFillBuffer(stream, snp, budget);
    if Agrees(u, partition.rows) {
      forall r | r in readers && r != reader ensures r.Valid() {
        r.Stable();
      }
    }
  }

  /** The eviction of one entry. */
  method TakeEviction(readers: set<Reader>, partition: Partition, ghost u: Source, i: nat)
    requires Together(readers, partition, u) && i < |partition.rows|
    modifies partition
    ensures Together(readers, partition, u)
    ensures partition.rows == Evict(old(partition.rows), i)
  {
    hide Agrees, Wf, Reader.Valid;
    Evicted(u, partition.rows, i, partition.mark);
    partition.rows := Evict(partition.rows, i);
    partition.mark := partition.mark + 1;
    forall r | r in readers ensures r.Valid() {
      r.Stable();
    }
  }

  /** Iterators are invalidated without a change to the rows. */
  method TakeInvalidation(readers: set<Reader>, partition: Partition, ghost u: Source)
    requires Together(readers, partition, u)
    modifies partition
    ensures Together(readers, partition, u)
    ensures partition.rows == old(partition.rows) && partition.mark > old(partition.mark)
  {
    hide Agrees, Wf, Reader.Valid;
    partition.mark := partition.mark + 1;
    forall r | r in readers ensures r.Valid() {
      r.Stable();
    }
  }

  lemma Evicted(u: Source, rows: Rows, i: nat, mark: nat)
    requires Wf(rows) && Agrees(u, rows) && i < |rows|
    ensures Step(u, rows, mark, Evict(rows, i), mark + 1)
  {
    EvictAgrees(u, rows, i);
    EvictShape(rows, i);
  }

  /** What is known of a reader from its invariant alone. */
  lemma ReaderFacts(reader: Reader)
    requires reader.Valid()
    ensures Wf(reader.partition.rows) && Agrees(reader.u, reader.partition.rows)
    ensures reader.state == MoveToUnderlying ==> Le(reader.lower, reader.Horizon())
    ensures reader.state == EndOfStream ==> Exact(reader.u, reader.ranges, reader.out)
  {
    if reader.state == EndOfStream {
      EmittedAll(reader.u, reader.ranges, reader.out);
    }
  }

  lemma AllExact(readers: set<Reader>, partition: Partition, u: Source)
    requires Together(readers, partition, u)
    ensures forall r :: r in readers && r.state == EndOfStream ==> Exact(u, r.ranges, r.out)
  {
    hide Reader.Valid, Exact;
    forall r | r in readers && r.state == EndOfStream ensures Exact(u, r.ranges, r.out) {
      ReaderFacts(r);
    }
  }

  /** Any number of readers of one partition, interleaved in any order with each other, with evictions and with other
      invalidations, keep the cache in agreement with the source, and each reader that reaches its end has emitted the
      source's contents exactly.  The run is cut short only before a turn that forgets what the reader saw. */
  method Run(readers: set<Reader>, partition: Partition, ghost u: Source, underlying: (nat, Pos, Pos) -> Stream,
             actions: seq<Action>)
    returns (done: nat)
    requires Together(readers, partition, u) && Answers(u, underlying)
    modifies readers, partition
    ensures Together(readers, partition, u) && done <= |actions|
    ensures forall r :: r in readers && r.state == EndOfStream ==> Exact(u, r.ranges, r.out)
    ensures done < |actions| ==> actions[done].Turn? && actions[done].reader in readers && actions[done].reader.Forgets(actions[done].snp)
  {
    hide Agrees, Wf, Reader.Valid, Step, IsRead, Exact, Reader.Forgets, Reader.Horizon;
    done := 0;
    while done < |actions|
      invariant Together(readers, partition, u) && done <= |actions|
    {
      match actions[done] {
        case Turn(reader, snp, budget) =>
          if reader in readers {
            ReaderFacts(reader);
            if reader.Forgets(snp) {
              AllExact(readers, partition, u);
              return;
            }
            TakeTurn(readers, partition, u, reader, underlying(done, reader.lower, reader.Horizon()), snp, budget);
          }
        case Eviction(i) =>
          if i < |partition.rows| {
            TakeEviction(readers, partition, u, i);
          }
        case Invalidation =>
          TakeInvalidation(readers, partition, u);
      }
      done := done + 1;
    }
    AllExact(readers, partition, u);
  }

  /** A reader left alone reaches its end, whatever the snapshot does, wherever it is preempted and however the source
      divides its answers; it has then emitted the source's contents exactly.  Only a turn that forgets stops it. */
  method ReadAll(reader: Reader, underlying: (nat, Pos, Pos) -> Stream, snps: nat -> Snapshot, budgets: nat -> nat)
    returns (turns: nat)
    requires reader.Valid() && Answers(reader.u, underlying)
    modifies reader, reader.partition
    ensures reader.Valid()
    ensures if reader.state == EndOfStream then Exact(reader.u, reader.ranges, reader.out) else reader.Forgets(snps(turns))
  {
    hide Agrees, Wf, Reader.Valid, Step, IsRead, Exact, Reader.Forgets, Reader.Horizon, Reader.ToGo;
    turns := 0;
    while reader.state != EndOfStream && !reader.Forgets(snps(turns))
      invariant reader.Valid()
      decreases reader.ToGo().ranges, reader.ToGo().stale, reader.ToGo().entries, reader.ToGo().phase, reader.ToGo().unread
    {
      ReaderFacts(reader);
      reader.DoFillBuffer(underlying(turns, reader.lower, reader.Horizon()), snps(turns), budgets(turns));
      turns := turns + 1;
    }
    ReaderFacts(reader);
  }

  /** A fresh reader left alone that can populate on every turn leaves every key of its ranges known when it reaches its
      end, single rows apart.  Only a turn that forgets what the reader saw, or one that drops a dummy too many, stops it. */
  method PopulateAll(reader: Reader, underlying: (nat, Pos, Pos) -> Stream, budgets: nat -> nat)
    requires reader.Valid() && reader.state == BeforeStaticRow && reader.Alone() && Answers(reader.u, underlying)
    modifies reader, reader.partition
    ensures reader.Valid()
    ensures if reader.state == EndOfStream
      then forall r: real | IsKey(r) && InSpans(reader.ranges, r) ::
        KnownAt(reader.partition.rows, r) == Known(reader.u.row(r), reader.u.tomb(r))
      else reader.Forgets(Snapshot(true, true)) || reader.Unlearns(Snapshot(true, true))
  {
    hide Agrees, Wf, Reader.Valid, Step, IsRead, Exact, Reader.Forgets, Reader.Unlearns, Reader.Horizon, Reader.ToGo, Reader.Alone, Keeps;
    var turns, snp := 0, Snapshot(true, true);
    while reader.state != EndOfStream && !reader.Forgets(snp) && !reader.Unlearns(snp)
      invariant reader.Valid() && reader.Alone()
      decreases reader.ToGo().ranges, reader.ToGo().stale, reader.ToGo().entries, reader.ToGo().phase, reader.ToGo().unread
    {
      ReaderFacts(reader);
      reader.DoFillBuffer(underlying(turns, reader.lower, reader.Horizon()), snp, budgets(turns));
      turns := turns + 1;
    }
    if reader.state == EndOfStream {
      AllKnown(reader);
    }
  }

  lemma AllKnown(reader: Reader)
    requires reader.Valid() && reader.state == EndOfStream && reader.Alone()
    ensures Wf(reader.partition.rows)
    ensures forall r: real | IsKey(r) && InSpans(reader.ranges, r) ::
      KnownAt(reader.partition.rows, r) == Known(reader.u.row(r), reader.u.tomb(r))
  {
    hide Agrees, Emitted, InSpans;
    forall r: real | IsKey(r) && InSpans(reader.ranges, r)
      ensures KnownAt(reader.partition.rows, r) == Known(reader.u.row(r), reader.u.tomb(r))
    {
      Sound(reader.u, reader.partition.rows, r);
    }
  }

  // -------------------------------------------------------------------- when single-row reads go wrong

  /** The whole partition is deleted with `t`; the cache knows this up to key 0.5, exclusive. */
  function DeletedBelow(t: Tombstone): Rows {
    [Entry(Pos(0.5, -1), true, t, EmptyRow), Entry(Top, false, NoTomb, EmptyRow)]
  }

  function Deleted(t: Tombstone): Source { Source(r => EmptyRow, r => t) }

  function DeletionOfOne(t: Tombstone): Stream {
    [RangeTombstoneChange(Pos(0.5, -1), t), RangeTombstoneChange(Pos(0.5, 1), NoTomb)]
  }

  lemma DeletedFacts(t: Tombstone)
    ensures Wf(DeletedBelow(t)) && Agrees(Deleted(t), DeletedBelow(t)) && RangesOk([Single(0.5)])
    ensures LowerBound(DeletedBelow(t), Pos(0.5, -1)) == 0 && !Misses(DeletedBelow(t), Pos(0.5, -1))
    ensures !HasPos(DeletedBelow(t), K(0.5))
    ensures IsRead(Deleted(t), DeletionOfOne(t), Pos(0.5, -1), Pos(0.5, 1))
  {
    var s := DeletionOfOne(t);
    forall r: real | Lt(Pos(0.5, -1), K(r)) && Lt(K(r), Pos(0.5, 1))
      ensures RowAhead(s, r) == EmptyRow && TombAhead(s, NoTomb, r) == t
    {
      assert s[1..] == [s[1]] && s[1..][1..] == [];
      assert TombAhead(s[1..][1..], t, r) == t && RowAhead(s[1..][1..], r) == EmptyRow;
    }
  }

  /** At the end of a single-row read whose cursor stayed put, a wrong entry is one that forgets. */
  lemma WrongEntryForgets(reader: Reader, snp: Snapshot, key: real)
    requires reader.Valid() && reader.AtEndOfRead() && reader.curr == 0 && reader.ranges == [Single(key)]
    requires snp.CanPopulate() && !reader.hasRt && !reader.nextInRange && reader.StaysPut()
    requires Le(K(key), Top) && !Agrees(reader.u, WithEmptyRow(reader.partition.rows, key))
    ensures reader.Forgets(snp)
  {
    hide Agrees, WithEmptyRow, Wf, HasPos;
    reader.ForgetsExactly(snp);
  }

  /** The read up to the point where it asks the source. */
  method EnterDeleted(t: Tombstone) returns (reader: Reader)
    requires t != NoTomb
    ensures fresh(reader) && fresh(reader.partition) && reader.Valid() && reader.state == MoveToUnderlying
    ensures reader.u == Deleted(t) && reader.ranges == [Single(0.5)] && reader.curr == 0
    ensures reader.partition.rows == DeletedBelow(t) && reader.lower == Pos(0.5, -1) && reader.current == t
    ensures !reader.hasRt && !reader.nextInRange && reader.upper == Pos(0.5, 1) && reader.next.mark == reader.partition.mark
  {
    hide Reader.Alone, Reader.AlonePopulating, Reader.CursorOk, Reader.Base, Keeps, Remembered, Learned, LearnedTo;
    hide Agrees, Wf, Emitted, RangesOk, HasPos, Clear, Step, LowerBound, Misses, IsRead;
    DeletedFacts(t);
    var snp := Snapshot(true, true);
    var partition := new Partition(DeletedBelow(t));
    reader := new Reader(partition, [Single(0.5)], Deleted(t));
    reader.Start(snp);
    reader.EnterInterval();
    reader.EmitEntry();
    reader.MoveToNextEntry(snp);
  }

  /** A single-row read of a deleted key that enters with the key's tombstone already in force: the
      change from the source is swallowed, so the reader believes there is no tombstone and is about
      to insert an entry that says so. */
  method ForgetsTombstone(t: Tombstone) returns (reader: Reader)
    requires t != NoTomb
    ensures fresh(reader) && reader.Valid() && reader.AtEndOfRead()
    ensures reader.Forgets(Snapshot(true, true))
    ensures reader.partition.rows == DeletedBelow(t) && !Agrees(reader.u, WithEmptyRow(DeletedBelow(t), 0.5))
  {
    hide Reader.Alone, Reader.AlonePopulating, Reader.CursorOk, Reader.Base, Keeps, Remembered, Learned, LearnedTo;
    hide Agrees, Wf, Emitted, RangesOk, HasPos, Clear, Step, LowerBound, IsRead, Reader.Valid;
    DeletedFacts(t);
    EmptyRowAgrees(Deleted(t), DeletedBelow(t), 0.5);
    reader := EnterDeleted(t);
    reader.MoveToUnderlyingSource(DeletionOfOne(t));
    assert reader.underlyingUpper == Pos(0.5, 1) by { ReadBound(reader); }
    reader.OfferChange(Snapshot(true, true));
    reader.OfferChange(Snapshot(true, true));
    WrongEntryForgets(reader, Snapshot(true, true), 0.5);
  }

  lemma ReadBound(reader: Reader)
    requires reader.Valid() && reader.state == ReadingFromUnderlying
    ensures reader.underlyingUpper == reader.Horizon()
  {
  }

  function OneRow(row: Row): Source { Source(r => if r == 0.5 then row else EmptyRow, r => NoTomb) }

  function Nothing(): Rows { [Entry(Top, false, NoTomb, EmptyRow)] }

  lemma OneRowFacts(row: Row)
    ensures Wf(Nothing()) && Agrees(OneRow(row), Nothing()) && RangesOk([Single(0.5)])
    ensures LowerBound(Nothing(), Pos(0.5, -1)) == 0 && Misses(Nothing(), Pos(0.5, -1)) && !HasPos(Nothing(), K(0.5))
    ensures IsRead(OneRow(row), [ClusteringRow(0.5, row)], Pos(0.5, -1), Pos(0.5, 1))
    ensures Evict(Added(Nothing(), Entry(K(0.5), false, NoTomb, row)), 0) == Nothing()
    ensures Evict(Marked(Added(Nothing(), Entry(K(0.5), false, NoTomb, row)), K(0.5), NoTomb), 0) == Nothing()
  {
    assert LowerBound(Nothing(), K(0.5)) == 0;
    forall r: real | Lt(Pos(0.5, -1), K(r)) && Lt(K(r), Pos(0.5, 1))
      ensures RowAhead([ClusteringRow(0.5, row)], r) == row && TombAhead([ClusteringRow(0.5, row)], NoTomb, r) == NoTomb
    {
      assert r == 0.5;
    }
  }

  /** The read up to the point where the row has been taken over. */
  method ReadOneRow(row: Row) returns (reader: Reader)
    ensures fresh(reader) && fresh(reader.partition) && reader.Valid() && reader.AtEndOfRead()
    ensures reader.u == OneRow(row) && reader.ranges == [Single(0.5)] && reader.curr == 0
    ensures reader.partition.rows == Marked(Added(Nothing(), Entry(K(0.5), false, NoTomb, row)), K(0.5), NoTomb)
      || reader.partition.rows == Added(Nothing(), Entry(K(0.5), false, NoTomb, row))
    ensures reader.next.pos == Top && !reader.hasRt && !reader.nextInRange
  {
    hide Reader.Alone, Reader.AlonePopulating, Reader.CursorOk, Reader.Base, Keeps, Remembered, Learned, LearnedTo;
    hide Agrees, Wf, Emitted, RangesOk, HasPos, Clear, Step, LowerBound, Misses, IsRead, Reader.Valid, Added, Marked;
    OneRowFacts(row);
    var snp := Snapshot(true, true);
    var partition := new Partition(Nothing());
    reader := new Reader(partition, [Single(0.5)], OneRow(row));
    reader.Start(snp);
    reader.MoveToUnderlyingSource([ClusteringRow(0.5, row)]);
    reader.OfferRow(snp);
  }

  /** A single-row read whose row is evicted again before the read ends leaves an empty entry behind. */
  method ForgetsRow(row: Row) returns (reader: Reader)
    requires row != EmptyRow
    ensures fresh(reader) && reader.Valid() && reader.AtEndOfRead()
    ensures reader.Forgets(Snapshot(true, true))
    ensures reader.partition.rows == Nothing() && !Agrees(reader.u, WithEmptyRow(Nothing(), 0.5))
  {
    hide Agrees, Wf, HasPos, Step, LowerBound, Misses, IsRead, Reader.Valid, Added, Marked, Evict, Reader.Forgets, WithEmptyRow;
    OneRowFacts(row);
    EmptyRowAgrees(OneRow(row), Nothing(), 0.5);
    reader := ReadOneRow(row);
    ReaderFacts(reader);
    TakeEviction({reader}, reader.partition, OneRow(row), 0);
    WrongEntryForgets(reader, Snapshot(true, true), 0.5);
  }

  // -------------------------------------------------------------------- when a dummy too many is dropped

  /** One row with a tombstone of its own; the cache knows the row, and that nothing comes before it. */
  function KnownBefore(row: Row, t: Tombstone): Rows {
    [Entry(Pos(0.5, -1), true, NoTomb, EmptyRow), Entry(K(0.5), false, t, row), Entry(Top, false, NoTomb, EmptyRow)]
  }

  function RowDeleted(row: Row, t: Tombstone): Source {
    Source(r => if r == 0.5 then row else EmptyRow, r => if r == 0.5 then t else NoTomb)
  }

  lemma KnownBeforeFacts(row: Row, t: Tombstone)
    ensures var rows := KnownBefore(row, t);
      && Wf(rows) && Agrees(RowDeleted(row, t), rows) && RangesOk([Span(Bottom, Top)])
      && LowerBound(rows, Bottom) == 0 && LowerBound(rows, Pos(0.5, -1)) == 0 && LowerBound(rows, K(0.5)) == 1
      && !Misses(rows, Bottom) && HasPos(rows, Pos(0.5, -1)) && HasPos(rows, K(0.5)) && Following(rows, Pos(0.5, -1)) == 1
      && KnownAt(rows, 0.25) == Known(EmptyRow, NoTomb)
      && NothingBetween(rows, Pos(0.5, -1), K(0.5)) && Remembered([Span(Bottom, Top)], rows, Pos(0.5, -1))
    ensures IsRead(RowDeleted(row, t), [], Pos(0.5, -1), Pos(0.5, -1))
  {
    var rows := KnownBefore(row, t);
    PlaceOf(rows, Bottom, 0);
    PlaceOf(rows, Pos(0.5, -1), 0);
    PlaceOf(rows, K(0.5), 1);
    FoundAtLowerBound(rows, Pos(0.5, -1));
    FoundAtLowerBound(rows, K(0.5));
    forall r: real | IsKey(r) && Lt(K(r), Pos(0.5, -1)) ensures KnownAt(rows, r) == Known(EmptyRow, NoTomb) {
      LookupAt(rows, 0, r);
    }
  }

  /** A scan of the partition up to the miss between the dummy and the row. */
  method MeetsDummy(row: Row, t: Tombstone) returns (reader: Reader)
    ensures fresh(reader) && fresh(reader.partition) && reader.Valid() && reader.state == MoveToUnderlying
    ensures reader.u == RowDeleted(row, t) && reader.ranges == [Span(Bottom, Top)] && reader.curr == 0
    ensures reader.partition.rows == KnownBefore(row, t) && reader.lower == Pos(0.5, -1) && reader.current == NoTomb
    ensures reader.nextInRange && reader.next == CursorAt(KnownBefore(row, t), 1, reader.partition.mark)
    ensures reader.lastRow == Ref(Pos(0.5, -1), reader.partition.mark)
  {
    hide Agrees, Wf, Emitted, RangesOk, HasPos, Clear, Step, LowerBound, Misses, Following, Keeps, Remembered, NothingBetween, KnownAt;
    hide Reader.Alone;
    KnownBeforeFacts(row, t);
    var snp := Snapshot(true, true);
    var partition := new Partition(KnownBefore(row, t));
    reader := new Reader(partition, [Span(Bottom, Top)], RowDeleted(row, t));
    reader.Start(snp);
    reader.EnterInterval();
    reader.EmitEntry();
    reader.MoveToNextEntry(snp);
  }

  /** Once the read between them has found nothing, the next turn makes the interval before the dummy unknown. */
  method UnlearnsInterval(row: Row, t: Tombstone) returns (reader: Reader)
    requires t != NoTomb
    ensures fresh(reader) && reader.Valid()
    ensures KnownAt(KnownBefore(row, t), 0.25) == Known(EmptyRow, NoTomb) && !Keeps(KnownBefore(row, t), reader.partition.rows)
  {
    hide Agrees, Wf, Emitted, RangesOk, HasPos, Clear, Step, LowerBound, Keeps, Remembered, Reader.Valid, IsRead, KnownAt, NothingBetween;
    KnownBeforeFacts(row, t);
    reader := MeetsDummy(row, t);
    reader.MoveToUnderlyingSource([]);
    reader.UnderlyingDone(Snapshot(true, true));
  }
}
