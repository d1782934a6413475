/** Turning counter updates into shards of the local replica. */
module CounterUpdates {
  import opened Basics
  import opened Combine
  import opened AtomicCells
  import opened Counters

  datatype Slot = Slot(column: int, cell: Cell)
  datatype Row = Row(key: int, cells: seq<Slot>)
  datatype Mutation = Mutation(staticRow: seq<Slot>, rows: seq<Row>)

  const Column := (s: Slot) => s.column
  const Key := (r: Row) => r.key

  /** The replica making the update and the offset it adds to logical clocks. */
  datatype Local = Local(id: int, offset: nat) {
    ghost predicate Valid() { offset + 1 < 0x8000_0000_0000_0000 }
  }

  /** The cell is a pending update or a deletion. */
  predicate Pending(c: Cell) { !c.Live? }

  ghost predicate PendingRow(cells: seq<Slot>) {
    Sorted(cells, Column) && forall s :: s in cells ==> Pending(s.cell)
  }

  ghost predicate StateRow(cells: seq<Slot>, local: Local) {
    Sorted(cells, Column) && forall s :: s in cells ==> StateCell(s.cell, local)
  }

  /** The current state holds no pending updates, and the local clock has room to grow. */
  ghost predicate StateCell(c: Cell, local: Local) {
    && !c.Update? && WellFormed(c)
    && (c.Live? ==> forall x :: x in c.shards && x.id == local.id ==>
      x.clock + local.offset + 1 < 0x8000_0000_0000_0000)
  }

  /** `get_shard` of a live cell. */
  function OwnShard(c: Option<Cell>, local: Local): Option<Shard> {
    if c.Some? && c.value.Live? then Find(c.value.shards, Id, local.id) else None
  }

  ghost predicate Room(c: Option<Cell>, local: Local) {
    local.Valid() && (c.Some? ==> StateCell(c.value, local))
  }

  /** What becomes of one cell, given what the state holds for its row and column. */
  function Transformed(c: Cell, state: Option<Cell>, local: Local): Cell
    requires Room(state, local)
  {
    if !c.Update? then c
    else match OwnShard(state, local)
      case None => Live(c.timestamp, [Shard(local.id, c.delta, local.offset + 1)])
      case Some(s) => Live(c.timestamp, [Shard(local.id, Wrap(s.value + c.delta), s.clock + local.offset + 1)])
  }

  function CellAt(cells: seq<Slot>, column: int): Option<Cell> {
    match Find(cells, Column, column) case None => None case Some(s) => Some(s.cell)
  }

  lemma StateAt(cells: seq<Slot>, column: int, local: Local)
    requires StateRow(cells, local) && local.Valid()
    ensures Room(CellAt(cells, column), local)
  {
  }

  /** An entry of the queue of `transform_row_to_shards`. */
  datatype Queued = Queued(column: int, shard: Shard)

  const QueuedColumn := (q: Queued) => q.column

  function ShardAt(queue: seq<Queued>, column: int): Option<Shard> {
    match Find(queue, QueuedColumn, column) case None => None case Some(q) => Some(q.shard)
  }

  ghost predicate Queue(queue: seq<Queued>, state: seq<Slot>, local: Local) {
    && Sorted(queue, QueuedColumn)
    && (forall q :: q in queue ==> exists s :: s in state && s.column == q.column)
    && forall c :: ShardAt(queue, c) == OwnShard(CellAt(state, c), local)
  }

  /** The own shards of the state's live cells, by column. */
  method CollectShards(state: seq<Slot>, local: Local) returns (queue: seq<Queued>)
    requires Sorted(state, Column)
    ensures Queue(queue, state, local)
  {
    hide Queue, Find, Sorted;
    queue := [];
    EmptyQueue(local);
    for n := 0 to |state|
      invariant Queue(queue, state[..n], local)
    {
      QueueGrows(queue, state, n, local);
      var own := OwnShard(Some(state[n].cell), local);
      if own.Some? {
        queue := queue + [Queued(state[n].column, own.value)];
      }
    }
    assert state[..|state|] == state;
  }

  lemma EmptyQueue(local: Local)
    ensures Queue([], [], local)
  {
  }

  lemma QueueGrows(queue: seq<Queued>, state: seq<Slot>, n: nat, local: Local)
    requires Sorted(state, Column) && n < |state| && Queue(queue, state[..n], local)
    ensures var own := OwnShard(Some(state[n].cell), local);
      Queue(if own.Some? then queue + [Queued(state[n].column, own.value)] else queue, state[..n + 1], local)
  {
    hide Find;
    var own := OwnShard(Some(state[n].cell), local);
    var queue' := if own.Some? then queue + [Queued(state[n].column, own.value)] else queue;
    assert state[..n + 1] == state[..n] + [state[n]];
    assert forall s :: s in state[..n] ==> s in state[..n + 1] && s.column < state[n].column;
    assert state[n] in state[..n + 1];
    forall c ensures ShardAt(queue', c) == OwnShard(CellAt(state[..n + 1], c), local) {
      FindAppend(state[..n], state[n], Column, c);
      assert ShardAt(queue, c) == OwnShard(CellAt(state[..n], c), local);
      if own.Some? {
        FindAppend(queue, Queued(state[n].column, own.value), QueuedColumn, c);
      }
    }
  }

  /** The queue still knows the own shard of every column from `from` on. */
  ghost predicate Ahead(queue: seq<Queued>, state: seq<Slot>, local: Local, from: int) {
    && Sorted(queue, QueuedColumn)
    && forall c :: c >= from ==> ShardAt(queue, c) == OwnShard(CellAt(state, c), local)
  }

  lemma AheadFurther(queue: seq<Queued>, state: seq<Slot>, local: Local, from: int, from': int)
    requires Ahead(queue, state, local, from) && from <= from'
    ensures Ahead(queue, state, local, from')
  {
  }

  ghost predicate IsTransformed(out: Slot, slot: Slot, state: seq<Slot>, local: Local) {
    && Room(CellAt(state, slot.column), local)
    && out == Slot(slot.column, Transformed(slot.cell, CellAt(state, slot.column), local))
  }

  /** One cell of the row. */
  method TransformCell(queue: seq<Queued>, slot: Slot, ghost state: seq<Slot>, local: Local)
    returns (out: Slot, rest: seq<Queued>)
    requires Pending(slot.cell) && StateRow(state, local) && local.Valid() && Ahead(queue, state, local, slot.column)
    ensures IsTransformed(out, slot, state, local) && Ahead(rest, state, local, slot.column + 1)
  {
    var Slot(column, cell) := slot;
    StateAt(state, column, local);
    rest := queue;
    if cell.Update? {
      rest := PopBelow(rest, column);
      assert ShardAt(rest, column) == OwnShard(CellAt(state, column), local);
      if rest == [] || rest[0].column > column {
        NothingAt(rest, column);
        cell := Live(cell.timestamp, [Shard(local.id, cell.delta, local.offset + 1)]);
      } else {
        var s := rest[0].shard;
        cell := Live(cell.timestamp, [Shard(local.id, Wrap(s.value + cell.delta), s.clock + local.offset + 1)]);
        Popped(rest);
        rest := rest[1..];
      }
    }
    out := Slot(column, cell);
  }

  /** `transform_row_to_shards`: one pass over the row, with the queue as a cursor into the state. */
  method TransformRow(cells: seq<Slot>, state: seq<Slot>, local: Local) returns (out: seq<Slot>)
    requires PendingRow(cells) && StateRow(state, local) && local.Valid()
    ensures |out| == |cells| && forall i :: 0 <= i < |cells| ==> IsTransformed(out[i], cells[i], state, local)
  {
    hide IsTransformed, Ahead, Queue;
    var queue := CollectShards(state, local);
    out := [];
    if cells == [] {
      return;
    }
    AheadOfAll(queue, state, local, cells[0].column);
    for n := 0 to |cells|
      invariant |out| == n && (n < |cells| ==> Ahead(queue, state, local, cells[n].column))
      invariant forall i :: 0 <= i < n ==> IsTransformed(out[i], cells[i], state, local)
    {
      var slot;
      slot, queue := TransformCell(queue, cells[n], state, local);
      out := out + [slot];
      if n + 1 < |cells| {
        AheadFurther(queue, state, local, cells[n].column + 1, cells[n + 1].column);
      }
    }
  }

  lemma AheadOfAll(queue: seq<Queued>, state: seq<Slot>, local: Local, from: int)
    requires Queue(queue, state, local)
    ensures Ahead(queue, state, local, from)
  {
  }

  method PopBelow(queue: seq<Queued>, column: int) returns (rest: seq<Queued>)
    requires Sorted(queue, QueuedColumn)
    ensures Sorted(rest, QueuedColumn) && (rest != [] ==> rest[0].column >= column)
    ensures forall c :: c >= column ==> ShardAt(rest, c) == ShardAt(queue, c)
  {
    rest := queue;
    while rest != [] && rest[0].column < column
      invariant Sorted(rest, QueuedColumn)
      invariant forall c :: c >= column ==> ShardAt(rest, c) == ShardAt(queue, c)
    {
      Popped(rest);
      rest := rest[1..];
    }
  }

  lemma Popped(queue: seq<Queued>)
    requires Sorted(queue, QueuedColumn) && queue != []
    ensures Sorted(queue[1..], QueuedColumn)
    ensures forall c :: c > queue[0].column ==> ShardAt(queue[1..], c) == ShardAt(queue, c)
  {
    SortedTail(queue, QueuedColumn);
  }

  lemma NothingAt(queue: seq<Queued>, column: int)
    requires Sorted(queue, QueuedColumn) && (queue != [] ==> queue[0].column > column)
    ensures ShardAt(queue, column) == None
  {
    if queue != [] {
      SortedTail(queue, QueuedColumn);
    }
  }

  /** `transform_new_row_to_shards`. */
  method TransformNewRow(cells: seq<Slot>, local: Local) returns (out: seq<Slot>)
    requires PendingRow(cells) && local.Valid()
    ensures |out| == |cells|
    ensures forall i :: 0 <= i < |cells| ==> out[i] == Slot(cells[i].column, Transformed(cells[i].cell, None, local))
  {
    out := [];
    for n := 0 to |cells|
      invariant |out| == n
      invariant forall i :: 0 <= i < n ==> out[i] == Slot(cells[i].column, Transformed(cells[i].cell, None, local))
    {
      var Slot(column, cell) := cells[n];
      if cell.Update? {
        cell := Live(cell.timestamp, [Shard(local.id, cell.delta, local.offset + 1)]);
      }
      out := out + [Slot(column, cell)];
    }
  }

  // ---------------------------------------------------------------- whole mutations

  function RowAt(rows: seq<Row>, key: int): seq<Slot> {
    match Find(rows, Key, key) case None => [] case Some(r) => r.cells
  }

  ghost predicate PendingMutation(m: Mutation) {
    PendingRow(m.staticRow) && Sorted(m.rows, Key) && forall r :: r in m.rows ==> PendingRow(r.cells)
  }

  ghost predicate StateMutation(m: Mutation, local: Local) {
    StateRow(m.staticRow, local) && Sorted(m.rows, Key) && forall r :: r in m.rows ==> StateRow(r.cells, local)
  }

  ghost predicate RowTransformed(out: seq<Slot>, cells: seq<Slot>, state: seq<Slot>, local: Local) {
    |out| == |cells| && forall i :: 0 <= i < |cells| ==> IsTransformed(out[i], cells[i], state, local)
  }

  ghost predicate IsTransform(out: Mutation, m: Mutation, state: Mutation, local: Local) {
    && RowTransformed(out.staticRow, m.staticRow, state.staticRow, local)
    && |out.rows| == |m.rows|
    && forall i :: 0 <= i < |m.rows| ==>
      out.rows[i].key == m.rows[i].key &&
      RowTransformed(out.rows[i].cells, m.rows[i].cells, RowAt(state.rows, m.rows[i].key), local)
  }

  /** `transform_counter_updates_to_shards`: every cell of the mutation, wherever it stands, is
      transformed against the state's cell in the same row and column. */
  method Transform(m: Mutation, current: Option<Mutation>, local: Local) returns (out: Mutation)
    requires PendingMutation(m) && local.Valid()
    requires current.Some? ==> StateMutation(current.value, local)
    ensures IsTransform(out, m, if current.Some? then current.value else Mutation([], []), local)
  {
    hide RowTransformed;
    if current.None? {
      var fixed := TransformNew(m.staticRow, local);
      var rows: seq<Row> := [];
      for n := 0 to |m.rows|
        invariant |rows| == n
        invariant forall i :: 0 <= i < n ==>
          rows[i].key == m.rows[i].key && RowTransformed(rows[i].cells, m.rows[i].cells, [], local)
      {
        var cells := TransformNew(m.rows[n].cells, local);
        rows := rows + [Row(m.rows[n].key, cells)];
      }
      return Mutation(fixed, rows);
    }
    var state := current.value;
    var fixed := TransformExisting(m.staticRow, state.staticRow, local);
    var rows := TransformRows(m.rows, state.rows, local);
    out := Mutation(fixed, rows);
  }

  method TransformNew(cells: seq<Slot>, local: Local) returns (out: seq<Slot>)
    requires PendingRow(cells) && local.Valid()
    ensures RowTransformed(out, cells, [], local)
  {
    out := TransformNewRow(cells, local);
  }

  method TransformExisting(cells: seq<Slot>, state: seq<Slot>, local: Local) returns (out: seq<Slot>)
    requires PendingRow(cells) && StateRow(state, local) && local.Valid()
    ensures RowTransformed(out, cells, state, local)
  {
    out := TransformRow(cells, state, local);
  }

  /** The loop over clustering rows, with a cursor into the state's rows. */
  method TransformRows(rows: seq<Row>, state: seq<Row>, local: Local) returns (out: seq<Row>)
    requires Sorted(rows, Key) && (forall r :: r in rows ==> PendingRow(r.cells))
    requires Sorted(state, Key) && (forall r :: r in state ==> StateRow(r.cells, local)) && local.Valid()
    ensures |out| == |rows|
    ensures forall i :: 0 <= i < |rows| ==>
      out[i].key == rows[i].key && RowTransformed(out[i].cells, rows[i].cells, RowAt(state, rows[i].key), local)
  {
    hide RowTransformed, PendingRow, StateRow, Find;
    out := [];
    var j := 0;
    for n := 0 to |rows|
      invariant |out| == n && j <= |state|
      invariant n < |rows| ==> forall x :: 0 <= x < j ==> state[x].key < rows[n].key
      invariant forall i :: 0 <= i < n ==>
        out[i].key == rows[i].key && RowTransformed(out[i].cells, rows[i].cells, RowAt(state, rows[i].key), local)
    {
      var key := rows[n].key;
      while j < |state| && state[j].key < key
        invariant j <= |state| && forall x :: 0 <= x < j ==> state[x].key < key
      {
        j := j + 1;
      }
      RowAtCursor(state, j, key);
      var cells;
      if j == |state| || key < state[j].key {
        cells := TransformNew(rows[n].cells, local);
      } else {
        cells := TransformExisting(rows[n].cells, state[j].cells, local);
      }
      out := out + [Row(key, cells)];
    }
  }

  lemma {:induction false} RowAtCursor(state: seq<Row>, j: nat, key: int)
    requires Sorted(state, Key) && j <= |state|
    requires (forall x :: 0 <= x < j ==> state[x].key < key) && (j < |state| ==> state[j].key >= key)
    ensures RowAt(state, key) == if j < |state| && state[j].key == key then state[j].cells else []
  {
    if state != [] {
      SortedTail(state, Key);
      if j > 0 {
        RowAtCursor(state[1..], j - 1, key);
      }
    }
  }

  // ---------------------------------------------------------------- the effect of an update

  function Sum(s: seq<Shard>): int {
    if s == [] then 0 else s[0].value + Sum(s[1..])
  }

  /** `total_value`, in 64-bit arithmetic. */
  function TotalValue(s: seq<Shard>): Int64 { Wrap(Sum(s)) }

  lemma {:induction false} SumMergedOne(a: seq<Shard>, t: Shard)
    requires Ordered(a) && (forall x :: x in a && x.id == t.id ==> x.clock < t.clock)
    ensures Sum(Merged(a, [t])) ==
      Sum(a) + t.value - match Find(a, Id, t.id) case None => 0 case Some(was) => was.value
  {
    if a != [] {
      SortedTail(a, Id);
      if a[0].id < t.id {
        assert Merged(a, [t]) == [a[0]] + Merged(a[1..], [t]);
        SumMergedOne(a[1..], t);
      } else if t.id < a[0].id {
        assert [t][1..] == [] && Merged(a, []) == a;
        assert Merged(a, [t]) == [t] + a;
      } else {
        assert [t][1..] == [] && Merged(a[1..], []) == a[1..];
        assert Merged(a, [t]) == [t] + a[1..];
      }
    }
  }

  lemma WrapSum(x: int, v: int, delta: int)
    ensures Wrap(x + Wrap(v + delta) - v) == Wrap(x + delta)
  {
    var k := (v + delta + 0x8000_0000_0000_0000) / TWO64;
    assert Wrap(v + delta) == v + delta - k * TWO64;
    WrapPeriod(x + delta, -k);
  }

  lemma WrapPeriod(x: int, k: int)
    ensures Wrap(x + k * TWO64) == Wrap(x)
  {
    var y := x + 0x8000_0000_0000_0000;
    assert (y + k * TWO64) % TWO64 == y % TWO64;
  }

  /** What a transformed update consists of. */
  lemma OneShard(current: Cell, update: Cell, local: Local)
    requires Room(Some(current), local) && current.Live? && update.Update?
    ensures var t, own := Transformed(update, Some(current), local), Find(current.shards, Id, local.id);
      && t.Live? && |t.shards| == 1 && t.shards[0].id == local.id
      && (forall x :: x in current.shards && x.id == local.id ==> x.clock < t.shards[0].clock)
      && t.shards[0].value == if own.Some? then Wrap(own.value.value + update.delta) else update.delta
  {
    hide Find, Wrap;
    forall x | x in current.shards && x.id == local.id ensures Find(current.shards, Id, local.id) == Some(x) {
      FoundIn(current.shards, x, Id);
    }
  }

  lemma FindOne(x: Shard, id: int)
    ensures Find([x], Id, id) == if x.id == id then Some(x) else None
  {
    assert [x][1..] == [];
  }

  /** Applying a transformed update to the live cell it was made against adds exactly its delta to the
      counter's value, moves the local clock strictly forward, and leaves every other shard alone. */
  lemma UpdateAddsDelta(current: Cell, update: Cell, local: Local)
    requires Room(Some(current), local) && current.Live? && update.Update?
    ensures var t := Transformed(update, Some(current), local);
      && t.Live? && Applied(current, t).Live?
      && TotalValue(Applied(current, t).shards) == Wrap(TotalValue(current.shards) + update.delta)
      && (forall id :: id != local.id ==>
        Find(Applied(current, t).shards, Id, id) == Find(current.shards, Id, id))
      && (var before, after := Find(current.shards, Id, local.id), Find(Applied(current, t).shards, Id, local.id);
          after.Some? && (before.Some? ==> before.value.clock < after.value.clock))
  {
    hide Find, Combined, Wrap, Sum, Transformed;
    OneShard(current, update, local);
    var shard := Transformed(update, Some(current), local).shards[0];
    assert Transformed(update, Some(current), local).shards == [shard];
    forall id ensures Find(Merged(current.shards, [shard]), Id, id) ==
      PickOpt(Find(current.shards, Id, id), if shard.id == id then Some(shard) else None, Newer)
    {
      FindOne(shard, id);
      MergedLookup(current.shards, [shard], id);
    }
    SumMergedOne(current.shards, shard);
    var own := Find(current.shards, Id, local.id);
    if own.Some? {
      WrapSum(Sum(current.shards), own.value.value, update.delta);
    }
    WrapInner(Sum(current.shards), update.delta);
  }

  /** Two updates applied to each other before they are transformed count for both. */
  lemma UpdatesAddDeltas(current: Cell, a: Cell, b: Cell, local: Local)
    requires Room(Some(current), local) && current.Live? && a.Update? && b.Update?
    ensures var t := Transformed(Applied(a, b), Some(current), local);
      && t.Live? && Applied(current, t).Live?
      && TotalValue(Applied(current, t).shards) == Wrap(TotalValue(current.shards) + a.delta + b.delta)
  {
    hide Wrap, TotalValue, Transformed;
    var both := Applied(a, b);
    UpdatesAddUp(a, b, a);
    UpdateAddsDelta(current, both, local);
    WrapInner(a.delta + b.delta, TotalValue(current.shards));
  }

  /** A transformed update has one shard, of the local replica, and keeps its timestamp.  The clock goes up by one and
      the offset, from that of the shard it replaces, or from nothing. */
  lemma TransformedShard(update: Cell, state: Option<Cell>, local: Local)
    requires Room(state, local) && update.Update?
    ensures var t := Transformed(update, state, local);
      && t.Live? && t.timestamp == update.timestamp && |t.shards| == 1 && t.shards[0].id == local.id
    ensures var shard, own := Transformed(update, state, local).shards[0], OwnShard(state, local);
      shard.clock - (if own.Some? then own.value.clock else 0) == local.offset + 1
  {
  }

  // ---------------------------------------------------------------- the effect of a whole mutation

  /** The state's cell with another one applied to it; a state never holds updates, nor does what is applied. */
  const JoinSlots := (x: Slot, y: Slot) =>
    if x.cell.Update? || y.cell.Update? then x else Slot(x.column, Applied(x.cell, y.cell))

  function AppliedRow(a: seq<Slot>, b: seq<Slot>): seq<Slot> {
    Combined(a, b, Column, JoinSlots)
  }

  const JoinRows := (x: Row, y: Row) => Row(x.key, AppliedRow(x.cells, y.cells))

  /** A mutation applied to the state: rows by key, cells by column. */
  function AppliedMutation(state: Mutation, m: Mutation): Mutation {
    Mutation(AppliedRow(state.staticRow, m.staticRow), Combined(state.rows, m.rows, Key, JoinRows))
  }

  lemma {:induction false} TransformedLookup(out: seq<Slot>, cells: seq<Slot>, state: seq<Slot>, local: Local, column: int)
    requires RowTransformed(out, cells, state, local)
    ensures match CellAt(cells, column)
      case None => CellAt(out, column) == None
      case Some(c) => Room(CellAt(state, column), local) && CellAt(out, column) == Some(Transformed(c, CellAt(state, column), local))
  {
    if cells != [] {
      assert IsTransformed(out[0], cells[0], state, local);
      if cells[0].column != column {
        TransformedLookup(out[1..], cells[1..], state, local, column);
      }
    }
  }

  lemma TransformedSorted(out: seq<Slot>, cells: seq<Slot>, state: seq<Slot>, local: Local)
    requires RowTransformed(out, cells, state, local) && Sorted(cells, Column)
    ensures Sorted(out, Column)
  {
    assert forall i :: 0 <= i < |cells| ==> Column(out[i]) == Column(cells[i]);
  }

  lemma AppliedRowLookup(a: seq<Slot>, b: seq<Slot>, column: int)
    requires Sorted(a, Column) && Sorted(b, Column)
    ensures var x, y := CellAt(a, column), CellAt(b, column);
      CellAt(AppliedRow(a, b), column) ==
        if x.None? then y else if y.None? || x.value.Update? || y.value.Update? then x else Some(Applied(x.value, y.value))
  {
    CombinedLookup(a, b, Column, JoinSlots, column);
  }

  /** What applying the transformed row does to every column of the state's row. */
  ghost predicate Updated(before: Option<Cell>, change: Option<Cell>, after: Option<Cell>) {
    match change
    case None => after == before
    case Some(c) =>
      if c.Update? then
        match before
        case None => after.Some? && after.value.Live? && TotalValue(after.value.shards) == c.delta
        case Some(b) =>
          if b.Live? then
            && after.Some? && after.value.Live?
            && TotalValue(after.value.shards) == Wrap(TotalValue(b.shards) + c.delta)
          else after == before
      else
        match before
        case None => after == change
        case Some(b) => !b.Update? && c.Dead? && after == Some(Applied(b, c))
  }

  lemma RowUpdated(out: seq<Slot>, cells: seq<Slot>, state: seq<Slot>, local: Local, column: int)
    requires PendingRow(cells) && StateRow(state, local) && local.Valid() && RowTransformed(out, cells, state, local)
    ensures Updated(CellAt(state, column), CellAt(cells, column), CellAt(AppliedRow(state, out), column))
  {
    hide Combined, Sum, Wrap;
    StateAt(state, column, local);
    TransformedLookup(out, cells, state, local, column);
    TransformedSorted(out, cells, state, local);
    AppliedRowLookup(state, out, column);
    var before, change := CellAt(state, column), CellAt(cells, column);
    if change.Some? && change.value.Update? {
      if before.Some? && before.value.Live? {
        UpdateAddsDelta(before.value, change.value, local);
      } else {
        FirstTotal(Shard(local.id, change.value.delta, local.offset + 1));
      }
    }
  }

  lemma FirstTotal(x: Shard)
    ensures TotalValue([x]) == x.value
  {
    assert [x][1..] == [] && Sum([x]) == x.value;
    assert 0 <= x.value + 0x8000_0000_0000_0000 < TWO64;
  }

  lemma {:induction false} RowOfTransformed(out: seq<Row>, rows: seq<Row>, state: seq<Row>, local: Local, key: int)
    requires Sorted(rows, Key) && |out| == |rows|
    requires forall i :: 0 <= i < |rows| ==>
      out[i].key == rows[i].key && RowTransformed(out[i].cells, rows[i].cells, RowAt(state, rows[i].key), local)
    ensures RowTransformed(RowAt(out, key), RowAt(rows, key), RowAt(state, key), local)
  {
    hide RowTransformed;
    if rows == [] {
      NothingTransformed(RowAt(state, key), local);
    } else if rows[0].key != key {
      SortedTail(rows, Key);
      RowOfTransformed(out[1..], rows[1..], state, local, key);
    }
  }

  lemma NothingTransformed(state: seq<Slot>, local: Local)
    ensures RowTransformed([], [], state, local)
  {
  }

  lemma AppliedRowsLookup(a: seq<Row>, b: seq<Row>, key: int)
    requires Sorted(a, Key) && Sorted(b, Key)
    ensures RowAt(Combined(a, b, Key, JoinRows), key) == AppliedRow(RowAt(a, key), RowAt(b, key))
  {
    CombinedLookup(a, b, Key, JoinRows, key);
    assert AppliedRow([], RowAt(b, key)) == RowAt(b, key);
  }

  /** The whole effect of a counter write: applied to the state it was made against, the transformed mutation adds every
      delta to the counter it is for, starts the counters that were not there, leaves deleted ones deleted, carries the
      deletions over and touches nothing else. */
  lemma MutationAddsDeltas(m: Mutation, state: Mutation, out: Mutation, local: Local, key: int, column: int)
    requires PendingMutation(m) && StateMutation(state, local) && local.Valid() && IsTransform(out, m, state, local)
    ensures var after := AppliedMutation(state, out);
      && Updated(CellAt(state.staticRow, column), CellAt(m.staticRow, column), CellAt(after.staticRow, column))
      && Updated(CellAt(RowAt(state.rows, key), column), CellAt(RowAt(m.rows, key), column), CellAt(RowAt(after.rows, key), column))
  {
    hide Combined, RowTransformed, Updated, CellAt;
    RowUpdated(out.staticRow, m.staticRow, state.staticRow, local, column);
    RowOfTransformed(out.rows, m.rows, state.rows, local, key);
    assert forall i :: 0 <= i < |m.rows| ==> Key(out.rows[i]) == Key(m.rows[i]);
    AppliedRowsLookup(state.rows, out.rows, key);
    RowUpdated(RowAt(out.rows, key), RowAt(m.rows, key), RowAt(state.rows, key), local, column);
  }
}
