/** Locking the cells of a mutation: the state of the locker, its steps, and what every run of them keeps. */
module CellLocking {
  import opened Basics

  // ---------------------------------------------------------------- the state

  datatype Address = Address(partition: int, row: real, column: nat)

  /** The order in which an operation takes its cells. */
  predicate Less(a: Address, b: Address) {
    a.row < b.row || (a.row == b.row && a.column < b.column)
  }

  ghost predicate Ascending(s: seq<Address>) {
    forall i, j :: 0 <= i < j < |s| ==> Less(s[i], s[j])
  }

  type OpId = int

  /** `cell_entry`: the units of its semaphore, the operations queued on it, and the shared pointers to it. */
  datatype Cell = Cell(units: nat, waiters: seq<OpId>, refs: nat)

  /** Where an operation stands: taking cells; queued on a cell; woken with the cell's unit but not yet
      resumed; timed out but not yet unwound; holding what it locked. */
  datatype Phase = Running | Waiting | Granted | Failing | Done

  /** A `locker` and the `locked_cell`s it produced. `next` cells of the request have been dealt with; the
      last of them is the one the operation waits for, if it does. */
  datatype Op = Op(partition: int, request: seq<Address>, next: nat, held: seq<Address>, phase: Phase) {
    predicate AtTarget() {
      phase.Waiting? || phase.Granted? || phase.Failing?
    }

    ghost predicate Valid() {
      && Ascending(request) && next <= |request|
      && (forall a :: a in request || a in held ==> a.partition == partition)
      && (phase.Running? ==> held == request[..next])
      && (AtTarget() ==> next > 0 && held == request[..next - 1])
      && (forall i, j :: 0 <= i < j < |held| ==> held[i] != held[j])
    }

    ghost predicate Targets(a: Address) {
      AtTarget() && 0 < next <= |request| && a == request[next - 1]
    }

    /** Whether the operation has a pointer to the cell, and whether it has the cell's unit. */
    ghost predicate Refers(a: Address) {
      a in held || Targets(a)
    }

    ghost predicate Owns(a: Address) {
      a in held || (phase.Granted? && Targets(a))
    }
  }

  /** The linked cells, the `_cell_count` of every linked partition, `_partition_count`, and the operations. */
  datatype State = State(cells: map<Address, Cell>, counts: map<int, nat>, partitions: nat, ops: map<OpId, Op>)

  const Empty := State(map[], map[], 0, map[])

  ghost function Owners(ops: map<OpId, Op>, a: Address): set<OpId> {
    set o | o in ops && ops[o].Owns(a)
  }

  ghost function Referrers(ops: map<OpId, Op>, a: Address): set<OpId> {
    set o | o in ops && ops[o].Refers(a)
  }

  ghost predicate WaitsFor(ops: map<OpId, Op>, o: OpId, a: Address) {
    o in ops && ops[o].phase.Waiting? && ops[o].Targets(a)
  }

  ghost function CellsOf(cells: set<Address>, k: int): set<Address> {
    set a | a in cells && a.partition == k
  }

  // ---------------------------------------------------------------- the invariant

  /** The semaphore's units and the holders make one; pointers and queue are those of the operations. */
  ghost predicate Accounted(ops: map<OpId, Op>, a: Address, cell: Cell) {
    && cell.units + |Owners(ops, a)| == 1
    && cell.refs == |Referrers(ops, a)|
    && (forall i, j :: 0 <= i < j < |cell.waiters| ==> cell.waiters[i] != cell.waiters[j])
    && (forall o :: o in cell.waiters <==> WaitsFor(ops, o, a))
  }

  /** A linked cell is pointed to, and a free unit is not kept from a waiting operation. */
  predicate Settled(cell: Cell) {
    cell.refs > 0 && (cell.units > 0 ==> cell.waiters == [])
  }

  /** `_cell_count` is the number of linked cells of the partition, and no linked partition is empty. */
  ghost predicate Counted(cells: set<Address>, counts: map<int, nat>, partitions: nat) {
    && (forall k :: k in counts ==> counts[k] == |CellsOf(cells, k)| && counts[k] > 0)
    && (forall a :: a in cells ==> a.partition in counts)
    && partitions == |counts|
  }

  ghost predicate OpsValid(s: State) {
    && (forall o :: o in s.ops ==> s.ops[o].Valid())
    && (forall o, a :: o in s.ops && s.ops[o].Refers(a) ==> a in s.cells)
  }

  ghost predicate CellsValid(s: State) {
    forall a :: a in s.cells ==> Accounted(s.ops, a, s.cells[a]) && Settled(s.cells[a])
  }

  ghost predicate Inv(s: State) {
    OpsValid(s) && CellsValid(s) && Counted(s.cells.Keys, s.counts, s.partitions)
  }

  // ---------------------------------------------------------------- steps

  /** An operation starts, with the cells of its mutation. */
  function Begun(s: State, o: OpId, k: int, request: seq<Address>): State {
    s.(ops := s.ops[o := Op(k, request, 0, [], Running)])
  }

  /** The next cell is not linked: a new one is, owned by the operation. */
  function Inserted(s: State, o: OpId): State
    requires o in s.ops && s.ops[o].next < |s.ops[o].request|
  {
    var op := s.ops[o];
    var a := op.request[op.next];
    var unlinked := op.partition !in s.counts;
    State(s.cells[a := Cell(0, [], 1)],
          s.counts[op.partition := if unlinked then 1 else s.counts[op.partition] + 1],
          if unlinked then s.partitions + 1 else s.partitions,
          s.ops[o := op.(next := op.next + 1, held := op.held + [a])])
  }

  /** The next cell is linked: its semaphore is waited on. */
  function Waited(s: State, o: OpId): State
    requires o in s.ops && s.ops[o].next < |s.ops[o].request| && s.ops[o].request[s.ops[o].next] in s.cells
  {
    var op := s.ops[o];
    var a := op.request[op.next];
    var cell := s.cells[a];
    if cell.units > 0 && cell.waiters == [] then
      s.(cells := s.cells[a := Cell(cell.units - 1, [], cell.refs + 1)],
         ops := s.ops[o := op.(next := op.next + 1, phase := Granted)])
    else
      s.(cells := s.cells[a := Cell(cell.units, cell.waiters + [o], cell.refs + 1)],
         ops := s.ops[o := op.(next := op.next + 1, phase := Waiting)])
  }

  /** A woken operation takes the cell into its locks. */
  function Taken(s: State, o: OpId): State
    requires o in s.ops && s.ops[o].next > 0 && s.ops[o].next <= |s.ops[o].request|
  {
    var op := s.ops[o];
    s.(ops := s.ops[o := op.(held := op.held + [op.request[op.next - 1]], phase := Running)])
  }

  function Finished(s: State, o: OpId): State
    requires o in s.ops
  {
    s.(ops := s.ops[o := s.ops[o].(phase := Done)])
  }

  /** The wait times out: the operation leaves the queue but still has a pointer to the cell. */
  function Expired(s: State, o: OpId): State
    requires o in s.ops && 0 < s.ops[o].next <= |s.ops[o].request| && s.ops[o].request[s.ops[o].next - 1] in s.cells
  {
    var op := s.ops[o];
    var a := op.request[op.next - 1];
    s.(cells := s.cells[a := s.cells[a].(waiters := Without(s.cells[a].waiters, o))],
       ops := s.ops[o := op.(phase := Failing)])
  }

  function Without<T(==,!new)>(s: seq<T>, x: T): (r: seq<T>)
    ensures forall y :: y in r <==> y in s && y != x
  {
    if s == [] then [] else if s[0] == x then Without(s[1..], x) else [s[0]] + Without(s[1..], x)
  }

  predicate CanUnrefer(s: State, a: Address) {
    && a in s.cells && s.cells[a].refs > 0
    && a.partition in s.counts && s.counts[a.partition] > 0 && s.partitions > 0
  }

  /** A pointer to the cell goes away; the last one takes the cell with it, and the last cell its partition. */
  function Unreferred(s: State, a: Address): State
    requires CanUnrefer(s, a)
  {
    var cell := s.cells[a];
    var k := a.partition;
    if cell.refs > 1 then s.(cells := s.cells[a := cell.(refs := cell.refs - 1)])
    else if s.counts[k] > 1 then s.(cells := s.cells - {a}, counts := s.counts[k := s.counts[k] - 1])
    else s.(cells := s.cells - {a}, counts := s.counts - {k}, partitions := s.partitions - 1)
  }

  /** The semaphore is signalled: the first in the queue, if any, gets the unit. */
  function Signalled(s: State, a: Address): State
    requires a in s.cells && forall o :: o in s.cells[a].waiters ==> o in s.ops
  {
    var cell := s.cells[a];
    if cell.waiters == [] then s.(cells := s.cells[a := cell.(units := cell.units + 1)])
    else
      var first := cell.waiters[0];
      s.(cells := s.cells[a := cell.(waiters := cell.waiters[1..])], ops := s.ops[first := s.ops[first].(phase := Granted)])
  }

  // ---------------------------------------------------------------- accounting of one cell

  ghost predicate SameFor(p: Op, q: Op, a: Address) {
    && p.Owns(a) == q.Owns(a) && p.Refers(a) == q.Refers(a)
    && (p.phase.Waiting? && p.Targets(a) <==> q.phase.Waiting? && q.Targets(a))
  }

  lemma Unaffected(ops: map<OpId, Op>, o: OpId, op: Op, a: Address, cell: Cell)
    requires Accounted(ops, a, cell)
    requires if o in ops then SameFor(ops[o], op, a) else !op.Refers(a)
    ensures Accounted(ops[o := op], a, cell)
  {
    assert Owners(ops[o := op], a) == Owners(ops, a);
    assert Referrers(ops[o := op], a) == Referrers(ops, a);
  }

  /** A new cell is owned by the operation that made it and by nobody else. */
  lemma AccountNew(ops: map<OpId, Op>, o: OpId, op: Op, a: Address)
    requires op.Owns(a) && !op.phase.Waiting?
    requires forall p :: p in ops && p != o ==> !ops[p].Refers(a)
    ensures Accounted(ops[o := op], a, Cell(0, [], 1))
  {
    assert Owners(ops[o := op], a) == {o};
    assert Referrers(ops[o := op], a) == {o};
  }

  lemma AccountGranted(ops: map<OpId, Op>, o: OpId, op: Op, a: Address, cell: Cell)
    requires Accounted(ops, a, cell) && cell.units > 0
    requires o in ops && !ops[o].Refers(a) && op.Owns(a) && !op.phase.Waiting?
    ensures Accounted(ops[o := op], a, Cell(cell.units - 1, cell.waiters, cell.refs + 1))
  {
    assert Owners(ops[o := op], a) == Owners(ops, a) + {o};
    assert Referrers(ops[o := op], a) == Referrers(ops, a) + {o};
  }

  lemma AccountQueued(ops: map<OpId, Op>, o: OpId, op: Op, a: Address, cell: Cell)
    requires Accounted(ops, a, cell)
    requires o in ops && !ops[o].Refers(a) && op.phase.Waiting? && op.Targets(a) && !op.Owns(a)
    ensures Accounted(ops[o := op], a, Cell(cell.units, cell.waiters + [o], cell.refs + 1))
  {
    assert Owners(ops[o := op], a) == Owners(ops, a);
    assert Referrers(ops[o := op], a) == Referrers(ops, a) + {o};
    assert !WaitsFor(ops, o, a);
  }

  lemma AccountExpired(ops: map<OpId, Op>, o: OpId, op: Op, a: Address, cell: Cell)
    requires Accounted(ops, a, cell)
    requires WaitsFor(ops, o, a) && !ops[o].Owns(a) && op.phase.Failing? && op.Targets(a) && !op.Owns(a)
    ensures Accounted(ops[o := op], a, cell.(waiters := Without(cell.waiters, o)))
  {
    assert Owners(ops[o := op], a) == Owners(ops, a);
    assert Referrers(ops[o := op], a) == Referrers(ops, a);
    WithoutDistinct(cell.waiters, o);
  }

  lemma {:induction false} WithoutDistinct<T(!new)>(s: seq<T>, x: T)
    requires forall i, j :: 0 <= i < j < |s| ==> s[i] != s[j]
    ensures forall i, j :: 0 <= i < j < |Without(s, x)| ==> Without(s, x)[i] != Without(s, x)[j]
  {
    if s != [] {
      WithoutDistinct(s[1..], x);
      assert s[0] !in s[1..];
      assert s[0] !in Without(s[1..], x);
    }
  }

  /** The holder lets go: its unit is to be signalled and its pointer to be dropped. */
  lemma AccountDropped(ops: map<OpId, Op>, o: OpId, op: Op, a: Address, cell: Cell)
    requires Accounted(ops, a, cell)
    requires o in ops && ops[o].Owns(a) && !op.Refers(a) && !ops[o].phase.Waiting?
    ensures cell.units == 0 && cell.refs > 0
    ensures Accounted(ops[o := op], a, Cell(1, cell.waiters, cell.refs - 1))
  {
    assert o in Owners(ops, a) && o in Referrers(ops, a);
    assert Owners(ops[o := op], a) == Owners(ops, a) - {o};
    assert Referrers(ops[o := op], a) == Referrers(ops, a) - {o};
  }

  /** A timed out operation lets go of the cell it waited for. */
  lemma AccountAbandoned(ops: map<OpId, Op>, o: OpId, op: Op, a: Address, cell: Cell)
    requires Accounted(ops, a, cell)
    requires o in ops && !ops[o].Owns(a) && ops[o].Refers(a) && !op.Refers(a) && !ops[o].phase.Waiting?
    ensures cell.refs > 0
    ensures Accounted(ops[o := op], a, cell.(refs := cell.refs - 1))
  {
    assert o in Referrers(ops, a);
    assert Owners(ops[o := op], a) == Owners(ops, a);
    assert Referrers(ops[o := op], a) == Referrers(ops, a) - {o};
  }

  lemma AccountSignalled(ops: map<OpId, Op>, a: Address, cell: Cell)
    requires Accounted(ops, a, cell) && cell.units > 0 && cell.waiters != []
    requires WaitsFor(ops, cell.waiters[0], a) && !ops[cell.waiters[0]].Owns(a)
    ensures var first := cell.waiters[0];
      Accounted(ops[first := ops[first].(phase := Granted)], a, Cell(cell.units - 1, cell.waiters[1..], cell.refs))
  {
    var first := cell.waiters[0];
    var after := ops[first := ops[first].(phase := Granted)];
    assert Owners(after, a) == Owners(ops, a) + {first};
    assert Referrers(after, a) == Referrers(ops, a);
    var rest := cell.waiters[1..];
    assert cell.waiters == [first] + rest;
    forall o ensures o in rest <==> WaitsFor(after, o, a) {
      assert o in cell.waiters <==> WaitsFor(ops, o, a);
      assert first !in rest;
    }
  }

  // ---------------------------------------------------------------- every step keeps the invariant

  /** What follows for the cells from a change of one operation that concerns only the cell at `a`. */
  lemma OthersUnaffected(s: State, o: OpId, op: Op, a: Address)
    requires CellsValid(s)
    requires forall b :: b != a ==> if o in s.ops then SameFor(s.ops[o], op, b) else !op.Refers(b)
    ensures forall b :: b in s.cells && b != a ==> Accounted(s.ops[o := op], b, s.cells[b])
  {
    hide Accounted, SameFor;
    forall b | b in s.cells && b != a ensures Accounted(s.ops[o := op], b, s.cells[b]) {
      Unaffected(s.ops, o, op, b, s.cells[b]);
    }
  }

  lemma BegunInv(s: State, o: OpId, k: int, request: seq<Address>)
    requires Inv(s) && o !in s.ops && Ascending(request) && forall a :: a in request ==> a.partition == k
    ensures Inv(Begun(s, o, k, request))
  {
    hide Accounted, Counted;
    var op := Op(k, request, 0, [], Running);
    forall b | b in s.cells ensures Accounted(s.ops[o := op], b, s.cells[b]) {
      Unaffected(s.ops, o, op, b, s.cells[b]);
    }
  }

  ghost predicate Runs(s: State, o: OpId) {
    o in s.ops && s.ops[o].phase.Running? && s.ops[o].next < |s.ops[o].request|
  }

  /** The cell an operation turns to is one it has nothing to do with yet. */
  lemma NextIsNew(op: Op)
    requires op.Valid() && op.phase.Running? && op.next < |op.request|
    ensures !op.Refers(op.request[op.next])
    ensures op.held + [op.request[op.next]] == op.request[..op.next + 1]
  {
    var a := op.request[op.next];
    forall b | b in op.held ensures b != a {
      var i :| 0 <= i < |op.held| && op.held[i] == b;
      assert Less(op.request[i], a);
    }
  }

  lemma PrefixValid(op: Op, n: nat)
    requires op.Valid() && n <= |op.request|
    ensures op.(next := n, held := op.request[..n], phase := Running).Valid()
    ensures op.(next := n, held := op.request[..n], phase := Done).Valid()
    ensures n > 0 ==> op.(next := n, held := op.request[..n - 1], phase := Waiting).Valid()
    ensures n > 0 ==> op.(next := n, held := op.request[..n - 1], phase := Granted).Valid()
    ensures n > 0 ==> op.(next := n, held := op.request[..n - 1], phase := Failing).Valid()
  {
    forall i, j | 0 <= i < j < n ensures op.request[..n][i] != op.request[..n][j] {
      assert Less(op.request[i], op.request[j]);
    }
  }

  lemma InsertedInv(s: State, o: OpId)
    requires Inv(s) && Runs(s, o) && s.ops[o].request[s.ops[o].next] !in s.cells
    ensures Inv(Inserted(s, o))
  {
    hide Accounted, Counted;
    var op, t := s.ops[o], Inserted(s, o);
    var a := op.request[op.next];
    NextIsNew(op);
    PrefixValid(op, op.next + 1);
    assert CellsValid(t) by {
      OthersUnaffected(s, o, t.ops[o], a);
      AccountNew(s.ops, o, t.ops[o], a);
    }
    CountedInserted(s.cells.Keys, s.counts, s.partitions, a);
    assert t.cells.Keys == s.cells.Keys + {a};
  }

  lemma CellAdded(cells: set<Address>, a: Address, k: int)
    requires a !in cells
    ensures |CellsOf(cells + {a}, k)| == |CellsOf(cells, k)| + (if a.partition == k then 1 else 0)
  {
    if a.partition == k {
      assert CellsOf(cells + {a}, k) == CellsOf(cells, k) + {a};
    } else {
      assert CellsOf(cells + {a}, k) == CellsOf(cells, k);
    }
  }

  lemma CountedInserted(cells: set<Address>, counts: map<int, nat>, partitions: nat, a: Address)
    requires Counted(cells, counts, partitions) && a !in cells
    ensures var k := a.partition;
      if k in counts then Counted(cells + {a}, counts[k := counts[k] + 1], partitions)
      else Counted(cells + {a}, counts[k := 1], partitions + 1)
  {
    var k := a.partition;
    forall j ensures |CellsOf(cells + {a}, j)| == |CellsOf(cells, j)| + (if a.partition == j then 1 else 0) {
      CellAdded(cells, a, j);
    }
    if k in counts {
      assert counts[k := counts[k] + 1].Keys == counts.Keys;
    } else {
      assert CellsOf(cells, k) == {};
      assert counts[k := 1].Keys == counts.Keys + {k};
    }
  }

  lemma CountedRemoved(cells: set<Address>, counts: map<int, nat>, partitions: nat, a: Address)
    requires Counted(cells, counts, partitions) && a in cells
    ensures var k := a.partition;
      && k in counts.Keys && partitions > 0
      && if counts[k] > 1 then Counted(cells - {a}, counts[k := counts[k] - 1], partitions)
        else Counted(cells - {a}, counts - {k}, partitions - 1)
  {
    var k := a.partition;
    assert k in counts.Keys;
    assert cells - {a} + {a} == cells;
    forall j ensures |CellsOf(cells, j)| == |CellsOf(cells - {a}, j)| + (if a.partition == j then 1 else 0) {
      CellAdded(cells - {a}, a, j);
    }
    if counts[k] > 1 {
      assert counts[k := counts[k] - 1].Keys == counts.Keys;
    } else {
      assert (counts - {k}).Keys == counts.Keys - {k};
      assert CellsOf(cells - {a}, k) == {};
    }
  }

  lemma WaitedInv(s: State, o: OpId)
    requires Inv(s) && Runs(s, o) && s.ops[o].request[s.ops[o].next] in s.cells
    ensures Inv(Waited(s, o))
  {
    hide Accounted, Counted;
    var op, t := s.ops[o], Waited(s, o);
    var a := op.request[op.next];
    NextIsNew(op);
    PrefixValid(op, op.next + 1);
    OthersUnaffected(s, o, t.ops[o], a);
    if s.cells[a].units > 0 && s.cells[a].waiters == [] {
      AccountGranted(s.ops, o, t.ops[o], a, s.cells[a]);
    } else {
      AccountQueued(s.ops, o, t.ops[o], a, s.cells[a]);
    }
    assert t.cells.Keys == s.cells.Keys;
  }

  lemma TakenInv(s: State, o: OpId)
    requires Inv(s) && o in s.ops && s.ops[o].phase.Granted?
    ensures Inv(Taken(s, o))
  {
    hide Accounted, Counted;
    var op, t := s.ops[o], Taken(s, o);
    var a := op.request[op.next - 1];
    PrefixValid(op, op.next);
    assert op.held + [a] == op.request[..op.next];
    OthersUnaffected(s, o, t.ops[o], a);
    Unaffected(s.ops, o, t.ops[o], a, s.cells[a]);
    assert t.cells.Keys == s.cells.Keys;
  }

  lemma FinishedInv(s: State, o: OpId)
    requires Inv(s) && o in s.ops && s.ops[o].phase.Running?
    ensures Inv(Finished(s, o))
  {
    hide Accounted, Counted;
    var t := Finished(s, o);
    forall b | b in s.cells ensures Accounted(t.ops, b, s.cells[b]) {
      Unaffected(s.ops, o, t.ops[o], b, s.cells[b]);
    }
  }

  lemma TargetNotHeld(op: Op)
    requires op.Valid() && op.AtTarget()
    ensures op.request[op.next - 1] !in op.held
  {
    var a := op.request[op.next - 1];
    forall b | b in op.held ensures b != a {
      var i :| 0 <= i < |op.held| && op.held[i] == b;
      assert Less(op.request[i], a);
    }
  }

  lemma ExpiredInv(s: State, o: OpId)
    requires Inv(s) && o in s.ops && s.ops[o].phase.Waiting?
    ensures s.ops[o].request[s.ops[o].next - 1] in s.cells
    ensures Inv(Expired(s, o))
  {
    hide Accounted, Counted;
    var op := s.ops[o];
    var a := op.request[op.next - 1];
    assert op.Refers(a);
    var t := Expired(s, o);
    TargetNotHeld(op);
    PrefixValid(op, op.next);
    OthersUnaffected(s, o, t.ops[o], a);
    AccountExpired(s.ops, o, t.ops[o], a, s.cells[a]);
    assert t.cells.Keys == s.cells.Keys;
  }

  /** The invariant of a state in which one pointer to the cell at `a` is about to go. */
  ghost predicate AlmostInv(s: State, a: Address) {
    && OpsValid(s) && Counted(s.cells.Keys, s.counts, s.partitions)
    && (forall b :: b in s.cells && b != a ==> Accounted(s.ops, b, s.cells[b]) && Settled(s.cells[b]))
    && a in s.cells && s.cells[a].refs > 0 && (s.cells[a].units > 0 ==> s.cells[a].waiters == [])
    && Accounted(s.ops, a, s.cells[a].(refs := s.cells[a].refs - 1))
  }

  lemma AlmostCounted(s: State, a: Address)
    requires AlmostInv(s, a)
    ensures CanUnrefer(s, a)
  {
    CountedRemoved(s.cells.Keys, s.counts, s.partitions, a);
  }

  lemma UnreferredInv(s: State, a: Address)
    requires AlmostInv(s, a) && CanUnrefer(s, a)
    ensures Inv(Unreferred(s, a))
  {
    hide Accounted, Counted;
    if s.cells[a].refs > 1 {
      assert Unreferred(s, a).cells.Keys == s.cells.Keys;
    } else {
      UnlinkedInv(s, a);
    }
  }

  lemma UnlinkedInv(s: State, a: Address)
    requires AlmostInv(s, a) && CanUnrefer(s, a) && s.cells[a].refs == 1
    ensures Inv(Unreferred(s, a))
  {
    hide Accounted, Counted, Op.Refers, Op.Valid, Settled;
    var t := Unreferred(s, a);
    assert t.ops == s.ops && t.cells == s.cells - {a};
    assert OpsValid(t) by {
      Unwanted(s.ops, a, s.cells[a].(refs := 0));
    }
    assert CellsValid(t);
    CountedRemoved(s.cells.Keys, s.counts, s.partitions, a);
    assert t.cells.Keys == s.cells.Keys - {a};
  }

  lemma Unwanted(ops: map<OpId, Op>, a: Address, cell: Cell)
    requires Accounted(ops, a, cell) && cell.refs == 0
    ensures forall o :: o in ops ==> !ops[o].Refers(a)
  {
    forall o | o in ops ensures !ops[o].Refers(a) {
      assert o !in Referrers(ops, a);
    }
  }

  /** A lock is dropped: the `locked_cell` signals the semaphore and then gives up its pointer. */
  function Dropped(s: State, o: OpId, a: Address): State
    requires o in s.ops
  {
    s.(ops := s.ops[o := s.ops[o].(held := Without(s.ops[o].held, a))])
  }

  ghost predicate Holds(s: State, o: OpId, a: Address) {
    o in s.ops && s.ops[o].phase.Done? && a in s.ops[o].held
  }

  lemma DroppedState(s: State, o: OpId, a: Address)
    requires Inv(s) && Holds(s, o, a)
    ensures var t := Dropped(s, o, a);
      && a in s.cells && s.cells[a].units == 0 && s.cells[a].refs > 0
      && OpsValid(t) && Accounted(t.ops, a, Cell(1, s.cells[a].waiters, s.cells[a].refs - 1))
      && (forall b :: b in s.cells && b != a ==> Accounted(t.ops, b, s.cells[b]))
      && (forall p :: p in s.cells[a].waiters ==> p in t.ops && WaitsFor(t.ops, p, a))
  {
    var t := Dropped(s, o, a);
    assert s.ops[o].Refers(a);
    AccountDropped(s.ops, o, t.ops[o], a, s.cells[a]);
    OthersUnaffected(s, o, t.ops[o], a);
    WithoutDistinct(s.ops[o].held, a);
  }

  lemma SignalledInv(s: State, o: OpId, a: Address)
    requires Inv(s) && Holds(s, o, a)
    ensures a in s.cells && forall p :: p in s.cells[a].waiters ==> p in Dropped(s, o, a).ops
    ensures AlmostInv(Signalled(Dropped(s, o, a), a), a)
  {
    hide Accounted, Counted;
    DroppedState(s, o, a);
    var t := Dropped(s, o, a);
    var u := Signalled(t, a);
    var cell := s.cells[a];
    assert u.cells.Keys == s.cells.Keys;
    if cell.waiters != [] {
      var first := cell.waiters[0];
      TargetNotHeld(t.ops[first]);
      AccountSignalled(t.ops, a, Cell(1, cell.waiters, cell.refs - 1));
      forall b | b in s.cells && b != a ensures Accounted(u.ops, b, s.cells[b]) {
        Unaffected(t.ops, first, u.ops[first], b, s.cells[b]);
      }
    }
  }

  // ---------------------------------------------------------------- whole calls

  ghost function Released(s: State, o: OpId, a: Address): (t: State)
    requires Inv(s) && Holds(s, o, a)
    ensures Inv(t) && o in t.ops && t.ops[o] == s.ops[o].(held := Without(s.ops[o].held, a))
    ensures AtRest(s) ==> AtRest(t)
  {
    hide Inv, AtRest, Unreferred, CanUnrefer, Without;
    ReleasedInv(s, o, a);
    Unreferred(Signalled(Dropped(s, o, a), a), a)
  }

  lemma ReleasedInv(s: State, o: OpId, a: Address)
    requires Inv(s) && Holds(s, o, a)
    ensures a in s.cells && forall p :: p in s.cells[a].waiters ==> p in Dropped(s, o, a).ops
    ensures var u := Signalled(Dropped(s, o, a), a);
      && CanUnrefer(u, a) && Inv(Unreferred(u, a))
      && var t := Unreferred(u, a);
        && o in t.ops && t.ops[o] == s.ops[o].(held := Without(s.ops[o].held, a))
        && (AtRest(s) ==> AtRest(t))
  {
    hide Inv, AlmostInv;
    SignalledInv(s, o, a);
    var u := Signalled(Dropped(s, o, a), a);
    AlmostCounted(u, a);
    UnreferredInv(u, a);
    ReleasedOp(s, o, a);
    assert Unreferred(u, a).ops == u.ops;
  }

  lemma ReleasedOp(s: State, o: OpId, a: Address)
    requires Inv(s) && Holds(s, o, a) && a in s.cells
    requires forall p :: p in s.cells[a].waiters ==> p in Dropped(s, o, a).ops
    ensures Signalled(Dropped(s, o, a), a).ops[o] == s.ops[o].(held := Without(s.ops[o].held, a))
  {
    if s.cells[a].waiters != [] {
      assert WaitsFor(s.ops, s.cells[a].waiters[0], a);
    }
  }

  /** Unlocking wakes the operation that has been queued the longest and no other; a cell that nobody waits for
      is free or gone. */
  lemma FirstInQueueIsServed(s: State, o: OpId, a: Address)
    requires Inv(s) && Holds(s, o, a)
    ensures a in s.cells && forall p :: p in s.ops ==> p in Released(s, o, a).ops
    ensures var q, t := s.cells[a].waiters, Released(s, o, a);
      && (q != [] ==> a in t.cells && t.cells[a].waiters == q[1..] && q[0] in t.ops && t.ops[q[0]].phase.Granted?)
      && (q == [] && a in t.cells ==> t.cells[a].units == 1)
      && (forall p :: p in s.ops && p != o && (q == [] || p != q[0]) ==> t.ops[p] == s.ops[p])
  {
    hide Inv, Without;
    ReleasedInv(s, o, a);
    DroppedState(s, o, a);
    if s.cells[a].waiters != [] {
      QueueIsReferred(s, o, a);
    }
  }

  lemma QueueIsReferred(s: State, o: OpId, a: Address)
    requires Inv(s) && Holds(s, o, a) && a in s.cells && s.cells[a].waiters != []
    ensures s.cells[a].refs > 1
  {
    hide Counted;
    var first := s.cells[a].waiters[0];
    var referrers := Referrers(s.ops, a);
    assert Accounted(s.ops, a, s.cells[a]) && WaitsFor(s.ops, first, a);
    assert {o, first} <= referrers;
    SubsetSize({o, first}, referrers);
  }

  /** `lock_next`: takes the cells that are not linked, up to one that is. An operation that gets to the end
      holds all the cells of its request. */
  ghost function Locking(s: State, o: OpId): (t: State)
    requires Inv(s) && o in s.ops && s.ops[o].phase.Running?
    ensures Inv(t)
    ensures o in t.ops && !t.ops[o].phase.Running? && forall p :: p != o ==> (p in t.ops <==> p in s.ops)
    ensures forall p :: p in s.ops && p != o ==> t.ops[p] == s.ops[p]
    ensures t.ops[o].request == s.ops[o].request
    ensures t.ops[o].phase.Done? ==> t.ops[o].held == t.ops[o].request
    decreases |s.ops[o].request| - s.ops[o].next
  {
    var op := s.ops[o];
    if op.next == |op.request| then
      FinishedInv(s, o);
      Finished(s, o)
    else if op.request[op.next] in s.cells then
      WaitedInv(s, o);
      Waited(s, o)
    else
      InsertedInv(s, o);
      Locking(Inserted(s, o), o)
  }

  /** A row of the mutation and the columns it has cells in. */
  datatype CellsRange = CellsRange(row: real, ids: seq<nat>)

  ghost predicate RangeOk(rows: seq<CellsRange>) {
    && (forall i, j :: 0 <= i < j < |rows| ==> rows[i].row < rows[j].row)
    && (forall r :: r in rows ==> forall i, j :: 0 <= i < j < |r.ids| ==> r.ids[i] < r.ids[j])
  }

  /** The cells in the order in which the cursors visit them. */
  function RowRequest(k: int, r: CellsRange): (q: seq<Address>)
    ensures |q| == |r.ids| && forall i :: 0 <= i < |q| ==> q[i] == Address(k, r.row, r.ids[i])
  {
    seq(|r.ids|, i requires 0 <= i < |r.ids| => Address(k, r.row, r.ids[i]))
  }

  function Request(k: int, rows: seq<CellsRange>): seq<Address> {
    if rows == [] then [] else RowRequest(k, rows[0]) + Request(k, rows[1..])
  }

  lemma {:induction false} RequestFrom(k: int, rows: seq<CellsRange>)
    ensures forall a :: a in Request(k, rows) ==> a.partition == k && exists i :: 0 <= i < |rows| && rows[i].row == a.row
  {
    if rows != [] {
      RequestFrom(k, rows[1..]);
      forall a | a in Request(k, rows) ensures a.partition == k && exists i :: 0 <= i < |rows| && rows[i].row == a.row {
        if a in RowRequest(k, rows[0]) {
          assert rows[0].row == a.row;
        } else {
          assert a in Request(k, rows[1..]);
          var i :| 0 <= i < |rows[1..]| && rows[1..][i].row == a.row;
          assert rows[i + 1].row == a.row;
        }
      }
    }
  }

  /** A mutation's rows and columns are sorted, so its cells are taken in ascending order. */
  lemma {:induction false} RequestAscending(k: int, rows: seq<CellsRange>)
    requires RangeOk(rows)
    ensures Ascending(Request(k, rows))
  {
    if rows != [] {
      RequestAscending(k, rows[1..]);
      RequestFrom(k, rows[1..]);
      var first, rest := RowRequest(k, rows[0]), Request(k, rows[1..]);
      forall i, j | 0 <= i < j < |first + rest| ensures Less((first + rest)[i], (first + rest)[j]) {
        if i < |first| <= j {
          var a := rest[j - |first|];
          assert a in rest;
          var n :| 0 <= n < |rows[1..]| && rows[1..][n].row == a.row;
          assert rows[0].row < rows[n + 1].row;
        } else if j < |first| {
          assert rows[0] in rows;
        } else {
          assert Less(rest[i - |first|], rest[j - |first|]);
        }
      }
    }
  }

  /** The request has every cell of every row of the mutation, and no other. */
  lemma {:induction false} RequestExact(k: int, rows: seq<CellsRange>, a: Address)
    ensures a in Request(k, rows) <==> a.partition == k && exists r :: r in rows && r.row == a.row && a.column in r.ids
  {
    if rows != [] {
      RequestExact(k, rows[1..], a);
      assert rows == [rows[0]] + rows[1..];
      RowRequestExact(k, rows[0], a);
    }
  }

  lemma RowRequestExact(k: int, r: CellsRange, a: Address)
    ensures a in RowRequest(k, r) <==> a.partition == k && r.row == a.row && a.column in r.ids
  {
    if a.partition == k && r.row == a.row && a.column in r.ids {
      var i :| 0 <= i < |r.ids| && r.ids[i] == a.column;
      assert RowRequest(k, r)[i] == a;
    }
  }

  /** The operation owns the cell of every row and column of the mutation. */
  ghost predicate OwnsAll(t: State, o: OpId, k: int, rows: seq<CellsRange>) {
    forall r, c :: r in rows && c in r.ids ==> Holds(t, o, Address(k, r.row, c))
  }

  lemma AllOwned(t: State, o: OpId, k: int, rows: seq<CellsRange>)
    requires o in t.ops && t.ops[o].phase.Done? && t.ops[o].held == t.ops[o].request == Request(k, rows)
    ensures OwnsAll(t, o, k, rows)
  {
    forall r, c | r in rows && c in r.ids ensures Holds(t, o, Address(k, r.row, c)) {
      RequestExact(k, rows, Address(k, r.row, c));
    }
  }

  ghost function Locked(s: State, o: OpId, k: int, rows: seq<CellsRange>): (t: State)
    requires Inv(s) && o !in s.ops && RangeOk(rows)
    ensures Inv(t) && o in t.ops && t.ops[o].request == Request(k, rows)
    ensures t.ops[o].phase.Done? ==> OwnsAll(t, o, k, rows)
  {
    RequestAscending(k, rows);
    RequestFrom(k, rows);
    BegunInv(s, o, k, Request(k, rows));
    var t := Locking(Begun(s, o, k, Request(k, rows)), o);
    assert t.ops[o].phase.Done? ==> OwnsAll(t, o, k, rows) by { if t.ops[o].phase.Done? { AllOwned(t, o, k, rows); } }
    t
  }

  ghost function Resumed(s: State, o: OpId): (t: State)
    requires Inv(s) && o in s.ops && s.ops[o].phase.Granted?
    ensures Inv(t) && o in t.ops && t.ops[o].request == s.ops[o].request
    ensures forall k, rows :: t.ops[o].phase.Done? && s.ops[o].request == Request(k, rows) ==> OwnsAll(t, o, k, rows)
  {
    TakenInv(s, o);
    var t := Locking(Taken(s, o), o);
    assert forall k, rows :: t.ops[o].phase.Done? && s.ops[o].request == Request(k, rows) ==> OwnsAll(t, o, k, rows) by {
      forall k, rows | t.ops[o].phase.Done? && s.ops[o].request == Request(k, rows) ensures OwnsAll(t, o, k, rows) {
        AllOwned(t, o, k, rows);
      }
    }
    t
  }

  ghost function TimedOut(s: State, o: OpId): (t: State)
    requires Inv(s) && o in s.ops && s.ops[o].phase.Waiting?
    ensures Inv(t)
  {
    ExpiredInv(s, o);
    Expired(s, o)
  }

  /** A timed out operation unwinds: the cell it waited for, then its locks. */
  ghost function Unwound(s: State, o: OpId): (t: State)
    requires Inv(s) && o in s.ops && s.ops[o].phase.Failing?
    ensures Inv(t) && o in t.ops && t.ops[o].phase.Done? && t.ops[o].held == []
    ensures AtRest(s) ==> AtRest(t)
  {
    AbandonedInv(s, o);
    ReleasedAll(Unreferred(Finished(s, o), s.ops[o].request[s.ops[o].next - 1]), o)
  }

  lemma AbandonedInv(s: State, o: OpId)
    requires Inv(s) && o in s.ops && s.ops[o].phase.Failing?
    ensures var a := s.ops[o].request[s.ops[o].next - 1];
      && CanUnrefer(Finished(s, o), a)
      && Inv(Unreferred(Finished(s, o), a)) && Unreferred(Finished(s, o), a).ops == Finished(s, o).ops
  {
    hide Counted;
    var op, t := s.ops[o], Finished(s, o);
    var a := op.request[op.next - 1];
    assert op.Refers(a);
    TargetNotHeld(op);
    AccountAbandoned(s.ops, o, t.ops[o], a, s.cells[a]);
    OthersUnaffected(s, o, t.ops[o], a);
    AlmostCounted(t, a);
    UnreferredInv(t, a);
  }

  ghost function ReleasedAll(s: State, o: OpId): (t: State)
    requires Inv(s) && o in s.ops && s.ops[o].phase.Done?
    ensures Inv(t) && o in t.ops && t.ops[o].phase.Done? && t.ops[o].held == []
    ensures AtRest(s) ==> AtRest(t)
    decreases |s.ops[o].held|
  {
    var held := s.ops[o].held;
    if held == [] then s
    else
      FirstDropped(held);
      ReleasedAll(Released(s, o, held[0]), o)
  }

  lemma FirstDropped(s: seq<Address>)
    requires s != [] && forall i, j :: 0 <= i < j < |s| ==> s[i] != s[j]
    ensures Without(s, s[0]) == s[1..]
  {
    AbsentWithout(s[1..], s[0]);
  }

  lemma {:induction false} AbsentWithout(s: seq<Address>, x: Address)
    requires x !in s
    ensures Without(s, x) == s
  {
    if s != [] {
      AbsentWithout(s[1..], x);
    }
  }

  // ---------------------------------------------------------------- every run

  datatype Call =
    | Lock(o: OpId, k: int, rows: seq<CellsRange>)
    | Resume(o: OpId)
    | Timeout(o: OpId)
    | Unwind(o: OpId)
    | Unlock(o: OpId, a: Address)

  ghost predicate Enabled(s: State, c: Call) {
    match c
    case Lock(o, _, rows) => o !in s.ops && RangeOk(rows)
    case Resume(o) => o in s.ops && s.ops[o].phase.Granted?
    case Timeout(o) => o in s.ops && s.ops[o].phase.Waiting?
    case Unwind(o) => o in s.ops && s.ops[o].phase.Failing?
    case Unlock(o, a) => Holds(s, o, a)
  }

  /** Between calls no operation is in the middle of taking cells. */
  ghost predicate AtRest(s: State) {
    forall o :: o in s.ops ==> !s.ops[o].phase.Running?
  }

  ghost function Perform(s: State, c: Call): (t: State)
    requires Inv(s) && AtRest(s) && Enabled(s, c)
    ensures Inv(t) && AtRest(t)
  {
    match c
    case Lock(o, k, rows) => Locked(s, o, k, rows)
    case Resume(o) => Resumed(s, o)
    case Timeout(o) => TimedOut(s, o)
    case Unwind(o) => Unwound(s, o)
    case Unlock(o, a) => Released(s, o, a)
  }

  /** The state that an interleaving of calls leads to, those left out that cannot happen where they come.
      Every such state has the invariant. */
  ghost function Reached(calls: seq<Call>): (s: State)
    ensures Inv(s) && AtRest(s)
  {
    if calls == [] then
      assert Empty.counts == map[];
      Empty
    else
      var s := Reached(calls[..|calls| - 1]);
      var c := calls[|calls| - 1];
      if Enabled(s, c) then Perform(s, c) else s
  }

  /** No cell is ever locked twice. */
  lemma MutualExclusion(calls: seq<Call>, o: OpId, p: OpId, a: Address)
    ensures var ops := Reached(calls).ops;
      o in ops && p in ops && ops[o].Owns(a) && ops[p].Owns(a) ==> o == p
  {
    hide Inv, Reached, Perform;
    var s := Reached(calls);
    if o in s.ops && p in s.ops && s.ops[o].Owns(a) && s.ops[p].Owns(a) {
      OneOwner(s, o, p, a);
    }
  }

  lemma OneOwner(s: State, o: OpId, p: OpId, a: Address)
    requires Inv(s) && o in s.ops && p in s.ops && s.ops[o].Owns(a) && s.ops[p].Owns(a)
    ensures o == p
  {
    hide Counted, Settled;
    assert s.ops[o].Refers(a);
    var owners := Owners(s.ops, a);
    assert a in s.cells && Accounted(s.ops, a, s.cells[a]);
    assert {o, p} <= owners;
    SubsetSize({o, p}, owners);
  }

  lemma {:induction false} SubsetSize<T>(a: set<T>, b: set<T>)
    requires a <= b
    ensures |a| <= |b|
  {
    if a != {} {
      var x :| x in a;
      SubsetSize(a - {x}, b - {x});
    }
  }

  /** An operation works on a partition that is linked for as long as it refers to any cell. */
  lemma PartitionOutlivesOperation(calls: seq<Call>, o: OpId, a: Address)
    ensures var s := Reached(calls);
      o in s.ops && s.ops[o].Refers(a) ==> a in s.cells && s.ops[o].partition in s.counts
  {
    hide Reached, Perform;
    var s := Reached(calls);
    if o in s.ops && s.ops[o].Refers(a) {
      assert a.partition == s.ops[o].partition;
    }
  }

  /** Once every operation has let go of everything, nothing is linked, as the locker's destructor asserts. */
  lemma NothingLeft(calls: seq<Call>)
    requires forall o, a :: o in Reached(calls).ops ==> !Reached(calls).ops[o].Refers(a)
    ensures Reached(calls).cells == map[] && Reached(calls).counts == map[] && Reached(calls).partitions == 0
  {
    hide Reached, Perform;
    var s := Reached(calls);
    if s.cells.Keys != {} {
      var a :| a in s.cells.Keys;
      Referred(s, a);
    }
    forall k | k in s.counts ensures false {
      Populated(s, k);
    }
    assert s.cells == map[] && s.counts == map[];
  }

  lemma Element<T>(s: set<T>) returns (x: T)
    requires |s| > 0
    ensures x in s
  {
    x :| x in s;
  }

  lemma Referred(s: State, a: Address)
    requires Inv(s) && a in s.cells
    ensures exists o :: o in s.ops && s.ops[o].Refers(a)
  {
    var o := Element(Referrers(s.ops, a));
  }

  lemma Populated(s: State, k: int)
    requires Inv(s) && k in s.counts
    ensures exists a :: a in s.cells && a.partition == k
  {
    var a := Element(CellsOf(s.cells.Keys, k));
  }

  // ---------------------------------------------------------------- no deadlock

  ghost predicate Ahead(queue: seq<OpId>, p: OpId, o: OpId) {
    p in queue && o in queue && IndexOf(queue, p) < IndexOf(queue, o)
  }

  /** `o` is queued on a cell that `p` has the unit of, or in whose queue `p` comes before `o`. */
  ghost predicate WaitsOn(s: State, o: OpId, p: OpId, a: Address) {
    && WaitsFor(s.ops, o, a) && p in s.ops && a in s.cells
    && (|| s.ops[p].Owns(a)
        || Ahead(s.cells[a].waiters, p, o))
  }

  /** A chain of operations each of which waits on the next; `at` are the cells they are queued on. */
  ghost predicate Chain(s: State, ops: seq<OpId>, at: seq<Address>) {
    |ops| == |at| + 1 && forall i :: 0 <= i < |at| ==> WaitsOn(s, ops[i], ops[i + 1], at[i])
  }

  /** Along a chain the cells never go down, and where they stay the place in the queue does. */
  lemma WaitsUpward(s: State, o: OpId, p: OpId, a: Address, b: Address)
    requires Inv(s) && WaitsOn(s, o, p, a) && WaitsFor(s.ops, p, b)
    ensures a == b || Less(a, b)
    ensures a == b ==> Ahead(s.cells[a].waiters, p, o)
  {
    var op := s.ops[p];
    if op.Owns(a) {
      var i :| 0 <= i < |op.held| && op.held[i] == a;
      assert Less(op.request[i], op.request[op.next - 1]);
      assert !Less(b, b);
    } else {
      assert p in s.cells[a].waiters && WaitsFor(s.ops, p, a);
    }
  }

  lemma {:induction false} ChainUpward(s: State, ops: seq<OpId>, at: seq<Address>, b: Address)
    requires Inv(s) && Chain(s, ops, at) && |at| > 0 && WaitsFor(s.ops, ops[|at|], b)
    ensures at[0] == b || Less(at[0], b)
    ensures at[0] == b ==> Ahead(s.cells[b].waiters, ops[|at|], ops[0])
    decreases |at|
  {
    if |at| == 1 {
      WaitsUpward(s, ops[0], ops[1], at[0], b);
    } else {
      assert WaitsOn(s, ops[0], ops[1], at[0]) && WaitsOn(s, ops[1], ops[2], at[1]);
      WaitsUpward(s, ops[0], ops[1], at[0], at[1]);
      assert Chain(s, ops[1..], at[1..]) by {
        forall i | 0 <= i < |at| - 1 ensures WaitsOn(s, ops[1..][i], ops[1..][i + 1], at[1..][i]) {
          assert WaitsOn(s, ops[i + 1], ops[i + 1 + 1], at[i + 1]);
        }
      }
      ChainUpward(s, ops[1..], at[1..], b);
    }
  }

  /** No operations wait for one another in a circle, however calls, unlocking and timeouts interleave. */
  lemma NoDeadlock(calls: seq<Call>, ops: seq<OpId>, at: seq<Address>)
    requires |at| > 0 && Chain(Reached(calls), ops, at)
    ensures ops[0] != ops[|at|]
  {
    hide Reached, Perform;
    var s := Reached(calls);
    if ops[0] == ops[|at|] {
      assert WaitsOn(s, ops[0], ops[1], at[0]);
      ChainUpward(s, ops, at, at[0]);
    }
  }

  ghost function Above(s: State, a: Address): set<Address> {
    set c | c in s.cells && Less(a, c)
  }

  /** While an operation waits there is always a call, neither a new operation nor a timeout, that some other
      operation can make: the last in any chain can resume, unwind or unlock. */
  lemma {:induction false} SomeoneCanMove(s: State, o: OpId, a: Address) returns (c: Call)
    requires Inv(s) && AtRest(s) && WaitsFor(s.ops, o, a)
    ensures Enabled(s, c) && (c.Resume? || c.Unwind? || c.Unlock?)
    decreases Above(s, a)
  {
    assert s.ops[o].Refers(a) && o in s.cells[a].waiters;
    var p := Element(Owners(s.ops, a));
    var op := s.ops[p];
    match op.phase {
      case Granted => c := Resume(p);
      case Failing => c := Unwind(p);
      case Done => c := Unlock(p, a);
      case Waiting =>
        var b := op.request[op.next - 1];
        assert op.Refers(b);
        Ascends(op, a);
        assert b in Above(s, a) && b !in Above(s, b);
        assert forall d :: d in Above(s, b) ==> d in Above(s, a);
        c := SomeoneCanMove(s, p, b);
    }
  }

  lemma Ascends(op: Op, a: Address)
    requires op.Valid() && op.phase.Waiting? && a in op.held
    ensures Less(a, op.request[op.next - 1])
  {
    var i :| 0 <= i < |op.held| && op.held[i] == a;
    assert Less(op.request[i], op.request[op.next - 1]);
  }
}
