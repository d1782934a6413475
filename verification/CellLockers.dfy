/** The locker itself, updated in place, and that each of its calls takes the step of the state machine. */
module CellLockers {
  import opened CellLocking

  class CellLocker {
    var cells: map<Address, Cell>
    var counts: map<int, nat>
    var partitions: nat
    var ops: map<OpId, Op>

    ghost function S(): State
      reads this
    {
      State(cells, counts, partitions, ops)
    }

    constructor ()
      ensures S() == Empty && Inv(S()) && AtRest(S())
    {
      cells, counts, partitions, ops := map[], map[], 0, map[];
    }

    /** `partition_entry::insert` of a new cell that the operation holds. */
    method Insert(o: OpId)
      requires o in ops && ops[o].next < |ops[o].request|
      modifies this
      ensures S() == Inserted(old(S()), o)
    {
      var op := ops[o];
      var a := op.request[op.next];
      cells := cells[a := Cell(0, [], 1)];
      if op.partition in counts {
        counts := counts[op.partition := counts[op.partition] + 1];
      } else {
        counts := counts[op.partition := 1];
        partitions := partitions + 1;
      }
      ops := ops[o := op.(next := op.next + 1, held := op.held + [a])];
    }

    /** Waiting on the semaphore of a linked cell, with a pointer to it. */
    method Wait(o: OpId)
      requires o in ops && ops[o].next < |ops[o].request| && ops[o].request[ops[o].next] in cells
      modifies this
      ensures S() == Waited(old(S()), o)
    {
      var op := ops[o];
      var a := op.request[op.next];
      var cell := cells[a];
      if cell.units > 0 && cell.waiters == [] {
        cells := cells[a := Cell(cell.units - 1, [], cell.refs + 1)];
        ops := ops[o := op.(next := op.next + 1, phase := Granted)];
      } else {
        cells := cells[a := Cell(cell.units, cell.waiters + [o], cell.refs + 1)];
        ops := ops[o := op.(next := op.next + 1, phase := Waiting)];
      }
    }

    /** `lock_next`, and the end of `lock_all` if there is no cell left. */
    method LockNext(o: OpId)
      requires Inv(S()) && o in ops && ops[o].phase.Running?
      modifies this
      ensures S() == Locking(old(S()), o)
    {
      hide Inv;
      RunningNext(S(), o);
      while ops[o].next < |ops[o].request|
        invariant Inv(S()) && o in ops && ops[o].phase.Running? && ops[o].next <= |ops[o].request|
        invariant Locking(S(), o) == Locking(old(S()), o)
        decreases |ops[o].request| - ops[o].next
      {
        if ops[o].request[ops[o].next] in cells {
          Wait(o);
          return;
        }
        InsertedInv(S(), o);
        Insert(o);
      }
      ops := ops[o := ops[o].(phase := Done)];
    }

    lemma RunningNext(s: State, o: OpId)
      requires Inv(s) && o in s.ops
      ensures s.ops[o].next <= |s.ops[o].request|
    {
    }

    /** `lock_cells`. A partition nobody has a cell of is built on the side with all cells of the mutation and
        linked if there are any; otherwise the cells are taken one by one. */
    method LockCells(o: OpId, k: int, rows: seq<CellsRange>)
      requires Inv(S()) && o !in ops && RangeOk(rows)
      modifies this
      ensures S() == Locked(old(S()), o, k, rows)
      ensures o in ops && (ops[o].phase.Done? ==> OwnsAll(S(), o, k, rows))
    {
      hide Inv;
      var request := Request(k, rows);
      RequestAscending(k, rows);
      RequestFrom(k, rows);
      BegunInv(S(), o, k, request);
      if k in counts {
        ops := ops[o := Op(k, request, 0, [], Running)];
        LockNext(o);
        return;
      }
      Strangers(S(), k);
      LockNewPartition(o, k, request);
    }

    method LockNewPartition(o: OpId, k: int, request: seq<Address>)
      requires o !in ops && k !in counts && Inv(Begun(S(), o, k, request))
      requires forall a :: a in cells ==> a.partition != k
      modifies this
      ensures S() == Locking(Begun(old(S()), o, k, request), o)
    {
      hide Inv, Locking, WithPartition, Inserted;
      ghost var begun := Begun(S(), o, k, request);
      var held: seq<Address> := [];
      SideStart(S(), o, k, request);
      ghost var s := begun;
      while |held| < |request|
        invariant |held| <= |request|
        invariant counts == old(counts) && partitions == old(partitions) && ops == old(ops)
        invariant forall a :: a in cells && a.partition == k ==> a in held
        invariant s == WithPartition(S(), o, k, request, held)
        invariant Inv(s) && o in s.ops && s.ops[o].phase.Running? && Locking(s, o) == Locking(begun, o)
      {
        var a := request[|held|];
        SideStep(S(), o, k, request, held);
        NextCell(s, o);
        LockingInserts(s, o);
        s := Inserted(s, o);
        cells := cells[a := Cell(0, [], 1)];
        held := held + [a];
      }
      SideEnd(S(), o, k, request, held);
      LockingFinishes(s, o);
      ops := ops[o := Op(k, request, |request|, held, Done)];
      if held != [] {
        counts := counts[k := |held|];
        partitions := partitions + 1;
      }
    }

    lemma SideStart(s: State, o: OpId, k: int, request: seq<Address>)
      ensures WithPartition(s, o, k, request, []) == Begun(s, o, k, request)
    {
    }

    lemma SideStep(s: State, o: OpId, k: int, request: seq<Address>, held: seq<Address>)
      requires |held| < |request| && k !in s.counts
      ensures var a := request[|held|];
        var before := WithPartition(s, o, k, request, held);
        && o in before.ops && before.ops[o] == Op(k, request, |held|, held, Running) && before.cells == s.cells
        && WithPartition(s.(cells := s.cells[a := Cell(0, [], 1)]), o, k, request, held + [a]) == Inserted(before, o)
    {
      var before := WithPartition(s, o, k, request, held);
      var after := Inserted(before, o);
      assert after.counts == s.counts[k := |held| + 1];
    }

    lemma SideEnd(s: State, o: OpId, k: int, request: seq<Address>, held: seq<Address>)
      requires |held| == |request|
      ensures o in WithPartition(s, o, k, request, held).ops
      ensures WithPartition(s, o, k, request, held).ops[o] == Op(k, request, |held|, held, Running)
      ensures Finished(WithPartition(s, o, k, request, held), o) == State(s.cells,
        if held == [] then s.counts else s.counts[k := |held|],
        if held == [] then s.partitions else s.partitions + 1,
        s.ops[o := Op(k, request, |request|, held, Done)])
    {
    }

    lemma LockingInserts(s: State, o: OpId)
      requires Inv(s) && Runs(s, o) && s.ops[o].request[s.ops[o].next] !in s.cells
      ensures Inv(Inserted(s, o)) && o in Inserted(s, o).ops && Inserted(s, o).ops[o].phase.Running?
      ensures Locking(s, o) == Locking(Inserted(s, o), o)
    {
      InsertedInv(s, o);
    }

    lemma LockingFinishes(s: State, o: OpId)
      requires Inv(s) && o in s.ops && s.ops[o].phase.Running? && s.ops[o].next == |s.ops[o].request|
      ensures Locking(s, o) == Finished(s, o)
    {
    }

    /** The state as it would be had the cells made so far been inserted into a linked partition. */
    ghost function WithPartition(s: State, o: OpId, k: int, request: seq<Address>, held: seq<Address>): State {
      State(s.cells,
            if held == [] then s.counts else s.counts[k := |held|],
            if held == [] then s.partitions else s.partitions + 1,
            s.ops[o := Op(k, request, |held|, held, Running)])
    }

    lemma Strangers(s: State, k: int)
      requires Inv(s) && k !in s.counts
      ensures forall a :: a in s.cells ==> a.partition != k
    {
    }

    lemma NextCell(s: State, o: OpId)
      requires Inv(s) && o in s.ops && s.ops[o].phase.Running? && s.ops[o].next < |s.ops[o].request|
      ensures var a := s.ops[o].request[s.ops[o].next];
        a !in s.ops[o].held && a.partition == s.ops[o].partition
    {
      NextIsNew(s.ops[o]);
      assert s.ops[o].request[s.ops[o].next] in s.ops[o].request;
    }

    /** The continuation of a wait that got its unit. */
    method Resume(o: OpId)
      requires Inv(S()) && o in ops && ops[o].phase.Granted?
      modifies this
      ensures S() == Resumed(old(S()), o)
    {
      hide Inv;
      TakenInv(S(), o);
      GrantedNext(S(), o);
      var op := ops[o];
      ops := ops[o := op.(held := op.held + [op.request[op.next - 1]], phase := Running)];
      LockNext(o);
    }

    lemma GrantedNext(s: State, o: OpId)
      requires Inv(s) && o in s.ops && s.ops[o].AtTarget()
      ensures 0 < s.ops[o].next <= |s.ops[o].request| && s.ops[o].request[s.ops[o].next - 1] in s.cells
    {
      assert s.ops[o].Refers(s.ops[o].request[s.ops[o].next - 1]);
    }

    /** The semaphore's timer fires for a waiting operation. */
    method Timeout(o: OpId)
      requires Inv(S()) && o in ops && ops[o].phase.Waiting?
      modifies this
      ensures S() == TimedOut(old(S()), o)
    {
      hide Inv;
      GrantedNext(S(), o);
      var op := ops[o];
      var a := op.request[op.next - 1];
      cells := cells[a := cells[a].(waiters := Without(cells[a].waiters, o))];
      ops := ops[o := op.(phase := Failing)];
    }

    /** A shared pointer to the cell is destroyed, and with the last one the cell and perhaps its partition. */
    method DropPointer(a: Address)
      requires CanUnrefer(S(), a)
      modifies this
      ensures S() == Unreferred(old(S()), a)
    {
      var cell := cells[a];
      if cell.refs > 1 {
        cells := cells[a := cell.(refs := cell.refs - 1)];
        return;
      }
      cells := cells - {a};
      var k := a.partition;
      if counts[k] > 1 {
        counts := counts[k := counts[k] - 1];
      } else {
        counts := counts - {k};
        partitions := partitions - 1;
      }
    }

    /** The destructor of a `locked_cell`: signal, then drop the pointer. */
    method Unlock(o: OpId, a: Address)
      requires Inv(S()) && Holds(S(), o, a)
      modifies this
      ensures S() == Released(old(S()), o, a)
    {
      hide Inv, Without;
      ReleasedInv(S(), o, a);
      ops := ops[o := ops[o].(held := Without(ops[o].held, a))];
      var cell := cells[a];
      if cell.waiters == [] {
        cells := cells[a := cell.(units := cell.units + 1)];
      } else {
        var first := cell.waiters[0];
        cells := cells[a := cell.(waiters := cell.waiters[1..])];
        ops := ops[first := ops[first].(phase := Granted)];
      }
      DropPointer(a);
    }

    /** The failed future destroys its continuation, which points to the cell, and then the locker with its locks. */
    method Unwind(o: OpId)
      requires Inv(S()) && o in ops && ops[o].phase.Failing?
      modifies this
      ensures S() == Unwound(old(S()), o)
    {
      hide Inv;
      AbandonedInv(S(), o);
      GrantedNext(S(), o);
      var a := ops[o].request[ops[o].next - 1];
      ops := ops[o := ops[o].(phase := Done)];
      DropPointer(a);
      ghost var s := S();
      while ops[o].held != []
        invariant Inv(S()) && o in ops && ops[o].phase.Done? && ReleasedAll(S(), o) == ReleasedAll(s, o)
        decreases |ops[o].held|
      {
        HeldDistinct(S(), o);
        FirstDropped(ops[o].held);
        Unlock(o, ops[o].held[0]);
      }
    }

    lemma HeldDistinct(s: State, o: OpId)
      requires Inv(s) && o in s.ops
      ensures forall i, j :: 0 <= i < j < |s.ops[o].held| ==> s.ops[o].held[i] != s.ops[o].held[j]
    {
    }
  }
}
