/** Atomic cells and the order in which they win reconciliation. */
module AtomicCells {
  import opened Basics
  import opened Bytes

  type Int64 = x: int | -0x8000_0000_0000_0000 <= x < 0x8000_0000_0000_0000

  const TWO64 := 0x1_0000_0000_0000_0000

  /** The cast of a signed 64-bit value to an unsigned one. */
  function Unsigned(x: Int64): nat { if x < 0 then x + TWO64 else x }

  datatype Expiry = Forever | Expires(expiry: Int64, ttl: Int64)

  datatype AtomicCell =
    | DeadCell(timestamp: Int64, deletionTime: Int64)
    | LiveCell(timestamp: Int64, expiry: Expiry, value: bytes)

  /** `compare_atomic_cell_for_merge`. */
  function CompareForMerge(a: AtomicCell, b: AtomicCell): int {
    if a.timestamp != b.timestamp then Sign(a.timestamp, b.timestamp)
    else if a.LiveCell? != b.LiveCell? then (if a.LiveCell? then -1 else 1)
    else if a.LiveCell? then
      if a.expiry.Expires? != b.expiry.Expires? then (if a.expiry.Expires? then 1 else -1)
      else if a.expiry.Expires? && a.expiry.expiry != b.expiry.expiry then Sign(a.expiry.expiry, b.expiry.expiry)
      else if a.expiry.Expires? && a.expiry.ttl != b.expiry.ttl then Sign(b.expiry.ttl, a.expiry.ttl)
      else CompareUnsigned(a.value, b.value)
    else Sign(Unsigned(a.deletionTime), Unsigned(b.deletionTime))
  }

  /** What wins: the largest timestamp; then a deletion over a live cell; of two deletions the later, as unsigned times;
      of two live cells one that expires over one that does not, then the later expiry, then the later write, then the
      larger value. */
  ghost predicate Beats(a: AtomicCell, b: AtomicCell) {
    a.timestamp > b.timestamp || (a.timestamp == b.timestamp &&
      match (a, b)
      case (DeadCell(_, _), LiveCell(_, _, _)) => true
      case (LiveCell(_, _, _), DeadCell(_, _)) => false
      case (DeadCell(_, d), DeadCell(_, e)) => if d < 0 <==> e < 0 then d > e else d < 0
      case (LiveCell(_, Expires(_, _), _), LiveCell(_, Forever, _)) => true
      case (LiveCell(_, Forever, _), LiveCell(_, Expires(_, _), _)) => false
      case (LiveCell(_, Forever, v), LiveCell(_, Forever, w)) => Larger(v, w)
      case (LiveCell(_, Expires(x, t), v), LiveCell(_, Expires(y, s), w)) =>
        x > y || (x == y && (x - t > y - s || (t == s && Larger(v, w)))))
  }

  lemma BestWins(a: AtomicCell, b: AtomicCell)
    ensures CompareForMerge(a, b) > 0 <==> Beats(a, b)
  {
    if a.LiveCell? && b.LiveCell? {
      CompareMeans(a.value, b.value);
    }
  }

  /** Reconciliation is a total order: no two different cells tie, and winning is transitive. */
  lemma MergeOrderTotal(a: AtomicCell, b: AtomicCell)
    ensures CompareForMerge(a, b) == -CompareForMerge(b, a)
    ensures CompareForMerge(a, b) == 0 <==> a == b
  {
    if a.LiveCell? && b.LiveCell? {
      CompareAntisymmetric(a.value, b.value);
    }
  }

  lemma MergeOrderTransitive(a: AtomicCell, b: AtomicCell, c: AtomicCell)
    requires CompareForMerge(a, b) <= 0 && CompareForMerge(b, c) <= 0
    ensures CompareForMerge(a, c) <= 0
  {
    if a.LiveCell? && b.LiveCell? && c.LiveCell? && CompareUnsigned(a.value, b.value) <= 0 && CompareUnsigned(b.value, c.value) <= 0 {
      CompareTransitive(a.value, b.value, c.value);
    }
  }
}
