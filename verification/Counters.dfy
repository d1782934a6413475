/** Distributed counters: cells made of per-replica shards, merged by the largest logical clock. */
module Counters {
  import opened Basics
  import opened Combine
  import opened AtomicCells

  datatype Shard = Shard(id: int, value: Int64, clock: Int64)

  const Id := (s: Shard) => s.id

  /** The shard that wins; the first one on equal clocks. */
  const Newer := (x: Shard, y: Shard) => if x.clock < y.clock then y else x

  /** `swap_value_and_clock` and `set_value_and_clock` leave the id alone. */
  function WithValueOf(s: Shard, other: Shard): Shard {
    s.(value := other.value, clock := other.clock)
  }

  ghost predicate Ordered(s: seq<Shard>) { Sorted(s, Id) }

  function Merged(a: seq<Shard>, b: seq<Shard>): seq<Shard> {
    Combined(a, b, Id, Newer)
  }

  // ---------------------------------------------------------------- merging in place

  function PlaceOf(s: seq<Shard>, id: int): (n: nat)
    ensures n <= |s| && (n < |s| ==> s[n].id == id)
    ensures forall x :: 0 <= x < n ==> s[x].id != id
  {
    if s == [] || s[0].id == id then 0 else 1 + PlaceOf(s[1..], id)
  }

  lemma IndexUnique(s: seq<Shard>, x: nat)
    requires Ordered(s) && x < |s|
    ensures PlaceOf(s, s[x].id) == x
  {
  }

  /** The destination shard at `x` after the first `i` source shards were applied. */
  function AppliedAt(d: seq<Shard>, s: seq<Shard>, i: nat, x: nat): (r: Shard)
    requires i <= |s| && x < |d|
    ensures r.id == d[x].id
  {
    var y := PlaceOf(s, d[x].id);
    if y < i then Newer(d[x], s[y]) else d[x]
  }

  /** The source shard at `y` when the first `i` were applied and all but the first `k` rolled back. */
  function SourceAt(d: seq<Shard>, s: seq<Shard>, k: nat, i: nat, y: nat): (r: Shard)
    requires k <= i <= |s| && y < |s|
    ensures r.id == s[y].id
  {
    var x := PlaceOf(d, s[y].id);
    if y < i && x < |d| && (y < k || !(d[x].clock < s[y].clock)) then WithValueOf(s[y], d[x]) else s[y]
  }

  /** Source shard `k` concerns destination shard `j` and no other. */
  lemma OneStep(d: seq<Shard>, s: seq<Shard>, k: nat, j: nat)
    requires Ordered(d) && Ordered(s) && k < |s| && j < |d| && d[j].id == s[k].id
    ensures PlaceOf(d, s[k].id) == j && PlaceOf(s, d[j].id) == k
    ensures AppliedAt(d, s, k + 1, j) == Newer(d[j], s[k]) && AppliedAt(d, s, k, j) == d[j]
    ensures forall x :: 0 <= x < |d| && x != j ==> AppliedAt(d, s, k + 1, x) == AppliedAt(d, s, k, x)
  {
    IndexUnique(d, j);
    IndexUnique(s, k);
    forall x | 0 <= x < |d| && x != j ensures AppliedAt(d, s, k + 1, x) == AppliedAt(d, s, k, x) {
      IndexUnique(d, x);
    }
  }

  ghost predicate Covers(d: seq<Shard>, s: seq<Shard>, i: nat, bound: int)
    requires i <= |s|
  {
    forall y :: 0 <= y < i ==> PlaceOf(d, s[y].id) < |d| && PlaceOf(d, s[y].id) <= bound
  }

  ghost predicate HoldsApplied(dst: seq<Shard>, d: seq<Shard>, s: seq<Shard>, i: nat)
    requires i <= |s|
  {
    |dst| == |d| && forall x :: 0 <= x < |d| ==> dst[x] == AppliedAt(d, s, i, x)
  }

  ghost predicate HoldsSource(src: seq<Shard>, d: seq<Shard>, s: seq<Shard>, k: nat, i: nat)
    requires k <= i <= |s|
  {
    |src| == |s| && forall y :: 0 <= y < |s| ==> src[y] == SourceAt(d, s, k, i, y)
  }

  /** The rollback of `apply_in_place`, from source position `i` and destination position `from`. */
  method RollBack(dst: array<Shard>, src: array<Shard>, ghost d: seq<Shard>, ghost s: seq<Shard>, i: nat, from: int)
    requires dst != src && Ordered(d) && Ordered(s)
    requires i <= |s| && from < |d| && Covers(d, s, i, from)
    requires HoldsApplied(dst[..], d, s, i) && HoldsSource(src[..], d, s, i, i)
    modifies dst, src
    ensures HoldsApplied(dst[..], d, s, 0) && HoldsSource(src[..], d, s, 0, i)
  {
    hide HoldsApplied, HoldsSource, Sorted;
    var k, j := i, from;
    while k > 0
      invariant 0 <= k <= i && j < |d| && Covers(d, s, k, j)
      invariant HoldsApplied(dst[..], d, s, k) && HoldsSource(src[..], d, s, k, i)
    {
      k := k - 1;
      IdsAt(dst[..], src[..], d, s, k + 1, i);
      assert src[k] == src[..][k];
      j := FindBack(dst, src[k].id, j, d, PlaceOf(d, s[k].id));
      UndoOne(dst, src, k, i, j, d, s);
      CoversBelow(d, s, k, j);
    }
  }

  lemma IdsAt(dst: seq<Shard>, src: seq<Shard>, d: seq<Shard>, s: seq<Shard>, k: nat, i: nat)
    requires k <= i <= |s| && HoldsApplied(dst, d, s, k) && HoldsSource(src, d, s, k, i)
    ensures |dst| == |d| && |src| == |s|
    ensures forall x :: 0 <= x < |d| ==> dst[x].id == d[x].id
    ensures forall y :: 0 <= y < |s| ==> src[y].id == s[y].id
  {
  }

  lemma CoversBelow(d: seq<Shard>, s: seq<Shard>, k: nat, j: nat)
    requires Ordered(d) && Ordered(s) && k < |s| && j < |d| && d[j].id == s[k].id && Covers(d, s, k, |d|)
    ensures Covers(d, s, k, j)
  {
    forall y | 0 <= y < k ensures PlaceOf(d, s[y].id) < |d| && PlaceOf(d, s[y].id) <= j {
      assert s[y].id < s[k].id;
    }
  }

  /** One swap of the rollback. */
  method UndoOne(dst: array<Shard>, src: array<Shard>, k: nat, i: nat, j: nat, ghost d: seq<Shard>, ghost s: seq<Shard>)
    requires dst != src && Ordered(d) && Ordered(s) && k < i <= |s| && j < |d| && d[j].id == s[k].id
    requires HoldsApplied(dst[..], d, s, k + 1) && HoldsSource(src[..], d, s, k + 1, i)
    modifies dst, src
    ensures HoldsApplied(dst[..], d, s, k) && HoldsSource(src[..], d, s, k, i)
  {
    OneStep(d, s, k, j);
    ghost var dst0, src0 := dst[..], src[..];
    assert dst[j] == dst0[j] && src[k] == src0[k];
    src[k], dst[j] := WithValueOf(src[k], dst[j]), WithValueOf(dst[j], src[k]);
    assert dst[..] == dst0[j := d[j]];
    assert src[..] == src0[k := SourceAt(d, s, k, i, k)];
  }

  /** Steps back to the destination shard with the given id. */
  method FindBack(dst: array<Shard>, id: int, from: nat, ghost d: seq<Shard>, ghost m: nat) returns (j: nat)
    requires dst.Length == |d| && m <= from < |d| && d[m].id == id
    requires forall x :: 0 <= x < |d| ==> dst[x].id == d[x].id
    ensures j < |d| && d[j].id == id && j <= from
  {
    j := from;
    while dst[j].id != id
      invariant m <= j <= from
      decreases j
    {
      j := j - 1;
    }
  }

  lemma {:induction false} FindIsIndex(s: seq<Shard>, id: int)
    ensures Find(s, Id, id) == if PlaceOf(s, id) < |s| then Some(s[PlaceOf(s, id)]) else None
  {
    if s != [] && s[0].id != id {
      FindIsIndex(s[1..], id);
    }
  }

  lemma {:induction false} SameIds(a: seq<Shard>, b: seq<Shard>, id: int)
    requires |a| == |b| && forall x :: 0 <= x < |a| ==> a[x].id == b[x].id
    ensures PlaceOf(a, id) == PlaceOf(b, id)
  {
    if a != [] && a[0].id != id {
      SameIds(a[1..], b[1..], id);
    }
  }

  lemma MergedLookup(a: seq<Shard>, b: seq<Shard>, id: int)
    requires Ordered(a) && Ordered(b)
    ensures Find(Merged(a, b), Id, id) == PickOpt(Find(a, Id, id), Find(b, Id, id), Newer)
  {
    CombinedLookup(a, b, Id, Newer, id);
  }

  lemma MergedOrdered(a: seq<Shard>, b: seq<Shard>)
    requires Ordered(a) && Ordered(b)
    ensures Ordered(Merged(a, b))
  {
    CombinedSorted(a, b, Id, Newer);
  }

  /** Once every source shard found its place, the destination is the merge of both. */
  lemma AppliedIsMerged(dst: seq<Shard>, d: seq<Shard>, s: seq<Shard>)
    requires Ordered(d) && Ordered(s) && Covers(d, s, |s|, |d|) && HoldsApplied(dst, d, s, |s|)
    ensures dst == Merged(d, s)
  {
    hide Combined, Find;
    MergedOrdered(d, s);
    forall id ensures Find(dst, Id, id) == Find(Merged(d, s), Id, id) {
      MergedLookup(d, s, id);
      FindIsIndex(dst, id);
      FindIsIndex(d, id);
      FindIsIndex(s, id);
      SameIds(dst, d, id);
    }
    SameLookups(dst, Merged(d, s), Id);
  }

  /** Whatever a failed attempt left in the source merges to the same result. */
  lemma RolledBackMerges(src: seq<Shard>, d: seq<Shard>, s: seq<Shard>, i: nat)
    requires Ordered(d) && Ordered(s) && i <= |s| && HoldsSource(src, d, s, 0, i)
    ensures Ordered(src) && Merged(d, src) == Merged(d, s)
  {
    MergedOrdered(d, s);
    MergedOrdered(d, src);
    forall id ensures Find(Merged(d, src), Id, id) == Find(Merged(d, s), Id, id) {
      MergedLookup(d, s, id);
      MergedLookup(d, src, id);
      FindIsIndex(d, id);
      FindIsIndex(s, id);
      FindIsIndex(src, id);
      SameIds(src, s, id);
    }
    SameLookups(Merged(d, src), Merged(d, s), Id);
  }

  ghost predicate HasAllIds(d: seq<Shard>, s: seq<Shard>) {
    forall y :: 0 <= y < |s| ==> PlaceOf(d, s[y].id) < |d|
  }

  /** `apply_in_place`: succeeds exactly when the destination has every id of the source.  Then the
      destination holds the merge and the source what the destination held before; otherwise the
      destination is untouched and the source still merges to the same result. */
  method ApplyInPlace(dst: array<Shard>, src: array<Shard>) returns (ok: bool)
    requires dst != src && Ordered(dst[..]) && Ordered(src[..])
    modifies dst, src
    ensures ok <==> old(HasAllIds(dst[..], src[..]))
    ensures ok ==> dst[..] == old(Merged(dst[..], src[..]))
    ensures ok ==> forall y :: 0 <= y < src.Length ==> src[y] == old(dst[..])[PlaceOf(old(dst[..]), old(src[y]).id)]
    ensures !ok ==> dst[..] == old(dst[..]) && Ordered(src[..])
    ensures !ok ==> Merged(dst[..], src[..]) == old(Merged(dst[..], src[..]))
  {
    hide HoldsApplied, HoldsSource, Merged, Sorted, HasAllIds;
    ghost var d, s := dst[..], src[..];
    Untouched(d, s);
    var i, j: int := 0, 0;
    while i < src.Length
      invariant 0 <= i <= |s| && 0 <= j <= |d| && Covers(d, s, i, j)
      invariant HoldsApplied(dst[..], d, s, i) && HoldsSource(src[..], d, s, i, i)
      invariant i < |s| ==> forall x :: 0 <= x < j ==> d[x].id < s[i].id
    {
      IdsAt(dst[..], src[..], d, s, i, i);
      assert src[i] == src[..][i];
      j := SkipBelow(dst, src[i].id, j, d);
      assert j < dst.Length ==> dst[j] == dst[..][j];
      if j == dst.Length || dst[j].id != src[i].id {
        ok := false;
        Aborted(d, s, i, j);
        if j == dst.Length {
          j := j - 1;
        }
        RollBack(dst, src, d, s, i, j);
        RolledBack(dst[..], src[..], d, s, i);
        return;
      }
      ApplyOne(dst, src, i, j, d, s);
      i := i + 1;
      StillBelow(d, s, i, j);
    }
    ok := true;
    Finished(dst[..], src[..], d, s, j);
    forall y | 0 <= y < src.Length ensures src[y] == d[PlaceOf(d, s[y].id)] {
      assert src[y] == src[..][y];
    }
  }

  lemma Untouched(d: seq<Shard>, s: seq<Shard>)
    ensures HoldsApplied(d, d, s, 0) && HoldsSource(s, d, s, 0, 0) && Covers(d, s, 0, 0)
  {
  }

  lemma StillBelow(d: seq<Shard>, s: seq<Shard>, i: nat, j: nat)
    requires Ordered(d) && Ordered(s) && 0 < i <= |s| && j < |d| && d[j].id == s[i - 1].id
    ensures i < |s| ==> forall x :: 0 <= x < j ==> d[x].id < s[i].id
  {
  }

  lemma Aborted(d: seq<Shard>, s: seq<Shard>, i: nat, j: nat)
    requires Ordered(d) && Ordered(s) && i < |s| && j <= |d| && Covers(d, s, i, j)
    requires (forall x :: 0 <= x < j ==> d[x].id < s[i].id) && (j < |d| ==> d[j].id > s[i].id)
    ensures !HasAllIds(d, s) && Covers(d, s, i, if j == |d| then j - 1 else j)
  {
    NotFound(d, s[i].id, j);
    if j == |d| {
      forall y | 0 <= y < i ensures PlaceOf(d, s[y].id) <= j - 1 {
        assert PlaceOf(d, s[y].id) < |d|;
      }
    }
  }

  lemma RolledBack(dst: seq<Shard>, src: seq<Shard>, d: seq<Shard>, s: seq<Shard>, i: nat)
    requires Ordered(d) && Ordered(s) && i <= |s| && HoldsApplied(dst, d, s, 0) && HoldsSource(src, d, s, 0, i)
    ensures dst == d && Ordered(src) && Merged(d, src) == Merged(d, s)
  {
    RolledBackMerges(src, d, s, i);
  }

  lemma Finished(dst: seq<Shard>, src: seq<Shard>, d: seq<Shard>, s: seq<Shard>, j: nat)
    requires Ordered(d) && Ordered(s) && j <= |d| && Covers(d, s, |s|, j)
    requires HoldsApplied(dst, d, s, |s|) && HoldsSource(src, d, s, |s|, |s|)
    ensures HasAllIds(d, s) && dst == Merged(d, s) && |src| == |s|
    ensures forall y :: 0 <= y < |s| ==> PlaceOf(d, s[y].id) < |d| && src[y] == d[PlaceOf(d, s[y].id)]
  {
    AppliedIsMerged(dst, d, s);
  }

  /** One shard of the source meets the destination shard with its id: the newer one ends up in the
      destination, the destination's old one in the source. */
  method ApplyOne(dst: array<Shard>, src: array<Shard>, i: nat, j: nat, ghost d: seq<Shard>, ghost s: seq<Shard>)
    requires dst != src && Ordered(d) && Ordered(s) && i < |s| && j < |d| && d[j].id == s[i].id
    requires HoldsApplied(dst[..], d, s, i) && HoldsSource(src[..], d, s, i, i) && Covers(d, s, i, j)
    modifies dst, src
    ensures HoldsApplied(dst[..], d, s, i + 1) && HoldsSource(src[..], d, s, i + 1, i + 1) && Covers(d, s, i + 1, j)
  {
    OneStep(d, s, i, j);
    ghost var dst0, src0 := dst[..], src[..];
    assert dst[j] == dst0[j] && src[i] == src0[i];
    if dst[j].clock < src[i].clock {
      dst[j], src[i] := WithValueOf(dst[j], src[i]), WithValueOf(src[i], dst[j]);
    } else {
      src[i] := WithValueOf(src[i], dst[j]);
    }
    assert dst[..] == dst0[j := Newer(d[j], s[i])];
    assert src[..] == src0[i := d[j]];
  }

  /** The inner loop: passes the destination shards with smaller ids. */
  method SkipBelow(dst: array<Shard>, id: int, from: nat, ghost d: seq<Shard>) returns (j: nat)
    requires dst.Length == |d| && from <= |d|
    requires forall x :: 0 <= x < |d| ==> dst[x].id == d[x].id
    requires forall x :: 0 <= x < from ==> d[x].id < id
    ensures from <= j <= |d| && forall x :: 0 <= x < j ==> d[x].id < id
    ensures j < |d| ==> d[j].id >= id
  {
    j := from;
    while j < dst.Length && dst[j].id < id
      invariant from <= j <= |d| && forall x :: 0 <= x < j ==> d[x].id < id
    {
      j := j + 1;
    }
  }

  lemma NotFound(d: seq<Shard>, id: int, j: nat)
    requires Ordered(d) && j <= |d| && (forall x :: 0 <= x < j ==> d[x].id < id) && (j < |d| ==> d[j].id > id)
    ensures PlaceOf(d, id) == |d|
  {
  }

  // ---------------------------------------------------------------- cells

  /** A counter cell: deleted, a pending update, or a set of shards. */
  datatype Cell =
    | Dead(timestamp: Int64, deletionTime: Int64)
    | Update(timestamp: Int64, delta: Int64)
    | Live(timestamp: Int64, shards: seq<Shard>)

  ghost predicate WellFormed(c: Cell) { c.Live? ==> Ordered(c.shards) }

  function Later(a: Int64, b: Int64): Int64 { if a < b then b else a }

  /** 64-bit two's complement wrap-around. */
  function Wrap(x: int): Int64 {
    (x + 0x8000_0000_0000_0000) % TWO64 - 0x8000_0000_0000_0000
  }

  /** Two dead cells reconcile like any other dead cells. */
  predicate DeadLoses(a: Cell, b: Cell)
    requires a.Dead? && b.Dead?
  {
    CompareForMerge(DeadCell(a.timestamp, a.deletionTime), DeadCell(b.timestamp, b.deletionTime)) < 0
  }

  /** The cell that `counter_cell_view::apply` leaves in its destination. */
  function Applied(dst: Cell, src: Cell): Cell
    requires dst.Update? && !src.Dead? ==> src.Update?
    requires src.Update? && !dst.Dead? ==> dst.Update?
  {
    if dst.Dead? || src.Dead? then
      if !dst.Dead? || (src.Dead? && DeadLoses(dst, src)) then src else dst
    else if dst.Update? then Update(Later(dst.timestamp, src.timestamp), Wrap(src.delta + dst.delta))
    else Live(Later(dst.timestamp, src.timestamp), Merged(dst.shards, src.shards))
  }

  /** An `atomic_cell_or_collection` holding a counter cell, with the shards in memory of its own. */
  class CellBox {
    var header: Cell          // shards of a live header are in `shards`
    var shards: array<Shard>

    function Value(): Cell
      reads this, shards
    {
      if header.Live? then Live(header.timestamp, shards[..]) else header
    }

    constructor (header: Cell, shards: array<Shard>)
      ensures this.header == header && this.shards == shards
    {
      this.header := header;
      this.shards := shards;
    }
  }

  /** `counter_cell_view::apply`.  The fast path is tried when the destination has at least as many
      shards; when it fails the slow path runs on what it left behind, and the source receives the old
      destination. */
  method Apply(dst: CellBox, src: CellBox)
    requires dst != src && dst.shards != src.shards
    requires WellFormed(dst.Value()) && WellFormed(src.Value())
    requires dst.header.Update? && !src.header.Dead? ==> src.header.Update?
    requires src.header.Update? && !dst.header.Dead? ==> dst.header.Update?
    modifies dst, src, dst.shards, src.shards
    ensures dst.Value() == old(Applied(dst.Value(), src.Value()))
    ensures old(dst.header.Dead? || src.header.Dead?) ==>
      src.Value() == if dst.Value() == old(dst.Value()) then old(src.Value()) else old(dst.Value())
    ensures old(dst.header.Update? && src.header.Update?) ==> src.Value() == old(src.Value())
    ensures old(dst.header.Live? && src.header.Live?) ==>
      if old(dst.shards.Length >= src.shards.Length && HasAllIds(dst.shards[..], src.shards[..])) then
        && src.header.Live? && src.header.timestamp == old(dst.header.timestamp) && src.shards == old(src.shards)
        && forall y :: 0 <= y < src.shards.Length ==>
          src.shards[y] == old(dst.shards[..])[PlaceOf(old(dst.shards[..]), old(src.shards[y]).id)]
      else src.Value() == old(dst.Value())
  {
    hide Combined, Sorted;
    if dst.header.Dead? || src.header.Dead? {
      if !dst.header.Dead? || (src.header.Dead? && DeadLoses(dst.header, src.header)) {
        dst.header, src.header := src.header, dst.header;
        dst.shards, src.shards := src.shards, dst.shards;
      }
      return;
    }
    if dst.header.Update? {
      dst.header := Update(Later(dst.header.timestamp, src.header.timestamp), Wrap(src.header.delta + dst.header.delta));
      return;
    }
    var latest := Later(dst.header.timestamp, src.header.timestamp);
    if dst.shards.Length >= src.shards.Length {
      var ok := ApplyInPlace(dst.shards, src.shards);
      if ok {
        src.header := Live(dst.header.timestamp, []);
        dst.header := Live(latest, []);
        return;
      }
    }
    var merged := CombineInto(dst.shards[..], src.shards[..], Id, Newer);
    var newShards := new Shard[|merged|](i requires 0 <= i < |merged| => merged[i]);
    assert newShards[..] == merged;
    src.header, src.shards := dst.header, dst.shards;
    dst.header, dst.shards := Live(latest, []), newShards;
  }

  // ---------------------------------------------------------------- laws of merging

  /** Equal id and clock mean the same shard. */
  ghost predicate Consistent(a: seq<Shard>, b: seq<Shard>) {
    forall x, y :: x in a && y in b && x.id == y.id && x.clock == y.clock ==> x == y
  }

  lemma MergeCommutes(a: seq<Shard>, b: seq<Shard>)
    requires Ordered(a) && Ordered(b)
    ensures Merged(a, b) == Merged(b, a) <==> Consistent(a, b)
  {
    if Consistent(a, b) {
      Commutes(a, b, Id, Newer);
    } else {
      var x, y :| x in a && y in b && x.id == y.id && x.clock == y.clock && x != y;
      FoundIn(a, x, Id);
      FoundIn(b, y, Id);
      MergedLookup(a, b, x.id);
      MergedLookup(b, a, x.id);
    }
  }

  /** Applying shard cells and dead cells in either order gives the same cell, exactly when no two
      shards with one id and clock differ. */
  lemma ApplyCommutes(a: Cell, b: Cell)
    requires WellFormed(a) && WellFormed(b) && !a.Update? && !b.Update?
    ensures Applied(a, b) == Applied(b, a) <==> (a.Live? && b.Live? ==> Consistent(a.shards, b.shards))
  {
    if a.Live? && b.Live? {
      MergeCommutes(a.shards, b.shards);
    } else if a.Dead? && b.Dead? {
      MergeOrderTotal(DeadCell(a.timestamp, a.deletionTime), DeadCell(b.timestamp, b.deletionTime));
    }
  }

  /** Two shards with one id and clock and different values: whichever is applied to stays. */
  lemma OrderMatters()
    ensures var a, b := Live(0, [Shard(0, 1, 7)]), Live(0, [Shard(0, 2, 7)]);
      Applied(a, b) != Applied(b, a)
  {
    var a, b := Live(0, [Shard(0, 1, 7)]), Live(0, [Shard(0, 2, 7)]);
    ApplyCommutes(a, b);
    assert a.shards[0] in a.shards && b.shards[0] in b.shards;
  }

  /** A deletion wins over anything that is not one; of two deletions the later one stays. */
  lemma DeletionWins(a: Cell, b: Cell)
    requires (a.Update? && !b.Dead? ==> b.Update?) && (b.Update? && !a.Dead? ==> a.Update?)
    ensures Applied(a, b).Dead? <==> a.Dead? || b.Dead?
    ensures a.Dead? && !b.Dead? ==> Applied(a, b) == a
    ensures !a.Dead? && b.Dead? ==> Applied(a, b) == b
    ensures a.Dead? && b.Dead? ==>
      && (a.timestamp > b.timestamp ==> Applied(a, b) == a) && (a.timestamp < b.timestamp ==> Applied(a, b) == b)
      && (a.timestamp == b.timestamp && 0 <= a.deletionTime < b.deletionTime ==> Applied(a, b) == b)
      && (a.timestamp == b.timestamp && 0 <= b.deletionTime < a.deletionTime ==> Applied(a, b) == a)
  {
  }

  /** The result of applying one cell to another that is not deleted carries the later of the two timestamps. */
  lemma LatestTimestamp(a: Cell, b: Cell)
    requires !a.Dead? && !b.Dead? && a.Update? == b.Update?
    ensures Applied(a, b).timestamp in {a.timestamp, b.timestamp}
    ensures a.timestamp <= Applied(a, b).timestamp && b.timestamp <= Applied(a, b).timestamp
  {
  }

  /** Sums are kept modulo 2^64. */
  lemma WrapCongruent(x: int)
    ensures (Wrap(x) - x) % TWO64 == 0 && (-0x8000_0000_0000_0000 <= x < 0x8000_0000_0000_0000 ==> Wrap(x) == x)
  {
    var k := (x + 0x8000_0000_0000_0000) / TWO64;
    assert Wrap(x) - x == -k * TWO64;
  }

  lemma WrapUnique(v: Int64, x: int, k: int)
    requires v == x + k * TWO64
    ensures v == Wrap(x)
  {
    WrapCongruent(x);
    var j := (x + 0x8000_0000_0000_0000) / TWO64;
    assert Wrap(x) == x - j * TWO64;
  }

  lemma WrapInner(x: int, y: int)
    ensures Wrap(Wrap(x) + y) == Wrap(x + y)
  {
    var k := (x + 0x8000_0000_0000_0000) / TWO64;
    assert Wrap(x) == x - k * TWO64;
    var j := (x + y + 0x8000_0000_0000_0000) / TWO64;
    assert Wrap(x + y) == Wrap(x) + y + (k - j) * TWO64;
    WrapUnique(Wrap(x + y), Wrap(x) + y, k - j);
  }

  /** Pending updates, and deletions among them, are applied in any order and grouping, and their deltas add up. */
  lemma UpdatesAddUp(a: Cell, b: Cell, c: Cell)
    requires !a.Live? && !b.Live? && !c.Live?
    ensures !Applied(a, b).Live? && !Applied(b, c).Live?
    ensures Applied(a, b) == Applied(b, a)
    ensures Applied(Applied(a, b), c) == Applied(a, Applied(b, c))
    ensures a.Update? && b.Update? ==> Applied(a, b).Update? && Applied(a, b).delta == Wrap(a.delta + b.delta)
  {
    if a.Dead? && b.Dead? {
      MergeOrderTotal(DeadCell(a.timestamp, a.deletionTime), DeadCell(b.timestamp, b.deletionTime));
    }
    if a.Update? && b.Update? && c.Update? {
      WrapInner(b.delta + a.delta, c.delta);
      WrapInner(c.delta + b.delta, a.delta);
    }
  }

  lemma AppliedWellFormed(a: Cell, b: Cell)
    requires WellFormed(a) && WellFormed(b) && !a.Update? && !b.Update?
    ensures WellFormed(Applied(a, b)) && !Applied(a, b).Update?
  {
    if a.Live? && b.Live? {
      MergedOrdered(a.shards, b.shards);
    }
  }

  lemma ApplyAssociates(a: Cell, b: Cell, c: Cell)
    requires WellFormed(a) && WellFormed(b) && WellFormed(c) && !a.Update? && !b.Update? && !c.Update?
    ensures !Applied(a, b).Update? && !Applied(b, c).Update?
    ensures Applied(Applied(a, b), c) == Applied(a, Applied(b, c))
  {
    AppliedWellFormed(a, b);
    AppliedWellFormed(b, c);
    if a.Live? && b.Live? && c.Live? {
      Associates(a.shards, b.shards, c.shards, Id, Newer);
    }
  }

  lemma ApplyIdempotent(a: Cell)
    requires !a.Update?
    ensures Applied(a, a) == a
  {
    if a.Live? {
      Idempotent(a.shards, Id, Newer);
    }
  }

  // ---------------------------------------------------------------- difference

  /** Whether `b` lacks the shard or has an older one. */
  predicate Needed(x: Shard, b: seq<Shard>) {
    var i := PlaceOf(b, x.id);
    i == |b| || x.clock > b[i].clock
  }

  function NeededShards(a: seq<Shard>, b: seq<Shard>): (r: seq<Shard>)
    ensures forall x :: x in r ==> x in a && Needed(x, b)
  {
    if a == [] then []
    else (if Needed(a[0], b) then [a[0]] else []) + NeededShards(a[1..], b)
  }

  lemma {:induction false} NeededSplit(a: seq<Shard>, x: Shard, b: seq<Shard>)
    ensures NeededShards(a + [x], b) == NeededShards(a, b) + if Needed(x, b) then [x] else []
  {
    if a != [] {
      assert (a + [x])[1..] == a[1..] + [x];
      NeededSplit(a[1..], x, b);
    }
  }

  lemma {:induction false} NeededOrdered(a: seq<Shard>, b: seq<Shard>)
    requires Ordered(a)
    ensures Ordered(NeededShards(a, b))
  {
    if a != [] {
      NeededOrdered(a[1..], b);
      assert forall x :: x in a[1..] ==> a[0].id < x.id;
    }
  }

  lemma {:induction false} NeededLookup(a: seq<Shard>, b: seq<Shard>, id: int)
    requires Ordered(a)
    ensures var f := Find(a, Id, id);
      Find(NeededShards(a, b), Id, id) == if f.Some? && Needed(f.value, b) then f else None
  {
    if a != [] {
      SortedTail(a, Id);
      NeededLookup(a[1..], b, id);
    }
  }

  function DifferenceOf(a: Cell, b: Cell): Option<Cell>
    requires !a.Update? && !b.Update?
  {
    if a.Dead? || b.Dead? then
      if !b.Dead? || (a.Dead? && DeadLoses(b, a)) then Some(a) else None
    else
      var needed := NeededShards(a.shards, b.shards);
      if needed != [] then Some(Live(Later(a.timestamp, b.timestamp), needed))
      else if a.timestamp > b.timestamp then Some(Live(a.timestamp, []))
      else None
  }

  /** One turn of the loop: moves the cursor in the other cell up to the shard's id and decides on the shard. */
  method DifferenceStep(x: Shard, b: seq<Shard>, from: nat) returns (j: nat, needed: bool)
    requires Ordered(b) && from <= |b| && forall y :: 0 <= y < from ==> b[y].id < x.id
    ensures j <= |b| && forall y :: 0 <= y < j ==> b[y].id < x.id
    ensures needed == Needed(x, b)
  {
    hide Needed;
    j := from;
    while j < |b| && b[j].id < x.id
      invariant j <= |b| && forall y :: 0 <= y < j ==> b[y].id < x.id
    {
      j := j + 1;
    }
    AtCursor(b, x, j);
    needed := j == |b| || x.id != b[j].id || x.clock > b[j].clock;
  }

  /** The loop with its two cursors. */
  method CollectNeeded(a: seq<Shard>, b: seq<Shard>) returns (result: seq<Shard>)
    requires Ordered(a) && Ordered(b)
    ensures result == NeededShards(a, b)
  {
    hide NeededShards, Needed, Sorted;
    result := [];
    var j := 0;
    NeededNone(a[..0], b);
    for i := 0 to |a|
      invariant 0 <= j <= |b| && result == NeededShards(a[..i], b)
      invariant i < |a| ==> forall y :: 0 <= y < j ==> b[y].id < a[i].id
    {
      var needed;
      j, needed := DifferenceStep(a[i], b, j);
      NeededSplit(a[..i], a[i], b);
      assert a[..i + 1] == a[..i] + [a[i]];
      if needed {
        result := result + [a[i]];
      }
      Ascends(a, i);
    }
    assert a[..|a|] == a;
  }

  lemma Ascends(a: seq<Shard>, i: nat)
    requires Ordered(a)
    ensures i + 1 < |a| ==> a[i].id < a[i + 1].id
  {
    assert i + 1 < |a| ==> Id(a[i]) < Id(a[i + 1]);
  }

  /** `counter_cell_view::difference`. */
  method Difference(a: Cell, b: Cell) returns (diff: Option<Cell>)
    requires WellFormed(a) && WellFormed(b) && !a.Update? && !b.Update?
    ensures diff == DifferenceOf(a, b)
  {
    hide NeededShards, Sorted;
    if a.Dead? || b.Dead? {
      return if !b.Dead? || (a.Dead? && DeadLoses(b, a)) then Some(a) else None;
    }
    var result := CollectNeeded(a.shards, b.shards);
    if result != [] {
      diff := Some(Live(Later(a.timestamp, b.timestamp), result));
    } else if a.timestamp > b.timestamp {
      diff := Some(Live(a.timestamp, []));
    } else {
      diff := None;
    }
  }

  lemma NeededNone(a: seq<Shard>, b: seq<Shard>)
    requires a == []
    ensures NeededShards(a, b) == []
  {
  }

  lemma AtCursor(b: seq<Shard>, x: Shard, j: nat)
    requires Ordered(b) && j <= |b| && (forall i :: 0 <= i < j ==> b[i].id < x.id) && (j < |b| ==> b[j].id >= x.id)
    ensures Needed(x, b) <==> j == |b| || b[j].id != x.id || x.clock > b[j].clock
  {
    if j < |b| && b[j].id == x.id {
      IndexUnique(b, j);
    } else {
      NotFound(b, x.id, j);
    }
  }

  /** Applying the difference has the effect of applying the whole cell. */
  lemma DifferenceSuffices(a: Cell, b: Cell)
    requires WellFormed(a) && WellFormed(b) && !a.Update? && !b.Update?
    ensures DifferenceOf(a, b).Some? ==> !DifferenceOf(a, b).value.Update? && WellFormed(DifferenceOf(a, b).value)
    ensures Applied(b, a) == match DifferenceOf(a, b) case None => b case Some(d) => Applied(b, d)
  {
    hide Combined, NeededShards, Sorted;
    if a.Live? && b.Live? {
      NeededOrdered(a.shards, b.shards);
      NeededSuffices(a.shards, b.shards);
      MergedWithNone(b.shards);
      OrderedNone();
    }
  }

  lemma MergedWithNone(b: seq<Shard>)
    ensures Merged(b, []) == b
  {
  }

  lemma OrderedNone()
    ensures Ordered([])
  {
  }

  lemma NeededSuffices(a: seq<Shard>, b: seq<Shard>)
    requires Ordered(a) && Ordered(b)
    ensures Merged(b, NeededShards(a, b)) == Merged(b, a)
  {
    hide Combined, Find;
    var needed := NeededShards(a, b);
    NeededOrdered(a, b);
    MergedOrdered(b, needed);
    MergedOrdered(b, a);
    forall id ensures Find(Merged(b, needed), Id, id) == Find(Merged(b, a), Id, id) {
      NeededLookup(a, b, id);
      MergedLookup(b, needed, id);
      MergedLookup(b, a, id);
      FindIsIndex(b, id);
    }
    SameLookups(Merged(b, needed), Merged(b, a), Id);
  }

  /** No shard of the difference can be left out: without it, some shard of the result is missing or old. */
  lemma DifferenceMinimal(a: seq<Shard>, b: seq<Shard>, x: Shard, less: seq<Shard>)
    requires Ordered(a) && Ordered(b) && Ordered(less)
    requires x in NeededShards(a, b) && forall y :: y in less ==> y.id != x.id
    ensures Merged(b, less) != Merged(b, a)
  {
    FoundIn(a, x, Id);
    FindIsIndex(b, x.id);
    MergedLookup(b, less, x.id);
    MergedLookup(b, a, x.id);
  }
}
