/** Compacting a collection in place: dropping what tombstones cover, expiring cells, purging old deletions. */
module CollectionCompaction {
  import opened AtomicCells
  import opened Basics
  import opened Combine
  import opened Collections

  /** The arguments: the row's tombstones, the time of the query, and what may be purged. */
  datatype Policy = Policy(regular: Tombstone, shadowable: Tombstone, queryTime: Int64,
                           canGc: Tombstone -> bool, gcBefore: Int64)

  predicate Expired(c: AtomicCell, now: Int64) {
    c.LiveCell? && c.expiry.Expires? && c.expiry.expiry <= now
  }

  predicate IsDead(c: AtomicCell, now: Int64) {
    c.DeadCell? || Expired(c, now)
  }

  /** The write time of an expiring cell has to be representable. */
  predicate Dated(c: AtomicCell) {
    c.LiveCell? && c.expiry.Expires? ==>
      -0x8000_0000_0000_0000 <= c.expiry.expiry as int - c.expiry.ttl as int < 0x8000_0000_0000_0000
  }

  /** `deletion_time`. */
  function DeletionTime(c: AtomicCell): Int64
    requires Dated(c) && (c.DeadCell? || c.expiry.Expires?)
  {
    if c.DeadCell? then c.deletionTime else (c.expiry.expiry as int - c.expiry.ttl as int) as Int64
  }

  /** The deletion that an expired cell has become; a dead cell stays what it is. */
  function Buried(e: Element, now: Int64): (r: Element)
    requires Dated(e.cell) && IsDead(e.cell, now)
    ensures r.key == e.key && r.cell.DeadCell? && r.cell.timestamp == e.cell.timestamp
  {
    Element(e.key, DeadCell(e.cell.timestamp, DeletionTime(e.cell)))
  }

  predicate CannotErase(c: AtomicCell, p: Policy)
    requires Dated(c) && (c.DeadCell? || c.expiry.Expires?)
  {
    DeletionTime(c) >= p.gcBefore || !p.canGc(Tombstone(c.timestamp, DeletionTime(c)))
  }

  predicate Covered(e: Element, tomb: Tombstone, p: Policy) {
    e.cell.timestamp <= Latest(tomb, p.regular).timestamp || e.cell.timestamp <= p.shadowable.timestamp
  }

  /** What a reader sees: a live cell that no tombstone covers and that has not expired. */
  predicate Visible(e: Element, tomb: Tombstone, p: Policy) {
    e.cell.LiveCell? && !Covered(e, tomb, p) && !Expired(e.cell, p.queryTime)
  }

  ghost predicate AllDated(cells: seq<Element>) {
    forall e :: e in cells ==> Dated(e.cell)
  }

  // ---------------------------------------------------------------- what compaction leaves and gives away

  /** The cell as it stays, if it does. */
  function Kept(e: Element, tomb: Tombstone, p: Policy): seq<Element>
    requires Dated(e.cell)
  {
    if Covered(e, tomb, p) then []
    else if !IsDead(e.cell, p.queryTime) then [e]
    else if CannotErase(e.cell, p) then [Buried(e, p.queryTime)]
    else []
  }

  /** The cell as the collector gets it, if it does. */
  function Given(e: Element, tomb: Tombstone, p: Policy): seq<Element>
    requires Dated(e.cell)
  {
    if !Covered(e, tomb, p) && IsDead(e.cell, p.queryTime) && !CannotErase(e.cell, p) then [Buried(e, p.queryTime)] else []
  }

  function Survivors(cells: seq<Element>, tomb: Tombstone, p: Policy): seq<Element>
    requires AllDated(cells)
  {
    if cells == [] then [] else Kept(cells[0], tomb, p) + Survivors(cells[1..], tomb, p)
  }

  function Losers(cells: seq<Element>, tomb: Tombstone, p: Policy): seq<Element>
    requires AllDated(cells)
  {
    if cells == [] then [] else Given(cells[0], tomb, p) + Losers(cells[1..], tomb, p)
  }

  function Shown(cells: seq<Element>, tomb: Tombstone, p: Policy): (r: seq<Element>)
    ensures |r| <= |cells|
  {
    if cells == [] then []
    else (if Visible(cells[0], tomb, p) then [cells[0]] else []) + Shown(cells[1..], tomb, p)
  }

  function KeptTomb(tomb: Tombstone, p: Policy): Tombstone {
    if !Before(p.regular, tomb) || Purged(tomb, p) then NoTombstone else tomb
  }

  predicate Purged(tomb: Tombstone, p: Policy) {
    Before(p.regular, tomb) && tomb.deletionTime < p.gcBefore && p.canGc(tomb)
  }

  // ---------------------------------------------------------------- the operation

  datatype Statistics = Statistics(collectionTombstones: nat, live: nat, dead: nat)

  /** `collection_mutation_description`. */
  class CollectionMutation {
    var tomb: Tombstone
    var cells: seq<Element>

    constructor (tomb: Tombstone, cells: seq<Element>)
      ensures this.tomb == tomb && this.cells == cells
    {
      this.tomb, this.cells := tomb, cells;
    }

    /** `compact_and_expire`; `collected` is what a collector, if there is one, is given. */
    method CompactAndExpire(p: Policy, hasCollector: bool) returns (res: Statistics, collected: Description)
      requires AllDated(cells)
      modifies this
      ensures tomb == KeptTomb(old(tomb), p)
      ensures cells == Survivors(old(cells), old(tomb), p)
      ensures res.collectionTombstones == (if old(tomb).timestamp != MISSING then 1 else 0)
      ensures res.live == |Shown(old(cells), old(tomb), p)| && res.live + res.dead == |old(cells)|
      ensures hasCollector ==> collected.tomb == (if Purged(old(tomb), p) then old(tomb) else NoTombstone)
      ensures hasCollector ==> collected.cells == Losers(old(cells), old(tomb), p)
    {
      hide Survivors, Losers, Shown;
      var t := tomb;
      var purged := NoTombstone;
      var tombstones := if tomb.timestamp != MISSING then 1 else 0;
      if !Before(p.regular, tomb) {
        tomb := NoTombstone;
      } else if tomb.deletionTime < p.gcBefore && p.canGc(tomb) {
        purged := tomb;
        tomb := NoTombstone;
      }
      if Before(t, p.regular) {
        t := p.regular;
      }
      var survivors, losers: seq<Element> := [], [];
      var live, dead := 0, 0;
      Nothing(old(tomb), p);
      for i := 0 to |cells|
        invariant cells == old(cells) && tomb == KeptTomb(old(tomb), p)
        invariant survivors == Survivors(cells[..i], old(tomb), p)
        invariant hasCollector ==> losers == Losers(cells[..i], old(tomb), p)
        invariant live == |Shown(cells[..i], old(tomb), p)| && live + dead == i
      {
        var e := cells[i];
        assert cells[..i + 1] == cells[..i] + [e];
        OneMore(cells[..i], e, old(tomb), p);
        if e.cell.timestamp <= t.timestamp || e.cell.timestamp <= p.shadowable.timestamp {
          dead := dead + 1;
        } else if Expired(e.cell, p.queryTime) {
          var deletionTime := DeletionTime(e.cell);
          if deletionTime >= p.gcBefore || !p.canGc(Tombstone(e.cell.timestamp, deletionTime)) {
            survivors := survivors + [Element(e.key, DeadCell(e.cell.timestamp, deletionTime))];
          } else if hasCollector {
            losers := losers + [Element(e.key, DeadCell(e.cell.timestamp, deletionTime))];
          }
          dead := dead + 1;
        } else if e.cell.DeadCell? {
          if e.cell.deletionTime >= p.gcBefore || !p.canGc(Tombstone(e.cell.timestamp, e.cell.deletionTime)) {
            survivors := survivors + [e];
          } else if hasCollector {
            losers := losers + [e];
          }
          dead := dead + 1;
        } else {
          survivors := survivors + [e];
          live := live + 1;
        }
      }
      assert cells[..|cells|] == cells;
      collected := Description(purged, losers);
      cells := survivors;
      res := Statistics(tombstones, live, dead);
    }
  }

  lemma Nothing(tomb: Tombstone, p: Policy)
    ensures Survivors([], tomb, p) == [] && Losers([], tomb, p) == [] && Shown([], tomb, p) == []
  {
  }

  lemma OneMore(cells: seq<Element>, e: Element, tomb: Tombstone, p: Policy)
    requires AllDated(cells) && Dated(e.cell)
    ensures AllDated(cells + [e])
    ensures Survivors(cells + [e], tomb, p) == Survivors(cells, tomb, p) + Kept(e, tomb, p)
    ensures Losers(cells + [e], tomb, p) == Losers(cells, tomb, p) + Given(e, tomb, p)
    ensures Shown(cells + [e], tomb, p) == Shown(cells, tomb, p) + (if Visible(e, tomb, p) then [e] else [])
  {
    hide Survivors, Losers, Shown, Kept, Given;
    SurvivorsAppend(cells, e, tomb, p);
    LosersAppend(cells, e, tomb, p);
    ShownAppend(cells, e, tomb, p);
  }

  lemma {:induction false} SurvivorsAppend(cells: seq<Element>, e: Element, tomb: Tombstone, p: Policy)
    requires AllDated(cells) && Dated(e.cell)
    ensures AllDated(cells + [e])
    ensures Survivors(cells + [e], tomb, p) == Survivors(cells, tomb, p) + Kept(e, tomb, p)
  {
    hide Kept;
    if cells != [] {
      assert (cells + [e])[1..] == cells[1..] + [e];
      SurvivorsAppend(cells[1..], e, tomb, p);
    }
  }

  lemma {:induction false} LosersAppend(cells: seq<Element>, e: Element, tomb: Tombstone, p: Policy)
    requires AllDated(cells) && Dated(e.cell)
    ensures AllDated(cells + [e])
    ensures Losers(cells + [e], tomb, p) == Losers(cells, tomb, p) + Given(e, tomb, p)
  {
    hide Given;
    if cells != [] {
      assert (cells + [e])[1..] == cells[1..] + [e];
      LosersAppend(cells[1..], e, tomb, p);
    }
  }

  lemma {:induction false} ShownAppend(cells: seq<Element>, e: Element, tomb: Tombstone, p: Policy)
    ensures Shown(cells + [e], tomb, p) == Shown(cells, tomb, p) + (if Visible(e, tomb, p) then [e] else [])
  {
    hide Visible;
    if cells != [] {
      assert (cells + [e])[1..] == cells[1..] + [e];
      ShownAppend(cells[1..], e, tomb, p);
    }
  }

  // ---------------------------------------------------------------- what it keeps

  /** A cell that stays is dealt with the same way again, whether or not the tombstone was purged. */
  lemma KeptAgain(e: Element, tomb: Tombstone, p: Policy)
    requires Dated(e.cell)
    ensures |Kept(e, tomb, p)| <= 1
    ensures forall f :: f in Kept(e, tomb, p) ==>
      && f.key == e.key && Dated(f.cell) && !Covered(f, tomb, p)
      && Kept(f, KeptTomb(tomb, p), p) == [f] && Given(f, KeptTomb(tomb, p), p) == []
      && (Visible(f, KeptTomb(tomb, p), p) <==> Visible(e, tomb, p)) && (Visible(e, tomb, p) ==> f == e)
  {
    assert Latest(KeptTomb(tomb, p), p.regular).timestamp <= Latest(tomb, p.regular).timestamp;
  }

  lemma GoneUnseen(e: Element, tomb: Tombstone, p: Policy)
    requires Dated(e.cell) && Kept(e, tomb, p) == []
    ensures !Visible(e, tomb, p)
  {
  }

  /** The same cells, in the same order, are visible to a reader before and after. */
  lemma {:induction false} VisibleKept(cells: seq<Element>, tomb: Tombstone, p: Policy)
    requires AllDated(cells)
    ensures Shown(Survivors(cells, tomb, p), KeptTomb(tomb, p), p) == Shown(cells, tomb, p)
  {
    hide Kept, Visible, KeptTomb;
    if cells != [] {
      var kept, rest := Kept(cells[0], tomb, p), Survivors(cells[1..], tomb, p);
      VisibleKept(cells[1..], tomb, p);
      KeptAgain(cells[0], tomb, p);
      if kept == [] {
        GoneUnseen(cells[0], tomb, p);
        assert kept + rest == rest;
      } else {
        assert kept[0] in kept;
        assert (kept + rest)[0] == kept[0] && (kept + rest)[1..] == rest;
      }
    }
  }

  /** Compacting again changes nothing and gives nothing away. */
  lemma CompactTwice(cells: seq<Element>, tomb: Tombstone, p: Policy)
    requires AllDated(cells)
    ensures KeptTomb(KeptTomb(tomb, p), p) == KeptTomb(tomb, p)
    ensures AllDated(Survivors(cells, tomb, p))
    ensures Survivors(Survivors(cells, tomb, p), KeptTomb(tomb, p), p) == Survivors(cells, tomb, p)
    ensures Losers(Survivors(cells, tomb, p), KeptTomb(tomb, p), p) == []
  {
    SurvivorsStay(cells, tomb, p);
  }

  lemma {:induction false} SurvivorsStay(cells: seq<Element>, tomb: Tombstone, p: Policy)
    requires AllDated(cells)
    ensures AllDated(Survivors(cells, tomb, p))
    ensures Survivors(Survivors(cells, tomb, p), KeptTomb(tomb, p), p) == Survivors(cells, tomb, p)
    ensures Losers(Survivors(cells, tomb, p), KeptTomb(tomb, p), p) == []
  {
    hide Kept, Given, KeptTomb, Dated;
    if cells != [] {
      var kept, rest := Kept(cells[0], tomb, p), Survivors(cells[1..], tomb, p);
      SurvivorsStay(cells[1..], tomb, p);
      KeptAgain(cells[0], tomb, p);
      if kept == [] {
        assert kept + rest == rest;
      } else {
        assert kept[0] in kept;
        assert kept == [kept[0]];
        assert (kept + rest)[0] == kept[0] && (kept + rest)[1..] == rest;
      }
    }
  }

  /** Every cell that is dead or has expired and that no tombstone covers goes to the survivors or to the losers,
      as the deletion it stands for, and nothing else goes to the losers. */
  lemma {:induction false} DeadAccounted(cells: seq<Element>, tomb: Tombstone, p: Policy, e: Element)
    requires AllDated(cells) && e in cells && IsDead(e.cell, p.queryTime) && !Covered(e, tomb, p)
    ensures CannotErase(e.cell, p) ==> Buried(e, p.queryTime) in Survivors(cells, tomb, p)
    ensures !CannotErase(e.cell, p) ==> Buried(e, p.queryTime) in Losers(cells, tomb, p)
  {
    if e != cells[0] {
      DeadAccounted(cells[1..], tomb, p, e);
    } else {
      assert Kept(e, tomb, p) + Given(e, tomb, p) == [Buried(e, p.queryTime)];
    }
  }

  // ---------------------------------------------------------------- the rules, told by the cells alone

  /** No tombstone, of the collection or of the row, is as new as the cell. */
  ghost predicate Newer(e: Element, tomb: Tombstone, p: Policy) {
    e.cell.timestamp > tomb.timestamp && e.cell.timestamp > p.regular.timestamp && e.cell.timestamp > p.shadowable.timestamp
  }

  /** A deletion may be purged once it is older than the grace period and nothing else still needs it. */
  ghost predicate MayGo(timestamp: Int64, deletionTime: int, p: Policy) {
    -0x8000_0000_0000_0000 <= deletionTime < p.gcBefore && p.canGc(Tombstone(timestamp, deletionTime))
  }

  /** The deletion that a cell is at the time of the query: its own, or its write time once it has expired. */
  ghost predicate DeletedSince(c: AtomicCell, deletionTime: int, p: Policy) {
    match c
    case DeadCell(_, d) => deletionTime == d
    case LiveCell(_, Expires(expiry, ttl), _) => expiry <= p.queryTime && deletionTime == expiry - ttl
    case LiveCell(_, Forever, _) => false
  }

  /** `f` is what is left of `e`: a live cell that has not expired as it was, a deletion that may not go. */
  ghost predicate Leaves(e: Element, f: Element, tomb: Tombstone, p: Policy) {
    && Newer(e, tomb, p) && f.key == e.key && f.cell.timestamp == e.cell.timestamp
    && if f.cell.LiveCell? then f == e && (e.cell.expiry.Expires? ==> e.cell.expiry.expiry > p.queryTime)
       else DeletedSince(e.cell, f.cell.deletionTime, p) && !MayGo(f.cell.timestamp, f.cell.deletionTime, p)
  }

  /** `f` is what the collector is given of `e`: a deletion that may go. */
  ghost predicate GivesAway(e: Element, f: Element, tomb: Tombstone, p: Policy) {
    && Newer(e, tomb, p) && f.key == e.key && f.cell.timestamp == e.cell.timestamp
    && f.cell.DeadCell? && DeletedSince(e.cell, f.cell.deletionTime, p) && MayGo(f.cell.timestamp, f.cell.deletionTime, p)
  }

  /** The survivors are what the rules leave of the cells, and the losers what they give away. */
  lemma {:induction false} RulesFollowed(cells: seq<Element>, tomb: Tombstone, p: Policy, f: Element)
    requires AllDated(cells)
    ensures f in Survivors(cells, tomb, p) <==> exists e :: e in cells && Leaves(e, f, tomb, p)
    ensures f in Losers(cells, tomb, p) <==> exists e :: e in cells && GivesAway(e, f, tomb, p)
  {
    hide Leaves, GivesAway, Kept, Given;
    if cells != [] {
      RulesFollowed(cells[1..], tomb, p, f);
      RuleFollowed(cells[0], tomb, p, f);
      assert cells == [cells[0]] + cells[1..];
    }
  }

  lemma RuleFollowed(e: Element, tomb: Tombstone, p: Policy, f: Element)
    requires Dated(e.cell)
    ensures f in Kept(e, tomb, p) <==> Leaves(e, f, tomb, p)
    ensures f in Given(e, tomb, p) <==> GivesAway(e, f, tomb, p)
  {
  }

  /** The collection's own tombstone goes if the row's is as new, or if it may be purged; the collector gets it only in
      the second case. */
  lemma TombstoneRule(tomb: Tombstone, p: Policy)
    ensures var covered := tomb.timestamp < p.regular.timestamp ||
        (tomb.timestamp == p.regular.timestamp && tomb.deletionTime <= p.regular.deletionTime);
      && KeptTomb(tomb, p) == (if covered || MayGo(tomb.timestamp, tomb.deletionTime, p) then NoTombstone else tomb)
      && (Purged(tomb, p) <==> !covered && MayGo(tomb.timestamp, tomb.deletionTime, p))
  {
  }

  /** The cells that no tombstone covers are shared out between the survivors and the losers. */
  lemma {:induction false} NothingLost(cells: seq<Element>, tomb: Tombstone, p: Policy)
    requires AllDated(cells)
    ensures |Survivors(cells, tomb, p)| + |Losers(cells, tomb, p)| == |Uncovered(cells, tomb, p)|
  {
    if cells != [] {
      NothingLost(cells[1..], tomb, p);
    }
  }

  function Uncovered(cells: seq<Element>, tomb: Tombstone, p: Policy): seq<Element> {
    if cells == [] then []
    else (if Covered(cells[0], tomb, p) then [] else [cells[0]]) + Uncovered(cells[1..], tomb, p)
  }

  /** The result is in normal form, whatever came in. */
  lemma SurvivorsNormal(d: Description, p: Policy)
    requires AllDated(d.cells) && Sorted(d.cells, Key) && (d.tomb.timestamp == MISSING ==> d.tomb == NoTombstone)
    ensures Normal(Description(KeptTomb(d.tomb, p), Survivors(d.cells, d.tomb, p)))
  {
    SurvivorsSorted(d.cells, d.tomb, p);
  }

  lemma {:induction false} SurvivorsSorted(cells: seq<Element>, tomb: Tombstone, p: Policy)
    requires AllDated(cells) && Sorted(cells, Key)
    ensures Sorted(Survivors(cells, tomb, p), Key)
    ensures forall f :: f in Survivors(cells, tomb, p) ==> !Covered(f, tomb, p) && exists e :: e in cells && e.key == f.key
  {
    hide Kept, Covered;
    if cells != [] {
      var kept, rest := Kept(cells[0], tomb, p), Survivors(cells[1..], tomb, p);
      SortedTail(cells, Key);
      SurvivorsSorted(cells[1..], tomb, p);
      KeptAgain(cells[0], tomb, p);
      assert cells[0] in cells;
      forall f | f in kept + rest ensures !Covered(f, tomb, p) && exists e :: e in cells && e.key == f.key {
        if f !in kept {
          var e :| e in cells[1..] && e.key == f.key;
          assert e in cells;
        }
      }
      assert forall e :: e in cells[1..] ==> Key(e) > Key(cells[0]);
      assert forall f :: f in rest ==> Key(f) > Key(cells[0]);
    }
  }

  /** A tombstone that is not purged covers the same cells, of this and of any other mutation, before and after. */
  lemma CoverageKept(e: Element, tomb: Tombstone, p: Policy)
    requires !Purged(tomb, p)
    ensures Covered(e, KeptTomb(tomb, p), p) <==> Covered(e, tomb, p)
  {
  }

  // ---------------------------------------------------------------- compacting before merging

  function Compacted(d: Description, p: Policy): Description
    requires AllDated(d.cells)
  {
    Description(KeptTomb(d.tomb, p), Survivors(d.cells, d.tomb, p))
  }

  /** The cell that a reader sees at a key. */
  function VisibleAt(d: Description, k: int, p: Policy): Option<Element> {
    var e := Find(d.cells, Key, k);
    if e.Some? && Visible(e.value, d.tomb, p) then e else None
  }

  function KeptOpt(e: Option<Element>, tomb: Tombstone, p: Policy): Option<Element>
    requires e.Some? ==> Dated(e.value.cell)
  {
    if e.Some? && Kept(e.value, tomb, p) != [] then Some(Kept(e.value, tomb, p)[0]) else None
  }

  lemma {:induction false} SurvivorsLookup(cells: seq<Element>, tomb: Tombstone, p: Policy, k: int)
    requires AllDated(cells) && Sorted(cells, Key)
    ensures Find(Survivors(cells, tomb, p), Key, k) == KeptOpt(Find(cells, Key, k), tomb, p)
  {
    hide Kept, Dated;
    if cells != [] {
      var kept, rest := Kept(cells[0], tomb, p), Survivors(cells[1..], tomb, p);
      SortedTail(cells, Key);
      SurvivorsLookup(cells[1..], tomb, p, k);
      KeptAgain(cells[0], tomb, p);
      if kept == [] {
        assert kept + rest == rest;
      } else {
        assert kept[0] in kept && (kept + rest)[0] == kept[0] && (kept + rest)[1..] == rest;
      }
    }
  }

  function VisibleOpt(e: Option<Element>, tomb: Tombstone, p: Policy): Option<Element> {
    if e.Some? && Visible(e.value, tomb, p) then e else None
  }

  /** For a reader the killing of cells before a merge does not matter: what is killed is covered anyway. */
  lemma VisibleMerged(x: Option<Element>, y: Option<Element>, s: Tombstone, t: Tombstone, p: Policy, k: int)
    requires KeyIs(x, k) && KeyIs(y, k)
    ensures VisibleOpt(PickOpt(AliveOpt(x, t), AliveOpt(y, s), Winner), Latest(s, t), p) ==
      VisibleOpt(Best(x, y), Latest(s, t), p)
  {
  }

  lemma CoverageMerged(e: Element, s: Tombstone, t: Tombstone, p: Policy)
    requires !Purged(s, p)
    ensures Visible(e, Latest(KeptTomb(s, p), t), p) <==> Visible(e, Latest(s, t), p)
  {
  }

  /** Whether the cell that `x` becomes hides `y` where `x` did not. */
  ghost predicate Hides(x: Option<Element>, y: Option<Element>, tomb: Tombstone, p: Policy) {
    && x.Some? && y.Some? && x.value.cell.timestamp == y.value.cell.timestamp
    && Expired(x.value.cell, p.queryTime) && Visible(y.value, tomb, p) && y.value.cell.expiry.Expires?
  }

  lemma KeptBest(x: Option<Element>, y: Option<Element>, s: Tombstone, t: Tombstone, p: Policy, k: int)
    requires KeyIs(x, k) && KeyIs(y, k) && (x.Some? ==> Dated(x.value.cell)) && forall u :: !p.canGc(u)
    ensures VisibleOpt(Best(KeptOpt(x, s, p), y), Latest(s, t), p) == VisibleOpt(Best(x, y), Latest(s, t), p)
      <==> !Hides(x, y, Latest(s, t), p)
  {
    assert x.Some? && Covered(x.value, s, p) ==> Covered(x.value, Latest(s, t), p);
  }

  /** Compacting one side before a merge, with nothing purged, shows a reader the same cell as merging without,
      except where an expired cell, now a deletion, hides one with its own timestamp that has not expired. */
  lemma CompactThenMerge(a: Description, b: Description, k: int, p: Policy)
    requires AllDated(a.cells) && Sorted(a.cells, Key) && Sorted(b.cells, Key) && forall t :: !p.canGc(t)
    ensures VisibleAt(Merged(Compacted(a, p), b), k, p) == VisibleAt(Merged(a, b), k, p) <==>
      !Hides(Find(a.cells, Key, k), Find(b.cells, Key, k), Latest(a.tomb, b.tomb), p)
  {
    hide Combined, Find, Sorted, Alive, Survivors, Best, Visible, KeptOpt, AliveOpt, PickOpt, Hides, KeptTomb, Latest;
    var c := Compacted(a, p);
    var x, y := Find(a.cells, Key, k), Find(b.cells, Key, k);
    SurvivorsSorted(a.cells, a.tomb, p);
    SurvivorsLookup(a.cells, a.tomb, p, k);
    FindKey(a.cells, k);
    FindKey(b.cells, k);
    FindKey(c.cells, k);
    MergedLookup(a, b, k);
    MergedLookup(c, b, k);
    VisibleMerged(x, y, a.tomb, b.tomb, p, k);
    VisibleMerged(Find(c.cells, Key, k), y, c.tomb, b.tomb, p, k);
    forall e {
      CoverageMerged(e, a.tomb, b.tomb, p);
    }
    KeptBest(x, y, a.tomb, b.tomb, p, k);
  }

  lemma HidesSame(p: Policy)
    requires p == Policy(NoTombstone, NoTombstone, 5, p.canGc, 0)
    ensures Hides(Some(Element(0, LiveCell(1, Expires(4, 0), []))), Some(Element(0, LiveCell(1, Expires(9, 0), []))), NoTombstone, p)
  {
  }

  /** An expired cell meets one with its timestamp that has not expired: merged first the reader sees the latter,
      compacted first it sees nothing. */
  lemma BuriedHides()
    ensures var p := Policy(NoTombstone, NoTombstone, 5, _ => false, 0);
      var a := Description(NoTombstone, [Element(0, LiveCell(1, Expires(4, 0), []))]);
      var b := Description(NoTombstone, [Element(0, LiveCell(1, Expires(9, 0), []))]);
      AllDated(a.cells) && VisibleAt(Merged(Compacted(a, p), b), 0, p) != VisibleAt(Merged(a, b), 0, p)
  {
    var p := Policy(NoTombstone, NoTombstone, 5, _ => false, 0);
    var a := Description(NoTombstone, [Element(0, LiveCell(1, Expires(4, 0), []))]);
    var b := Description(NoTombstone, [Element(0, LiveCell(1, Expires(9, 0), []))]);
    hide Merged, Compacted, VisibleAt, Hides;
    assert Hides(Some(a.cells[0]), Some(b.cells[0]), NoTombstone, p) by {
      HidesSame(p);
    }
    CompactThenMerge(a, b, 0, p);
  }
}
