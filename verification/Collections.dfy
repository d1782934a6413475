/** Mutations of collections: merging, differences and compaction. Keys are their ranks in the key type's order. */
module Collections {
  import opened Basics
  import opened AtomicCells
  import opened Combine

  // ---------------------------------------------------------------- tombstones

  const MISSING: Int64 := -0x8000_0000_0000_0000

  datatype Tombstone = Tombstone(timestamp: Int64, deletionTime: Int64)

  const NoTombstone := Tombstone(MISSING, 0)

  predicate Before(a: Tombstone, b: Tombstone) {
    a.timestamp < b.timestamp || (a.timestamp == b.timestamp && a.deletionTime < b.deletionTime)
  }

  function Latest(a: Tombstone, b: Tombstone): Tombstone {
    if Before(a, b) then b else a
  }

  // ---------------------------------------------------------------- descriptions

  datatype Element = Element(key: int, cell: AtomicCell)

  const Key := (e: Element) => e.key

  datatype Description = Description(tomb: Tombstone, cells: seq<Element>)

  /** Sorted by key, every cell newer than the description's own tombstone, and no tombstone in one way only. */
  ghost predicate Normal(d: Description) {
    && Sorted(d.cells, Key)
    && (forall e :: e in d.cells ==> e.cell.timestamp > d.tomb.timestamp)
    && (d.tomb.timestamp == MISSING ==> d.tomb == NoTombstone)
  }

  predicate Killed(e: Element, t: Tombstone) {
    t.timestamp >= e.cell.timestamp
  }

  /** What `remove_if` leaves of the cells that a tombstone does not kill. */
  function Alive(cells: seq<Element>, t: Tombstone): (r: seq<Element>)
    ensures forall e :: e in r <==> e in cells && !Killed(e, t)
  {
    if cells == [] then []
    else if Killed(cells[0], t) then Alive(cells[1..], t)
    else [cells[0]] + Alive(cells[1..], t)
  }

  /** The cell that wins. */
  const Winner := (x: Element, y: Element) =>
    Element(x.key, if CompareForMerge(x.cell, y.cell) > 0 then x.cell else y.cell)

  // ---------------------------------------------------------------- merging

  function Merged(a: Description, b: Description): Description {
    Description(Latest(a.tomb, b.tomb), Combined(Alive(a.cells, b.tomb), Alive(b.cells, a.tomb), Key, Winner))
  }

  method RemoveKilled(cells: seq<Element>, t: Tombstone) returns (kept: seq<Element>)
    ensures kept == Alive(cells, t)
  {
    hide Alive;
    kept := [];
    AliveNone(t);
    for i := 0 to |cells|
      invariant kept == Alive(cells[..i], t)
    {
      assert cells[..i + 1] == cells[..i] + [cells[i]];
      AliveAppend(cells[..i], cells[i], t);
      if !Killed(cells[i], t) {
        kept := kept + [cells[i]];
      }
    }
    assert cells[..|cells|] == cells;
  }

  lemma AliveNone(t: Tombstone)
    ensures Alive([], t) == []
  {
  }

  lemma {:induction false} AliveAppend(cells: seq<Element>, e: Element, t: Tombstone)
    ensures Alive(cells + [e], t) == if Killed(e, t) then Alive(cells, t) else Alive(cells, t) + [e]
  {
    if cells != [] {
      assert (cells + [e])[1..] == cells[1..] + [e];
      AliveAppend(cells[1..], e, t);
    }
  }

  /** `merge`. */
  method Merge(a: Description, b: Description) returns (merged: Description)
    ensures merged == Merged(a, b)
  {
    var left := RemoveKilled(a.cells, b.tomb);
    var right := RemoveKilled(b.cells, a.tomb);
    var cells := CombineInto(left, right, Key, Winner);
    merged := Description(if Before(a.tomb, b.tomb) then b.tomb else a.tomb, cells);
  }

  lemma {:induction false} AliveSorted(cells: seq<Element>, t: Tombstone)
    requires Sorted(cells, Key)
    ensures Sorted(Alive(cells, t), Key)
  {
    if cells != [] {
      AliveSorted(cells[1..], t);
      assert forall e :: e in cells[1..] ==> e.key > cells[0].key;
    }
  }

  function AliveOpt(e: Option<Element>, t: Tombstone): Option<Element> {
    if e.Some? && !Killed(e.value, t) then e else None
  }

  lemma {:induction false} AliveLookup(cells: seq<Element>, t: Tombstone, k: int)
    requires Sorted(cells, Key)
    ensures Find(Alive(cells, t), Key, k) == AliveOpt(Find(cells, Key, k), t)
  {
    if cells != [] {
      SortedTail(cells, Key);
      AliveLookup(cells[1..], t, k);
    }
  }

  lemma WinnerKeepsKey()
    ensures KeepsKey(Key, Winner)
  {
  }

  lemma MergedLookup(a: Description, b: Description, k: int)
    requires Sorted(a.cells, Key) && Sorted(b.cells, Key)
    ensures Sorted(Merged(a, b).cells, Key)
    ensures Find(Merged(a, b).cells, Key, k) ==
      PickOpt(AliveOpt(Find(a.cells, Key, k), b.tomb), AliveOpt(Find(b.cells, Key, k), a.tomb), Winner)
  {
    hide Combined, Find, Sorted;
    WinnerKeepsKey();
    AliveSorted(a.cells, b.tomb);
    AliveSorted(b.cells, a.tomb);
    AliveLookup(a.cells, b.tomb, k);
    AliveLookup(b.cells, a.tomb, k);
    CombinedSorted(Alive(a.cells, b.tomb), Alive(b.cells, a.tomb), Key, Winner);
    CombinedLookup(Alive(a.cells, b.tomb), Alive(b.cells, a.tomb), Key, Winner, k);
  }

  /** Sorted cells are determined by their lookups. */
  lemma SameCells(s: seq<Element>, t: seq<Element>)
    requires Sorted(s, Key) && Sorted(t, Key) && forall k :: Find(s, Key, k) == Find(t, Key, k)
    ensures s == t
  {
    SameLookups(s, t, Key);
  }

  /** Merging keeps the normal form. */
  lemma MergedNormal(a: Description, b: Description)
    requires Normal(a) && Normal(b)
    ensures Normal(Merged(a, b))
  {
    hide Combined, Find, Sorted, Alive;
    var m := Merged(a, b);
    MergedLookup(a, b, 0);
    forall e | e in m.cells ensures e.cell.timestamp > m.tomb.timestamp {
      MergedLookup(a, b, e.key);
      FoundIn(m.cells, e, Key);
    }
  }

  lemma MergeCommutes(a: Description, b: Description)
    requires Sorted(a.cells, Key) && Sorted(b.cells, Key)
    ensures Merged(a, b) == Merged(b, a)
  {
    hide Combined, Find, Sorted, Alive;
    forall k ensures Find(Merged(a, b).cells, Key, k) == Find(Merged(b, a).cells, Key, k) {
      MergedLookup(a, b, k);
      MergedLookup(b, a, k);
      var x, y := Find(a.cells, Key, k), Find(b.cells, Key, k);
      if x.Some? && y.Some? {
        MergeOrderTotal(x.value.cell, y.value.cell);
        FindKey(a.cells, k);
        FindKey(b.cells, k);
      }
    }
    MergedLookup(a, b, 0);
    MergedLookup(b, a, 0);
    SameCells(Merged(a, b).cells, Merged(b, a).cells);
  }

  lemma FindKey(cells: seq<Element>, k: int)
    ensures Find(cells, Key, k).Some? ==> Find(cells, Key, k).value in cells && Find(cells, Key, k).value.key == k
  {
  }

  /** A description merged with itself is itself exactly when none of its cells is covered by its own tombstone. */
  lemma MergeIdempotent(a: Description)
    requires Sorted(a.cells, Key)
    ensures Merged(a, a) == a <==> forall e :: e in a.cells ==> e.cell.timestamp > a.tomb.timestamp
  {
    if forall e :: e in a.cells ==> e.cell.timestamp > a.tomb.timestamp {
      AliveAll(a.cells, a.tomb);
      Idempotent(a.cells, Key, Winner);
    } else {
      var e :| e in a.cells && e.cell.timestamp <= a.tomb.timestamp;
      MergedLookup(a, a, e.key);
      FoundIn(a.cells, e, Key);
    }
  }

  /** A cell as old as the tombstone beside it does not survive the merge with itself. */
  lemma MergeDropsCovered()
    ensures var a := Description(Tombstone(5, 0), [Element(0, LiveCell(5, Forever, []))]);
      Merged(a, a) != a
  {
    var a := Description(Tombstone(5, 0), [Element(0, LiveCell(5, Forever, []))]);
    MergeIdempotent(a);
    assert a.cells[0] in a.cells;
  }

  lemma {:induction false} AliveAll(cells: seq<Element>, t: Tombstone)
    requires forall e :: e in cells ==> !Killed(e, t)
    ensures Alive(cells, t) == cells
  {
    if cells != [] {
      AliveAll(cells[1..], t);
    }
  }

  // ---------------------------------------------------------------- associativity

  /** The better of two cells of one key, or the only one. */
  function Best(x: Option<Element>, y: Option<Element>): Option<Element> {
    PickOpt(x, y, Winner)
  }

  ghost predicate KeyIs(x: Option<Element>, k: int) {
    x.Some? ==> x.value.key == k
  }

  lemma BestAssociates(x: Option<Element>, y: Option<Element>, z: Option<Element>, k: int)
    requires KeyIs(x, k) && KeyIs(y, k) && KeyIs(z, k)
    ensures Best(Best(x, y), z) == Best(x, Best(y, z))
  {
    if x.Some? && y.Some? && z.Some? {
      var a, b, c := x.value.cell, y.value.cell, z.value.cell;
      MergeOrderTotal(a, b);
      MergeOrderTotal(b, c);
      MergeOrderTotal(a, c);
      if CompareForMerge(a, b) <= 0 && CompareForMerge(b, c) <= 0 {
        MergeOrderTransitive(a, b, c);
      }
      if CompareForMerge(c, b) <= 0 && CompareForMerge(b, a) <= 0 {
        MergeOrderTransitive(c, b, a);
      }
    }
  }

  /** Cells compare by timestamp first, so what a tombstone kills it kills before or after choosing the best. */
  lemma AliveBest(x: Option<Element>, y: Option<Element>, t: Tombstone, k: int)
    requires KeyIs(x, k) && KeyIs(y, k)
    ensures AliveOpt(Best(x, y), t) == Best(AliveOpt(x, t), AliveOpt(y, t))
  {
  }

  /** The merge of normal descriptions: for every key the best cell, if the latest tombstone does not kill it. */
  lemma MergedMeans(a: Description, b: Description, k: int)
    requires Normal(a) && Normal(b)
    ensures Find(Merged(a, b).cells, Key, k) ==
      AliveOpt(Best(Find(a.cells, Key, k), Find(b.cells, Key, k)), Latest(a.tomb, b.tomb))
  {
    hide Combined, Find, Sorted, Alive, Best;
    MergedLookup(a, b, k);
    FindKey(a.cells, k);
    FindKey(b.cells, k);
    var x, y := Find(a.cells, Key, k), Find(b.cells, Key, k);
    AliveBest(x, y, Latest(a.tomb, b.tomb), k);
    assert AliveOpt(x, b.tomb) == AliveOpt(x, Latest(a.tomb, b.tomb));
    assert AliveOpt(y, a.tomb) == AliveOpt(y, Latest(a.tomb, b.tomb));
    BestIs(AliveOpt(x, b.tomb), AliveOpt(y, a.tomb));
  }

  lemma BestIs(x: Option<Element>, y: Option<Element>)
    ensures Best(x, y) == PickOpt(x, y, Winner)
  {
  }

  lemma LatestAssociates(a: Tombstone, b: Tombstone, c: Tombstone)
    ensures Latest(Latest(a, b), c) == Latest(a, Latest(b, c))
  {
  }

  lemma AliveTwice(x: Option<Element>, s: Tombstone, t: Tombstone)
    ensures AliveOpt(AliveOpt(x, s), t) == AliveOpt(x, Latest(s, t))
    ensures AliveOpt(x, Latest(s, t)) == AliveOpt(x, Latest(t, s))
  {
  }

  /** Merging associates for all descriptions, normal or not. */
  lemma MergeAssociates(a: Description, b: Description, c: Description)
    requires Sorted(a.cells, Key) && Sorted(b.cells, Key) && Sorted(c.cells, Key)
    ensures Merged(Merged(a, b), c) == Merged(a, Merged(b, c))
  {
    hide Combined, Find, Sorted, Alive, Best, AliveOpt, Latest;
    MergedLookup(a, b, 0);
    MergedLookup(b, c, 0);
    MergedLookup(Merged(a, b), c, 0);
    MergedLookup(a, Merged(b, c), 0);
    LatestAssociates(a.tomb, b.tomb, c.tomb);
    forall k ensures Find(Merged(Merged(a, b), c).cells, Key, k) == Find(Merged(a, Merged(b, c)).cells, Key, k) {
      LookupAssociates(a, b, c, k);
    }
    SameCells(Merged(Merged(a, b), c).cells, Merged(a, Merged(b, c)).cells);
  }

  /** Each cell has to survive the two other tombstones, in whatever order they come. */
  lemma LookupAssociates(a: Description, b: Description, c: Description, k: int)
    requires Sorted(a.cells, Key) && Sorted(b.cells, Key) && Sorted(c.cells, Key)
    ensures Find(Merged(Merged(a, b), c).cells, Key, k) == Find(Merged(a, Merged(b, c)).cells, Key, k)
  {
    hide Combined, Find, Sorted, Alive, AliveOpt, Latest, PickOpt;
    var x, y, z := Find(a.cells, Key, k), Find(b.cells, Key, k), Find(c.cells, Key, k);
    MergedLookup(a, b, k);
    MergedLookup(b, c, k);
    MergedLookup(Merged(a, b), c, k);
    MergedLookup(a, Merged(b, c), k);
    FindKey(a.cells, k);
    FindKey(b.cells, k);
    FindKey(c.cells, k);
    AliveKey(x, b.tomb, k);
    AliveKey(y, a.tomb, k);
    AliveKey(y, c.tomb, k);
    AliveKey(z, b.tomb, k);
    AliveBest(AliveOpt(x, b.tomb), AliveOpt(y, a.tomb), c.tomb, k);
    AliveBest(AliveOpt(y, c.tomb), AliveOpt(z, b.tomb), a.tomb, k);
    AliveTwice(x, b.tomb, c.tomb);
    AliveTwice(y, a.tomb, c.tomb);
    AliveTwice(y, c.tomb, a.tomb);
    AliveTwice(z, b.tomb, a.tomb);
    var ta, tb, tc := AliveOpt(x, Latest(b.tomb, c.tomb)), AliveOpt(y, Latest(a.tomb, c.tomb)), AliveOpt(z, Latest(a.tomb, b.tomb));
    AliveKey(x, Latest(b.tomb, c.tomb), k);
    AliveKey(y, Latest(a.tomb, c.tomb), k);
    AliveKey(z, Latest(a.tomb, b.tomb), k);
    BestAssociates(ta, tb, tc, k);
  }

  lemma AliveKey(x: Option<Element>, t: Tombstone, k: int)
    requires KeyIs(x, k)
    ensures KeyIs(AliveOpt(x, t), k)
  {
  }

  // ---------------------------------------------------------------- difference

  /** The cells of `a` that win over what `b` has for their key. */
  function Needed(a: seq<Element>, b: seq<Element>): (r: seq<Element>)
    ensures forall e :: e in r <==> e in a && Wins(e, Find(b, Key, e.key))
  {
    if a == [] then []
    else if Wins(a[0], Find(b, Key, a[0].key)) then [a[0]] + Needed(a[1..], b)
    else Needed(a[1..], b)
  }

  predicate Wins(e: Element, other: Option<Element>) {
    other.None? || CompareForMerge(e.cell, other.value.cell) > 0
  }

  function DifferenceOf(a: Description, b: Description): Description {
    Description(if Before(b.tomb, a.tomb) then a.tomb else NoTombstone, Needed(a.cells, b.cells))
  }

  /** `difference`: one pass over both. */
  method Difference(a: Description, b: Description) returns (diff: Description)
    requires Sorted(a.cells, Key) && Sorted(b.cells, Key)
    ensures diff == DifferenceOf(a, b)
  {
    hide Needed, Find;
    var cells: seq<Element> := [];
    var j := 0;
    NeededNone(b.cells);
    for i := 0 to |a.cells|
      invariant j <= |b.cells| && cells == Needed(a.cells[..i], b.cells)
      invariant i < |a.cells| ==> forall y :: 0 <= y < j ==> b.cells[y].key < a.cells[i].key
    {
      var c := a.cells[i];
      while j < |b.cells| && b.cells[j].key < c.key
        invariant j <= |b.cells| && forall y :: 0 <= y < j ==> b.cells[y].key < c.key
      {
        j := j + 1;
      }
      AtCursor(b.cells, c.key, j);
      assert a.cells[..i + 1] == a.cells[..i] + [c];
      NeededAppend(a.cells[..i], c, b.cells);
      if j == |b.cells| || b.cells[j].key != c.key || CompareForMerge(c.cell, b.cells[j].cell) > 0 {
        cells := cells + [c];
      }
      assert i + 1 < |a.cells| ==> Key(a.cells[i]) < Key(a.cells[i + 1]);
    }
    assert a.cells[..|a.cells|] == a.cells;
    diff := Description(if Before(b.tomb, a.tomb) then a.tomb else NoTombstone, cells);
  }

  lemma NeededNone(b: seq<Element>)
    ensures Needed([], b) == []
  {
  }

  lemma {:induction false} NeededAppend(a: seq<Element>, e: Element, b: seq<Element>)
    ensures Needed(a + [e], b) == Needed(a, b) + (if Wins(e, Find(b, Key, e.key)) then [e] else [])
  {
    if a != [] {
      assert (a + [e])[1..] == a[1..] + [e];
      NeededAppend(a[1..], e, b);
    }
  }

  /** The cursor is where the key is, or would be. */
  lemma AtCursor(b: seq<Element>, k: int, j: nat)
    requires Sorted(b, Key) && j <= |b|
    requires forall y :: 0 <= y < j ==> b[y].key < k
    requires j < |b| ==> k <= b[j].key
    ensures Find(b, Key, k) == if j < |b| && b[j].key == k then Some(b[j]) else None
  {
    if j < |b| && b[j].key == k {
      FoundIn(b, b[j], Key);
    } else {
      forall e | e in b ensures e.key != k {
        var y :| 0 <= y < |b| && b[y] == e;
        assert j < y ==> Key(b[j]) < Key(b[y]);
      }
    }
  }

  lemma {:induction false} NeededSorted(a: seq<Element>, b: seq<Element>)
    requires Sorted(a, Key)
    ensures Sorted(Needed(a, b), Key) && forall e :: e in Needed(a, b) ==> e in a
  {
    hide Find, Wins;
    if a != [] {
      SortedTail(a, Key);
      NeededSorted(a[1..], b);
      assert forall e :: e in a[1..] ==> Key(e) > Key(a[0]);
    }
  }

  lemma {:induction false} NeededFind(a: seq<Element>, b: seq<Element>, k: int)
    requires Sorted(a, Key)
    ensures Find(Needed(a, b), Key, k) ==
      var x := Find(a, Key, k);
      if x.Some? && Wins(x.value, Find(b, Key, k)) then x else None
  {
    hide Sorted, Wins;
    if a != [] {
      SortedTail(a, Key);
      NeededFind(a[1..], b, k);
    }
  }

  lemma NeededLookup(a: seq<Element>, b: seq<Element>, k: int)
    requires Sorted(a, Key)
    ensures Sorted(Needed(a, b), Key)
    ensures Find(Needed(a, b), Key, k) ==
      var x := Find(a, Key, k);
      if x.Some? && Wins(x.value, Find(b, Key, k)) then x else None
  {
    NeededSorted(a, b);
    NeededFind(a, b, k);
  }

  /** What the difference loses at a key: a cell left out for one that does not survive the merge, or the
      killing of a cell by a tombstone that is left out. */
  ghost predicate Lossless(a: Description, b: Description, k: int) {
    var x, y := Find(a.cells, Key, k), Find(b.cells, Key, k);
    y.Some? && Killed(y.value, a.tomb) ==>
      if Before(b.tomb, a.tomb) then x.Some? && !Wins(x.value, y) ==> Killed(x.value, b.tomb)
      else Killed(y.value, NoTombstone) || AliveOpt(x, b.tomb).Some?
  }

  lemma DifferenceLookup(a: Description, b: Description, k: int)
    requires Sorted(a.cells, Key) && Sorted(b.cells, Key)
    ensures var d := DifferenceOf(a, b);
      Find(Merged(d, b).cells, Key, k) == Find(Merged(a, b).cells, Key, k) <==> Lossless(a, b, k)
  {
    hide Combined, Find, Sorted, Alive, Needed;
    var d := DifferenceOf(a, b);
    NeededLookup(a.cells, b.cells, k);
    MergedLookup(d, b, k);
    MergedLookup(a, b, k);
    FindKey(a.cells, k);
    FindKey(b.cells, k);
  }

  /** Merged into `b`, the difference gives what `a` would exactly when it is lossless at every key. */
  lemma DifferenceExact(a: Description, b: Description)
    requires Sorted(a.cells, Key) && Sorted(b.cells, Key)
    requires b.tomb.timestamp == MISSING ==> b.tomb == NoTombstone
    ensures Merged(DifferenceOf(a, b), b) == Merged(a, b) <==> forall k :: Lossless(a, b, k)
  {
    hide Combined, Find, Sorted, Alive, Needed, Lossless;
    var d := DifferenceOf(a, b);
    NeededLookup(a.cells, b.cells, 0);
    forall k ensures Find(Merged(d, b).cells, Key, k) == Find(Merged(a, b).cells, Key, k) <==> Lossless(a, b, k) {
      DifferenceLookup(a, b, k);
    }
    MergedLookup(d, b, 0);
    MergedLookup(a, b, 0);
    if forall k :: Lossless(a, b, k) {
      SameCells(Merged(d, b).cells, Merged(a, b).cells);
    }
  }

  /** Which it is for normal descriptions. */
  lemma DifferenceSuffices(a: Description, b: Description)
    requires Normal(a) && Normal(b)
    ensures Normal(DifferenceOf(a, b))
    ensures Merged(DifferenceOf(a, b), b) == Merged(a, b)
  {
    hide Combined, Find, Sorted, Alive, Needed;
    NeededLookup(a.cells, b.cells, 0);
    forall k ensures Lossless(a, b, k) {
      FindKey(a.cells, k);
      FindKey(b.cells, k);
    }
    DifferenceExact(a, b);
  }

  /** It holds nothing that `b` already has, so that of a description and itself is empty. */
  lemma DifferenceIsNews(a: Description, b: Description)
    requires Sorted(b.cells, Key)
    ensures forall e :: e in DifferenceOf(a, b).cells ==> e in a.cells && e !in b.cells
    ensures DifferenceOf(b, b) == Description(NoTombstone, [])
  {
    hide Combined, Find, Sorted, Alive, Needed;
    forall e, s | e in Needed(s, b.cells) ensures e !in b.cells {
      if e in b.cells {
        FoundIn(b.cells, e, Key);
      }
    }
    if Needed(b.cells, b.cells) != [] {
      assert Needed(b.cells, b.cells)[0] in Needed(b.cells, b.cells);
    }
  }

  /** Without the normal form the cell of `b` that makes the one of `a` unnecessary may be killed by a
      tombstone of `a` that does not kill the one of `a`. */
  lemma DifferenceMisses()
    ensures var a := Description(Tombstone(10, 0), [Element(0, LiveCell(5, Forever, []))]);
      var b := Description(NoTombstone, [Element(0, LiveCell(6, Forever, []))]);
      Merged(DifferenceOf(a, b), b) != Merged(a, b)
  {
    var a := Description(Tombstone(10, 0), [Element(0, LiveCell(5, Forever, []))]);
    var b := Description(NoTombstone, [Element(0, LiveCell(6, Forever, []))]);
    assert !Lossless(a, b, 0);
    DifferenceExact(a, b);
  }
}
