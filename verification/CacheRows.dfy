/** The rows of a cached partition version: a sorted sequence of entries, each saying whether the
    interval before it is complete ("continuous").  What such a sequence may claim is judged against
    the underlying mutation source that the cache mirrors. */
module CacheRows {
  import opened Positions

  datatype Tombstone = NoTomb | Tomb(timestamp: int, deletionTime: int)

  /** A row's writes.  A row without any write is the same as no row. */
  datatype Row = EmptyRow | Writes(id: int)

  /** The fixed contents of the mutation source below the cache: per key, the writes to the row and
      the range tombstone that covers it. */
  datatype Source = Source(row: real -> Row, tomb: real -> Tombstone)

  /** `rows_entry`.  An entry is a dummy exactly when it does not stand at a row. */
  datatype Entry = Entry(pos: Pos, cont: bool, rt: Tombstone, row: Row) {
    predicate Dummy() { !IsRow(pos) }
  }

  type Rows = seq<Entry>

  ghost predicate Sorted(rows: Rows) {
    forall i, j :: 0 <= i < j < |rows| ==> Lt(rows[i].pos, rows[j].pos)
  }

  /** Every evictable version ends with a dummy after all rows. */
  ghost predicate Wf(rows: Rows) {
    |rows| > 0 && Sorted(rows) && Le(Bottom, rows[0].pos) && rows[|rows| - 1].pos == Top
  }

  predicate HasPos(rows: Rows, p: Pos) {
    exists i :: 0 <= i < |rows| && rows[i].pos == p
  }

  /** Between two positions the source has no row and everywhere the tombstone `t`. */
  ghost predicate Clear(u: Source, a: Pos, b: Pos, t: Tombstone) {
    forall r: real :: Lt(a, K(r)) && Lt(K(r), b) ==> u.row(r) == EmptyRow && u.tomb(r) == t
  }

  lemma ClearWithin(u: Source, a: Pos, b: Pos, a': Pos, b': Pos, t: Tombstone)
    requires Clear(u, a, b, t) && Le(a, a') && Le(b', b)
    ensures Clear(u, a', b', t)
  {
  }

  lemma ClearNothing(u: Source, a: Pos, t: Tombstone)
    ensures Clear(u, a, a, t)
  {
  }

  lemma ClearToRow(u: Source, a: Pos, r: real, t: Tombstone)
    requires Clear(u, a, Pos(r, -1), t)
    ensures Clear(u, a, K(r), t)
  {
  }

  function PrevPos(rows: Rows, i: nat): Pos
    requires i <= |rows|
  {
    if i == 0 then Bottom else rows[i - 1].pos
  }

  /** A row entry holds the row's writes and tombstone; a continuous entry vouches for the interval
      that separates it from its predecessor. */
  ghost predicate EntryAgrees(u: Source, e: Entry, prev: Pos) {
    && (IsRow(e.pos) ==> u.row(e.pos.rank) == e.row && u.tomb(e.pos.rank) == e.rt)
    && (e.cont ==> Clear(u, prev, e.pos, e.rt))
  }

  ghost predicate Agrees(u: Source, rows: Rows) {
    forall i :: 0 <= i < |rows| ==> EntryAgrees(u, rows[i], PrevPos(rows, i))
  }

  // ---------------------------------------------------------------- lookup

  /** The first entry at or after `p`. */
  function LowerBound(rows: Rows, p: Pos): (i: nat)
    requires |rows| > 0 && Le(p, rows[|rows| - 1].pos)
    ensures i < |rows| && Le(p, rows[i].pos)
    ensures forall j :: 0 <= j < i ==> Lt(rows[j].pos, p)
  {
    if Le(p, rows[0].pos) then 0 else 1 + LowerBound(rows[1..], p)
  }

  lemma FoundAtLowerBound(rows: Rows, p: Pos)
    requires Wf(rows) && Le(p, Top)
    ensures HasPos(rows, p) <==> rows[LowerBound(rows, p)].pos == p
  {
  }

  /** The entry after the one at `p`. */
  function Following(rows: Rows, p: Pos): (i: nat)
    requires Wf(rows) && HasPos(rows, p) && Lt(p, Top)
    ensures i < |rows|
  {
    FoundAtLowerBound(rows, p);
    LowerBound(rows, p) + 1
  }

  // ---------------------------------------------------------------- updates

  /** `restore_continuity_after_insertion` applied to an entry about to be inserted before `next`. */
  function Restored(e: Entry, next: Entry): Entry {
    if next.cont then e.(cont := true, rt := next.rt) else e
  }

  function InsertBefore(rows: Rows, i: nat, e: Entry): (r: Rows)
    requires i <= |rows|
  {
    rows[..i] + [e] + rows[i..]
  }

  /** Marks entry `i` continuous with tombstone `t`. */
  function SetContinuous(rows: Rows, i: nat, t: Tombstone): (r: Rows)
    requires i < |rows|
  {
    rows[i := rows[i].(cont := true, rt := t)]
  }

  /** `on_evicted_shallow`: the last dummy stays and loses its continuity; any other entry goes, and
      its successor stays continuous only across a continuous dummy with the same tombstone. */
  function Evict(rows: Rows, i: nat): (r: Rows)
    requires i < |rows|
  {
    if i == |rows| - 1 then rows[i := rows[i].(cont := false)]
    else
      var e, next := rows[i], rows[i + 1];
      var keep := e.cont && e.Dummy() && e.rt == next.rt;
      rows[..i] + [if keep then next else next.(cont := false)] + rows[i + 2..]
  }

  /** The condition under which `maybe_drop_last_entry` drops the entry at `p`. */
  predicate Redundant(rows: Rows, p: Pos, t: Tombstone)
    requires |rows| > 0 && Le(p, rows[|rows| - 1].pos)
  {
    var e := rows[LowerBound(rows, p)];
    e.pos == p && e.Dummy() && e.cont && e.rt == t
  }

  function Dropped(rows: Rows, p: Pos, t: Tombstone): (r: Rows)
    requires |rows| > 0 && Le(p, rows[|rows| - 1].pos)
  {
    if Redundant(rows, p, t) then Evict(rows, LowerBound(rows, p)) else rows
  }

  ghost predicate Extends(rows: Rows, rows': Rows) {
    forall p :: HasPos(rows, p) ==> HasPos(rows', p)
  }

  lemma InsertShape(rows: Rows, i: nat, e: Entry)
    requires Wf(rows) && i < |rows| && Lt(e.pos, rows[i].pos) && Le(Bottom, e.pos)
    requires i > 0 ==> Lt(rows[i - 1].pos, e.pos)
    ensures Wf(InsertBefore(rows, i, e)) && Extends(rows, InsertBefore(rows, i, e))
    ensures HasPos(InsertBefore(rows, i, e), e.pos)
    ensures forall p :: HasPos(InsertBefore(rows, i, e), p) ==> p == e.pos || HasPos(rows, p)
  {
    var rows' := InsertBefore(rows, i, e);
    assert rows'[i] == e;
    forall p | HasPos(rows, p) ensures HasPos(rows', p) {
      var k :| 0 <= k < |rows| && rows[k].pos == p;
      assert rows'[if k < i then k else k + 1] == rows[k];
    }
  }

  /** Inserting an entry that agrees on its own keeps the whole sequence in agreement: splitting an
      interval never invents a claim. */
  lemma InsertAgrees(u: Source, rows: Rows, i: nat, e: Entry)
    requires Agrees(u, rows) && i < |rows| && Le(PrevPos(rows, i), e.pos)
    requires EntryAgrees(u, e, PrevPos(rows, i))
    ensures Agrees(u, InsertBefore(rows, i, e))
  {
    var rows' := InsertBefore(rows, i, e);
    forall j | 0 <= j < |rows'| ensures EntryAgrees(u, rows'[j], PrevPos(rows', j)) {
      if j < i {
        assert rows'[j] == rows[j] && PrevPos(rows', j) == PrevPos(rows, j);
      } else if j > i {
        assert rows'[j] == rows[j - 1];
        assert j > i + 1 ==> PrevPos(rows', j) == PrevPos(rows, j - 1);
        NearerPrevAgrees(u, rows[j - 1], PrevPos(rows, j - 1), PrevPos(rows', j));
      }
    }
  }

  lemma NearerPrevAgrees(u: Source, e: Entry, prev: Pos, prev': Pos)
    requires EntryAgrees(u, e, prev) && Le(prev, prev')
    ensures EntryAgrees(u, e, prev')
  {
  }

  lemma SetContinuousAgrees(u: Source, rows: Rows, i: nat, t: Tombstone)
    requires Agrees(u, rows) && i < |rows|
    requires Clear(u, PrevPos(rows, i), rows[i].pos, t)
    requires IsRow(rows[i].pos) ==> t == rows[i].rt
    ensures Agrees(u, SetContinuous(rows, i, t))
  {
    var rows' := SetContinuous(rows, i, t);
    forall j | 0 <= j < |rows'| ensures EntryAgrees(u, rows'[j], PrevPos(rows', j)) {
      assert PrevPos(rows', j) == PrevPos(rows, j);
      assert EntryAgrees(u, rows[j], PrevPos(rows, j));
    }
  }

  lemma SetContinuousShape(rows: Rows, i: nat, t: Tombstone)
    requires Wf(rows) && i < |rows|
    ensures Wf(SetContinuous(rows, i, t)) && Extends(rows, SetContinuous(rows, i, t))
  {
    var rows' := SetContinuous(rows, i, t);
    assert forall k :: 0 <= k < |rows| ==> rows'[k].pos == rows[k].pos;
  }

  lemma EvictAgrees(u: Source, rows: Rows, i: nat)
    requires Agrees(u, rows) && i < |rows|
    ensures Agrees(u, Evict(rows, i))
  {
    var rows' := Evict(rows, i);
    forall j | 0 <= j < |rows'| ensures EntryAgrees(u, rows'[j], PrevPos(rows', j)) {
      if i == |rows| - 1 || j < i {
        assert PrevPos(rows', j) == PrevPos(rows, j);
        assert EntryAgrees(u, rows[j], PrevPos(rows, j));
      } else {
        assert EntryAgrees(u, rows[j + 1], PrevPos(rows, j + 1));
        if j == i {
          MergedAgrees(u, rows[i], rows[i + 1], PrevPos(rows, i));
        } else {
          assert PrevPos(rows', j) == PrevPos(rows, j + 1);
        }
      }
    }
  }

  /** Two adjacent continuous intervals with one tombstone, parted by a dummy, are one interval. */
  lemma MergedAgrees(u: Source, e: Entry, next: Entry, prev: Pos)
    requires EntryAgrees(u, e, prev) && EntryAgrees(u, next, e.pos)
    ensures EntryAgrees(u, next.(cont := false), prev)
    ensures e.cont && e.Dummy() && e.rt == next.rt ==> EntryAgrees(u, next, prev)
  {
  }

  /** The entries after an eviction, one by one. */
  lemma EvictAt(rows: Rows, i: nat, k: nat)
    requires i < |rows| && k < |Evict(rows, i)|
    ensures var last := i == |rows| - 1;
      && Evict(rows, i)[k].pos == rows[if k < i || last then k else k + 1].pos
      && (k < i ==> Evict(rows, i)[k] == rows[k])
      && (k > i ==> !last && Evict(rows, i)[k] == rows[k + 1])
      && (k == i && last ==> Evict(rows, i)[k] == rows[i].(cont := false))
      && (k == i && !last ==>
        var keep := rows[i].cont && rows[i].Dummy() && rows[i].rt == rows[i + 1].rt;
        Evict(rows, i)[k] == if keep then rows[i + 1] else rows[i + 1].(cont := false))
  {
  }

  lemma EvictShape(rows: Rows, i: nat)
    requires Wf(rows) && i < |rows|
    ensures Wf(Evict(rows, i)) && |Evict(rows, i)| == if i == |rows| - 1 then |rows| else |rows| - 1
    ensures forall p :: HasPos(rows, p) && (p != rows[i].pos || i == |rows| - 1) ==> HasPos(Evict(rows, i), p)
  {
    var rows', last := Evict(rows, i), i == |rows| - 1;
    assert |rows'| == if last then |rows| else |rows| - 1;
    hide Evict;
    forall k | 0 <= k < |rows'| ensures rows'[k].pos == rows[if k < i || last then k else k + 1].pos {
      EvictAt(rows, i, k);
    }
    forall p | HasPos(rows, p) && (p != rows[i].pos || last) ensures HasPos(rows', p) {
      var k :| 0 <= k < |rows| && rows[k].pos == p;
      EvictAt(rows, i, if k < i || last then k else k - 1);
    }
  }

  // ---------------------------------------------------------------- entries ahead

  /** How many entries stand at or after `p`. */
  function Ahead(rows: Rows, p: Pos): nat
    requires |rows| > 0 && Le(p, rows[|rows| - 1].pos)
  {
    |rows| - LowerBound(rows, p)
  }

  lemma AheadIs(rows: Rows, p: Pos, i: nat)
    requires Wf(rows) && i < |rows| && Le(p, rows[i].pos) && (i > 0 ==> Lt(rows[i - 1].pos, p))
    ensures Le(p, Top) && Ahead(rows, p) == |rows| - i
  {
    var e := rows[i];
    assert !Lt(e.pos, p);
  }

  /** Nothing that happens before `p` changes what is ahead of it. */
  lemma InsertBehind(rows: Rows, e: Entry, p: Pos)
    requires Wf(rows) && Le(Bottom, e.pos) && Lt(e.pos, p) && Le(p, Top)
    ensures Wf(Inserted(rows, e)) && Ahead(Inserted(rows, e), p) == Ahead(rows, p)
  {
    var i, k := LowerBound(rows, e.pos), LowerBound(rows, p);
    if rows[i].pos != e.pos {
      InsertShape(rows, i, e);
      AheadIs(Inserted(rows, e), p, k + 1);
    }
  }

  lemma SetContinuousAhead(rows: Rows, i: nat, t: Tombstone, p: Pos)
    requires Wf(rows) && i < |rows| && Le(p, Top)
    ensures Wf(SetContinuous(rows, i, t)) && Ahead(SetContinuous(rows, i, t), p) == Ahead(rows, p)
  {
    SetContinuousShape(rows, i, t);
    AheadIs(SetContinuous(rows, i, t), p, LowerBound(rows, p));
  }

  lemma EvictBehind(rows: Rows, i: nat, p: Pos)
    requires Wf(rows) && i < |rows| && Lt(rows[i].pos, p) && Le(p, Top)
    ensures Wf(Evict(rows, i)) && Ahead(Evict(rows, i), p) == Ahead(rows, p)
  {
    EvictShape(rows, i);
    AheadIs(Evict(rows, i), p, LowerBound(rows, p) - 1);
  }

  // ---------------------------------------------------------------- population

  /** The sequence with `e` in it; an entry already at that position is left alone. */
  function Inserted(rows: Rows, e: Entry): (r: Rows)
    requires |rows| > 0 && Le(e.pos, rows[|rows| - 1].pos)
    ensures |r| > 0 && r[|r| - 1] == rows[|rows| - 1]
  {
    var i := LowerBound(rows, e.pos);
    if rows[i].pos == e.pos then rows else InsertBefore(rows, i, e)
  }

  /** The entry at `p`, if there is one, marked continuous with tombstone `t`. */
  function Marked(rows: Rows, p: Pos, t: Tombstone): (r: Rows)
    requires |rows| > 0 && Le(p, rows[|rows| - 1].pos)
    ensures |r| > 0 && r[|r| - 1].pos == rows[|rows| - 1].pos
  {
    SetContinuous(rows, LowerBound(rows, p), t)
  }

  /** As `Inserted`, but a new entry takes over the continuity of the interval it splits. */
  function Added(rows: Rows, e: Entry): (r: Rows)
    requires |rows| > 0 && Le(e.pos, rows[|rows| - 1].pos)
    ensures |r| > 0 && r[|r| - 1].pos == rows[|rows| - 1].pos
  {
    Inserted(rows, Restored(e, rows[LowerBound(rows, e.pos)]))
  }

  lemma InsertedAgrees(u: Source, rows: Rows, e: Entry)
    requires Wf(rows) && Agrees(u, rows) && Le(Bottom, e.pos) && Le(e.pos, Top)
    requires HasPos(rows, e.pos) || EntryAgrees(u, e, PrevPos(rows, LowerBound(rows, e.pos)))
    ensures Wf(Inserted(rows, e)) && Agrees(u, Inserted(rows, e)) && Extends(rows, Inserted(rows, e))
    ensures HasPos(Inserted(rows, e), e.pos)
    ensures forall p :: HasPos(Inserted(rows, e), p) ==> p == e.pos || HasPos(rows, p)
  {
    var i := LowerBound(rows, e.pos);
    FoundAtLowerBound(rows, e.pos);
    if rows[i].pos != e.pos {
      InsertShape(rows, i, e);
      InsertAgrees(u, rows, i, e);
    }
  }

  lemma AddedAgrees(u: Source, rows: Rows, e: Entry)
    requires Wf(rows) && Agrees(u, rows) && Le(Bottom, e.pos) && Le(e.pos, Top) && !e.cont
    requires IsRow(e.pos) ==> u.row(e.pos.rank) == e.row && u.tomb(e.pos.rank) == e.rt
    ensures Wf(Added(rows, e)) && Agrees(u, Added(rows, e)) && Extends(rows, Added(rows, e))
    ensures HasPos(Added(rows, e), e.pos)
    ensures forall p :: HasPos(Added(rows, e), p) ==> p == e.pos || HasPos(rows, p)
  {
    var i := LowerBound(rows, e.pos);
    FoundAtLowerBound(rows, e.pos);
    assert EntryAgrees(u, rows[i], PrevPos(rows, i));
    InsertedAgrees(u, rows, Restored(e, rows[i]));
  }

  /** An entry below `rows[i]` is no later than its predecessor. */
  lemma PrevAtLeast(rows: Rows, i: nat, p: Pos)
    requires Wf(rows) && i < |rows| && ((HasPos(rows, p) && Lt(p, rows[i].pos)) || p == Bottom)
    ensures Le(p, PrevPos(rows, i))
  {
  }

  /** Marking an entry continuous is right once the interval back to some entry (or to the very
      beginning) is known to be clear. */
  lemma PopulateAgrees(u: Source, rows: Rows, i: nat, from: Pos, t: Tombstone)
    requires Wf(rows) && Agrees(u, rows) && i < |rows|
    requires (HasPos(rows, from) && Lt(from, rows[i].pos)) || from == Bottom
    requires Clear(u, from, rows[i].pos, t)
    requires IsRow(rows[i].pos) ==> u.tomb(rows[i].pos.rank) == t
    ensures Wf(SetContinuous(rows, i, t)) && Agrees(u, SetContinuous(rows, i, t))
    ensures Extends(rows, SetContinuous(rows, i, t))
  {
    PrevAtLeast(rows, i, from);
    assert EntryAgrees(u, rows[i], PrevPos(rows, i));
    SetContinuousAgrees(u, rows, i, t);
    SetContinuousShape(rows, i, t);
  }

  /** `maybe_update_continuity` once the interval before the row or dummy at `p` has been read: a row
      with another tombstone gets a dummy of its own in front of it. */
  function Continued(rows: Rows, p: Pos, t: Tombstone): (r: Rows)
    requires |rows| > 0 && Le(p, rows[|rows| - 1].pos)
    ensures |r| > 0 && r[|r| - 1].pos == rows[|rows| - 1].pos
  {
    var e := rows[LowerBound(rows, p)];
    if t != e.rt && !e.Dummy() then
      Marked(Inserted(rows, Entry(BeforeKey(p), true, t, EmptyRow)), p, e.rt)
    else Marked(rows, p, t)
  }

  lemma ContinuedAgrees(u: Source, rows: Rows, p: Pos, from: Pos, t: Tombstone)
    requires Wf(rows) && Agrees(u, rows) && HasPos(rows, p) && Le(Bottom, p) && Le(p, Top)
    requires (HasPos(rows, from) && Lt(from, p)) || from == Bottom
    requires Clear(u, from, BeforeKey(p), t)
    ensures Wf(Continued(rows, p, t)) && Agrees(u, Continued(rows, p, t)) && Extends(rows, Continued(rows, p, t))
  {
    hide Agrees, Wf, HasPos, Extends;
    LastIsTop(rows);
    FoundAtLowerBound(rows, p);
    var i := LowerBound(rows, p);
    var e := rows[i];
    AgreesAt(u, rows, i);
    if t != e.rt && !e.Dummy() {
      FenceAgrees(u, rows, p, from, t);
      var fenced := Inserted(rows, Entry(BeforeKey(p), true, t, EmptyRow));
      FoundAtLowerBound(fenced, p);
      PopulateAgrees(u, fenced, LowerBound(fenced, p), BeforeKey(p), e.rt);
      ExtendsTransitive(rows, fenced, Marked(fenced, p, e.rt));
    } else {
      PopulateAgrees(u, rows, i, from, t);
    }
  }

  lemma ContinuedAhead(rows: Rows, p: Pos, t: Tombstone)
    requires Wf(rows) && HasPos(rows, p) && Le(Bottom, p) && Le(p, Top)
    ensures Wf(Continued(rows, p, t)) && Ahead(Continued(rows, p, t), p) == Ahead(rows, p)
  {
    hide Wf, HasPos, Ahead, Inserted, SetContinuous;
    LastIsTop(rows);
    FoundAtLowerBound(rows, p);
    var e := rows[LowerBound(rows, p)];
    if t != e.rt && !e.Dummy() {
      var fenced := Inserted(rows, Entry(BeforeKey(p), true, t, EmptyRow));
      InsertBehind(rows, Entry(BeforeKey(p), true, t, EmptyRow), p);
      LastIsTop(fenced);
      SetContinuousAhead(fenced, LowerBound(fenced, p), e.rt, p);
    } else {
      SetContinuousAhead(rows, LowerBound(rows, p), t, p);
    }
  }

  lemma AgreesAt(u: Source, rows: Rows, i: nat)
    requires Agrees(u, rows) && i < |rows|
    ensures EntryAgrees(u, rows[i], PrevPos(rows, i))
  {
  }

  lemma LastIsTop(rows: Rows)
    requires Wf(rows)
    ensures |rows| > 0 && rows[|rows| - 1].pos == Top
  {
  }

  lemma ExtendsTransitive(a: Rows, b: Rows, c: Rows)
    requires Extends(a, b) && Extends(b, c)
    ensures Extends(a, c)
  {
  }

  lemma FenceAgrees(u: Source, rows: Rows, p: Pos, from: Pos, t: Tombstone)
    requires Wf(rows) && Agrees(u, rows) && HasPos(rows, p) && Le(Bottom, p) && Le(p, Top) && IsRow(p)
    requires (HasPos(rows, from) && Lt(from, p)) || from == Bottom
    requires Clear(u, from, BeforeKey(p), t)
    ensures var r := Inserted(rows, Entry(BeforeKey(p), true, t, EmptyRow));
      Wf(r) && Agrees(u, r) && Extends(rows, r) && HasPos(r, p) && HasPos(r, BeforeKey(p))
  {
    hide Agrees;
    var q := BeforeKey(p);
    var i := LowerBound(rows, q);
    FoundAtLowerBound(rows, q);
    if !HasPos(rows, q) {
      PrevAtLeast(rows, i, from);
    }
    InsertedAgrees(u, rows, Entry(q, true, t, EmptyRow));
  }

  // ---------------------------------------------------------------- single-row reads

  /** What a single-row read of `key` leaves behind when it found no next entry in range: an entry
      without writes and without a tombstone, as continuous as its successor. */
  function WithEmptyRow(rows: Rows, key: real): (r: Rows)
    requires |rows| > 0 && Le(K(key), rows[|rows| - 1].pos)
    ensures |r| > 0 && r[|r| - 1].pos == rows[|rows| - 1].pos
  {
    Inserted(rows, Entry(K(key), rows[LowerBound(rows, K(key))].cont, NoTomb, EmptyRow))
  }

  /** The rows hold an entry for the key that says something else than the source. */
  ghost predicate Misstates(u: Source, rows: Rows, key: real) {
    exists e :: e in rows && e.pos == K(key) && (e.row != u.row(key) || e.rt != u.tomb(key))
  }

  lemma MisstatesDisagrees(u: Source, rows: Rows, key: real)
    requires Misstates(u, rows, key)
    ensures !Agrees(u, rows)
  {
    var i :| 0 <= i < |rows| && rows[i].pos == K(key) && (rows[i].row != u.row(key) || rows[i].rt != u.tomb(key));
    assert !EntryAgrees(u, rows[i], PrevPos(rows, i));
  }

  /** The empty entry is right exactly when it is not needed or the source has nothing at the key. */
  lemma EmptyRowAgrees(u: Source, rows: Rows, key: real)
    requires Wf(rows) && Agrees(u, rows) && Le(Bottom, K(key)) && Lt(K(key), Top)
    ensures Wf(WithEmptyRow(rows, key)) && Extends(rows, WithEmptyRow(rows, key))
    ensures Agrees(u, WithEmptyRow(rows, key)) <==>
      HasPos(rows, K(key)) || (u.row(key) == EmptyRow && u.tomb(key) == NoTomb)
    ensures !Agrees(u, WithEmptyRow(rows, key)) ==> Misstates(u, WithEmptyRow(rows, key), key)
  {
    hide Agrees, Wf, Extends, HasPos;
    LastIsTop(rows);
    var i := LowerBound(rows, K(key));
    var e := Entry(K(key), rows[i].cont, NoTomb, EmptyRow);
    FoundAtLowerBound(rows, K(key));
    AgreesAt(u, rows, i);
    if HasPos(rows, K(key)) {
      InsertedAgrees(u, rows, e);
    } else {
      InsertAfterLookup(rows, e);
      if u.row(key) == EmptyRow && u.tomb(key) == NoTomb {
        InsertedAgrees(u, rows, e);
      } else if Agrees(u, WithEmptyRow(rows, key)) {
        AgreesAt(u, WithEmptyRow(rows, key), i);
      }
    }
  }

  lemma InsertAfterLookup(rows: Rows, e: Entry)
    requires Wf(rows) && Le(Bottom, e.pos) && Le(e.pos, Top) && !HasPos(rows, e.pos)
    ensures Wf(Inserted(rows, e)) && Extends(rows, Inserted(rows, e))
    ensures LowerBound(rows, e.pos) < |Inserted(rows, e)| && Inserted(rows, e)[LowerBound(rows, e.pos)] == e
  {
    FoundAtLowerBound(rows, e.pos);
    InsertShape(rows, LowerBound(rows, e.pos), e);
  }

  // ---------------------------------------------------------------- denoted contents

  datatype Knowledge = Unknown | Known(row: Row, tomb: Tombstone)

  /** What the cached rows have to say about a key. */
  function KnownAt(rows: Rows, r: real): Knowledge
    requires |rows| > 0 && Le(K(r), rows[|rows| - 1].pos)
  {
    var e := rows[LowerBound(rows, K(r))];
    if e.pos == K(r) then Known(e.row, e.rt)
    else if e.cont then Known(EmptyRow, e.rt)
    else Unknown
  }

  ghost predicate IsKey(r: real) { Lt(Bottom, K(r)) && Lt(K(r), Top) }

  /** Entry-wise agreement is the same as: every lookup either misses or finds the source's contents. */
  lemma AgreementIsSoundness(u: Source, rows: Rows)
    requires Wf(rows) && forall i :: 0 <= i < |rows| && IsRow(rows[i].pos) ==> IsKey(rows[i].pos.rank)
    ensures Agrees(u, rows) <==>
      forall r: real | IsKey(r) :: KnownAt(rows, r) in {Unknown, Known(u.row(r), u.tomb(r))}
  {
    if Agrees(u, rows) {
      forall r: real | IsKey(r) ensures KnownAt(rows, r) in {Unknown, Known(u.row(r), u.tomb(r))} {
        AgreesAt(u, rows, LowerBound(rows, K(r)));
      }
    }
    if forall r: real | IsKey(r) :: KnownAt(rows, r) in {Unknown, Known(u.row(r), u.tomb(r))} {
      forall i | 0 <= i < |rows| ensures EntryAgrees(u, rows[i], PrevPos(rows, i)) {
        SoundEntry(u, rows, i);
      }
    }
  }

  lemma SoundEntry(u: Source, rows: Rows, i: nat)
    requires Wf(rows) && i < |rows| && (IsRow(rows[i].pos) ==> IsKey(rows[i].pos.rank))
    requires forall r: real | IsKey(r) :: KnownAt(rows, r) in {Unknown, Known(u.row(r), u.tomb(r))}
    ensures EntryAgrees(u, rows[i], PrevPos(rows, i))
  {
    if IsRow(rows[i].pos) {
      assert LowerBound(rows, K(rows[i].pos.rank)) == i;
    }
    forall r: real | rows[i].cont && Lt(PrevPos(rows, i), K(r)) && Lt(K(r), rows[i].pos)
      ensures u.row(r) == EmptyRow && u.tomb(r) == rows[i].rt
    {
      LookupAt(rows, i, r);
      assert IsKey(r);
    }
  }

  lemma LookupAt(rows: Rows, i: nat, r: real)
    requires Wf(rows) && i < |rows| && Lt(PrevPos(rows, i), K(r)) && Le(K(r), rows[i].pos)
    ensures Le(K(r), Top) && LowerBound(rows, K(r)) == i
  {
    assert forall j :: 0 <= j < i ==> Lt(rows[j].pos, K(r));
  }

  /** Splitting an interval with a dummy changes no lookup. */
  lemma SplitKeepsContents(rows: Rows, p: Pos, r: real)
    requires Wf(rows) && !IsRow(p) && Le(Bottom, p) && Le(p, Top) && IsKey(r)
    ensures var rows' := Added(rows, Entry(p, false, NoTomb, EmptyRow));
      KnownAt(rows', r) == KnownAt(rows, r)
  {
    var i := LowerBound(rows, p);
    var e := Restored(Entry(p, false, NoTomb, EmptyRow), rows[i]);
    if rows[i].pos != p {
      InsertShape(rows, i, e);
      SplitLookup(rows, i, e, r);
    }
  }

  lemma SplitLookup(rows: Rows, i: nat, e: Entry, r: real)
    requires Wf(rows) && i < |rows| && Lt(e.pos, rows[i].pos) && IsKey(r) && Wf(InsertBefore(rows, i, e))
    requires e.pos != K(r) && e.cont == rows[i].cont && (e.cont ==> e.rt == rows[i].rt)
    ensures KnownAt(InsertBefore(rows, i, e), r) == KnownAt(rows, r)
  {
    hide Sorted;
    var rows' := InsertBefore(rows, i, e);
    var k := LowerBound(rows, K(r));
    if k < i {
      assert PrevPos(rows', k) == PrevPos(rows, k) && rows'[k] == rows[k];
      LookupAt(rows', k, r);
    } else if k == i && Lt(K(r), e.pos) {
      assert PrevPos(rows', k) == PrevPos(rows, k) && rows'[k] == e;
      LookupAt(rows', k, r);
    } else {
      assert PrevPos(rows', k + 1) == (if k == i then e.pos else PrevPos(rows, k)) && rows'[k + 1] == rows[k];
      LookupAt(rows', k + 1, r);
    }
  }

  lemma EvictLookup(rows: Rows, i: nat, r: real)
    requires Wf(rows) && i < |rows| && IsKey(r)
    ensures var k := LowerBound(rows, K(r));
      Wf(Evict(rows, i)) && LowerBound(Evict(rows, i), K(r)) == if k <= i then k else k - 1
  {
    hide Evict, HasPos, Sorted, Wf;
    EvictShape(rows, i);
    LastIsTop(rows);
    var k := LowerBound(rows, K(r));
    var k' := if k <= i then k else k - 1;
    AboveLookup(rows, k, r);
    EvictAt(rows, i, k');
    if k' > 0 {
      EvictAt(rows, i, k' - 1);
    }
    LookupAt(Evict(rows, i), k', r);
  }

  /** Every entry from the one looked up on is at or after the key. */
  lemma AboveLookup(rows: Rows, k: nat, r: real)
    requires Wf(rows) && k < |rows| && Le(K(r), rows[k].pos)
    ensures k + 1 < |rows| ==> Le(K(r), rows[k + 1].pos)
  {
    assert k + 1 < |rows| ==> Lt(rows[k].pos, rows[k + 1].pos);
  }

  /** Eviction only forgets. */
  lemma EvictionForgets(rows: Rows, i: nat, r: real)
    requires Wf(rows) && i < |rows| && IsKey(r)
    ensures Wf(Evict(rows, i)) && KnownAt(Evict(rows, i), r) in {Unknown, KnownAt(rows, r)}
    ensures i < |rows| - 1 && rows[i].Dummy() && rows[i].cont && rows[i + 1].cont && rows[i].rt == rows[i + 1].rt ==>
      KnownAt(Evict(rows, i), r) == KnownAt(rows, r)
  {
    hide Wf, LowerBound, Evict;
    EvictLookup(rows, i, r);
    LastIsTop(rows);
    LastIsTop(Evict(rows, i));
    EvictAt(rows, i, LowerBound(Evict(rows, i), K(r)));
    if LowerBound(rows, K(r)) == i && i + 1 < |rows| {
      AboveLookup(rows, i, r);
      OnlyAtItsEntry(rows, i, r);
    }
  }

  lemma OnlyAtItsEntry(rows: Rows, i: nat, r: real)
    requires Wf(rows) && i + 1 < |rows| && Le(K(r), rows[i].pos)
    ensures rows[i + 1].pos != K(r)
  {
    assert Lt(rows[i].pos, rows[i + 1].pos);
  }
}
