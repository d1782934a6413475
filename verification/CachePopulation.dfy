/** What populating the cache makes known, told by lookups alone. */
module CachePopulation {
  import opened Positions
  import opened CacheRows
  import opened Streams

  /** The entry before the place of `p`. */
  function Predecessor(rows: Rows, p: Pos): Pos
    requires |rows| > 0 && Le(p, rows[|rows| - 1].pos)
  {
    PrevPos(rows, LowerBound(rows, p))
  }

  /** The keys after `from` up to `to`, inclusive, became known with the source's contents; no other lookup changed. */
  ghost predicate Learned(u: Source, rows: Rows, rows': Rows, from: Pos, to: Pos) {
    Wf(rows) && Wf(rows') && forall r: real | IsKey(r) :: LearnedAt(u, rows, rows', from, to, r)
  }

  /** The whole interval between `p` and the entry before it became known. */
  ghost predicate LearnedTo(u: Source, rows: Rows, rows': Rows, p: Pos) {
    Wf(rows) && Le(p, Top) && Learned(u, rows, rows', Predecessor(rows, p), p)
  }

  ghost predicate LearnedAt(u: Source, rows: Rows, rows': Rows, from: Pos, to: Pos, r: real)
    requires Wf(rows) && Wf(rows') && IsKey(r)
  {
    KnownAt(rows', r) == if Lt(from, K(r)) && Le(K(r), to) then Known(u.row(r), u.tomb(r)) else KnownAt(rows, r)
  }

  lemma Sound(u: Source, rows: Rows, r: real)
    requires Wf(rows) && Agrees(u, rows) && IsKey(r)
    ensures KnownAt(rows, r) in {Unknown, Known(u.row(r), u.tomb(r))}
  {
    AgreesAt(u, rows, LowerBound(rows, K(r)));
  }

  // ---------------------------------------------------------------- one update at a time

  lemma PlaceOf(rows: Rows, p: Pos, i: nat)
    requires Wf(rows) && i < |rows| && Le(p, rows[i].pos) && (i > 0 ==> Lt(rows[i - 1].pos, p))
    ensures Le(p, Top) && LowerBound(rows, p) == i
  {
    AheadIs(rows, p, i);
  }

  /** Marking an entry continuous makes the interval back to its predecessor known, and nothing else. */
  lemma MarkedLearns(u: Source, rows: Rows, p: Pos, t: Tombstone)
    requires Wf(rows) && HasPos(rows, p) && Le(p, Top)
    requires Wf(Marked(rows, p, t)) && Agrees(u, Marked(rows, p, t))
    ensures Learned(u, rows, Marked(rows, p, t), Predecessor(rows, p), p)
  {
    hide Agrees, Sorted;
    FoundAtLowerBound(rows, p);
    var i := LowerBound(rows, p);
    var rows' := Marked(rows, p, t);
    forall r: real | IsKey(r) ensures LearnedAt(u, rows, rows', Predecessor(rows, p), p, r) {
      var k := LowerBound(rows, K(r));
      assert rows'[k].pos == rows[k].pos && PrevPos(rows', k) == PrevPos(rows, k);
      LookupAt(rows', k, r);
      Sound(u, rows', r);
      if k < i {
        PrevAbove(rows, k, i);
      } else if k > i {
        PrevAbove(rows, i, k);
      }
    }
  }

  lemma PrevAbove(rows: Rows, k: nat, i: nat)
    requires Wf(rows) && k < i < |rows|
    ensures Le(rows[k].pos, PrevPos(rows, i)) && Lt(rows[k].pos, rows[i].pos)
  {
  }

  /** An entry added with the continuity of its place makes nothing known but its own row. */
  lemma AddedLearns(u: Source, rows: Rows, e: Entry)
    requires Wf(rows) && Agrees(u, rows) && Le(Bottom, e.pos) && Le(e.pos, Top) && !e.cont
    requires Wf(Added(rows, e)) && Agrees(u, Added(rows, e))
    ensures Learned(u, rows, Added(rows, e), BeforeKey(e.pos), e.pos)
    ensures Predecessor(Added(rows, e), e.pos) == Predecessor(rows, e.pos) && HasPos(Added(rows, e), e.pos)
  {
    hide Agrees, Sorted;
    var i := LowerBound(rows, e.pos);
    var rows', e' := Added(rows, e), Restored(e, rows[i]);
    if rows[i].pos == e.pos {
      FoundAtLowerBound(rows, e.pos);
      forall r: real | IsKey(r) ensures LearnedAt(u, rows, rows', BeforeKey(e.pos), e.pos, r) {
        Sound(u, rows, r);
      }
    } else {
      assert rows'[i] == e' && PrevPos(rows', i) == PrevPos(rows, i);
      PlaceOf(rows', e.pos, i);
      FoundAtLowerBound(rows', e.pos);
      forall r: real | IsKey(r) ensures LearnedAt(u, rows, rows', BeforeKey(e.pos), e.pos, r) {
        if e.pos == K(r) {
          Sound(u, rows', r);
        } else {
          SplitLookup(rows, i, e', r);
        }
      }
    }
  }

  /** An entry added and marked: everything from its predecessor up to it is known. */
  lemma PopulatedLearns(u: Source, rows: Rows, e: Entry, t: Tombstone)
    requires Wf(rows) && Agrees(u, rows) && Le(Bottom, e.pos) && Le(e.pos, Top) && !e.cont
    requires Wf(Added(rows, e)) && Agrees(u, Added(rows, e))
    requires Wf(Marked(Added(rows, e), e.pos, t)) && Agrees(u, Marked(Added(rows, e), e.pos, t))
    ensures Learned(u, rows, Marked(Added(rows, e), e.pos, t), Predecessor(rows, e.pos), e.pos)
  {
    hide Agrees, Wf, KnownAt, Added, Marked, HasPos;
    LastIsTop(rows);
    AddedLearns(u, rows, e);
    MarkedLearns(u, Added(rows, e), e.pos, t);
    PredecessorBefore(rows, e.pos);
    var rows1, rows2 := Added(rows, e), Marked(Added(rows, e), e.pos, t);
    forall r: real | IsKey(r) ensures LearnedAt(u, rows, rows2, Predecessor(rows, e.pos), e.pos, r) {
      assert LearnedAt(u, rows, rows1, BeforeKey(e.pos), e.pos, r);
      assert LearnedAt(u, rows1, rows2, Predecessor(rows1, e.pos), e.pos, r);
    }
  }

  lemma PredecessorBefore(rows: Rows, p: Pos)
    requires Wf(rows) && Le(Bottom, p) && Le(p, Top)
    ensures Le(Predecessor(rows, p), BeforeKey(p))
  {
  }

  /** Making the entry at `p` continuous, with or without a dummy in front of it. */
  lemma ContinuedLearns(u: Source, rows: Rows, p: Pos, t: Tombstone)
    requires Wf(rows) && Agrees(u, rows) && HasPos(rows, p) && Le(Bottom, p) && Le(p, Top)
    requires Wf(Continued(rows, p, t)) && Agrees(u, Continued(rows, p, t))
    ensures Learned(u, rows, Continued(rows, p, t), Predecessor(rows, p), p)
  {
    hide Agrees, Sorted, HasPos;
    FoundAtLowerBound(rows, p);
    var i := LowerBound(rows, p);
    if rows[i].rt == t || rows[i].Dummy() {
      MarkedLearns(u, rows, p, t);
    } else {
      FenceLearns(u, rows, p, t);
    }
  }

  lemma FenceLearns(u: Source, rows: Rows, p: Pos, t: Tombstone)
    requires Wf(rows) && Agrees(u, rows) && HasPos(rows, p) && Le(Bottom, p) && Le(p, Top) && IsRow(p)
    requires Wf(Continued(rows, p, t)) && Agrees(u, Continued(rows, p, t)) && rows[LowerBound(rows, p)].rt != t
    ensures Learned(u, rows, Continued(rows, p, t), Predecessor(rows, p), p)
  {
    hide Agrees, Wf, HasPos, KnownAt;
    LastIsTop(rows);
    FoundAtLowerBound(rows, p);
    var i, q := LowerBound(rows, p), BeforeKey(p);
    if i > 0 && rows[i - 1].pos == q {
      PlaceBefore(rows, i);
      MarkedLearns(u, rows, p, rows[i].rt);
    } else {
      PlaceOf(rows, q, i);
      forall r: real | IsKey(r) ensures LearnedAt(u, rows, Continued(rows, p, t), Predecessor(rows, p), p, r) {
        FencedLookup(u, rows, p, t, r);
      }
    }
  }

  lemma PlaceBefore(rows: Rows, i: nat)
    requires Wf(rows) && 0 < i < |rows|
    ensures Le(rows[i - 1].pos, Top) && LowerBound(rows, rows[i - 1].pos) == i - 1
  {
    assert i > 1 ==> Lt(rows[i - 2].pos, rows[i - 1].pos);
    PlaceOf(rows, rows[i - 1].pos, i - 1);
  }

  /** The rows with a dummy of its own in front of the row at `p`. */
  lemma FencedRows(rows: Rows, p: Pos, t: Tombstone)
    requires Wf(rows) && HasPos(rows, p) && Le(Bottom, p) && Le(p, Top) && IsRow(p)
    requires rows[LowerBound(rows, p)].rt != t && LowerBound(rows, BeforeKey(p)) == LowerBound(rows, p)
    ensures var i := LowerBound(rows, p);
      var rows' := InsertBefore(rows, i, Entry(BeforeKey(p), true, t, EmptyRow));
      && rows[i].pos == p && (i > 0 ==> Lt(rows[i - 1].pos, BeforeKey(p)))
      && i + 1 < |rows'| && Continued(rows, p, t) == rows'[i + 1 := rows[i].(cont := true)]
  {
    hide HasPos, Sorted, LowerBound;
    FoundAtLowerBound(rows, p);
    var i, fence := LowerBound(rows, p), Entry(BeforeKey(p), true, t, EmptyRow);
    assert i > 0 ==> Lt(rows[i - 1].pos, BeforeKey(p)) by { BelowLookup(rows, BeforeKey(p)); }
    InsertShape(rows, i, fence);
    var fenced := InsertBefore(rows, i, fence);
    assert fenced[i] == fence && fenced[i + 1] == rows[i];
    PlaceOf(fenced, p, i + 1);
  }

  lemma BelowLookup(rows: Rows, p: Pos)
    requires |rows| > 0 && Le(p, rows[|rows| - 1].pos)
    ensures LowerBound(rows, p) > 0 ==> Lt(rows[LowerBound(rows, p) - 1].pos, p)
  {
  }

  lemma FencedLookup(u: Source, rows: Rows, p: Pos, t: Tombstone, r: real)
    requires Wf(rows) && Agrees(u, rows) && HasPos(rows, p) && Le(Bottom, p) && Le(p, Top) && IsRow(p) && IsKey(r)
    requires Wf(Continued(rows, p, t)) && Agrees(u, Continued(rows, p, t))
    requires rows[LowerBound(rows, p)].rt != t && LowerBound(rows, BeforeKey(p)) == LowerBound(rows, p)
    ensures LearnedAt(u, rows, Continued(rows, p, t), Predecessor(rows, p), p, r)
  {
    hide Agrees, Wf, Continued, HasPos, LowerBound;
    LastIsTop(rows);
    LastIsTop(Continued(rows, p, t));
    FencedRows(rows, p, t);
    var i, k := LowerBound(rows, p), LowerBound(rows, K(r));
    var rows' := Continued(rows, p, t);
    BelowLookup(rows, K(r));
    Sound(u, rows', r);
    if k < i {
      assert PrevPos(rows', k) == PrevPos(rows, k) && rows'[k] == rows[k];
      LookupAt(rows', k, r);
      PrevAbove(rows, k, i);
    } else if k == i {
      assert PrevPos(rows', k) == PrevPos(rows, k) && PrevPos(rows', k + 1) == BeforeKey(p);
      LookupAt(rows', if K(r) == p then k + 1 else k, r);
    } else {
      assert PrevPos(rows', k + 1) == PrevPos(rows, k) && rows'[k + 1] == rows[k];
      LookupAt(rows', k + 1, r);
      PrevAbove(rows, i, k);
    }
  }

  // ---------------------------------------------------------------- dropping a redundant dummy

  /** No entry stands strictly between two positions. */
  ghost predicate NothingBetween(rows: Rows, a: Pos, b: Pos) {
    forall i :: 0 <= i < |rows| ==> Le(rows[i].pos, a) || Le(b, rows[i].pos)
  }

  /** The interval after `p` is known and has the tombstone `t`. */
  ghost predicate ContinuesAfter(rows: Rows, p: Pos, t: Tombstone)
    requires |rows| > 0 && Le(p, rows[|rows| - 1].pos)
  {
    var i := LowerBound(rows, p);
    i + 1 < |rows| && rows[i + 1].cont && rows[i + 1].rt == t
  }

  /** Dropping a redundant dummy changes no lookup if the interval after it is known, with the same tombstone. */
  lemma DroppedKeeps(rows: Rows, p: Pos, t: Tombstone)
    requires Wf(rows) && Le(p, Top) && ContinuesAfter(rows, p, t)
    ensures Wf(Dropped(rows, p, t)) && forall r: real | IsKey(r) :: KnownAt(Dropped(rows, p, t), r) == KnownAt(rows, r)
  {
    hide Wf, KnownAt, Evict;
    LastIsTop(rows);
    if Redundant(rows, p, t) {
      var i := LowerBound(rows, p);
      EvictShape(rows, i);
      LastIsTop(Evict(rows, i));
      forall r: real | IsKey(r) ensures KnownAt(Evict(rows, i), r) == KnownAt(rows, r) {
        EvictionForgets(rows, i, r);
      }
    }
  }

  lemma LearnedThenKept(u: Source, rows: Rows, rows1: Rows, rows2: Rows, from: Pos, to: Pos)
    requires Wf(rows) && Wf(rows1) && Wf(rows2) && Learned(u, rows, rows1, from, to)
    requires forall r: real | IsKey(r) :: KnownAt(rows2, r) == KnownAt(rows1, r)
    ensures Learned(u, rows, rows2, from, to)
  {
    hide Wf, KnownAt;
    forall r: real | IsKey(r) ensures LearnedAt(u, rows, rows2, from, to, r) {
      assert LearnedAt(u, rows, rows1, from, to, r);
    }
  }

  lemma FollowedBy(rows: Rows, a: Pos, b: Pos)
    requires Wf(rows) && HasPos(rows, a) && HasPos(rows, b) && Lt(a, b) && Le(b, Top) && NothingBetween(rows, a, b)
    ensures Le(a, Top) && LowerBound(rows, b) == LowerBound(rows, a) + 1
  {
    FoundAtLowerBound(rows, a);
    FoundAtLowerBound(rows, b);
    var i := LowerBound(rows, a);
    assert Lt(rows[i].pos, rows[i + 1].pos);
    PlaceOf(rows, b, i + 1);
  }

  /** The last entry is the dummy right before a row with another tombstone.  It is redundant for the interval before it,
      but nothing takes its place: the row's own tombstone cannot vouch for that interval. */
  predicate DropsTooMuch(rows: Rows, last: Pos, p: Pos, t: Tombstone)
    requires |rows| > 0 && Le(last, rows[|rows| - 1].pos) && Le(p, rows[|rows| - 1].pos)
  {
    IsRow(p) && last == BeforeKey(p) && last != Bottom && Redundant(rows, last, t) && rows[LowerBound(rows, p)].rt != t
  }

  /** What stands after the last entry once the entry at `p` has been made continuous. */
  lemma AfterLast(rows: Rows, last: Pos, p: Pos, t: Tombstone)
    requires Wf(rows) && HasPos(rows, last) && HasPos(rows, p) && Le(Bottom, last) && Lt(last, p) && Le(p, Top)
    requires NothingBetween(rows, last, p) && Wf(Continued(rows, p, t)) && Le(last, Top)
    ensures var rows', i := Continued(rows, p, t), LowerBound(rows, last);
      && LowerBound(rows', last) == i && rows'[i] == rows[i] && rows[i].pos == last && PrevPos(rows', i) == PrevPos(rows, i)
      && LowerBound(rows, p) == i + 1 < |rows'| && rows'[i + 1].cont
      && rows'[i + 1].rt == (if IsRow(p) && last == BeforeKey(p) then rows[i + 1].rt else t)
      && (IsRow(p) && last == BeforeKey(p) ==> rows'[i + 1].pos == p)
  {
    hide Wf, NothingBetween, HasPos, LowerBound;
    LastIsTop(rows);
    FollowedBy(rows, last, p);
    FoundAtLowerBound(rows, last);
    FoundAtLowerBound(rows, p);
    BelowLookup(rows, last);
    var rows', i := Continued(rows, p, t), LowerBound(rows, last);
    if rows[i + 1].rt != t && IsRow(p) && last != BeforeKey(p) {
      PlaceOf(rows, BeforeKey(p), i + 1);
      FencedRows(rows, p, t);
    }
    PlaceOf(rows', last, i);
  }

  /** With nothing between the last entry and `p`, making `p` continuous and dropping the last entry makes the interval
      known and forgets nothing, exactly unless too much is dropped. */
  lemma ContinuedThenDropped(u: Source, rows: Rows, last: Pos, p: Pos, t: Tombstone)
    requires Wf(rows) && Agrees(u, rows) && HasPos(rows, last) && HasPos(rows, p)
    requires Le(Bottom, last) && Lt(last, p) && Le(p, Top) && NothingBetween(rows, last, p) && Le(last, Top)
    requires Wf(Continued(rows, p, t)) && Agrees(u, Continued(rows, p, t))
    requires Wf(Dropped(Continued(rows, p, t), last, t))
    ensures LearnedTo(u, rows, Dropped(Continued(rows, p, t), last, t), p) <==> !DropsTooMuch(rows, last, p, t)
    ensures DropsTooMuch(rows, last, p, t) ==> !Keeps(rows, Dropped(Continued(rows, p, t), last, t))
  {
    hide Agrees, Wf, KnownAt, NothingBetween, LowerBound, Continued, HasPos, Learned;
    LastIsTop(rows);
    LastIsTop(Continued(rows, p, t));
    ContinuedLearns(u, rows, p, t);
    AfterLast(rows, last, p, t);
    var rows1 := Continued(rows, p, t);
    var rows2 := Dropped(rows1, last, t);
    if DropsTooMuch(rows, last, p, t) {
      DropLoses(u, rows, last, p, t);
    } else if Redundant(rows1, last, t) && rows1[LowerBound(rows, last) + 1].rt != t {
      AtTheBottom(rows1, last, t);
      LearnedThenKept(u, rows, rows1, rows2, Predecessor(rows, p), p);
    } else {
      if Redundant(rows1, last, t) {
        DroppedKeeps(rows1, last, t);
      }
      LearnedThenKept(u, rows, rows1, rows2, Predecessor(rows, p), p);
    }
  }

  /** A key in the interval before the last entry, known before and forgotten after. */
  lemma DropLoses(u: Source, rows: Rows, last: Pos, p: Pos, t: Tombstone)
    requires Wf(rows) && Agrees(u, rows) && HasPos(rows, last) && HasPos(rows, p)
    requires Le(Bottom, last) && Lt(last, p) && Le(p, Top) && NothingBetween(rows, last, p) && Le(last, Top)
    requires Wf(Continued(rows, p, t)) && Wf(Dropped(Continued(rows, p, t), last, t)) && DropsTooMuch(rows, last, p, t)
    ensures exists r: real ::
      IsKey(r) && KnownAt(rows, r) == Known(EmptyRow, t) && KnownAt(Dropped(Continued(rows, p, t), last, t), r) == Unknown
    ensures !Learned(u, rows, Dropped(Continued(rows, p, t), last, t), Predecessor(rows, p), p)
  {
    hide Agrees, Wf, NothingBetween, LowerBound, Continued, HasPos, Evict;
    LastIsTop(rows);
    LastIsTop(Continued(rows, p, t));
    AfterLast(rows, last, p, t);
    BelowLookup(rows, last);
    PredecessorBefore(rows, last);
    var i, rows1 := LowerBound(rows, last), Continued(rows, p, t);
    var r := (Predecessor(rows, last).rank + last.rank) / 2.0;
    var rows2 := Evict(rows1, i);
    EvictShape(rows1, i);
    LastIsTop(rows2);
    FirstAbove(rows, i);
    LookupAt(rows, i, r);
    EvictAt(rows1, i, i);
    if i > 0 {
      EvictAt(rows1, i, i - 1);
    }
    LookupAt(rows2, i, r);
    assert !LearnedAt(u, rows, rows2, Predecessor(rows, p), p, r);
  }

  lemma FirstAbove(rows: Rows, i: nat)
    requires Wf(rows) && i < |rows| && rows[i].pos.w == -1 && rows[i].pos != Bottom
    ensures PrevPos(rows, i).rank < rows[i].pos.rank && 0.0 <= PrevPos(rows, i).rank && rows[i].pos.rank <= 1.0
  {
  }

  lemma AtTheBottom(rows: Rows, last: Pos, t: Tombstone)
    requires Wf(rows) && last == Bottom && HasPos(rows, last) && Wf(Dropped(rows, last, t))
    requires LowerBound(rows, last) + 1 < |rows| && IsRow(rows[LowerBound(rows, last) + 1].pos)
    requires rows[LowerBound(rows, last) + 1].pos.rank == 0.0
    ensures forall r: real | IsKey(r) :: KnownAt(Dropped(rows, last, t), r) == KnownAt(rows, r)
  {
  }

  /** The same at the end of a range, where the dummy put at `p` vouches for the interval. */
  lemma PopulatedThenDropped(u: Source, rows: Rows, last: Pos, p: Pos, t: Tombstone)
    requires Wf(rows) && Agrees(u, rows) && HasPos(rows, last) && !IsRow(p)
    requires Le(Bottom, last) && Lt(last, p) && Le(p, Top) && NothingBetween(rows, last, p) && Le(last, Top)
    requires var added := Added(rows, Entry(p, false, NoTomb, EmptyRow));
      && Wf(added) && Agrees(u, added) && Wf(Marked(added, p, t)) && Agrees(u, Marked(added, p, t))
      && Wf(Dropped(Marked(added, p, t), last, t))
    ensures var marked := Marked(Added(rows, Entry(p, false, NoTomb, EmptyRow)), p, t);
      Learned(u, rows, Dropped(marked, last, t), Predecessor(rows, p), p)
  {
    hide Agrees, Wf, KnownAt, NothingBetween, LowerBound, HasPos, Learned, Added;
    LastIsTop(rows);
    var e := Entry(p, false, NoTomb, EmptyRow);
    var added := Added(rows, e);
    LastIsTop(added);
    PopulatedLearns(u, rows, e, t);
    AddedBetween(rows, last, e);
    FollowedBy(added, last, p);
    FoundAtLowerBound(added, p);
    var marked := Marked(added, p, t);
    LastIsTop(marked);
    MarkedPlace(added, last, p, t);
    DroppedKeeps(marked, last, t);
    LearnedThenKept(u, rows, marked, Dropped(marked, last, t), Predecessor(rows, p), p);
  }

  lemma MarkedPlace(rows: Rows, last: Pos, p: Pos, t: Tombstone)
    requires Wf(rows) && Le(last, Top) && Le(p, Top) && LowerBound(rows, p) == LowerBound(rows, last) + 1
    requires Wf(Marked(rows, p, t))
    ensures LowerBound(Marked(rows, p, t), last) == LowerBound(rows, last)
    ensures ContinuesAfter(Marked(rows, p, t), last, t)
  {
    BelowLookup(rows, last);
    PlaceOf(Marked(rows, p, t), last, LowerBound(rows, last));
  }

  lemma AddedBetween(rows: Rows, a: Pos, e: Entry)
    requires Wf(rows) && HasPos(rows, a) && Lt(a, e.pos) && Le(e.pos, Top) && Le(Bottom, e.pos) && NothingBetween(rows, a, e.pos)
    ensures HasPos(Added(rows, e), a) && HasPos(Added(rows, e), e.pos) && NothingBetween(Added(rows, e), a, e.pos)
  {
    var i := LowerBound(rows, e.pos);
    var e' := Restored(e, rows[i]);
    FoundAtLowerBound(rows, e.pos);
    if rows[i].pos != e.pos {
      InsertShape(rows, i, e');
      var rows' := InsertBefore(rows, i, e');
      forall k | 0 <= k < |rows'| ensures Le(rows'[k].pos, a) || Le(e.pos, rows'[k].pos) {
        assert rows'[k] == if k < i then rows[k] else if k == i then e' else rows[k - 1];
      }
    }
  }

  // ---------------------------------------------------------------- whole stretches

  /** Nothing known before is unknown after. */
  ghost predicate Keeps(rows: Rows, rows': Rows) {
    Wf(rows) && Wf(rows') && forall r: real | IsKey(r) :: KnownAt(rows, r).Known? ==> KnownAt(rows', r).Known?
  }

  lemma KeepsItself(rows: Rows)
    requires Wf(rows)
    ensures Keeps(rows, rows)
  {
  }

  lemma KeepsTransitive(a: Rows, b: Rows, c: Rows)
    requires Keeps(a, b) && Keeps(b, c)
    ensures Keeps(a, c)
  {
  }

  lemma LearnedKeeps(u: Source, rows: Rows, rows': Rows, from: Pos, to: Pos)
    requires Learned(u, rows, rows', from, to)
    ensures Keeps(rows, rows')
  {
    hide Wf, KnownAt;
    LastIsTop(rows);
    LastIsTop(rows');
    forall r: real | IsKey(r) && KnownAt(rows, r).Known? ensures KnownAt(rows', r).Known? {
      assert LearnedAt(u, rows, rows', from, to, r);
    }
  }

  /** The empty entry left for a single row splits an interval and forgets nothing. */
  lemma EmptyRowKeeps(rows: Rows, key: real)
    requires Wf(rows) && Le(Bottom, K(key)) && Lt(K(key), Top) && Wf(WithEmptyRow(rows, key))
    ensures Keeps(rows, WithEmptyRow(rows, key))
  {
    hide Sorted;
    var i := LowerBound(rows, K(key));
    var e := Entry(K(key), rows[i].cont, NoTomb, EmptyRow);
    var rows' := WithEmptyRow(rows, key);
    if rows[i].pos != K(key) {
      assert rows'[i] == e && PrevPos(rows', i) == PrevPos(rows, i);
      forall r: real | IsKey(r) && KnownAt(rows, r).Known? ensures KnownAt(rows', r).Known? {
        var k := LowerBound(rows, K(r));
        if k < i || (k == i && Le(K(r), K(key))) {
          assert PrevPos(rows', k) == PrevPos(rows, k) && (k < i ==> rows'[k] == rows[k]);
          LookupAt(rows', k, r);
        } else {
          assert PrevPos(rows', k + 1) == (if k == i then e.pos else PrevPos(rows, k)) && rows'[k + 1] == rows[k];
          LookupAt(rows', k + 1, r);
        }
      }
    }
  }

  ghost predicate KnownUpTo(rows: Rows, a: Pos, b: Pos)
    requires Wf(rows)
  {
    forall r: real | IsKey(r) && Lt(a, K(r)) && Le(K(r), b) :: KnownAt(rows, r).Known?
  }

  /** Populating makes the whole stretch from where it was read known, exactly when the part of it before the
      predecessor was known already: other readers may have put entries there in the meantime. */
  lemma StretchKnown(u: Source, rows: Rows, rows': Rows, start: Pos, p: Pos)
    requires Wf(rows) && Wf(rows') && Le(p, Top) && Le(Bottom, p) && Learned(u, rows, rows', Predecessor(rows, p), p)
    ensures KnownUpTo(rows', start, p) <==> KnownUpTo(rows, start, Predecessor(rows, p))
    ensures NothingBetween(rows, start, p) ==> KnownUpTo(rows', start, p)
  {
    hide Wf, KnownAt;
    LastIsTop(rows);
    LastIsTop(rows');
    PredecessorBefore(rows, p);
    var q := Predecessor(rows, p);
    if KnownUpTo(rows', start, p) {
      forall r: real | IsKey(r) && Lt(start, K(r)) && Le(K(r), q) ensures KnownAt(rows, r).Known? {
        assert LearnedAt(u, rows, rows', q, p, r);
      }
    }
    if KnownUpTo(rows, start, q) {
      forall r: real | IsKey(r) && Lt(start, K(r)) && Le(K(r), p) ensures KnownAt(rows', r).Known? {
        assert LearnedAt(u, rows, rows', q, p, r);
      }
    }
    if NothingBetween(rows, start, p) {
      PredecessorAtMost(rows, start, p);
    }
  }

  lemma PredecessorAtMost(rows: Rows, start: Pos, p: Pos)
    requires Wf(rows) && Le(p, Top) && NothingBetween(rows, start, p)
    ensures Le(Predecessor(rows, p), start) || Predecessor(rows, p) == Bottom
  {
  }

  /** An entry that somebody else put in the middle of the stretch keeps the first half of it unknown. */
  lemma StretchInterrupted(u: Source)
    requires forall r: real :: u.row(r) == EmptyRow && u.tomb(r) == NoTomb
    ensures var rows := [Entry(Pos(0.5, -1), false, NoTomb, EmptyRow), Entry(Top, false, NoTomb, EmptyRow)];
      && Wf(rows) && Agrees(u, rows) && Clear(u, Bottom, Top, NoTomb)
      && KnownAt(Marked(rows, Top, NoTomb), 0.75).Known? && KnownAt(Marked(rows, Top, NoTomb), 0.25) == Unknown
  {
    var rows := [Entry(Pos(0.5, -1), false, NoTomb, EmptyRow), Entry(Top, false, NoTomb, EmptyRow)];
    PlaceOf(rows, Top, 1);
    var rows' := Marked(rows, Top, NoTomb);
    assert rows'[1] == Entry(Top, true, NoTomb, EmptyRow) && rows'[0] == rows[0];
    LookupAt(rows', 1, 0.75);
    LookupAt(rows', 0, 0.25);
  }

  // ---------------------------------------------------------------- what a read has left behind

  ghost predicate InSpans(ranges: seq<Range>, r: real) {
    exists i :: 0 <= i < |ranges| && ranges[i].Span? && Lt(ranges[i].Start(), K(r)) && Lt(K(r), ranges[i].End())
  }

  /** Every key of the ranges below `p`, single rows apart, is known. */
  ghost predicate Remembered(ranges: seq<Range>, rows: Rows, p: Pos) {
    Wf(rows) && forall r: real | IsKey(r) && InSpans(ranges, r) && Lt(K(r), p) :: KnownAt(rows, r).Known?
  }

  lemma RememberedKept(ranges: seq<Range>, rows: Rows, rows': Rows, p: Pos)
    requires Remembered(ranges, rows, p) && Keeps(rows, rows')
    ensures Remembered(ranges, rows', p)
  {
  }

  lemma RememberedLess(ranges: seq<Range>, rows: Rows, p: Pos, p': Pos)
    requires Remembered(ranges, rows, p) && Le(p', p)
    ensures Remembered(ranges, rows, p')
  {
  }

  lemma RememberedMore(u: Source, ranges: seq<Range>, rows: Rows, rows': Rows, from: Pos, start: Pos, to: Pos)
    requires Remembered(ranges, rows, AfterKey(start)) && Learned(u, rows, rows', from, to)
    requires Le(from, start) || from == Bottom
    ensures Remembered(ranges, rows', AfterKey(to))
  {
    hide Wf, KnownAt;
    LastIsTop(rows');
    forall r: real | IsKey(r) && InSpans(ranges, r) && Lt(K(r), AfterKey(to)) ensures KnownAt(rows', r).Known? {
      assert LearnedAt(u, rows, rows', from, to, r);
    }
  }

  /** Nothing has to be remembered of a range on a single row, nor between two ranges. */
  lemma RememberedSingle(ranges: seq<Range>, i: nat, rows: Rows, p: Pos, p': Pos)
    requires RangesOk(ranges) && i < |ranges| && Remembered(ranges, rows, p) && ranges[i].Single?
    requires Le(ranges[i].Start(), p) && Le(p', ranges[i].End())
    ensures Remembered(ranges, rows, p')
  {
    hide Wf, KnownAt;
    forall r: real | IsKey(r) && InSpans(ranges, r) && Lt(K(r), p') ensures Lt(K(r), p) {
      NotInSpans(ranges, i, r);
    }
  }

  lemma NotInSpans(ranges: seq<Range>, i: nat, r: real)
    requires RangesOk(ranges) && i < |ranges| && ranges[i].Single? && Lt(K(r), ranges[i].End()) && InSpans(ranges, r)
    ensures Lt(K(r), ranges[i].Start())
  {
    var j :| 0 <= j < |ranges| && ranges[j].Span? && Lt(ranges[j].Start(), K(r)) && Lt(K(r), ranges[j].End());
    assert j < i ==> Le(ranges[j].End(), ranges[i].Start());
    assert i < j ==> Le(ranges[i].End(), ranges[j].Start());
  }

  lemma RememberedGap(ranges: seq<Range>, i: nat, rows: Rows)
    requires RangesOk(ranges) && i < |ranges| && Remembered(ranges, rows, ranges[i].End())
    ensures Remembered(ranges, rows, if i + 1 < |ranges| then ranges[i + 1].Start() else Top)
  {
    hide Wf, KnownAt;
    var p := if i + 1 < |ranges| then ranges[i + 1].Start() else Top;
    forall r: real | IsKey(r) && InSpans(ranges, r) && Lt(K(r), p) ensures Lt(K(r), ranges[i].End()) {
      var j :| 0 <= j < |ranges| && ranges[j].Span? && Lt(ranges[j].Start(), K(r)) && Lt(K(r), ranges[j].End());
      assert j < i ==> Le(ranges[j].End(), ranges[i].Start());
      assert i + 1 < |ranges| ==> Lt(ranges[i + 1].Start(), ranges[i + 1].End());
    }
  }

  lemma RememberedNothing(ranges: seq<Range>, rows: Rows)
    requires Wf(rows) && RangesOk(ranges)
    ensures Remembered(ranges, rows, if ranges == [] then Top else ranges[0].Start())
  {
    hide Wf, KnownAt;
    var p := if ranges == [] then Top else ranges[0].Start();
    forall r: real | IsKey(r) && InSpans(ranges, r) ensures !Lt(K(r), p) {
      var j :| 0 <= j < |ranges| && ranges[j].Span? && Lt(ranges[j].Start(), K(r)) && Lt(K(r), ranges[j].End());
      assert 0 < j ==> Le(ranges[0].End(), ranges[j].Start());
      assert Lt(ranges[0].Start(), ranges[0].End());
    }
  }

  predicate ContinuousAt(rows: Rows, p: Pos) {
    |rows| > 0 && Le(p, rows[|rows| - 1].pos) && rows[LowerBound(rows, p)].cont
  }

  /** An interval served from the cache is known: it ends at the entry under the cursor, which is continuous. */
  lemma RememberedServed(ranges: seq<Range>, rows: Rows, lower: Pos, p: Pos, to: Pos)
    requires Remembered(ranges, rows, lower) && NothingBetween(rows, lower, p) && HasPos(rows, p)
    requires !IsRow(lower) && Le(Bottom, lower) && Le(lower, p) && Le(p, Top) && Le(to, AfterKey(p))
    requires ContinuousAt(rows, p) || Le(BeforeKey(p), lower) || Le(to, lower)
    ensures Remembered(ranges, rows, to)
  {
    FoundAtLowerBound(rows, p);
    hide Sorted, HasPos;
    var i := LowerBound(rows, p);
    forall r: real | IsKey(r) && InSpans(ranges, r) && Lt(K(r), to) ensures KnownAt(rows, r).Known? {
      if !Lt(K(r), lower) {
        PredecessorAtMost(rows, lower, p);
        LookupAt(rows, i, r);
      }
    }
  }

  // ---------------------------------------------------------------- steps of a read that populates

  /** An entry was added at `e.pos`, somewhere between where population had come to and the next entry. */
  lemma AddedOnTheWay(rows: Rows, e: Entry, start: Pos, next: Pos)
    requires Wf(rows) && NothingBetween(rows, start, next) && Le(start, e.pos) && Le(Bottom, e.pos) && Lt(e.pos, next) && Le(next, Top)
    ensures NothingBetween(Added(rows, e), e.pos, next) && NothingBetween(rows, start, e.pos)
  {
    var i := LowerBound(rows, e.pos);
    var e' := Restored(e, rows[i]);
    if rows[i].pos != e.pos {
      var rows' := InsertBefore(rows, i, e');
      forall k | 0 <= k < |rows'| ensures Le(rows'[k].pos, e.pos) || Le(next, rows'[k].pos) {
        assert rows'[k] == if k < i then rows[k] else if k == i then e' else rows[k - 1];
      }
    }
  }

  lemma MarkedOnTheWay(rows: Rows, p: Pos, t: Tombstone, start: Pos, next: Pos)
    requires |rows| > 0 && Le(p, rows[|rows| - 1].pos) && NothingBetween(rows, start, next)
    ensures NothingBetween(Marked(rows, p, t), start, next)
  {
  }

  /** What is known once a fragment at `e.pos` has been populated, in a range that is remembered or on a single row. */
  lemma RememberedOffer(u: Source, ranges: seq<Range>, i: nat, rows: Rows, rows': Rows, start: Pos, at: Pos)
    requires RangesOk(ranges) && i < |ranges| && Remembered(ranges, rows, AfterKey(start)) && Wf(rows)
    requires Le(Bottom, at) && Le(at, Top) && Le(start, at) && NothingBetween(rows, start, at) && Lt(at, ranges[i].End())
    requires
      || LearnedTo(u, rows, rows', at)
      || (Keeps(rows, rows') && (start == at || (ranges[i].Single? && Le(ranges[i].Start(), AfterKey(start)))))
    ensures Remembered(ranges, rows', AfterKey(at)) && Keeps(rows, rows')
  {
    hide Wf, KnownAt, Remembered, Learned, Keeps, NothingBetween, RangesOk;
    if LearnedTo(u, rows, rows', at) {
      LastIsTop(rows);
      PredecessorAtMost(rows, start, at);
      LearnedKeeps(u, rows, rows', Predecessor(rows, at), at);
      RememberedMore(u, ranges, rows, rows', Predecessor(rows, at), start, at);
    } else {
      RememberedKept(ranges, rows, rows', AfterKey(start));
      if start != at {
        RangeBounds(ranges, i);
        RememberedSingle(ranges, i, rows', AfterKey(start), AfterKey(at));
      }
    }
  }

  lemma NothingBetweenLess(rows: Rows, a: Pos, b: Pos, a': Pos, b': Pos)
    requires NothingBetween(rows, a, b) && Le(a, a') && Le(b', b)
    ensures NothingBetween(rows, a', b')
  {
  }

  /** Between a row and the cut before it there is nothing. */
  lemma NothingBeforeKey(rows: Rows, p: Pos)
    ensures NothingBetween(rows, BeforeKey(p), p)
  {
  }

  /** The step from one entry to the next, with the first one dropped where the next makes it redundant. */
  lemma StepKeeps(rows: Rows, from: Pos)
    requires Wf(rows) && HasPos(rows, from) && Lt(from, Top)
    ensures var e := rows[Following(rows, from)];
      && NothingBetween(rows, from, e.pos)
      && (e.cont ==>
        var rows' := Dropped(rows, from, e.rt);
        && ContinuousAt(rows, e.pos) && Keeps(rows, rows') && NothingBetween(rows', from, e.pos) && ContinuousAt(rows', e.pos))
  {
    hide HasPos;
    FoundAtLowerBound(rows, from);
    var i := LowerBound(rows, from);
    var e := rows[i + 1];
    assert Lt(rows[i].pos, e.pos);
    PlaceOf(rows, e.pos, i + 1);
    if e.cont {
      DroppedKeeps(rows, from, e.rt);
      if Redundant(rows, from, e.rt) {
        StepDrops(rows, i);
      }
    }
  }

  lemma StepDrops(rows: Rows, i: nat)
    requires Wf(rows) && i + 1 < |rows| && rows[i].Dummy() && rows[i].cont && rows[i + 1].cont && rows[i].rt == rows[i + 1].rt
    ensures NothingBetween(Evict(rows, i), rows[i].pos, rows[i + 1].pos) && ContinuousAt(Evict(rows, i), rows[i + 1].pos)
  {
    EvictShape(rows, i);
    var rows' := Evict(rows, i);
    EvictAt(rows, i, i);
    if i > 0 {
      EvictAt(rows, i, i - 1);
      assert Lt(rows[i - 1].pos, rows[i].pos);
    }
    PlaceOf(rows', rows[i + 1].pos, i);
    forall k | 0 <= k < |rows'| ensures Le(rows'[k].pos, rows[i].pos) || Le(rows[i + 1].pos, rows'[k].pos) {
      EvictAt(rows, i, k);
      assert k < i ==> Lt(rows[k].pos, rows[i].pos);
    }
  }

  /** Nothing stands between a position and the first entry at or after it. */
  lemma FromLookup(rows: Rows, p: Pos)
    requires Wf(rows) && Le(p, Top)
    ensures var e := rows[LowerBound(rows, p)];
      Le(e.pos, Top) && LowerBound(rows, e.pos) == LowerBound(rows, p) && NothingBetween(rows, p, e.pos)
  {
    var i := LowerBound(rows, p);
    assert i > 0 ==> Lt(rows[i - 1].pos, rows[i].pos);
    PlaceOf(rows, rows[i].pos, i);
  }
}
