/** The end of a page of a multishard read: giving what was read ahead back to the shard readers it came from. */
module MultishardPages {
  import opened Basics

  // ---------------------------------------------------------------- fragments, readers, statistics

  /** `place` is where the fragment stands in its partition: the start, the static row, or among the clustered rows. */
  datatype Fragment = Fragment(place: Place, token: int, size: nat, content: int) {
    predicate IsPartitionStart() { place == AtPartitionStart }
  }

  datatype Place = AtPartitionStart | AtStaticRow | AmongRows

  datatype ReaderState = Inexistent | SuccessfulLookup | Used | Saving

  /** `reader_meta`: the fragments taken from the reader but not consumed, those still in the reader, and those
      dismantled from what was combined. */
  datatype ReaderMeta = ReaderMeta(state: ReaderState, unconsumed: seq<Fragment>, buffer: seq<Fragment>, dismantled: seq<Fragment>)

  datatype Counts = Counts(partitions: nat, fragments: nat, bytes: nat)

  datatype Stats = Stats(kept: Counts, discarded: Counts)

  const Zero := Counts(0, 0, 0)

  function Count(c: Counts, f: Fragment): Counts {
    Counts(c.partitions + (if f.IsPartitionStart() then 1 else 0), c.fragments + 1, c.bytes + f.size)
  }

  function Plus(a: Counts, b: Counts): Counts {
    Counts(a.partitions + b.partitions, a.fragments + b.fragments, a.bytes + b.bytes)
  }

  function Total(fs: seq<Fragment>): Counts {
    if fs == [] then Zero else Plus(Count(Zero, fs[0]), Total(fs[1..]))
  }

  lemma PlusLaws(a: Counts, b: Counts, c: Counts)
    ensures Plus(Plus(a, b), c) == Plus(a, Plus(b, c))
    ensures Plus(a, b) == Plus(b, a) && Plus(Zero, a) == a
  {
  }

  lemma {:induction false} TotalConcat(a: seq<Fragment>, b: seq<Fragment>)
    ensures Total(a + b) == Plus(Total(a), Total(b))
  {
    hide Plus, Count;
    if a == [] {
      assert a + b == b;
      PlusLaws(Total(b), Zero, Zero);
    } else {
      assert (a + b)[1..] == a[1..] + b;
      TotalConcat(a[1..], b);
      PlusLaws(Count(Zero, a[0]), Total(a[1..]), Total(b));
    }
  }

  /** The places at which a partition starts. */
  ghost function Starts(fs: seq<Fragment>): set<nat> {
    set i: nat | i < |fs| && fs[i].place == AtPartitionStart
  }

  lemma StartsAppend(fs: seq<Fragment>, f: Fragment)
    ensures Starts(fs + [f]) == Starts(fs) + (if f.place == AtPartitionStart then {|fs|} else {})
    ensures |Starts(fs + [f])| == |Starts(fs)| + (if f.place == AtPartitionStart then 1 else 0)
  {
  }

  /** What is counted: the fragments, those among them that start a partition, and their sizes. */
  lemma {:induction false} TotalCounts(fs: seq<Fragment>, f: Fragment)
    ensures Total(fs).fragments == |fs| && Total(fs).partitions == |Starts(fs)|
    ensures Total(fs + [f]).bytes == Total(fs).bytes + f.size && Total([]).bytes == 0
  {
    TotalConcat(fs, [f]);
    if fs == [] {
      assert Starts(fs) == {};
    } else {
      hide Starts;
      var n := |fs| - 1;
      TotalCounts(fs[..n], fs[n]);
      TotalConcat(fs[..n], [fs[n]]);
      StartsAppend(fs[..n], fs[n]);
      assert fs[..n] + [fs[n]] == fs;
    }
  }

  function Reversed(fs: seq<Fragment>): seq<Fragment> {
    if fs == [] then [] else Reversed(fs[1..]) + [fs[0]]
  }

  lemma {:induction false} ReversedAppend(fs: seq<Fragment>, f: Fragment)
    ensures Reversed(fs + [f]) == [f] + Reversed(fs)
  {
    if fs != [] {
      assert (fs + [f])[1..] == fs[1..] + [f];
      ReversedAppend(fs[1..], f);
    }
  }

  lemma {:induction false} ReversedTotal(fs: seq<Fragment>)
    ensures Total(Reversed(fs)) == Total(fs)
  {
    if fs != [] {
      ReversedTotal(fs[1..]);
      TotalConcat(Reversed(fs[1..]), [fs[0]]);
      assert [fs[0]][1..] == [];
    }
  }

  /** The counts of several lists of fragments together. */
  function Sum(parts: seq<seq<Fragment>>): Counts {
    if parts == [] then Zero else Plus(Sum(parts[..|parts| - 1]), Total(parts[|parts| - 1]))
  }

  lemma TotalNone(fs: seq<Fragment>)
    requires fs == []
    ensures Total(fs) == Zero && Reversed(fs) == []
  {
  }

  lemma {:induction false} SumOfNothing(parts: seq<seq<Fragment>>)
    requires forall s :: 0 <= s < |parts| ==> parts[s] == []
    ensures Sum(parts) == Zero
  {
    hide Plus, Total;
    if parts != [] {
      SumOfNothing(parts[..|parts| - 1]);
      TotalNone(parts[|parts| - 1]);
      PlusLaws(Zero, Zero, Zero);
    }
  }

  /** Fragments put in front of one of the lists. */
  lemma {:induction false} SumWithMore(parts: seq<seq<Fragment>>, more: seq<seq<Fragment>>, k: nat, fs: seq<Fragment>)
    requires |more| == |parts| && k < |parts| && more[k] == fs + parts[k]
    requires forall s :: 0 <= s < |parts| && s != k ==> more[s] == parts[s]
    ensures Sum(more) == Plus(Total(fs), Sum(parts))
  {
    hide Plus, Total;
    var n := |parts| - 1;
    if k == n {
      assert more[..n] == parts[..n];
      TotalConcat(fs, parts[n]);
      PlusLaws(Sum(parts[..n]), Total(fs), Total(parts[n]));
      PlusLaws(Total(fs), Sum(parts[..n]), Total(parts[n]));
    } else {
      SumWithMore(parts[..n], more[..n], k, fs);
      PlusLaws(Total(fs), Sum(parts[..n]), Total(parts[n]));
    }
  }

  /** Dropping some of the lists shows in the counts unless those were empty. */
  lemma {:induction false} SumTellsDropped(parts: seq<seq<Fragment>>, given: seq<seq<Fragment>>)
    requires |given| == |parts| && forall s :: 0 <= s < |parts| ==> given[s] == parts[s] || given[s] == []
    ensures Sum(given).fragments <= Sum(parts).fragments
    ensures Sum(given) == Sum(parts) <==> given == parts
  {
    hide Total;
    if parts != [] {
      var n := |parts| - 1;
      SumTellsDropped(parts[..n], given[..n]);
      TotalNonEmpty(parts[n]);
      TotalNonEmpty(given[n]);
      assert parts == parts[..n] + [parts[n]] && given == given[..n] + [given[n]];
    }
  }

  lemma TotalNonEmpty(fs: seq<Fragment>)
    ensures Total(fs).fragments > 0 <==> fs != []
  {
  }

  // ---------------------------------------------------------------- whose fragments they are

  /** The fragments of a shard: those after a partition start of the shard up to the next one, and those before
      any partition start if `current` is the shard. */
  function Project(fs: seq<Fragment>, shardOf: int -> nat, current: int, shard: nat): seq<Fragment> {
    if fs == [] then []
    else
      var owner := if fs[0].IsPartitionStart() then shardOf(fs[0].token) else current;
      (if owner == shard then [fs[0]] else []) + Project(fs[1..], shardOf, owner, shard)
  }

  ghost predicate NoStart(fs: seq<Fragment>) {
    forall f :: f in fs ==> !f.IsPartitionStart()
  }

  ghost predicate AtStart(fs: seq<Fragment>) {
    fs != [] ==> fs[0].IsPartitionStart()
  }

  /** A run without partition starts belongs to one shard. */
  lemma {:induction false} ProjectRun(run: seq<Fragment>, rest: seq<Fragment>, shardOf: int -> nat, current: int, shard: nat)
    requires NoStart(run)
    ensures Project(run + rest, shardOf, current, shard) ==
      (if current == shard then run else []) + Project(rest, shardOf, current, shard)
  {
    if run == [] {
      assert run + rest == rest;
    } else {
      assert (run + rest)[1..] == run[1..] + rest;
      ProjectRun(run[1..], rest, shardOf, current, shard);
    }
  }

  lemma ProjectStart(fs: seq<Fragment>, shardOf: int -> nat, a: int, b: int, shard: nat)
    requires AtStart(fs)
    ensures Project(fs, shardOf, a, shard) == Project(fs, shardOf, b, shard)
  {
  }

  /** A partition: its start, the run after it, and what follows. */
  lemma ProjectPartition(start: Fragment, run: seq<Fragment>, rest: seq<Fragment>, shardOf: int -> nat, current: int, shard: nat)
    requires start.IsPartitionStart() && NoStart(run) && AtStart(rest)
    ensures Project([start] + run + rest, shardOf, current, shard) ==
      (if shardOf(start.token) == shard then [start] + run else []) + Project(rest, shardOf, current, shard)
  {
    assert ([start] + run + rest)[1..] == run + rest;
    ProjectRun(run, rest, shardOf, shardOf(start.token), shard);
    ProjectStart(rest, shardOf, shardOf(start.token), current, shard);
  }

  /** The fragments before any partition start. */
  function Head(fs: seq<Fragment>): seq<Fragment> {
    if fs == [] || fs[0].IsPartitionStart() then [] else [fs[0]] + Head(fs[1..])
  }

  lemma {:induction false} HeadIs(run: seq<Fragment>, rest: seq<Fragment>)
    requires NoStart(run) && AtStart(rest)
    ensures Head(run + rest) == run
  {
    if run == [] {
      assert run + rest == rest;
    } else {
      assert (run + rest)[1..] == run[1..] + rest;
      HeadIs(run[1..], rest);
    }
  }

  /** What a shard's reader gets back of the combined buffer: all that is its own if it is being saved. The
      fragments of the partition the page ended in are given back whatever the state of the reader. */
  function Returned(state: ReaderState, fs: seq<Fragment>, shardOf: int -> nat, current: nat, shard: nat): seq<Fragment> {
    if state == Saving then Project(fs, shardOf, current, shard)
    else if shard == current then Head(fs)
    else []
  }

  /** The part of it that comes from whole partitions. */
  function ReturnedWhole(state: ReaderState, fs: seq<Fragment>, shardOf: int -> nat, shard: nat): seq<Fragment> {
    if state == Saving then Project(fs, shardOf, -1, shard) else []
  }

  /** What each of the readers gets back. */
  function ReturnedParts(before: seq<ReaderMeta>, fs: seq<Fragment>, shardOf: int -> nat, current: nat): (r: seq<seq<Fragment>>)
    ensures |r| == |before|
    ensures forall s :: 0 <= s < |r| ==> r[s] == Returned(before[s].state, fs, shardOf, current, s)
  {
    seq(|before|, s requires 0 <= s < |before| => Returned(before[s].state, fs, shardOf, current, s))
  }

  function WholeParts(before: seq<ReaderMeta>, fs: seq<Fragment>, shardOf: int -> nat): (r: seq<seq<Fragment>>)
    ensures |r| == |before|
    ensures forall s :: 0 <= s < |r| ==> r[s] == ReturnedWhole(before[s].state, fs, shardOf, s)
  {
    seq(|before|, s requires 0 <= s < |before| => ReturnedWhole(before[s].state, fs, shardOf, s))
  }

  lemma WholePartsPartition(before: seq<ReaderMeta>, start: Fragment, run: seq<Fragment>, rest: seq<Fragment>, shardOf: int -> nat)
    requires start.IsPartitionStart() && NoStart(run) && AtStart(rest) && shardOf(start.token) < |before|
    ensures Sum(WholeParts(before, [start] + run + rest, shardOf)) ==
      if before[shardOf(start.token)].state == Saving then Plus(Total([start] + run), Sum(WholeParts(before, rest, shardOf)))
      else Sum(WholeParts(before, rest, shardOf))
  {
    hide Sum, Plus, Total, ReturnedWhole;
    var k := shardOf(start.token);
    var parts, more := WholeParts(before, rest, shardOf), WholeParts(before, [start] + run + rest, shardOf);
    forall s | 0 <= s < |before|
      ensures more[s] == (if before[s].state == Saving && k == s then [start] + run else []) + parts[s]
    {
      ReturnPartition(start, run, rest, shardOf, before[s].state, s);
    }
    if before[k].state == Saving {
      SumWithMore(parts, more, k, [start] + run);
    } else {
      assert forall s :: 0 <= s < |before| ==> more[s] == parts[s];
      assert more == parts;
    }
  }

  lemma ReturnedPartsHead(before: seq<ReaderMeta>, run: seq<Fragment>, rest: seq<Fragment>, shardOf: int -> nat, current: nat)
    requires NoStart(run) && AtStart(rest) && current < |before|
    ensures Sum(ReturnedParts(before, run + rest, shardOf, current)) == Plus(Total(run), Sum(WholeParts(before, rest, shardOf)))
  {
    hide Sum, Plus, Total, ReturnedWhole, Returned;
    var parts, more := WholeParts(before, rest, shardOf), ReturnedParts(before, run + rest, shardOf, current);
    forall s | 0 <= s < |before| ensures more[s] == (if s == current then run else []) + parts[s] {
      ReturnHead(run, rest, shardOf, before[s].state, current, s);
    }
    SumWithMore(parts, more, current, run);
  }

  lemma WholePartsOfNothing(before: seq<ReaderMeta>, shardOf: int -> nat)
    ensures Sum(WholeParts(before, [], shardOf)) == Zero
  {
    SumOfNothing(WholeParts(before, [], shardOf));
  }

  lemma ReturnPartition(start: Fragment, run: seq<Fragment>, rest: seq<Fragment>, shardOf: int -> nat, state: ReaderState, shard: nat)
    requires start.IsPartitionStart() && NoStart(run) && AtStart(rest)
    ensures ReturnedWhole(state, [start] + run + rest, shardOf, shard) ==
      (if state == Saving && shardOf(start.token) == shard then [start] + run else []) +
      ReturnedWhole(state, rest, shardOf, shard)
  {
    if state == Saving {
      ProjectPartition(start, run, rest, shardOf, -1, shard);
    }
  }

  lemma ReturnHead(run: seq<Fragment>, rest: seq<Fragment>, shardOf: int -> nat, state: ReaderState, current: nat, shard: nat)
    requires NoStart(run) && AtStart(rest)
    ensures Returned(state, run + rest, shardOf, current, shard) ==
      (if shard == current then run else []) + ReturnedWhole(state, rest, shardOf, shard)
  {
    ProjectRun(run, rest, shardOf, current, shard);
    ProjectStart(rest, shardOf, current, -1, shard);
    HeadIs(run, rest);
  }

  // ---------------------------------------------------------------- dismantling and saving

  /** The detached state of the compactor: what it has consumed of the current partition. */
  datatype CompactionState = CompactionState(partitionStart: Fragment, staticRow: seq<Fragment>, tombstone: seq<Fragment>)

  ghost predicate Detached(c: CompactionState) {
    && c.partitionStart.place == AtPartitionStart
    && |c.staticRow| <= 1 && (forall f :: f in c.staticRow ==> f.place == AtStaticRow)
    && |c.tombstone| <= 1 && (forall f :: f in c.tombstone ==> f.place == AmongRows)
  }

  function StateFragments(c: CompactionState): seq<Fragment> {
    [c.partitionStart] + c.staticRow + c.tombstone
  }

  /** The reader gets the fragments back in the order in which it had produced them. */
  lemma StateInOrder(c: CompactionState, i: nat, j: nat)
    requires Detached(c) && i < j < |StateFragments(c)|
    ensures StateFragments(c)[i].place == AtPartitionStart ||
      (StateFragments(c)[i].place == AtStaticRow && StateFragments(c)[j].place == AmongRows)
  {
    var fs := StateFragments(c);
    assert j < 1 + |c.staticRow| ==> fs[j] == c.staticRow[j - 1];
    assert i > 0 ==> fs[i] == c.staticRow[i - 1] && fs[j] == c.tombstone[j - 1 - |c.staticRow|];
  }

  /** What a shard's reader gets back of the state: all of it if the partition is its own and it is being saved. */
  function ReturnedState(state: ReaderState, c: CompactionState, shardOf: int -> nat, shard: nat): seq<Fragment> {
    if state == Saving && shardOf(c.partitionStart.token) == shard then StateFragments(c) else []
  }

  function StateParts(before: seq<ReaderMeta>, c: CompactionState, shardOf: int -> nat): (r: seq<seq<Fragment>>)
    ensures |r| == |before| && forall s :: 0 <= s < |r| ==> r[s] == ReturnedState(before[s].state, c, shardOf, s)
  {
    seq(|before|, s requires 0 <= s < |before| => ReturnedState(before[s].state, c, shardOf, s))
  }

  lemma StatePartsSum(before: seq<ReaderMeta>, c: CompactionState, shardOf: int -> nat)
    requires shardOf(c.partitionStart.token) < |before|
    ensures Sum(StateParts(before, c, shardOf)) ==
      if before[shardOf(c.partitionStart.token)].state == Saving then Total(StateFragments(c)) else Zero
  {
    hide Sum, Total, Plus, StateFragments;
    var k, parts := shardOf(c.partitionStart.token), StateParts(before, c, shardOf);
    var none := seq(|before|, _ => []);
    SumOfNothing(none);
    if before[k].state == Saving {
      assert StateFragments(c) + [] == StateFragments(c);
      SumWithMore(none, parts, k, StateFragments(c));
      PlusLaws(Total(StateFragments(c)), Zero, Zero);
    } else {
      assert parts == none;
    }
  }

  predicate Savable(rm: ReaderMeta) {
    rm.state == SuccessfulLookup || rm.state == Saving
  }

  class ReadContext {
    const readers: array<ReaderMeta>
    const shardOf: int -> nat

    constructor (shards: nat, shardOf: int -> nat)
      ensures readers.Length == shards && fresh(readers) && this.shardOf == shardOf
      ensures forall s :: 0 <= s < shards ==> readers[s] == ReaderMeta(Inexistent, [], [], [])
    {
      this.shardOf := shardOf;
      readers := new ReaderMeta[shards](_ => ReaderMeta(Inexistent, [], [], []));
    }

    ghost predicate Sharded() {
      forall t :: shardOf(t) < readers.Length
    }

    /** The fragments, taken in reverse, are pushed to the front of the shard's buffer one by one. */
    method PushFront(shard: nat, fs: seq<Fragment>, stats: Counts) returns (after: Counts)
      requires shard < readers.Length
      modifies readers
      ensures readers[shard] == old(readers[shard]).(dismantled := Reversed(fs) + old(readers[shard].dismantled))
      ensures forall s :: 0 <= s < readers.Length && s != shard ==> readers[s] == old(readers[s])
      ensures after == Plus(stats, Total(fs))
    {
      after := stats;
      ghost var before := old(readers[shard].dismantled);
      PushNone(stats, before);
      for i := 0 to |fs|
        invariant readers[shard] == old(readers[shard]).(dismantled := Reversed(fs[..i]) + before)
        invariant forall s :: 0 <= s < readers.Length && s != shard ==> readers[s] == old(readers[s])
        invariant after == Plus(stats, Total(fs[..i]))
      {
        PushOne(fs[..i], fs[i], before, stats);
        assert fs[..i + 1] == fs[..i] + [fs[i]];
        after := Count(after, fs[i]);
        readers[shard] := readers[shard].(dismantled := [fs[i]] + readers[shard].dismantled);
      }
      assert fs[..|fs|] == fs;
    }

    lemma PushNone(stats: Counts, before: seq<Fragment>)
      ensures Plus(stats, Total([])) == stats && Reversed([]) + before == before
    {
    }

    lemma PushOne(fs: seq<Fragment>, f: Fragment, before: seq<Fragment>, stats: Counts)
      ensures Reversed(fs + [f]) + before == [f] + (Reversed(fs) + before)
      ensures Plus(stats, Total(fs + [f])) == Count(Plus(stats, Total(fs)), f)
    {
      ReversedAppend(fs, f);
      TotalConcat(fs, [f]);
      assert [f][1..] == [];
    }

    ghost predicate Dismantled(before: seq<ReaderMeta>, fs: seq<Fragment>)
      reads readers
      requires |before| == readers.Length
    {
      forall s :: 0 <= s < readers.Length ==>
        readers[s] == before[s].(dismantled := ReturnedWhole(before[s].state, fs, shardOf, s) + before[s].dismantled)
    }

    /** `dismantle_combined_buffer`: one pass from the back. */
    method DismantleCombinedBuffer(combined: seq<Fragment>, token: int) returns (stats: Stats)
      requires Sharded()
      modifies readers
      ensures forall s :: 0 <= s < readers.Length ==> readers[s] == old(readers[s]).(dismantled :=
        Returned(old(readers[s].state), combined, shardOf, shardOf(token), s) + old(readers[s].dismantled))
      ensures stats.kept == Sum(ReturnedParts(old(readers[..]), combined, shardOf, shardOf(token)))
      ensures Plus(stats.kept, stats.discarded) == Total(combined)
    {
      hide Reversed, Total, Plus, Returned, ReturnedWhole, Sum, ReturnedParts, WholeParts;
      ghost var before := readers[..];
      var kept, discarded := Zero, Zero;
      var tmp: seq<Fragment> := [];
      var i := |combined|;
      ghost var j := i;
      StartEmpty(before, combined);
      while i > 0
        invariant 0 <= i <= j <= |combined| && NoStart(combined[i..j]) && AtStart(combined[j..])
        invariant tmp == Reversed(combined[i..j]) && Dismantled(before, combined[j..])
        invariant Plus(kept, discarded) == Total(combined[j..]) && kept == Sum(WholeParts(before, combined[j..], shardOf))
      {
        i := i - 1;
        var f := combined[i];
        if f.IsPartitionStart() {
          kept, discarded := ReturnRun(f, tmp, kept, discarded, combined[i + 1..j], combined[j..], before);
          assert combined[i..] == [f] + combined[i + 1..j] + combined[j..];
          tmp := [];
          j := i;
          ReversedNone(combined[i..i]);
        } else {
          assert combined[i..j] == [f] + combined[i + 1..j];
          ReversedPush(f, combined[i + 1..j]);
          tmp := tmp + [f];
        }
      }
      var shard := shardOf(token);
      ghost var run, rest := combined[..j], combined[j..];
      assert combined[0..j] == run && combined == run + rest;
      ReversedTwice(run);
      ReversedTotal(run);
      TotalConcat(run, rest);
      PlusLaws(kept, Total(tmp), discarded);
      PlusLaws(kept, discarded, Total(tmp));
      PlusLaws(Total(tmp), discarded, Zero);
      PlusLaws(Total(rest), Total(run), Zero);
      ReturnedPartsHead(before, run, rest, shardOf, shard);
      kept := PushFront(shard, tmp, kept);
      stats := Stats(kept, discarded);
      forall s | 0 <= s < readers.Length ensures readers[s] == before[s].(dismantled :=
        Returned(before[s].state, combined, shardOf, shard, s) + before[s].dismantled)
      {
        ReturnHead(run, rest, shardOf, before[s].state, shard, s);
        Regroup(run, ReturnedWhole(before[s].state, rest, shardOf, s), before[s].dismantled);
      }
    }

    /** A partition start is met: the run after it goes to its shard's reader, or is discarded with it if the
        reader is not being saved. */
    method ReturnRun(f: Fragment, tmp: seq<Fragment>, kept: Counts, discarded: Counts,
                     ghost run: seq<Fragment>, ghost rest: seq<Fragment>, ghost before: seq<ReaderMeta>)
      returns (kept': Counts, discarded': Counts)
      requires Sharded() && f.IsPartitionStart() && NoStart(run) && AtStart(rest) && tmp == Reversed(run)
      requires |before| == readers.Length && Dismantled(before, rest)
      requires Plus(kept, discarded) == Total(rest) && kept == Sum(WholeParts(before, rest, shardOf))
      modifies readers
      ensures Dismantled(before, [f] + run + rest)
      ensures kept' == Sum(WholeParts(before, [f] + run + rest, shardOf))
      ensures Plus(kept', discarded') == Total([f] + run + rest)
    {
      hide Reversed, Total, Plus, ReturnedWhole, Count, Sum, WholeParts;
      kept', discarded' := kept, discarded;
      var shard := shardOf(f.token);
      ReversedTwice(run);
      ReversedTotal(run);
      Tally(f, run, rest, kept, discarded);
      WholePartsPartition(before, f, run, rest, shardOf);
      if readers[shard].state != Saving {
        discarded' := CountAll(tmp, discarded);
        discarded' := Count(discarded', f);
      } else {
        kept' := PushFront(shard, tmp, kept);
        kept' := Count(kept', f);
        readers[shard] := readers[shard].(dismantled := [f] + readers[shard].dismantled);
      }
      forall s | 0 <= s < readers.Length ensures readers[s] == before[s].(dismantled :=
        ReturnedWhole(before[s].state, [f] + run + rest, shardOf, s) + before[s].dismantled)
      {
        ReturnPartition(f, run, rest, shardOf, before[s].state, s);
        var whole := ReturnedWhole(before[s].state, rest, shardOf, s);
        assert [] + whole == whole;
        assert [f] + (run + (whole + before[s].dismantled)) == [f] + run + whole + before[s].dismantled;
      }
    }

    method CountAll(fs: seq<Fragment>, stats: Counts) returns (after: Counts)
      ensures after == Plus(stats, Total(fs))
    {
      after := stats;
      PushNone(stats, []);
      for i := 0 to |fs|
        invariant after == Plus(stats, Total(fs[..i]))
      {
        PushOne(fs[..i], fs[i], [], stats);
        assert fs[..i + 1] == fs[..i] + [fs[i]];
        after := Count(after, fs[i]);
      }
      assert fs[..|fs|] == fs;
    }

    lemma Tally(f: Fragment, run: seq<Fragment>, rest: seq<Fragment>, kept: Counts, discarded: Counts)
      requires Plus(kept, discarded) == Total(rest)
      ensures Plus(Count(Plus(kept, Total(run)), f), discarded) == Total([f] + run + rest)
      ensures Plus(kept, Count(Plus(discarded, Total(run)), f)) == Total([f] + run + rest)
      ensures Count(Plus(kept, Total(run)), f) == Plus(Total([f] + run), kept)
    {
      hide Total;
      TotalConcat([f] + run, rest);
      TotalConcat([f], run);
      TotalOne(f);
    }

    lemma TotalOne(f: Fragment)
      ensures Total([f]) == Count(Zero, f)
    {
      assert [f][1..] == [];
    }

    lemma {:induction false} ReversedTwice(fs: seq<Fragment>)
      ensures Reversed(Reversed(fs)) == fs
    {
      if fs != [] {
        ReversedTwice(fs[1..]);
        ReversedAppend(Reversed(fs[1..]), fs[0]);
      }
    }

    lemma StartEmpty(before: seq<ReaderMeta>, combined: seq<Fragment>)
      requires before == readers[..]
      ensures Dismantled(before, combined[|combined|..])
      ensures Total(combined[|combined|..]) == Plus(Zero, Zero)
      ensures Sum(WholeParts(before, combined[|combined|..], shardOf)) == Zero
      ensures Reversed(combined[|combined|..|combined|]) == []
    {
      hide ReturnedWhole, Total, Plus, Reversed, Sum, WholeParts;
      var none := combined[|combined|..];
      WholePartsOfNothing(before, shardOf);
      TotalNone(none);
      PlusLaws(Zero, Zero, Zero);
      assert none == [] && combined[|combined|..|combined|] == [];
      forall s | 0 <= s < readers.Length
        ensures readers[s] == before[s].(dismantled := ReturnedWhole(before[s].state, none, shardOf, s) + before[s].dismantled)
      {
        NothingReturned(before[s].state, s);
        assert [] + before[s].dismantled == before[s].dismantled;
      }
    }

    lemma NothingReturned(state: ReaderState, s: nat)
      ensures ReturnedWhole(state, [], shardOf, s) == []
    {
    }

    lemma ReversedNone(fs: seq<Fragment>)
      requires fs == []
      ensures Reversed(fs) == []
    {
    }

    lemma ReversedPush(f: Fragment, fs: seq<Fragment>)
      ensures Reversed([f] + fs) == Reversed(fs) + [f]
    {
      assert ([f] + fs)[1..] == fs;
    }

    /** `dismantle_compaction_state`: what the compactor consumed of the partition goes before everything else. */
    method DismantleCompactionState(c: CompactionState) returns (stats: Stats)
      requires Sharded() && Detached(c)
      modifies readers
      ensures forall s :: 0 <= s < readers.Length ==>
        readers[s] == old(readers[s]).(dismantled := ReturnedState(old(readers[s].state), c, shardOf, s) + old(readers[s].dismantled))
      ensures stats.kept == Sum(StateParts(old(readers[..]), c, shardOf))
      ensures Plus(stats.kept, stats.discarded) == Total(StateFragments(c))
    {
      hide Total, Plus, Sum, StateParts;
      var shard := shardOf(c.partitionStart.token);
      var kept, discarded := Zero, Zero;
      StatePartsSum(readers[..], c, shardOf);
      StateTotal(c);
      StateReversed(c);
      if readers[shard].state != Saving {
        discarded := CountAll(c.tombstone, discarded);
        discarded := CountAll(c.staticRow, discarded);
        discarded := Count(discarded, c.partitionStart);
      } else {
        kept := PushFront(shard, c.tombstone, kept);
        kept := PushFront(shard, c.staticRow, kept);
        kept := Count(kept, c.partitionStart);
        ghost var d := old(readers[shard].dismantled);
        assert [c.partitionStart] + (c.staticRow + (c.tombstone + d)) == StateFragments(c) + d;
        readers[shard] := readers[shard].(dismantled := [c.partitionStart] + readers[shard].dismantled);
      }
      stats := Stats(kept, discarded);
    }

    lemma StateReversed(c: CompactionState)
      requires Detached(c)
      ensures Reversed(c.staticRow) == c.staticRow && Reversed(c.tombstone) == c.tombstone
    {
      assert c.staticRow != [] ==> c.staticRow == [c.staticRow[0]];
      assert c.tombstone != [] ==> c.tombstone == [c.tombstone[0]];
    }

    lemma StateTotal(c: CompactionState)
      ensures var n := Count(Plus(Plus(Zero, Total(c.tombstone)), Total(c.staticRow)), c.partitionStart);
        n == Total(StateFragments(c)) && Plus(n, Zero) == n && Plus(Zero, n) == n
    {
      hide Total;
      TotalConcat([c.partitionStart] + c.staticRow, c.tombstone);
      TotalConcat([c.partitionStart], c.staticRow);
      TotalOne(c.partitionStart);
    }

    /** `unpop_mutation_fragment` of every fragment from the last to the first. */
    method Unpop(buffer: seq<Fragment>, fs: seq<Fragment>) returns (after: seq<Fragment>)
      ensures after == fs + buffer
    {
      after := buffer;
      for i := |fs| downto 0
        invariant after == fs[i..] + buffer
      {
        after := [fs[i]] + after;
      }
    }

    /** `save_reader`; none if the paused reader was evicted. */
    method SaveReader(shard: nat, alive: bool) returns (saved: Option<seq<Fragment>>)
      requires shard < readers.Length
      modifies readers
      ensures readers[..] == old(readers[..])[shard := ReaderMeta(Inexistent, [], [], [])]
      ensures saved == if alive then Some(Whole(old(readers[shard]))) else None
    {
      var rm := readers[shard];
      readers[shard] := ReaderMeta(Inexistent, [], [], []);
      if !alive {
        return None;
      }
      var buffer := Unpop(rm.buffer, rm.unconsumed);
      buffer := Unpop(buffer, rm.dismantled);
      assert buffer == Whole(rm);
      saved := Some(buffer);
    }

    /** `save_readers`: every reader that is kept for the next page starts with what the compactor had consumed of
        its partition, then its part of what was combined, then what was taken from it, then what it still holds. */
    method SaveReaders(combined: seq<Fragment>, c: Option<CompactionState>, token: int, alive: nat -> bool)
      returns (saved: seq<Option<seq<Fragment>>>, combinedStats: Stats, stateStats: Stats)
      requires Sharded() && (c.Some? ==> Detached(c.value))
      modifies readers
      ensures |saved| == readers.Length
      ensures forall s :: 0 <= s < readers.Length ==>
        var rm := old(readers[s]);
        saved[s] == if Savable(rm) && alive(s) then
          Some((if c.Some? then ReturnedState(rm.state, c.value, shardOf, s) else [])
               + Returned(rm.state, combined, shardOf, shardOf(token), s)
               + rm.dismantled + rm.unconsumed + rm.buffer)
        else None
      ensures forall s :: 0 <= s < readers.Length ==>
        (saved[s].Some? <==> old(readers[s]).state in {SuccessfulLookup, Saving} && alive(s))
      ensures combinedStats.kept == Sum(ReturnedParts(old(readers[..]), combined, shardOf, shardOf(token)))
      ensures Plus(combinedStats.kept, combinedStats.discarded) == Total(combined)
      ensures c.Some? ==> stateStats.kept == Sum(StateParts(old(readers[..]), c.value, shardOf))
      ensures c.Some? ==> Plus(stateStats.kept, stateStats.discarded) == Total(StateFragments(c.value))
      ensures c.None? ==> stateStats == Stats(Zero, Zero)
    {
      hide Returned, Plus, Total, StateFragments, Sum, ReturnedParts, StateParts;
      ghost var start := readers[..];
      combinedStats := DismantleCombinedBuffer(combined, token);
      stateStats := Stats(Zero, Zero);
      if c.Some? {
        SameStates(start, readers[..], c.value, shardOf);
        stateStats := DismantleCompactionState(c.value);
      }
      ghost var before := readers[..];
      forall s | 0 <= s < readers.Length ensures Whole(before[s]) ==
        (if c.Some? then ReturnedState(start[s].state, c.value, shardOf, s) else []) +
        Returned(start[s].state, combined, shardOf, shardOf(token), s) + start[s].dismantled + start[s].unconsumed + start[s].buffer
      {
        var returned := Returned(start[s].state, combined, shardOf, shardOf(token), s);
        var first := if c.Some? then ReturnedState(start[s].state, c.value, shardOf, s) else [];
        assert first + (returned + start[s].dismantled) == first + returned + start[s].dismantled;
        assert [] + returned == returned;
      }
      saved := [];
      for s := 0 to readers.Length
        invariant |saved| == s
        invariant forall n :: s <= n < readers.Length ==> readers[n] == before[n]
        invariant forall n :: 0 <= n < s ==> saved[n] == if Savable(before[n]) && alive(n) then Some(Whole(before[n])) else None
      {
        if Savable(readers[s]) {
          var one := SaveReader(s, alive(s));
          saved := saved + [one];
        } else {
          saved := saved + [None];
        }
      }
    }
  }

  function Whole(rm: ReaderMeta): seq<Fragment> {
    rm.dismantled + rm.unconsumed + rm.buffer
  }

  lemma SameStates(a: seq<ReaderMeta>, b: seq<ReaderMeta>, c: CompactionState, shardOf: int -> nat)
    requires |a| == |b| && forall s :: 0 <= s < |a| ==> a[s].state == b[s].state
    ensures StateParts(a, c, shardOf) == StateParts(b, c, shardOf)
  {
  }

  // ---------------------------------------------------------------- nothing is lost between the shards

  /** The parts of all shards. */
  function Projections(fs: seq<Fragment>, shardOf: int -> nat, current: int, n: nat): (r: seq<seq<Fragment>>)
    ensures |r| == n && forall s :: 0 <= s < n ==> r[s] == Project(fs, shardOf, current, s)
  {
    seq(n, s requires 0 <= s < n => Project(fs, shardOf, current, s))
  }

  /** The shards' parts of the combined buffer make up the whole of it. */
  lemma {:induction false} PartsMakeWhole(fs: seq<Fragment>, shardOf: int -> nat, current: nat, n: nat)
    requires current < n && forall t :: shardOf(t) < n
    ensures Sum(Projections(fs, shardOf, current, n)) == Total(fs)
  {
    hide Sum, Plus, Count;
    if fs == [] {
      SumOfNothing(Projections(fs, shardOf, current, n));
    } else {
      var owner := if fs[0].IsPartitionStart() then shardOf(fs[0].token) else current;
      PartsMakeWhole(fs[1..], shardOf, owner, n);
      SumWithMore(Projections(fs[1..], shardOf, owner, n), Projections(fs, shardOf, current, n), owner, [fs[0]]);
      TotalHead(fs[0], []);
      PlusLaws(Count(Zero, fs[0]), Zero, Zero);
    }
  }

  lemma TotalHead(f: Fragment, rest: seq<Fragment>)
    ensures Total([f] + rest) == Plus(Count(Zero, f), Total(rest))
  {
    assert ([f] + rest)[1..] == rest;
  }

  // ---------------------------------------------------------------- what is counted as kept

  /** What is given back for good: a reader that is not saved, or was evicted, takes its part with it. */
  function GivenBack(before: seq<ReaderMeta>, parts: seq<seq<Fragment>>, alive: nat -> bool): (r: seq<seq<Fragment>>)
    requires |parts| == |before|
    ensures |r| == |parts|
    ensures forall s :: 0 <= s < |r| ==> r[s] == if Savable(before[s]) && alive(s) then parts[s] else []
  {
    seq(|parts|, s requires 0 <= s < |parts| => if Savable(before[s]) && alive(s) then parts[s] else [])
  }

  /** What is counted as kept is what the saved readers hold exactly when every reader that is given something is saved. */
  lemma KeptIsGivenBack(before: seq<ReaderMeta>, parts: seq<seq<Fragment>>, alive: nat -> bool)
    requires |parts| == |before|
    ensures Sum(GivenBack(before, parts, alive)) == Sum(parts) <==>
      forall s :: 0 <= s < |parts| && parts[s] != [] ==> Savable(before[s]) && alive(s)
  {
    hide Sum;
    var given := GivenBack(before, parts, alive);
    SumTellsDropped(parts, given);
    assert given == parts <==> forall s :: 0 <= s < |parts| ==> given[s] == parts[s];
  }

  /** Where no reader that is being saved was evicted, that depends on the partition in which the page ended alone: its
      reader is saved, or nothing of it was read ahead. */
  lemma KeptUnlessPageEndsUnsaved(before: seq<ReaderMeta>, fs: seq<Fragment>, shardOf: int -> nat, current: nat, alive: nat -> bool)
    requires current < |before| && forall s :: 0 <= s < |before| && before[s].state == Saving ==> alive(s)
    ensures var parts := ReturnedParts(before, fs, shardOf, current);
      Sum(GivenBack(before, parts, alive)) == Sum(parts) <==>
        (Savable(before[current]) && alive(current)) || Head(fs) == []
  {
    hide Sum, Project, GivenBack;
    var parts := ReturnedParts(before, fs, shardOf, current);
    KeptIsGivenBack(before, parts, alive);
    if !(Savable(before[current]) && alive(current)) {
      assert parts[current] == Head(fs);
    }
  }

  /** A fragment read ahead in the partition in which the page ended, whose reader is not saved: it is counted as kept
      and nobody is given it. */
  lemma CountedButLost(f: Fragment, rm: ReaderMeta, shardOf: int -> nat, alive: nat -> bool)
    requires !f.IsPartitionStart() && !Savable(rm)
    ensures var parts := ReturnedParts([rm], [f], shardOf, 0);
      Sum(parts) == Total([f]) && Sum(GivenBack([rm], parts, alive)) == Zero
  {
    hide Project, Total, Plus;
    var parts := ReturnedParts([rm], [f], shardOf, 0);
    HeadIs([f], []);
    assert [f] + [] == [f] && parts[0] == Returned(rm.state, [f], shardOf, 0, 0);
    assert parts == [[f]] && parts[..0] == [];
    PlusLaws(Total([f]), Zero, Zero);
    SumOfNothing(GivenBack([rm], parts, alive));
  }
}
