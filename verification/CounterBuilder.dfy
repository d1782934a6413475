/** The builder of counter cells from shards in any order. */
module CounterBuilder {
  import opened Basics
  import opened Combine
  import opened Counters

  /** The shards merged one at a time. */
  function MergedAll(all: seq<Shard>): (r: seq<Shard>)
    ensures Ordered(r)
  {
    if all == [] then []
    else
      var before, last := MergedAll(all[..|all| - 1]), all[|all| - 1];
      MergedOrdered(before, [last]);
      Merged(before, [last])
  }

  ghost predicate IsNewest(x: Shard, all: seq<Shard>) {
    x in all && forall y :: y in all && y.id == x.id ==> y.clock <= x.clock
  }

  /** A newest shard of the id, if there is any. */
  ghost predicate HasNewest(r: seq<Shard>, all: seq<Shard>, id: int) {
    var f := Find(r, Id, id);
    if f.Some? then f.value.id == id && IsNewest(f.value, all) else forall y :: y in all ==> y.id != id
  }

  /** For every id the merge has a newest shard. */
  lemma {:induction false} MergedAllHas(all: seq<Shard>, id: int)
    ensures HasNewest(MergedAll(all), all, id)
  {
    hide Find, Combined, Sorted;
    if all == [] {
      EmptyFind(id);
    } else {
      var before, last := all[..|all| - 1], all[|all| - 1];
      MergedAllHas(before, id);
      assert all == before + [last];
      OneFound(MergedAll(before), last, id);
    }
  }

  lemma SameShards(r: seq<Shard>, a: seq<Shard>, b: seq<Shard>, id: int)
    requires multiset(a) == multiset(b) && HasNewest(r, a, id)
    ensures HasNewest(r, b, id)
  {
    hide Find;
    forall x ensures x in a <==> x in b {
      assert x in a <==> x in multiset(a);
      assert x in b <==> x in multiset(b);
    }
  }

  lemma EmptyFind(id: int)
    ensures Find<Shard>([], Id, id) == None
  {
  }

  lemma OneFound(r: seq<Shard>, s: Shard, id: int)
    requires Ordered(r)
    ensures Find(Merged(r, [s]), Id, id) == PickOpt(Find(r, Id, id), if s.id == id then Some(s) else None, Newer)
  {
    MergedLookup(r, [s], id);
    assert [s][1..] == [];
  }

  /** What is left of the shards added: nothing else, and of every id one at least as new. */
  ghost predicate Carries(shards: seq<Shard>, added: seq<Shard>) {
    && (forall x :: x in shards ==> x in added)
    && (forall x :: x in added ==> HasAsNew(shards, x))
  }

  ghost predicate HasAsNew(shards: seq<Shard>, x: Shard) {
    exists y :: y in shards && y.id == x.id && x.clock <= y.clock
  }

  lemma CarriedNewest(r: seq<Shard>, shards: seq<Shard>, added: seq<Shard>, id: int)
    requires Carries(shards, added) && HasNewest(r, shards, id)
    ensures HasNewest(r, added, id)
  {
    hide Find;
    assert forall y :: y in added && y.id == id ==> HasAsNew(shards, y);
  }

  lemma NewestCarries(r: seq<Shard>, added: seq<Shard>)
    requires Ordered(r) && forall id :: HasNewest(r, added, id)
    ensures Carries(r, added)
  {
    hide Sorted, HasNewest;
    forall x | x in r ensures x in added {
      FoundIn(r, x, Id);
      NewestAt(r, added, x.id);
    }
    forall x | x in added ensures HasAsNew(r, x) {
      NewestAt(r, added, x.id);
    }
  }

  lemma NewestAt(r: seq<Shard>, added: seq<Shard>, id: int)
    requires HasNewest(r, added, id)
    ensures Find(r, Id, id).Some? ==> Find(r, Id, id).value in added
    ensures forall x :: x in added && x.id == id ==> HasAsNew(r, x)
  {
    hide Find;
    var f := Find(r, Id, id);
    if f.Some? {
      assert f.value in r;
    }
  }

  /** If equal id and clock mean equal shards, the newest ones are determined. */
  lemma NewestUnique(r: seq<Shard>, t: seq<Shard>, added: seq<Shard>)
    requires Ordered(r) && Ordered(t) && Consistent(added, added)
    requires forall id :: HasNewest(r, added, id) && HasNewest(t, added, id)
    ensures r == t
  {
    hide Find, Sorted;
    forall id ensures Find(r, Id, id) == Find(t, Id, id) {
      assert HasNewest(r, added, id) && HasNewest(t, added, id);
    }
    SameLookups(r, t, Id);
  }

  /** The order in which shards are merged does not matter if equal id and clock mean equal shards. */
  lemma AnyOrder(a: seq<Shard>, b: seq<Shard>)
    requires multiset(a) == multiset(b) && Consistent(a, a)
    ensures MergedAll(a) == MergedAll(b)
  {
    hide MergedAll, Sorted, HasNewest, Consistent;
    forall id ensures HasNewest(MergedAll(a), a, id) && HasNewest(MergedAll(b), a, id) {
      MergedAllHas(a, id);
      MergedAllHas(b, id);
      SameShards(MergedAll(b), b, a, id);
    }
    NewestUnique(MergedAll(a), MergedAll(b), a);
  }

  // ---------------------------------------------------------------- appending to what is sorted

  lemma {:induction false} MergeAtEnd(r: seq<Shard>, s: Shard)
    requires forall x :: x in r ==> x.id < s.id
    ensures Merged(r, [s]) == r + [s]
  {
    if r != [] {
      MergeAtEnd(r[1..], s);
    }
  }

  lemma {:induction false} MergeIntoLast(r: seq<Shard>, s: Shard)
    requires Ordered(r) && r != [] && r[|r| - 1].id == s.id
    ensures Merged(r, [s]) == r[..|r| - 1] + [Newer(r[|r| - 1], s)]
  {
    if |r| == 1 {
      assert r[1..] == [] && [s][1..] == [];
      assert Merged(r[1..], [s][1..]) == [];
      assert Merged(r, [s]) == [Newer(r[0], s)] + Merged(r[1..], [s][1..]);
    } else {
      SortedTail(r, Id);
      assert Id(r[0]) < Id(r[|r| - 1]);
      MergeIntoLast(r[1..], s);
      assert r[..|r| - 1] == [r[0]] + r[1..][..|r| - 2];
    }
  }

  ghost predicate ById(s: seq<Shard>) {
    forall i, j :: 0 <= i < j < |s| ==> s[i].id <= s[j].id
  }

  /** Any sort by id will do. */
  method SortById(all: seq<Shard>) returns (s: seq<Shard>)
    ensures ById(s) && multiset(s) == multiset(all)
  {
    s := [];
    for n := 0 to |all|
      invariant ById(s) && multiset(s) == multiset(all[..n])
    {
      assert all[..n + 1] == all[..n] + [all[n]];
      Placed(s, all[n]);
      s := Place(s, all[n]);
    }
    assert all[..|all|] == all;
  }

  function Place(s: seq<Shard>, x: Shard): seq<Shard> {
    if s == [] || x.id < s[0].id then [x] + s else [s[0]] + Place(s[1..], x)
  }

  lemma {:induction false} Placed(s: seq<Shard>, x: Shard)
    requires ById(s)
    ensures ById(Place(s, x)) && multiset(Place(s, x)) == multiset(s) + multiset{x}
  {
    if s == [] {
    } else if x.id < s[0].id {
      FrontById(x, s);
    } else {
      Placed(s[1..], x);
      assert s == [s[0]] + s[1..];
      PlacedAbove(s[0], s[1..], x);
      FrontById(s[0], Place(s[1..], x));
    }
  }

  lemma FrontById(x: Shard, s: seq<Shard>)
    requires ById(s) && (s != [] ==> x.id <= s[0].id)
    ensures ById([x] + s)
  {
    assert forall j :: 0 < j < |s| ==> s[0].id <= s[j].id;
  }

  lemma PlacedAbove(first: Shard, s: seq<Shard>, x: Shard)
    requires first.id <= x.id && (s != [] ==> first.id <= s[0].id)
    ensures first.id <= Place(s, x)[0].id
  {
  }

  /** `counter_cell_builder`. */
  class CellBuilder {
    var shards: seq<Shard>
    var sorted: bool
    ghost var added: seq<Shard>

    /** Of the shards ever added the builder has the newest, and one that counts as sorted is. */
    ghost predicate Valid()
      reads this
    {
      Carries(shards, added) && (sorted ==> Ordered(shards))
    }

    constructor ()
      ensures Valid() && added == []
    {
      shards, sorted, added := [], true, [];
    }

    /** `add_maybe_unsorted_shard`. */
    method AddMaybeUnsortedShard(s: Shard)
      requires Valid()
      modifies this
      ensures Valid() && added == old(added) + [s] && shards == old(shards) + [s]
    {
      hide Sorted, Carries;
      if sorted {
        AppendOrdered(shards, s);
      }
      CarriesOneMore(shards, added, s);
      shards := shards + [s];
      added := added + [s];
      if sorted && |shards| > 1 {
        sorted := shards[|shards| - 1].id > shards[|shards| - 2].id;
      }
    }

    /** `sort_and_remove_duplicates`: the newest shard of every id ever added; if equal id and clock mean equal shards,
        the merge of all of them whatever their order. */
    method SortAndRemoveDuplicates()
      requires Valid()
      modifies this`shards, this`sorted
      ensures Valid() && sorted && Ordered(shards) && forall id :: HasNewest(shards, added, id)
      ensures Consistent(added, added) ==> shards == MergedAll(added)
    {
      hide Sorted, MergedAll, HasNewest, Carries, Consistent;
      if !sorted {
        DoSortAndRemoveDuplicates();
      } else {
        SortedIsMerged(shards);
        forall id ensures HasNewest(shards, added, id) {
          MergedAllHas(shards, id);
          CarriedNewest(shards, shards, added, id);
        }
      }
      forall id ensures HasNewest(MergedAll(added), added, id) {
        MergedAllHas(added, id);
      }
      NewestCarries(shards, added);
      if Consistent(added, added) {
        NewestUnique(shards, MergedAll(added), added);
      }
    }

    method DoSortAndRemoveDuplicates()
      requires Valid()
      modifies this`shards, this`sorted
      ensures sorted && Ordered(shards) && forall id :: HasNewest(shards, added, id)
    {
      hide MergedAll, Sorted, Combined, ById, Merged, HasNewest, Carries;
      var all := SortById(shards);
      var merged: seq<Shard> := [];
      MergedNone(all[..0]);
      for n := 0 to |all|
        invariant shards == old(shards) && merged == MergedAll(all[..n])
        invariant (n == 0 <==> merged == []) && (n > 0 ==> merged[|merged| - 1].id == all[n - 1].id)
        invariant forall x :: x in merged ==> x in all[..n]
      {
        var s := all[n];
        MergedNext(all, n);
        UpTo(all, n);
        if merged == [] || merged[|merged| - 1].id != s.id {
          BelowNext(merged, s);
          MergeAtEnd(merged, s);
          merged := merged + [s];
        } else {
          MergeIntoLast(merged, s);
          var last := merged[|merged| - 1];
          merged := merged[..|merged| - 1] + [if last.clock < s.clock then s else last];
        }
      }
      assert all[..|all|] == all;
      forall id ensures HasNewest(merged, added, id) {
        MergedAllHas(all, id);
        SameShards(merged, all, shards, id);
        CarriedNewest(merged, shards, added, id);
      }
      shards := merged;
      sorted := true;
    }
  }

  lemma CarriesOneMore(shards: seq<Shard>, added: seq<Shard>, s: Shard)
    requires Carries(shards, added)
    ensures Carries(shards + [s], added + [s])
  {
    hide HasAsNew;
    forall x | x in added + [s] ensures HasAsNew(shards + [s], x) {
      StillAsNew(shards, s, x);
    }
  }

  lemma StillAsNew(shards: seq<Shard>, s: Shard, x: Shard)
    ensures HasAsNew(shards, x) || x == s ==> HasAsNew(shards + [s], x)
  {
    assert (shards + [s])[|shards|] == s;
    if HasAsNew(shards, x) {
      var y :| y in shards && y.id == x.id && x.clock <= y.clock;
      assert y in shards + [s];
    }
  }

  lemma AppendOrdered(r: seq<Shard>, s: Shard)
    requires Ordered(r)
    ensures r == [] || r[|r| - 1].id < s.id ==> Ordered(r + [s])
  {
    if r != [] {
      assert forall i :: 0 <= i < |r| - 1 ==> Id(r[i]) < Id(r[|r| - 1]);
    }
  }

  lemma MergedNone(all: seq<Shard>)
    requires all == []
    ensures MergedAll(all) == []
  {
  }

  lemma MergedNext(all: seq<Shard>, n: nat)
    requires n < |all|
    ensures MergedAll(all[..n + 1]) == Merged(MergedAll(all[..n]), [all[n]])
    ensures forall x :: x in all[..n] || x == all[n] ==> x in all[..n + 1]
  {
    assert all[..n + 1][..n] == all[..n];
    assert all[..n + 1] == all[..n] + [all[n]];
  }

  lemma UpTo(all: seq<Shard>, n: nat)
    requires ById(all) && n < |all|
    ensures forall x :: x in all[..n] ==> x.id <= all[n].id
  {
  }

  lemma BelowNext(merged: seq<Shard>, s: Shard)
    requires Ordered(merged) && (forall x :: x in merged ==> x.id <= s.id)
    requires merged != [] ==> merged[|merged| - 1].id != s.id
    ensures forall x :: x in merged ==> x.id < s.id
  {
    forall x | x in merged ensures x.id < s.id {
      var i :| 0 <= i < |merged| && merged[i] == x;
      var last := merged[|merged| - 1];
      assert i < |merged| - 1 ==> Id(merged[i]) < Id(last);
    }
  }

  lemma {:induction false} SortedIsMerged(s: seq<Shard>)
    requires Ordered(s)
    ensures MergedAll(s) == s
  {
    if s != [] {
      var before, last := s[..|s| - 1], s[|s| - 1];
      SortedIsMerged(before);
      assert forall i :: 0 <= i < |s| - 1 ==> Id(s[i]) < Id(last);
      MergeAtEnd(before, last);
      assert s == before + [last];
    }
  }
}
