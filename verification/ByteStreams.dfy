/** The output stream that writes into a chain of chunks, as the flat sequence of bytes it stands for. */
module ByteStreams {
  import opened Basics
  import opened Bytes

  const HEADER := 24
  const MAX_ALLOC := 128 * 1024
  const MAX_CHUNK := MAX_ALLOC - HEADER
  const DEFAULT_CHUNK := 512

  // ---------------------------------------------------------------- allocation sizes

  predicate PowerOfTwo(n: nat) {
    n == 1 || (n > 1 && n % 2 == 0 && PowerOfTwo(n / 2))
  }

  /** `bit_ceil`, from a power of two that is not too large. */
  function CeilFrom(p: nat, n: nat): (r: nat)
    requires PowerOfTwo(p)
    ensures PowerOfTwo(r) && n <= r && p <= r
    ensures r == p || r < 2 * n
    decreases n - p
  {
    if n <= p then p else assert 2 * p / 2 == p; CeilFrom(2 * p, n)
  }

  lemma {:induction false} PowersApart(p: nat, q: nat)
    requires PowerOfTwo(p) && PowerOfTwo(q) && p < q
    ensures 2 * p <= q
  {
    if p > 1 {
      PowersApart(p / 2, q / 2);
    }
  }

  /** No smaller power of two is enough. */
  lemma CeilLeast(n: nat, q: nat)
    requires PowerOfTwo(q) && n <= q && n > 0
    ensures CeilFrom(1, n) <= q
  {
    var r := CeilFrom(1, n);
    if q < r {
      PowersApart(q, r);
    }
  }

  // ---------------------------------------------------------------- chunks

  /** `size` bytes of room, of which the first ones are written. */
  class Chunk {
    const size: nat
    var data: bytes

    constructor (size: nat, data: bytes)
      ensures this.size == size && this.data == data
    {
      this.size, this.data := size, data;
    }
  }

  function Flat(chain: seq<Chunk>): bytes
    reads chain
  {
    if chain == [] then [] else Flat(chain[..|chain| - 1]) + chain[|chain| - 1].data
  }

  lemma FlatLast(chain: seq<Chunk>)
    requires chain != []
    ensures Flat(chain) == Flat(chain[..|chain| - 1]) + chain[|chain| - 1].data
  {
  }

  lemma {:induction false} FlatConcat(a: seq<Chunk>, b: seq<Chunk>)
    ensures Flat(a + b) == Flat(a) + Flat(b)
  {
    if b == [] {
      assert a + b == a;
    } else {
      assert (a + b)[..|a + b| - 1] == a + b[..|b| - 1];
      FlatConcat(a, b[..|b| - 1]);
    }
  }

  /** The byte strings one after the other. */
  function Joined(vs: seq<bytes>): bytes {
    if vs == [] then [] else Joined(vs[..|vs| - 1]) + vs[|vs| - 1]
  }

  lemma JoinedNone(a: bytes, vs: seq<bytes>)
    requires vs == []
    ensures a + Joined(vs) == a
  {
  }

  lemma JoinedLast(a: bytes, vs: seq<bytes>)
    requires vs != []
    ensures a + Joined(vs) == a + Joined(vs[..|vs| - 1]) + vs[|vs| - 1]
  {
    Regroup(a, Joined(vs[..|vs| - 1]), vs[|vs| - 1]);
  }

  // ---------------------------------------------------------------- comparing two chains

  /** How a comparison ends: with an answer; not at all, since an iteration leaves everything as it was; or by looking at
      the first fragment of a chain without any. */
  datatype Outcome = Same | Different | Endless | NoFragment

  function FromFront(fs: seq<bytes>): bytes {
    if fs == [] then [] else fs[0] + FromFront(fs[1..])
  }

  ghost predicate NoneEmpty(fs: seq<bytes>) {
    forall i :: 0 <= i < |fs| ==> fs[i] != []
  }

  /** What is left of the fragment looked at, and the fragments after it. */
  datatype View = View(now: bytes, ahead: seq<bytes>) {
    function All(): bytes { now + FromFront(ahead) }

    /** Once the first `n` bytes are done. */
    function After(n: nat): View
      requires n <= |now|
    {
      if n == |now| && ahead != [] then View(ahead[0], ahead[1..]) else View(now[n..], ahead)
    }
  }

  function Shorter(a: bytes, b: bytes): nat { if |a| < |b| then |a| else |b| }

  /** The loop of `operator==`. */
  function Compared(a: View, b: View): Outcome
    decreases |a.ahead| + |b.ahead|, |a.now| + |b.now|
  {
    if a.now == [] && b.now == [] then Same
    else
      var n := Shorter(a.now, b.now);
      if a.now[..n] != b.now[..n] then Different
      else if a.After(n) == a && b.After(n) == b then Endless
      else Compared(a.After(n), b.After(n))
  }

  /** The answer for two byte strings; there is none if one comes to its end inside the other. */
  function Verdict(a: bytes, b: bytes): Outcome {
    if a == b then Same else if a <= b || b <= a then Endless else Different
  }

  lemma VerdictAfter(a: bytes, b: bytes, n: nat)
    requires n <= |a| && n <= |b|
    ensures Verdict(a, b) == if a[..n] == b[..n] then Verdict(a[n..], b[n..]) else Different
  {
    if a[..n] == b[..n] {
      assert a == a[..n] + a[n..] && b == b[..n] + b[n..];
      assert a <= b <==> a[n..] <= b[n..];
      assert b <= a <==> b[n..] <= a[n..];
    } else {
      var i :| 0 <= i < n && a[..n][i] != b[..n][i];
      assert a[i] != b[i];
    }
  }

  lemma AfterKeeps(v: View, n: nat)
    requires n <= |v.now| && NoneEmpty(v.ahead)
    ensures n <= |v.All()| && v.All()[..n] == v.now[..n] && v.After(n).All() == v.All()[n..] && NoneEmpty(v.After(n).ahead)
    ensures v.After(n).now == [] ==> v.All()[n..] == []
  {
  }

  /** With no empty fragment ahead, the loop gives the verdict on the contents once it is entered. */
  lemma {:induction false} ComparedExact(a: View, b: View)
    requires NoneEmpty(a.ahead) && NoneEmpty(b.ahead) && (a.now != [] || b.now != [])
    ensures Compared(a, b) == Verdict(a.All(), b.All())
    decreases |a.ahead| + |b.ahead|, |a.now| + |b.now|
  {
    var n := Shorter(a.now, b.now);
    AfterKeeps(a, n);
    AfterKeeps(b, n);
    VerdictAfter(a.All(), b.All(), n);
    if a.now[..n] == b.now[..n] {
      var a', b' := a.After(n), b.After(n);
      if a' == a && b' == b {
        OneAtItsEnd(a, b);
      } else if a'.now != [] || b'.now != [] {
        ComparedExact(a', b');
      }
    }
  }

  lemma OneAtItsEnd(a: View, b: View)
    requires a.now != [] || b.now != []
    requires var n := Shorter(a.now, b.now); a.After(n) == a && b.After(n) == b
    ensures Verdict(a.All(), b.All()) == Endless
  {
  }

  function Fragments(chain: seq<Chunk>): (fs: seq<bytes>)
    reads chain
    ensures |fs| == |chain| && forall i :: 0 <= i < |fs| ==> fs[i] == chain[i].data
  {
    seq(|chain|, i requires 0 <= i < |chain| reads chain => chain[i].data)
  }

  lemma {:induction false} FlatFromFront(chain: seq<Chunk>)
    ensures Flat(chain) == FromFront(Fragments(chain))
  {
    if chain != [] {
      var n := |chain| - 1;
      FlatFromFront(chain[..n]);
      assert Fragments(chain) == Fragments(chain[..n]) + [chain[n].data];
      FromFrontLast(Fragments(chain[..n]), chain[n].data);
    }
  }

  lemma {:induction false} FromFrontLast(fs: seq<bytes>, f: bytes)
    ensures FromFront(fs + [f]) == FromFront(fs) + f
  {
    if fs == [] {
      assert ([] + [f])[1..] == [] && f + [] == f;
    } else {
      assert (fs + [f])[1..] == fs[1..] + [f];
      FromFrontLast(fs[1..], f);
      Regroup(fs[0], FromFront(fs[1..]), f);
    }
  }

  /** A place in the stream: a chunk and an offset in it, or no chunk before anything was allocated. */
  datatype Position = Position(chunk: Chunk?, offset: nat)

  ghost predicate Distinct(chain: seq<Chunk>) {
    forall i, j :: 0 <= i < j < |chain| ==> chain[i] != chain[j]
  }

  /** No chunk holds more than it has room for, and only the first may be empty. */
  ghost predicate Filled(chain: seq<Chunk>)
    reads chain
  {
    forall i :: 0 <= i < |chain| ==> |chain[i].data| <= chain[i].size && (i > 0 ==> chain[i].data != [])
  }

  class BytesOstream {
    /** The chunks from `_begin` on; `_current` is the last. */
    var chain: seq<Chunk>
    var size: nat
    var initialChunkSize: nat

    ghost predicate Valid()
      reads this, chain
    {
      Distinct(chain) && Filled(chain) && size == |Content()|
    }

    ghost function Content(): bytes
      reads this, chain
    {
      Flat(chain)
    }

    constructor (initialChunkSize: nat)
      ensures Valid() && Content() == [] && chain == [] && this.initialChunkSize == initialChunkSize
    {
      chain, size := [], 0;
      this.initialChunkSize := initialChunkSize;
    }

    /** `next_alloc_size`: a power of two with room for the data, at most the limit if the data allows it. */
    function NextAllocSize(dataSize: nat): (r: nat)
      reads this, chain
      ensures PowerOfTwo(r) && dataSize + HEADER <= r
      ensures dataSize <= MAX_CHUNK ==> r <= MAX_ALLOC
    {
      var next := if chain != [] then chain[|chain| - 1].size * 2 else initialChunkSize;
      var limited := if next < MAX_ALLOC then next else MAX_ALLOC;
      var n := if limited < dataSize + HEADER then dataSize + HEADER else limited;
      assert PowerOfTwo(MAX_ALLOC) by { LimitIsPower(); }
      assert n <= MAX_ALLOC ==> CeilFrom(1, n) <= MAX_ALLOC by { if n <= MAX_ALLOC { CeilLeast(n, MAX_ALLOC); } }
      CeilFrom(1, n)
    }

    static lemma LimitIsPower()
      ensures PowerOfTwo(MAX_ALLOC)
    {
      assert PowerOfTwo(128) by { assert PowerOfTwo(2) && PowerOfTwo(8) && PowerOfTwo(32); }
      assert PowerOfTwo(8 * 128) by { assert PowerOfTwo(2 * 128) && PowerOfTwo(4 * 128); }
      assert PowerOfTwo(64 * 128) by { assert PowerOfTwo(16 * 128) && PowerOfTwo(32 * 128); }
      assert PowerOfTwo(512 * 128) by { assert PowerOfTwo(128 * 128) && PowerOfTwo(256 * 128); }
    }

    function SpaceLeft(): int
      reads this, chain
    {
      if chain == [] then 0 else chain[|chain| - 1].size - |chain[|chain| - 1].data|
    }

    /** `alloc_new` and the copy into the room it makes. */
    method AllocNew(v: bytes)
      requires Valid() && v != []
      modifies this
      ensures Valid() && Content() == old(Content()) + v && initialChunkSize == old(initialChunkSize)
      ensures |chain| == |old(chain)| + 1 && old(chain) <= chain && fresh(chain[|old(chain)|])
      ensures chain[|old(chain)|].data == v && chain[|old(chain)|].size == old(NextAllocSize(|v|)) - HEADER
    {
      hide Flat, PowerOfTwo, NextAllocSize;
      var room := NextAllocSize(|v|);
      var c := new Chunk(room - HEADER, v);
      ghost var before := chain;
      chain := chain + [c];
      size := size + |v|;
      assert chain[..|chain| - 1] == before;
      FlatLast(chain);
    }

    /** Chunks are only added, and only the last of those there were has been written to. */
    twostate predicate Grown()
      reads this, chain
    {
      && |old(chain)| <= |chain|
      && (forall i :: 0 <= i < |old(chain)| ==> chain[i] == old(chain[i]) && old(chain[i].data) <= chain[i].data)
      && (forall i :: 0 <= i < |old(chain)| - 1 ==> chain[i].data == old(chain[i].data))
      && (forall i :: |old(chain)| <= i < |chain| ==> fresh(chain[i]))
    }

    /** Bytes that fit go to the last chunk. */
    method Fill(v: bytes)
      requires Valid() && chain != [] && |v| <= SpaceLeft()
      modifies this`size, chain[|chain| - 1]
      ensures Valid() && Content() == old(Content()) + v
      ensures Grown() && chain[|chain| - 1].data == old(chain[|chain| - 1].data) + v
    {
      hide Flat, Grown, Distinct, Filled;
      var last := chain[|chain| - 1];
      ghost var before := chain[..|chain| - 1];
      FlatLast(chain);
      last.data := last.data + v;
      size := size + |v|;
      OthersKept();
      FlatLast(chain);
      Regroup(Flat(before), old(last.data), v);
    }

    /** Only the last chunk was written to, and only at its end. */
    twostate lemma OthersKept()
      requires old(Valid()) && unchanged(`chain) && chain != []
      requires old(chain[|chain| - 1].data) <= chain[|chain| - 1].data
      requires |chain[|chain| - 1].data| <= chain[|chain| - 1].size
      requires forall c: Chunk :: c in chain && c != chain[|chain| - 1] ==> c.data == old(c.data)
      ensures Filled(chain) && Grown() && Flat(chain[..|chain| - 1]) == old(Flat(chain[..|chain| - 1]))
    {
      hide Flat;
      SameFlat(chain[..|chain| - 1]);
    }

    lemma LastFits()
      requires Valid()
      ensures SpaceLeft() >= 0
    {
    }

    static lemma Split(a: bytes, v: bytes, i: nat, n: nat)
      requires i + n <= |v|
      ensures a + v[..i] + v[i..i + n] == a + v[..i + n]
    {
    }

    /** `write_place_holder`, filled with `v`: the bytes are contiguous. */
    method WritePlaceHolder(v: bytes)
      requires Valid() && v != []
      modifies this, chain
      ensures Valid() && Content() == old(Content()) + v && initialChunkSize == old(initialChunkSize)
      ensures Grown() && chain != []
      ensures var d := chain[|chain| - 1].data; |v| <= |d| && d[|d| - |v|..] == v
      ensures |v| <= old(SpaceLeft()) ==> chain == old(chain)
      ensures |v| > old(SpaceLeft()) ==>
        |chain| == |old(chain)| + 1 && forall i :: 0 <= i < |old(chain)| ==> chain[i].data == old(chain[i].data)
    {
      hide Flat, Valid;
      if |v| <= SpaceLeft() {
        Fill(v);
      } else {
        AllocNew(v);
      }
    }

    /** `write`: fills the last chunk, then allocates. */
    method Write(v: bytes)
      requires Valid()
      modifies this, chain
      ensures Valid() && Content() == old(Content()) + v && initialChunkSize == old(initialChunkSize)
      ensures Grown()
    {
      hide Flat, Valid, Content, NextAllocSize;
      if v == [] {
        assert Content() + v == Content();
        return;
      }
      LastFits();
      var here := if SpaceLeft() < |v| then SpaceLeft() else |v|;
      if here > 0 {
        Fill(v[..here]);
      }
      assert Content() == old(Content()) + v[..here];
      Split(old(Content()), v, here, |v| - here);
      Prefixes(old(Content()), v);
      WriteNew(v[here..|v|]);
    }

    method WriteNew(v: bytes)
      requires Valid()
      modifies this
      ensures Valid() && Content() == old(Content()) + v && initialChunkSize == old(initialChunkSize)
      ensures old(chain) <= chain && forall i :: |old(chain)| <= i < |chain| ==> fresh(chain[i])
    {
      hide Flat, Valid, Content, NextAllocSize;
      var done := 0;
      ghost var before := Content();
      Prefixes(before, v);
      while done < |v|
        invariant Valid() && initialChunkSize == old(initialChunkSize) && done <= |v|
        invariant old(chain) <= chain && forall i :: |old(chain)| <= i < |chain| ==> fresh(chain[i])
        invariant Content() == before + v[..done]
      {
        var n := if |v| - done < MAX_CHUNK then |v| - done else MAX_CHUNK;
        Split(before, v, done, n);
        AllocNew(v[done..done + n]);
        done := done + n;
      }
    }

    static lemma Prefixes(a: bytes, v: bytes)
      ensures a + v[..0] == a && v[..|v|] == v
    {
    }

    /** `linearize`. */
    method Linearize() returns (view: bytes)
      requires Valid()
      modifies this
      ensures Valid() && Content() == old(Content()) && view == Content() && |chain| <= 1
    {
      hide Flat;
      if |chain| <= 1 {
        if chain != [] {
          FlatLast(chain);
          FlatNone(chain[..0]);
          assert Content() == chain[0].data;
          return chain[0].data;
        }
        FlatNone(chain);
        return [];
      }
      var data: bytes := [];
      FlatNone(chain[..0]);
      for i := 0 to |chain|
        invariant chain == old(chain) && size == old(size) && data == Flat(chain[..i])
      {
        assert chain[..i + 1][..i] == chain[..i];
        FlatLast(chain[..i + 1]);
        data := data + chain[i].data;
      }
      assert chain[..|chain|] == chain && data == old(Content());
      var c := new Chunk(size, data);
      chain := [c];
      FlatLast(chain);
      FlatNone(chain[..0]);
      assert [] + data == data;
      view := data;
    }

    static lemma FlatNone(chain: seq<Chunk>)
      requires chain == []
      ensures Flat(chain) == []
    {
    }

    /** `remove_suffix`: cuts the chain in the chunk in which the new end falls. */
    method RemoveSuffix(n: nat)
      requires Valid() && n <= size
      modifies this, chain
      ensures Valid() && Content() == old(Content())[..old(size) - n] && initialChunkSize == old(initialChunkSize)
    {
      hide Flat;
      size := size - n;
      if chain == [] {
        FlatNone(chain);
        return;
      }
      var i, left := FindEnd(size);
      CutAt(i, left);
    }

    /** The first chunk with as many bytes as are left when it is reached. */
    method FindEnd(n: nat) returns (i: nat, left: nat)
      requires chain != [] && n <= |Content()|
      ensures i < |chain| && left <= |chain[i].data| && |Flat(chain[..i])| + left == n && (i > 0 ==> left > 0)
    {
      hide Flat;
      i, left := 0, n;
      FlatNone(chain[..0]);
      while i < |chain|
        invariant i <= |chain| && |Flat(chain[..i])| + left == n && (i > 0 ==> left > 0)
        invariant i == |chain| ==> n > |Content()|
      {
        assert chain[..i + 1][..i] == chain[..i];
        FlatLast(chain[..i + 1]);
        if |chain[i].data| >= left {
          return;
        }
        left := left - |chain[i].data|;
        i := i + 1;
        assert i == |chain| ==> chain[..i] == chain;
      }
    }

    static lemma FlatSplit(chain: seq<Chunk>, i: nat)
      requires i <= |chain|
      ensures |Flat(chain[..i])| <= |Flat(chain)| && Flat(chain)[..|Flat(chain[..i])|] == Flat(chain[..i])
    {
      hide Flat;
      FlatConcat(chain[..i], chain[i..]);
      assert chain[..i] + chain[i..] == chain;
    }

    /** The stream ends `offset` bytes into a chunk, and the chunks after it are freed. */
    method CutAt(i: nat, offset: nat)
      requires i < |chain| && offset <= |chain[i].data|
      requires Distinct(chain) && Filled(chain) && (i > 0 ==> offset > 0)
      requires size == |Flat(chain[..i])| + offset
      modifies this`chain, chain
      ensures Valid() && size <= |old(Content())| && Content() == old(Content())[..size]
      ensures chain == old(chain)[..i + 1]
    {
      hide Flat;
      ghost var before := chain[..i];
      ghost var c := chain[i];
      FlatSplit(chain, i + 1);
      assert chain[..i + 1][..i] == before;
      FlatLast(chain[..i + 1]);
      Shorten(Content(), Flat(before), c.data, offset);
      chain[i].data := chain[i].data[..offset];
      chain := chain[..i + 1];
      assert c !in before && Flat(before) == old(Flat(before));
      assert chain[..i] == before;
      FlatLast(chain);
    }

    static lemma Shorten(all: bytes, a: bytes, b: bytes, n: nat)
      requires n <= |b| && |a + b| <= |all| && all[..|a + b|] == a + b
      ensures all[..|a| + n] == a + b[..n]
    {
      assert all[..|a| + n] == all[..|a + b|][..|a| + n];
    }

    // ---------------------------------------------------------------- positions

    /** A place that `pos` returned and that is still there: only in the first chunk may it precede everything. */
    predicate IsPosition(p: Position)
      reads this, chain
    {
      if p.chunk == null then p.offset == 0
      else p.chunk in chain && p.offset <= |p.chunk.data| && (p.offset > 0 || p.chunk == chain[0])
    }

    /** The number of bytes before a position. */
    ghost function Before(p: Position): nat
      requires IsPosition(p)
      reads this, chain
    {
      if p.chunk == null then 0 else |Flat(chain[..IndexOf(chain, p.chunk)])| + p.offset
    }

    /** `pos`: the end of the stream. */
    method Pos() returns (p: Position)
      requires Valid()
      ensures IsPosition(p) && Before(p) == size
    {
      hide Flat;
      if chain == [] {
        FlatNone(chain);
        return Position(null, 0);
      }
      FlatLast(chain);
      p := Position(chain[|chain| - 1], |chain[|chain| - 1].data|);
      assert IndexOf(chain, chain[|chain| - 1]) == |chain| - 1;
    }

    /** Writing leaves every position where it was. */
    twostate lemma PositionStays(p: Position)
      requires Grown() && old(Valid()) && Valid() && old(IsPosition(p))
      ensures IsPosition(p) && Before(p) == old(Before(p))
    {
      hide Flat;
      if p.chunk != null {
        var i := IndexOf(old(chain), p.chunk);
        assert chain[i] == p.chunk && IndexOf(chain, p.chunk) == i;
        assert chain[..i] == old(chain)[..i];
        SameFlat(chain[..i]);
      }
    }

    twostate lemma {:induction false} SameFlat(s: seq<Chunk>)
      requires forall c :: c in s ==> c.data == old(c.data)
      ensures Flat(s) == old(Flat(s))
    {
      if s != [] {
        SameFlat(s[..|s| - 1]);
      }
    }

    /** `written_since`: what is left of the chunk of the position and the chunks after it. */
    method WrittenSince(p: Position) returns (total: nat)
      requires Valid() && IsPosition(p)
      ensures Before(p) <= size && total == size - Before(p)
    {
      hide Flat;
      if p.chunk == null {
        return size;
      }
      var i := IndexOf(chain, p.chunk);
      total := |p.chunk.data| - p.offset;
      assert chain[..i + 1][..i] == chain[..i];
      FlatLast(chain[..i + 1]);
      for j := i + 1 to |chain|
        invariant total + Before(p) == |Flat(chain[..j])|
      {
        assert chain[..j + 1][..j] == chain[..j];
        FlatLast(chain[..j + 1]);
        total := total + |chain[j].data|;
      }
      assert chain[..|chain|] == chain;
    }

    /** `retract`: the stream is what it was at the position. Going back to before the first allocation also
        resets the initial chunk size. */
    method Retract(p: Position)
      requires Valid() && IsPosition(p)
      modifies this, chain
      ensures Valid() && old(Before(p)) <= old(size) && Content() == old(Content())[..old(Before(p))]
      ensures initialChunkSize == if p.chunk == null then DEFAULT_CHUNK else old(initialChunkSize)
    {
      hide Flat;
      if p.chunk == null {
        chain, size, initialChunkSize := [], 0, DEFAULT_CHUNK;
        FlatNone(chain);
        return;
      }
      var written := WrittenSince(p);
      size := size - written;
      CutAt(IndexOf(chain, p.chunk), p.offset);
    }

    /** Retracting to a position undoes all that was written since it was taken. */
    method WriteAndRetract(vs: seq<bytes>) returns (written: nat)
      requires Valid()
      modifies this, chain
      ensures Valid() && Content() == old(Content()) && written == |Joined(vs)|
    {
      hide Flat, Content, IsPosition, Before, Joined, Valid;
      ghost var before := Content();
      ValidSize();
      var p := Pos();
      JoinedNone(before, vs[..0]);
      for n := 0 to |vs|
        invariant Valid() && fresh((set c | c in chain) - (set c | c in old(chain)))
        invariant IsPosition(p) && Before(p) == |before| && Content() == before + Joined(vs[..n])
      {
        assert vs[..n + 1][..n] == vs[..n];
        JoinedLast(before, vs[..n + 1]);
        label W:
        Write(vs[n]);
        PositionStays@W(p);
        GrownChunks@W();
      }
      assert vs[..|vs|] == vs;
      ValidSize();
      written := WrittenSince(p);
      Retract(p);
      assert (before + Joined(vs))[..|before|] == before;
    }

    lemma ValidSize()
      requires Valid()
      ensures size == |Content()|
    {
    }

    twostate lemma GrownChunks()
      requires Grown()
      ensures fresh((set c | c in chain) - (set c | c in old(chain)))
    {
      forall c | c in chain ensures c in old(chain) || fresh(c) {
        var i :| 0 <= i < |chain| && chain[i] == c;
      }
    }

    /** `clear`: the first chunk is kept for reuse. */
    method Clear()
      requires Valid()
      modifies this, chain
      ensures Valid() && Content() == [] && initialChunkSize == old(initialChunkSize)
      ensures chain == old(if chain == [] then [] else chain[..1])
    {
      hide Flat;
      if chain == [] {
        FlatNone(chain);
        return;
      }
      chain[0].data := [];
      size := 0;
      chain := [chain[0]];
      FlatLast(chain);
      FlatNone(chain[..0]);
    }

    /** `operator==`.  It gives the right answer exactly when the contents are equal, or neither is a prefix of the other
        and not both chains begin with an empty fragment.  A proper prefix makes it loop forever; two empty first
        fragments make it say yes at once. */
    method Equals(other: BytesOstream) returns (r: Outcome)
      requires Valid() && other.Valid()
      ensures r ==
        if chain == [] || other.chain == [] then NoFragment
        else if chain[0].data == [] && other.chain[0].data == [] then Same
        else Verdict(Content(), other.Content())
    {
      hide Flat, Verdict, FromFront, Compared;
      if chain == [] || other.chain == [] {
        return NoFragment;
      }
      StreamsCompared(this, other);
      r := CompareFragments(Fragments(chain), Fragments(other.chain));
    }

    static method CompareFragments(as': seq<bytes>, bs: seq<bytes>) returns (r: Outcome)
      requires as' != [] && bs != []
      ensures r == Compared(View(as'[0], as'[1..]), View(bs[0], bs[1..]))
    {
      hide Compared;
      var a, i, b, j := as'[0], 1, bs[0], 1;
      while a != [] || b != []
        invariant 0 <= i <= |as'| && 0 <= j <= |bs|
        invariant Compared(View(a, as'[i..]), View(b, bs[j..])) == Compared(View(as'[0], as'[1..]), View(bs[0], bs[1..]))
        decreases |as'| - i + |bs| - j, |a| + |b|
      {
        var n := Shorter(a, b);
        OneTurn(View(a, as'[i..]), View(b, bs[j..]));
        if a[..n] != b[..n] {
          return Different;
        }
        if n == 0 && (n < |a| || i == |as'|) && (n < |b| || j == |bs|) {
          return Endless;
        }
        a := a[n..];
        if a == [] && i < |as'| {
          a, i := as'[i], i + 1;
        }
        b := b[n..];
        if b == [] && j < |bs| {
          b, j := bs[j], j + 1;
        }
      }
      BothEmpty(as'[i..], bs[j..]);
      r := Same;
    }

    static lemma BothEmpty(as': seq<bytes>, bs: seq<bytes>)
      ensures Compared(View([], as'), View([], bs)) == Same
    {
    }

    static lemma OneTurn(a: View, b: View)
      requires a.now != [] || b.now != []
      ensures var n := Shorter(a.now, b.now);
        Compared(a, b) ==
          if a.now[..n] != b.now[..n] then Different
          else if n == 0 && (n < |a.now| || a.ahead == []) && (n < |b.now| || b.ahead == []) then Endless
          else Compared(a.After(n), b.After(n))
    {
    }

    static lemma StreamsCompared(x: BytesOstream, y: BytesOstream)
      requires x.Valid() && y.Valid() && x.chain != [] && y.chain != []
      ensures Compared(View(x.chain[0].data, Fragments(x.chain)[1..]), View(y.chain[0].data, Fragments(y.chain)[1..])) ==
        if x.chain[0].data == [] && y.chain[0].data == [] then Same else Verdict(x.Content(), y.Content())
    {
      hide Flat, Verdict, Compared;
      FlatFromFront(x.chain);
      FlatFromFront(y.chain);
      var a := View(x.chain[0].data, Fragments(x.chain)[1..]);
      var b := View(y.chain[0].data, Fragments(y.chain)[1..]);
      if a.now == [] && b.now == [] {
        BothEmpty(a.ahead, b.ahead);
      } else {
        ComparedExact(a, b);
      }
    }
  }

  /** A stream cleared for reuse and then given more than fits its first chunk begins with an empty fragment. */
  method Reused(x: Byte) returns (s: BytesOstream)
    ensures fresh(s) && fresh(set c | c in s.chain) && s.Valid() && s.chain != [] && s.chain[0].data == []
    ensures |s.Content()| > 0 && s.Content()[0] == x
  {
    s := new BytesOstream(DEFAULT_CHUNK);
    s.Write([x]);
    s.Clear();
    var v := seq(s.SpaceLeft() + 1, _ => x);
    s.WritePlaceHolder(v);
  }

  /** Two such streams are taken for equal whatever was written to them. */
  method ReusedLookEqual(x: Byte, y: Byte) returns (s: BytesOstream, t: BytesOstream, r: Outcome)
    requires x != y
    ensures s.Valid() && t.Valid() && s.Content() != t.Content() && r == Same
  {
    s := Reused(x);
    t := Reused(y);
    r := s.Equals(t);
  }
}
