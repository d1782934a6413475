/** The order of clustering prefixes with weights, and the bounds of ranges in it. Components are their ranks in
    the order of their type. */
module ClusteringBounds {
  import opened Basics

  type Prefix = seq<int>

  datatype BoundKind = ExclEnd | InclStart | InclEnd | ExclStart

  function Weight(k: BoundKind): int {
    match k
    case ExclEnd => -2
    case InclStart => -1
    case InclEnd => 1
    case ExclStart => 2
  }

  function InvertKind(k: BoundKind): BoundKind {
    match k
    case ExclStart => InclEnd
    case InclStart => ExclEnd
    case ExclEnd => InclStart
    case InclEnd => ExclStart
  }

  function ReverseKind(k: BoundKind): BoundKind {
    match k
    case ExclStart => ExclEnd
    case InclStart => InclEnd
    case ExclEnd => ExclStart
    case InclEnd => InclStart
  }

  /** `prefix_equality_tri_compare`: a prefix is equal to what extends it. */
  function PrefixCompare(p: Prefix, q: Prefix): int {
    if p == [] || q == [] then 0
    else if p[0] != q[0] then Sign(p[0], q[0])
    else PrefixCompare(p[1..], q[1..])
  }

  /** `bound_view::tri_compare`, with the branches collapsed. */
  function TriCompare(p: Prefix, w1: int, q: Prefix, w2: int): int {
    var res := PrefixCompare(p, q);
    if res != 0 then res
    else Sign(if |p| <= |q| then 2 * w1 else 1, if |q| <= |p| then 2 * w2 else 1)
  }

  /** The branches that were collapsed. */
  lemma CollapsedBranches(p: Prefix, w1: int, q: Prefix, w2: int)
    requires PrefixCompare(p, q) == 0
    ensures TriCompare(p, w1, q, w2) ==
      if |p| == |q| then Sign(w1, w2)
      else if |p| < |q| then (if w1 <= 0 then -1 else 1)
      else if w2 <= 0 then 1 else -1
  {
  }

  /** Prefix equality alone is not transitive. */
  lemma PrefixEqualityNotTransitive()
    ensures PrefixCompare([1], []) == 0 && PrefixCompare([], [2]) == 0 && PrefixCompare([1], [2]) != 0
  {
  }

  // ---------------------------------------------------------------- what it orders

  /** An end mark that comes before or after all components, by its weight. */
  datatype Item = Component(value: int) | EndMark(weight: int)

  function CompareItems(a: Item, b: Item): int {
    match (a, b)
    case (Component(x), Component(y)) => Sign(x, y)
    case (EndMark(v), EndMark(w)) => Sign(v, w)
    case (EndMark(v), Component(_)) => if v <= 0 then -1 else 1
    case (Component(_), EndMark(w)) => if w <= 0 then 1 else -1
  }

  function Lexicographic(a: seq<Item>, b: seq<Item>): int {
    if a == [] || b == [] then Sign(|a|, |b|)
    else if a[0] != b[0] then CompareItems(a[0], b[0])
    else Lexicographic(a[1..], b[1..])
  }

  /** The components, closed by the mark. */
  function Marked(p: Prefix, w: int): seq<Item> {
    if p == [] then [EndMark(w)] else [Component(p[0])] + Marked(p[1..], w)
  }

  /** The comparison is the lexicographic one of the marked prefixes. */
  lemma {:induction false} TriCompareIsLexicographic(p: Prefix, w1: int, q: Prefix, w2: int)
    ensures TriCompare(p, w1, q, w2) == Lexicographic(Marked(p, w1), Marked(q, w2))
  {
    if p != [] && q != [] {
      TriCompareIsLexicographic(p[1..], w1, q[1..], w2);
    }
  }

  lemma ItemsTransitive(a: Item, b: Item, c: Item)
    requires CompareItems(a, b) <= 0 && CompareItems(b, c) <= 0
    ensures CompareItems(a, c) <= 0
    ensures CompareItems(a, c) == 0 <==> a == c
    ensures CompareItems(a, c) == 0 ==> a == b
  {
  }

  lemma {:induction false} LexicographicTransitive(a: seq<Item>, b: seq<Item>, c: seq<Item>)
    requires Lexicographic(a, b) <= 0 && Lexicographic(b, c) <= 0
    ensures Lexicographic(a, c) <= 0
  {
    if a != [] && b != [] && c != [] {
      ItemsTransitive(a[0], b[0], c[0]);
      if a[0] == b[0] == c[0] {
        LexicographicTransitive(a[1..], b[1..], c[1..]);
      }
    }
  }

  lemma {:induction false} LexicographicTotal(a: seq<Item>, b: seq<Item>)
    ensures Lexicographic(a, b) == -Lexicographic(b, a)
    ensures Lexicographic(a, b) == 0 <==> a == b
  {
    if a != [] && b != [] && a[0] == b[0] {
      LexicographicTotal(a[1..], b[1..]);
      assert a == [a[0]] + a[1..] && b == [b[0]] + b[1..];
    }
  }

  lemma {:induction false} MarkedInjective(p: Prefix, v: int, q: Prefix, w: int)
    requires Marked(p, v) == Marked(q, w)
    ensures p == q && v == w
  {
    if p != [] && q != [] {
      assert Marked(p, v)[1..] == Marked(p[1..], v) && Marked(q, w)[1..] == Marked(q[1..], w);
      MarkedInjective(p[1..], v, q[1..], w);
      assert p == [p[0]] + p[1..] && q == [q[0]] + q[1..];
    } else {
      assert Marked(p, v)[0] == Marked(q, w)[0];
    }
  }

  /** It is a total order on prefixes with weights. */
  lemma TotalOrder(p: Prefix, u: int, q: Prefix, v: int, r: Prefix, w: int)
    ensures TriCompare(p, u, q, v) == -TriCompare(q, v, p, u)
    ensures TriCompare(p, u, q, v) == 0 <==> p == q && u == v
    ensures TriCompare(p, u, q, v) <= 0 && TriCompare(q, v, r, w) <= 0 ==> TriCompare(p, u, r, w) <= 0
  {
    hide TriCompare, Lexicographic, Marked;
    TriCompareIsLexicographic(p, u, q, v);
    TriCompareIsLexicographic(q, v, p, u);
    TriCompareIsLexicographic(q, v, r, w);
    TriCompareIsLexicographic(p, u, r, w);
    LexicographicTotal(Marked(p, u), Marked(q, v));
    if TriCompare(p, u, q, v) <= 0 && TriCompare(q, v, r, w) <= 0 {
      LexicographicTransitive(Marked(p, u), Marked(q, v), Marked(r, w));
    }
    if TriCompare(p, u, q, v) == 0 {
      MarkedInjective(p, u, q, v);
    }
  }

  // ---------------------------------------------------------------- bounds of ranges

  datatype BoundView = BoundView(prefix: Prefix, kind: BoundKind)

  datatype RangeBound = RangeBound(value: Prefix, inclusive: bool)

  datatype Range = Range(start: Option<RangeBound>, end: Option<RangeBound>)

  /** `from_range_start` and `from_range_end`. */
  function RangeStart(r: Range): BoundView {
    match r.start
    case None => BoundView([], InclStart)
    case Some(b) => BoundView(b.value, if b.inclusive then InclStart else ExclStart)
  }

  function RangeEnd(r: Range): BoundView {
    match r.end
    case None => BoundView([], InclEnd)
    case Some(b) => BoundView(b.value, if b.inclusive then InclEnd else ExclEnd)
  }

  function CompareToKey(b: BoundView, key: Prefix): int {
    TriCompare(b.prefix, Weight(b.kind), key, 0)
  }

  /** The range contains a key, with a bound standing for all that extends it. */
  ghost predicate Contains(r: Range, key: Prefix) {
    && (r.start.Some? ==>
          var c := PrefixCompare(r.start.value.value, key);
          c < 0 || (c == 0 && r.start.value.inclusive))
    && (r.end.Some? ==>
          var c := PrefixCompare(key, r.end.value.value);
          c < 0 || (c == 0 && r.end.value.inclusive))
  }

  /** A key with all its components lies between the bounds of a range exactly when the range contains it. */
  lemma BetweenBounds(r: Range, key: Prefix)
    requires r.start.Some? ==> |r.start.value.value| <= |key|
    requires r.end.Some? ==> |r.end.value.value| <= |key|
    ensures CompareToKey(RangeStart(r), key) < 0 < CompareToKey(RangeEnd(r), key) <==> Contains(r, key)
  {
    if r.end.Some? {
      PrefixCompareReverses(key, r.end.value.value);
    }
  }

  lemma {:induction false} PrefixCompareReverses(p: Prefix, q: Prefix)
    ensures PrefixCompare(p, q) == -PrefixCompare(q, p)
  {
    if p != [] && q != [] && p[0] == q[0] {
      PrefixCompareReverses(p[1..], q[1..]);
    }
  }

  /** `adjacent`. */
  predicate Adjacent(b: BoundView, c: BoundView) {
    InvertKind(c.kind) == b.kind && b.prefix == c.prefix
  }

  /** Adjacent bounds are two different places with no key between them, of any number of components. */
  lemma NothingBetweenAdjacent(b: BoundView, c: BoundView, key: Prefix)
    requires Adjacent(b, c)
    ensures Adjacent(c, b) && TriCompare(b.prefix, Weight(b.kind), c.prefix, Weight(c.kind)) != 0
    ensures CompareToKey(b, key) < 0 <==> CompareToKey(c, key) < 0
  {
    SamePrefix(b.prefix);
  }

  lemma {:induction false} SamePrefix(p: Prefix)
    ensures PrefixCompare(p, p) == 0
  {
    if p != [] {
      SamePrefix(p[1..]);
    }
  }

  /** The components in the opposite order. */
  function Opposite(p: Prefix): (r: Prefix)
    ensures |r| == |p|
  {
    if p == [] then [] else [-p[0]] + Opposite(p[1..])
  }

  lemma {:induction false} OppositeCompare(p: Prefix, q: Prefix)
    ensures PrefixCompare(Opposite(p), Opposite(q)) == -PrefixCompare(p, q)
  {
    if p != [] && q != [] && p[0] == q[0] {
      OppositeCompare(p[1..], q[1..]);
      assert Opposite(p)[1..] == Opposite(p[1..]) && Opposite(q)[1..] == Opposite(q[1..]);
    }
  }

  /** Reversing the kinds of bounds reverses their order where the components are in the opposite order. */
  lemma ReverseKindReverses(b: BoundView, c: BoundView)
    ensures TriCompare(Opposite(b.prefix), Weight(ReverseKind(b.kind)), Opposite(c.prefix), Weight(ReverseKind(c.kind)))
      == -TriCompare(b.prefix, Weight(b.kind), c.prefix, Weight(c.kind))
  {
    OppositeCompare(b.prefix, c.prefix);
  }
}
