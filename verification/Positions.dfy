/** Positions in a partition, ordered as `position_in_partition::tri_compare` orders them.

    A clustering key is identified with its rank, a real number; any countable order of keys and
    prefix bounds embeds in the open interval (0, 1).  A position is a rank and a bound weight:
    weight 0 is the key itself, -1 the cut just before it, 1 the cut just after it.  A bound on a
    proper prefix is a cut with a rank of its own.  `Bottom` and `Top` are the two cuts of the empty
    prefix, `before_all_clustered_rows` and `after_all_clustered_rows`. */
module Positions {

  type Weight = w: int | -1 <= w <= 1

  datatype Pos = Pos(rank: real, w: Weight)

  const Bottom := Pos(0.0, -1)
  const Top := Pos(1.0, 1)

  /** The position of the row with the given key. */
  function K(r: real): Pos { Pos(r, 0) }

  predicate Lt(a: Pos, b: Pos) {
    a.rank < b.rank || (a.rank == b.rank && a.w < b.w)
  }

  predicate Le(a: Pos, b: Pos) { !Lt(b, a) }

  predicate IsRow(p: Pos) { p.w == 0 }

  /** `position_in_partition::before_key`: the cut before a row, any other position unchanged. */
  function BeforeKey(p: Pos): Pos { if p.w == 0 then Pos(p.rank, -1) else p }

  /** `position_in_partition::after_key`: the cut after a row, any other position unchanged. */
  function AfterKey(p: Pos): Pos { if p.w == 0 then Pos(p.rank, 1) else p }

  /** `no_clustering_row_between`: decided on the keys of the two positions alone. */
  predicate NoRowBetween(a: Pos, b: Pos) {
    a.rank == b.rank && (a.w != -1 || b.w != 1)
  }

  /** `no_clustering_row_between_weak`. */
  predicate NoRowBetweenWeak(a: Pos, b: Pos) {
    a.rank == b.rank && (a.w == 1 || b.w != 1)
  }

  /** How far a read from `lower` can go before it meets an entry at `q` or leaves its range. */
  function HorizonOf(q: Pos, upper: Pos): Pos {
    if Lt(q, upper) then BeforeKey(q) else upper
  }

  lemma HorizonBounds(lower: Pos, q: Pos, upper: Pos)
    requires !IsRow(lower) && Le(lower, upper) && Le(lower, q)
    ensures Le(lower, HorizonOf(q, upper)) && Le(HorizonOf(q, upper), q)
    ensures BeforeKey(lower) == lower == AfterKey(lower) && Le(lower, lower)
    ensures !IsRow(upper) && NoRowBetweenWeak(lower, q) ==> HorizonOf(q, upper) == lower
    ensures !NoRowBetweenWeak(lower, q) ==> Lt(lower, q)
  {
  }

  lemma LeavesEntry(p: Pos, upper: Pos)
    requires Lt(p, upper) && !IsRow(upper) && Le(upper, Top)
    ensures NoRowBetween(p, upper) ==> AfterKey(p) == upper
    ensures Lt(p, Top) && Le(p, AfterKey(p)) && !IsRow(AfterKey(p))
  {
  }

  lemma NextAfter(p: Pos, q: Pos)
    requires Lt(p, q)
    ensures Le(AfterKey(p), q)
  {
  }

  lemma Trichotomy(a: Pos, b: Pos)
    ensures Le(a, a) && (Le(a, b) ==> a == b || Lt(a, b))
  {
  }
}
