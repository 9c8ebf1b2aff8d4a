/**
 Axial hex coordinates as the game uses them through the `hexx` crate:
 addition, the hex distance, the filled disk `range(n)` and the arena of
 radius `ARENA_RADIUS` around the origin.
 */
module Hexes {
  import opened Base

  /** An axial hex coordinate `(q, r)`. */
  datatype Hex = Hex(q: int, r: int)

  /** `Hex::ZERO`, the centre of the arena. */
  const Zero: Hex := Hex(0, 0)

  /** Radius of the playable arena (`ARENA_RADIUS` and `Arena::RADIUS`). */
  const ARENA_RADIUS: nat := 20

  function Abs(x: int): nat {
    if x < 0 then -x else x
  }

  function Add(a: Hex, b: Hex): Hex {
    Hex(a.q + b.q, a.r + b.r)
  }

  function Sub(a: Hex, b: Hex): Hex {
    Hex(a.q - b.q, a.r - b.r)
  }

  /** The largest of the three cube-coordinate magnitudes of `d` (`ulength`). */
  function Norm(d: Hex): nat {
    Max(Max(Abs(d.q), Abs(d.r)), Abs(d.q + d.r))
  }

  /** `unsigned_distance_to`: the length of the difference of two hexes. */
  function Distance(a: Hex, b: Hex): nat {
    Norm(Sub(a, b))
  }

  /** The distance is also half the sum of the three cube-coordinate differences. */
  lemma DistanceIsHalfSum(a: Hex, b: Hex)
    ensures var d := Sub(a, b);
      Distance(a, b) == (Abs(d.q) + Abs(d.r) + Abs(d.q + d.r)) / 2
  {
  }

  /** `h` lies in the hexagonal arena. */
  predicate InArena(h: Hex) {
    Distance(h, Zero) <= ARENA_RADIUS
  }

  /** The six unit steps between neighbouring hexes (the `EdgeDirection` offsets). */
  const Directions: set<Hex> := {Hex(1, 0), Hex(1, -1), Hex(0, -1), Hex(-1, 0), Hex(-1, 1), Hex(0, 1)}

  /** `d` is one of the six unit steps. */
  predicate IsUnit(d: Hex) {
    d in Directions
  }

  /**
   How far `h` lies along the unit step `d`: the cube coordinate that every
   step along `d` raises by one.
   */
  function Along(h: Hex, d: Hex): int
    requires IsUnit(d)
  {
    if d.q == 1 then h.q
    else if d.q == -1 then -h.q
    else if d.r == 1 then h.r
    else -h.r
  }

  /** One step along `d` advances one unit along it. */
  lemma AlongStep(h: Hex, d: Hex)
    requires IsUnit(d)
    ensures Along(Add(h, d), d) == Along(h, d) + 1
  {
  }

  /** No hex of the arena lies more than `ARENA_RADIUS` along any unit step, so a ray leaves the arena. */
  lemma AlongInArena(h: Hex, d: Hex)
    requires IsUnit(d) && InArena(h)
    ensures Along(h, d) <= ARENA_RADIUS
  {
  }

  // ---------------------------------------------------------------------
  // The filled disk `center.range(n)`, enumerated column by column: for
  // every `x` in `-n..=n`, the `y` in `max(-n, -x-n)..=min(n, n-x)`.
  // ---------------------------------------------------------------------

  /** The hexes `c + (x, y)` for `y` in `lo..=hi`. */
  function ColumnSeq(c: Hex, x: int, lo: int, hi: int): seq<Hex>
    decreases hi - lo
  {
    if lo > hi then [] else [Hex(c.q + x, c.r + lo)] + ColumnSeq(c, x, lo + 1, hi)
  }

  /** The disk's columns from offset `x` up to `n`. */
  function ColumnsFrom(c: Hex, n: int, x: int): seq<Hex>
    decreases n - x
  {
    if x > n then []
    else ColumnSeq(c, x, Max(-n, -x - n), Min(n, n - x)) + ColumnsFrom(c, n, x + 1)
  }

  /** `c.range(n)`: every hex within distance `n` of `c`, each once. */
  function DiskSeq(c: Hex, n: nat): (r: seq<Hex>)
    ensures NoDup(r)
    ensures forall h :: h in r <==> Distance(h, c) <= n
  {
    var m: int := n;
    ColumnsFromNoDup(c, m, -m);
    forall h ensures h in ColumnsFrom(c, m, -m) <==> Distance(h, c) <= n {
      ColumnsFromMembers(c, m, -m, h);
    }
    ColumnsFrom(c, m, -m)
  }

  lemma {:induction false} ColumnSeqMembers(c: Hex, x: int, lo: int, hi: int, h: Hex)
    ensures h in ColumnSeq(c, x, lo, hi) <==> h.q == c.q + x && lo <= h.r - c.r <= hi
    decreases hi - lo
  {
    if lo <= hi {
      ColumnSeqMembers(c, x, lo + 1, hi, h);
    }
  }

  lemma {:induction false} ColumnSeqNoDup(c: Hex, x: int, lo: int, hi: int)
    ensures NoDup(ColumnSeq(c, x, lo, hi))
    decreases hi - lo
  {
    if lo <= hi {
      ColumnSeqNoDup(c, x, lo + 1, hi);
      ColumnSeqMembers(c, x, lo + 1, hi, Hex(c.q + x, c.r + lo));
      NoDupAppend([Hex(c.q + x, c.r + lo)], ColumnSeq(c, x, lo + 1, hi));
    }
  }

  lemma {:induction false} ColumnsFromMembers(c: Hex, n: int, x: int, h: Hex)
    ensures h in ColumnsFrom(c, n, x) <==>
      var d := Sub(h, c);
      x <= d.q <= n && Max(-n, -d.q - n) <= d.r <= Min(n, n - d.q)
    decreases n - x
  {
    if x <= n {
      ColumnSeqMembers(c, x, Max(-n, -x - n), Min(n, n - x), h);
      ColumnsFromMembers(c, n, x + 1, h);
    }
  }

  lemma {:induction false} ColumnsFromNoDup(c: Hex, n: int, x: int)
    ensures NoDup(ColumnsFrom(c, n, x))
    decreases n - x
  {
    if x <= n {
      var col := ColumnSeq(c, x, Max(-n, -x - n), Min(n, n - x));
      ColumnSeqNoDup(c, x, Max(-n, -x - n), Min(n, n - x));
      ColumnsFromNoDup(c, n, x + 1);
      forall h | h in col ensures h !in ColumnsFrom(c, n, x + 1) {
        ColumnSeqMembers(c, x, Max(-n, -x - n), Min(n, n - x), h);
        ColumnsFromMembers(c, n, x + 1, h);
      }
      NoDupAppend(col, ColumnsFrom(c, n, x + 1));
    }
  }

  /** The arena disk `hexagon(Hex::ZERO, ARENA_RADIUS)`. */
  function ArenaDisk(): (r: set<Hex>)
    ensures forall h :: h in r <==> InArena(h)
  {
    var n: int := ARENA_RADIUS;
    set q, s | -n <= q <= n && -n <= s <= n && InArena(Hex(q, s)) :: Hex(q, s)
  }
}
