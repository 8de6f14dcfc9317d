// Row-major addressing and toroidal wrap-around of the board (src/main.rs).
//
// A board of width w and height h is a flat sequence of cells; cell (x, y)
// lives at index y*w + x. Neighbour coordinates wrap around both edges.

module Grid {

  /** The row-major index of cell (x, y) on a board of width w. */
  function Idx(x: nat, y: nat, w: nat): nat
  {
    y * w + x
  }

  /** Every in-range cell has an index below w*h. */
  lemma IdxInBounds(x: nat, y: nat, w: nat, h: nat)
    requires x < w && y < h
    ensures Idx(x, y, w) < w * h
  {
    assert y + 1 <= h;
    MulMonotone(y + 1, h, w);
    assert Idx(x, y, w) < (y + 1) * w;
  }

  lemma MulMonotone(a: nat, b: nat, c: nat)
    requires a <= b
    ensures a * c <= b * c
  {
    var d := b - a;
    assert b * c == a * c + d * c;
  }

  /** An index determines its coordinates: column is the remainder, row the quotient. */
  lemma IdxCoordinates(x: nat, y: nat, w: nat)
    requires x < w
    ensures Idx(x, y, w) % w == x && Idx(x, y, w) / w == y
  {
    var i := Idx(x, y, w);
    var q, r := i / w, i % w;
    assert i == q * w + r && 0 <= r < w;
    if q < y {
      MulMonotone(q + 1, y, w);
      assert false;
    } else if q > y {
      MulMonotone(y + 1, q, w);
      assert false;
    }
  }

  /** Distinct in-range cells have distinct indices. */
  lemma IdxInjective(x1: nat, y1: nat, x2: nat, y2: nat, w: nat)
    requires x1 < w && x2 < w
    requires Idx(x1, y1, w) == Idx(x2, y2, w)
    ensures x1 == x2 && y1 == y2
  {
    IdxCoordinates(x1, y1, w);
    IdxCoordinates(x2, y2, w);
  }

  /** The in-range index i splits back into the cell (i % w, i / w). */
  lemma IdxSplit(i: nat, w: nat, h: nat)
    requires i < w * h
    ensures 0 < w && i % w < w && i / w < h
    ensures Idx(i % w, i / w, w) == i
  {
    if i / w >= h {
      MulMonotone(h, i / w, w);
      assert false;
    }
  }

  /**
   * A coordinate at most one step outside [0, n), brought back onto the
   * cycle of length n.
   */
  function Wrap(c: int, n: nat): (r: nat)
    requires 0 < n && -1 <= c <= n
    ensures r < n
  {
    if c < 0 then c + n else if c == n then 0 else c
  }

  /** Wrapping is reduction modulo n. */
  lemma WrapIsMod(c: int, n: nat)
    requires 0 < n && -1 <= c <= n
    ensures Wrap(c, n) == c % n
  {
  }

  /**
   * The coordinate before c on a cycle of length n: `c.checked_sub(1)`
   * falling back to n - 1 when c is 0. It agrees with the modular
   * predecessor, so the wrap is toroidal.
   */
  function Prev(c: nat, n: nat): (r: nat)
    requires c < n
    ensures r < n
    ensures r == (c - 1) % n
  {
    WrapIsMod(c - 1, n);
    if c == 0 then n - 1 else c - 1
  }

  /**
   * The coordinate after c on a cycle of length n: c + 1, replaced by 0
   * when it reaches n. It agrees with the modular successor.
   */
  function Succ(c: nat, n: nat): (r: nat)
    requires c < n
    ensures r < n
    ensures r == (c + 1) % n
  {
    WrapIsMod(c + 1, n);
    if c + 1 == n then 0 else c + 1
  }

  /** Stepping back and forth along a row or column returns to the start. */
  lemma PrevSuccInverse(c: nat, n: nat)
    requires c < n
    ensures Succ(Prev(c, n), n) == c
    ensures Prev(Succ(c, n), n) == c
  {
  }

  /** The cell (x, y) of a board that holds at least w*h cells. */
  function Cell(board: seq<bool>, w: nat, h: nat, x: nat, y: nat): bool
    requires x < w && y < h && w * h <= |board|
  {
    IdxInBounds(x, y, w, h);
    board[Idx(x, y, w)]
  }
}
