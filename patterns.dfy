// A concrete board on which the next state of one cell is worked out:
// a birth across the corner of the torus.

module Patterns {
  import opened Grid
  import opened Life

  /** The live count of eight cells, term by term. */
  lemma LiveCountOfEight(s: seq<bool>)
    requires |s| == 8
    ensures LiveCount(s) == Bit(s[0]) + Bit(s[1]) + Bit(s[2]) + Bit(s[3])
                          + Bit(s[4]) + Bit(s[5]) + Bit(s[6]) + Bit(s[7])
  {
    assert s[..0] == [];
    LiveCountExtend(s, 0);
    LiveCountExtend(s, 1);
    LiveCountExtend(s, 2);
    LiveCountExtend(s, 3);
    LiveCountExtend(s, 4);
    LiveCountExtend(s, 5);
    LiveCountExtend(s, 6);
    LiveCountExtend(s, 7);
    assert s[..8] == s;
  }

  /** The next state of (x, y), with its eight neighbours read off the torus. */
  lemma NextAt(board: seq<bool>, w: nat, h: nat, x: nat, y: nat)
    requires x < w && y < h && w * h <= |board|
    ensures Idx(x, y, w) < |board|
    ensures NextGeneration(board, w, h)[Idx(x, y, w)] ==
      Rule(Cell(board, w, h, x, y),
           Bit(At(board, w, h, x - 1, y - 1)) + Bit(At(board, w, h, x, y - 1)) + Bit(At(board, w, h, x + 1, y - 1))
         + Bit(At(board, w, h, x - 1, y)) + Bit(At(board, w, h, x + 1, y))
         + Bit(At(board, w, h, x - 1, y + 1)) + Bit(At(board, w, h, x, y + 1)) + Bit(At(board, w, h, x + 1, y + 1)))
  {
    NextGenerationAt(board, w, h, x, y);
    LiveCountOfEight(MooreNeighbours(board, w, h, x, y));
  }

  /**
   * Only (3,3), (0,3) and (3,0) are live: they are the neighbours of (0,0)
   * across the corner of the torus, so (0,0) is born.
   */
  const Corner: seq<bool> :=
    [false, false, false, true,
     false, false, false, false,
     false, false, false, false,
     true,  false, false, true]

  lemma CornerBirth()
    ensures MooreCount(Corner, 4, 4, 0, 0) == 3
    ensures !Corner[0] && NextGeneration(Corner, 4, 4)[0]
  {
    NextAt(Corner, 4, 4, 0, 0);
    LiveCountOfEight(MooreNeighbours(Corner, 4, 4, 0, 0));
  }
}
