// The generation engine: `step` of src/main.rs and the reference semantics
// it is proved against (Conway's B3/S23 rule on a torus).

module Life {
  import opened Grid

  /** 1 for a live cell, 0 for a dead one. */
  function Bit(b: bool): nat
  {
    if b then 1 else 0
  }

  /** The number of live cells in s. */
  function LiveCount(s: seq<bool>): (c: nat)
    ensures c <= |s|
  {
    if s == [] then 0 else LiveCount(s[..|s| - 1]) + Bit(s[|s| - 1])
  }

  /** Counting one more cell adds one exactly when that cell is live. */
  lemma LiveCountExtend(s: seq<bool>, i: nat)
    requires i < |s|
    ensures LiveCount(s[..i + 1]) == LiveCount(s[..i]) + Bit(s[i])
  {
    assert s[..i + 1][..i] == s[..i];
  }

  /** A prefix never holds more live cells than the whole sequence. */
  lemma {:induction false} LiveCountPrefix(s: seq<bool>, i: nat)
    requires i <= |s|
    ensures LiveCount(s[..i]) <= LiveCount(s)
  {
    if i < |s| {
      assert s[..|s| - 1][..i] == s[..i];
      LiveCountPrefix(s[..|s| - 1], i);
      assert s[..|s|] == s;
    } else {
      assert s[..i] == s;
    }
  }

  /** No live cell at all exactly when the count is zero. */
  lemma {:induction false} LiveCountZero(s: seq<bool>)
    ensures LiveCount(s) == 0 <==> forall k :: 0 <= k < |s| ==> !s[k]
  {
    if s != [] {
      var t := s[..|s| - 1];
      LiveCountZero(t);
      assert forall k :: 0 <= k < |t| ==> t[k] == s[k];
    }
  }

  /** Every cell is live exactly when the count is the length. */
  lemma {:induction false} LiveCountFull(s: seq<bool>)
    ensures LiveCount(s) == |s| <==> forall k :: 0 <= k < |s| ==> s[k]
  {
    if s != [] {
      var t := s[..|s| - 1];
      LiveCountFull(t);
      assert forall k :: 0 <= k < |t| ==> t[k] == s[k];
    }
  }

  function Min(a: nat, b: nat): nat
  {
    if a <= b then a else b
  }

  /**
   * Conway's rule B3/S23: a live cell survives with two or three live
   * neighbours, a dead cell is born with exactly three.
   */
  predicate Rule(alive: bool, n: nat)
  {
    if alive then n == 2 || n == 3 else n == 3
  }

  /** The eight Moore offsets, in the order the source gathers them. */
  const MooreOffsets: seq<(int, int)> :=
    [(-1, -1), (0, -1), (1, -1), (-1, 0), (1, 0), (-1, 1), (0, 1), (1, 1)]

  /**
   * The cell at coordinates (cx, cy), each at most one step off the board,
   * wrapped around the torus.
   */
  function At(board: seq<bool>, w: nat, h: nat, cx: int, cy: int): bool
    requires -1 <= cx <= w && -1 <= cy <= h && 0 < w && 0 < h && w * h <= |board|
  {
    Cell(board, w, h, Wrap(cx, w), Wrap(cy, h))
  }

  /** The states of the eight toroidal Moore neighbours of (x, y). */
  function MooreNeighbours(board: seq<bool>, w: nat, h: nat, x: nat, y: nat): (s: seq<bool>)
    requires x < w && y < h && w * h <= |board|
    ensures |s| == 8
    ensures forall k :: 0 <= k < 8 ==> s[k] == At(board, w, h, x + MooreOffsets[k].0, y + MooreOffsets[k].1)
  {
    seq(8, k requires 0 <= k < 8 => At(board, w, h, x + MooreOffsets[k].0, y + MooreOffsets[k].1))
  }

  /**
   * The neighbour list as `step` gathers it, through the conditional
   * wrap of Prev and Succ, agrees with the modular Moore neighbourhood.
   */
  lemma WrappedNeighbours(board: seq<bool>, w: nat, h: nat, x: nat, y: nat)
    requires x < w && y < h && w * h <= |board|
    ensures MooreNeighbours(board, w, h, x, y) ==
      var l, r, up, down := Prev(x, w), Succ(x, w), Prev(y, h), Succ(y, h);
      [Cell(board, w, h, l, up), Cell(board, w, h, x, up), Cell(board, w, h, r, up),
       Cell(board, w, h, l, y), Cell(board, w, h, r, y),
       Cell(board, w, h, l, down), Cell(board, w, h, x, down), Cell(board, w, h, r, down)]
  {
    var l, r, up, down := Prev(x, w), Succ(x, w), Prev(y, h), Succ(y, h);
    NeighbourAt(board, w, h, x, y, 0, l, up);
    NeighbourAt(board, w, h, x, y, 1, x, up);
    NeighbourAt(board, w, h, x, y, 2, r, up);
    NeighbourAt(board, w, h, x, y, 3, l, y);
    NeighbourAt(board, w, h, x, y, 4, r, y);
    NeighbourAt(board, w, h, x, y, 5, l, down);
    NeighbourAt(board, w, h, x, y, 6, x, down);
    NeighbourAt(board, w, h, x, y, 7, r, down);
  }

  /** Element k of the neighbourhood, for coordinates already wrapped. */
  lemma NeighbourAt(board: seq<bool>, w: nat, h: nat, x: nat, y: nat, k: nat, cx: nat, cy: nat)
    requires x < w && y < h && w * h <= |board| && k < 8
    requires cx == Wrap(x + MooreOffsets[k].0, w) && cy == Wrap(y + MooreOffsets[k].1, h)
    ensures cx < w && cy < h
    ensures MooreNeighbours(board, w, h, x, y)[k] == Cell(board, w, h, cx, cy)
  {
  }

  /** The number of live toroidal Moore neighbours of (x, y). */
  function MooreCount(board: seq<bool>, w: nat, h: nat, x: nat, y: nat): (n: nat)
    requires x < w && y < h && w * h <= |board|
    ensures n <= 8
  {
    LiveCount(MooreNeighbours(board, w, h, x, y))
  }

  /** The next state of cell (x, y) under B3/S23. */
  predicate NextCell(board: seq<bool>, w: nat, h: nat, x: nat, y: nat)
    requires x < w && y < h && w * h <= |board|
  {
    Rule(Cell(board, w, h, x, y), MooreCount(board, w, h, x, y))
  }

  /**
   * The next generation of the whole board: every cell of the w x h grid
   * follows NextCell on the old board; cells beyond w*h (if the board is
   * longer) are kept as they are.
   */
  function NextGeneration(board: seq<bool>, w: nat, h: nat): (r: seq<bool>)
    requires w * h <= |board|
    ensures |r| == |board|
  {
    seq(|board|, i requires 0 <= i < |board| =>
      if i < w * h then (IdxSplit(i, w, h); NextCell(board, w, h, i % w, i / w)) else board[i])
  }

  /** Cell (x, y) of the next generation is NextCell of the old board. */
  lemma NextGenerationAt(board: seq<bool>, w: nat, h: nat, x: nat, y: nat)
    requires x < w && y < h && w * h <= |board|
    ensures Idx(x, y, w) < |board|
    ensures NextGeneration(board, w, h)[Idx(x, y, w)] == NextCell(board, w, h, x, y)
  {
    IdxInBounds(x, y, w, h);
    IdxCoordinates(x, y, w);
  }

  /**
   * Locality: a cell's next state depends only on its own old state and
   * those of its eight neighbours, whatever the rest of the board holds.
   */
  lemma NextGenerationLocal(b1: seq<bool>, b2: seq<bool>, w: nat, h: nat, x: nat, y: nat)
    requires x < w && y < h && w * h <= |b1| && w * h <= |b2|
    requires Cell(b1, w, h, x, y) == Cell(b2, w, h, x, y)
    requires MooreNeighbours(b1, w, h, x, y) == MooreNeighbours(b2, w, h, x, y)
    ensures Idx(x, y, w) < |b1| && Idx(x, y, w) < |b2|
    ensures NextGeneration(b1, w, h)[Idx(x, y, w)] == NextGeneration(b2, w, h)[Idx(x, y, w)]
  {
    NextGenerationAt(b1, w, h, x, y);
    NextGenerationAt(b2, w, h, x, y);
  }

  /**
   * On a board one cell wide the left and the right neighbour of a cell
   * are the cell itself, so it is counted twice among its own neighbours.
   */
  lemma SingleColumnSeesItself(board: seq<bool>, h: nat, y: nat)
    requires y < h && h <= |board|
    ensures MooreNeighbours(board, 1, h, 0, y)[3] == Cell(board, 1, h, 0, y)
    ensures MooreNeighbours(board, 1, h, 0, y)[4] == Cell(board, 1, h, 0, y)
  {
  }

  /** A live cell lives on exactly when two or three of its neighbours are live. */
  lemma LiveCellRule(board: seq<bool>, w: nat, h: nat, x: nat, y: nat)
    requires x < w && y < h && w * h <= |board| && Cell(board, w, h, x, y)
    ensures Idx(x, y, w) < |board|
    ensures NextGeneration(board, w, h)[Idx(x, y, w)] <==> 2 <= MooreCount(board, w, h, x, y) <= 3
  {
    NextGenerationAt(board, w, h, x, y);
  }

  /** A dead cell comes to life exactly when three of its neighbours are live. */
  lemma DeadCellRule(board: seq<bool>, w: nat, h: nat, x: nat, y: nat)
    requires x < w && y < h && w * h <= |board| && !Cell(board, w, h, x, y)
    ensures Idx(x, y, w) < |board|
    ensures NextGeneration(board, w, h)[Idx(x, y, w)] <==> MooreCount(board, w, h, x, y) == 3
  {
    NextGenerationAt(board, w, h, x, y);
  }

  /** A cell with no live neighbour is dead in the next generation. */
  lemma IsolatedCellDies(board: seq<bool>, w: nat, h: nat, x: nat, y: nat)
    requires x < w && y < h && w * h <= |board|
    requires forall k :: 0 <= k < 8 ==> !MooreNeighbours(board, w, h, x, y)[k]
    ensures Idx(x, y, w) < |board| && !NextGeneration(board, w, h)[Idx(x, y, w)]
  {
    LiveCountZero(MooreNeighbours(board, w, h, x, y));
    NextGenerationAt(board, w, h, x, y);
  }

  /** A cell whose eight neighbours are all live is dead in the next generation. */
  lemma CrowdedCellDies(board: seq<bool>, w: nat, h: nat, x: nat, y: nat)
    requires x < w && y < h && w * h <= |board|
    requires forall k :: 0 <= k < 8 ==> MooreNeighbours(board, w, h, x, y)[k]
    ensures Idx(x, y, w) < |board| && !NextGeneration(board, w, h)[Idx(x, y, w)]
  {
    LiveCountFull(MooreNeighbours(board, w, h, x, y));
    NextGenerationAt(board, w, h, x, y);
  }

  /**
   * The neighbour count of `step`: it walks the neighbour buffer and stops
   * as soon as the count exceeds 3, so it yields the true count capped at
   * 4. The cap is invisible to the rule.
   */
  method CountLive(nbrs: seq<bool>) returns (n: nat)
    ensures n == Min(LiveCount(nbrs), 4)
    ensures forall alive: bool :: Rule(alive, n) == Rule(alive, LiveCount(nbrs))
  {
    n := 0;
    var i := 0;
    while i < |nbrs|
      invariant 0 <= i <= |nbrs|
      invariant n == LiveCount(nbrs[..i]) && n <= 3
    {
      LiveCountExtend(nbrs, i);
      if nbrs[i] {
        n := n + 1;
        if n > 3 {
          LiveCountPrefix(nbrs, i + 1);
          break;
        }
      }
      i := i + 1;
    }
    assert i == |nbrs| ==> nbrs[..i] == nbrs;
  }

  /**
   * The body of the inner loop of `step` for cell (x, y): gather the eight
   * neighbours from the old board through the wrapped coordinates, count
   * them, and overwrite the cell's slot of the new board under B3/S23.
   * Only that slot changes.
   */
  method UpdateCell(board: seq<bool>, w: nat, h: nat, x: nat, y: nat, up: nat, down: nat,
                    newBoard: array<bool>)
    requires x < w && y < h && w * h <= |board| && newBoard.Length == |board|
    requires up == Prev(y, h) && down == Succ(y, h)
    modifies newBoard
    ensures Idx(x, y, w) < |board|
    ensures newBoard[Idx(x, y, w)] == NextCell(board, w, h, x, y)
    ensures forall k :: 0 <= k < |board| && k != Idx(x, y, w) ==> newBoard[k] == old(newBoard[k])
  {
    var l := Prev(x, w);
    var r := Succ(x, w);

    var nbrs := [false, false, false, false, false, false, false, false];
    nbrs := nbrs[0 := Cell(board, w, h, l, up)];
    nbrs := nbrs[1 := Cell(board, w, h, x, up)];
    nbrs := nbrs[2 := Cell(board, w, h, r, up)];
    nbrs := nbrs[3 := Cell(board, w, h, l, y)];
    nbrs := nbrs[4 := Cell(board, w, h, r, y)];
    nbrs := nbrs[5 := Cell(board, w, h, l, down)];
    nbrs := nbrs[6 := Cell(board, w, h, x, down)];
    nbrs := nbrs[7 := Cell(board, w, h, r, down)];
    WrappedNeighbours(board, w, h, x, y);
    assert nbrs == MooreNeighbours(board, w, h, x, y);

    var n := CountLive(nbrs);

    IdxInBounds(x, y, w, h);
    var i := Idx(x, y, w);
    assert NextCell(board, w, h, x, y) == Rule(board[i], n);
    newBoard[i] := board[i];
    if board[i] {
      if n <= 1 {
        newBoard[i] := false;   // underpopulation
      } else if n <= 3 {
        newBoard[i] := true;    // survival
      } else {
        newBoard[i] := false;   // overpopulation
      }
      return;
    }
    if n == 3 {
      newBoard[i] := true;      // reproduction
    }
  }

  /**
   * One generation, as `step` computes it: a copy of the board is
   * overwritten cell by cell, row by row, reading only the old board.
   * The result is exactly NextGeneration, so the sweep order is
   * unobservable and the length is preserved.
   */
  method Step(board: seq<bool>, w: nat, h: nat) returns (next: seq<bool>)
    requires w * h <= |board|
    ensures next == NextGeneration(board, w, h)
    ensures |next| == |board|
    ensures w == 0 || h == 0 ==> next == board
  {
    var newBoard := new bool[|board|](i requires 0 <= i < |board| => board[i]);
    ghost var target := NextGeneration(board, w, h);
    for y := 0 to h
      invariant forall k :: 0 <= k < |board| ==>
        newBoard[k] == if k < Idx(0, y, w) then target[k] else board[k]
    {
      var up := Prev(y, h);
      var down := Succ(y, h);
      for x := 0 to w
        invariant forall k :: 0 <= k < |board| ==>
          newBoard[k] == if k < Idx(x, y, w) then target[k] else board[k]
      {
        UpdateCell(board, w, h, x, y, up, down, newBoard);
        NextGenerationAt(board, w, h, x, y);
        assert Idx(x + 1, y, w) == Idx(x, y, w) + 1;
      }
      assert Idx(w, y, w) == Idx(0, y + 1, w);
    }
    assert Idx(0, h, w) == w * h;
    next := newBoard[..];
  }
}
