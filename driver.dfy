// The generation loop of `main` in src/main.rs: the board is replaced by
// the result of `step`, once per generation.

module Driver {
  import opened Life

  /** The board after k generations. */
  function Generation(board: seq<bool>, w: nat, h: nat, k: nat): (r: seq<bool>)
    requires w * h <= |board|
    ensures |r| == |board|
  {
    if k == 0 then board else NextGeneration(Generation(board, w, h, k - 1), w, h)
  }

  /** Running m generations and then n more is running m + n generations. */
  lemma {:induction false} GenerationAdd(board: seq<bool>, w: nat, h: nat, m: nat, n: nat)
    requires w * h <= |board|
    ensures Generation(Generation(board, w, h, m), w, h, n) == Generation(board, w, h, m + n)
  {
    if n > 0 {
      var mid := Generation(board, w, h, m);
      GenerationAdd(board, w, h, m, n - 1);
      assert Generation(mid, w, h, n - 1) == Generation(board, w, h, m + n - 1);
    }
  }

  /** A board that `step` maps to itself stays unchanged for ever. */
  lemma {:induction false} StillLifeForever(board: seq<bool>, w: nat, h: nat, k: nat)
    requires w * h <= |board|
    requires NextGeneration(board, w, h) == board
    ensures Generation(board, w, h, k) == board
  {
    if k > 0 {
      StillLifeForever(board, w, h, k - 1);
    }
  }

  /**
   * The loop of `main`: `step` is applied numGen times, each result
   * becoming the next input. Rendering and the pause between frames are
   * not modelled.
   */
  method Run(board: seq<bool>, w: nat, h: nat, numGen: nat) returns (last: seq<bool>)
    requires w * h <= |board|
    ensures last == Generation(board, w, h, numGen)
  {
    last := board;
    for i := 0 to numGen
      invariant last == Generation(board, w, h, i)
    {
      var next := Step(last, w, h);
      last := next;
    }
  }
}
