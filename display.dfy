// The text that `print_screen` (src/main.rs) builds for a board: one line
// per row, one glyph per cell, each line ended by a line break. Writing it
// to the terminal, the cursor escape and the header lines are not modelled.

module Display {
  import opened Grid

  /** FULL BLOCK, drawn for a live cell. */
  const LiveGlyph: char := '\U{2588}'
  /** LIGHT SHADE, drawn for a dead cell. */
  const DeadGlyph: char := '\U{2591}'

  /** The glyph of a cell: it tells live from dead and is never a line break. */
  function Glyph(alive: bool): (g: char)
    ensures g == LiveGlyph <==> alive
    ensures g != '\n'
  {
    if alive then LiveGlyph else DeadGlyph
  }

  /** The text of row y: w glyphs and a line break. */
  function Line(b: seq<bool>, w: nat, h: nat, y: nat): (s: string)
    requires y < h && w * h <= |b|
    ensures |s| == w + 1 && s[w] == '\n'
  {
    seq(w, x requires 0 <= x < w => Glyph(Cell(b, w, h, x, y))) + ['\n']
  }

  /** The text of the first n rows. */
  function Lines(b: seq<bool>, w: nat, h: nat, n: nat): (s: string)
    requires n <= h && w * h <= |b|
    ensures |s| == n * (w + 1)
  {
    if n == 0 then [] else Lines(b, w, h, n - 1) + Line(b, w, h, n - 1)
  }

  /** The whole picture of the board. */
  function Picture(b: seq<bool>, w: nat, h: nat): (s: string)
    requires w * h <= |b|
    ensures |s| == w * h + h
  {
    Lines(b, w, h, h)
  }

  /** Row y occupies the w + 1 characters starting at y * (w + 1). */
  lemma {:induction false} LinesAt(b: seq<bool>, w: nat, h: nat, n: nat, y: nat, x: nat)
    requires y < n <= h && x <= w && w * h <= |b|
    ensures y * (w + 1) + x < n * (w + 1)
    ensures Lines(b, w, h, n)[y * (w + 1) + x] == Line(b, w, h, y)[x]
  {
    var prefix := Lines(b, w, h, n - 1);
    assert |prefix| == (n - 1) * (w + 1);
    if y < n - 1 {
      LinesAt(b, w, h, n - 1, y, x);
    } else {
      assert y * (w + 1) == |prefix|;
    }
  }

  /**
   * The picture has h lines of w + 1 characters; the character at row y,
   * column x is the full block exactly when cell (x, y) is live (the light
   * shade otherwise), and each line ends with a line break.
   */
  lemma PictureAt(b: seq<bool>, w: nat, h: nat, x: nat, y: nat)
    requires x < w && y < h && w * h <= |b|
    ensures |Picture(b, w, h)| == w * h + h
    ensures y * (w + 1) + w < |Picture(b, w, h)|
    ensures Picture(b, w, h)[y * (w + 1) + x] == (if Cell(b, w, h, x, y) then LiveGlyph else DeadGlyph)
    ensures Picture(b, w, h)[y * (w + 1) + w] == '\n'
  {
    LinesAt(b, w, h, h, y, x);
    LinesAt(b, w, h, h, y, w);
  }

  /**
   * The string-building loop of `print_screen`: row by row, push one glyph
   * per cell, then a line break. The result is w*h + h characters long;
   * its UTF-8 byte length is not modelled.
   */
  method Render(b: seq<bool>, w: nat, h: nat) returns (s: string)
    requires w * h <= |b|
    ensures s == Picture(b, w, h)
    ensures |s| == w * h + h
  {
    s := [];
    for y := 0 to h
      invariant s == Lines(b, w, h, y)
    {
      for x := 0 to w
        invariant s == Lines(b, w, h, y) + Line(b, w, h, y)[..x]
      {
        if Cell(b, w, h, x, y) {
          s := s + [LiveGlyph];
        } else {
          s := s + [DeadGlyph];
        }
        assert Line(b, w, h, y)[..x + 1] == Line(b, w, h, y)[..x] + [Line(b, w, h, y)[x]];
      }
      s := s + ['\n'];
      assert Line(b, w, h, y)[..w] + ['\n'] == Line(b, w, h, y);
    }
  }
}
