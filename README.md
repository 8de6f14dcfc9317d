# Game of Life on a torus — a Dafny model

The program is a terminal Game of Life. A board of `width` × `height` cells is
stored as a flat row-major `Vec<bool>` in which cell (x, y) sits at index
`y*w + x` (`idx`). Each generation, `step` copies the board. It then overwrites
the copy cell by cell under Conway's rule B3/S23: a live cell survives with two
or three live neighbours, and a dead cell is born with exactly three. All reads
come from the old board. The eight Moore neighbours wrap around both edges, so
the board is a torus. The neighbour count is a `u8` that stops counting once it
passes 3. `print_screen` turns a board into one line per row, using a full block
for a live cell and a light shade for a dead one.

The model has five modules:

- `Grid` (grid.dfy): row-major indexing, and the wrap of a coordinate one step
  before or after an edge. `Prev` and `Succ` are proved equal to the modular
  predecessor and successor.
- `Life` (life.dfy): the reference semantics, which are `LiveCount`,
  `MooreNeighbours`, `MooreCount`, `Rule`, `NextCell` and `NextGeneration`,
  together with the imperative `step`.
  - `Step` sweeps a fresh `array<bool>` copy of the board row by row.
  - `UpdateCell` is the inner-loop body.
  - `CountLive` is the capped counting loop.
  - `Step` is proved to produce exactly `NextGeneration`, so the sweep order
    cannot be observed.
- `Driver` (driver.dfy): the generation loop of `main`, modelled as repeated
  `Step`, together with properties of iterated generations.
- `Display` (display.dfy): the string that `print_screen` builds, with its exact
  layout.
- `Patterns` (patterns.dfy): an unrolled form of the neighbour count, and a birth
  across the corner of a 4 × 4 torus worked out from it.

The board length is unbounded. Every operation requires `w * h <= |board|`.
This is the condition under which the Rust indexing cannot panic. Cells beyond
`w * h` are copied unchanged, as `board.clone()` leaves them.

## Model

| member | source | states |
|---|---|---|
| Grid.Idx | src/main.rs:169-171 | definition: the row-major slot of cell (x, y) is y*w + x, computed on unbounded integers; its meaning is stated by the four lemmas below |
| Grid.Cell | src/main.rs:99-106 | definition: the cell (x, y) of a board holding at least w*h cells is `board[idx(x, y, w)]`, the read used by `step` (lines 99-106, 119) and `print_screen` (line 152); IdxInBounds guarantees it is in range |
| Grid.IdxInBounds | src/main.rs:169-171 | every in-range cell (x < w, y < h) has an index below w*h, so the board reads in `step` and `print_screen` stay in bounds |
| Grid.IdxCoordinates | src/main.rs:169-171 | the index determines its coordinates: `idx(x,y,w) % w == x` and `idx(x,y,w) / w == y` |
| Grid.IdxInjective | src/main.rs:169-171 | distinct in-range cells have distinct indices, so writing one cell's slot never touches another |
| Grid.IdxSplit | src/main.rs:169-171 | every index below w*h is the index of the in-range cell (i % w, i / w) |
| Grid.Wrap | src/main.rs:86-97 | a coordinate at most one step outside [0, n) is brought back into [0, n) |
| Grid.WrapIsMod | src/main.rs:86-97 | that wrap is reduction modulo n |
| Grid.Prev | src/main.rs:86 | `c.checked_sub(1).unwrap_or(n - 1)` stays below n and equals (c - 1) mod n (toroidal up / left) |
| Grid.Succ | src/main.rs:87-90 | `c + 1`, or 0 when it reaches n, stays below n and equals (c + 1) mod n (toroidal down / right) |
| Grid.PrevSuccInverse | src/main.rs:86-97 | stepping up then down (or left then right) on the torus returns to the starting coordinate |
| Life.LiveCount | src/main.rs:108-116 | the number of live cells in a sequence never exceeds its length |
| Life.LiveCountExtend | src/main.rs:109-111 | extending the counted prefix by one cell adds one exactly when that cell is live |
| Life.LiveCountPrefix | src/main.rs:109-114 | a prefix holds no more live cells than the whole, which justifies the early `break` |
| Life.LiveCountZero | src/main.rs:122-125 | the count is zero if and only if no cell is live |
| Life.LiveCountFull | src/main.rs:130-133 | the count equals the length if and only if every cell is live |
| Life.MooreNeighbours | src/main.rs:99-106 | definition of the reference neighbourhood: eight cells, element k being the cell at the k-th Moore offset (in the source's gathering order) wrapped onto the torus; its ensures repeat that definition, and WrappedNeighbours ties it to the source's reads |
| Life.WrappedNeighbours | src/main.rs:86-106 | the eight reads through l, r, up and down, in the order nbrs[0..8] is filled, are exactly the Moore neighbours |
| Life.NeighbourAt | src/main.rs:99-106 | one neighbour read through already-wrapped coordinates is the k-th Moore neighbour |
| Life.Rule | src/main.rs:120-141 | definition of B3/S23: a live cell lives on with 2 or 3 live neighbours (rules 1-3), a dead cell is born with exactly 3 (rule 4); LiveCellRule and DeadCellRule state it of the next board |
| Life.NextCell | src/main.rs:118-141 | definition: the next state of cell (x, y) is Rule applied to its old state and its true live-neighbour count; NextGenerationAt and UpdateCell connect it to the board |
| Life.MooreCount | src/main.rs:108-116 | a cell has at most eight live neighbours |
| Life.NextGeneration | src/main.rs:82-146 | the next board has the same length as the old one |
| Life.NextGenerationAt | src/main.rs:118-141 | cell (x, y) of the next generation follows B3/S23 applied to its old state and its live-neighbour count |
| Life.NextGenerationLocal | src/main.rs:99-120 | two boards that agree on a cell and its eight neighbours give that cell the same next state |
| Life.SingleColumnSeesItself | src/main.rs:93-103 | on a board one cell wide, a cell's left and right neighbours are the cell itself |
| Life.LiveCellRule | src/main.rs:120-134 | a live cell is live next exactly when it has two or three live neighbours (rules 1 to 3) |
| Life.DeadCellRule | src/main.rs:119-141 | a dead cell is live next exactly when it has three live neighbours (rule 4) |
| Life.IsolatedCellDies | src/main.rs:120-125 | a cell with no live neighbour is dead in the next generation |
| Life.CrowdedCellDies | src/main.rs:130-141 | a cell whose eight neighbours are all live is dead in the next generation |
| Life.CountLive | src/main.rs:108-116 | the early-exit loop returns the live count capped at 4, and the cap leaves B3/S23's verdict unchanged for either state of the cell |
| Life.UpdateCell | src/main.rs:91-141 | gathering, counting and the match write NextCell into slot idx(x, y, w) of the new board and leave every other slot unchanged |
| Life.Step | src/main.rs:82-146 | the row-by-row in-place sweep over a copy returns exactly NextGeneration, with the same length, and returns the board unchanged when w or h is 0 |
| Driver.Generation | src/main.rs:67-74 | the board after k generations has the original length |
| Driver.GenerationAdd | src/main.rs:67-74 | running m generations and then n more equals running m + n |
| Driver.StillLifeForever | src/main.rs:67-74 | a board that `step` maps to itself stays unchanged for any number of generations |
| Driver.Run | src/main.rs:67-74 | applying `step` num_gen times, each result becoming the next input, yields the num_gen-th generation |
| Display.Glyph | src/main.rs:152-156 | the glyph is U+2588 exactly when the cell is live (U+2591 otherwise) and is never the line break |
| Display.Picture | src/main.rs:149-159 | the whole string built by `print_screen` is h rows of w + 1 characters, w*h + h characters in all |
| Display.Line | src/main.rs:151-158 | a row's text is w glyphs followed by a line break |
| Display.Lines | src/main.rs:150-159 | the text of n rows is n*(w+1) characters long |
| Display.LinesAt | src/main.rs:150-159 | row y occupies the w+1 characters starting at y*(w+1) |
| Display.PictureAt | src/main.rs:149-159 | the picture is w*h + h characters; the character at y*(w+1)+x is U+2588 exactly when cell (x, y) is live and U+2591 otherwise; the one at y*(w+1)+w is '\n' |
| Display.Render | src/main.rs:149-159 | the nested push loop builds exactly that picture, w*h + h characters long |
| Patterns.LiveCountOfEight | src/main.rs:108-116 | the count of the eight-cell buffer is the sum of its eight bits |
| Patterns.NextAt | src/main.rs:99-141 | the next state of (x, y) is B3/S23 on the sum of the eight wrapped neighbour bits |
| Patterns.CornerBirth | src/main.rs:86-106 | on a 4 × 4 board with only (3,0), (0,3) and (3,3) live, the dead cell (0,0) has three live neighbours across the wrapped corner and is born |

## Left out

- Command-line parsing with `getopts`, its defaults (100 generations, width 60, 500 ms) and its panics on bad input (src/main.rs:13-46): these are I/O and not part of the generation logic.
- `height = width / 2` (src/main.rs:38): width and height are independent parameters of every operation.
- Random seeding of the initial board with probability 1/5 (src/main.rs:54-60): randomness is not modelled, and the initial board is a parameter.
- The sleep between generations (src/main.rs:71-73): clocks are not modelled.
- Terminal escape sequences, the header lines, the "gen" line, the `---` separator and the actual printing (src/main.rs:8-10, 49-52, 62-65, 76-79, 161-166): output is not modelled. `Display.Render` models only the string that `print_screen` builds.
- `usize` overflow of `y*w + x` and of `w*h + h`: integers are unbounded. Every operation requires `w * h <= |board|`, which the Rust code needs to index without panicking.
- Life.CountLive: the count is a `nat` rather than a `u8`. This costs nothing, because the loop stops at 4 and a `u8` cannot overflow there.
- Life.UpdateCell: `step` reuses one `[bool; 8]` buffer for every cell. The model builds a fresh eight-element value per cell. Since every slot is overwritten before it is read, the two agree.
- Life.Step: the new board is an `array<bool>` updated in place, and the old board is a value. Aliasing cannot occur because `step` owns the clone.
- Display.Render: strings are modelled as sequences of characters, so the UTF-8 byte length and the `String` capacity are not modelled. The source reserves w*h + h bytes, but each glyph takes 3 bytes in UTF-8, so the finished string is 3*w*h + h bytes and the buffer grows past its reservation whenever w*h > 0.
- Concrete still lifes and oscillators (the block, the blinker, a 4 × 4 block run for 5 generations) are not worked out on particular boards, because those per-board proofs were too costly for the solver to verify reliably. `Driver.StillLifeForever` reduces the 5-generation block scenario to the single fact that one step maps the block to itself, and that single-step fact is what stays unproved. The corner birth of `Patterns.CornerBirth` is the one concrete board worked out.
