# maze.rb in Dafny

A model of the `Maze` class of maze.rb. A maze of H rows by W columns of
logical cells is kept as a render grid of (2H+1) by (2W+1) integers. The
centre of cell (x, y) is at render row 2y+1, render column 2x+1. The even rows
and columns hold the walls and the corners between cells. A render cell holds
0 (open), 1 (wall) or 2 (marked), or is unset before anything is written.
After `load` it can also hold any digit 3 to 9. `walls` reads such a value
as open, and the renderer draws it as `nil` (None), as it does an unset cell.

The class offers the following:

- a breadth-first solver (`walk`, `walkback`, `solve`, `trace`), which follows
  the sides of each cell that have no wall;
- a recursive-division generator (`draw_horz_wall`, `draw_vert_wall`,
  `recursive_div`, `draw_borders`, `redesign`);
- a loader from a digit string (`load`);
- a text renderer (`mchars`, `convert_even`, `convert_odd`).

Files:

- `wrappers.dfy`: `Option`, which stands for a `nil` result.
- `grid.dfy`: the two coordinate systems (`m2g`), cells, and neighbour steps.
- `render.dfy`: the glyph maps, plus the proof that a picture of 0/1/2 values
  reads back to the grid.
- `maze.dfy`: the class `Maze`. It holds the grid as a fixed `array2<int>`.
  The queries of the Ruby class (`on_maze?`, `walls`, `find_next`) are
  functions. The operations that change or search the grid are methods. The
  search loop of `walk`, the loop of `trace`, one row of `load` and the four
  recursive calls of `recursive_div` are methods of their own.

How the solver is proved:

- The search carries a ghost depth for every cell that has a backpointer.
- The loop invariants say three things:
  - the backpointers form a tree rooted at the start, and every edge crosses
    an open side;
  - the frontier `ply` is exactly the set of cells at the current depth;
  - every cell shallower than the frontier has all its open neighbours in the
    tree.
- From these, `walk` returns a shortest walk whenever one exists, and `nil`
  exactly when none does.
- The search terminates because each pass either adds a cell of the maze to
  the tree or ends the search.

How the generator is proved:

- Each division writes only inside its own region. It builds two wall lines,
  and each line ends with exactly one passage.
- The cell centres are never written.
- After `redesign` the border ring is all wall and every centre is open. So
  the result meets the precondition of the solver.

The seed of the backpointer table at maze.rb:89 is written `[begY, begX]`,
while every other key is `[x, y]` (maze.rb:74, 87, 97). The comment at
maze.rb:88 and the rest of `walk` intend `[begX, begY]`, and this model seeds
that key. As written, a start with begX ≠ begY is not marked `:start`. The
search then gives the start a backpointer of its own, and `walkback` can
follow a two-cell cycle forever. It can also return a one-cell "path" that
begins at (begY, begX).

Random choices (`rand` over a half-open range) are nondeterministic choices
(`:|`) within the same range. Nothing is said about their distribution.

## Model

| member | source | states |
|---|---|---|
| Grid.M2G | maze.rb:3-5 | the render coordinate 2c+1 is odd, and G2M inverts it |
| Grid.G2MOfOdd | maze.rb:3-5 | every odd render coordinate is the image of exactly one logical coordinate |
| Grid.CentreCell | maze.rb:30 | an odd-odd render position is the m2g image of the cell it names |
| Mazes.DigitValue | maze.rb:17 | a character reads as a value 0..9; a digit reads back to itself, anything else reads as 0 (`String#to_i`) |
| Mazes.Maze.constructor | maze.rb:8-13 | the grid is (2n+1) by (2m+1), fresh, and every cell is unset |
| Mazes.Maze.Load | maze.rb:16-19 | cell (i, j) takes the digit value of character i*(2W+1)+j (row-major slicing); a digit character is stored so that it writes back as the same digit |
| Mazes.Maze.FillRow | maze.rb:18 | one `slice!` step: render row i becomes the given values and no other row changes |
| Mazes.Maze.Solve | maze.rb:22-24 | the result is true exactly when both ends are on the maze and a wall-respecting walk joins them |
| Mazes.Maze.Trace | maze.rb:27-40 | true exactly when a walk exists; the path it marks is a shortest walk in the grid as it was; afterwards exactly the centres of the path cells are 0 and everything else, including the border, is unchanged |
| Mazes.Maze.Stamp | maze.rb:29-35 | writing 2 and then 0 at each path centre leaves every path centre 0 and every other cell unchanged |
| Mazes.Maze.OnMaze | maze.rb:43-45 | 0 ≤ x ≤ W-1 and 0 ≤ y ≤ H-1 exactly when the centre of (x, y) lies strictly inside the render border |
| Mazes.Maze.Walls | maze.rb:48-56 | each side reported by `walls` is a wall exactly when the render cell between the two centres is 1 (0, 2 and unset are open) |
| Mazes.Maze.OpenSymmetric | maze.rb:48-56 | two cells of the maze see the same render cell as the wall between them |
| Mazes.Maze.FindNext | maze.rb:59-69 | at most four neighbours; a cell is listed exactly when it is one step away across an open side; the list follows the order up, left, right, down |
| Mazes.Maze.OpenStaysOnMaze | maze.rb:59-69 | with a walled border every neighbour `find_next` lists is on the maze |
| Mazes.Maze.Walkback | maze.rb:71-80 | nil exactly when the end has no backpointer; otherwise the path ends at the end, starts at the `:start` entry, each cell's backpointer is its predecessor, and its length is the end's depth plus one |
| Mazes.Maze.Walk | maze.rb:83-109 | nil when an end is off the maze; a result is a walk from the beginning to the end across open sides, and no walk is shorter; nil with both ends on the maze means no walk exists |
| Mazes.Maze.Explore | maze.rb:86-105 | the loop until an empty ply ends with a search tree rooted at the beginning that is closed under open sides |
| Mazes.Maze.Seed | maze.rb:87-89 | the start alone, marked `:start` at depth 0, is the first ply |
| Mazes.Maze.ExpandPly | maze.rb:92-104 | one pass over ply yields the next ply, which is exactly the cells one level deeper; every backpointer written before the pass keeps its value; the pass either adds on-maze cells or leaves the table equal to what it was and the next ply empty |
| Mazes.Maze.Shrink | maze.rb:91-105 | the cells of a non-empty next ply were not in the table before, so the set of unvisited cells shrinks (termination) |
| Mazes.Maze.Finished | maze.rb:104 | when the next ply is empty every open side of every visited cell leads into the table |
| Mazes.Maze.VisitNeighbours | maze.rb:95-101 | after the inner loop every open neighbour of c has a backpointer at most one level below c; every earlier entry keeps its backpointer and its depth (first visit wins); every entry added points back to c |
| Mazes.Maze.ProcessedStep | maze.rb:93-101 | expanding one more cell of ply extends the prefix whose neighbours are all in the table |
| Mazes.Maze.VisitStep | maze.rb:97-100 | queuing an unseen neighbour with backpointer c keeps every loop invariant of the search and every earlier backpointer |
| Mazes.Maze.SeenStep | maze.rb:97 | a neighbour that already has a backpointer is left as it is and is already in the table |
| Mazes.Maze.GrowStep | maze.rb:97-99 | the new entries since the pass began are exactly the cells of the next ply |
| Mazes.Maze.Visit | maze.rb:97-100 | the new entry keeps the search tree, the level structure and the closure of the levels above |
| Mazes.Maze.VisitTree | maze.rb:99 | a backpointer to c from the unseen neighbour n keeps a search tree rooted at the start |
| Mazes.Maze.VisitRooted | maze.rb:99 | the new entry sits one level below c, so every chain of backpointers still ends at `:start` |
| Mazes.Maze.VisitEdges | maze.rb:95-99 | the new backpointer crosses an open side |
| Mazes.Maze.VisitClosed | maze.rb:97-99 | a new entry one level below the frontier keeps the shallower levels closed |
| Mazes.Maze.VisitLevels | maze.rb:98 | the new cell joins the next ply and nothing else moves between levels |
| Mazes.Maze.NextLayer | maze.rb:103 | after the whole ply is expanded, the next ply is exactly the next level, and every level above it is closed |
| Mazes.Maze.DepthBound | maze.rb:91-105 | on any walk from the beginning, the cell after i steps is in the table at depth at most i; this is what makes the result shortest |
| Mazes.Maze.DrawHorzWall | maze.rb:150-157 | row y is wall from column 2lo+1 to 2hi+1, except one passage at column 2p+1 with lo ≤ p < hi; every other cell is unchanged |
| Mazes.Maze.DrawVertWall | maze.rb:160-167 | column x is wall from row 2lo+1 to 2hi+1, except one passage at row 2p+1 with lo ≤ p < hi; every other cell is unchanged |
| Mazes.Maze.RecursiveDiv | maze.rb:171-199 | a one-cell-wide range leaves the grid unchanged; otherwise only cells inside the region change, to 0 or 1, cell centres never change, and walls right of a column and below a row of the region each end with exactly one passage |
| Mazes.Maze.DivideQuadrants | maze.rb:189-197 | the four sub-calls write only inside the region, never on the split column 2v+2 or the split row 2h+2, and never at a centre |
| Mazes.Maze.DrawBorders | maze.rb:210-217 | exactly the first and last rows and the first and last columns become 1; the border is walled |
| Mazes.Maze.Redesign | maze.rb:201-208 | afterwards the border is walled, every cell centre is 0, every cell is 0 or 1, and a maze of at least 2 by 2 cells is split by walls with one passage each |
| Render.ConvertEven | maze.rb:123-134 | one glyph per value; a glyph exactly for 0, 1 and 2, and that glyph reads back to its value; an even row never shows a vertical wall |
| Render.ConvertOdd | maze.rb:136-147 | one glyph per value; a glyph exactly for 0, 1 and 2, and that glyph reads back to its value; an odd row never shows a corner or a horizontal wall |
| Render.EvenWallGlyphs | maze.rb:129 | a wall in an even row shows '+' at an even column and '-' at an odd column |
| Render.MChars | maze.rb:112-116 | one glyph row per grid row, of the same length |
| Render.RenderRoundTrip | maze.rb:112-147 | a grid of 0, 1 and 2 values is recovered from its picture |

## Left out

- Printing: `display`, `puts backptrs` and `puts "\n"` (maze.rb:32, 34, 106, 119-121) are left out. The mark 2 that `trace` writes is visible only to `display`, so only its write and its reset are modelled.
- The distribution of `Kernel#rand`: each pick is any value of its range.
- Full connectivity of generated mazes: each division punches two passages into four quadrants, so the code does not promise it, and it is not claimed.
- The grid as an array of separately resizable Ruby rows: the model keeps a fixed (2H+1) by (2W+1) array. Writes past a row's end, which would grow a Ruby row, and negative indices, which would wrap around, are excluded by preconditions.
- Mazes.Maze.Load: requires at least (2H+1)(2W+1) characters. With a shorter string, `slice!` leaves later rows short or empty, and a fixed array cannot hold that.
- Mazes.Maze.constructor: takes n and m as natural numbers. A negative size makes `Array.new` at maze.rb:12 raise `ArgumentError`, and that error path is not modelled.
- Mazes.Maze.Walk: requires a walled border. Without one, Ruby's `walk` can leave the maze in three ways the model does not follow. A negative index wraps around and reads the real value of a cell at the far side, which may be a wall. A read past the end of a row gives `nil`, which counts as open, so the search can run rightward without limit. Once the search reaches a cell in the row below the maze, `walls` finds that `@grid[gy]` is `nil`, and indexing it raises `NoMethodError`.
- Mazes.Maze.Walk: seeds the start as `[begX, begY]`, the evident intent, instead of the literal `[begY, begX]` of maze.rb:89. The literal key is not modelled, because its `walkback` need not terminate.
- Mazes.Maze.Solve: returns whether a path exists, the truth value of the path that Ruby's `solve` returns; the path itself is what `Walk` returns. Like `Walk`, it requires a walled border.
- Mazes.Maze.Trace: requires a walled border, because it runs `Walk`.
- Mazes.Maze.DrawHorzWall: requires lo < hi and a row inside the grid. On an empty range `rand` returns `nil` and Ruby fails.
- Mazes.Maze.DrawVertWall: requires lo < hi and a column inside the grid, for the same reason.
- Mazes.Maze.RecursiveDiv: takes the begin and end of the two half-open ranges (`first` and `last` of `a...b`) as four integers. Only half-open ranges are modelled: with an inclusive `a..b` argument, `rand` at maze.rb:176-177 could also pick `b` itself. It requires either a one-cell-wide range or 0 ≤ x0 < x1 ≤ W and 0 ≤ y0 < y1 ≤ H. That admits regions that reach one cell past the maze, where Ruby draws a wall on render column 2W or row 2H and opens a passage in the border. It excludes negative or reversed ranges and regions further out, where Ruby reads or writes past the grid or gets `nil` from `rand`. Every call maze.rb makes meets the requirement.
- Mazes.Maze.Redesign: requires W = 1, H = 1, or both at least 2. Otherwise the default range `0...-1` makes `rand` return `nil` and Ruby fails.
- `m2g` takes several coordinates at once in Ruby. The model applies M2G to one coordinate at a time.
