# Minesweeper board and tile engine in Dafny

This is a model of the game engine of a terminal Minesweeper written in Ruby, `lib/tile.rb` and
`lib/board.rb`.

- **Tile.** A `Tile` is one cell. It has a fixed mine bit and a fixed count of adjacent mines. It
  also has two player-visible bits, `revealed` and `flagged`, which change only through guarded
  transitions. Each tile renders to a one-character glyph or to its decimal count.
- **Board.** A `Board` is a `rows x cols` grid of tiles:
  - mines are placed by rejection sampling over random draws;
  - each tile's count is computed from a clamped, de-duplicated neighbour list;
  - a flag counter is kept in step with the flagged tiles;
  - revealing a tile with no adjacent mine cascades recursively to its neighbours;
  - the win check compares the number of revealed tiles with the number of safe cells.

The project has four modules:

- `Cells` (`cells.dfy`) holds the position type `Pos` and the bounds test shared by the others.
- `Tiles` (`tile.dfy`) holds the `Tile` class. Next to it is the tile's mutable state as a value
  (`TileState`) with a transition function (`Apply`/`Run`). Lemmas about that function cover every
  sequence of player actions.
- `Neighbors` (`neighbors.dfy`) holds the board's pure helpers:
  - `find_neighbors`, written as the nested offset loops, clamping, `uniq` and `- [position]`;
  - `count_adjacent_mines`;
  - the set and cardinality facts they need.
- `Boards` (`board.dfy`) holds the `Board` class. It has:
  - ghost state: `MineList`, the mines in drawn order; `TileSet`, the board's tiles; and
    `Revealed`/`Flagged`, the cells currently revealed or flagged;
  - the invariant `Valid()`, which ties that ghost state to the tiles' bits and to the flag counter;
  - constructor and grid-building methods;
  - the player operations, and the mutually recursive `Reveal`/`CascadeReveal`.

Two points about the code are worth stating up front:

- **Neighbours at the edge.** `find_neighbors` (lib/board.rb:137-157) clamps out-of-grid
  candidates to the edge. It then drops repeats and the cell itself, so no neighbour is counted
  twice. `Neighbors.FindNeighborsExact` proves this: for a cell in the grid, the clamped list holds
  exactly its in-grid 8-neighbours, each once.
- **Mine count.** `Board#initialize` (lib/board.rb:24-30) does not check `0 < mines < rows * cols`;
  the game's difficulty presets satisfy it (lib/minesweeper_game.rb:27-31).
  `generate_mine_positions` simply keeps drawing until it has `mines` distinct positions. The model
  requires enough distinct draws, and `Neighbors.MinesFitOnBoard` shows that this bounds `mines`
  by `rows * cols`.

## Model

| member | source | states |
|---|---|---|
| Tiles.Tile.constructor | lib/tile.rb:29-34 | a new tile carries the given count and mine bit, hidden and unflagged (the `Fresh` state) |
| Tiles.Tile.Reveal | lib/tile.rb:36-42 | succeeds exactly when the tile was neither flagged nor revealed; then it becomes revealed; the flag never changes; agrees with the `Apply` transition |
| Tiles.Tile.ToggleFlag | lib/tile.rb:44-51 | succeeds exactly when the tile is not revealed; then the flag flips; `revealed` never changes; agrees with `Apply` |
| Tiles.Tile.WillCascade | lib/tile.rb:53-55 | for a revealed, unflagged tile, cascading is the same as being displayed blank |
| Tiles.Tile.ToString | lib/tile.rb:57-63 | each glyph appears exactly in its own situation (flag wins over everything, hidden, mine, blank); otherwise the string is decimal digits that parse back to the count |
| Tiles.DecimalString | lib/tile.rb:62 | the rendered count is non-empty decimal digits without a leading zero and parses back to the number |
| Tiles.RunKeepsExclusive | lib/tile.rb:36-51 | no sequence of reveals and flag toggles makes a tile both revealed and flagged |
| Tiles.RunFreezesRevealed | lib/tile.rb:36-51 | once revealed, no later action changes the tile's state |
| Tiles.RunRevealedMonotone | lib/tile.rb:36-51 | a revealed tile stays revealed under any sequence of actions |
| Tiles.ToggleTwiceRestores | lib/tile.rb:44-51 | two accepted toggles restore the original state |
| Tiles.RevealIdempotent | lib/tile.rb:36-42 | a second reveal is refused and changes nothing |
| Neighbors.Positions | lib/board.rb:78-81 | the set of cells is exactly the in-bounds positions |
| Neighbors.PositionsCard | lib/board.rb:84 | a rows x cols grid has rows * cols cells |
| Neighbors.Uniq | lib/board.rb:156 | `uniq` keeps the same elements, has no repeats and is no longer than its input |
| Neighbors.UniqCard | lib/board.rb:180-183 | the de-duplicated draws are as many as the distinct draws |
| Neighbors.Without | lib/board.rb:156 | `- [position]` keeps exactly the other elements, keeps them distinct and shrinks the list when the element was there |
| Neighbors.Clamp | lib/board.rb:145-151 | the `[[0, x].max, size - 1].min` clamp lands in [0, size) on a non-empty axis and leaves in-range coordinates unchanged |
| Neighbors.Candidate | lib/board.rb:143-152 | one pushed candidate; on a non-empty grid it is in the grid |
| Neighbors.CandidateCols | lib/board.rb:142-153 | the inner loop pushes one candidate per remaining column offset, all in the grid |
| Neighbors.CandidateRows | lib/board.rb:141-154 | the outer loop pushes three candidates per remaining row offset, all in the grid |
| Neighbors.Candidates | lib/board.rb:139-154 | the loops push exactly nine candidates, all in the grid on a non-empty grid |
| Neighbors.CandidatesAt | lib/board.rb:139-154 | the nested offset loops produce the nine clamped candidates in row-major offset order |
| Neighbors.CandidateNear | lib/board.rb:143-152 | every clamped candidate of an in-grid cell is in the grid and is the cell itself or one of its 8-neighbours |
| Neighbors.CandidatesExact | lib/board.rb:139-154 | for an in-grid cell, the candidates are exactly the cell and its in-grid 8-neighbours |
| Neighbors.FindNeighbors | lib/board.rb:137-157 | the neighbour list never repeats a cell |
| Neighbors.FindNeighborsExact | lib/board.rb:137-157 | for an in-grid cell, a position is listed iff it is an in-grid 8-neighbour; at most 8 are listed, each once |
| Neighbors.NeighborAt | lib/board.rb:129-131 | each listed neighbour is in the grid and adjacent |
| Neighbors.NeighborListed | lib/board.rb:129-131 | every in-grid 8-neighbour is listed |
| Neighbors.CountIn | lib/board.rb:201-203 | `count { include? }` is at most the list's length, and zero exactly when no listed cell is a mine |
| Neighbors.CountInCard | lib/board.rb:201-203 | counting the repeat-free list's members in the mine list is the size of the matching set |
| Neighbors.CountAdjacentMines | lib/board.rb:198-204 | the count is zero exactly when no listed neighbour is a mine, and at most 8 for an in-grid cell |
| Neighbors.NoAdjacentMines | lib/board.rb:198-204 | an in-grid cell counts zero adjacent mines iff none of its in-grid 8-neighbours is a mine |
| Neighbors.CountAdjacentMinesExact | lib/board.rb:198-204 | the count is the number of mines among the in-grid 8-neighbours, at most 8 |
| Neighbors.MinesFitOnBoard | lib/board.rb:177-186 | distinct in-grid mine positions number at most rows * cols |
| Boards.Board.At | lib/board.rb:159-162 | `self[position]` is the board's tile for that cell; it holds a mine iff the cell is a mine position |
| Boards.Board.CascadesIffMineFree | lib/board.rb:188-204 | with the counts in place, a cell cascades iff neither it nor any in-grid 8-neighbour is a mine |
| Boards.Board.constructor | lib/board.rb:24-30 | the new board satisfies the invariant, every tile's count matches the layout, nothing is revealed or flagged, flags is 0, there are exactly `mines` distinct mines, all drawn; all its tiles are newly allocated |
| Boards.Board.FreshBoardValid | lib/board.rb:24-30 | a well-formed board of hidden, unflagged tiles with empty views and no flags satisfies the invariant |
| Boards.Board.GenerateMinePositions | lib/board.rb:177-186 | returns `mines` distinct in-grid positions, all drawn: exactly the de-duplicated prefix of the draws consumed |
| Boards.Board.CreateTile | lib/board.rb:188-196 | a new hidden, unflagged tile whose mine bit is membership in the mine list and whose count is the adjacent-mine count |
| Boards.Board.BuildGrid | lib/board.rb:164-175 | every cell holds its own newly allocated tile, laid out by the mine list, all hidden and unflagged; the mine list is distinct, drawn and in the grid |
| Boards.Board.BuildRow | lib/board.rb:168-172 | one row's tiles, each newly allocated and laid out for its cell, hidden and unflagged |
| Boards.Board.RowsPlacedStep | lib/board.rb:168-172 | appending a built row extends the finished part of the grid by one row |
| Boards.Board.ValidPosition | lib/board.rb:78-81 | a position is valid iff it is one of the grid's cells |
| Boards.Board.RevealedInRow | lib/board.rb:85 | `row.count(&:revealed)` over the first k columns is at most k |
| Boards.Board.RevealedInRows | lib/board.rb:85 | the `inject` sum over the first k rows is at most k * cols |
| Boards.Board.RevealedInRowCard | lib/board.rb:85 | `row.count(&:revealed)` over a row prefix is the number of revealed cells in it |
| Boards.Board.RevealedInRowsCard | lib/board.rb:85 | the `inject` sum over the rows is the number of revealed cells in them |
| Boards.Board.AllMinesFound | lib/board.rb:83-86 | true iff the number of revealed cells equals rows * cols - mines |
| Boards.Board.AllMinesFoundIffCleared | lib/board.rb:83-86 | while no mine is revealed, the win check holds iff exactly the safe cells are revealed |
| Boards.Board.MineTileCount | lib/board.rb:164-196 | exactly `mines` tiles hold a mine |
| Boards.Board.ToggleFlag | lib/board.rb:54-66 | on a revealed cell nothing changes; otherwise the cell joins or leaves the flagged set and the counter moves by one in step, so flags stays the number of flagged tiles; returns the tile's glyph |
| Boards.Board.RevealTile | lib/board.rb:69-71 | the tile step of a reveal: succeeds iff the cell was neither revealed nor flagged, and then exactly that cell is added to the revealed set |
| Boards.Board.Reveal | lib/board.rb:68-76 | keeps the invariant and the flags; only adds revealed cells, all safe except possibly `p`; a flagged or already revealed cell changes nothing; a non-cascading cell reveals only itself; every cascading cell revealed has its whole safe, unflagged border revealed; every other new cell borders `p` or a newly revealed cascading cell |
| Boards.Board.CascadeReveal | lib/board.rb:128-135 | reveals no mine and leaves flags alone; every safe, unflagged in-grid neighbour of `p` ends up revealed, and the cascade is complete and spreads only from `p` |
| Boards.Board.RevealNeighbor | lib/board.rb:131-134 | a mine neighbour is skipped with nothing revealed; any other unflagged neighbour ends up revealed |
| Boards.Board.SpreadFromStep | lib/board.rb:131-134 | revealing one more neighbour of a cascading cell keeps every new cell bordering the cascade |
| Boards.Board.SpreadFromOrigin | lib/board.rb:71-72 | a cascade from a just-revealed cell spreads from that cell relative to the state before the reveal |
| Boards.Board.CascadeCompleteCompose | lib/board.rb:131-134 | cascade completeness composes across successive reveals |
| Boards.Board.ListedRevealedStep | lib/board.rb:131-134 | one more visited neighbour extends the prefix of handled neighbours |
| Boards.Board.ListedBorderRevealed | lib/board.rb:129-134 | handling every listed neighbour reveals the cell's whole safe, unflagged border |
| Boards.Board.RevealOneCard | lib/board.rb:71-72 | a successful reveal leaves one fewer unrevealed cell (the recursion's measure) |
| Boards.Board.RevealMoreCard | lib/board.rb:131-133 | revealing more never leaves more unrevealed cells |

## Left out

- Rendering of the board (`render`, `generate_formatting_widths`, `generate_cols_label`, `parse_row`)
  is terminal output. Only the per-tile glyph (`to_s`) is modelled.
- `save_game` writes a YAML file. File I/O is not part of this model.
- `rand` is not modelled as a distribution. The constructor takes `draws`, the sequence of
  positions the generator would yield, and requires at least `mines` distinct in-grid draws
  among them. Ruby simply keeps drawing; its loop only fails to end when the grid has fewer than
  `mines` cells.
- Positions outside the grid are not modelled. `Boards.Board.ToggleFlag` and `Boards.Board.Reveal`
  require `valid_position?`, which is the check the board offers its callers. Ruby would wrap a
  negative index around or fail on `nil`.
- `lib/minesweeper_game.rb`, `lib/save_load.rb` and `minesweeper.rb` (the game loop, input,
  difficulty presets and loading) are not part of this model.
- `build_grid` first allocates rows filled with `nil` and then assigns each cell. The model builds
  each row by appending tiles, in the same row-major order. After construction the rows are
  immutable sequences; only the tiles in them change.
- `Tiles.Tile.cell` is a ghost field that records the cell a tile was made for. It exists only so
  proofs can tell tiles apart, and the Ruby tile has no such field.
- The recursion depth of the Ruby cascade (a possible stack overflow on very large boards) is not
  modelled.
- Boards.Board.Reveal: proves that the cascade reveals every cell it must, and that each other new
  cell borders `p` or a newly revealed cascading cell. It does not prove that the revealed region
  is exactly the connected flood region of `p`, so a closed region of cascading cells not linked
  to `p` is not excluded by the contract.
- Boards.Board.CascadeReveal: has the same gap as `Reveal`. Its spreading clause does not exclude
  also revealing a closed region of cascading cells not connected to `p`.
