/** The game board: a rows x cols grid of tiles with mines at fixed positions,
    a running count of flags, the reveal operation with its flood fill, and the win check. */
module Boards {
  import opened Cells
  import opened Neighbors
  import opened Tiles

  class Board {
    const rows: nat
    const cols: nat
    const mines: nat
    /** The rows of tiles. The rows themselves are never replaced or resized after
        construction; only the tiles in them change. */
    const grid: seq<seq<Tile>>
    var flags: int

    /** The mine positions in the order they were drawn. */
    ghost const MineList: seq<Pos>
    /** The board's tiles: the objects its operations may change. */
    ghost const TileSet: set<Tile>
    /** The cells whose tile is revealed. */
    ghost var Revealed: set<Pos>
    /** The cells whose tile is flagged. */
    ghost var Flagged: set<Pos>

    // -------------------------------------------------------------------------
    // Invariants and the abstract view of the tiles

    /** The parts of the board fixed at construction: the grid's shape, one distinct tile
        per cell and the mine layout. */
    ghost predicate WellFormed()
    {
      |grid| == rows && (forall i | 0 <= i < |grid| :: |grid[i]| == cols) &&
      |MineList| == mines && NoDuplicates(MineList) &&
      (forall m | m in MineList :: InBounds(rows, cols, m)) &&
      (forall q | InBounds(rows, cols, q) ::
         grid[q.row][q.col] in TileSet && grid[q.row][q.col].cell == q &&
         (grid[q.row][q.col].mine <==> q in MineList))
    }

    /** The tile at a position (`self[position]`). */
    function At(q: Pos): (t: Tile)
      requires WellFormed() && InBounds(rows, cols, q)
      ensures t in TileSet && t.cell == q
      ensures t.mine <==> q in MineList
    {
      grid[q.row][q.col]
    }

    /** Every tile's neighbour count is the number of mines around its cell. Both are
        fixed at construction, so once established this holds for the board's lifetime. */
    ghost predicate CountsMatch()
      requires WellFormed()
    {
      forall q | InBounds(rows, cols, q) :: At(q).adjacentMines == CountAdjacentMines(rows, cols, q, MineList)
    }

    ghost function Unrevealed(): set<Pos>
      reads this
    {
      Positions(rows, cols) - Revealed
    }

    ghost function MineSet(): set<Pos>
    {
      set m | m in MineList
    }

    /** The board invariant: `Revealed` and `Flagged` are exactly the revealed and the
        flagged cells, no tile is both, and the flag counter equals the number of flags. */
    ghost predicate Valid()
      reads this, TileSet
    {
      WellFormed() &&
      (forall q | q in Revealed :: InBounds(rows, cols, q)) &&
      (forall q | q in Flagged :: InBounds(rows, cols, q)) &&
      (forall q | InBounds(rows, cols, q) :: (At(q).revealed <==> q in Revealed) && (At(q).flagged <==> q in Flagged)) &&
      Revealed !! Flagged &&
      flags == |Flagged|
    }

    /** The cell's tile is safe and counts no adjacent mine: revealing it spreads. */
    ghost predicate Cascades(q: Pos)
      requires WellFormed()
    {
      InBounds(rows, cols, q) && q !in MineList && At(q).adjacentMines == 0
    }

    /** Every safe, unflagged in-bounds 8-neighbour of `q` lies in `revealed`. */
    ghost predicate BorderRevealed(q: Pos, revealed: set<Pos>, flagged: set<Pos>)
    {
      forall n | InBounds(rows, cols, n) && Adjacent(q, n) && n !in MineList && n !in flagged :: n in revealed
    }

    /** Every cascading cell revealed since `before` has its safe, unflagged border revealed. */
    ghost predicate CascadeComplete(before: set<Pos>, revealed: set<Pos>, flagged: set<Pos>)
      requires WellFormed()
    {
      forall q | q in revealed && q !in before && Cascades(q) :: BorderRevealed(q, revealed, flagged)
    }

    /** Every cell revealed since `before`, other than `p`, borders a cascading cell that is
        `p` itself or was also revealed since `before`: the reveal spread only through
        cascading cells. */
    ghost predicate SpreadFrom(p: Pos, before: set<Pos>, revealed: set<Pos>)
      requires WellFormed()
    {
      forall q | q in revealed && q !in before && q != p ::
        exists c | (c == p || (c in revealed && c !in before)) && Cascades(c) :: Adjacent(c, q)
    }

    /** With the counts in place, a cell cascades exactly when neither it nor any of its
        in-bounds 8-neighbours holds a mine. */
    lemma CascadesIffMineFree(q: Pos)
      requires WellFormed() && CountsMatch() && InBounds(rows, cols, q)
      ensures Cascades(q) <==> q !in MineList && forall n | InBounds(rows, cols, n) && Adjacent(q, n) :: n !in MineList
    {
      var count := CountAdjacentMines(rows, cols, q, MineList);
      assert At(q).adjacentMines == count;
      assert Cascades(q) <==> q !in MineList && count == 0;
      NoAdjacentMines(rows, cols, q, MineList);
    }

    // -------------------------------------------------------------------------
    // Construction

    /** Builds the board. `draws` stands for the successive positions the random generator
        yields; placement stops once `mines` distinct ones have been drawn. */
    constructor (rows: nat, cols: nat, mines: nat, draws: seq<Pos>)
      requires forall d | d in draws :: InBounds(rows, cols, d)
      requires mines <= |set d | d in draws|
      ensures this.rows == rows && this.cols == cols && this.mines == mines
      ensures Valid() && CountsMatch()
      ensures Revealed == {} && Flagged == {} && flags == 0
      ensures |MineSet()| == mines
      ensures forall m | m in MineList :: m in draws
      ensures fresh(TileSet)
    {
      this.rows := rows;
      this.cols := cols;
      var g, mineList, tileSet := BuildGrid(rows, cols, mines, draws);
      grid := g;
      MineList := mineList;
      TileSet := tileSet;
      this.mines := mines;
      flags := 0;
      Revealed := {};
      Flagged := {};
      new;
      DistinctCard(MineList);
      FreshBoardValid();
    }

    /** A well-formed board whose tiles are all hidden and unflagged, with empty views and
        no flags counted, satisfies the invariant. */
    lemma FreshBoardValid()
      requires WellFormed() && Revealed == {} && Flagged == {} && flags == 0
      requires forall t | t in TileSet :: !t.revealed && !t.flagged
      ensures Valid()
    {
    }

    /** Draws positions until `mines` distinct ones are collected; a position already
        drawn is rejected and drawing continues. */
    static method GenerateMinePositions(rows: nat, cols: nat, mines: nat, draws: seq<Pos>)
      returns (positions: seq<Pos>)
      requires forall d | d in draws :: InBounds(rows, cols, d)
      requires mines <= |set d | d in draws|
      ensures |positions| == mines && NoDuplicates(positions)
      ensures forall q | q in positions :: InBounds(rows, cols, q) && q in draws
      ensures exists n | 0 <= n <= |draws| :: positions == Uniq(draws[..n])
    {
      positions := [];
      var i := 0;
      while |positions| != mines
        invariant 0 <= i <= |draws|
        invariant positions == Uniq(draws[..i])
        invariant |positions| <= mines
        decreases |draws| - i
      {
        UniqCard(draws[..i]);
        assert draws[..|draws|] == draws;
        var candidate := draws[i];
        assert draws[..i + 1] == draws[..i] + [candidate];
        assert draws[..i + 1][..i] == draws[..i];
        if candidate !in positions {
          positions := positions + [candidate];
        }
        i := i + 1;
      }
    }

    /** A fresh, hidden, unflagged tile for `position`. */
    static method CreateTile(rows: nat, cols: nat, position: Pos, minePositions: seq<Pos>) returns (t: Tile)
      ensures fresh(t) && t.cell == position
      ensures t.mine <==> position in minePositions
      ensures t.adjacentMines == CountAdjacentMines(rows, cols, position, minePositions)
      ensures !t.revealed && !t.flagged
    {
      var adjacentMines := CountAdjacentMines(rows, cols, position, minePositions);
      if position in minePositions {
        t := new Tile(adjacentMines, true, position);
      } else {
        t := new Tile(adjacentMines, false, position);
      }
    }

    /** Tile `t` carries the mine bit and the neighbour count that the layout gives cell `q`. */
    static predicate Laid(t: Tile, q: Pos, rows: nat, cols: nat, mineList: seq<Pos>)
    {
      (t.mine <==> q in mineList) && t.adjacentMines == CountAdjacentMines(rows, cols, q, mineList)
    }

    /** The first `k` rows of `grid` hold, in every cell, a tile of `tiles` laid for that cell. */
    static ghost predicate RowsPlaced(grid: seq<seq<Tile>>, k: nat, tiles: set<Tile>,
                                      rows: nat, cols: nat, mineList: seq<Pos>)
    {
      |grid| == k && (forall i | 0 <= i < k :: |grid[i]| == cols) &&
      forall q | InBounds(rows, cols, q) && q.row < k ::
        grid[q.row][q.col] in tiles && grid[q.row][q.col].cell == q &&
        Laid(grid[q.row][q.col], q, rows, cols, mineList)
    }

    /** Every cell of `line` holds a tile of `made` laid for that cell of row `row`. */
    static ghost predicate RowPlaced(line: seq<Tile>, row: nat, made: set<Tile>,
                                     rows: nat, cols: nat, mineList: seq<Pos>)
    {
      |line| == cols &&
      forall j | 0 <= j < cols ::
        line[j] in made && line[j].cell == Pos(row, j) && Laid(line[j], Pos(row, j), rows, cols, mineList)
    }

    /** Appending a placed row extends the placed prefix by one row. */
    static lemma RowsPlacedStep(grid: seq<seq<Tile>>, line: seq<Tile>, k: nat, tiles: set<Tile>,
                                made: set<Tile>, rows: nat, cols: nat, mineList: seq<Pos>)
      requires RowsPlaced(grid, k, tiles, rows, cols, mineList)
      requires RowPlaced(line, k, made, rows, cols, mineList)
      ensures RowsPlaced(grid + [line], k + 1, tiles + made, rows, cols, mineList)
    {
      var g := grid + [line];
      forall q | InBounds(rows, cols, q) && q.row < k + 1
        ensures g[q.row][q.col] in tiles + made && g[q.row][q.col].cell == q
        ensures Laid(g[q.row][q.col], q, rows, cols, mineList)
      {
        if q.row == k {
          assert g[q.row] == line;
          assert line[q.col].cell == Pos(k, q.col);
        } else {
          assert g[q.row] == grid[q.row];
        }
      }
    }

    /** Places the mines and fills every cell, row by row, with its tile. */
    static method BuildGrid(rows: nat, cols: nat, mines: nat, draws: seq<Pos>)
      returns (grid: seq<seq<Tile>>, ghost mineList: seq<Pos>, ghost tiles: set<Tile>)
      requires forall d | d in draws :: InBounds(rows, cols, d)
      requires mines <= |set d | d in draws|
      ensures |mineList| == mines && NoDuplicates(mineList)
      ensures forall m | m in mineList :: InBounds(rows, cols, m) && m in draws
      ensures RowsPlaced(grid, rows, tiles, rows, cols, mineList)
      ensures forall t | t in tiles :: !t.revealed && !t.flagged
      ensures fresh(tiles)
    {
      var minePositions := GenerateMinePositions(rows, cols, mines, draws);
      mineList := minePositions;
      grid := [];
      tiles := {};
      for row := 0 to rows
        invariant RowsPlaced(grid, row, tiles, rows, cols, mineList)
        invariant forall t | t in tiles :: !t.revealed && !t.flagged
        invariant fresh(tiles)
      {
        var line, made := BuildRow(rows, cols, row, minePositions);
        RowsPlacedStep(grid, line, row, tiles, made, rows, cols, mineList);
        grid := grid + [line];
        tiles := tiles + made;
      }
    }

    /** Builds the tiles of one row, each new, hidden and unflagged. */
    static method BuildRow(rows: nat, cols: nat, row: nat, minePositions: seq<Pos>)
      returns (line: seq<Tile>, ghost made: set<Tile>)
      ensures RowPlaced(line, row, made, rows, cols, minePositions)
      ensures forall t | t in made :: !t.revealed && !t.flagged
      ensures fresh(made)
    {
      line := [];
      made := {};
      for col := 0 to cols
        invariant |line| == col
        invariant forall j | 0 <= j < col ::
                    line[j] in made && line[j].cell == Pos(row, j) && Laid(line[j], Pos(row, j), rows, cols, minePositions)
        invariant forall t | t in made :: !t.revealed && !t.flagged
        invariant fresh(made)
      {
        var tile := CreateTile(rows, cols, Pos(row, col), minePositions);
        line := line + [tile];
        made := made + {tile};
      }
    }

    // -------------------------------------------------------------------------
    // Queries

    /** Whether a position lies on the board: exactly the cells of the grid. */
    function ValidPosition(p: Pos): (b: bool)
      ensures b <==> p in Positions(rows, cols)
    {
      0 <= p.row < rows && 0 <= p.col < cols
    }

    /** Revealed tiles among the first `k` columns of row `i`. */
    function RevealedInRow(i: nat, k: nat): (n: nat)
      requires WellFormed() && i < rows && k <= cols
      reads TileSet
      ensures n <= k
    {
      if k == 0 then 0
      else RevealedInRow(i, k - 1) + (if At(Pos(i, k - 1)).revealed then 1 else 0)
    }

    /** Revealed tiles among the first `k` rows, summed row by row. */
    function RevealedInRows(k: nat): (n: nat)
      requires WellFormed() && k <= rows
      reads TileSet
      ensures n <= k * cols
    {
      if k == 0 then 0 else RevealedInRows(k - 1) + RevealedInRow(k - 1, cols)
    }

    /** The revealed bit of every tile is membership in `revealed`. */
    ghost predicate RevealedView(revealed: set<Pos>)
      requires WellFormed()
      reads TileSet
    {
      (forall q | q in revealed :: InBounds(rows, cols, q)) &&
      (forall q | InBounds(rows, cols, q) :: At(q).revealed <==> q in revealed)
    }

    /** Counting a row prefix tile by tile gives the number of revealed cells in it. */
    lemma {:induction false} RevealedInRowCard(i: nat, k: nat, revealed: set<Pos>)
      requires WellFormed() && RevealedView(revealed) && i < rows && k <= cols
      ensures RevealedInRow(i, k) == |RowPart(revealed, i, k)|
    {
      if k == 0 {
        assert RowPart(revealed, i, 0) == {};
      } else {
        RevealedInRowCard(i, k - 1, revealed);
        RowPartStep(revealed, i, k);
      }
    }

    /** Summing the rows' counts gives the number of revealed cells in those rows. */
    lemma {:induction false} RevealedInRowsCard(k: nat, revealed: set<Pos>)
      requires WellFormed() && RevealedView(revealed) && k <= rows
      ensures RevealedInRows(k) == |RowsPart(revealed, k, cols)|
    {
      if k == 0 {
        assert RowsPart(revealed, 0, cols) == {};
      } else {
        RevealedInRowsCard(k - 1, revealed);
        RevealedInRowCard(k - 1, cols, revealed);
        RowsPartStep(revealed, k, cols);
      }
    }

    /** The win check: true exactly when the number of revealed tiles equals the number
        of cells minus the number of mines. */
    function AllMinesFound(): (b: bool)
      requires Valid()
      reads this, TileSet
      ensures b <==> |Revealed| == rows * cols - mines
    {
      RevealedInRowsCard(rows, Revealed);
      assert RowsPart(Revealed, rows, cols) == Revealed;
      var safeTiles := rows * cols - mines;
      safeTiles == RevealedInRows(rows)
    }

    /** While no mine has been revealed, the win check holds exactly when every safe
        cell is revealed (flags play no part). */
    lemma AllMinesFoundIffCleared()
      requires Valid()
      requires forall q | q in Revealed :: q !in MineList
      ensures AllMinesFound() <==> Revealed == Positions(rows, cols) - MineSet()
    {
      var cells := Positions(rows, cols);
      PositionsCard(rows, cols);
      DistinctCard(MineList);
      assert MineSet() <= cells;
      assert cells == (cells - MineSet()) + MineSet();
      assert |cells - MineSet()| == rows * cols - mines;
      if AllMinesFound() {
        SubsetSameCard(Revealed, cells - MineSet());
      }
    }

    /** Exactly `mines` tiles hold a mine. */
    lemma MineTileCount()
      requires WellFormed()
      ensures |set q | q in Positions(rows, cols) && At(q).mine| == mines
    {
      assert (set q | q in Positions(rows, cols) && At(q).mine) == MineSet();
      DistinctCard(MineList);
    }

    // -------------------------------------------------------------------------
    // Player operations

    /** Toggles the flag on a tile and keeps the flag counter equal to the number of
        flagged tiles; a revealed tile is left alone. Returns the tile's glyph. */
    method ToggleFlag(p: Pos) returns (s: string)
      requires Valid() && ValidPosition(p)
      modifies this, At(p)
      ensures Valid()
      ensures Revealed == old(Revealed)
      ensures p in old(Revealed) ==> Flagged == old(Flagged) && flags == old(flags)
      ensures p !in old(Revealed) && p !in old(Flagged) ==>
                Flagged == old(Flagged) + {p} && flags == old(flags) + 1
      ensures p !in old(Revealed) && p in old(Flagged) ==>
                Flagged == old(Flagged) - {p} && flags == old(flags) - 1
      ensures s == At(p).ToString()
    {
      var tile := At(p);
      var ok := tile.ToggleFlag();
      if ok {
        if tile.flagged {
          flags := flags + 1;
          Flagged := Flagged + {p};
        } else {
          flags := flags - 1;
          Flagged := Flagged - {p};
        }
      }
      forall q | InBounds(rows, cols, q)
        ensures (At(q).revealed <==> q in Revealed) && (At(q).flagged <==> q in Flagged)
      {
        if q != p {
          assert At(q).cell != tile.cell;
        }
      }
      s := tile.ToString();
    }

    /** The tile-level step of a reveal (`tile.reveal`), with the ghost view kept in step:
        the tile at `p` is revealed unless it is flagged or already revealed. */
    method RevealTile(p: Pos) returns (ok: bool)
      requires Valid() && InBounds(rows, cols, p)
      modifies this, At(p)
      ensures Valid()
      ensures ok <==> p !in old(Revealed) && p !in old(Flagged)
      ensures Revealed == if ok then old(Revealed) + {p} else old(Revealed)
      ensures Flagged == old(Flagged) && flags == old(flags)
    {
      var tile := At(p);
      ok := tile.Reveal();
      if ok {
        Revealed := Revealed + {p};
      }
      forall q | InBounds(rows, cols, q)
        ensures (At(q).revealed <==> q in Revealed) && (At(q).flagged <==> q in Flagged)
      {
        if q != p {
          assert At(q).cell != tile.cell;
        }
      }
    }

    /** Reveals the tile at `p` unless it is flagged or already revealed; when the tile
        is safe with no adjacent mine, reveals its neighbours too. Returns the tile's glyph. */
    method Reveal(p: Pos) returns (s: string)
      requires Valid() && ValidPosition(p)
      modifies this, TileSet
      ensures Valid()
      ensures flags == old(flags)
      ensures Flagged == old(Flagged)
      ensures old(Revealed) <= Revealed
      ensures forall q | q in Revealed && q !in old(Revealed) :: q == p || q !in MineList
      ensures p in old(Revealed) || p in old(Flagged) ==> Revealed == old(Revealed)
      ensures p !in old(Flagged) ==> p in Revealed
      ensures p !in old(Revealed) && p !in old(Flagged) && !Cascades(p) ==>
                Revealed == old(Revealed) + {p}
      ensures CascadeComplete(old(Revealed), Revealed, Flagged)
      ensures SpreadFrom(p, old(Revealed), Revealed)
      ensures s == At(p).ToString()
      decreases |Unrevealed()|, 2
    {
      var tile := At(p);
      var ok := RevealTile(p);
      if ok && tile.WillCascade() {
        RevealOneCard(Positions(rows, cols), old(Revealed), p);
        ghost var before := Revealed;
        CascadeReveal(p);
        SpreadFromOrigin(p, old(Revealed), before, Revealed);
      }
      s := tile.ToString();
    }

    /** Reveals every safe neighbour of `p`, which has just been revealed and cascades. */
    method CascadeReveal(p: Pos)
      requires Valid() && ValidPosition(p)
      modifies this, TileSet
      ensures Valid()
      ensures flags == old(flags)
      ensures Flagged == old(Flagged)
      ensures old(Revealed) <= Revealed
      ensures forall q | q in Revealed && q !in old(Revealed) :: q !in MineList
      ensures CascadeComplete(old(Revealed), Revealed, Flagged)
      ensures BorderRevealed(p, Revealed, Flagged)
      ensures Cascades(p) ==> SpreadFrom(p, old(Revealed), Revealed)
      decreases |Unrevealed()| + 1, 1
    {
      var neighbors := FindNeighbors(rows, cols, p);
      for k := 0 to |neighbors|
        invariant Valid()
        invariant Flagged == old(Flagged)
        invariant old(Revealed) <= Revealed
        invariant forall q | q in Revealed && q !in old(Revealed) :: q !in MineList
        invariant CascadeComplete(old(Revealed), Revealed, Flagged)
        invariant ListedRevealed(neighbors[..k], Revealed, Flagged)
        invariant Cascades(p) ==> SpreadFrom(p, old(Revealed), Revealed)
      {
        NeighborAt(rows, cols, p, k);
        RevealMoreCard(Positions(rows, cols), old(Revealed), Revealed);
        ghost var before := Revealed;
        RevealNeighbor(neighbors[k]);
        CascadeCompleteCompose(old(Revealed), before, Revealed, Flagged);
        ListedRevealedStep(neighbors, k, before, Revealed, Flagged);
        SpreadFromStep(p, neighbors[k], old(Revealed), before, Revealed);
      }
      ListedBorderRevealed(p, neighbors, Revealed, Flagged);
    }

    /** One step of the flood fill: a neighbour holding a mine is skipped, any other is
        revealed (with its own cascade). */
    method RevealNeighbor(n: Pos)
      requires Valid() && InBounds(rows, cols, n)
      modifies this, TileSet
      ensures Valid()
      ensures flags == old(flags)
      ensures Flagged == old(Flagged)
      ensures old(Revealed) <= Revealed
      ensures forall q | q in Revealed && q !in old(Revealed) :: q !in MineList
      ensures CascadeComplete(old(Revealed), Revealed, Flagged)
      ensures n !in MineList && n !in Flagged ==> n in Revealed
      ensures n in MineList ==> Revealed == old(Revealed)
      ensures Revealed != old(Revealed) ==> n in Revealed && n !in old(Revealed)
      ensures SpreadFrom(n, old(Revealed), Revealed)
      decreases |Unrevealed()| + 1, 0
    {
      if !At(n).mine {
        var _ := Reveal(n);
      }
    }

    /** Every listed cell that is neither a mine nor flagged lies in `revealed`. */
    ghost predicate ListedRevealed(ns: seq<Pos>, revealed: set<Pos>, flagged: set<Pos>)
    {
      forall n | n in ns && n !in MineList && n !in flagged :: n in revealed
    }

    lemma ListedRevealedStep(ns: seq<Pos>, k: nat, before: set<Pos>, after: set<Pos>, flagged: set<Pos>)
      requires k < |ns| && before <= after
      requires ListedRevealed(ns[..k], before, flagged)
      requires ns[k] !in MineList && ns[k] !in flagged ==> ns[k] in after
      ensures ListedRevealed(ns[..k + 1], after, flagged)
    {
      assert ns[..k + 1] == ns[..k] + [ns[k]];
    }

    /** A cell whose listed neighbours are all revealed (bar mines and flags) has its
        whole safe, unflagged border revealed. */
    lemma ListedBorderRevealed(p: Pos, neighbors: seq<Pos>, revealed: set<Pos>, flagged: set<Pos>)
      requires InBounds(rows, cols, p) && neighbors == FindNeighbors(rows, cols, p)
      requires ListedRevealed(neighbors[..|neighbors|], revealed, flagged)
      ensures BorderRevealed(p, revealed, flagged)
    {
      assert neighbors[..|neighbors|] == neighbors;
      forall n | InBounds(rows, cols, n) && Adjacent(p, n) && n !in MineList && n !in flagged
        ensures n in revealed
      {
        NeighborListed(rows, cols, p, n);
      }
    }

    /** Revealing one more cell of `cells` leaves one fewer unrevealed. */
    static lemma RevealOneCard(cells: set<Pos>, revealed: set<Pos>, p: Pos)
      requires p in cells && p !in revealed
      ensures |cells - (revealed + {p})| + 1 == |cells - revealed|
    {
      assert cells - (revealed + {p}) == (cells - revealed) - {p};
    }

    /** Revealing more cells never leaves more unrevealed. */
    static lemma RevealMoreCard(cells: set<Pos>, before: set<Pos>, after: set<Pos>)
      requires before <= after
      ensures |cells - after| <= |cells - before|
    {
      SubsetCard(cells - after, cells - before);
    }

    /** A cascade from `p`, just revealed, spreads from `p` relative to the cells revealed
        before `p` was. */
    lemma SpreadFromOrigin(p: Pos, a: set<Pos>, b: set<Pos>, c: set<Pos>)
      requires WellFormed() && b == a + {p} && Cascades(p)
      requires SpreadFrom(p, b, c)
      ensures SpreadFrom(p, a, c)
    {
      forall q | q in c && q !in a && q != p
        ensures exists d | (d == p || (d in c && d !in a)) && Cascades(d) :: Adjacent(d, q)
      {
        var d :| (d == p || (d in c && d !in b)) && Cascades(d) && Adjacent(d, q);
        assert d == p || (d in c && d !in a);
      }
    }

    /** Revealing a neighbour `n` of the cascading cell `p` keeps the cascade spreading from `p`. */
    lemma SpreadFromStep(p: Pos, n: Pos, a: set<Pos>, b: set<Pos>, c: set<Pos>)
      requires WellFormed() && Adjacent(p, n) && a <= b <= c
      requires Cascades(p) ==> SpreadFrom(p, a, b)
      requires SpreadFrom(n, b, c)
      requires c != b ==> n in c && n !in b
      ensures Cascades(p) ==> SpreadFrom(p, a, c)
    {
      if Cascades(p) {
        forall q | q in c && q !in a && q != p
          ensures exists d | (d == p || (d in c && d !in a)) && Cascades(d) :: Adjacent(d, q)
        {
          if q in b {
            var d :| (d == p || (d in b && d !in a)) && Cascades(d) && Adjacent(d, q);
            assert d == p || (d in c && d !in a);
          } else if q == n {
            assert Adjacent(p, q);
          } else {
            var d :| (d == n || (d in c && d !in b)) && Cascades(d) && Adjacent(d, q);
            assert d in c && d !in a;
          }
        }
      }
    }

    /** Cascade completeness composes across successive reveals. */
    lemma CascadeCompleteCompose(a: set<Pos>, b: set<Pos>, c: set<Pos>, flagged: set<Pos>)
      requires WellFormed()
      requires b <= c
      requires CascadeComplete(a, b, flagged) && CascadeComplete(b, c, flagged)
      ensures CascadeComplete(a, c, flagged)
    {
    }
  }
}
