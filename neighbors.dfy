/** Grid positions and the board's pure helpers: the neighbour enumeration
    (`find_neighbors`) and the adjacent-mine count (`count_adjacent_mines`). */
module Neighbors {
  import opened Cells

  /** The 8-connectivity relation: distinct cells at Chebyshev distance 1. */
  predicate Adjacent(p: Pos, q: Pos)
  {
    p != q && -1 <= q.row - p.row <= 1 && -1 <= q.col - p.col <= 1
  }

  predicate NoDuplicates<T(==)>(s: seq<T>)
  {
    forall i, j | 0 <= i < j < |s| :: s[i] != s[j]
  }

  // ---------------------------------------------------------------------------
  // The set of cells of a rows x cols grid

  /** The cells of row `r` whose column lies in [0, n). */
  function RowCells(r: int, n: int): (s: set<Pos>)
    ensures forall p :: p in s <==> p.row == r && 0 <= p.col < n
  {
    var s := set j | 0 <= j < n :: Pos(r, j);
    assert forall p: Pos | p.row == r && 0 <= p.col < n :: p == Pos(r, p.col) && p in s;
    s
  }

  /** All cells of a rows x cols grid. */
  function Positions(rows: int, cols: int): (s: set<Pos>)
    ensures forall p :: p in s <==> InBounds(rows, cols, p)
  {
    var s := set i, j | 0 <= i < rows && 0 <= j < cols :: Pos(i, j);
    assert forall p: Pos | InBounds(rows, cols, p) :: p == Pos(p.row, p.col) && p in s;
    s
  }

  lemma {:induction false} RowCellsCard(r: int, n: nat)
    ensures |RowCells(r, n)| == n
  {
    if n == 0 {
      assert RowCells(r, 0) == {};
    } else {
      RowCellsCard(r, n - 1);
      assert RowCells(r, n) == RowCells(r, n - 1) + {Pos(r, n - 1)};
    }
  }

  /** A rows x cols grid has exactly rows * cols cells. */
  lemma {:induction false} PositionsCard(rows: nat, cols: nat)
    ensures |Positions(rows, cols)| == rows * cols
  {
    if rows == 0 {
      assert Positions(0, cols) == {};
    } else {
      PositionsCard(rows - 1, cols);
      RowCellsCard(rows - 1, cols);
      assert Positions(rows, cols) == Positions(rows - 1, cols) + RowCells(rows - 1, cols);
      assert Positions(rows - 1, cols) !! RowCells(rows - 1, cols);
      assert rows * cols == (rows - 1) * cols + cols;
    }
  }

  /** The cells of `s` in row `i` whose column lies in [0, k). */
  ghost function RowPart(s: set<Pos>, i: int, k: int): set<Pos>
  {
    set q | q in s && q.row == i && 0 <= q.col < k
  }

  /** The cells of `s` in the first `k` rows of a grid `cols` wide. */
  ghost function RowsPart(s: set<Pos>, k: int, cols: int): set<Pos>
  {
    set q | q in s && 0 <= q.row < k && 0 <= q.col < cols
  }

  /** Widening a row prefix by one column adds that cell, when it is in `s`. */
  lemma RowPartStep(s: set<Pos>, i: int, k: int)
    requires k >= 1
    ensures |RowPart(s, i, k)| == |RowPart(s, i, k - 1)| + if Pos(i, k - 1) in s then 1 else 0
  {
    var x := Pos(i, k - 1);
    if x in s {
      assert RowPart(s, i, k) == RowPart(s, i, k - 1) + {x};
    } else {
      assert RowPart(s, i, k) == RowPart(s, i, k - 1);
    }
  }

  /** Adding one row adds the cells of `s` in that row. */
  lemma RowsPartStep(s: set<Pos>, k: int, cols: int)
    requires k >= 1
    ensures |RowsPart(s, k, cols)| == |RowsPart(s, k - 1, cols)| + |RowPart(s, k - 1, cols)|
  {
    assert RowsPart(s, k, cols) == RowsPart(s, k - 1, cols) + RowPart(s, k - 1, cols);
    assert RowsPart(s, k - 1, cols) !! RowPart(s, k - 1, cols);
  }

  // ---------------------------------------------------------------------------
  // Cardinality facts

  lemma SubsetCard<T>(a: set<T>, b: set<T>)
    requires a <= b
    ensures |a| <= |b|
  {
    assert b == a + (b - a);
  }

  /** A subset as large as its superset is the whole superset. */
  lemma SubsetSameCard<T>(a: set<T>, b: set<T>)
    requires a <= b && |a| == |b|
    ensures a == b
  {
    assert b == a + (b - a);
    assert |b - a| == 0;
  }

  /** A sequence without repetitions has as many distinct elements as entries. */
  lemma {:induction false} DistinctCard<T>(s: seq<T>)
    requires NoDuplicates(s)
    ensures |set x | x in s| == |s|
  {
    if s != [] {
      DistinctCard(s[1..]);
      assert (set x | x in s) == {s[0]} + (set x | x in s[1..]);
      assert s[0] !in s[1..];
    }
  }

  /** Pairwise-distinct cells of a rows x cols grid number at most rows * cols, so
      mine placement by rejection sampling can only finish when mines <= rows * cols. */
  lemma MinesFitOnBoard(rows: nat, cols: nat, ms: seq<Pos>)
    requires NoDuplicates(ms)
    requires forall m | m in ms :: InBounds(rows, cols, m)
    ensures |ms| <= rows * cols
  {
    DistinctCard(ms);
    SubsetCard((set m | m in ms), Positions(rows, cols));
    PositionsCard(rows, cols);
  }

  // ---------------------------------------------------------------------------
  // Array#uniq and Array#- on sequences

  /** The sequence with repeated entries dropped, keeping each first occurrence. */
  function Uniq<T(==,!new)>(s: seq<T>): (u: seq<T>)
    ensures forall x :: x in u <==> x in s
    ensures NoDuplicates(u)
    ensures |u| <= |s|
  {
    if s == [] then []
    else
      var u := Uniq(s[..|s| - 1]);
      var last := s[|s| - 1];
      assert s == s[..|s| - 1] + [last];
      if last in u then u else u + [last]
  }

  /** The sequence with every entry equal to `x` removed. */
  function Without<T(==,!new)>(s: seq<T>, x: T): (r: seq<T>)
    ensures forall y :: y in r <==> y in s && y != x
    ensures NoDuplicates(s) ==> NoDuplicates(r)
    ensures |r| <= |s|
    ensures x in s ==> |r| < |s|
  {
    if s == [] then []
    else
      var rest := Without(s[1..], x);
      assert NoDuplicates(s) ==> s[0] !in s[1..];
      if s[0] == x then rest else [s[0]] + rest
  }

  // ---------------------------------------------------------------------------
  // find_neighbors and count_adjacent_mines

  function Max(a: int, b: int): int { if a < b then b else a }
  function Min(a: int, b: int): int { if a < b then a else b }

  /** Pulls a coordinate into [0, size - 1]: first up to 0, then down to size - 1. */
  function Clamp(x: int, size: int): (c: int)
    ensures size >= 1 ==> 0 <= c < size
    ensures 0 <= x < size ==> c == x
  {
    Min(Max(0, x), size - 1)
  }

  /** The candidate at row offset `dr` and column offset `dc`, clamped into the grid. */
  function Candidate(rows: int, cols: int, p: Pos, dr: int, dc: int): (c: Pos)
    ensures rows >= 1 && cols >= 1 ==> InBounds(rows, cols, c)
  {
    Pos(Clamp(p.row + dr, rows), Clamp(p.col + dc, cols))
  }

  /** The candidates of row offset `dr` for column offsets `dc` .. 1 (the inner loop). */
  function CandidateCols(rows: int, cols: int, p: Pos, dr: int, dc: int): (r: seq<Pos>)
    ensures |r| == if dc > 1 then 0 else 2 - dc
    ensures rows >= 1 && cols >= 1 ==> forall q | q in r :: InBounds(rows, cols, q)
    decreases 2 - dc
  {
    if dc > 1 then [] else [Candidate(rows, cols, p, dr, dc)] + CandidateCols(rows, cols, p, dr, dc + 1)
  }

  /** The candidates for row offsets `dr` .. 1 (the outer loop), each row's column
      offsets -1, 0, 1 in turn. */
  function CandidateRows(rows: int, cols: int, p: Pos, dr: int): (r: seq<Pos>)
    ensures |r| == if dr > 1 then 0 else 3 * (2 - dr)
    ensures rows >= 1 && cols >= 1 ==> forall q | q in r :: InBounds(rows, cols, q)
    decreases 2 - dr
  {
    if dr > 1 then [] else CandidateCols(rows, cols, p, dr, -1) + CandidateRows(rows, cols, p, dr + 1)
  }

  /** The nine clamped candidates, row offset -1, 0, 1 outermost. */
  function Candidates(rows: int, cols: int, p: Pos): (r: seq<Pos>)
    ensures |r| == 9
    ensures rows >= 1 && cols >= 1 ==> forall q | q in r :: InBounds(rows, cols, q)
  {
    CandidateRows(rows, cols, p, -1)
  }

  lemma CandidateColsAt(rows: int, cols: int, p: Pos, dr: int)
    ensures CandidateCols(rows, cols, p, dr, -1) ==
              [Candidate(rows, cols, p, dr, -1), Candidate(rows, cols, p, dr, 0), Candidate(rows, cols, p, dr, 1)]
  {
    assert CandidateCols(rows, cols, p, dr, 2) == [];
    assert CandidateCols(rows, cols, p, dr, 1) == [Candidate(rows, cols, p, dr, 1)];
  }

  /** The nine candidates written out, in the order the nested loops produce them. */
  lemma CandidatesAt(rows: int, cols: int, p: Pos)
    ensures Candidates(rows, cols, p) ==
              [Candidate(rows, cols, p, -1, -1), Candidate(rows, cols, p, -1, 0), Candidate(rows, cols, p, -1, 1),
               Candidate(rows, cols, p, 0, -1), Candidate(rows, cols, p, 0, 0), Candidate(rows, cols, p, 0, 1),
               Candidate(rows, cols, p, 1, -1), Candidate(rows, cols, p, 1, 0), Candidate(rows, cols, p, 1, 1)]
  {
    CandidateColsAt(rows, cols, p, -1);
    CandidateColsAt(rows, cols, p, 0);
    CandidateColsAt(rows, cols, p, 1);
    assert CandidateRows(rows, cols, p, 2) == [];
    assert CandidateRows(rows, cols, p, 1) == CandidateCols(rows, cols, p, 1, -1);
  }

  lemma ClampNear(x: int, y: int, size: int)
    requires 0 <= y < size && -1 <= x - y <= 1
    ensures 0 <= Clamp(x, size) < size && -1 <= Clamp(x, size) - y <= 1
    ensures 0 <= x < size ==> Clamp(x, size) == x
  {
  }

  /** Every candidate of a cell in the grid is in the grid and is the cell or one of its
      8-neighbours. */
  lemma CandidateNear(rows: int, cols: int, p: Pos, dr: int, dc: int)
    requires InBounds(rows, cols, p) && -1 <= dr <= 1 && -1 <= dc <= 1
    ensures InBounds(rows, cols, Candidate(rows, cols, p, dr, dc))
    ensures Candidate(rows, cols, p, dr, dc) == p || Adjacent(p, Candidate(rows, cols, p, dr, dc))
  {
    ClampNear(p.row + dr, p.row, rows);
    ClampNear(p.col + dc, p.col, cols);
  }

  /** For a cell inside the grid, the clamped candidates are exactly the cell itself
      and its in-bounds 8-neighbours. */
  lemma CandidatesExact(rows: int, cols: int, p: Pos)
    requires InBounds(rows, cols, p)
    ensures forall q :: q in Candidates(rows, cols, p) <==> q == p || (InBounds(rows, cols, q) && Adjacent(p, q))
  {
    CandidatesAt(rows, cols, p);
    forall dr, dc | -1 <= dr <= 1 && -1 <= dc <= 1
      ensures InBounds(rows, cols, Candidate(rows, cols, p, dr, dc))
      ensures Candidate(rows, cols, p, dr, dc) == p || Adjacent(p, Candidate(rows, cols, p, dr, dc))
    {
      CandidateNear(rows, cols, p, dr, dc);
    }
    ClampNear(p.row, p.row, rows);
    ClampNear(p.col, p.col, cols);
    forall q | InBounds(rows, cols, q) && Adjacent(p, q)
      ensures q in Candidates(rows, cols, p)
    {
      ClampNear(q.row, p.row, rows);
      ClampNear(q.col, p.col, cols);
      assert q == Candidate(rows, cols, p, q.row - p.row, q.col - p.col);
    }
  }

  /** The neighbours of `p`, computed as the source does: clamp each of the nine candidates
      into the grid, drop repeats, then drop `p` itself. */
  function FindNeighbors(rows: int, cols: int, p: Pos): (r: seq<Pos>)
    ensures NoDuplicates(r)
  {
    Without(Uniq(Candidates(rows, cols, p)), p)
  }

  /** Clamping never yields a cell outside the grid or farther than one step away, and
      every in-bounds neighbour is its own unclamped candidate; so for a cell in the grid
      the neighbour list holds exactly its in-bounds 8-neighbours, each once, never the
      cell itself, and at most 8 of them. */
  lemma FindNeighborsExact(rows: int, cols: int, p: Pos)
    requires InBounds(rows, cols, p)
    ensures forall q :: q in FindNeighbors(rows, cols, p) <==> InBounds(rows, cols, q) && Adjacent(p, q)
    ensures NoDuplicates(FindNeighbors(rows, cols, p)) && |FindNeighbors(rows, cols, p)| <= 8
  {
    CandidatesExact(rows, cols, p);
    var candidates := Candidates(rows, cols, p);
    assert p in candidates;
    assert |Uniq(candidates)| <= 9;
  }

  /** Each listed neighbour of a cell in the grid is an in-bounds 8-neighbour. */
  lemma NeighborAt(rows: int, cols: int, p: Pos, i: int)
    requires InBounds(rows, cols, p) && 0 <= i < |FindNeighbors(rows, cols, p)|
    ensures InBounds(rows, cols, FindNeighbors(rows, cols, p)[i])
    ensures Adjacent(p, FindNeighbors(rows, cols, p)[i])
  {
    FindNeighborsExact(rows, cols, p);
  }

  /** Each in-bounds 8-neighbour of a cell in the grid is listed. */
  lemma NeighborListed(rows: int, cols: int, p: Pos, n: Pos)
    requires InBounds(rows, cols, p) && InBounds(rows, cols, n) && Adjacent(p, n)
    ensures n in FindNeighbors(rows, cols, p)
  {
    FindNeighborsExact(rows, cols, p);
  }

  /** The in-bounds 8-neighbours of `p`, as a set. */
  function NeighborSet(rows: int, cols: int, p: Pos): set<Pos>
  {
    set q | q in Positions(rows, cols) && Adjacent(p, q)
  }

  /** How many entries of `s` occur in `ms` (Array#count with `include?`). */
  function CountIn(s: seq<Pos>, ms: seq<Pos>): (n: nat)
    ensures n <= |s|
    ensures n == 0 <==> forall x | x in s :: x !in ms
  {
    if s == [] then 0 else (if s[0] in ms then 1 else 0) + CountIn(s[1..], ms)
  }

  /** Counting the entries of a repetition-free sequence that lie in `ms`
      is taking the size of the corresponding set. */
  lemma {:induction false} CountInCard(s: seq<Pos>, ms: seq<Pos>)
    requires NoDuplicates(s)
    ensures CountIn(s, ms) == |set x | x in s && x in ms|
    ensures CountIn(s, ms) <= |s|
  {
    if s != [] {
      CountInCard(s[1..], ms);
      var tail := set x | x in s[1..] && x in ms;
      assert s[0] !in s[1..];
      if s[0] in ms {
        assert (set x | x in s && x in ms) == {s[0]} + tail;
      } else {
        assert (set x | x in s && x in ms) == tail;
      }
    }
  }

  /** The number of mine positions among the neighbours of `p`. */
  function CountAdjacentMines(rows: int, cols: int, p: Pos, ms: seq<Pos>): (n: nat)
    ensures n == 0 <==> forall q | q in FindNeighbors(rows, cols, p) :: q !in ms
    ensures InBounds(rows, cols, p) ==> n <= 8
  {
    var n := CountIn(FindNeighbors(rows, cols, p), ms);
    if InBounds(rows, cols, p) then FindNeighborsExact(rows, cols, p); n else n
  }

  /** For a cell in the grid, the adjacent-mine count is the number of mines among its
      in-bounds 8-neighbours, hence at most 8. */
  lemma CountAdjacentMinesExact(rows: int, cols: int, p: Pos, ms: seq<Pos>)
    requires InBounds(rows, cols, p)
    ensures CountAdjacentMines(rows, cols, p, ms) == |set q | q in NeighborSet(rows, cols, p) && q in ms|
    ensures CountAdjacentMines(rows, cols, p, ms) <= 8
  {
    var neighbors := FindNeighbors(rows, cols, p);
    FindNeighborsExact(rows, cols, p);
    CountInCard(neighbors, ms);
    assert (set x | x in neighbors && x in ms) == (set q | q in NeighborSet(rows, cols, p) && q in ms);
  }

  /** A cell in the grid counts no adjacent mine exactly when none of its in-grid
      8-neighbours is a mine. */
  lemma NoAdjacentMines(rows: int, cols: int, p: Pos, ms: seq<Pos>)
    requires InBounds(rows, cols, p)
    ensures CountAdjacentMines(rows, cols, p, ms) == 0 <==>
              forall n | InBounds(rows, cols, n) && Adjacent(p, n) :: n !in ms
  {
    FindNeighborsExact(rows, cols, p);
  }

  /** Dropping repeats leaves as many entries as there are distinct values. */
  lemma UniqCard<T(!new)>(s: seq<T>)
    ensures |Uniq(s)| == |set x | x in s|
  {
    DistinctCard(Uniq(s));
    assert (set x | x in Uniq(s)) == (set x | x in s);
  }
}
