/** One cell of the minesweeper grid: a fixed mine bit and neighbour count, and the
    two player-visible bits `revealed` and `flagged`, changed only by guarded transitions. */
module Tiles {
  import opened Cells

  /** Display glyphs of a tile. */
  const HIDDEN: string := "#"
  const EMPTY: string := " "
  const MINE: string := "@"
  const FLAG: string := "?"

  // ---------------------------------------------------------------------------
  // Decimal rendering of a neighbour count

  predicate IsDigits(s: string)
  {
    forall i | 0 <= i < |s| :: '0' <= s[i] <= '9'
  }

  function Digit(d: nat): (c: char)
    requires d < 10
  {
    ('0' as int + d) as char
  }

  /** The number a string of decimal digits denotes. */
  function ParseDecimal(s: string): nat
    requires IsDigits(s)
  {
    if s == [] then 0
    else ParseDecimal(s[..|s| - 1]) * 10 + (s[|s| - 1] as int - '0' as int)
  }

  /** The decimal digits of `n`, most significant first, with no leading zero. */
  function DecimalString(n: nat): (s: string)
    ensures |s| >= 1 && IsDigits(s)
    ensures ParseDecimal(s) == n
    ensures s[0] == '0' ==> n == 0
  {
    if n < 10 then [Digit(n)]
    else
      var prefix := DecimalString(n / 10);
      var s := prefix + [Digit(n % 10)];
      assert s[..|s| - 1] == prefix;
      s
  }

  // ---------------------------------------------------------------------------
  // The tile's mutable state as a value, and its transitions

  datatype TileState = TileState(revealed: bool, flagged: bool)

  datatype TileOp = RevealOp | ToggleFlagOp

  /** The state every tile starts in. */
  const Fresh: TileState := TileState(false, false)

  /** Whether a transition is accepted (the boolean the tile method returns). */
  predicate Accepts(s: TileState, op: TileOp)
  {
    match op
    case RevealOp => !s.flagged && !s.revealed
    case ToggleFlagOp => !s.revealed
  }

  /** The state after a transition; a rejected transition changes nothing. */
  function Apply(s: TileState, op: TileOp): (r: TileState)
  {
    if !Accepts(s, op) then s
    else match op
      case RevealOp => s.(revealed := true)
      case ToggleFlagOp => s.(flagged := !s.flagged)
  }

  /** The state after a sequence of transitions. */
  function Run(s: TileState, ops: seq<TileOp>): (r: TileState)
    decreases |ops|
  {
    if ops == [] then s else Run(Apply(s, ops[0]), ops[1..])
  }

  /** No sequence of transitions makes a tile both flagged and revealed,
      starting from any state that is not (in particular from `Fresh`). */
  lemma {:induction false} RunKeepsExclusive(s: TileState, ops: seq<TileOp>)
    requires !(s.revealed && s.flagged)
    ensures !(Run(s, ops).revealed && Run(s, ops).flagged)
    decreases |ops|
  {
    if ops != [] {
      RunKeepsExclusive(Apply(s, ops[0]), ops[1..]);
    }
  }

  /** Once revealed, a tile never changes again: it stays revealed and its flag is frozen. */
  lemma {:induction false} RunFreezesRevealed(s: TileState, ops: seq<TileOp>)
    requires s.revealed
    ensures Run(s, ops) == s
    decreases |ops|
  {
    if ops != [] {
      assert Apply(s, ops[0]) == s;
      RunFreezesRevealed(s, ops[1..]);
    }
  }

  /** Revealed tiles stay revealed under any sequence of transitions. */
  lemma {:induction false} RunRevealedMonotone(s: TileState, ops: seq<TileOp>)
    ensures s.revealed ==> Run(s, ops).revealed
    decreases |ops|
  {
    if s.revealed {
      RunFreezesRevealed(s, ops);
    }
  }

  /** Two accepted flag toggles restore the original state. */
  lemma ToggleTwiceRestores(s: TileState)
    requires Accepts(s, ToggleFlagOp)
    ensures Accepts(Apply(s, ToggleFlagOp), ToggleFlagOp)
    ensures Apply(Apply(s, ToggleFlagOp), ToggleFlagOp) == s
  {
  }

  /** A second reveal is always rejected and changes nothing. */
  lemma RevealIdempotent(s: TileState)
    ensures !Accepts(Apply(s, RevealOp), RevealOp)
    ensures Apply(Apply(s, RevealOp), RevealOp) == Apply(s, RevealOp)
  {
  }

  // ---------------------------------------------------------------------------
  // The tile object

  class Tile {
    const adjacentMines: nat
    const mine: bool
    var revealed: bool
    var flagged: bool
    /** The cell the tile was created for; it tells the board's tiles apart in proofs. */
    ghost const cell: Pos

    function State(): TileState
      reads this
    {
      TileState(revealed, flagged)
    }

    constructor (adjacentMines: nat, mine: bool, ghost cell: Pos)
      ensures this.adjacentMines == adjacentMines && this.mine == mine && this.cell == cell
      ensures !revealed && !flagged
      ensures State() == Fresh
    {
      this.adjacentMines := adjacentMines;
      revealed := false;
      flagged := false;
      this.mine := mine;
      this.cell := cell;
    }

    /** Reveals the tile unless it is flagged or already revealed; reports whether it did. */
    method Reveal() returns (ok: bool)
      modifies this
      ensures ok <==> !old(flagged) && !old(revealed)
      ensures revealed == (old(revealed) || ok)
      ensures flagged == old(flagged)
      ensures ok == Accepts(old(State()), RevealOp) && State() == Apply(old(State()), RevealOp)
    {
      if flagged || revealed {
        return false;
      } else {
        revealed := true;
        ok := true;
      }
    }

    /** Flips the flag unless the tile is revealed; reports whether it did. */
    method ToggleFlag() returns (ok: bool)
      modifies this
      ensures ok <==> !old(revealed)
      ensures revealed == old(revealed)
      ensures flagged == (if ok then !old(flagged) else old(flagged))
      ensures ok == Accepts(old(State()), ToggleFlagOp) && State() == Apply(old(State()), ToggleFlagOp)
    {
      if revealed {
        return false;
      } else {
        flagged := !flagged;
        ok := true;
      }
    }

    /** A safe tile with no mine around it: revealing it spreads to its neighbours.
        For a revealed, unflagged tile this is exactly when it is displayed blank. */
    function WillCascade(): (b: bool)
      reads this
      ensures revealed && !flagged ==> (b <==> ToString() == EMPTY)
    {
      !mine && adjacentMines == 0
    }

    /** The glyph shown for the tile. The glyphs and the digits of a count never coincide,
        so the string tells apart exactly the five situations below. */
    function ToString(): (s: string)
      reads this
      ensures s == FLAG <==> flagged
      ensures s == HIDDEN <==> !flagged && !revealed
      ensures s == MINE <==> !flagged && revealed && mine
      ensures s == EMPTY <==> !flagged && revealed && !mine && adjacentMines == 0
      ensures !flagged && revealed && !mine && adjacentMines != 0 ==>
                IsDigits(s) && ParseDecimal(s) == adjacentMines
    {
      if flagged then FLAG
      else if !revealed then HIDDEN
      else if mine then MINE
      else if adjacentMines == 0 then EMPTY
      else DecimalString(adjacentMines)
    }
  }
}
