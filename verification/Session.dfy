/** The game session: the difficulty table, setting up a game, the click and
    flag commands and the win check, with the invariants they keep. */
module Session {
  import opened Wrappers
  import opened Board
  import opened MinePlacement
  import opened FloodFill

  datatype Difficulty = Easy | Medium | Hard

  datatype Config = Config(rows: nat, cols: nat, mines: nat)

  /** The built-in difficulty table. Each preset leaves at least one safe
      cell, so the first click always has somewhere safe to be. */
  function Preset(d: Difficulty): (cfg: Config)
    ensures 0 < cfg.mines < cfg.rows * cfg.cols
  {
    match d
    case Easy => Config(9, 9, 10)
    case Medium => Config(16, 16, 40)
    case Hard => Config(24, 24, 50)
  }

  /** The logical state of a game: the board, the mine target, the flag
      counter and the two status bits. */
  datatype Game = Game(grid: Grid, mines: nat, flags: int, gameOver: bool, firstClick: bool)

  /** The coarse phase a game is in, read off its state. */
  datatype Phase = Pending | Active | Won | Lost

  /** `checkWin`: as many cells are revealed as there are safe cells. On a
      valid board this is the same as saying that the concealed cells are
      exactly as many as the mines. */
  predicate CheckWin(s: Game)
    ensures Valid(s.grid) ==> (CheckWin(s) <==> |Unrevealed(s.grid)| == s.mines)
  {
    ConcealedCount(s.grid);
    |Revealed(s.grid)| == s.grid.rows * s.grid.cols - s.mines
  }

  /** Revealed and concealed cells together make up the board. */
  lemma ConcealedCount(g: Grid)
    ensures Valid(g) ==> |Revealed(g)| + |Unrevealed(g)| == g.rows * g.cols
  {
    if Valid(g) {
      PositionsCard(g.rows, g.cols);
      assert g.cells.Keys == Revealed(g) + Unrevealed(g);
      assert Revealed(g) !! Unrevealed(g);
    }
  }

  function PhaseOf(s: Game): Phase {
    if !s.gameOver then (if s.firstClick then Pending else Active)
    else if CheckWin(s) then Won
    else Lost
  }

  /** What holds of every game reachable from `startGame`. */
  predicate Inv(s: Game) {
    && Valid(s.grid)
    && s.mines < s.grid.rows * s.grid.cols
    && (forall q :: q in s.grid.cells ==> !(s.grid.cells[q].isRevealed && s.grid.cells[q].isFlagged))
    && (forall q :: q in s.grid.cells && s.grid.cells[q].isRevealed ==> !s.grid.cells[q].isMine)
    && s.flags == |Flagged(s.grid)|
    && (s.firstClick ==> Mines(s.grid) == {} && Revealed(s.grid) == {} && Uncounted(s.grid) && !s.gameOver)
    && (!s.firstClick ==> Consistent(s.grid) && |Mines(s.grid)| == s.mines)
    && (!s.gameOver ==> !CheckWin(s))
  }

  /** `startGame` for a given size and mine target: a concealed, mine-free
      board, no flags, waiting for the first click. */
  function NewGame(rows: nat, cols: nat, mines: nat): (s: Game)
    ensures s.grid.rows == rows && s.grid.cols == cols && s.mines == mines
    ensures Valid(s.grid) && Mines(s.grid) == {} && Revealed(s.grid) == {} && Flagged(s.grid) == {}
    ensures s.flags == 0 && !s.gameOver && s.firstClick
    ensures mines < rows * cols ==> Inv(s)
  {
    var s := Game(NewGrid(rows, cols), mines, 0, false, true);
    assert Mines(s.grid) == {} && Revealed(s.grid) == {} && Flagged(s.grid) == {};
    s
  }

  /** Every preset starts a game in which the invariant holds. */
  lemma PresetStartsWell(d: Difficulty)
    ensures Inv(NewGame(Preset(d).rows, Preset(d).cols, Preset(d).mines))
    ensures PhaseOf(NewGame(Preset(d).rows, Preset(d).cols, Preset(d).mines)) == Pending
  {
  }

  // ---------------------------------------------------------------------
  // Flags

  /** `toggleFlag(p)`: ignored once the game is over or on a revealed cell;
      otherwise flips the flag and moves the counter with it. */
  function ToggleFlag(s: Game, p: Pos): (r: Game)
    requires !s.gameOver ==> p in s.grid.cells
    ensures r.grid.rows == s.grid.rows && r.grid.cols == s.grid.cols && r.grid.cells.Keys == s.grid.cells.Keys
    ensures s.gameOver || s.grid.cells[p].isRevealed ==> r == s
    ensures !s.gameOver && !s.grid.cells[p].isRevealed ==>
              && r.grid.cells[p] == s.grid.cells[p].(isFlagged := !s.grid.cells[p].isFlagged)
              && r.flags == s.flags + (if r.grid.cells[p].isFlagged then 1 else -1)
    ensures forall q :: q in s.grid.cells && q != p ==> r.grid.cells[q] == s.grid.cells[q]
    ensures forall q :: q in s.grid.cells ==>
              r.grid.cells[q].isRevealed == s.grid.cells[q].isRevealed && r.grid.cells[q].isMine == s.grid.cells[q].isMine
    ensures r.mines == s.mines && r.gameOver == s.gameOver && r.firstClick == s.firstClick
  {
    if s.gameOver then s
    else
      var cell := s.grid.cells[p];
      if cell.isRevealed then s
      else
        var flagged := !cell.isFlagged;
        var grid := s.grid.(cells := s.grid.cells[p := cell.(isFlagged := flagged)]);
        s.(grid := grid, flags := if flagged then s.flags + 1 else s.flags - 1)
  }

  /** The flag counter keeps counting the flagged cells, and no flag lands on
      a revealed cell. */
  lemma FlagKeepsInv(s: Game, p: Pos)
    requires Inv(s) && p in s.grid.cells
    ensures Inv(ToggleFlag(s, p))
    ensures PhaseOf(ToggleFlag(s, p)) == PhaseOf(s)
  {
    var r := ToggleFlag(s, p);
    if !s.gameOver && !s.grid.cells[p].isRevealed {
      assert Valid(r.grid);
      assert Revealed(r.grid) == Revealed(s.grid);
      assert Mines(r.grid) == Mines(s.grid);
      assert SameLayout(s.grid, r.grid);
      ConsistentKept(s.grid, r.grid);
      FlagCount(s, p);
      assert (forall q :: q in r.grid.cells ==> !(r.grid.cells[q].isRevealed && r.grid.cells[q].isFlagged));
      assert (forall q :: q in r.grid.cells && r.grid.cells[q].isRevealed ==> !r.grid.cells[q].isMine);
      assert r.firstClick ==> Uncounted(r.grid);
      assert CheckWin(r) == CheckWin(s);
    }
  }

  lemma FlagCount(s: Game, p: Pos)
    requires p in s.grid.cells && !s.gameOver && !s.grid.cells[p].isRevealed
    requires s.flags == |Flagged(s.grid)|
    ensures ToggleFlag(s, p).flags == |Flagged(ToggleFlag(s, p).grid)|
  {
    var r := ToggleFlag(s, p);
    if r.grid.cells[p].isFlagged {
      assert Flagged(r.grid) == Flagged(s.grid) + {p};
    } else {
      assert Flagged(s.grid) == Flagged(r.grid) + {p};
    }
  }

  /** Toggling the same cell twice restores the flag and the counter. */
  lemma FlagTwice(s: Game, p: Pos)
    requires !s.gameOver ==> p in s.grid.cells
    ensures ToggleFlag(ToggleFlag(s, p), p) == s
  {
    if !s.gameOver && !s.grid.cells[p].isRevealed {
      assert ToggleFlag(ToggleFlag(s, p), p).grid.cells == s.grid.cells;
    }
  }

  // ---------------------------------------------------------------------
  // Clicks

  /** The first-click branch of `handleClick`: lay the mines around `p` and
      leave the first-click state. Later clicks pass through. */
  function Arm(s: Game, p: Pos, draws: seq<Pos>): (r: Option<Game>)
    requires Valid(s.grid) && p in s.grid.cells && DrawsOnBoard(s.grid, draws)
    ensures r.None? ==> s.firstClick && PlaceMines(s.grid, p, draws, s.mines).None?
    ensures r.Some? ==> Valid(r.value.grid) && !r.value.firstClick
    ensures r.Some? ==> r.value.grid.rows == s.grid.rows && r.value.grid.cols == s.grid.cols
    ensures r.Some? ==> r.value.mines == s.mines && r.value.flags == s.flags && r.value.gameOver == s.gameOver
    ensures !s.firstClick ==> r == Some(s)
    ensures r.Some? && s.firstClick ==>
              && Mines(s.grid) <= Mines(r.value.grid)
              && |Mines(r.value.grid)| == |Mines(s.grid)| + s.mines
              && r.value.grid.cells[p].isMine == s.grid.cells[p].isMine
    ensures r.Some? ==> forall q :: q in s.grid.cells ==>
              && r.value.grid.cells[q].isRevealed == s.grid.cells[q].isRevealed
              && r.value.grid.cells[q].isFlagged == s.grid.cells[q].isFlagged
  {
    if s.firstClick then
      match PlaceMines(s.grid, p, draws, s.mines)
      case None => None
      case Some(grid) => Some(s.(grid := grid, firstClick := false))
    else
      Some(s)
  }

  /** After the first-click branch the invariant holds, the clicked cell is
      safe if this was the first click, and the board carries exactly `mines`
      mines with consistent counts. */
  lemma ArmKeepsInv(s: Game, p: Pos, draws: seq<Pos>)
    requires Inv(s) && !s.gameOver && p in s.grid.cells && DrawsOnBoard(s.grid, draws)
    requires Arm(s, p, draws).Some?
    ensures Inv(Arm(s, p, draws).value)
    ensures s.firstClick ==> !Arm(s, p, draws).value.grid.cells[p].isMine
    ensures Revealed(Arm(s, p, draws).value.grid) == Revealed(s.grid)
  {
    if s.firstClick {
      var a := Arm(s, p, draws).value;
      PlacedFacts(s.grid, p, draws, s.mines);
      var g := a.grid;
      assert forall q :: q in g.cells ==> !g.cells[q].isRevealed by {
        forall q | q in g.cells ensures !g.cells[q].isRevealed {
          assert q !in Revealed(g);
        }
      }
      assert CheckWin(a) == CheckWin(s);
    }
  }

  /** Mine placement on the board of a game still waiting for its first click. */
  lemma PlacedFacts(g0: Grid, p: Pos, draws: seq<Pos>, mines: nat)
    requires Valid(g0) && p in g0.cells && DrawsOnBoard(g0, draws)
    requires Mines(g0) == {} && Revealed(g0) == {} && Uncounted(g0)
    requires PlaceMines(g0, p, draws, mines).Some?
    ensures var g := PlaceMines(g0, p, draws, mines).value;
      && Valid(g) && g.rows == g0.rows && g.cols == g0.cols
      && !g.cells[p].isMine
      && Revealed(g) == {} && Flagged(g) == Flagged(g0)
      && |Mines(g)| == mines && Consistent(g)
  {
    var g := PlaceMines(g0, p, draws, mines).value;
    assert p !in Mines(g0);
    assert Revealed(g) == Revealed(g0);
    assert Flagged(g) == Flagged(g0);
  }

  /** `handleClick(p)`. Once the game is over nothing happens. The first click
      lays the mines before anything else, even on a flagged cell. Then a
      flagged or revealed cell is left alone; a mine ends the game (the mines
      are shown, which changes no logical state); otherwise the fill runs and
      the game ends if it is won. `None` only when the supplied draws ran out
      during mine placement. */
  function HandleClick(s: Game, p: Pos, draws: seq<Pos>): (r: Option<Game>)
    requires Valid(s.grid) && DrawsOnBoard(s.grid, draws)
    requires !s.gameOver ==> p in s.grid.cells
    ensures s.gameOver ==> r == Some(s)
    ensures r.None? ==> !s.gameOver && s.firstClick && PlaceMines(s.grid, p, draws, s.mines).None?
    ensures r.Some? ==> Valid(r.value.grid) && r.value.grid.rows == s.grid.rows && r.value.grid.cols == s.grid.cols
    ensures r.Some? ==> r.value.mines == s.mines && r.value.flags == s.flags
    ensures r.Some? && !s.gameOver ==> !r.value.firstClick
  {
    if s.gameOver then Some(s)
    else
      match Arm(s, p, draws)
      case None => None
      case Some(a) =>
        var cell := a.grid.cells[p];
        if cell.isFlagged || cell.isRevealed then Some(a)
        else if cell.isMine then Some(a.(gameOver := true))
        else
          var b := a.(grid := RevealCell(a.grid, p));
          Some(if CheckWin(b) then b.(gameOver := true) else b)
  }

  /** A first click can always succeed: whenever the game is in the
      invariant, some on-board draws let the click place every mine. */
  lemma FirstClickPossible(s: Game, p: Pos)
    requires Inv(s) && s.firstClick && p in s.grid.cells
    ensures exists draws :: DrawsOnBoard(s.grid, draws) && HandleClick(s, p, draws).Some?
  {
    PlacementPossible(s.grid, p, s.mines);
    var draws :| DrawsOnBoard(s.grid, draws) && PlaceMines(s.grid, p, draws, s.mines).Some?;
    assert HandleClick(s, p, draws).Some?;
  }

  /** Opening cells on a consistent board without uncovering a mine keeps
      every part of the invariant except the win clause. */
  lemma OpenKeepsInv(a: Game, g: Grid)
    requires Inv(a) && !a.firstClick && Valid(g)
    requires OnlyOpens(a.grid, g) && NoMineOpened(a.grid, g)
    ensures var b := a.(grid := g);
      && b.mines < b.grid.rows * b.grid.cols
      && (forall q :: q in g.cells ==> !(g.cells[q].isRevealed && g.cells[q].isFlagged))
      && (forall q :: q in g.cells && g.cells[q].isRevealed ==> !g.cells[q].isMine)
      && b.flags == |Flagged(g)|
      && Consistent(g) && |Mines(g)| == b.mines
  {
    OpensKeepMarks(a.grid, g);
    OpensKeepSafe(a.grid, g);
    LayoutKept(a.grid, g);
  }

  /** Every click keeps the invariant. */
  lemma ClickKeepsInv(s: Game, p: Pos, draws: seq<Pos>)
    requires Inv(s) && p in s.grid.cells && DrawsOnBoard(s.grid, draws)
    ensures HandleClick(s, p, draws).Some? ==> Inv(HandleClick(s, p, draws).value)
  {
    if !s.gameOver && Arm(s, p, draws).Some? {
      ArmKeepsInv(s, p, draws);
      var a := Arm(s, p, draws).value;
      var cell := a.grid.cells[p];
      if !Unopened(cell) {
        assert HandleClick(s, p, draws) == Some(a);
      } else if cell.isMine {
        assert HandleClick(s, p, draws) == Some(a.(gameOver := true));
      } else {
        RevealKeepsInv(a, p);
      }
    }
  }

  /** The fill from a safe, unopened cell of an armed game keeps the
      invariant, whether or not it wins. */
  lemma RevealKeepsInv(a: Game, p: Pos)
    requires Inv(a) && !a.firstClick && !a.gameOver && p in a.grid.cells
    requires Unopened(a.grid.cells[p]) && !a.grid.cells[p].isMine
    ensures var b := a.(grid := RevealCell(a.grid, p));
      Inv(if CheckWin(b) then b.(gameOver := true) else b)
  {
    var g := RevealCell(a.grid, p);
    OpenKeepsInv(a, g);
  }

  /** What one click does, for a game in the invariant that is not over
      (`a` is the game after the first-click branch). */
  lemma ClickOutcome(s: Game, p: Pos, draws: seq<Pos>)
    requires Inv(s) && !s.gameOver && p in s.grid.cells && DrawsOnBoard(s.grid, draws)
    requires HandleClick(s, p, draws).Some?
    ensures Arm(s, p, draws).Some?
    ensures var a := Arm(s, p, draws).value;
            var cell := a.grid.cells[p];
            var r := HandleClick(s, p, draws).value;
            && (s.firstClick ==> !cell.isMine && |Mines(a.grid)| == s.mines)
            && r.flags == s.flags && Flagged(r.grid) == Flagged(s.grid)
            && (!Unopened(cell) ==> r == a && PhaseOf(r) == Active)
            && (Unopened(cell) && cell.isMine ==> r.grid == a.grid && PhaseOf(r) == Lost)
            && (Unopened(cell) && !cell.isMine ==>
                  && OnlyOpens(a.grid, r.grid) && FillClosed(a.grid, r.grid)
                  && r.grid.cells[p].isRevealed
                  && (r.gameOver <==> CheckWin(r))
                  && (PhaseOf(r) == Won || PhaseOf(r) == Active))
  {
    ArmKeepsInv(s, p, draws);
    var a := Arm(s, p, draws).value;
    var cell := a.grid.cells[p];
    assert Flagged(a.grid) == Flagged(s.grid);
    if !Unopened(cell) {
      assert HandleClick(s, p, draws) == Some(a);
    } else if cell.isMine {
      assert HandleClick(s, p, draws) == Some(a.(gameOver := true));
      assert !CheckWin(a);
    } else {
      var b := a.(grid := RevealCell(a.grid, p));
      OpensKeepMarks(a.grid, b.grid);
      assert HandleClick(s, p, draws) == Some(if CheckWin(b) then b.(gameOver := true) else b);
    }
  }

  /** Won and Lost are terminal; a click on a game that is not over leaves
      Pending for good. */
  lemma ClickPhase(s: Game, p: Pos, draws: seq<Pos>)
    requires Inv(s) && p in s.grid.cells && DrawsOnBoard(s.grid, draws)
    requires HandleClick(s, p, draws).Some?
    ensures PhaseOf(s) == Won || PhaseOf(s) == Lost ==> HandleClick(s, p, draws).value == s
    ensures PhaseOf(HandleClick(s, p, draws).value) != Pending
  {
    if !s.gameOver {
      ClickOutcome(s, p, draws);
    }
  }

  /** With mines laid, the win check holds exactly when every safe cell is
      revealed. */
  lemma WinIffAllSafeRevealed(s: Game)
    requires Inv(s) && !s.firstClick
    ensures CheckWin(s) <==> forall q :: q in s.grid.cells && !s.grid.cells[q].isMine ==> s.grid.cells[q].isRevealed
  {
    var g := s.grid;
    SafeCellsCard(g);
    PositionsCard(g.rows, g.cols);
    assert |SafeCells(g)| == g.rows * g.cols - s.mines;
    assert Revealed(g) <= SafeCells(g);
    AllSafeRevealed(g);
    if CheckWin(s) {
      SubsetSameCard(Revealed(g), SafeCells(g));
    }
  }

  function SafeCells(g: Grid): set<Pos> {
    set q | q in g.cells && !g.cells[q].isMine
  }

  lemma SafeCellsCard(g: Grid)
    ensures |SafeCells(g)| == |g.cells.Keys| - |Mines(g)|
  {
    assert g.cells.Keys == SafeCells(g) + Mines(g);
    assert SafeCells(g) !! Mines(g);
  }

  lemma AllSafeRevealed(g: Grid)
    requires Revealed(g) <= SafeCells(g)
    ensures (forall q :: q in g.cells && !g.cells[q].isMine ==> g.cells[q].isRevealed) <==> Revealed(g) == SafeCells(g)
  {
    if forall q :: q in g.cells && !g.cells[q].isMine ==> g.cells[q].isRevealed {
      assert SafeCells(g) <= Revealed(g);
    }
    if Revealed(g) == SafeCells(g) {
      forall q | q in g.cells && !g.cells[q].isMine
        ensures g.cells[q].isRevealed
      {
        assert q in SafeCells(g);
      }
    }
  }

  lemma SubsetSameCard<T>(a: set<T>, b: set<T>)
    requires a <= b && |a| == |b|
    ensures a == b
  {
    assert b == a + (b - a);
    assert |b - a| == 0;
  }

  // ---------------------------------------------------------------------
  // Sessions of several commands

  datatype Command = Click(p: Pos) | Flag(p: Pos)

  predicate CommandsOnBoard(g: Grid, cmds: seq<Command>) {
    forall i :: 0 <= i < |cmds| ==> cmds[i].p in g.cells
  }

  /** Play the commands in order; the draws serve the first click. */
  function Run(s: Game, cmds: seq<Command>, draws: seq<Pos>): (r: Option<Game>)
    requires Valid(s.grid) && DrawsOnBoard(s.grid, draws) && CommandsOnBoard(s.grid, cmds)
    ensures r.Some? ==> r.value.grid.rows == s.grid.rows && r.value.grid.cols == s.grid.cols
    decreases |cmds|
  {
    if |cmds| == 0 then Some(s)
    else
      var next := match cmds[0]
        case Click(p) => HandleClick(s, p, draws)
        case Flag(p) => Some(ToggleFlag(s, p));
      match next
      case None => None
      case Some(s') => Run(s', cmds[1..], draws)
  }

  /** Any sequence of commands keeps the invariant. */
  lemma {:induction false} RunKeepsInv(s: Game, cmds: seq<Command>, draws: seq<Pos>)
    requires Inv(s) && DrawsOnBoard(s.grid, draws) && CommandsOnBoard(s.grid, cmds)
    ensures Run(s, cmds, draws).Some? ==> Inv(Run(s, cmds, draws).value)
    decreases |cmds|
  {
    if |cmds| > 0 {
      match cmds[0]
      case Click(p) =>
        ClickKeepsInv(s, p, draws);
        if HandleClick(s, p, draws).Some? {
          RunKeepsInv(HandleClick(s, p, draws).value, cmds[1..], draws);
        }
      case Flag(p) =>
        FlagKeepsInv(s, p);
        RunKeepsInv(ToggleFlag(s, p), cmds[1..], draws);
    }
  }

  /** Once the game is over, no command changes anything. */
  lemma {:induction false} GameOverIsFinal(s: Game, cmds: seq<Command>, draws: seq<Pos>)
    requires s.gameOver && Valid(s.grid) && DrawsOnBoard(s.grid, draws) && CommandsOnBoard(s.grid, cmds)
    ensures Run(s, cmds, draws) == Some(s)
    decreases |cmds|
  {
    if |cmds| > 0 {
      GameOverIsFinal(s, cmds[1..], draws);
    }
  }

}
