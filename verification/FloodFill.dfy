/** `revealCell`: the recursive flood-fill that opens a cell and, when the
    cell has no neighbouring mine, every neighbour in turn. */
module FloodFill {
  import opened Board

  /** A cell the fill may open: concealed and not flagged. */
  predicate Unopened(c: Cell) {
    !c.isRevealed && !c.isFlagged
  }

  /** `cell.isRevealed = true`: the cell is shown and keeps its mine, flag
      and count. */
  function Open(c: Cell): (r: Cell)
    ensures r.isRevealed && !Unopened(r)
    ensures r.isMine == c.isMine && r.isFlagged == c.isFlagged && r.adjacent == c.adjacent
  {
    c.(isRevealed := true)
  }

  /** `r` is `g` with some unopened cells revealed; nothing else differs. */
  predicate OnlyOpens(g: Grid, r: Grid) {
    && r.rows == g.rows && r.cols == g.cols && r.cells.Keys == g.cells.Keys
    && forall q :: q in g.cells ==>
         r.cells[q] == g.cells[q] || (Unopened(g.cells[q]) && r.cells[q] == Open(g.cells[q]))
  }

  /** Every neighbour of `q` is revealed or flagged in `g`. */
  predicate Settled(g: Grid, q: Pos) {
    forall n :: n in Neighbors(g.rows, g.cols, q) ==>
      n in g.cells && (g.cells[n].isRevealed || g.cells[n].isFlagged)
  }

  /** Every cell the fill opened with a zero count had its whole
      neighbourhood opened (or flag-blocked) too. */
  predicate FillClosed(g: Grid, r: Grid) {
    forall q :: q in g.cells && q in r.cells && !g.cells[q].isRevealed && r.cells[q].isRevealed && r.cells[q].adjacent == 0 ==>
      Settled(r, q)
  }

  /** No cell opened between `g` and `r` holds a mine. */
  predicate NoMineOpened(g: Grid, r: Grid) {
    forall q :: q in g.cells && q in r.cells && !g.cells[q].isRevealed && r.cells[q].isRevealed ==>
      !g.cells[q].isMine
  }

  lemma OnlyOpensShrinks(g: Grid, r: Grid)
    requires OnlyOpens(g, r)
    ensures Unrevealed(r) <= Unrevealed(g)
    ensures |Unrevealed(r)| <= |Unrevealed(g)|
  {
    SubsetCard(Unrevealed(r), Unrevealed(g));
  }

  lemma OnlyOpensTrans(a: Grid, b: Grid, c: Grid)
    requires OnlyOpens(a, b) && OnlyOpens(b, c)
    ensures OnlyOpens(a, c)
  {
  }

  /** Opening cells changes neither mines nor counts. */
  lemma LayoutKept(g: Grid, r: Grid)
    requires Consistent(g) && OnlyOpens(g, r)
    ensures Consistent(r)
  {
    assert SameLayout(g, r);
    ConsistentKept(g, r);
  }

  /** Opening cells moves neither flags nor mines. */
  lemma OpensKeepMarks(g: Grid, r: Grid)
    requires OnlyOpens(g, r)
    ensures Flagged(r) == Flagged(g) && Mines(r) == Mines(g)
  {
  }

  /** Opening only unflagged, mine-free cells keeps every revealed cell
      unflagged and mine-free. */
  lemma OpensKeepSafe(g: Grid, r: Grid)
    requires OnlyOpens(g, r) && NoMineOpened(g, r)
    requires forall q :: q in g.cells ==> !(g.cells[q].isRevealed && g.cells[q].isFlagged)
    requires forall q :: q in g.cells && g.cells[q].isRevealed ==> !g.cells[q].isMine
    ensures forall q :: q in r.cells ==> !(r.cells[q].isRevealed && r.cells[q].isFlagged)
    ensures forall q :: q in r.cells && r.cells[q].isRevealed ==> !r.cells[q].isMine
  {
    forall q | q in r.cells
      ensures !(r.cells[q].isRevealed && r.cells[q].isFlagged)
      ensures r.cells[q].isRevealed ==> !r.cells[q].isMine
    {
      assert q in g.cells;
    }
  }

  /** Opening more cells keeps a settled neighbourhood settled. */
  lemma SettledKept(g: Grid, r: Grid, q: Pos)
    requires OnlyOpens(g, r) && Settled(g, q)
    ensures Settled(r, q)
  {
    forall n | n in Neighbors(r.rows, r.cols, q)
      ensures n in r.cells && (r.cells[n].isRevealed || r.cells[n].isFlagged)
    {
      assert n in g.cells;
    }
  }

  /** `revealCell(p)`: a revealed or flagged cell is left alone; otherwise the
      cell is opened and, if no mine is around it, the fill continues into
      each neighbour in scan order. */
  function RevealCell(g: Grid, p: Pos): (r: Grid)
    requires Valid(g) && p in g.cells
    decreases |Unrevealed(g)|, 0
    ensures Valid(r) && OnlyOpens(g, r)
    ensures |Unrevealed(r)| <= |Unrevealed(g)|
    ensures !Unopened(g.cells[p]) ==> r == g
    ensures Unopened(g.cells[p]) ==> r.cells[p].isRevealed
    ensures FillClosed(g, r)
    ensures Consistent(g) && !g.cells[p].isMine ==> NoMineOpened(g, r)
  {
    var cell := g.cells[p];
    if cell.isRevealed || cell.isFlagged then g
    else
      var g1 := g.(cells := g.cells[p := Open(cell)]);
      OpenOne(g, g1, p);
      if cell.adjacent > 0 then g1
      else
        var ns := Neighbors(g.rows, g.cols, p);
        NeighborsOnBoard(g1, p);
        var r := RevealAll(g1, ns);
        RevealCellFacts(g, g1, r, p);
        r
  }

  /** Opening the single cell `p`: one fewer concealed cell, and on its own
      a finished fill when `p` has a mine around it. */
  lemma OpenOne(g: Grid, g1: Grid, p: Pos)
    requires Valid(g) && p in g.cells && Unopened(g.cells[p])
    requires g1 == g.(cells := g.cells[p := Open(g.cells[p])])
    ensures Valid(g1) && OnlyOpens(g, g1)
    ensures |Unrevealed(g1)| == |Unrevealed(g)| - 1
    ensures g1.cells[p].isRevealed
    ensures g.cells[p].adjacent > 0 ==> FillClosed(g, g1)
    ensures !g.cells[p].isMine ==> NoMineOpened(g, g1)
  {
    assert Unrevealed(g1) == Unrevealed(g) - {p};
  }

  /** The fill from a zero-count cell, as seen from before the cell was
      opened. */
  lemma RevealCellFacts(g: Grid, g1: Grid, r: Grid, p: Pos)
    requires Valid(g) && p in g.cells && Unopened(g.cells[p]) && g.cells[p].adjacent == 0
    requires g1 == g.(cells := g.cells[p := Open(g.cells[p])])
    requires Valid(g1) && OnlyOpens(g1, r)
    requires forall n :: n in Neighbors(g.rows, g.cols, p) ==> r.cells[n].isRevealed || r.cells[n].isFlagged
    requires FillClosed(g1, r)
    requires Consistent(g1) && (forall n :: n in Neighbors(g.rows, g.cols, p) ==> !g1.cells[n].isMine) ==> NoMineOpened(g1, r)
    ensures OnlyOpens(g, r)
    ensures FillClosed(g, r)
    ensures Consistent(g) && !g.cells[p].isMine ==> NoMineOpened(g, r)
  {
    assert OnlyOpens(g, g1);
    OnlyOpensTrans(g, g1, r);
    RevealCellClosed(g, g1, r, p);
    if Consistent(g) && !g.cells[p].isMine {
      assert SameLayout(g, g1);
      ConsistentKept(g, g1);
      ZeroCountSafe(g, p);
      assert forall n :: n in Neighbors(g.rows, g.cols, p) ==> !g1.cells[n].isMine;
      RevealCellSafe(g, g1, r, p);
    }
  }

  /** The opened zero-count cell is settled, and so is every cell the
      fill from its neighbours opened with a zero count. */
  lemma RevealCellClosed(g: Grid, g1: Grid, r: Grid, p: Pos)
    requires Valid(g) && p in g.cells && Unopened(g.cells[p]) && g.cells[p].adjacent == 0
    requires g1 == g.(cells := g.cells[p := Open(g.cells[p])])
    requires OnlyOpens(g1, r) && OnlyOpens(g, r)
    requires forall n :: n in Neighbors(g.rows, g.cols, p) ==> r.cells[n].isRevealed || r.cells[n].isFlagged
    requires FillClosed(g1, r)
    ensures FillClosed(g, r)
  {
    assert Settled(r, p);
    forall q | q in g.cells && q in r.cells && !g.cells[q].isRevealed && r.cells[q].isRevealed && r.cells[q].adjacent == 0
      ensures Settled(r, q)
    {
      if q != p {
        assert g1.cells[q] == g.cells[q];
      }
    }
  }

  /** Opening a safe cell and then filling opens no mine if the fill alone
      opens none. */
  lemma RevealCellSafe(g: Grid, g1: Grid, r: Grid, p: Pos)
    requires p in g.cells && !g.cells[p].isMine
    requires g1 == g.(cells := g.cells[p := Open(g.cells[p])])
    requires OnlyOpens(g1, r) && NoMineOpened(g1, r)
    ensures NoMineOpened(g, r)
  {
    forall q | q in g.cells && q in r.cells && !g.cells[q].isRevealed && r.cells[q].isRevealed
      ensures !g.cells[q].isMine
    {
      if q != p {
        assert g1.cells[q] == g.cells[q];
      }
    }
  }

  /** `getNeighbors(r, c).forEach(revealCell)`: fill from each coordinate of
      `ns` in turn, each on the board the previous one left. */
  function RevealAll(g: Grid, ns: seq<Pos>): (r: Grid)
    requires Valid(g) && forall n :: n in ns ==> n in g.cells
    decreases |Unrevealed(g)|, 1, |ns|
    ensures Valid(r) && OnlyOpens(g, r)
    ensures |Unrevealed(r)| <= |Unrevealed(g)|
    ensures forall n :: n in ns ==> r.cells[n].isRevealed || r.cells[n].isFlagged
    ensures FillClosed(g, r)
    ensures Consistent(g) && (forall n :: n in ns ==> !g.cells[n].isMine) ==> NoMineOpened(g, r)
  {
    if |ns| == 0 then g
    else
      var g1 := RevealCell(g, ns[0]);
      var r := RevealAll(g1, ns[1..]);
      RevealAllFacts(g, g1, r, ns);
      RevealAllSafe(g, g1, r, ns);
      r
  }

  /** One step of the fold composed with the rest of it: the cells touched. */
  lemma RevealAllFacts(g: Grid, g1: Grid, r: Grid, ns: seq<Pos>)
    requires Valid(g) && |ns| > 0 && forall n :: n in ns ==> n in g.cells
    requires OnlyOpens(g, g1) && OnlyOpens(g1, r)
    requires Unopened(g.cells[ns[0]]) ==> g1.cells[ns[0]].isRevealed
    requires !Unopened(g.cells[ns[0]]) ==> g1 == g
    requires forall n :: n in ns[1..] ==> r.cells[n].isRevealed || r.cells[n].isFlagged
    requires FillClosed(g, g1) && FillClosed(g1, r)
    ensures OnlyOpens(g, r)
    ensures forall n :: n in ns ==> r.cells[n].isRevealed || r.cells[n].isFlagged
    ensures FillClosed(g, r)
  {
    OnlyOpensTrans(g, g1, r);
    FirstStaysOpen(g, g1, r, ns[0]);
    assert forall n :: n in ns ==> n == ns[0] || n in ns[1..];
    FillClosedTrans(g, g1, r);
  }

  /** One step of the fold composed with the rest of it: no mine opened. */
  lemma RevealAllSafe(g: Grid, g1: Grid, r: Grid, ns: seq<Pos>)
    requires Valid(g) && |ns| > 0 && forall n :: n in ns ==> n in g.cells
    requires OnlyOpens(g, g1) && OnlyOpens(g1, r)
    requires Consistent(g) && !g.cells[ns[0]].isMine ==> NoMineOpened(g, g1)
    requires Consistent(g1) && (forall n :: n in ns[1..] ==> !g1.cells[n].isMine) ==> NoMineOpened(g1, r)
    ensures Consistent(g) && (forall n :: n in ns ==> !g.cells[n].isMine) ==> NoMineOpened(g, r)
  {
    if Consistent(g) && (forall n :: n in ns ==> !g.cells[n].isMine) {
      ConsistentKept(g, g1);
      assert forall n :: n in ns[1..] ==> n in ns && !g1.cells[n].isMine;
      NoMineOpenedTrans(g, g1, r);
    }
  }

  /** The first coordinate of the fold stays revealed or flagged. */
  lemma FirstStaysOpen(g: Grid, g1: Grid, r: Grid, n: Pos)
    requires n in g.cells && OnlyOpens(g, g1) && OnlyOpens(g1, r)
    requires Unopened(g.cells[n]) ==> g1.cells[n].isRevealed
    requires !Unopened(g.cells[n]) ==> g1 == g
    ensures r.cells[n].isRevealed || r.cells[n].isFlagged
  {
  }

  lemma FillClosedTrans(g: Grid, g1: Grid, r: Grid)
    requires OnlyOpens(g, g1) && OnlyOpens(g1, r)
    requires FillClosed(g, g1) && FillClosed(g1, r)
    ensures FillClosed(g, r)
  {
    forall q | q in g.cells && q in r.cells && !g.cells[q].isRevealed && r.cells[q].isRevealed && r.cells[q].adjacent == 0
      ensures Settled(r, q)
    {
      if g1.cells[q].isRevealed {
        SettledKept(g1, r, q);
      }
    }
  }

  lemma NoMineOpenedTrans(g: Grid, g1: Grid, r: Grid)
    requires OnlyOpens(g, g1) && OnlyOpens(g1, r)
    requires NoMineOpened(g, g1) && NoMineOpened(g1, r)
    ensures NoMineOpened(g, r)
  {
  }

}
