/** `placeMines`: rejection sampling of mine positions that skips the first
    clicked cell, followed by the pass that writes every safe cell's count of
    neighbouring mines. The random source is replaced by the sequence of
    coordinates it produced. */
module MinePlacement {
  import opened Wrappers
  import opened Board

  /** Every draw names a cell of the board, as flooring a random fraction of
      `rows` and of `cols` does. */
  predicate DrawsOnBoard(g: Grid, draws: seq<Pos>) {
    forall i :: 0 <= i < |draws| ==> draws[i] in g.cells
  }

  /** One accepted draw, `grid[row][col].isMine = true`: the drawn cell becomes
      a mine and is otherwise as it was; no other cell changes. */
  function SetMine(g: Grid, d: Pos): (r: Grid)
    requires d in g.cells
    ensures r.rows == g.rows && r.cols == g.cols && r.cells.Keys == g.cells.Keys
    ensures r.cells[d].isMine && r.cells[d] == g.cells[d].(isMine := true)
    ensures forall q :: q in g.cells && q != d ==> r.cells[q] == g.cells[q]
    ensures Mines(r) == Mines(g) + {d}
  {
    var r := g.(cells := g.cells[d := g.cells[d].(isMine := true)]);
    assert Mines(r) == Mines(g) + {d};
    r
  }

  /** `r` is `g` with mines laid on mine-free cells other than `ex`; nothing
      else differs. */
  predicate MinesLaid(g: Grid, r: Grid, ex: Pos) {
    && r.rows == g.rows && r.cols == g.cols && r.cells.Keys == g.cells.Keys
    && forall q :: q in g.cells ==>
         || r.cells[q] == g.cells[q]
         || (q != ex && !g.cells[q].isMine && r.cells[q] == g.cells[q].(isMine := true))
  }

  /** The sampling loop, with `placed` mines laid so far out of `target`.
      A draw equal to `ex` or to a cell that already holds a mine is
      rejected and does not count. `None` means the draws ran out first. */
  function PlaceLoop(g: Grid, ex: Pos, draws: seq<Pos>, placed: nat, target: nat): (r: Option<Grid>)
    requires DrawsOnBoard(g, draws) && placed <= target
    decreases |draws|
    ensures r.Some? ==> MinesLaid(g, r.value, ex)
    ensures r.Some? ==> |Mines(r.value)| == |Mines(g)| + (target - placed)
  {
    if placed < target then
      if |draws| == 0 then None
      else
        var d := draws[0];
        if d == ex || g.cells[d].isMine then
          PlaceLoop(g, ex, draws[1..], placed, target)
        else
          var g' := SetMine(g, d);
          PlaceLoop(g', ex, draws[1..], placed + 1, target)
    else
      Some(g)
  }

  /** Every cell carries a zero count, as on a freshly set-up board. */
  predicate Uncounted(g: Grid) {
    forall q :: q in g.cells ==> g.cells[q].adjacent == 0
  }

  /** The cell the counting pass leaves at a position: mine cells are
      skipped, every other cell gets the count over its neighbour list. */
  function Counted(g: Grid, q: Pos): (c: Cell)
    requires Valid(g) && q in g.cells
    ensures c.isMine == g.cells[q].isMine && c.isRevealed == g.cells[q].isRevealed
    ensures c.isFlagged == g.cells[q].isFlagged
    ensures c.isMine ==> c.adjacent == g.cells[q].adjacent
    ensures !c.isMine ==> c.adjacent == |MineNeighbors(g, q)|
  {
    NeighborCountIsMineNeighbors(g, q);
    if g.cells[q].isMine then g.cells[q]
    else g.cells[q].(adjacent := CountMines(g.cells, Neighbors(g.rows, g.cols, q)))
  }

  /** What the counting pass achieves, stated for any board built cell by
      cell with `Counted`. */
  lemma CountedFacts(g: Grid, r: Grid)
    requires Valid(g) && r.rows == g.rows && r.cols == g.cols && r.cells.Keys == g.cells.Keys
    requires forall q :: q in g.cells ==> r.cells[q] == Counted(g, q)
    ensures forall q :: q in g.cells && !g.cells[q].isMine ==> r.cells[q].adjacent == |MineNeighbors(r, q)|
    ensures Uncounted(g) ==> Consistent(r)
  {
    assert Valid(r);
    forall q | q in g.cells
      ensures r.cells[q].adjacent == (if r.cells[q].isMine then g.cells[q].adjacent else |MineNeighbors(r, q)|)
      ensures Uncounted(g) ==> CountRight(r, q)
    {
      CountedAt(g, r, q);
    }
  }

  /** The counting pass at one cell. */
  lemma CountedAt(g: Grid, r: Grid, q: Pos)
    requires Valid(g) && r.rows == g.rows && r.cols == g.cols && r.cells.Keys == g.cells.Keys
    requires forall x :: x in g.cells ==> r.cells[x].isMine == g.cells[x].isMine
    requires q in g.cells && r.cells[q] == Counted(g, q)
    ensures r.cells[q].isMine == g.cells[q].isMine
    ensures r.cells[q].adjacent == (if r.cells[q].isMine then g.cells[q].adjacent else |MineNeighbors(r, q)|)
    ensures r.cells[q].adjacent ==
              (if r.cells[q].isMine then g.cells[q].adjacent else CountMines(r.cells, Neighbors(r.rows, r.cols, q)))
  {
    var ns := Neighbors(g.rows, g.cols, q);
    NeighborsOnBoard(g, q);
    CountMinesAgree(g.cells, r.cells, ns);
    NeighborCountIsMineNeighbors(r, q);
  }

  /** The second pass: every mine-free cell gets the number of mines around it;
      mine cells are skipped. */
  function CountAdjacent(g: Grid): (r: Grid)
    requires Valid(g)
    ensures Valid(r) && r.rows == g.rows && r.cols == g.cols
    ensures forall q :: q in g.cells ==>
              && r.cells[q].isMine == g.cells[q].isMine
              && r.cells[q].isRevealed == g.cells[q].isRevealed
              && r.cells[q].isFlagged == g.cells[q].isFlagged
    ensures forall q :: q in g.cells && g.cells[q].isMine ==> r.cells[q] == g.cells[q]
    ensures forall q :: q in g.cells && !g.cells[q].isMine ==> r.cells[q].adjacent == |MineNeighbors(r, q)|
    ensures Uncounted(g) ==> Consistent(r)
  {
    var r := g.(cells := map q | q in g.cells :: Counted(g, q));
    CountedFacts(g, r);
    r
  }

  /** `placeMines(ex)`: lay `mines` mines with the draws, then count. */
  function PlaceMines(g: Grid, ex: Pos, draws: seq<Pos>, mines: nat): (r: Option<Grid>)
    requires Valid(g) && DrawsOnBoard(g, draws)
    ensures r.Some? ==> Valid(r.value) && r.value.rows == g.rows && r.value.cols == g.cols
    ensures r.Some? ==> Mines(g) <= Mines(r.value) && |Mines(r.value)| == |Mines(g)| + mines
    ensures r.Some? && ex in g.cells ==> r.value.cells[ex].isMine == g.cells[ex].isMine
    ensures r.Some? ==> forall q :: q in g.cells ==>
              r.value.cells[q].isRevealed == g.cells[q].isRevealed && r.value.cells[q].isFlagged == g.cells[q].isFlagged
    ensures r.Some? ==> forall q :: q in g.cells ==>
              if r.value.cells[q].isMine then r.value.cells[q].adjacent == g.cells[q].adjacent
              else r.value.cells[q].adjacent == |MineNeighbors(r.value, q)|
    ensures r.Some? && Uncounted(g) ==> Consistent(r.value)
  {
    match PlaceLoop(g, ex, draws, 0, mines)
    case None => None
    case Some(laid) =>
      PlaceMinesFacts(g, laid, ex);
      Some(CountAdjacent(laid))
  }

  /** How the board after the counting pass relates to the board before the
      sampling loop. */
  lemma PlaceMinesFacts(g: Grid, laid: Grid, ex: Pos)
    requires Valid(g) && MinesLaid(g, laid, ex)
    ensures Valid(laid)
    ensures Mines(g) <= Mines(laid)
    ensures Mines(CountAdjacent(laid)) == Mines(laid)
    ensures ex in g.cells ==> laid.cells[ex].isMine == g.cells[ex].isMine
    ensures forall q :: q in g.cells ==>
              CountAdjacent(laid).cells[q].isRevealed == g.cells[q].isRevealed
              && CountAdjacent(laid).cells[q].isFlagged == g.cells[q].isFlagged
              && (CountAdjacent(laid).cells[q].isMine ==> CountAdjacent(laid).cells[q].adjacent == g.cells[q].adjacent)
    ensures Uncounted(g) ==> Uncounted(laid)
  {
    var r := CountAdjacent(laid);
    assert Mines(r) == Mines(laid);
  }

  /** A duplicate-free list of draws that avoids `ex` and the existing mines,
      and is long enough, completes the loop. */
  lemma {:induction false} PlaceLoopCompletes(g: Grid, ex: Pos, draws: seq<Pos>, placed: nat, target: nat)
    requires DrawsOnBoard(g, draws) && placed <= target
    requires target - placed <= |draws|
    requires forall i :: 0 <= i < |draws| ==> draws[i] != ex && !g.cells[draws[i]].isMine
    requires forall i, j :: 0 <= i < j < |draws| ==> draws[i] != draws[j]
    ensures PlaceLoop(g, ex, draws, placed, target).Some?
    decreases |draws|
  {
    if placed < target {
      var d := draws[0];
      var g' := SetMine(g, d);
      var rest := draws[1..];
      DrawTailFree(g, ex, draws);
      assert !(d == ex || g.cells[d].isMine);
      PlaceLoopCompletes(g', ex, rest, placed + 1, target);
      assert PlaceLoop(g, ex, draws, placed, target) == PlaceLoop(g', ex, rest, placed + 1, target);
    }
  }

  /** After the first draw is accepted, the remaining draws still avoid `ex`
      and every mine, and still do not repeat. */
  lemma DrawTailFree(g: Grid, ex: Pos, draws: seq<Pos>)
    requires DrawsOnBoard(g, draws) && |draws| > 0
    requires forall i :: 0 <= i < |draws| ==> draws[i] != ex && !g.cells[draws[i]].isMine
    requires forall i, j :: 0 <= i < j < |draws| ==> draws[i] != draws[j]
    ensures var g' := SetMine(g, draws[0]);
      var rest := draws[1..];
      && DrawsOnBoard(g', rest)
      && (forall i :: 0 <= i < |rest| ==> rest[i] != ex && !g'.cells[rest[i]].isMine)
      && (forall i, j :: 0 <= i < j < |rest| ==> rest[i] != rest[j])
  {
    var rest := draws[1..];
    assert forall i :: 0 <= i < |rest| ==> rest[i] == draws[i + 1];
  }

  /** Some list of the given set's elements, without repetition. */
  ghost function Enumerate(s: set<Pos>): (xs: seq<Pos>)
    ensures |xs| == |s|
    ensures forall i :: 0 <= i < |xs| ==> xs[i] in s
    ensures forall i, j :: 0 <= i < j < |xs| ==> xs[i] != xs[j]
    decreases |s|
  {
    if s == {} then []
    else
      var x :| x in s;
      var rest := Enumerate(s - {x});
      assert forall i :: 0 <= i < |rest| ==> rest[i] != x;
      [x] + rest
  }

  /** When the board has room for `mines` more mines besides `ex`, some
      sequence of draws completes the placement. */
  lemma PlacementPossible(g: Grid, ex: Pos, mines: nat)
    requires Valid(g) && ex in g.cells
    requires |Mines(g)| + mines < g.rows * g.cols
    ensures exists draws :: DrawsOnBoard(g, draws) && PlaceMines(g, ex, draws, mines).Some?
  {
    var all := Positions(g.rows, g.cols);
    PositionsCard(g.rows, g.cols);
    var taken := Mines(g) + {ex};
    var free := all - taken;
    assert |taken| <= |Mines(g)| + 1;
    assert taken <= all;
    assert all == free + taken && free !! taken;
    assert |free| >= mines;
    var draws := Enumerate(free);
    PlaceLoopCompletes(g, ex, draws, 0, mines);
    assert DrawsOnBoard(g, draws) && PlaceMines(g, ex, draws, mines).Some?;
  }

}
