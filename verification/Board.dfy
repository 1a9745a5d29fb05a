/** The grid of a Minesweeper game: cells, coordinates, the Moore
    neighbourhood scan and the adjacency count that `placeMines` writes. */
module Board {

  /** A grid coordinate. It may lie outside the grid: the neighbour scan
      builds such coordinates and then discards them. */
  datatype Pos = Pos(r: int, c: int)

  /** One cell of the board, without its display element. */
  datatype Cell = Cell(isMine: bool, isRevealed: bool, isFlagged: bool, adjacent: nat)

  /** The cell every position starts as when a game is set up. */
  const Fresh: Cell := Cell(false, false, false, 0)

  /** A `rows` x `cols` board; `cells` is keyed by coordinate. */
  datatype Grid = Grid(rows: nat, cols: nat, cells: map<Pos, Cell>)

  predicate InBounds(rows: int, cols: int, q: Pos) {
    0 <= q.r < rows && 0 <= q.c < cols
  }

  /** All coordinates of a `rows` x `cols` board. */
  function Positions(rows: nat, cols: nat): (s: set<Pos>)
    ensures forall q :: q in s <==> InBounds(rows, cols, q)
  {
    var s := set r: int, c: int | 0 <= r < rows && 0 <= c < cols :: Pos(r, c);
    assert forall q :: InBounds(rows, cols, q) ==> Pos(q.r, q.c) == q;
    s
  }

  /** The coordinates of row `r` of a board with `cols` columns. */
  function RowPositions(r: int, cols: nat): (s: set<Pos>)
    ensures forall q: Pos :: q in s <==> q.r == r && 0 <= q.c < cols
  {
    var s := set c: int | 0 <= c < cols :: Pos(r, c);
    assert forall q: Pos :: q.r == r && 0 <= q.c < cols ==> Pos(q.r, q.c) == q;
    s
  }

  /** A board has exactly one cell per in-bounds coordinate. */
  predicate Valid(g: Grid) {
    g.cells.Keys == Positions(g.rows, g.cols)
  }

  lemma {:induction false} RowPositionsCard(r: int, cols: nat)
    ensures |RowPositions(r, cols)| == cols
  {
    if cols == 0 {
      assert RowPositions(r, 0) == {};
    } else {
      RowPositionsCard(r, cols - 1);
      assert RowPositions(r, cols) == RowPositions(r, cols - 1) + {Pos(r, cols - 1)};
    }
  }

  /** A board has `rows * cols` cells. */
  lemma {:induction false} PositionsCard(rows: nat, cols: nat)
    ensures |Positions(rows, cols)| == rows * cols
  {
    if rows == 0 {
      assert Positions(0, cols) == {};
    } else {
      PositionsCard(rows - 1, cols);
      RowPositionsCard(rows - 1, cols);
      var prev := Positions(rows - 1, cols);
      var row := RowPositions(rows - 1, cols);
      assert Positions(rows, cols) == prev + row;
      assert prev * row == {};
      assert |prev + row| == |prev| + |row|;
      MulStep(rows, cols);
    }
  }

  lemma MulStep(rows: nat, cols: nat)
    requires rows > 0
    ensures rows * cols == (rows - 1) * cols + cols
  {
  }

  /** A board whose cells are all concealed, unflagged and mine-free. */
  function NewGrid(rows: nat, cols: nat): (g: Grid)
    ensures Valid(g) && g.rows == rows && g.cols == cols
    ensures forall q :: q in g.cells ==> g.cells[q] == Fresh
  {
    Grid(rows, cols, map q | q in Positions(rows, cols) :: Fresh)
  }

  // ---------------------------------------------------------------------
  // Cell sets

  function Mines(g: Grid): set<Pos> {
    set q | q in g.cells && g.cells[q].isMine
  }

  function Revealed(g: Grid): set<Pos> {
    set q | q in g.cells && g.cells[q].isRevealed
  }

  function Unrevealed(g: Grid): set<Pos> {
    set q | q in g.cells && !g.cells[q].isRevealed
  }

  function Flagged(g: Grid): set<Pos> {
    set q | q in g.cells && g.cells[q].isFlagged
  }

  lemma SubsetCard<T>(a: set<T>, b: set<T>)
    requires a <= b
    ensures |a| <= |b|
  {
    assert b == a + (b - a);
  }

  // ---------------------------------------------------------------------
  // Moore neighbourhood

  /** `q` is one of the up-to-eight cells around `p` (not `p` itself). */
  predicate IsNeighbor(p: Pos, q: Pos) {
    p != q && -1 <= q.r - p.r <= 1 && -1 <= q.c - p.c <= 1
  }

  /** Row-major order of coordinates: the order the scan visits them in. */
  predicate Before(a: Pos, b: Pos) {
    a.r < b.r || (a.r == b.r && a.c < b.c)
  }

  /** The inner loop of the scan: offsets (dr, dc), (dr, dc + 1), ..., (dr, 1),
      skipping (0, 0) and every coordinate off the board. */
  function ScanCols(rows: nat, cols: nat, p: Pos, dr: int, dc: int): (ns: seq<Pos>)
    requires -1 <= dr <= 1 && -1 <= dc <= 2
    decreases 2 - dc
    ensures |ns| <= 2 - dc - (if dr == 0 && dc <= 0 then 1 else 0)
  {
    if dc == 2 then []
    else
      var q := Pos(p.r + dr, p.c + dc);
      (if (dr == 0 && dc == 0) || !InBounds(rows, cols, q) then [] else [q])
        + ScanCols(rows, cols, p, dr, dc + 1)
  }

  /** The outer loop of the scan: rows dr, dr + 1, ..., 1 of the 3 x 3 block. */
  function ScanRows(rows: nat, cols: nat, p: Pos, dr: int): (ns: seq<Pos>)
    requires -1 <= dr <= 2
    decreases 2 - dr
    ensures |ns| <= 3 * (2 - dr) - (if dr <= 0 then 1 else 0)
  {
    if dr == 2 then []
    else ScanCols(rows, cols, p, dr, -1) + ScanRows(rows, cols, p, dr + 1)
  }

  predicate Sorted(ns: seq<Pos>) {
    forall i, j :: 0 <= i < j < |ns| ==> Before(ns[i], ns[j])
  }

  lemma SortedConcat(a: seq<Pos>, b: seq<Pos>)
    requires Sorted(a) && Sorted(b)
    requires forall x, y :: x in a && y in b ==> Before(x, y)
    ensures Sorted(a + b)
  {
    var ns := a + b;
    forall i, j | 0 <= i < j < |ns| ensures Before(ns[i], ns[j]) {
      if j < |a| {
        assert ns[i] == a[i] && ns[j] == a[j];
      } else if i < |a| {
        assert ns[i] == a[i] && a[i] in a;
        assert ns[j] == b[j - |a|] && b[j - |a|] in b;
      } else {
        assert ns[i] == b[i - |a|] && ns[j] == b[j - |a|];
      }
    }
  }

  lemma SortedCons(q: Pos, tail: seq<Pos>)
    requires Sorted(tail) && forall y :: y in tail ==> Before(q, y)
    ensures Sorted([q] + tail)
  {
    var ns := [q] + tail;
    forall i, j | 0 <= i < j < |ns| ensures Before(ns[i], ns[j]) {
      assert ns[j] == tail[j - 1];
      if i > 0 {
        assert ns[i] == tail[i - 1];
      }
    }
  }

  /** The in-bounds neighbours of `p` in row `p.r + dr`, from column offset
      `dc` on. */
  predicate InRowFrom(rows: nat, cols: nat, p: Pos, dr: int, dc: int, q: Pos) {
    q.r == p.r + dr && dc <= q.c - p.c && IsNeighbor(p, q) && InBounds(rows, cols, q)
  }

  /** The inner loop yields exactly the in-bounds neighbours in row `p.r + dr`
      from column offset `dc` on. */
  lemma {:induction false} ScanColsMembers(rows: nat, cols: nat, p: Pos, dr: int, dc: int)
    requires -1 <= dr <= 1 && -1 <= dc <= 2
    decreases 2 - dc
    ensures forall q :: q in ScanCols(rows, cols, p, dr, dc) <==> InRowFrom(rows, cols, p, dr, dc, q)
  {
    if dc < 2 {
      ScanColsMembers(rows, cols, p, dr, dc + 1);
      var x := Pos(p.r + dr, p.c + dc);
      var tail := ScanCols(rows, cols, p, dr, dc + 1);
      var head := if (dr == 0 && dc == 0) || !InBounds(rows, cols, x) then [] else [x];
      assert ScanCols(rows, cols, p, dr, dc) == head + tail;
      forall q
        ensures q in head + tail <==> InRowFrom(rows, cols, p, dr, dc, q)
      {
        assert q in head + tail <==> q in head || q in tail;
        assert InRowFrom(rows, cols, p, dr, dc, q) <==> (q == x && q in head) || InRowFrom(rows, cols, p, dr, dc + 1, q);
      }
    }
  }

  /** Everything the inner loop yields from offset `dc` on lies in row
      `p.r + dr`, at column `p.c + dc` or further right. */
  lemma {:induction false} ScanColsAfter(rows: nat, cols: nat, p: Pos, dr: int, dc: int)
    requires -1 <= dr <= 1 && -1 <= dc <= 2
    decreases 2 - dc
    ensures forall y :: y in ScanCols(rows, cols, p, dr, dc) ==> y.r == p.r + dr && p.c + dc <= y.c
  {
    if dc < 2 {
      ScanColsAfter(rows, cols, p, dr, dc + 1);
    }
  }

  /** ... and it yields them left to right. */
  lemma {:induction false} ScanColsSorted(rows: nat, cols: nat, p: Pos, dr: int, dc: int)
    requires -1 <= dr <= 1 && -1 <= dc <= 2
    decreases 2 - dc
    ensures Sorted(ScanCols(rows, cols, p, dr, dc))
  {
    if dc < 2 {
      ScanColsAfter(rows, cols, p, dr, dc + 1);
      ScanColsSorted(rows, cols, p, dr, dc + 1);
      var q := Pos(p.r + dr, p.c + dc);
      var tail := ScanCols(rows, cols, p, dr, dc + 1);
      if !((dr == 0 && dc == 0) || !InBounds(rows, cols, q)) {
        assert ScanCols(rows, cols, p, dr, dc) == [q] + tail;
        SortedCons(q, tail);
      } else {
        assert ScanCols(rows, cols, p, dr, dc) == tail;
      }
    }
  }

  /** The outer loop yields exactly the in-bounds neighbours from row offset
      `dr` on, in row-major order. */
  lemma {:induction false} ScanRowsSpec(rows: nat, cols: nat, p: Pos, dr: int)
    requires -1 <= dr <= 2
    decreases 2 - dr
    ensures forall q :: q in ScanRows(rows, cols, p, dr) <==>
              dr <= q.r - p.r && IsNeighbor(p, q) && InBounds(rows, cols, q)
    ensures Sorted(ScanRows(rows, cols, p, dr))
  {
    if dr < 2 {
      ScanColsMembers(rows, cols, p, dr, -1);
      ScanColsSorted(rows, cols, p, dr, -1);
      ScanRowsSpec(rows, cols, p, dr + 1);
      var row := ScanCols(rows, cols, p, dr, -1);
      var rest := ScanRows(rows, cols, p, dr + 1);
      assert forall x, y :: x in row && y in rest ==> Before(x, y);
      SortedConcat(row, rest);
    }
  }

  /** The in-bounds Moore neighbours of `p`, in the order the source's two
      nested loops produce them. */
  function Neighbors(rows: nat, cols: nat, p: Pos): (ns: seq<Pos>)
    ensures |ns| <= 8
    ensures forall i :: 0 <= i < |ns| ==> IsNeighbor(p, ns[i]) && InBounds(rows, cols, ns[i])
    ensures forall q {:trigger IsNeighbor(p, q)} :: IsNeighbor(p, q) && InBounds(rows, cols, q) ==> q in ns
    ensures forall i, j :: 0 <= i < j < |ns| ==> ns[i] != ns[j]
  {
    ScanRowsSpec(rows, cols, p, -1);
    ScanRows(rows, cols, p, -1)
  }

  /** Every neighbour of a cell lies on the board. */
  lemma NeighborsOnBoard(g: Grid, p: Pos)
    requires Valid(g)
    ensures forall n :: n in Neighbors(g.rows, g.cols, p) ==> n in g.cells
  {
  }

  /** Membership in the neighbour list, as a single equivalence. */
  lemma NeighborsMember(rows: nat, cols: nat, p: Pos, q: Pos)
    ensures q in Neighbors(rows, cols, p) <==> IsNeighbor(p, q) && InBounds(rows, cols, q)
  {
    var ns := Neighbors(rows, cols, p);
    if q in ns {
      var i :| 0 <= i < |ns| && ns[i] == q;
    }
  }

  /** Being a neighbour is symmetric. */
  lemma NeighborsSymmetric(rows: nat, cols: nat, p: Pos, q: Pos)
    requires InBounds(rows, cols, p) && InBounds(rows, cols, q)
    ensures q in Neighbors(rows, cols, p) <==> p in Neighbors(rows, cols, q)
  {
    NeighborsMember(rows, cols, p, q);
    NeighborsMember(rows, cols, q, p);
  }

  // ---------------------------------------------------------------------
  // Adjacency counts

  /** How many of the coordinates `ns` hold a mine (`filter(isMine).length`). */
  function CountMines(cells: map<Pos, Cell>, ns: seq<Pos>): (n: nat)
    requires forall i :: 0 <= i < |ns| ==> ns[i] in cells
    ensures n <= |ns|
    ensures n == 0 <==> forall i :: 0 <= i < |ns| ==> !cells[ns[i]].isMine
  {
    if |ns| == 0 then 0
    else (if cells[ns[0]].isMine then 1 else 0) + CountMines(cells, ns[1..])
  }

  /** The mines among the coordinates `ns`, as a set. */
  function MinesAmong(cells: map<Pos, Cell>, ns: seq<Pos>): set<Pos> {
    set q | q in ns && q in cells && cells[q].isMine
  }

  /** The mine cells around `p`. */
  function MineNeighbors(g: Grid, p: Pos): set<Pos> {
    set q | q in g.cells && IsNeighbor(p, q) && g.cells[q].isMine
  }

  /** Over a duplicate-free list, counting equals the size of the set. */
  lemma {:induction false} CountMinesCard(cells: map<Pos, Cell>, ns: seq<Pos>)
    requires forall i :: 0 <= i < |ns| ==> ns[i] in cells
    requires forall i, j :: 0 <= i < j < |ns| ==> ns[i] != ns[j]
    ensures CountMines(cells, ns) == |MinesAmong(cells, ns)|
  {
    if |ns| == 0 {
      assert MinesAmong(cells, ns) == {};
    } else {
      CountMinesCard(cells, ns[1..]);
      MinesAmongCons(cells, ns);
    }
  }

  /** Peeling the head off the list. */
  lemma MinesAmongCons(cells: map<Pos, Cell>, ns: seq<Pos>)
    requires |ns| > 0 && ns[0] in cells
    requires forall i :: 1 <= i < |ns| ==> ns[i] != ns[0]
    ensures ns[0] !in MinesAmong(cells, ns[1..])
    ensures MinesAmong(cells, ns) ==
            (if cells[ns[0]].isMine then {ns[0]} else {}) + MinesAmong(cells, ns[1..])
  {
    assert forall q :: q in ns <==> q == ns[0] || q in ns[1..];
  }

  /** The count over the scanned neighbour list is the number of mine cells
      among the in-bounds Moore neighbours. */
  lemma NeighborCountIsMineNeighbors(g: Grid, p: Pos)
    requires Valid(g)
    ensures CountMines(g.cells, Neighbors(g.rows, g.cols, p)) == |MineNeighbors(g, p)|
  {
    var ns := Neighbors(g.rows, g.cols, p);
    NeighborsOnBoard(g, p);
    CountMinesCard(g.cells, ns);
    forall q
      ensures q in MinesAmong(g.cells, ns) <==> q in MineNeighbors(g, p)
    {
      NeighborsMember(g.rows, g.cols, p, q);
    }
    assert MinesAmong(g.cells, ns) == MineNeighbors(g, p);
  }

  /** Two boards that agree on where the mines are give the same counts. */
  lemma {:induction false} CountMinesAgree(a: map<Pos, Cell>, b: map<Pos, Cell>, ns: seq<Pos>)
    requires forall i :: 0 <= i < |ns| ==> ns[i] in a && ns[i] in b && a[ns[i]].isMine == b[ns[i]].isMine
    ensures CountMines(a, ns) == CountMines(b, ns)
  {
    if |ns| > 0 {
      CountMinesAgree(a, b, ns[1..]);
    }
  }

  /** The cell at `q` carries the count the placement pass writes: the
      number of neighbouring mines for a safe cell, and 0 for a mine. */
  predicate CountRight(g: Grid, q: Pos)
    requires Valid(g) && q in g.cells
  {
    NeighborsOnBoard(g, q);
    g.cells[q].adjacent == (if g.cells[q].isMine then 0 else CountMines(g.cells, Neighbors(g.rows, g.cols, q)))
  }

  /** Every cell carries the right count. The quantifier is triggered on
      `CountRight` alone, so that knowing one cell's count does not unfold
      the counts of its neighbours, and theirs, across the board. */
  predicate Consistent(g: Grid) {
    && Valid(g)
    && forall q {:trigger CountRight(g, q)} :: q in g.cells ==> CountRight(g, q)
  }

  /** On a consistent board, a mine-free cell showing zero has no mine
      around it. */
  lemma ZeroCountSafe(g: Grid, p: Pos)
    requires Consistent(g) && p in g.cells && !g.cells[p].isMine && g.cells[p].adjacent == 0
    ensures forall n :: n in Neighbors(g.rows, g.cols, p) ==> n in g.cells && !g.cells[n].isMine
  {
    var ns := Neighbors(g.rows, g.cols, p);
    assert CountRight(g, p);
    assert CountMines(g.cells, ns) == 0;
    forall n | n in ns
      ensures n in g.cells && !g.cells[n].isMine
    {
      var i :| 0 <= i < |ns| && ns[i] == n;
    }
  }

  /** `r` has the same shape as `g`, the same mines and the same counts. */
  predicate SameLayout(g: Grid, r: Grid) {
    && r.rows == g.rows && r.cols == g.cols && r.cells.Keys == g.cells.Keys
    && forall q :: q in g.cells ==>
         r.cells[q].isMine == g.cells[q].isMine && r.cells[q].adjacent == g.cells[q].adjacent
  }

  /** Consistency is a property of the layout alone. */
  lemma ConsistentKept(g: Grid, r: Grid)
    requires SameLayout(g, r)
    ensures Consistent(g) ==> Consistent(r)
  {
    if Consistent(g) {
      forall q | q in r.cells
        ensures CountRight(r, q)
      {
        assert CountRight(g, q);
        NeighborsOnBoard(g, q);
        CountMinesAgree(g.cells, r.cells, Neighbors(r.rows, r.cols, q));
      }
    }
  }

}
