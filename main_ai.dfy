/** The agent's own record of the 9x9 board (MainAI): which cells hold a
    block, and a count of the blocked cells around the agent's position in
    four quadrant buckets. */
module MainAi {
  import opened Wrappers
  import opened Grid

  /** A board with no blocked cell. */
  predicate AllFree(g: Board)
  {
    forall x, y | 0 <= x < N && 0 <= y < N :: !g[x][y]
  }

  /** The board after a block is placed on cell (x, y). */
  function WithBlock(g: Board, x: int, y: int): (r: Board)
    requires 0 <= x < N && 0 <= y < N
  {
    g[x := g[x][y := true]]
  }

  /** Placing a block marks (x, y) and no other cell. */
  lemma WithBlockMarksOneCell(g: Board, x: int, y: int, i: int, j: int)
    requires 0 <= x < N && 0 <= y < N && 0 <= i < N && 0 <= j < N
    ensures WithBlock(g, x, y)[i][j] == (g[i][j] || (i == x && j == y))
  {
  }

  /** Placing the same block twice gives the board of placing it once, and
      placing it on a blocked cell changes nothing. */
  lemma WithBlockIdempotent(g: Board, x: int, y: int)
    requires 0 <= x < N && 0 <= y < N
    ensures WithBlock(WithBlock(g, x, y), x, y) == WithBlock(g, x, y)
    ensures g[x][y] ==> WithBlock(g, x, y) == g
  {
    assert WithBlock(g, x, y)[x][y := true] == WithBlock(g, x, y)[x];
    if g[x][y] {
      assert g[x][y := true] == g[x];
    }
  }

  /** Boards are equal when their cells are. */
  lemma SameCellsSameBoard(g: Board, h: Board)
    requires forall x, y | 0 <= x < N && 0 <= y < N :: g[x][y] == h[x][y]
    ensures g == h
  {
    forall x | 0 <= x < N
      ensures g[x] == h[x]
    {
      assert forall y | 0 <= y < N :: g[x][y] == h[x][y];
    }
  }

  /** How one coordinate of a cell compares with the agent's coordinate. */
  datatype Bound = AtMost | AtLeast | Exactly | Anywhere

  predicate Within(bound: Bound, v: int, pos: real) {
    match bound
    case AtMost => v as real <= pos
    case AtLeast => v as real >= pos
    case Exactly => v as real == pos
    case Anywhere => true
  }

  /** The cells (x, y) whose x compares with xPos as xs says and whose y
      compares with yPos as ys says. */
  datatype Region = Region(xs: Bound, xPos: real, ys: Bound, yPos: real)

  predicate InRegion(r: Region, x: int, y: int) {
    Within(r.xs, x, r.xPos) && Within(r.ys, y, r.yPos)
  }

  /** The four tests of GetCurrentPosition, in the order it makes them. */
  function NorthEast(xPos: real, yPos: real): Region { Region(AtMost, xPos, AtMost, yPos) }
  function SouthEastFirst(xPos: real, yPos: real): Region { Region(AtMost, xPos, AtLeast, yPos) }
  function SouthEastSecond(xPos: real, yPos: real): Region { Region(AtLeast, xPos, AtLeast, yPos) }
  function SouthWest(xPos: real, yPos: real): Region { Region(AtLeast, xPos, AtMost, yPos) }

  /** The number of blocked cells (x, y) of region r with y < n. */
  function RowCount(g: Board, r: Region, x: int, n: nat): (c: nat)
    requires 0 <= x < N && n <= N
    ensures c <= n
  {
    if n == 0 then 0
    else RowCount(g, r, x, n - 1) + (if g[x][n - 1] && InRegion(r, x, n - 1) then 1 else 0)
  }

  /** The number of blocked cells (x, y) of region r with x < m. */
  function BoardCount(g: Board, r: Region, m: nat): (c: nat)
    requires m <= N
    ensures c <= m * N
  {
    if m == 0 then 0
    else BoardCount(g, r, m - 1) + RowCount(g, r, m - 1, N)
  }

  /** The list GetCurrentPosition means to return for board g: the bucket
      counts NE, NW, SE and SW, in that order. NW is never incremented, and
      SE is incremented by two tests. */
  function QuadrantCounts(g: Board, xPos: real, yPos: real): (ints: seq<int>)
  {
    [BoardCount(g, NorthEast(xPos, yPos), N),
     0,
     BoardCount(g, SouthEastFirst(xPos, yPos), N) + BoardCount(g, SouthEastSecond(xPos, yPos), N),
     BoardCount(g, SouthWest(xPos, yPos), N)]
  }

  /** A free board counts nothing in any region. */
  lemma {:induction false} FreeRowCountsZero(g: Board, r: Region, x: int, n: nat)
    requires AllFree(g) && 0 <= x < N && n <= N
    ensures RowCount(g, r, x, n) == 0
  {
    if n > 0 {
      FreeRowCountsZero(g, r, x, n - 1);
    }
  }

  lemma {:induction false} FreeBoardCountsZero(g: Board, r: Region, m: nat)
    requires AllFree(g) && m <= N
    ensures BoardCount(g, r, m) == 0
  {
    if m > 0 {
      FreeBoardCountsZero(g, r, m - 1);
      FreeRowCountsZero(g, r, m - 1, N);
    }
  }

  /** An all-free board gives zero in every bucket. */
  lemma FreeBoardQuadrantCounts(g: Board, xPos: real, yPos: real)
    requires AllFree(g)
    ensures QuadrantCounts(g, xPos, yPos) == [0, 0, 0, 0]
  {
    FreeBoardCountsZero(g, NorthEast(xPos, yPos), N);
    FreeBoardCountsZero(g, SouthEastFirst(xPos, yPos), N);
    FreeBoardCountsZero(g, SouthEastSecond(xPos, yPos), N);
    FreeBoardCountsZero(g, SouthWest(xPos, yPos), N);
  }

  /** Splitting the columns at xPos: the cells with x <= xPos and those with
      x >= xPos together are all cells, with the column x == xPos twice. */
  lemma {:induction false} RowSplitAtColumn(g: Board, xPos: real, ys: Bound, yPos: real, x: int, n: nat)
    requires 0 <= x < N && n <= N
    ensures RowCount(g, Region(AtMost, xPos, ys, yPos), x, n) + RowCount(g, Region(AtLeast, xPos, ys, yPos), x, n)
         == RowCount(g, Region(Anywhere, xPos, ys, yPos), x, n) + RowCount(g, Region(Exactly, xPos, ys, yPos), x, n)
  {
    if n > 0 {
      RowSplitAtColumn(g, xPos, ys, yPos, x, n - 1);
    }
  }

  lemma {:induction false} BoardSplitAtColumn(g: Board, xPos: real, ys: Bound, yPos: real, m: nat)
    requires m <= N
    ensures BoardCount(g, Region(AtMost, xPos, ys, yPos), m) + BoardCount(g, Region(AtLeast, xPos, ys, yPos), m)
         == BoardCount(g, Region(Anywhere, xPos, ys, yPos), m) + BoardCount(g, Region(Exactly, xPos, ys, yPos), m)
  {
    if m > 0 {
      BoardSplitAtColumn(g, xPos, ys, yPos, m - 1);
      RowSplitAtColumn(g, xPos, ys, yPos, m - 1, N);
    }
  }

  /** The SE bucket holds every blocked cell with y >= yPos, and the blocked
      cells of the agent's own column (x == xPos, y >= yPos) a second time;
      the NE and SW buckets together do the same for y <= yPos. */
  lemma QuadrantCountsDoubleColumn(g: Board, xPos: real, yPos: real)
    ensures QuadrantCounts(g, xPos, yPos)[2]
         == BoardCount(g, Region(Anywhere, xPos, AtLeast, yPos), N) + BoardCount(g, Region(Exactly, xPos, AtLeast, yPos), N)
    ensures QuadrantCounts(g, xPos, yPos)[0] + QuadrantCounts(g, xPos, yPos)[3]
         == BoardCount(g, Region(Anywhere, xPos, AtMost, yPos), N) + BoardCount(g, Region(Exactly, xPos, AtMost, yPos), N)
  {
    BoardSplitAtColumn(g, xPos, AtLeast, yPos, N);
    BoardSplitAtColumn(g, xPos, AtMost, yPos, N);
  }

  /** A new block on a free cell adds one to a count exactly when the cell
      lies in the counted part of the region. */
  lemma {:induction false} RowCountAfterBlock(g: Board, blockX: int, blockY: int, r: Region, x: int, n: nat)
    requires 0 <= blockX < N && 0 <= blockY < N && !g[blockX][blockY] && 0 <= x < N && n <= N
    ensures RowCount(WithBlock(g, blockX, blockY), r, x, n)
         == RowCount(g, r, x, n) + (if x == blockX && blockY < n && InRegion(r, blockX, blockY) then 1 else 0)
  {
    if n > 0 {
      RowCountAfterBlock(g, blockX, blockY, r, x, n - 1);
    }
  }

  lemma {:induction false} BoardCountAfterBlock(g: Board, blockX: int, blockY: int, r: Region, m: nat)
    requires 0 <= blockX < N && 0 <= blockY < N && !g[blockX][blockY] && m <= N
    ensures BoardCount(WithBlock(g, blockX, blockY), r, m)
         == BoardCount(g, r, m) + (if blockX < m && InRegion(r, blockX, blockY) then 1 else 0)
  {
    if m > 0 {
      BoardCountAfterBlock(g, blockX, blockY, r, m - 1);
      RowCountAfterBlock(g, blockX, blockY, r, m - 1, N);
    }
  }

  /** AddBlock on a free cell raises each bucket by the number of its tests
      the new cell passes, and leaves NW at 0. */
  lemma QuadrantCountsAfterBlock(g: Board, blockX: int, blockY: int, xPos: real, yPos: real)
    requires 0 <= blockX < N && 0 <= blockY < N && !g[blockX][blockY]
    ensures var before, after := QuadrantCounts(g, xPos, yPos), QuadrantCounts(WithBlock(g, blockX, blockY), xPos, yPos);
      && after[0] == before[0] + (if InRegion(NorthEast(xPos, yPos), blockX, blockY) then 1 else 0)
      && after[1] == 0
      && after[2] == before[2] + (if InRegion(SouthEastFirst(xPos, yPos), blockX, blockY) then 1 else 0)
                              + (if InRegion(SouthEastSecond(xPos, yPos), blockX, blockY) then 1 else 0)
      && after[3] == before[3] + (if InRegion(SouthWest(xPos, yPos), blockX, blockY) then 1 else 0)
  {
    BoardCountAfterBlock(g, blockX, blockY, NorthEast(xPos, yPos), N);
    BoardCountAfterBlock(g, blockX, blockY, SouthEastFirst(xPos, yPos), N);
    BoardCountAfterBlock(g, blockX, blockY, SouthEastSecond(xPos, yPos), N);
    BoardCountAfterBlock(g, blockX, blockY, SouthWest(xPos, yPos), N);
  }

  /** The exception GetCurrentPosition raises: an array index out of range. */
  datatype Fault = IndexOutOfRange(x: int, y: int)

  class MainAi {
    /** MainGrid: true where a block stands. */
    const mainGrid: array2<bool>

    predicate Valid()
      reads this
    {
      mainGrid.Length0 == N && mainGrid.Length1 == N
    }

    /** The blocked flags as a board value. */
    function Snapshot(): (g: Board)
      reads this, mainGrid
      requires Valid()
      ensures forall x, y | 0 <= x < N && 0 <= y < N :: g[x][y] == mainGrid[x, y]
    {
      seq(N, x requires 0 <= x < N reads mainGrid =>
        seq(N, y requires 0 <= y < N reads mainGrid =>
          if x < mainGrid.Length0 && y < mainGrid.Length1 then mainGrid[x, y] else false))
    }

    /** `new bool[9, 9]`: every cell starts free. */
    constructor ()
      ensures Valid() && fresh(mainGrid)
      ensures AllFree(Snapshot())
    {
      mainGrid := new bool[N, N]((x, y) => false);
    }

    /** Awake: resets every cell to free. */
    method Awake()
      requires Valid()
      modifies mainGrid
      ensures AllFree(Snapshot())
    {
      for x := 0 to mainGrid.Length0
        invariant forall i, j | 0 <= i < x && 0 <= j < N :: !mainGrid[i, j]
      {
        for y := 0 to mainGrid.Length1
          invariant forall i, j | 0 <= i < x && 0 <= j < N :: !mainGrid[i, j]
          invariant forall j | 0 <= j < y :: !mainGrid[x, j]
        {
          mainGrid[x, y] := false;
        }
      }
    }

    /** AddBlock: marks (x, y) blocked; a cell already blocked is left as it
        is. */
    method AddBlock(x: int, y: int)
      requires Valid() && 0 <= x < N && 0 <= y < N
      modifies mainGrid
      ensures mainGrid[x, y]
      ensures forall i, j | 0 <= i < N && 0 <= j < N && (i != x || j != y) :: mainGrid[i, j] == old(mainGrid[i, j])
      ensures Snapshot() == WithBlock(old(Snapshot()), x, y)
    {
      ghost var before := Snapshot();
      if mainGrid[x, y] {
        WithBlockIdempotent(before, x, y);
        return;
      }
      mainGrid[x, y] := true;
      forall i, j | 0 <= i < N && 0 <= j < N
        ensures Snapshot()[i][j] == WithBlock(before, x, y)[i][j]
      {
        WithBlockMarksOneCell(before, x, y, i, j);
      }
      SameCellsSameBoard(Snapshot(), WithBlock(before, x, y));
    }

    /** GetCurrentPosition as written: both loops run up to MainGrid.Length,
        the number of cells (81), instead of the length of a side, so the
        read of MainGrid[0, 9] raises IndexOutOfRange before any list is
        returned, whatever the board and the agent's position. The
        exception ends both loops; it is recorded in fault. */
    method GetCurrentPosition(xPos: real, yPos: real) returns (r: Result<seq<int>, Fault>)
      requires Valid()
      ensures r == Failure(IndexOutOfRange(0, N))
    {
      var blockCountNE, blockCountNW, blockCountSE, blockCountSW := 0, 0, 0, 0;
      var length := mainGrid.Length0 * mainGrid.Length1;
      var fault: Option<Fault> := None;
      var x := 0;
      while x < length && fault.None?
        invariant fault.None? ==> x == 0
        invariant fault.Some? ==> fault.value == IndexOutOfRange(0, N)
      {
        var y := 0;
        while y < length && fault.None?
          invariant fault.None? ==> y <= N
          invariant fault.Some? ==> fault.value == IndexOutOfRange(0, N)
          decreases length - y, if fault.None? then 1 else 0
        {
          if x >= mainGrid.Length0 || y >= mainGrid.Length1 {
            fault := Some(IndexOutOfRange(x, y));
          } else {
            if mainGrid[x, y] {
              if x as real <= xPos && y as real <= yPos {
                blockCountNE := blockCountNE + 1;
              }
              if x as real <= xPos && y as real >= yPos {
                blockCountSE := blockCountSE + 1;
              }
              if x as real >= xPos && y as real >= yPos {
                blockCountSE := blockCountSE + 1;
              }
              if x as real >= xPos && y as real <= yPos {
                blockCountSW := blockCountSW + 1;
              }
            }
            y := y + 1;
          }
        }
        x := x + 1;
      }
      if fault.Some? {
        return Failure(fault.value);
      }
      r := Success([blockCountNE, blockCountNW, blockCountSE, blockCountSW]);
    }

    /** GetCurrentPosition with each loop bounded by the length of its own
        dimension, as the loops of Awake are: the four bucket counts of the
        board, NE, NW, SE, SW. */
    method GetCurrentPositionWithinGrid(xPos: real, yPos: real) returns (ints: seq<int>)
      requires Valid()
      ensures ints == QuadrantCounts(Snapshot(), xPos, yPos)
    {
      ghost var g := Snapshot();
      var blockCountNE, blockCountNW, blockCountSE, blockCountSW := 0, 0, 0, 0;
      for x := 0 to mainGrid.Length0
        invariant blockCountNE == BoardCount(g, NorthEast(xPos, yPos), x)
        invariant blockCountNW == 0
        invariant blockCountSE == BoardCount(g, SouthEastFirst(xPos, yPos), x) + BoardCount(g, SouthEastSecond(xPos, yPos), x)
        invariant blockCountSW == BoardCount(g, SouthWest(xPos, yPos), x)
      {
        for y := 0 to mainGrid.Length1
          invariant blockCountNE == BoardCount(g, NorthEast(xPos, yPos), x) + RowCount(g, NorthEast(xPos, yPos), x, y)
          invariant blockCountNW == 0
          invariant blockCountSE == BoardCount(g, SouthEastFirst(xPos, yPos), x) + RowCount(g, SouthEastFirst(xPos, yPos), x, y)
                                  + BoardCount(g, SouthEastSecond(xPos, yPos), x) + RowCount(g, SouthEastSecond(xPos, yPos), x, y)
          invariant blockCountSW == BoardCount(g, SouthWest(xPos, yPos), x) + RowCount(g, SouthWest(xPos, yPos), x, y)
        {
          if mainGrid[x, y] {
            if x as real <= xPos && y as real <= yPos {
              blockCountNE := blockCountNE + 1;
            }
            if x as real <= xPos && y as real >= yPos {
              blockCountSE := blockCountSE + 1;
            }
            if x as real >= xPos && y as real >= yPos {
              blockCountSE := blockCountSE + 1;
            }
            if x as real >= xPos && y as real <= yPos {
              blockCountSW := blockCountSW + 1;
            }
          }
        }
      }
      ints := [blockCountNE, blockCountNW, blockCountSE, blockCountSW];
    }
  }
}
