/** The navigation part of GAN_AI.cs: a 9x9 array of grid items whose
    `visited` labels a breadth-first flood fill writes in place, the border
    endpoints, the backtrack that turns labels into a path, and the
    append-only experience log. */
module GanAi {
  import opened Wrappers
  import opened Enums
  import opened Grid

  /** One cell of the GAN_AI grid (the `GridItem` struct). */
  datatype GridItem = GridItem(isBlocked: bool, x: int, z: int, visited: int)

  /** The state of the moving agent as GAN_AI sees it; only the outcome of its
      last decision is read here. */
  datatype AgentState = AgentState(decisionOutcome: real)

  /** One record of the experience log (the `State` struct of GAN_AI). */
  datatype Experience = Experience(state: AgentState, blockPosX: int, blockPosZ: int, outcome: real)

  /** The stored coordinates of an item, as a position. */
  function PosOf(item: GridItem): Pos {
    Pos(item.x, item.z)
  }

  /** FindClosest starts from a current distance of 1000; distances are
      compared squared. */
  const InitialBest: int := 1000 * 1000

  /** The number of cells of the 9x9 grid, and the number of flood-fill
      rounds SetDistance runs (rows * columns - 1). */
  const Cells: nat := 81
  const Rounds: nat := 80

  function Square(n: int): int {
    n * n
  }

  /** The squared value of `Vector3.Distance(target, new Vector3(item.x, item.z))`:
      the two-argument constructor puts item.z in the y slot and 0 in z. */
  function SquaredDistance(target: Vec3, item: GridItem): int {
    Square(item.x - target.x) + Square(item.z - target.y) + Square(target.z)
  }

  function Min(a: int, b: int): int {
    if a <= b then a else b
  }

  /** k is the index FindClosest settles on: when some item is closer than the
      initial bound, the first item of least distance; otherwise index 0. */
  predicate IsFirstClosest(target: Vec3, list: seq<GridItem>, k: int) {
    0 <= k < |list| &&
    if exists j | 0 <= j < |list| :: SquaredDistance(target, list[j]) < InitialBest then
      (forall j | 0 <= j < |list| :: SquaredDistance(target, list[k]) <= SquaredDistance(target, list[j])) &&
      (forall j | 0 <= j < k :: SquaredDistance(target, list[j]) > SquaredDistance(target, list[k]))
    else
      k == 0
  }

  /** The index FindClosest returns for a non-empty list, by scanning it:
      a later item replaces the current pick only when it is strictly closer
      than both the pick and the initial bound. */
  function ClosestIndex(target: Vec3, list: seq<GridItem>): (k: nat)
    requires |list| > 0
    ensures k < |list|
    decreases |list|
  {
    if |list| == 1 then 0
    else
      var n := |list| - 1;
      var k := ClosestIndex(target, list[..n]);
      if SquaredDistance(target, list[n]) < Min(SquaredDistance(target, list[k]), InitialBest) then n else k
  }

  /** The scan settles on the first item of least distance, or on index 0
      when no item is closer than the initial bound. */
  lemma {:induction false} ClosestIndexIsFirstClosest(target: Vec3, list: seq<GridItem>)
    requires |list| > 0
    ensures IsFirstClosest(target, list, ClosestIndex(target, list))
    decreases |list|
  {
    if |list| > 1 {
      var n := |list| - 1;
      ClosestIndexIsFirstClosest(target, list[..n]);
      assert forall j | 0 <= j < n :: list[..n][j] == list[j];
    }
  }

  /** At most one index is the first closest one. */
  lemma FirstClosestUnique(target: Vec3, list: seq<GridItem>, k1: int, k2: int)
    requires IsFirstClosest(target, list, k1) && IsFirstClosest(target, list, k2)
    ensures k1 == k2
  {
  }

  /** FindClosest ranks the cells by their distance to the end target
      (endX, 0, endZ), which the axis swap compares against (x, z, 0); for
      cells and end targets on the board, the pick does not depend on endZ. */
  lemma ClosestIgnoresEndZ(endX: int, endZ: int, endZ': int, list: seq<GridItem>)
    requires |list| > 0
    requires 0 <= endX < N && 0 <= endZ < N && 0 <= endZ' < N
    requires forall e | e in list :: InBounds(PosOf(e))
    ensures ClosestIndex(Vec3(endX, 0, endZ), list) == ClosestIndex(Vec3(endX, 0, endZ'), list)
  {
    var t, t' := Vec3(endX, 0, endZ), Vec3(endX, 0, endZ');
    var k := ClosestIndex(t, list);
    ClosestIndexIsFirstClosest(t, list);
    ClosestIndexIsFirstClosest(t', list);
    ShiftedDistances(t, t', list);
    FirstClosestShift(t, t', list, k, Square(endZ') - Square(endZ));
    FirstClosestUnique(t', list, k, ClosestIndex(t', list));
  }

  lemma ShiftedDistances(t: Vec3, t': Vec3, list: seq<GridItem>)
    requires 0 <= t.x < N && t.y == 0 && 0 <= t.z < N && t'.x == t.x && t'.y == 0 && 0 <= t'.z < N
    requires forall e | e in list :: InBounds(PosOf(e))
    ensures forall j | 0 <= j < |list| ::
      SquaredDistance(t', list[j]) == SquaredDistance(t, list[j]) + (Square(t'.z) - Square(t.z)) &&
      SquaredDistance(t, list[j]) < InitialBest && SquaredDistance(t', list[j]) < InitialBest
  {
    forall j | 0 <= j < |list|
      ensures SquaredDistance(t', list[j]) == SquaredDistance(t, list[j]) + (Square(t'.z) - Square(t.z))
      ensures SquaredDistance(t, list[j]) < InitialBest && SquaredDistance(t', list[j]) < InitialBest
    {
      assert list[j] in list;
      DistanceOnBoard(t, list[j]);
      DistanceOnBoard(t', list[j]);
    }
  }

  /** Distances from an on-board target to an on-board cell stay below the
      initial bound. */
  lemma DistanceOnBoard(t: Vec3, e: GridItem)
    requires 0 <= t.x < N && t.y == 0 && 0 <= t.z < N && InBounds(PosOf(e))
    ensures SquaredDistance(t, e) == Square(e.x - t.x) + Square(e.z) + Square(t.z) < InitialBest
  {
    SquareBound(e.x - t.x);
    SquareBound(e.z);
    SquareBound(t.z);
  }

  /** Shifting every distance by the same amount, all of them staying below
      the initial bound, keeps the first closest index. */
  lemma FirstClosestShift(t: Vec3, t': Vec3, list: seq<GridItem>, k: int, c: int)
    requires forall j | 0 <= j < |list| ::
      SquaredDistance(t', list[j]) == SquaredDistance(t, list[j]) + c &&
      SquaredDistance(t, list[j]) < InitialBest && SquaredDistance(t', list[j]) < InitialBest
    requires IsFirstClosest(t, list, k)
    ensures IsFirstClosest(t', list, k)
  {
  }

  lemma SquareBound(n: int)
    requires -9 < n < 9
    ensures 0 <= Square(n) < 81
  {
  }

  class GanAi {
    /** The experience log (`QTable`). */
    var qTable: seq<Experience>
    /** The grid (`MainGrid`), indexed [x, z]. */
    const mainGrid: array2<GridItem>
    /** The blocked flags of mainGrid; GAN_AI.cs never writes `isBlocked`. */
    ghost var board: Board

    /** mainGrid is 9 by 9. */
    predicate Sized() {
      mainGrid.Length0 == N && mainGrid.Length1 == N
    }

    ghost predicate Valid()
      reads this, mainGrid
    {
      Sized() &&
      forall i, j | 0 <= i < N && 0 <= j < N :: mainGrid[i, j].isBlocked == board[i][j]
    }

    /** Each item's stored x and z equal its indices. SetDistance and
        TargetPath navigate by the stored coordinates, but GAN_AI.cs never
        assigns them, so this is a precondition that nothing in the file
        establishes. */
    ghost predicate CoordsMatch()
      reads this, mainGrid
    {
      forall i, j | 0 <= i < mainGrid.Length0 && 0 <= j < mainGrid.Length1 :: mainGrid[i, j].x == i && mainGrid[i, j].z == j
    }

    /** The label of cell c; a cell off the board counts as unlabelled. */
    function Label(c: Pos): int
      reads this, mainGrid
    {
      if Sized() && InBounds(c) then mainGrid[c.x, c.z].visited else -1
    }

    /** Every label is the breadth-first distance from s, as SetDistance
        leaves them. */
    ghost predicate Labelled(s: Pos)
      reads this, mainGrid
      requires Valid()
    {
      forall c {:trigger Label(c)} | InBounds(c) :: Label(c) == Dist(board, s, c, Rounds)
    }

    /** All labels, as a table. */
    function Labels(): (t: LabelTable)
      reads this, mainGrid
      ensures forall c {:trigger Label(c)} | InBounds(c) :: t[c.x][c.z] == Label(c)
    {
      seq(N, i reads this, mainGrid => seq(N, j reads this, mainGrid => Label(Pos(i, j))))
    }

    /** The field initialisers: an empty log and a 9x9 grid of default items. */
    constructor ()
      ensures Valid() && fresh(mainGrid) && qTable == []
      ensures forall i, j | 0 <= i < N && 0 <= j < N :: mainGrid[i, j] == GridItem(false, 0, 0, 0)
    {
      qTable := [];
      mainGrid := new GridItem[N, N]((i, j) => GridItem(false, 0, 0, 0));
      board := seq(N, i => seq(N, j => false));
    }

    /** Resets every label to -1 and labels the source (x, z) with 0. */
    method InitialSetup(x: int, z: int)
      requires Valid() && InBounds(Pos(x, z))
      modifies mainGrid
      ensures Valid()
      ensures forall i, j | 0 <= i < N && 0 <= j < N ::
        mainGrid[i, j] == old(mainGrid[i, j]).(visited := if i == x && j == z then 0 else -1)
    {
      for i := 0 to mainGrid.Length0
        invariant Valid()
        invariant forall i', j' | 0 <= i' < N && 0 <= j' < N ::
          mainGrid[i', j'] == if i' < i then old(mainGrid[i', j']).(visited := -1) else old(mainGrid[i', j'])
      {
        for j := 0 to mainGrid.Length1
          invariant Valid()
          invariant forall i', j' | 0 <= i' < N && 0 <= j' < N ::
            mainGrid[i', j'] ==
              if i' < i || (i' == i && j' < j) then old(mainGrid[i', j']).(visited := -1) else old(mainGrid[i', j'])
        {
          mainGrid[i, j] := mainGrid[i, j].(visited := -1);
        }
      }
      mainGrid[x, z] := mainGrid[x, z].(visited := 0);
    }

    /** The neighbour of (x, z) in direction dir is on the board, free and
        labelled step. */
    predicate Open(x: int, z: int, step: int, dir: Direction)
      reads this, mainGrid
      requires Sized()
    {
      var t := Neighbour(Pos(x, z), dir);
      InBounds(t) && !mainGrid[t.x, t.z].isBlocked && mainGrid[t.x, t.z].visited == step
    }

    /** The source's switch: one bounds test and one cell per direction. */
    function TestDirection(xPos: int, zPos: int, step: int, dir: Direction): bool
      reads this, mainGrid
      requires Sized() && InBounds(Pos(xPos, zPos))
    {
      var rows := mainGrid.Length0;
      var columns := mainGrid.Length1;
      match dir
      case North => zPos + 1 < columns && !mainGrid[xPos, zPos + 1].isBlocked && mainGrid[xPos, zPos + 1].visited == step
      case South => zPos - 1 > -1 && !mainGrid[xPos, zPos - 1].isBlocked && mainGrid[xPos, zPos - 1].visited == step
      case West => xPos - 1 > -1 && !mainGrid[xPos - 1, zPos].isBlocked && mainGrid[xPos - 1, zPos].visited == step
      case East => xPos + 1 < rows && !mainGrid[xPos + 1, zPos].isBlocked && mainGrid[xPos + 1, zPos].visited == step
      case NorthEast =>
        zPos + 1 < columns && xPos + 1 < rows &&
        !mainGrid[xPos + 1, zPos + 1].isBlocked && mainGrid[xPos + 1, zPos + 1].visited == step
      case SouthEast =>
        zPos - 1 > -1 && xPos + 1 < rows &&
        !mainGrid[xPos + 1, zPos - 1].isBlocked && mainGrid[xPos + 1, zPos - 1].visited == step
      case NorthWest =>
        zPos + 1 < columns && xPos - 1 > -1 &&
        !mainGrid[xPos - 1, zPos + 1].isBlocked && mainGrid[xPos - 1, zPos + 1].visited == step
      case SouthWest =>
        zPos - 1 > -1 && xPos - 1 > -1 &&
        !mainGrid[xPos - 1, zPos - 1].isBlocked && mainGrid[xPos - 1, zPos - 1].visited == step
    }

    /** The switch of TestDirection agrees with Open, which goes by
        `directionToVector`. */
    lemma TestDirectionIsOpen(xPos: int, zPos: int, step: int, dir: Direction)
      requires Sized() && InBounds(Pos(xPos, zPos))
      ensures TestDirection(xPos, zPos, step, dir) <==> Open(xPos, zPos, step, dir)
    {
    }

    /** Labels a free cell with step; a blocked cell is left alone. */
    method SetVisited(x: int, y: int, step: int)
      requires Valid() && InBounds(Pos(x, y))
      modifies mainGrid
      ensures Valid()
      ensures forall i, j | 0 <= i < N && 0 <= j < N ::
        mainGrid[i, j] ==
          if i == x && j == y && !old(mainGrid[i, j].isBlocked) then old(mainGrid[i, j]).(visited := step)
          else old(mainGrid[i, j])
    {
      if !mainGrid[x, y].isBlocked {
        mainGrid[x, y] := mainGrid[x, y].(visited := step);
      }
    }

    /** Labels with step every still unlabelled cell that the move rule lets
        the fill enter from (x, z), and nothing else. */
    method TestEightDirections(x: int, z: int, step: int)
      requires Valid() && InBounds(Pos(x, z))
      modifies mainGrid
      ensures Valid()
      ensures forall i, j | 0 <= i < N && 0 <= j < N ::
        mainGrid[i, j] == old(mainGrid[i, j]).(visited := mainGrid[i, j].visited)
      ensures forall c {:trigger Label(c)} | InBounds(c) ::
        Label(c) == if old(Label(c)) == -1 && Move(board, Pos(x, z), c) then step else old(Label(c))
    {
      var a := Pos(x, z);
      for i := 0 to 8
        invariant Valid()
        invariant forall i', j' | 0 <= i' < N && 0 <= j' < N ::
          mainGrid[i', j'] == old(mainGrid[i', j']).(visited :=
            if old(mainGrid[i', j'].visited) == -1 && Move(board, a, Pos(i', j')) && Ordinal(DirectionTo(a, Pos(i', j'))) < i
            then step
            else old(mainGrid[i', j'].visited))
      {
        var dir := FromOrdinal(i);
        NeighbourIsAdjacent(a, dir);
        forall c: Pos | Adjacent(a, c) && Ordinal(DirectionTo(a, c)) == i
          ensures c == Neighbour(a, dir)
        {
          OrdinalRoundTrip(DirectionTo(a, c), i);
        }
        TestDirectionIsOpen(x, z, -1, dir);
        if TestDirection(x, z, -1, dir) {
          var tempX := x + DirectionToVector(dir).x;
          var tempZ := z + DirectionToVector(dir).z;
          // the two cells beside a diagonal step must both be free
          if !mainGrid[x, tempZ].isBlocked && !mainGrid[tempX, z].isBlocked {
            SetVisited(tempX, tempZ, step);
          }
        }
      }
    }

    /** Labels every cell with its breadth-first distance from (x, z), taking
        rows * columns - 1 rounds of ExpandRound. */
    method SetDistance(x: int, z: int)
      requires Valid() && CoordsMatch() && InBounds(Pos(x, z))
      modifies mainGrid
      ensures Valid() && CoordsMatch()
      ensures forall i, j | 0 <= i < N && 0 <= j < N ::
        mainGrid[i, j] == old(mainGrid[i, j]).(visited := mainGrid[i, j].visited)
      ensures Labelled(Pos(x, z))
    {
      var s := Pos(x, z);
      InitialSetup(x, z);

      var rows := mainGrid.Length0;
      var columns := mainGrid.Length1;
      assert rows * columns == Cells;

      for step := 1 to rows * columns
        invariant Valid() && CoordsMatch()
        invariant forall i, j | 0 <= i < N && 0 <= j < N ::
          mainGrid[i, j] == old(mainGrid[i, j]).(visited := mainGrid[i, j].visited)
        invariant forall c {:trigger Label(c)} | InBounds(c) :: Label(c) == Dist(board, s, c, step - 1)
      {
        ExpandRound(s, step);
      }
    }

    /** Round step of the flood fill: the `foreach` over the grid, in
        row-major order, expands the free cells labelled step - 1, so the
        labels go from the distances within step - 1 rounds to those within
        step rounds. */
    method ExpandRound(s: Pos, step: nat)
      requires Valid() && CoordsMatch() && InBounds(s) && step >= 1
      requires forall c {:trigger Label(c)} | InBounds(c) :: Label(c) == Dist(board, s, c, step - 1)
      modifies mainGrid
      ensures Valid() && CoordsMatch()
      ensures forall i, j | 0 <= i < N && 0 <= j < N ::
        mainGrid[i, j] == old(mainGrid[i, j]).(visited := mainGrid[i, j].visited)
      ensures forall c {:trigger Label(c)} | InBounds(c) :: Label(c) == Dist(board, s, c, step)
    {
      var k: nat := step - 1;
      ghost var t := Labels();
      var rows := mainGrid.Length0;
      var columns := mainGrid.Length1;
      assert rows * columns == Cells;
      for n := 0 to rows * columns
        invariant Valid() && CoordsMatch()
        invariant forall i, j | 0 <= i < N && 0 <= j < N ::
          mainGrid[i, j] == old(mainGrid[i, j]).(visited := mainGrid[i, j].visited)
        invariant forall c {:trigger Label(c)} | InBounds(c) :: Label(c) == RoundLabel(board, t, c, k, n)
      {
        ghost var a := CellAt(n);
        RoundAdvance(board, t, k, n);
        var obj := mainGrid[n / columns, n % columns];
        assert obj.visited == Label(a);
        if !obj.isBlocked && obj.visited == step - 1 {
          TestEightDirections(obj.x, obj.z, step);
        }
      }
      assert TableIsDist(board, s, t, k) by {
        forall c | InBounds(c)
          ensures t[c.x][c.z] == Dist(board, s, c, k)
        {
          assert old(Label(c)) == t[c.x][c.z];
        }
      }
      RoundComplete(board, s, t, k);
      forall c | InBounds(c)
        ensures Label(c) == Dist(board, s, c, step)
      {
        assert RoundLabel(board, t, c, k, Cells) == Dist(board, s, c, k + 1);
      }
    }

    /** The neighbours of (x, z) in the first n directions that are free and
        labelled step, in direction order (TargetPath's `tempList`). */
    function Candidates(x: int, z: int, step: int, n: nat): (r: seq<GridItem>)
      reads this, mainGrid
      requires Sized() && n <= 8
      ensures |r| <= n
    {
      if n == 0 then []
      else
        var dir := FromOrdinal(n - 1);
        var rest := Candidates(x, z, step, n - 1);
        if Open(x, z, step, dir) then
          var t := Neighbour(Pos(x, z), dir);
          rest + [mainGrid[t.x, t.z]]
        else rest
    }

    /** One step of TargetPath's backtrack from (x, z): gathers the free
        neighbours labelled step and picks the first closest to target. */
    method NextStep(x: int, z: int, step: int, target: Vec3) returns (tempObj: GridItem)
      requires Sized() && CoordsMatch() && InBounds(Pos(x, z))
      requires |Candidates(x, z, step, 8)| > 0
      ensures Choice(x, z, step, target) == Some(tempObj)
      ensures InBounds(PosOf(tempObj)) && mainGrid[tempObj.x, tempObj.z] == tempObj
      ensures Adjacent(Pos(x, z), PosOf(tempObj)) && !tempObj.isBlocked && tempObj.visited == step
    {
      var tempList: seq<GridItem> := [];
      for i := 0 to 8
        invariant tempList == Candidates(x, z, step, i)
      {
        var dir := FromOrdinal(i);
        TestDirectionIsOpen(x, z, step, dir);
        if TestDirection(x, z, step, dir) {
          var tempX := x + DirectionToVector(dir).x;
          var tempZ := z + DirectionToVector(dir).z;
          tempList := tempList + [mainGrid[tempX, tempZ]];
        }
      }
      tempObj := FindClosest(target, tempList);
      ChoiceSound(x, z, step, target);
    }

    /** The backtrack's pick, when there is one, is a free neighbour labelled
        step, stored at its own coordinates. */
    lemma ChoiceSound(x: int, z: int, step: int, target: Vec3)
      requires Sized() && CoordsMatch() && InBounds(Pos(x, z))
      ensures Choice(x, z, step, target).Some? <==> |Candidates(x, z, step, 8)| > 0
      ensures Choice(x, z, step, target).Some? ==>
        var e := Choice(x, z, step, target).value;
        InBounds(PosOf(e)) && mainGrid[e.x, e.z] == e && Adjacent(Pos(x, z), PosOf(e)) &&
        !e.isBlocked && e.visited == step
    {
      var cands := Candidates(x, z, step, 8);
      if |cands| > 0 {
        CandidatesSound(x, z, step, 8);
        assert cands[ClosestIndex(target, cands)] in cands;
      }
    }

    /** Every candidate is a free neighbour labelled step, stored at its own
        coordinates. */
    lemma {:induction false} CandidatesSound(x: int, z: int, step: int, n: nat)
      requires Sized() && CoordsMatch() && InBounds(Pos(x, z)) && n <= 8
      ensures forall e | e in Candidates(x, z, step, n) ::
        InBounds(PosOf(e)) && mainGrid[e.x, e.z] == e && Adjacent(Pos(x, z), PosOf(e)) &&
        !e.isBlocked && e.visited == step
    {
      if n > 0 {
        CandidatesSound(x, z, step, n - 1);
        var dir := FromOrdinal(n - 1);
        NeighbourIsAdjacent(Pos(x, z), dir);
        if Open(x, z, step, dir) {
          var t := Neighbour(Pos(x, z), dir);
          var item := mainGrid[t.x, t.z];
          assert item.x == t.x && item.z == t.z;
          assert Candidates(x, z, step, n) == Candidates(x, z, step, n - 1) + [item];
        }
      }
    }

    /** A direction that passes the test contributes its neighbour as a
        candidate. */
    lemma {:induction false} CandidatesComplete(x: int, z: int, step: int, n: nat, i: nat)
      requires Sized() && InBounds(Pos(x, z)) && i < n <= 8
      requires Open(x, z, step, FromOrdinal(i))
      ensures var t := Neighbour(Pos(x, z), FromOrdinal(i)); mainGrid[t.x, t.z] in Candidates(x, z, step, n)
    {
      if i < n - 1 {
        CandidatesComplete(x, z, step, n - 1, i);
      }
    }

    /** The backtrack's pick from (x, z) when it looks for label step: the
        first closest candidate to target, or None when there is none. */
    function Choice(x: int, z: int, step: int, target: Vec3): (r: Option<GridItem>)
      reads this, mainGrid
      requires Sized()
      ensures r.Some? <==> |Candidates(x, z, step, 8)| > 0
      ensures r.Some? ==> r.value in Candidates(x, z, step, 8)
    {
      var cands := Candidates(x, z, step, 8);
      if |cands| > 0 then Some(cands[ClosestIndex(target, cands)]) else None
    }

    /** The entries the backtrack appends when it stands at (x, z) looking for
        label step: the pick, then the entries from the pick's stored
        coordinates for label step - 1, down to label 0. Where the source
        would throw (no candidate, or a pick whose stored coordinates are off
        the board) the walk stops; on flood-fill labels neither happens. */
    function BacktrackFrom(x: int, z: int, step: int, target: Vec3): (r: seq<GridItem>)
      reads this, mainGrid
      ensures |r| <= if step < 0 then 0 else step + 1
      decreases step + 1
    {
      if step <= -1 || !Sized() || !InBounds(Pos(x, z)) then []
      else
        match Choice(x, z, step, target)
        case None => []
        case Some(next) => [next] + BacktrackFrom(next.x, next.z, step - 1, target)
    }

    /** path walks from the cell from down the labels step, step - 1, ..., 0,
        one free cell at a time, each entry stored at its own coordinates and
        next to the one before it (the first one next to from). */
    ghost predicate StepsDown(path: seq<GridItem>, from: Pos, step: int)
      reads this, mainGrid
      requires Sized()
      decreases |path|
    {
      if path == [] then step == -1
      else
        var e := path[0];
        InBounds(PosOf(e)) && mainGrid[e.x, e.z] == e && !e.isBlocked && e.visited == step &&
        Adjacent(from, PosOf(e)) && StepsDown(path[1..], PosOf(e), step - 1)
    }

    /** On the labels of a flood fill from s, the backtrack from a cell
        labelled step + 1 steps down the labels to 0 and ends at s. */
    lemma {:induction false} BacktrackFromStepsDown(s: Pos, x: int, z: int, step: int, target: Vec3)
      requires Valid() && CoordsMatch() && InBounds(s) && InBounds(Pos(x, z)) && step >= -1
      requires Labelled(s)
      requires mainGrid[x, z].visited == step + 1
      ensures StepsDown(BacktrackFrom(x, z, step, target), Pos(x, z), step)
      ensures |BacktrackFrom(x, z, step, target)| == step + 1
      ensures var r := BacktrackFrom(x, z, step, target); |r| > 0 ==> r[|r| - 1] == mainGrid[s.x, s.z]
      decreases step + 1
    {
      if step >= 0 {
        BacktrackFromCons(s, x, z, step, target);
        ChoiceSound(x, z, step, target);
        var next := Choice(x, z, step, target).value;
        BacktrackFromStepsDown(s, next.x, next.z, step - 1, target);
        var rest := BacktrackFrom(next.x, next.z, step - 1, target);
        assert ([next] + rest)[1..] == rest;
        if step == 0 {
          assert Label(PosOf(next)) == 0;
        }
      }
    }

    /** path runs from the end cell back to the start cell: it starts with
        the end cell and then steps down the labels from the end cell's label
        minus one to 0, ending at the start cell. */
    ghost predicate IsBacktrack(path: seq<GridItem>, start: Pos, end: Pos)
      reads this, mainGrid
      requires Sized() && InBounds(start) && InBounds(end)
    {
      |path| > 0 && path[0] == mainGrid[end.x, end.z] &&
      StepsDown(path[1..], end, path[0].visited - 1) &&
      path[|path| - 1] == mainGrid[start.x, start.z]
    }

    /** path is the end cell e followed by the walk that picks, at each step,
        the first candidate closest to (e.x, 0, e.z). */
    ghost predicate ClosestWalk(path: seq<GridItem>, e: Pos)
      reads this, mainGrid
      requires Sized() && InBounds(e)
    {
      path == [mainGrid[e.x, e.z]] + BacktrackFrom(e.x, e.z, mainGrid[e.x, e.z].visited - 1, Vec3(e.x, 0, e.z))
    }

    /** Runs the flood fill from the start, then walks the labels back from
        the end. None (C# null) when the end is blocked or not labelled above
        0, which is when it is the start itself or out of reach. */
    method TargetPath(startX: int, startZ: int, endX: int, endZ: int) returns (path: Option<seq<GridItem>>)
      requires Valid() && CoordsMatch() && InBounds(Pos(startX, startZ)) && InBounds(Pos(endX, endZ))
      modifies mainGrid
      ensures Valid() && CoordsMatch()
      ensures forall i, j | 0 <= i < N && 0 <= j < N ::
        mainGrid[i, j] == old(mainGrid[i, j]).(visited := mainGrid[i, j].visited)
      ensures Labelled(Pos(startX, startZ))
      ensures path.None? <==> Dist(board, Pos(startX, startZ), Pos(endX, endZ), Rounds) <= 0
      ensures path.Some? ==>
        IsBacktrack(path.value, Pos(startX, startZ), Pos(endX, endZ)) &&
        |path.value| == Dist(board, Pos(startX, startZ), Pos(endX, endZ), Rounds) + 1
      ensures path.Some? ==> |path.value| > 0 && PosOf(path.value[0]) == Pos(endX, endZ)
      ensures path.Some? ==> ClosestWalk(path.value, Pos(endX, endZ))
    {
      var s, e := Pos(startX, startZ), Pos(endX, endZ);
      SetDistance(startX, startZ);
      ghost var dist := Dist(board, s, e, Rounds);
      assert Label(e) == dist;
      if dist > 0 {
        BlockedUnreachedAt(s, e);
      }

      if !mainGrid[endX, endZ].isBlocked && mainGrid[endX, endZ].visited > 0 {
        var p := Backtrack(s, e);
        TargetPathIsBacktrack(s, e, p);
        return Some(p);
      } else {
        return None;
      }
    }

    /** The backtrack loop of TargetPath, over labels the flood fill from s
        has written: starting from the end cell e, it appends the pick of
        NextStep among the neighbours labelled one less, until it has
        appended a cell labelled 0. */
    method Backtrack(s: Pos, e: Pos) returns (p: seq<GridItem>)
      requires Valid() && CoordsMatch() && InBounds(s) && InBounds(e)
      requires Labelled(s)
      requires !mainGrid[e.x, e.z].isBlocked && mainGrid[e.x, e.z].visited > 0
      ensures ClosestWalk(p, e)
    {
      var x := e.x;
      var z := e.z;
      p := [mainGrid[x, z]];
      var step := mainGrid[x, z].visited - 1;
      var target := Vec3(e.x, 0, e.z);
      ghost var whole := p + BacktrackFrom(x, z, step, target);
      assert ClosestWalk(whole, e);
      while step > -1
        invariant InBounds(Pos(x, z)) && step >= -1 && mainGrid[x, z].visited == step + 1
        invariant p + BacktrackFrom(x, z, step, target) == whole
        decreases step
      {
        BacktrackFromCons(s, x, z, step, target);
        var tempObj := NextStep(x, z, step, target);
        AppendAssoc(p, tempObj, BacktrackFrom(tempObj.x, tempObj.z, step - 1, target));
        p := p + [tempObj];
        x := tempObj.x;
        z := tempObj.z;
        step := step - 1;
      }
      assert p + [] == p;
      assert p == whole;
    }

    /** On flood-fill labels the backtrack never stops early: a cell labelled
        step + 1 has a pick, and the walk goes on from the pick. */
    lemma BacktrackFromCons(s: Pos, x: int, z: int, step: int, target: Vec3)
      requires Valid() && CoordsMatch() && InBounds(s) && InBounds(Pos(x, z)) && step >= 0
      requires Labelled(s)
      requires mainGrid[x, z].visited == step + 1
      ensures |Candidates(x, z, step, 8)| > 0 && Choice(x, z, step, target).Some?
      ensures var next := Choice(x, z, step, target).value;
        BacktrackFrom(x, z, step, target) == [next] + BacktrackFrom(next.x, next.z, step - 1, target)
    {
      CandidatesNonEmpty(s, x, z, step);
    }

    /** On flood-fill labels, the list TargetPath returns is a backtrack from
        the end cell to the start cell with as many entries as the end cell's
        label plus one. */
    lemma TargetPathIsBacktrack(s: Pos, e: Pos, path: seq<GridItem>)
      requires Valid() && CoordsMatch() && InBounds(s) && InBounds(e)
      requires Labelled(s)
      requires mainGrid[e.x, e.z].visited > 0
      requires ClosestWalk(path, e)
      ensures IsBacktrack(path, s, e) && |path| == mainGrid[e.x, e.z].visited + 1
    {
      var target := Vec3(e.x, 0, e.z);
      var rest := BacktrackFrom(e.x, e.z, mainGrid[e.x, e.z].visited - 1, target);
      BacktrackFromStepsDown(s, e.x, e.z, mainGrid[e.x, e.z].visited - 1, target);
      assert path[1..] == rest;
    }

    /** The end cell passes TargetPath's guard exactly when it has a positive
        distance: a positive distance means it is not blocked. */
    lemma BlockedUnreachedAt(s: Pos, e: Pos)
      requires Valid() && InBounds(e) && Dist(board, s, e, Rounds) > 0
      ensures !mainGrid[e.x, e.z].isBlocked
    {
      DistReached(board, s, e, Rounds);
      if board[e.x][e.z] {
        BlockedUnreached(board, s, e, Rounds);
      }
    }

    /** A cell labelled step + 1 by the flood fill has a neighbour labelled
        step, so the backtrack always finds a candidate. */
    lemma CandidatesNonEmpty(s: Pos, x: int, z: int, step: int)
      requires Valid() && CoordsMatch() && InBounds(Pos(x, z)) && step >= 0
      requires Labelled(s)
      requires mainGrid[x, z].visited == step + 1
      ensures |Candidates(x, z, step, 8)| > 0
    {
      var c := Pos(x, z);
      assert Label(c) == step + 1;
      DistParent(board, s, c, Rounds);
      var a: Pos :| InBounds(a) && Dist(board, s, a, Rounds) == step && Edge(board, a, c);
      assert Label(a) == step && !mainGrid[a.x, a.z].isBlocked;
      CandidatesFromNeighbour(x, z, step, a);
    }

    /** A free neighbour labelled step is a candidate. */
    lemma CandidatesFromNeighbour(x: int, z: int, step: int, a: Pos)
      requires Sized() && InBounds(Pos(x, z)) && InBounds(a) && Adjacent(Pos(x, z), a)
      requires !mainGrid[a.x, a.z].isBlocked && mainGrid[a.x, a.z].visited == step
      ensures |Candidates(x, z, step, 8)| > 0
    {
      var d := DirectionTo(Pos(x, z), a);
      OrdinalRoundTrip(d, Ordinal(d));
      CandidatesComplete(x, z, step, 8, Ordinal(d));
      assert mainGrid[a.x, a.z] in Candidates(x, z, step, 8);
    }

    /** The first item of least squared distance from targetLocation, or the
        first item when none is closer than the initial bound. */
    method FindClosest(targetLocation: Vec3, list: seq<GridItem>) returns (item: GridItem)
      requires |list| > 0
      ensures item == list[ClosestIndex(targetLocation, list)]
      ensures IsFirstClosest(targetLocation, list, ClosestIndex(targetLocation, list))
    {
      var currentDistance := InitialBest;
      var indexNumber := 0;
      for i := 0 to |list|
        invariant 0 <= indexNumber < |list|
        invariant i == 0 ==> indexNumber == 0 && currentDistance == InitialBest
        invariant i > 0 ==> indexNumber == ClosestIndex(targetLocation, list[..i])
        invariant i > 0 ==> currentDistance == Min(SquaredDistance(targetLocation, list[indexNumber]), InitialBest)
      {
        assert list[..i + 1][..i] == list[..i];
        var distance := SquaredDistance(targetLocation, list[i]);
        if distance < currentDistance {
          currentDistance := distance;
          indexNumber := i;
        }
      }
      assert list[..|list|] == list;
      item := list[indexNumber];
      ClosestIndexIsFirstClosest(targetLocation, list);
    }

    /** The free border cells, top and bottom rows first, then the two side
        columns without their corners. */
    method GetValidEndpoints() returns (endpoints: seq<Vec3>)
      requires Valid()
      ensures endpoints == ValidEndpoints(board)
    {
      endpoints := [];
      // along the top and bottom rows
      for x := 0 to 9
        invariant endpoints == RowEndpoints(board, x)
      {
        if !mainGrid[x, 8].isBlocked {
          endpoints := endpoints + [Vec3(x, 1, 8)];
        }
        ghost var top := RowEndpoints(board, x) + EndpointOf(board, Pos(x, N - 1));
        assert endpoints == top;
        if !mainGrid[x, 0].isBlocked {
          endpoints := endpoints + [Vec3(x, 1, 0)];
        }
        assert endpoints == top + EndpointOf(board, Pos(x, 0));
      }
      // along the left and right columns, skipping the corners
      ghost var rows := endpoints;
      for y := 1 to 8
        invariant endpoints == rows + SideEndpoints(board, y)
      {
        if !mainGrid[0, y].isBlocked {
          endpoints := endpoints + [Vec3(0, 1, y)];
        }
        ghost var side := SideEndpoints(board, y);
        ghost var left := EndpointOf(board, Pos(0, y));
        ghost var right := EndpointOf(board, Pos(N - 1, y));
        assert endpoints == (rows + side) + left;
        if !mainGrid[8, y].isBlocked {
          endpoints := endpoints + [Vec3(8, 1, y)];
        }
        assert endpoints == ((rows + side) + left) + right;
        ConcatAssoc(rows, side, left, right);
      }
    }

    /** Appends one record whose outcome is the negated decision outcome. */
    method AddState(state: AgentState, blockPosX: int, blockPosZ: int)
      modifies this`qTable
      ensures |qTable| == |old(qTable)| + 1 && qTable[..|old(qTable)|] == old(qTable)
      ensures qTable[|qTable| - 1] == Experience(state, blockPosX, blockPosZ, -1.0 * state.decisionOutcome)
    {
      var newState := Experience(state, blockPosX, blockPosZ, -1.0 * state.decisionOutcome);
      qTable := qTable + [newState];
    }

    /** Computes one TargetPath result per valid endpoint, in endpoint order,
        from the agent cell (x, z). */
    method GanSequence(x: int, z: int) returns (pathsToEndpoints: seq<Option<seq<GridItem>>>)
      requires Valid() && CoordsMatch() && InBounds(Pos(x, z))
      modifies mainGrid
      ensures Valid() && CoordsMatch()
      ensures |pathsToEndpoints| == |ValidEndpoints(board)|
      ensures forall i | 0 <= i < |pathsToEndpoints| ::
        PathOutcome(board, Pos(x, z), ValidEndpoints(board)[i], pathsToEndpoints[i])
      ensures |pathsToEndpoints| > 0 ==> Labelled(Pos(x, z))
    {
      var validEndpoints := GetValidEndpoints();
      ghost var b := board;
      pathsToEndpoints := [];
      for i := 0 to |validEndpoints|
        invariant Valid() && CoordsMatch() && board == b
        invariant i > 0 ==> Labelled(Pos(x, z))
        invariant |pathsToEndpoints| == i
        invariant forall k | 0 <= k < i :: PathOutcome(b, Pos(x, z), validEndpoints[k], pathsToEndpoints[k])
      {
        var tempX := validEndpoints[i].x;
        var tempZ := validEndpoints[i].z;
        ValidEndpointsAreOpenBorder(board, validEndpoints[i]);
        var path := TargetPath(x, z, tempX, tempZ);
        assert PathOutcome(b, Pos(x, z), validEndpoints[i], path);
        ghost var before := pathsToEndpoints;
        pathsToEndpoints := pathsToEndpoints + [path];
        forall k | 0 <= k < i + 1
          ensures PathOutcome(b, Pos(x, z), validEndpoints[k], pathsToEndpoints[k])
        {
          if k < i {
            assert pathsToEndpoints[k] == before[k];
          }
        }
      }
    }
  }

  /** What GanSequence records for the endpoint e: no path exactly when e is
      the agent's own cell or out of its reach, and otherwise a path that
      starts at e and has one entry per step of the shortest route plus one. */
  ghost predicate PathOutcome(b: Board, s: Pos, e: Vec3, path: Option<seq<GridItem>>)
  {
    (path.None? <==> Dist(b, s, Pos(e.x, e.z), Rounds) <= 0) &&
    (path.Some? ==> |path.value| == Dist(b, s, Pos(e.x, e.z), Rounds) + 1 &&
                    PosOf(path.value[0]) == Pos(e.x, e.z))
  }

  /** The `visited` labels of the whole grid, indexed like the board. */
  predicate IsLabelTable(t: seq<seq<int>>) {
    |t| == N && forall i | 0 <= i < N :: |t[i]| == N
  }

  type LabelTable = t: seq<seq<int>> | IsLabelTable(t) witness seq(N, i => seq(N, j => -1))

  /** The labels in the middle of a flood-fill round that starts from the
      labels t and expands the cells labelled k, after the first n cells in
      row-major order were looked at; off the board, -1. */
  ghost function RoundLabel(b: Board, t: LabelTable, c: Pos, k: nat, n: nat): int
  {
    if !InBounds(c) then -1
    else if t[c.x][c.z] != -1 then t[c.x][c.z]
    else if ParentAmong(b, t, c, k, n) then k + 1
    else -1
  }

  /** The round expands a: a free cell labelled k at the start of the round. */
  ghost predicate Expands(b: Board, t: LabelTable, a: Pos, k: nat)
  {
    InBounds(a) && !b[a.x][a.z] && t[a.x][a.z] == k
  }

  /** Looking at the n-th cell labels its unlabelled move targets when the
      cell is expanded; a cell carries label k mid-round exactly when it did
      at the start. */
  lemma RoundAdvance(b: Board, t: LabelTable, k: nat, n: nat)
    requires n < Cells
    ensures InBounds(CellAt(n))
    ensures var a := CellAt(n); RoundLabel(b, t, a, k, n) == k <==> t[a.x][a.z] == k
    ensures forall c | InBounds(c) ::
      RoundLabel(b, t, c, k, n + 1) ==
        if RoundLabel(b, t, c, k, n) == -1 && Expands(b, t, CellAt(n), k) && Move(b, CellAt(n), c) then k + 1
        else RoundLabel(b, t, c, k, n)
  {
  }

  /** The label table holds the distances from s within k steps. */
  ghost predicate TableIsDist(b: Board, s: Pos, t: LabelTable, k: nat)
  {
    forall c | InBounds(c) :: t[c.x][c.z] == Dist(b, s, c, k)
  }

  /** Starting from the distances within k steps, a whole round of 81 cells
      leaves the distances within k + 1 steps. */
  lemma RoundComplete(b: Board, s: Pos, t: LabelTable, k: nat)
    requires TableIsDist(b, s, t, k)
    ensures forall c | InBounds(c) :: RoundLabel(b, t, c, k, Cells) == Dist(b, s, c, k + 1)
  {
    forall c | InBounds(c)
      ensures RoundLabel(b, t, c, k, Cells) == Dist(b, s, c, k + 1)
    {
      ParentAmongAll(b, s, t, c, k);
      DistStep(b, s, c, k);
    }
  }

  /** The cell looked at n-th by `foreach` over the 9x9 array. */
  function CellAt(n: nat): Pos {
    Pos(n / N, n % N)
  }

  /** The `foreach` visits the 81 cells once each, row by row: the n-th cell
      is c exactly when n is c's row-major index. */
  lemma CellAtRowMajor(n: nat, c: Pos)
    requires InBounds(c)
    ensures n < Cells ==> InBounds(CellAt(n))
    ensures CellAt(n) == c <==> n == c.x * N + c.z
  {
  }

  /** One of the first n cells in row-major order is expanded and the fill
      steps from it to c. */
  ghost predicate ParentAmong(b: Board, t: LabelTable, c: Pos, k: nat, n: nat)
  {
    n > 0 && (ParentAmong(b, t, c, k, n - 1) ||
              (var a := CellAt(n - 1); Expands(b, t, a, k) && Move(b, a, c)))
  }

  /** After all 81 cells, the round has looked at every parent candidate. */
  lemma ParentAmongAll(b: Board, s: Pos, t: LabelTable, c: Pos, k: nat)
    requires TableIsDist(b, s, t, k)
    ensures ParentAmong(b, t, c, k, Cells) <==> HasLayerParent(b, s, c, k)
  {
    if ParentAmong(b, t, c, k, Cells) {
      var a := ParentAmongSound(b, t, c, k, Cells);
      assert t[a.x][a.z] == Dist(b, s, a, k);
    }
    if HasLayerParent(b, s, c, k) {
      var a: Pos :| InBounds(a) && Dist(b, s, a, k) == k && Edge(b, a, c);
      var m := a.x * N + a.z;
      assert CellAt(m) == a;
      assert t[a.x][a.z] == Dist(b, s, a, k);
      ParentAmongComplete(b, t, c, k, m, Cells);
    }
  }

  /** The parent that ParentAmong found. */
  lemma {:induction false} ParentAmongSound(b: Board, t: LabelTable, c: Pos, k: nat, n: nat) returns (a: Pos)
    requires ParentAmong(b, t, c, k, n)
    ensures Expands(b, t, a, k) && Move(b, a, c)
  {
    if ParentAmong(b, t, c, k, n - 1) {
      a := ParentAmongSound(b, t, c, k, n - 1);
    } else {
      a := CellAt(n - 1);
    }
  }

  lemma {:induction false} ParentAmongComplete(b: Board, t: LabelTable, c: Pos, k: nat, m: nat, n: nat)
    requires m < n
    requires var a := CellAt(m); Expands(b, t, a, k) && Move(b, a, c)
    ensures ParentAmong(b, t, c, k, n)
  {
    if m < n - 1 {
      ParentAmongComplete(b, t, c, k, m, n - 1);
    }
  }

  /** The endpoint vector (x, 1, z) of p when p is a free cell. */
  function EndpointOf(b: Board, p: Pos): seq<Vec3>
  {
    if InBounds(p) && !b[p.x][p.z] then [Vec3(p.x, 1, p.z)] else []
  }

  /** The endpoints of the top and bottom rows for columns 0 .. x-1: per
      column, the top cell then the bottom one. */
  function RowEndpoints(b: Board, x: nat): seq<Vec3>
    requires x <= N
  {
    if x == 0 then []
    else RowEndpoints(b, x - 1) + EndpointOf(b, Pos(x - 1, N - 1)) + EndpointOf(b, Pos(x - 1, 0))
  }

  /** The endpoints of the left and right columns for rows 1 .. y-1: per row,
      the left cell then the right one. */
  function SideEndpoints(b: Board, y: nat): seq<Vec3>
    requires 1 <= y < N
  {
    if y == 1 then []
    else SideEndpoints(b, y - 1) + EndpointOf(b, Pos(0, y - 1)) + EndpointOf(b, Pos(N - 1, y - 1))
  }

  /** The list GetValidEndpoints builds. */
  function ValidEndpoints(b: Board): seq<Vec3>
  {
    RowEndpoints(b, N) + SideEndpoints(b, N - 1)
  }

  lemma ConcatAssoc(a: seq<Vec3>, b: seq<Vec3>, c: seq<Vec3>, d: seq<Vec3>)
    ensures ((a + b) + c) + d == a + ((b + c) + d)
  {
    assert (a + b) + c == a + (b + c);
    assert (a + (b + c)) + d == a + ((b + c) + d);
  }

  lemma AppendAssoc(p: seq<GridItem>, e: GridItem, rest: seq<GridItem>)
    ensures (p + [e]) + rest == p + ([e] + rest)
  {
  }

  predicate Distinct(s: seq<Vec3>) {
    forall i, j | 0 <= i < j < |s| :: s[i] != s[j]
  }

  lemma DistinctAppend(s: seq<Vec3>, t: seq<Vec3>)
    requires Distinct(s) && Distinct(t) && forall e | e in t :: e !in s
    ensures Distinct(s + t)
  {
    var r := s + t;
    forall i, j | 0 <= i < j < |r|
      ensures r[i] != r[j]
    {
      if i < |s| <= j {
        assert r[j] in t;
      }
    }
  }

  lemma {:induction false} RowEndpointsMembers(b: Board, x: nat, e: Vec3)
    requires x <= N
    ensures e in RowEndpoints(b, x) <==>
      e.y == 1 && 0 <= e.x < x && (e.z == N - 1 || e.z == 0) && !b[e.x][e.z]
  {
    if x > 0 {
      RowEndpointsMembers(b, x - 1, e);
    }
  }

  lemma {:induction false} SideEndpointsMembers(b: Board, y: nat, e: Vec3)
    requires 1 <= y < N
    ensures e in SideEndpoints(b, y) <==>
      e.y == 1 && 1 <= e.z < y && (e.x == 0 || e.x == N - 1) && !b[e.x][e.z]
  {
    if y > 1 {
      SideEndpointsMembers(b, y - 1, e);
    }
  }

  lemma {:induction false} RowEndpointsDistinct(b: Board, x: nat)
    requires x <= N
    ensures Distinct(RowEndpoints(b, x))
  {
    if x > 0 {
      RowEndpointsDistinct(b, x - 1);
      var added := EndpointOf(b, Pos(x - 1, N - 1)) + EndpointOf(b, Pos(x - 1, 0));
      forall e | e in added
        ensures e !in RowEndpoints(b, x - 1)
      {
        RowEndpointsMembers(b, x - 1, e);
      }
      DistinctAppend(RowEndpoints(b, x - 1), added);
      assert RowEndpoints(b, x) == RowEndpoints(b, x - 1) + added;
    }
  }

  lemma {:induction false} SideEndpointsDistinct(b: Board, y: nat)
    requires 1 <= y < N
    ensures Distinct(SideEndpoints(b, y))
  {
    if y > 1 {
      SideEndpointsDistinct(b, y - 1);
      var added := EndpointOf(b, Pos(0, y - 1)) + EndpointOf(b, Pos(N - 1, y - 1));
      forall e | e in added
        ensures e !in SideEndpoints(b, y - 1)
      {
        SideEndpointsMembers(b, y - 1, e);
      }
      DistinctAppend(SideEndpoints(b, y - 1), added);
      assert SideEndpoints(b, y) == SideEndpoints(b, y - 1) + added;
    }
  }

  /** GetValidEndpoints lists exactly the free cells of the outer ring, as
      (x, 1, z), corners included. */
  lemma ValidEndpointsAreOpenBorder(b: Board, e: Vec3)
    ensures e in ValidEndpoints(b) <==> e.y == 1 && OnBorder(Pos(e.x, e.z)) && !b[e.x][e.z]
  {
    RowEndpointsMembers(b, N, e);
    SideEndpointsMembers(b, N - 1, e);
  }

  /** GetValidEndpoints lists each cell only once. */
  lemma ValidEndpointsDistinct(b: Board)
    ensures Distinct(ValidEndpoints(b))
  {
    RowEndpointsDistinct(b, N);
    SideEndpointsDistinct(b, N - 1);
    forall e' | e' in SideEndpoints(b, N - 1)
      ensures e' !in RowEndpoints(b, N)
    {
      RowEndpointsMembers(b, N, e');
      SideEndpointsMembers(b, N - 1, e');
    }
    DistinctAppend(RowEndpoints(b, N), SideEndpoints(b, N - 1));
  }
}
