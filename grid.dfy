/** Pure geometry of the 9x9 board that GAN_AI searches: positions, the
    8-connected move rule of its flood fill, reachability within k steps and
    the breadth-first distance that the flood fill is meant to compute. */
module Grid {
  import opened Enums

  /** Rows and columns of the board (`new GridItem[9, 9]`). */
  const N: nat := 9

  /** A cell index pair: x is the first array index, z the second. */
  datatype Pos = Pos(x: int, z: int)

  /** The blocked flags of a board: `b[x][z]` is true when cell (x, z) is
      blocked. */
  predicate IsBoard(b: seq<seq<bool>>) {
    |b| == N && forall i | 0 <= i < N :: |b[i]| == N
  }

  type Board = b: seq<seq<bool>> | IsBoard(b) witness seq(N, i => seq(N, j => false))

  predicate InBounds(p: Pos) {
    0 <= p.x < N && 0 <= p.z < N
  }

  /** The cell one step from p in direction d, by `directionToVector`. */
  function Neighbour(p: Pos, d: Direction): Pos {
    var v := DirectionToVector(d);
    Pos(p.x + v.x, p.z + v.z)
  }

  /** c is one of the eight cells around a. */
  predicate Adjacent(a: Pos, c: Pos) {
    a != c && -1 <= c.x - a.x <= 1 && -1 <= c.z - a.z <= 1
  }

  /** The direction leading from a to an adjacent c, by `vectorToDirection`. */
  function DirectionTo(a: Pos, c: Pos): (d: Direction)
    requires Adjacent(a, c)
    ensures Neighbour(a, d) == c
  {
    VectorToDirection(Vec3(c.x - a.x, 0, c.z - a.z)).value
  }

  /** The cells around a are exactly its eight neighbours, one per direction. */
  lemma NeighbourIsAdjacent(a: Pos, d: Direction)
    ensures Adjacent(a, Neighbour(a, d))
    ensures DirectionTo(a, Neighbour(a, d)) == d
  {
    var v := DirectionToVector(d);
    VectorRoundTrip(d, Vec3(v.x, 0, v.z));
  }

  /** The move test of TestEightDirections for a step from a to c: c is on
      the board, around a and free, and so are the two cells (a.x, c.z) and
      (c.x, a.z). For a diagonal step these are the two corner cells, so the
      fill cannot squeeze between two blocked cells; for a straight step they
      are a and c themselves. */
  predicate Move(b: Board, a: Pos, c: Pos)
    requires InBounds(a)
  {
    InBounds(c) && Adjacent(a, c) && !b[c.x][c.z] && !b[a.x][c.z] && !b[c.x][a.z]
  }

  /** A step the flood fill takes: it only expands free cells. */
  predicate Edge(b: Board, a: Pos, c: Pos)
  {
    InBounds(a) && !b[a.x][a.z] && Move(b, a, c)
  }

  /** Steps can be taken in either direction. */
  lemma EdgeSymmetric(b: Board, a: Pos, c: Pos)
    ensures Edge(b, a, c) <==> Edge(b, c, a)
  {
  }

  /** c can be reached from the source s in at most k steps. */
  ghost predicate Reached(b: Board, s: Pos, c: Pos, k: nat)
    decreases k
  {
    c == s || (k > 0 && (Reached(b, s, c, k - 1) ||
                         exists a: Pos | InBounds(a) && Reached(b, s, a, k - 1) :: Edge(b, a, c)))
  }

  /** The breadth-first distance from s to c when it is at most k, and -1
      when c cannot be reached in k steps. */
  ghost function Dist(b: Board, s: Pos, c: Pos, k: nat): (d: int)
    ensures -1 <= d <= k
    ensures d == 0 <==> c == s
    decreases k
  {
    if c == s then 0
    else if k == 0 then -1
    else if Reached(b, s, c, k - 1) then Dist(b, s, c, k - 1)
    else if Reached(b, s, c, k) then k
    else -1
  }

  /** Dist is -1 exactly for the cells not reached within k steps, and
      otherwise the least number of steps that reaches the cell. */
  lemma {:induction false} DistReached(b: Board, s: Pos, c: Pos, k: nat)
    ensures Dist(b, s, c, k) == -1 <==> !Reached(b, s, c, k)
    ensures Dist(b, s, c, k) >= 0 ==> Reached(b, s, c, Dist(b, s, c, k))
    ensures Dist(b, s, c, k) > 0 ==> !Reached(b, s, c, Dist(b, s, c, k) - 1)
    decreases k
  {
    if c != s && k > 0 && Reached(b, s, c, k - 1) {
      DistReached(b, s, c, k - 1);
    }
  }

  /** Reachable in i steps means reachable in any j >= i steps. */
  lemma {:induction false} ReachedMonotone(b: Board, s: Pos, c: Pos, i: nat, j: nat)
    requires i <= j && Reached(b, s, c, i)
    ensures Reached(b, s, c, j)
    decreases j - i
  {
    if i < j {
      ReachedMonotone(b, s, c, i + 1, j);
    }
  }

  /** Dist is the length of a shortest route: c is reached in Dist steps and
      in no fewer. */
  lemma DistIsShortest(b: Board, s: Pos, c: Pos, k: nat, j: nat)
    requires Dist(b, s, c, k) >= 0
    ensures Reached(b, s, c, Dist(b, s, c, k))
    ensures j < Dist(b, s, c, k) ==> !Reached(b, s, c, j)
  {
    DistReached(b, s, c, k);
    var d := Dist(b, s, c, k);
    if j < d && Reached(b, s, c, j) {
      ReachedMonotone(b, s, c, j, d - 1);
    }
  }

  /** Any m that is a shortest route length within k is Dist. */
  lemma DistExact(b: Board, s: Pos, c: Pos, k: nat, m: nat)
    requires m <= k && Reached(b, s, c, m)
    requires m > 0 ==> !Reached(b, s, c, m - 1)
    ensures Dist(b, s, c, k) == m
  {
    ReachedMonotone(b, s, c, m, k);
    DistReached(b, s, c, k);
    var d := Dist(b, s, c, k);
    DistIsShortest(b, s, c, k, m);
    if d < m {
      ReachedMonotone(b, s, c, d, m - 1);
    }
  }

  /** c has a neighbour a at distance exactly k from which the fill steps
      to c. */
  ghost predicate HasLayerParent(b: Board, s: Pos, c: Pos, k: nat)
  {
    exists a: Pos | InBounds(a) && Dist(b, s, a, k) == k :: Edge(b, a, c)
  }

  /** One round of the flood fill: a cell keeps its distance once it has one,
      and an unreached cell gets distance k + 1 exactly when it can be stepped
      to from a cell at distance k. */
  lemma DistStep(b: Board, s: Pos, c: Pos, k: nat)
    ensures Dist(b, s, c, k + 1) ==
      if Dist(b, s, c, k) != -1 then Dist(b, s, c, k)
      else if HasLayerParent(b, s, c, k) then k + 1
      else -1
  {
    DistReached(b, s, c, k);
    DistReached(b, s, c, k + 1);
    if Dist(b, s, c, k) == -1 {
      if Reached(b, s, c, k + 1) {
        var a: Pos :| InBounds(a) && Reached(b, s, a, k) && Edge(b, a, c);
        DistReached(b, s, a, k);
        if Dist(b, s, a, k) < k {
          DistTriangle(b, s, a, c, k);
        }
        assert Dist(b, s, a, k) == k;
      }
      if HasLayerParent(b, s, c, k) {
        var a: Pos :| InBounds(a) && Dist(b, s, a, k) == k && Edge(b, a, c);
        DistReached(b, s, a, k);
        assert Reached(b, s, c, k + 1);
      }
    }
  }

  /** Every cell at a positive distance d has a neighbour at distance d - 1
      from which the fill stepped to it. */
  lemma DistParent(b: Board, s: Pos, c: Pos, k: nat)
    requires Dist(b, s, c, k) > 0
    ensures exists a: Pos | InBounds(a) && Dist(b, s, a, k) == Dist(b, s, c, k) - 1 :: Edge(b, a, c)
  {
    DistReached(b, s, c, k);
    var d := Dist(b, s, c, k);
    assert Reached(b, s, c, d) && !Reached(b, s, c, d - 1);
    var a: Pos :| InBounds(a) && Reached(b, s, a, d - 1) && Edge(b, a, c);
    assert d - 1 > 0 ==> !Reached(b, s, a, d - 2);
    DistExact(b, s, a, k, d - 1);
  }

  /** A step never lengthens the distance by more than one. */
  lemma DistTriangle(b: Board, s: Pos, a: Pos, c: Pos, k: nat)
    requires Edge(b, a, c)
    requires 0 <= Dist(b, s, a, k) < k
    ensures 0 <= Dist(b, s, c, k) <= Dist(b, s, a, k) + 1
  {
    DistReached(b, s, a, k);
    var m := Dist(b, s, a, k);
    assert Reached(b, s, c, m + 1);
    ReachedMonotone(b, s, c, m + 1, k);
    DistReached(b, s, c, k);
    DistIsShortest(b, s, c, k, m + 1);
  }

  /** No blocked cell other than the source is ever reached. */
  lemma {:induction false} BlockedUnreached(b: Board, s: Pos, c: Pos, k: nat)
    requires InBounds(c) && b[c.x][c.z] && c != s
    ensures !Reached(b, s, c, k)
  {
    if k > 0 {
      BlockedUnreached(b, s, c, k - 1);
    }
  }

  /** A route can be extended at its start by one step. */
  lemma {:induction false} ReachedPrepend(b: Board, a: Pos, c: Pos, t: Pos, j: nat)
    requires Edge(b, c, a) && Reached(b, a, t, j)
    ensures Reached(b, c, t, j + 1)
    decreases j
  {
    if t == a {
      assert Reached(b, c, c, 0);
      assert Reached(b, c, a, 1);
      ReachedMonotone(b, c, a, 1, j + 1);
    } else if Reached(b, a, t, j - 1) {
      ReachedPrepend(b, a, c, t, j - 1);
    } else {
      var m: Pos :| InBounds(m) && Reached(b, a, m, j - 1) && Edge(b, m, t);
      ReachedPrepend(b, a, c, m, j - 1);
    }
  }

  /** Reachability is symmetric: t can be reached from s in k steps exactly
      when s can be reached from t in k steps. */
  lemma ReachedSymmetric(b: Board, s: Pos, t: Pos, k: nat)
    ensures Reached(b, s, t, k) <==> Reached(b, t, s, k)
  {
    if Reached(b, s, t, k) {
      ReachedReverse(b, s, t, k);
    }
    if Reached(b, t, s, k) {
      ReachedReverse(b, t, s, k);
    }
  }

  lemma {:induction false} ReachedReverse(b: Board, s: Pos, t: Pos, k: nat)
    requires Reached(b, s, t, k)
    ensures Reached(b, t, s, k)
    decreases k
  {
    if t == s {
    } else if Reached(b, s, t, k - 1) {
      ReachedReverse(b, s, t, k - 1);
    } else {
      var a: Pos :| InBounds(a) && Reached(b, s, a, k - 1) && Edge(b, a, t);
      ReachedReverse(b, s, a, k - 1);
      ReachedPrepend(b, a, t, s, k - 1);
    }
  }

  /** A cell has a positive distance from s exactly when s has a positive
      distance from it. */
  lemma PositiveDistSymmetric(b: Board, s: Pos, t: Pos, k: nat)
    ensures Dist(b, s, t, k) > 0 <==> Dist(b, t, s, k) > 0
  {
    ReachedSymmetric(b, s, t, k);
    DistReached(b, s, t, k);
    DistReached(b, t, s, k);
  }

  /** A cell of the outer ring of the board. */
  predicate OnBorder(p: Pos) {
    InBounds(p) && (p.x == 0 || p.x == N - 1 || p.z == 0 || p.z == N - 1)
  }
}
