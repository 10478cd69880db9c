/** The static direction tables of Enums.cs: the eight compass directions,
    their grid offsets (x, z), their presentation rotations in degrees and
    the inverse map from an offset back to its direction. */
module Enums {
  import opened Wrappers

  /** Declaration order gives the ordinals 0..7 that GAN_AI casts to a
      direction with `(Enums.Directions)i`. */
  datatype Direction = North | South | West | East | NorthEast | SouthEast | NorthWest | SouthWest

  /** Unity's Vector3 restricted to the integral values the tables hold. */
  datatype Vec3 = Vec3(x: int, y: int, z: int)

  function Add(a: Vec3, b: Vec3): Vec3 { Vec3(a.x + b.x, a.y + b.y, a.z + b.z) }

  function Negate(a: Vec3): Vec3 { Vec3(-a.x, -a.y, -a.z) }

  /** An offset to one of the eight neighbouring cells in the x/z plane. */
  predicate IsNeighbourOffset(v: Vec3) {
    -1 <= v.x <= 1 && v.y == 0 && -1 <= v.z <= 1 && !(v.x == 0 && v.z == 0)
  }

  predicate IsDiagonal(d: Direction) {
    d.NorthEast? || d.SouthEast? || d.NorthWest? || d.SouthWest?
  }

  function Ordinal(d: Direction): (i: nat)
    ensures i < 8
  {
    match d
    case North => 0
    case South => 1
    case West => 2
    case East => 3
    case NorthEast => 4
    case SouthEast => 5
    case NorthWest => 6
    case SouthWest => 7
  }

  /** The cast `(Enums.Directions)i` for an ordinal that names a direction. */
  function FromOrdinal(i: nat): (d: Direction)
    requires i < 8
    ensures Ordinal(d) == i
  {
    if i == 0 then North
    else if i == 1 then South
    else if i == 2 then West
    else if i == 3 then East
    else if i == 4 then NorthEast
    else if i == 5 then SouthEast
    else if i == 6 then NorthWest
    else SouthWest
  }

  /** `directionToVector`: forward is +z, right is +x. */
  function DirectionToVector(d: Direction): (v: Vec3)
    ensures IsNeighbourOffset(v)
    ensures IsDiagonal(d) <==> (v.x != 0 && v.z != 0)
  {
    match d
    case North => Vec3(0, 0, 1)
    case South => Vec3(0, 0, -1)
    case West => Vec3(-1, 0, 0)
    case East => Vec3(1, 0, 0)
    case NorthEast => Vec3(1, 0, 1)
    case SouthEast => Vec3(1, 0, -1)
    case NorthWest => Vec3(-1, 0, 1)
    case SouthWest => Vec3(-1, 0, -1)
  }

  /** `directionToRotation`, in whole degrees. */
  function DirectionToRotation(d: Direction): (deg: int)
    ensures 0 <= deg < 360 && deg % 45 == 0
  {
    match d
    case North => 0
    case South => 180
    case West => 270
    case East => 90
    case NorthEast => 45
    case SouthEast => 135
    case NorthWest => 315
    case SouthWest => 225
  }

  /** `vectorToDirection`; a vector that is not a key of the dictionary
      (the C# indexer would throw) gives None. */
  function VectorToDirection(v: Vec3): (r: Option<Direction>)
    ensures r.Some? <==> IsNeighbourOffset(v)
    ensures r.Some? ==> DirectionToVector(r.value) == v
  {
    if v == Vec3(0, 0, 1) then Some(North)
    else if v == Vec3(0, 0, -1) then Some(South)
    else if v == Vec3(-1, 0, 0) then Some(West)
    else if v == Vec3(1, 0, 0) then Some(East)
    else if v == Vec3(1, 0, 1) then Some(NorthEast)
    else if v == Vec3(1, 0, -1) then Some(SouthEast)
    else if v == Vec3(-1, 0, 1) then Some(NorthWest)
    else if v == Vec3(-1, 0, -1) then Some(SouthWest)
    else None
  }

  /** The ordinal cast and Ordinal are inverse bijections between 0..7 and
      the directions. */
  lemma OrdinalRoundTrip(d: Direction, i: nat)
    requires i < 8
    ensures FromOrdinal(Ordinal(d)) == d
    ensures Ordinal(d) == i <==> FromOrdinal(i) == d
  {
  }

  /** The loop index of GAN_AI runs over the four straight moves first and
      the four diagonals after them. */
  lemma OrdinalsOrthogonalThenDiagonal(i: nat)
    requires i < 8
    ensures IsDiagonal(FromOrdinal(i)) <==> i >= 4
  {
  }

  /** vectorToDirection inverts directionToVector, in both directions. */
  lemma VectorRoundTrip(d: Direction, v: Vec3)
    ensures VectorToDirection(DirectionToVector(d)) == Some(d)
    ensures VectorToDirection(v) == Some(d) <==> DirectionToVector(d) == v
  {
    match d
    case North =>
    case South =>
    case West =>
    case East =>
    case NorthEast =>
    case SouthEast =>
    case NorthWest =>
    case SouthWest =>
  }

  /** The eight offsets are pairwise distinct. */
  lemma VectorsDistinct(d1: Direction, d2: Direction)
    ensures DirectionToVector(d1) == DirectionToVector(d2) ==> d1 == d2
  {
    VectorRoundTrip(d1, DirectionToVector(d1));
    VectorRoundTrip(d2, DirectionToVector(d2));
  }

  /** The straight north/south component of a diagonal. */
  function NorthSouthPart(d: Direction): Direction
    requires IsDiagonal(d)
  {
    if d.NorthEast? || d.NorthWest? then North else South
  }

  /** The straight east/west component of a diagonal. */
  function EastWestPart(d: Direction): Direction
    requires IsDiagonal(d)
  {
    if d.NorthEast? || d.SouthEast? then East else West
  }

  /** Each diagonal offset is the sum of its two straight components, as
      `Vector3.forward + Vector3.right` and so on are written in the table. */
  lemma DiagonalIsSum(d: Direction)
    requires IsDiagonal(d)
    ensures !IsDiagonal(NorthSouthPart(d)) && !IsDiagonal(EastWestPart(d))
    ensures DirectionToVector(d) == Add(DirectionToVector(NorthSouthPart(d)), DirectionToVector(EastWestPart(d)))
  {
    var v, a, b := DirectionToVector(d), DirectionToVector(NorthSouthPart(d)), DirectionToVector(EastWestPart(d));
    assert v.x == a.x + b.x && v.y == a.y + b.y && v.z == a.z + b.z;
  }

  /** The eight rotations are pairwise distinct. */
  lemma RotationsDistinct(d1: Direction, d2: Direction)
    ensures DirectionToRotation(d1) == DirectionToRotation(d2) ==> d1 == d2
  {
  }

  /** The direction pointing the other way. */
  function Opposite(d: Direction): Direction
  {
    match d
    case North => South
    case South => North
    case West => East
    case East => West
    case NorthEast => SouthWest
    case SouthEast => NorthWest
    case NorthWest => SouthEast
    case SouthWest => NorthEast
  }

  /** The opposite direction has the negated offset. */
  lemma OppositeNegates(d: Direction)
    ensures DirectionToVector(Opposite(d)) == Negate(DirectionToVector(d))
  {
    var w, o := DirectionToVector(d), DirectionToVector(Opposite(d));
    assert o.x == -w.x && o.y == -w.y && o.z == -w.z;
  }

  /** Two directions have negated offsets exactly when one is the opposite
      of the other. */
  lemma NegatedOffsetsAreOpposite(d1: Direction, d2: Direction)
    ensures DirectionToVector(d1) == Negate(DirectionToVector(d2)) <==> d1 == Opposite(d2)
  {
    OppositeNegates(d2);
    VectorsDistinct(d1, Opposite(d2));
  }

  /** Opposite directions face opposite ways: their rotations differ by
      exactly 180 degrees. */
  lemma OppositeRotations(d: Direction)
    ensures DirectionToRotation(d) - DirectionToRotation(Opposite(d)) == 180
         || DirectionToRotation(Opposite(d)) - DirectionToRotation(d) == 180
  {
  }
}
