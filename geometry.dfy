/** Points of three-dimensional space and the fixed octant numbering of a cube.
    Coordinates are exact reals, so halving a size is exact. */
module Geometry {

  datatype Point = Point(x: real, y: real, z: real)

  /** The three bits of an octant index: the bit of value 4 (bit 2) for x,
      the bit of value 2 (bit 1) for y and the bit of value 1 (bit 0) for z.
      A set bit means the octant lies on the + side of the centre along that
      axis. */
  predicate PlusX(branch: int) { branch / 4 % 2 == 1 }
  predicate PlusY(branch: int) { branch / 2 % 2 == 1 }
  predicate PlusZ(branch: int) { branch % 2 == 1 }

  /** `a` is at most `b` on every axis. */
  predicate AtMost(a: Point, b: Point) { a.x <= b.x && a.y <= b.y && a.z <= b.z }

  /** Index of the branch of a cube centred at `centre` that points towards
      `position`. A coordinate equal to the centre's goes to the + side. */
  function FindBranch(centre: Point, position: Point): (index: int)
    ensures 0 <= index < 8
    ensures PlusX(index) <==> position.x >= centre.x
    ensures PlusY(index) <==> position.y >= centre.y
    ensures PlusZ(index) <==> position.z >= centre.z
  {
    // the three `index |= bit` steps set distinct bits, so they add up
    (if position.x >= centre.x then 4 else 0)
    + (if position.y >= centre.y then 2 else 0)
    + (if position.z >= centre.z then 1 else 0)
  }

  /** `pos` moved by `offset` along each axis, towards the + side where `branch`
      has that axis's bit set and towards the - side otherwise. An index outside
      0..7 leaves the starting value (0, 0, 0). */
  function ChildCenter(pos: Point, branch: int, offset: real): (c: Point)
    ensures 0 <= branch < 8 ==>
      c.x == (if PlusX(branch) then pos.x + offset else pos.x - offset) &&
      c.y == (if PlusY(branch) then pos.y + offset else pos.y - offset) &&
      c.z == (if PlusZ(branch) then pos.z + offset else pos.z - offset)
    ensures !(0 <= branch < 8) ==> c == Point(0.0, 0.0, 0.0)
  {
    if branch == 0 then Point(pos.x - offset, pos.y - offset, pos.z - offset)
    else if branch == 1 then Point(pos.x - offset, pos.y - offset, pos.z + offset)
    else if branch == 2 then Point(pos.x - offset, pos.y + offset, pos.z - offset)
    else if branch == 3 then Point(pos.x - offset, pos.y + offset, pos.z + offset)
    else if branch == 4 then Point(pos.x + offset, pos.y - offset, pos.z - offset)
    else if branch == 5 then Point(pos.x + offset, pos.y - offset, pos.z + offset)
    else if branch == 6 then Point(pos.x + offset, pos.y + offset, pos.z - offset)
    else if branch == 7 then Point(pos.x + offset, pos.y + offset, pos.z + offset)
    else Point(0.0, 0.0, 0.0)
  }

  /** Lowest corner of the cube of edge `size` centred at `position`. */
  function Lower(position: Point, size: real): (l: Point)
    ensures size >= 0.0 ==> AtMost(l, position)
    ensures size > 0.0 ==> l.x < position.x && l.y < position.y && l.z < position.z
  {
    Point(position.x - size / 2.0, position.y - size / 2.0, position.z - size / 2.0)
  }

  /** Highest corner of the cube of edge `size` centred at `position`. */
  function Upper(position: Point, size: real): (u: Point)
    ensures size >= 0.0 ==> AtMost(position, u)
    ensures size > 0.0 ==> position.x < u.x && position.y < u.y && position.z < u.z
  {
    Point(position.x + size / 2.0, position.y + size / 2.0, position.z + size / 2.0)
  }

  /** A child centre lies in the octant whose branch index built it: branch
      selection and child placement agree on every index. */
  lemma ChildCenterInOctant(pos: Point, branch: int, offset: real)
    requires 0 <= branch < 8 && offset > 0.0
    ensures FindBranch(pos, ChildCenter(pos, branch, offset)) == branch
  {
    var c := ChildCenter(pos, branch, offset);
    var b := FindBranch(pos, c);
    assert PlusX(b) == PlusX(branch) && PlusY(b) == PlusY(branch) && PlusZ(b) == PlusZ(branch);
    BitsDetermineBranch(b, branch);
  }

  /** Two indices in 0..7 with the same three bits are equal. */
  lemma BitsDetermineBranch(a: int, b: int)
    requires 0 <= a < 8 && 0 <= b < 8
    requires PlusX(a) == PlusX(b) && PlusY(a) == PlusY(b) && PlusZ(a) == PlusZ(b)
    ensures a == b
  {
  }

  /** The child cube of edge `size / 2` centred a quarter of `size` away from
      the parent's centre lies inside the parent cube, with one corner at the
      parent's centre. */
  lemma ChildWithinParent(pos: Point, size: real, branch: int)
    requires size >= 0.0 && 0 <= branch < 8
    ensures AtMost(Lower(pos, size), Lower(ChildCenter(pos, branch, size / 4.0), size / 2.0))
    ensures AtMost(Upper(ChildCenter(pos, branch, size / 4.0), size / 2.0), Upper(pos, size))
    ensures AtMost(Lower(ChildCenter(pos, branch, size / 4.0), size / 2.0), pos)
    ensures AtMost(pos, Upper(ChildCenter(pos, branch, size / 4.0), size / 2.0))
    ensures var l, u := Lower(ChildCenter(pos, branch, size / 4.0), size / 2.0),
                        Upper(ChildCenter(pos, branch, size / 4.0), size / 2.0);
      (if PlusX(branch) then l.x else u.x) == pos.x &&
      (if PlusY(branch) then l.y else u.y) == pos.y &&
      (if PlusZ(branch) then l.z else u.z) == pos.z
  {
  }
}
