/** Grid coordinates. The same record holds an absolute cell (a snake's head,
    a food cell) and a relative waypoint offset in a snake's body. */
module Coords {
  import opened Directions

  datatype Coord = Coord(x: int, y: int)

  /** Java's nullable object reference, for `equals(Object)`. */
  datatype Option<T> = None | Some(value: T)

  /** A waypoint offset: axis-aligned and not the zero vector. */
  predicate IsWaypoint(c: Coord) {
    (c.x == 0) != (c.y == 0)
  }

  /** Number of unit steps a waypoint offset spans. */
  function Magnitude(c: Coord): nat {
    Abs(c.x) + Abs(c.y)
  }

  /** The offset of `k` unit steps heading `d`. */
  function Scaled(d: Direction, k: int): Coord {
    Coord(k * DX(d), k * DY(d))
  }

  /** The heading of a relative offset. The x component is inspected first, so
      the result agrees in sign with x when x is non-zero and with y otherwise.
      The zero vector has no heading (the source throws), hence the requires. */
  function DirOfRelative(c: Coord): (d: Direction)
    requires c.x != 0 || c.y != 0
    ensures c.x != 0 ==> DY(d) == 0 && DX(d) != 0 && (DX(d) < 0 <==> c.x < 0)
    ensures c.x == 0 ==> DX(d) == 0 && DY(d) != 0 && (DY(d) < 0 <==> c.y < 0)
  {
    if c.x < 0 then Left
    else if c.x > 0 then Right
    else if c.y < 0 then Up
    else Down
  }

  /** Structural equality against a possibly-null object. */
  function Equals(c: Coord, obj: Option<Coord>): bool {
    obj.Some? && c.x == obj.value.x && c.y == obj.value.y
  }

  /** `equals` coincides with value equality and rejects null. */
  lemma EqualsIsStructural(a: Coord, b: Coord)
    ensures Equals(a, Some(b)) <==> a == b
    ensures Equals(a, Some(b)) <==> Equals(b, Some(a))
    ensures !Equals(a, None)
  {
  }

  /** Decoding `k` unit steps of `d` yields `d`, and decoding the negated unit
      step yields the opposite heading. */
  lemma DecodeScaled(d: Direction, k: int)
    requires k > 0
    ensures IsWaypoint(Scaled(d, k)) && Magnitude(Scaled(d, k)) == k
    ensures DirOfRelative(Scaled(d, k)) == d
    ensures DirOfRelative(Coord(-DX(d), -DY(d))) == Opposite(d)
  {
    match d
    case Up => assert Scaled(d, k) == Coord(0, -k);
    case Down => assert Scaled(d, k) == Coord(0, k);
    case Left => assert Scaled(d, k) == Coord(-k, 0);
    case Right => assert Scaled(d, k) == Coord(k, 0);
  }

  /** The negated unit step of `d` is a unit waypoint heading the opposite
      way: the offset a new neck gets. */
  lemma UnitBack(d: Direction)
    ensures IsWaypoint(Coord(-DX(d), -DY(d))) && Magnitude(Coord(-DX(d), -DY(d))) == 1
    ensures DirOfRelative(Coord(-DX(d), -DY(d))) == Opposite(d)
  {
    match d
    case Up => assert Coord(-DX(d), -DY(d)) == Coord(0, 1);
    case Down => assert Coord(-DX(d), -DY(d)) == Coord(0, -1);
    case Left => assert Coord(-DX(d), -DY(d)) == Coord(1, 0);
    case Right => assert Coord(-DX(d), -DY(d)) == Coord(-1, 0);
  }

  /** Every waypoint offset is its magnitude times the unit step of its
      heading: encoding (Scaled) and decoding (DirOfRelative, Magnitude) are
      inverse. */
  lemma WaypointIsScaledHeading(c: Coord)
    requires IsWaypoint(c)
    ensures c == Scaled(DirOfRelative(c), Magnitude(c))
  {
  }

  /** A waypoint lengthened by one step of its own heading. */
  function Extended(c: Coord): Coord
    requires c.x != 0 || c.y != 0
  {
    Coord(c.x + DX(DirOfRelative(c)), c.y + DY(DirOfRelative(c)))
  }

  /** A waypoint shortened by one step of its own heading. */
  function Shortened(c: Coord): Coord
    requires c.x != 0 || c.y != 0
  {
    Coord(c.x - DX(DirOfRelative(c)), c.y - DY(DirOfRelative(c)))
  }

  /** Lengthening keeps the heading and adds one to the magnitude. */
  lemma ExtendWaypoint(c: Coord)
    requires IsWaypoint(c)
    ensures IsWaypoint(Extended(c)) && DirOfRelative(Extended(c)) == DirOfRelative(c)
    ensures Magnitude(Extended(c)) == Magnitude(c) + 1
  {
    var e := Extended(c);
    if c.x < 0 {
      assert DirOfRelative(c) == Left && Magnitude(c) == -c.x && e == Coord(c.x - 1, 0);
    } else if c.x > 0 {
      assert DirOfRelative(c) == Right && Magnitude(c) == c.x && e == Coord(c.x + 1, 0);
    } else if c.y < 0 {
      assert DirOfRelative(c) == Up && Magnitude(c) == -c.y && e == Coord(0, c.y - 1);
    } else {
      assert DirOfRelative(c) == Down && Magnitude(c) == c.y && e == Coord(0, c.y + 1);
    }
  }

  /** Shortening a unit step leaves the zero vector (a unit step is exactly
      the unit step of its own heading); shortening a longer one keeps the
      heading and removes one from the magnitude. */
  lemma ShortenWaypoint(c: Coord)
    requires IsWaypoint(c)
    ensures Magnitude(c) == 1 <==> Shortened(c) == Coord(0, 0)
    ensures Magnitude(c) == 1 <==> c == Coord(DX(DirOfRelative(c)), DY(DirOfRelative(c)))
    ensures Magnitude(c) > 1 ==> IsWaypoint(Shortened(c)) && DirOfRelative(Shortened(c)) == DirOfRelative(c)
    ensures Magnitude(c) > 1 ==> Magnitude(Shortened(c)) == Magnitude(c) - 1
  {
    var s := Shortened(c);
    if c.x < 0 {
      assert DirOfRelative(c) == Left && Magnitude(c) == -c.x && s == Coord(c.x + 1, 0);
    } else if c.x > 0 {
      assert DirOfRelative(c) == Right && Magnitude(c) == c.x && s == Coord(c.x - 1, 0);
    } else if c.y < 0 {
      assert DirOfRelative(c) == Up && Magnitude(c) == -c.y && s == Coord(0, c.y + 1);
    } else {
      assert DirOfRelative(c) == Down && Magnitude(c) == c.y && s == Coord(0, c.y - 1);
    }
  }
}
