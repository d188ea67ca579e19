/** The four headings a snake can take. The grid's y axis grows downward, so
    UP is the step (0, -1). Each constant carries an id; opposite headings
    have opposite ids. */
module Directions {

  datatype Direction = Up | Down | Left | Right

  /** Horizontal component of the unit step. */
  function DX(d: Direction): int {
    match d
    case Up => 0
    case Down => 0
    case Left => -1
    case Right => 1
  }

  /** Vertical component of the unit step (downward is positive). */
  function DY(d: Direction): int {
    match d
    case Up => -1
    case Down => 1
    case Left => 0
    case Right => 0
  }

  /** The id the protocol and the no-reversal rule compare. */
  function Id(d: Direction): int {
    match d
    case Up => 1
    case Down => -1
    case Left => 2
    case Right => -2
  }

  /** The heading that undoes `d`: its step is the negated step of `d`. */
  function Opposite(d: Direction): (r: Direction)
    ensures DX(r) == -DX(d) && DY(r) == -DY(d)
    ensures Id(r) == -Id(d)
    ensures r != d
  {
    match d
    case Up => Down
    case Down => Up
    case Left => Right
    case Right => Left
  }

  /** The constants in declaration order, as the enum's values() lists them. */
  const VALUES: seq<Direction> := [Up, Down, Left, Right]

  function Abs(n: int): nat { if n < 0 then -n else n }

  /** Every constant is a unit step along one axis. */
  lemma UnitStep(d: Direction)
    ensures Abs(DX(d)) + Abs(DY(d)) == 1
    ensures DX(d) == 0 || DY(d) == 0
  {
  }

  /** The step vector determines the direction, and so does the id. */
  lemma StepAndIdDetermineDirection(a: Direction, b: Direction)
    ensures (DX(a) == DX(b) && DY(a) == DY(b)) <==> a == b
    ensures Id(a) == Id(b) <==> a == b
  {
  }

  /** UP and DOWN, LEFT and RIGHT are each other's negation, with negated ids,
      and y grows downward. */
  lemma OppositePairs()
    ensures Opposite(Up) == Down && Opposite(Left) == Right
    ensures forall d :: Opposite(Opposite(d)) == d
    ensures DY(Up) == -1 && DY(Down) == 1 && DX(Left) == -1 && DX(Right) == 1
    ensures Id(Up) == 1 && Id(Down) == -1 && Id(Left) == 2 && Id(Right) == -2
  {
  }

  /** values() lists each direction exactly once. */
  lemma ValuesListsEveryDirection(d: Direction)
    ensures d in VALUES && |VALUES| == 4
    ensures forall i, j :: 0 <= i < j < |VALUES| ==> VALUES[i] != VALUES[j]
  {
  }
}
