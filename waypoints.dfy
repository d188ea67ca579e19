/** Geometry of the waypoint body encoding on the toroidal grid. A body is an
    absolute head cell followed by relative waypoint offsets; walking a
    waypoint means taking |x|+|y| unit steps in its heading, each step wrapped
    with floor-modulo, starting where the previous waypoint ended. */
module Waypoints {
  import opened Directions
  import opened Coords

  /** Java's Math.floorMod for a positive modulus. Dafny's `%` is Euclidean,
      which coincides with floorMod whenever the modulus is positive. */
  function FloorMod(a: int, m: int): (r: int)
    requires m > 0
    ensures 0 <= r < m
    ensures 0 <= a < m ==> r == a
    ensures a == -1 ==> r == m - 1
    ensures a == m ==> r == 0
  {
    a % m
  }

  predicate InGrid(c: Coord, w: int, h: int) {
    0 <= c.x < w && 0 <= c.y < h
  }

  /** One wrapped step from `c` heading `d`. */
  function Step(c: Coord, d: Direction, w: int, h: int): (r: Coord)
    requires w > 0 && h > 0
    ensures InGrid(r, w, h)
  {
    Coord(FloorMod(c.x + DX(d), w), FloorMod(c.y + DY(d), h))
  }

  /** Stepping back undoes a step from any cell of the grid, including across
      an edge. */
  lemma StepBack(c: Coord, d: Direction, w: int, h: int)
    requires w > 0 && h > 0 && InGrid(c, w, h)
    ensures Step(Step(c, d, w, h), Opposite(d), w, h) == c
  {
  }

  /** Every offset of a body's tail is a waypoint. */
  predicate AllWaypoints(wps: seq<Coord>) {
    forall i :: 0 <= i < |wps| ==> IsWaypoint(wps[i])
  }

  /** The number of cells behind the head: the sum of |x|+|y| over the
      waypoints. */
  function Length(wps: seq<Coord>): nat {
    if wps == [] then 0 else Magnitude(wps[0]) + Length(wps[1..])
  }

  lemma {:induction false} LengthAppend(p: seq<Coord>, q: seq<Coord>)
    ensures Length(p + q) == Length(p) + Length(q)
  {
    if p == [] {
      assert p + q == q;
    } else {
      assert (p + q)[0] == p[0];
      assert (p + q)[1..] == p[1..] + q;
      LengthAppend(p[1..], q);
    }
  }

  lemma AllWaypointsSplit(p: seq<Coord>, q: seq<Coord>)
    ensures AllWaypoints(p + q) <==> AllWaypoints(p) && AllWaypoints(q)
  {
    if AllWaypoints(p) && AllWaypoints(q) {
      forall i | 0 <= i < |p + q| ensures IsWaypoint((p + q)[i]) {
        if i >= |p| { assert (p + q)[i] == q[i - |p|]; }
      }
    }
    if AllWaypoints(p + q) {
      forall i | 0 <= i < |p| ensures IsWaypoint(p[i]) {
        assert p[i] == (p + q)[i];
      }
      forall i | 0 <= i < |q| ensures IsWaypoint(q[i]) {
        assert q[i] == (p + q)[i + |p|];
      }
    }
  }

  /** The `k` cells visited by `k` wrapped steps heading `d` from `from`
      (`from` itself excluded). */
  function Segment(from: Coord, d: Direction, k: nat, w: int, h: int): (r: seq<Coord>)
    requires w > 0 && h > 0
    ensures |r| == k
    decreases k, from
  {
    if k == 0 then [] else [Step(from, d, w, h)] + Segment(Step(from, d, w, h), d, k - 1, w, h)
  }

  /** Where those `k` steps end. */
  function SegmentEnd(from: Coord, d: Direction, k: nat, w: int, h: int): (r: Coord)
    requires w > 0 && h > 0
    ensures k == 0 ==> r == from
    ensures k > 0 ==> r == Segment(from, d, k, w, h)[k - 1]
    decreases k, from
  {
    if k == 0 then from else SegmentEnd(Step(from, d, w, h), d, k - 1, w, h)
  }

  /** One more step extends a segment by the step from its end. */
  lemma {:induction false} SegmentSnoc(from: Coord, d: Direction, k: nat, w: int, h: int)
    requires w > 0 && h > 0
    ensures Segment(from, d, k + 1, w, h) == Segment(from, d, k, w, h) + [Step(SegmentEnd(from, d, k, w, h), d, w, h)]
    ensures SegmentEnd(from, d, k + 1, w, h) == Step(SegmentEnd(from, d, k, w, h), d, w, h)
    decreases k
  {
    if k > 0 {
      SegmentSnoc(Step(from, d, w, h), d, k - 1, w, h);
    }
  }

  /** The cells a walk over `wps` visits after `from`, in order. */
  function Walk(from: Coord, wps: seq<Coord>, w: int, h: int): (r: seq<Coord>)
    requires w > 0 && h > 0 && AllWaypoints(wps)
    ensures |r| == Length(wps)
    decreases |wps|
  {
    if wps == [] then []
    else
      var d := DirOfRelative(wps[0]);
      var k := Magnitude(wps[0]);
      Segment(from, d, k, w, h) + Walk(SegmentEnd(from, d, k, w, h), wps[1..], w, h)
  }

  /** Where such a walk ends: the tail cell when `from` is the head. */
  function WalkEnd(from: Coord, wps: seq<Coord>, w: int, h: int): Coord
    requires w > 0 && h > 0 && AllWaypoints(wps)
    decreases |wps|
  {
    if wps == [] then from
    else
      var d := DirOfRelative(wps[0]);
      WalkEnd(SegmentEnd(from, d, Magnitude(wps[0]), w, h), wps[1..], w, h)
  }

  /** Walking a concatenation walks the first part and continues from its end. */
  lemma {:induction false} WalkAppend(from: Coord, p: seq<Coord>, q: seq<Coord>, w: int, h: int)
    requires w > 0 && h > 0 && AllWaypoints(p) && AllWaypoints(q)
    ensures AllWaypoints(p + q)
    ensures Walk(from, p + q, w, h) == Walk(from, p, w, h) + Walk(WalkEnd(from, p, w, h), q, w, h)
    ensures WalkEnd(from, p + q, w, h) == WalkEnd(WalkEnd(from, p, w, h), q, w, h)
    decreases |p|
  {
    AllWaypointsSplit(p, q);
    if p != [] {
      var d := DirOfRelative(p[0]);
      var next := SegmentEnd(from, d, Magnitude(p[0]), w, h);
      assert (p + q)[0] == p[0];
      assert (p + q)[1..] == p[1..] + q;
      AllWaypointsSplit([p[0]], p[1..]);
      assert [p[0]] + p[1..] == p;
      WalkAppend(next, p[1..], q, w, h);
    } else {
      assert p + q == q;
    }
  }

  /** Walking one more waypoint continues the walk with that waypoint's
      segment: the step a walking loop takes per waypoint. */
  lemma WalkSnocPrefix(from: Coord, wps: seq<Coord>, i: int, w: int, h: int)
    requires w > 0 && h > 0 && AllWaypoints(wps) && 0 <= i < |wps|
    ensures AllWaypoints(wps[..i]) && AllWaypoints(wps[..i + 1]) && IsWaypoint(wps[i])
    ensures var start := WalkEnd(from, wps[..i], w, h);
      var d := DirOfRelative(wps[i]);
      && Walk(from, wps[..i + 1], w, h) == Walk(from, wps[..i], w, h) + Segment(start, d, Magnitude(wps[i]), w, h)
      && WalkEnd(from, wps[..i + 1], w, h) == SegmentEnd(start, d, Magnitude(wps[i]), w, h)
  {
    assert wps[..i + 1] == wps[..i] + [wps[i]];
    assert AllWaypoints(wps[..i]) by {
      forall k | 0 <= k < i ensures IsWaypoint(wps[..i][k]) {
        assert wps[..i][k] == wps[k];
      }
    }
    WalkSingle(WalkEnd(from, wps[..i], w, h), wps[i], w, h);
    WalkAppend(from, wps[..i], [wps[i]], w, h);
  }

  /** The walk over a single waypoint is one segment. */
  lemma WalkSingle(from: Coord, c: Coord, w: int, h: int)
    requires w > 0 && h > 0 && IsWaypoint(c)
    ensures AllWaypoints([c])
    ensures Walk(from, [c], w, h) == Segment(from, DirOfRelative(c), Magnitude(c), w, h)
    ensures WalkEnd(from, [c], w, h) == SegmentEnd(from, DirOfRelative(c), Magnitude(c), w, h)
  {
    assert [c][1..] == [];
  }

  /** Walking the first `k` waypoints and then `n` steps into waypoint `k`
      visits a prefix of the whole walk. */
  lemma WalkPrefix(from: Coord, wps: seq<Coord>, k: nat, n: nat, w: int, h: int)
    requires w > 0 && h > 0 && AllWaypoints(wps) && k < |wps|
    requires n <= Magnitude(wps[k])
    ensures AllWaypoints(wps[..k])
    ensures var start := WalkEnd(from, wps[..k], w, h);
      var pre := Walk(from, wps[..k], w, h) + Segment(start, DirOfRelative(wps[k]), n, w, h);
      pre <= Walk(from, wps, w, h)
  {
    AllWaypointsSplit(wps[..k], wps[k..]);
    assert wps[..k] + wps[k..] == wps;
    var start := WalkEnd(from, wps[..k], w, h);
    var d := DirOfRelative(wps[k]);
    var m := Magnitude(wps[k]);
    WalkAppend(from, wps[..k], wps[k..], w, h);
    assert wps[k..] == [wps[k]] + wps[k + 1..];
    AllWaypointsSplit([wps[k]], wps[k + 1..]);
    assert Walk(start, wps[k..], w, h) == Segment(start, d, m, w, h) + Walk(SegmentEnd(start, d, m, w, h), wps[k + 1..], w, h);
    SegmentPrefix(start, d, n, m, w, h);
  }

  /** A cell of waypoint `k`'s segment is a cell of the whole walk. */
  lemma SegmentInWalk(x: Coord, from: Coord, wps: seq<Coord>, k: nat, w: int, h: int)
    requires w > 0 && h > 0 && AllWaypoints(wps) && k < |wps|
    requires AllWaypoints(wps[..k])
    requires x in Segment(WalkEnd(from, wps[..k], w, h), DirOfRelative(wps[k]), Magnitude(wps[k]), w, h)
    ensures x in Walk(from, wps, w, h)
  {
    WalkPrefix(from, wps, k, Magnitude(wps[k]), w, h);
    var start := WalkEnd(from, wps[..k], w, h);
    InPrefix(x, Walk(from, wps[..k], w, h), Segment(start, DirOfRelative(wps[k]), Magnitude(wps[k]), w, h), Walk(from, wps, w, h));
  }

  lemma {:induction false} SegmentPrefix(from: Coord, d: Direction, n: nat, m: nat, w: int, h: int)
    requires w > 0 && h > 0 && n <= m
    ensures Segment(from, d, n, w, h) == Segment(from, d, m, w, h)[..n]
    decreases n
  {
    if n > 0 {
      SegmentPrefix(Step(from, d, w, h), d, n - 1, m - 1, w, h);
    }
  }

  /** One more step of a segment of length `k`: the new end is one step
      from the old, it is missed unless it is the target, and a target
      met there lies in the whole segment. */
  lemma PaintStep(start: Coord, d: Direction, done: nat, k: nat, target: Coord, w: int, h: int)
    requires w > 0 && h > 0 && done < k
    requires target !in Segment(start, d, done, w, h)
    ensures SegmentEnd(start, d, done + 1, w, h) == Step(SegmentEnd(start, d, done, w, h), d, w, h)
    ensures target != SegmentEnd(start, d, done + 1, w, h) ==> target !in Segment(start, d, done + 1, w, h)
    ensures target == SegmentEnd(start, d, done + 1, w, h) ==> target in Segment(start, d, k, w, h)
  {
    SegmentSnoc(start, d, done, w, h);
    var next := Step(SegmentEnd(start, d, done, w, h), d, w, h);
    if target == next {
      SegmentPrefix(start, d, done + 1, k, w, h);
      assert Segment(start, d, done + 1, w, h)[done] == target;
      assert Segment(start, d, k, w, h)[done] == target;
    }
  }

  lemma {:induction false} SegmentInGrid(from: Coord, d: Direction, k: nat, w: int, h: int)
    requires w > 0 && h > 0
    ensures forall c :: c in Segment(from, d, k, w, h) ==> InGrid(c, w, h)
    decreases k
  {
    if k > 0 {
      SegmentInGrid(Step(from, d, w, h), d, k - 1, w, h);
    }
  }

  /** Every cell a wrapped walk visits lies on the grid. */
  lemma {:induction false} WalkInGrid(from: Coord, wps: seq<Coord>, w: int, h: int)
    requires w > 0 && h > 0 && AllWaypoints(wps)
    ensures forall c :: c in Walk(from, wps, w, h) ==> InGrid(c, w, h)
    decreases |wps|
  {
    if wps != [] {
      var d := DirOfRelative(wps[0]);
      var k := Magnitude(wps[0]);
      SegmentInGrid(from, d, k, w, h);
      WalkInGrid(SegmentEnd(from, d, k, w, h), wps[1..], w, h);
    }
  }

  lemma ConcatAssoc<T>(a: seq<T>, b: seq<T>, c: seq<T>)
    ensures (a + b) + c == a + (b + c)
  {
  }

  /** An element of the second part of a prefix lies in the whole. */
  lemma InPrefix<T>(x: T, a: seq<T>, b: seq<T>, full: seq<T>)
    requires a + b <= full && x in b
    ensures x in full
  {
    var k :| 0 <= k < |b| && b[k] == x;
    assert full[|a| + k] == (a + b)[|a| + k];
  }

  /** Dropping the last element commutes with putting one in front. */
  lemma ConsDropLast<T>(a: T, s: seq<T>)
    requires |s| >= 1
    ensures ([a] + s)[..|s|] == [a] + s[..|s| - 1]
  {
  }

  /** Walking a body that starts with waypoint `c` walks its segment first. */
  lemma WalkCons(from: Coord, c: Coord, rest: seq<Coord>, w: int, h: int)
    requires w > 0 && h > 0 && IsWaypoint(c) && AllWaypoints(rest)
    ensures AllWaypoints([c] + rest)
    ensures var d := DirOfRelative(c);
      Walk(from, [c] + rest, w, h) ==
      Segment(from, d, Magnitude(c), w, h) + Walk(SegmentEnd(from, d, Magnitude(c), w, h), rest, w, h)
  {
    AllWaypointsSplit([c], rest);
    assert ([c] + rest)[0] == c;
    assert ([c] + rest)[1..] == rest;
  }

  /** Walking a body whose first waypoint is the unit step back, from one step
      ahead of `c`, visits `c` and then the old walk from `c`. */
  lemma WalkAfterTurn(c: Coord, d: Direction, wps: seq<Coord>, w: int, h: int)
    requires w > 0 && h > 0 && InGrid(c, w, h) && AllWaypoints(wps)
    ensures AllWaypoints([Coord(-DX(d), -DY(d))] + wps)
    ensures Walk(Step(c, d, w, h), [Coord(-DX(d), -DY(d))] + wps, w, h) == [c] + Walk(c, wps, w, h)
  {
    var u := Coord(-DX(d), -DY(d));
    UnitBack(d);
    SegmentStepBack(c, d, 0, w, h);
    WalkCons(Step(c, d, w, h), u, wps, w, h);
  }

  /** A segment heading back from one step ahead of `c` passes `c` first. */
  lemma SegmentStepBack(c: Coord, d: Direction, k: nat, w: int, h: int)
    requires w > 0 && h > 0 && InGrid(c, w, h)
    ensures Segment(Step(c, d, w, h), Opposite(d), k + 1, w, h) == [c] + Segment(c, Opposite(d), k, w, h)
    ensures SegmentEnd(Step(c, d, w, h), Opposite(d), k + 1, w, h) == SegmentEnd(c, Opposite(d), k, w, h)
  {
    StepBack(c, d, w, h);
  }

  /** Walking a body whose first waypoint has been lengthened by one step,
      from one step ahead of `c`, visits `c` and then the old walk from `c`. */
  lemma WalkAfterStraight(c: Coord, d: Direction, first: Coord, rest: seq<Coord>, w: int, h: int)
    requires w > 0 && h > 0 && InGrid(c, w, h) && IsWaypoint(first) && AllWaypoints(rest)
    requires DirOfRelative(first) == Opposite(d)
    ensures var e := Extended(first);
      AllWaypoints([e] + rest) && AllWaypoints([first] + rest) &&
      Walk(Step(c, d, w, h), [e] + rest, w, h) == [c] + Walk(c, [first] + rest, w, h)
  {
    var e := Extended(first);
    ExtendWaypoint(first);
    var back := Opposite(d);
    var k := Magnitude(first);
    var n := Step(c, d, w, h);
    SegmentStepBack(c, d, k, w, h);
    WalkCons(n, e, rest, w, h);
    WalkCons(c, first, rest, w, h);
    assert DirOfRelative(e) == back;
    assert Magnitude(e) == k + 1;
    ConcatAssoc([c], Segment(c, back, k, w, h), Walk(SegmentEnd(c, back, k, w, h), rest, w, h));
  }

  /** Lengthening the last waypoint adds one cell, one step past the old end. */
  lemma WalkExtendLast(from: Coord, init: seq<Coord>, last: Coord, w: int, h: int)
    requires w > 0 && h > 0 && AllWaypoints(init) && IsWaypoint(last)
    ensures AllWaypoints(init + [last]) && AllWaypoints(init + [Extended(last)])
    ensures var end := WalkEnd(from, init + [last], w, h);
      var next := Step(end, DirOfRelative(last), w, h);
      Walk(from, init + [Extended(last)], w, h) == Walk(from, init + [last], w, h) + [next]
      && WalkEnd(from, init + [Extended(last)], w, h) == next
  {
    ExtendWaypoint(last);
    var e := Extended(last);
    var d := DirOfRelative(last);
    var k := Magnitude(last);
    var t0 := WalkEnd(from, init, w, h);
    WalkSingle(t0, last, w, h);
    WalkSingle(t0, e, w, h);
    WalkAppend(from, init, [last], w, h);
    WalkAppend(from, init, [e], w, h);
    SegmentSnoc(t0, d, k, w, h);
    ConcatAssoc(Walk(from, init, w, h), Segment(t0, d, k, w, h), [Step(SegmentEnd(t0, d, k, w, h), d, w, h)]);
  }

  /** Shortening (or, for a unit step, dropping) the last waypoint removes
      exactly the last cell of the walk. */
  lemma WalkCutLast(from: Coord, init: seq<Coord>, last: Coord, w: int, h: int)
    requires w > 0 && h > 0 && AllWaypoints(init) && IsWaypoint(last)
    ensures AllWaypoints(init + [last])
    ensures Magnitude(last) > 1 ==> AllWaypoints(init + [Shortened(last)])
    ensures |Walk(from, init + [last], w, h)| >= 1
    ensures (if Magnitude(last) == 1 then Walk(from, init, w, h)
             else Walk(from, init + [Shortened(last)], w, h))
      == Walk(from, init + [last], w, h)[..|Walk(from, init + [last], w, h)| - 1]
  {
    WalkFront(from, init, last, w, h);
    if Magnitude(last) > 1 {
      WalkShortened(from, init, last, w, h);
    } else {
      var w0 := Walk(from, init, w, h);
      assert w0 + Segment(WalkEnd(from, init, w, h), DirOfRelative(last), 0, w, h) == w0;
    }
  }

  /** All of the walk over `init + [last]` but its last cell: the walk over
      `init`, then all but the last step of `last`'s segment. */
  lemma WalkFront(from: Coord, init: seq<Coord>, last: Coord, w: int, h: int)
    requires w > 0 && h > 0 && AllWaypoints(init) && IsWaypoint(last)
    ensures AllWaypoints(init + [last]) && Magnitude(last) >= 1
    ensures |Walk(from, init + [last], w, h)| >= 1
    ensures Walk(from, init + [last], w, h)[..|Walk(from, init + [last], w, h)| - 1]
      == Walk(from, init, w, h) + Segment(WalkEnd(from, init, w, h), DirOfRelative(last), Magnitude(last) - 1, w, h)
  {
    var t0 := WalkEnd(from, init, w, h);
    var d := DirOfRelative(last);
    var k := Magnitude(last);
    WalkThenLast(from, init, last, w, h);
    SegmentLast(t0, d, k, w, h);
    DropSnoc(Walk(from, init + [last], w, h), Walk(from, init, w, h), Segment(t0, d, k, w, h),
             Segment(t0, d, k - 1, w, h), Step(SegmentEnd(t0, d, k - 1, w, h), d, w, h));
  }

  /** The walk over `init + [last]` is the walk over `init` followed by the
      segment of `last`. */
  lemma WalkThenLast(from: Coord, init: seq<Coord>, last: Coord, w: int, h: int)
    requires w > 0 && h > 0 && AllWaypoints(init) && IsWaypoint(last)
    ensures AllWaypoints(init + [last]) && Magnitude(last) >= 1
    ensures Walk(from, init + [last], w, h)
      == Walk(from, init, w, h) + Segment(WalkEnd(from, init, w, h), DirOfRelative(last), Magnitude(last), w, h)
  {
    var t0 := WalkEnd(from, init, w, h);
    AllWaypointsSplit(init, [last]);
    WalkAppend(from, init, [last], w, h);
    WalkSingle(t0, last, w, h);
  }

  /** A segment of `k >= 1` steps ends with its last step. */
  lemma SegmentLast(from: Coord, d: Direction, k: nat, w: int, h: int)
    requires w > 0 && h > 0 && k >= 1
    ensures Segment(from, d, k, w, h) == Segment(from, d, k - 1, w, h) + [Step(SegmentEnd(from, d, k - 1, w, h), d, w, h)]
  {
    SegmentSnoc(from, d, k - 1, w, h);
    assert k - 1 + 1 == k;
  }

  /** Dropping the last element of `a + (front + [x])` leaves `a + front`. */
  lemma DropSnoc<T>(whole: seq<T>, a: seq<T>, seg: seq<T>, front: seq<T>, x: T)
    requires whole == a + seg && seg == front + [x]
    ensures |whole| >= 1 && whole[..|whole| - 1] == a + front
  {
    assert whole == (a + front) + [x];
  }

  /** With a longer last waypoint, shortening it walks all but the last step
      of its segment. */
  lemma WalkShortened(from: Coord, init: seq<Coord>, last: Coord, w: int, h: int)
    requires w > 0 && h > 0 && AllWaypoints(init) && IsWaypoint(last) && Magnitude(last) > 1
    ensures AllWaypoints(init + [Shortened(last)])
    ensures var t0 := WalkEnd(from, init, w, h);
      Walk(from, init + [Shortened(last)], w, h)
        == Walk(from, init, w, h) + Segment(t0, DirOfRelative(last), Magnitude(last) - 1, w, h)
  {
    ShortenWaypoint(last);
    var s := Shortened(last);
    WalkSingle(WalkEnd(from, init, w, h), s, w, h);
    WalkAppend(from, init, [s], w, h);
  }

  // The walk `turnIntoFood` performs, as written: it counts |x + y| steps per
  // waypoint and moves with plain addition, without floor-modulo.

  function UnwrappedSegment(from: Coord, d: Direction, k: nat): (r: seq<Coord>)
    ensures |r| == k
    decreases k, from
  {
    if k == 0 then []
    else
      var next := Coord(from.x + DX(d), from.y + DY(d));
      [next] + UnwrappedSegment(next, d, k - 1)
  }

  function UnwrappedWalk(from: Coord, wps: seq<Coord>): seq<Coord>
    requires AllWaypoints(wps)
    decreases |wps|
  {
    if wps == [] then []
    else
      var d := DirOfRelative(wps[0]);
      var k := Abs(wps[0].x + wps[0].y);
      var seg := UnwrappedSegment(from, d, k);
      seg + UnwrappedWalk(if k == 0 then from else seg[k - 1], wps[1..])
  }

  /** A snake whose head has just wrapped from the right edge to column 0 of a
      10 by 10 grid has its tail cell at (9, 5); the unwrapped walk places it
      at (-1, 5), outside the grid, so dead food lands on no cell. */
  lemma DeadFoodLeavesGrid()
    ensures AllWaypoints([Coord(-1, 0)])
    ensures Walk(Coord(0, 5), [Coord(-1, 0)], 10, 10) == [Coord(9, 5)]
    ensures UnwrappedWalk(Coord(0, 5), [Coord(-1, 0)]) == [Coord(-1, 5)]
    ensures !InGrid(Coord(-1, 5), 10, 10)
  {
    WalkSingle(Coord(0, 5), Coord(-1, 0), 10, 10);
    assert [Coord(-1, 0)][1..] == [];
  }
}
