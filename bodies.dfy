/** A snake as a value, and the body operations of one tick as functions on
    that value. The Snake class of the game state keeps exactly these fields
    and its methods are specified by these functions. */
module Bodies {
  import opened Directions
  import opened Coords
  import opened Waypoints

  datatype SnakeState = Alive | Zombie

  /** Head cell, waypoint offsets walking from the head toward the tail, state,
      and the heading applied on the next tick. */
  datatype SnakeVal = SnakeVal(head: Coord, waypoints: seq<Coord>, state: SnakeState, heading: Direction)

  /** The shape every live snake keeps: head on the grid, at least one
      waypoint, all waypoints axis-aligned and non-zero, and a heading that
      does not point back into the neck. */
  predicate WellFormed(v: SnakeVal, w: int, h: int) {
    && w > 0 && h > 0
    && InGrid(v.head, w, h)
    && |v.waypoints| >= 1
    && AllWaypoints(v.waypoints)
    && v.heading != DirOfRelative(v.waypoints[0])
  }

  /** Direction from the head toward the first body cell. */
  function Neck(v: SnakeVal): Direction
    requires |v.waypoints| >= 1 && IsWaypoint(v.waypoints[0])
  {
    DirOfRelative(v.waypoints[0])
  }

  /** Every cell the snake occupies, head first, tail last. */
  function Cells(v: SnakeVal, w: int, h: int): (r: seq<Coord>)
    requires w > 0 && h > 0 && AllWaypoints(v.waypoints)
    ensures |r| == Length(v.waypoints) + 1 && r[0] == v.head
  {
    [v.head] + Walk(v.head, v.waypoints, w, h)
  }

  /** The tail cell. */
  function Tail(v: SnakeVal, w: int, h: int): Coord
    requires w > 0 && h > 0 && AllWaypoints(v.waypoints)
  {
    WalkEnd(v.head, v.waypoints, w, h)
  }

  /** A new snake: head at `head`, one tail cell behind it, heading `d`. */
  function Spawned(head: Coord, d: Direction): SnakeVal {
    SnakeVal(head, [Coord(-DX(d), -DY(d))], Alive, d)
  }

  lemma SpawnedBody(head: Coord, d: Direction, w: int, h: int)
    requires w > 0 && h > 0 && InGrid(head, w, h)
    ensures WellFormed(Spawned(head, d), w, h)
    ensures Cells(Spawned(head, d), w, h) == [head, Step(head, Opposite(d), w, h)]
    ensures Length(Spawned(head, d).waypoints) == 1
  {
    UnitBack(d);
    var u := Coord(-DX(d), -DY(d));
    WalkSingle(head, u, w, h);
  }

  /** changeDirection: adopt `d` unless its id is the neck's id. */
  function Steered(v: SnakeVal, d: Direction): SnakeVal
    requires |v.waypoints| >= 1 && IsWaypoint(v.waypoints[0])
  {
    if Id(Neck(v)) != Id(d) then v.(heading := d) else v
  }

  /** Steering never changes the body, takes effect exactly when the new
      heading is not the neck direction, and so never lets the heading point
      into the neck. */
  lemma SteeringRule(v: SnakeVal, d: Direction, w: int, h: int)
    requires WellFormed(v, w, h)
    ensures var s := Steered(v, d);
      s.head == v.head && s.waypoints == v.waypoints && s.state == v.state
      && (s.heading == d <==> d != Neck(v))
      && (d == Neck(v) ==> s.heading == v.heading)
      && WellFormed(s, w, h)
  {
    StepAndIdDetermineDirection(d, Neck(v));
  }

  /** moveHead: when the heading is the exact reverse of the neck the snake
      goes straight and its first waypoint grows by one step of its own
      heading; otherwise a unit waypoint pointing back is inserted. Then the
      head advances one wrapped step. */
  function Moved(v: SnakeVal, w: int, h: int): SnakeVal
    requires w > 0 && h > 0 && |v.waypoints| >= 1 && IsWaypoint(v.waypoints[0])
  {
    var last := Neck(v);
    var wps :=
      if DX(v.heading) == -DX(last) && DY(v.heading) == -DY(last)
      then [Extended(v.waypoints[0])] + v.waypoints[1..]
      else [Coord(-DX(v.heading), -DY(v.heading))] + v.waypoints;
    v.(head := Step(v.head, v.heading, w, h), waypoints := wps)
  }

  /** After moveHead the head is the wrapped step of the heading, the body
      occupies the new head followed by every old cell, the total length has
      grown by one, and the neck points opposite the heading. */
  lemma MovedBody(v: SnakeVal, w: int, h: int)
    requires WellFormed(v, w, h)
    ensures var m := Moved(v, w, h);
      && WellFormed(m, w, h)
      && m.head == Step(v.head, v.heading, w, h)
      && m.heading == v.heading && m.state == v.state
      && Cells(m, w, h) == [m.head] + Cells(v, w, h)
      && Length(m.waypoints) == Length(v.waypoints) + 1
      && Neck(m) == Opposite(v.heading)
  {
    var last := Neck(v);
    if DX(v.heading) == -DX(last) && DY(v.heading) == -DY(last) {
      MovedStraight(v, w, h);
    } else {
      MovedTurn(v, w, h);
    }
  }

  /** The body walked from one step ahead, with `wps` as its waypoints, is
      the new head followed by the old cells. */
  predicate SlidesForward(v: SnakeVal, wps: seq<Coord>, w: int, h: int)
    requires WellFormed(v, w, h)
  {
    var nh := Step(v.head, v.heading, w, h);
    && |wps| >= 1 && AllWaypoints(wps)
    && DirOfRelative(wps[0]) == Opposite(v.heading)
    && Walk(nh, wps, w, h) == Cells(v, w, h)
  }

  lemma MovedStraight(v: SnakeVal, w: int, h: int)
    requires WellFormed(v, w, h)
    requires DX(v.heading) == -DX(Neck(v)) && DY(v.heading) == -DY(Neck(v))
    ensures Moved(v, w, h).waypoints == [Extended(v.waypoints[0])] + v.waypoints[1..]
    ensures SlidesForward(v, Moved(v, w, h).waypoints, w, h)
  {
    var first := v.waypoints[0];
    var rest := v.waypoints[1..];
    assert DirOfRelative(first) == Opposite(v.heading) by {
      StepAndIdDetermineDirection(Neck(v), Opposite(v.heading));
    }
    assert DirOfRelative(Extended(first)) == DirOfRelative(first) by {
      ExtendWaypoint(first);
    }
    assert [first] + rest == v.waypoints;
    WalkAfterStraight(v.head, v.heading, first, rest, w, h);
    var nh := Step(v.head, v.heading, w, h);
    var m := Moved(v, w, h).waypoints;
    assert m == [Extended(first)] + rest;
    assert m[0] == Extended(first);
    assert Walk(nh, m, w, h) == [v.head] + Walk(v.head, v.waypoints, w, h);
    assert Cells(v, w, h) == [v.head] + Walk(v.head, v.waypoints, w, h);
  }

  lemma MovedTurn(v: SnakeVal, w: int, h: int)
    requires WellFormed(v, w, h)
    requires !(DX(v.heading) == -DX(Neck(v)) && DY(v.heading) == -DY(Neck(v)))
    ensures Moved(v, w, h).waypoints == [Coord(-DX(v.heading), -DY(v.heading))] + v.waypoints
    ensures SlidesForward(v, Moved(v, w, h).waypoints, w, h)
  {
    var u := Coord(-DX(v.heading), -DY(v.heading));
    var m := [u] + v.waypoints;
    var nh := Step(v.head, v.heading, w, h);
    assert Moved(v, w, h).waypoints == m;
    assert IsWaypoint(u) && DirOfRelative(u) == Opposite(v.heading) by {
      UnitBack(v.heading);
    }
    assert AllWaypoints(m) && Walk(nh, m, w, h) == Cells(v, w, h) by {
      WalkAfterTurn(v.head, v.heading, v.waypoints, w, h);
    }
    assert m[0] == u;
  }

  /** growTail: lengthen the last waypoint by one step of its own heading. */
  function Grown(v: SnakeVal): SnakeVal
    requires |v.waypoints| >= 1 && AllWaypoints(v.waypoints)
  {
    var n := |v.waypoints|;
    v.(waypoints := v.waypoints[..n - 1] + [Extended(v.waypoints[n - 1])])
  }

  /** cutTail: drop the last waypoint when it equals the unit step of its own
      heading, otherwise shorten it by one such step. */
  function Cut(v: SnakeVal): SnakeVal
    requires |v.waypoints| >= 1 && AllWaypoints(v.waypoints)
  {
    var n := |v.waypoints|;
    var tail := v.waypoints[n - 1];
    var rel := DirOfRelative(tail);
    if tail == Coord(DX(rel), DY(rel)) then v.(waypoints := v.waypoints[..n - 1])
    else v.(waypoints := v.waypoints[..n - 1] + [Shortened(tail)])
  }

  /** growTail adds exactly one cell, one step beyond the old tail in the
      direction of the last waypoint, and keeps everything else. */
  lemma GrownBody(v: SnakeVal, w: int, h: int)
    requires WellFormed(v, w, h)
    ensures var g := Grown(v);
      var d := DirOfRelative(v.waypoints[|v.waypoints| - 1]);
      && WellFormed(g, w, h)
      && g.head == v.head && g.heading == v.heading && g.state == v.state
      && Cells(g, w, h) == Cells(v, w, h) + [Step(Tail(v, w, h), d, w, h)]
      && Tail(g, w, h) == Step(Tail(v, w, h), d, w, h)
      && Length(g.waypoints) == Length(v.waypoints) + 1
  {
    var n := |v.waypoints|;
    var init := v.waypoints[..n - 1];
    var last := v.waypoints[n - 1];
    ExtendWaypoint(last);
    assert v.waypoints == init + [last];
    AllWaypointsSplit(init, [last]);
    WalkExtendLast(v.head, init, last, w, h);
    var next := Step(Tail(v, w, h), DirOfRelative(last), w, h);
    ConcatAssoc([v.head], Walk(v.head, v.waypoints, w, h), [next]);
    if n == 1 {
      assert Grown(v).waypoints[0] == Extended(last);
    } else {
      assert Grown(v).waypoints[0] == v.waypoints[0];
    }
  }

  /** cutTail removes exactly the tail cell, provided the snake has at least
      two cells behind its head (as it always does right after moveHead). */
  lemma CutBody(v: SnakeVal, w: int, h: int)
    requires WellFormed(v, w, h) && Length(v.waypoints) >= 2
    ensures var c := Cut(v);
      var cells := Cells(v, w, h);
      && WellFormed(c, w, h)
      && c.head == v.head && c.heading == v.heading && c.state == v.state
      && Cells(c, w, h) == cells[..|cells| - 1]
      && Length(c.waypoints) == Length(v.waypoints) - 1
  {
    CutWalk(v, w, h);
    ConsDropLast(v.head, Walk(v.head, v.waypoints, w, h));
  }

  /** The walk behind the head of the cut snake is the old walk without its
      last cell. */
  lemma CutWalk(v: SnakeVal, w: int, h: int)
    requires WellFormed(v, w, h) && Length(v.waypoints) >= 2
    ensures WellFormed(Cut(v), w, h)
    ensures var full := Walk(v.head, v.waypoints, w, h);
      |full| >= 1 && Walk(v.head, Cut(v).waypoints, w, h) == full[..|full| - 1]
  {
    var n := |v.waypoints|;
    var init := v.waypoints[..n - 1];
    var last := v.waypoints[n - 1];
    assert v.waypoints == init + [last];
    assert AllWaypoints(init) by { AllWaypointsSplit(init, [last]); }
    WalkCutLast(v.head, init, last, w, h);
    if Magnitude(last) == 1 {
      CutUnit(v, w, h);
    } else {
      CutLonger(v, w, h);
    }
  }

  /** cutTail on a unit last waypoint drops it; another waypoint remains. */
  lemma CutUnit(v: SnakeVal, w: int, h: int)
    requires WellFormed(v, w, h) && Length(v.waypoints) >= 2
    requires Magnitude(v.waypoints[|v.waypoints| - 1]) == 1
    ensures var init := v.waypoints[..|v.waypoints| - 1];
      AllWaypoints(init) && Cut(v).waypoints == init && WellFormed(Cut(v), w, h)
  {
    var n := |v.waypoints|;
    var init := v.waypoints[..n - 1];
    var last := v.waypoints[n - 1];
    assert v.waypoints == init + [last];
    assert AllWaypoints(init) by { AllWaypointsSplit(init, [last]); }
    assert Cut(v).waypoints == init by { ShortenWaypoint(last); }
    assert Length(v.waypoints) == Length(init) + 1 by {
      LengthAppend(init, [last]);
      assert [last][1..] == [];
    }
    assert init != [];
    assert init[0] == v.waypoints[0];
  }

  /** cutTail on a longer last waypoint shortens it, keeping its heading. */
  lemma CutLonger(v: SnakeVal, w: int, h: int)
    requires WellFormed(v, w, h)
    requires Magnitude(v.waypoints[|v.waypoints| - 1]) > 1
    ensures var n := |v.waypoints|;
      var init := v.waypoints[..n - 1];
      var s := Shortened(v.waypoints[n - 1]);
      AllWaypoints(init + [s]) && Cut(v).waypoints == init + [s] && WellFormed(Cut(v), w, h)
  {
    var n := |v.waypoints|;
    var init := v.waypoints[..n - 1];
    var last := v.waypoints[n - 1];
    var s := Shortened(last);
    assert v.waypoints == init + [last];
    assert AllWaypoints(init) by { AllWaypointsSplit(init, [last]); }
    assert Cut(v).waypoints == init + [s] by { ShortenWaypoint(last); }
    assert IsWaypoint(s) && DirOfRelative(s) == DirOfRelative(last) by { ShortenWaypoint(last); }
    AllWaypointsSplit(init, [s]);
    if n == 1 {
      assert (init + [s])[0] == s;
    } else {
      assert (init + [s])[0] == v.waypoints[0];
    }
  }

  /** `n` successive growTail calls. */
  function GrownTimes(v: SnakeVal, n: nat): SnakeVal
    requires |v.waypoints| >= 1 && AllWaypoints(v.waypoints)
    ensures |GrownTimes(v, n).waypoints| == |v.waypoints|
    ensures AllWaypoints(GrownTimes(v, n).waypoints)
  {
    if n == 0 then v
    else
      var g := GrownTimes(v, n - 1);
      ExtendWaypoint(g.waypoints[|g.waypoints| - 1]);
      AllWaypointsSplit(g.waypoints[..|g.waypoints| - 1], [Extended(g.waypoints[|g.waypoints| - 1])]);
      Grown(g)
  }

  /** Growing `n` times and then `k` times is growing `n + k` times. */
  lemma {:induction false} GrownTimesAdd(v: SnakeVal, n: nat, k: nat)
    requires |v.waypoints| >= 1 && AllWaypoints(v.waypoints)
    ensures GrownTimes(GrownTimes(v, n), k) == GrownTimes(v, n + k)
    decreases k
  {
    if k > 0 {
      GrownTimesAdd(v, n, k - 1);
      assert n + k - 1 + 1 == n + k;
    }
  }

  /** Growing `n` times adds `n` cells after the old tail and keeps the old
      cells, head and heading. */
  lemma {:induction false} GrownTimesBody(v: SnakeVal, n: nat, w: int, h: int)
    requires WellFormed(v, w, h)
    ensures var g := GrownTimes(v, n);
      && WellFormed(g, w, h)
      && g.head == v.head && g.heading == v.heading && g.state == v.state
      && Length(g.waypoints) == Length(v.waypoints) + n
      && Cells(v, w, h) <= Cells(g, w, h)
  {
    if n > 0 {
      GrownTimesBody(v, n - 1, w, h);
      GrownBody(GrownTimes(v, n - 1), w, h);
    }
  }

  /** One tick of one snake's body: move, grow once per food eaten, cut. */
  function Ticked(v: SnakeVal, eaten: nat, w: int, h: int): SnakeVal
    requires WellFormed(v, w, h)
  {
    MovedBody(v, w, h);
    GrownTimesBody(Moved(v, w, h), eaten, w, h);
    Cut(GrownTimes(Moved(v, w, h), eaten))
  }

  /** Per tick a snake's length changes by exactly the number of food entries
      it ate: 0 when it ate nothing. It stays well formed, its head takes the
      wrapped step of its heading, and a snake that ate nothing slides: its
      cells are the new head followed by all old cells but the tail. */
  lemma TickedBody(v: SnakeVal, eaten: nat, w: int, h: int)
    requires WellFormed(v, w, h)
    ensures var t := Ticked(v, eaten, w, h);
      && WellFormed(t, w, h)
      && t.head == Step(v.head, v.heading, w, h)
      && t.heading == v.heading && t.state == v.state
      && Length(t.waypoints) == Length(v.waypoints) + eaten
      && (eaten == 0 ==> Cells(t, w, h) == [t.head] + Cells(v, w, h)[..Length(v.waypoints)])
      && (eaten == 1 ==> Cells(t, w, h) == [t.head] + Cells(v, w, h))
  {
    var m := Moved(v, w, h);
    MovedBody(v, w, h);
    GrownTimesBody(m, eaten, w, h);
    CutBody(GrownTimes(m, eaten), w, h);
    if eaten == 0 {
      TickedSlides(v, w, h);
    } else if eaten == 1 {
      TickedGrows(v, w, h);
    }
  }

  lemma TickedSlides(v: SnakeVal, w: int, h: int)
    requires WellFormed(v, w, h)
    ensures WellFormed(Ticked(v, 0, w, h), w, h)
    ensures Cells(Ticked(v, 0, w, h), w, h) == [Step(v.head, v.heading, w, h)] + Cells(v, w, h)[..Length(v.waypoints)]
  {
    var m := Moved(v, w, h);
    MovedBody(v, w, h);
    TickedNothing(v, w, h);
    CutBody(m, w, h);
    SlideJoin(Cells(Cut(m), w, h), Cells(m, w, h), m.head, Cells(v, w, h), Length(v.waypoints));
  }

  /** A snake that ate nothing moves and cuts. */
  lemma TickedNothing(v: SnakeVal, w: int, h: int)
    requires WellFormed(v, w, h)
    ensures Ticked(v, 0, w, h) == Cut(Moved(v, w, h))
  {
    MovedBody(v, w, h);
    assert GrownTimes(Moved(v, w, h), 0) == Moved(v, w, h);
  }

  /** Prepending a head and dropping the last element is prepending the head
      to all but the last element. */
  lemma SlideJoin<T>(c: seq<T>, mc: seq<T>, hd: T, oc: seq<T>, n: nat)
    requires mc == [hd] + oc && |oc| == n + 1 && c == mc[..|mc| - 1]
    ensures c == [hd] + oc[..n]
  {
    assert mc[..|mc| - 1] == [hd] + oc[..n];
  }

  lemma TickedGrows(v: SnakeVal, w: int, h: int)
    requires WellFormed(v, w, h)
    ensures WellFormed(Ticked(v, 1, w, h), w, h)
    ensures Cells(Ticked(v, 1, w, h), w, h) == [Step(v.head, v.heading, w, h)] + Cells(v, w, h)
  {
    var m := Moved(v, w, h);
    MovedBody(v, w, h);
    GrownTimesBody(m, 1, w, h);
    var g := GrownTimes(m, 1);
    CutBody(g, w, h);
    assert g == Grown(m) by { assert GrownTimes(m, 1) == Grown(GrownTimes(m, 0)); }
    GrownBody(m, w, h);
    var gc := Cells(g, w, h);
    assert gc[..|gc| - 1] == Cells(m, w, h);
  }

  /** stumblesInto: `a`'s head meets `b`'s head (only when they are distinct
      snakes) or any cell the waypoint walk of `b` visits after its head. */
  predicate StumblesInto(a: SnakeVal, b: SnakeVal, distinct: bool, w: int, h: int)
    requires w > 0 && h > 0 && AllWaypoints(b.waypoints)
  {
    (a.head == b.head && distinct) || a.head in Walk(b.head, b.waypoints, w, h)
  }

  /** Against another snake, stumbling means the head lies on any of its
      cells; against itself, only on a cell behind its own head. */
  lemma StumblesIntoCells(a: SnakeVal, b: SnakeVal, w: int, h: int)
    requires w > 0 && h > 0 && AllWaypoints(a.waypoints) && AllWaypoints(b.waypoints)
    ensures StumblesInto(a, b, true, w, h) <==> a.head in Cells(b, w, h)
    ensures StumblesInto(a, a, false, w, h) <==> a.head in Cells(a, w, h)[1..]
  {
    assert Cells(a, w, h)[1..] == Walk(a.head, a.waypoints, w, h);
  }
}
