/** Pure specifications of the phases of one simulation tick over the board:
    the ascending order of the snake map, eating, collisions and who is
    credited for them, dead food, the food target, the empty-cell list and
    spawn placement. The GameState class is proved against these. */
module World {
  import opened Directions
  import opened Coords
  import opened Waypoints
  import opened Bodies
  import opened Config

  // ---------------------------------------------------------------------
  // Ascending key order (the iteration order of an ordered map)

  predicate Increasing(s: seq<int>) {
    forall i, j :: 0 <= i < j < |s| ==> s[i] < s[j]
  }

  function Elems(s: seq<int>): set<int> {
    set x | x in s
  }

  /** Appending a key above every listed key keeps the list increasing. */
  lemma IncreasingSnoc(r: seq<int>, m: int)
    requires Increasing(r) && forall i :: 0 <= i < |r| ==> r[i] < m
    ensures Increasing(r + [m])
  {
  }

  /** An increasing sequence is determined by its elements: iterating an
      ordered map has exactly one possible order. */
  lemma {:induction false} IncreasingUnique(a: seq<int>, b: seq<int>)
    requires Increasing(a) && Increasing(b) && Elems(a) == Elems(b)
    ensures a == b
    decreases |a|
  {
    if a != [] && b != [] {
      assert a[0] in Elems(b);
      assert b[0] in Elems(a);
      assert a[0] == b[0];
      assert Elems(a[1..]) == Elems(a) - {a[0]} by {
        forall x | x in Elems(a) - {a[0]} ensures x in Elems(a[1..]) {
          var i :| 0 <= i < |a| && a[i] == x;
          assert i > 0;
          assert a[1..][i - 1] == x;
        }
      }
      assert Elems(b[1..]) == Elems(b) - {b[0]} by {
        forall x | x in Elems(b) - {b[0]} ensures x in Elems(b[1..]) {
          var i :| 0 <= i < |b| && b[i] == x;
          assert i > 0;
          assert b[1..][i - 1] == x;
        }
      }
      IncreasingUnique(a[1..], b[1..]);
      assert a == [a[0]] + a[1..];
      assert b == [b[0]] + b[1..];
    } else {
      ElemsEmpty(a);
      ElemsEmpty(b);
    }
  }

  /** The keys of `s` in ascending order: the order in which an ordered map
      with these keys is iterated. */
  ghost function SortedKeys(s: set<int>): (r: seq<int>)
    ensures Increasing(r) && Elems(r) == s
    ensures forall i :: 0 <= i < |r| ==> r[i] in s
    decreases |s|
  {
    if s == {} then []
    else
      MinExists(s);
      var m :| m in s && forall y :: y in s ==> m <= y;
      var rest := SortedKeys(s - {m});
      LeastFirst(s, m, rest);
      [m] + rest
  }

  /** The least key followed by the others in ascending order. */
  lemma LeastFirst(s: set<int>, m: int, rest: seq<int>)
    requires m in s && forall y :: y in s ==> m <= y
    requires Increasing(rest) && Elems(rest) == s - {m}
    ensures Increasing([m] + rest) && Elems([m] + rest) == s
  {
    assert forall j :: 0 <= j < |rest| ==> rest[j] in Elems(rest);
    forall i, j | 0 <= i < j < |[m] + rest| ensures ([m] + rest)[i] < ([m] + rest)[j] {
      assert ([m] + rest)[j] == rest[j - 1];
      if i > 0 {
        assert ([m] + rest)[i] == rest[i - 1];
      }
    }
    forall x | x in s ensures x in Elems([m] + rest) {
      if x != m {
        assert x in Elems(rest);
        var j :| 0 <= j < |rest| && rest[j] == x;
        assert ([m] + rest)[j + 1] == x;
      } else {
        assert ([m] + rest)[0] == x;
      }
    }
    forall x | x in Elems([m] + rest) ensures x in s {
      var j :| 0 <= j < |[m] + rest| && ([m] + rest)[j] == x;
      if j > 0 {
        assert rest[j - 1] == x;
        assert x in Elems(rest);
      }
    }
  }

  /** Walking an increasing key list one key at a time meets each key once. */
  lemma ElemsStep(s: seq<int>, i: int)
    requires Increasing(s) && 0 <= i < |s|
    ensures Elems(s[..i + 1]) == Elems(s[..i]) + {s[i]}
    ensures s[i] !in Elems(s[..i])
    ensures s[..i + 1] == s[..i] + [s[i]]
  {
    assert s[..i + 1] == s[..i] + [s[i]];
  }

  lemma ElemsEmpty(s: seq<int>)
    ensures Elems(s) == {} <==> s == []
  {
    if s != [] {
      assert s[0] in Elems(s);
    }
  }

  /** A non-empty finite set of keys has a least element. */
  lemma {:induction false} MinExists(s: set<int>)
    requires s != {}
    ensures exists m :: m in s && forall y :: y in s ==> m <= y
    decreases |s|
  {
    if forall y :: y !in s {
      assert false;
    }
    var x :| x in s;
    var t := s - {x};
    if t == {} {
      forall y | y in s ensures x <= y {
        assert y !in t;
      }
    } else {
      assert |t| == |s| - 1;
      MinExists(t);
      var m :| m in t && forall y :: y in t ==> m <= y;
      var least := if x < m then x else m;
      forall y | y in s ensures least <= y {
        if y != x { assert y in t; }
      }
      assert least in s;
    }
  }

  // ---------------------------------------------------------------------
  // Eating

  /** How many entries of the food list lie on cell `c`: the number of times
      a snake whose head is at `c` grows (and, when alive, scores). */
  function EatCount(foods: seq<Coord>, c: Coord): nat
    decreases |foods|
  {
    if foods == [] then 0
    else EatCount(foods[..|foods| - 1], c) + (if foods[|foods| - 1] == c then 1 else 0)
  }

  lemma {:induction false} EatCountIsMultiplicity(foods: seq<Coord>, c: Coord)
    ensures EatCount(foods, c) == multiset(foods)[c]
    decreases |foods|
  {
    if foods != [] {
      var n := |foods|;
      assert foods == foods[..n - 1] + [foods[n - 1]];
      EatCountIsMultiplicity(foods[..n - 1], c);
    }
  }

  predicate Distinct<T(==)>(s: seq<T>) {
    forall i, j :: 0 <= i < j < |s| ==> s[i] != s[j]
  }

  /** With no two food entries on one cell a snake grows by at most one per
      tick, exactly when its head lands on food. */
  lemma DistinctFoodEatenOnce(foods: seq<Coord>, c: Coord)
    requires Distinct(foods)
    ensures EatCount(foods, c) <= 1
    ensures EatCount(foods, c) == 1 <==> c in foods
  {
    EatCountIsMultiplicity(foods, c);
    MultiplicityOfDistinct(foods, c);
  }

  lemma {:induction false} MultiplicityOfDistinct(s: seq<Coord>, c: Coord)
    requires Distinct(s)
    ensures multiset(s)[c] == if c in s then 1 else 0
    decreases |s|
  {
    if s != [] {
      var n := |s|;
      assert s == s[..n - 1] + [s[n - 1]];
      assert Distinct(s[..n - 1]);
      MultiplicityOfDistinct(s[..n - 1], c);
      if s[n - 1] == c {
        forall i | 0 <= i < n - 1 ensures s[i] != c {
          assert s[i] != s[n - 1];
        }
        assert c !in s[..n - 1];
      }
    }
  }

  /** The food entries that no head lands on, in their original order. */
  function Uneaten(foods: seq<Coord>, heads: set<Coord>): (r: seq<Coord>)
    ensures |r| <= |foods|
    decreases |foods|
  {
    if foods == [] then []
    else
      var f := foods[|foods| - 1];
      Uneaten(foods[..|foods| - 1], heads) + (if f in heads then [] else [f])
  }

  /** Every food entry not under a head survives, with its multiplicity, and
      none under a head does. */
  lemma {:induction false} UneatenSpec(foods: seq<Coord>, heads: set<Coord>, c: Coord)
    ensures multiset(Uneaten(foods, heads))[c] == if c in heads then 0 else multiset(foods)[c]
    ensures c in Uneaten(foods, heads) <==> c in foods && c !in heads
    decreases |foods|
  {
    if foods != [] {
      var n := |foods|;
      assert foods == foods[..n - 1] + [foods[n - 1]];
      UneatenSpec(foods[..n - 1], heads, c);
    }
  }

  function Heads(vals: map<int, SnakeVal>): set<Coord> {
    set id | id in vals :: vals[id].head
  }

  /** Some snake among the first `n` of `ks` has its head on `food`. */
  predicate SomeHeadOn(vals: map<int, SnakeVal>, ks: seq<int>, n: int, food: Coord)
    requires 0 <= n <= |ks|
    decreases n, ks
  {
    if n == 0 then false
    else if ks[n - 1] in vals && vals[ks[n - 1]].head == food then true
    else SomeHeadOn(vals, ks, n - 1, food)
  }

  lemma {:induction false} SomeHeadOnSpec(vals: map<int, SnakeVal>, ks: seq<int>, n: int, food: Coord)
    requires 0 <= n <= |ks|
    ensures SomeHeadOn(vals, ks, n, food) <==> exists k :: 0 <= k < n && ks[k] in vals && vals[ks[k]].head == food
    decreases n
  {
    if n > 0 {
      SomeHeadOnSpec(vals, ks, n - 1, food);
    }
  }

  /** Looking at every snake finds a head on `food` exactly when `food` is
      one of the heads. */
  lemma SomeHeadOnEveryone(vals: map<int, SnakeVal>, ks: seq<int>, food: Coord)
    requires forall id :: id in vals ==> id in ks
    ensures SomeHeadOn(vals, ks, |ks|, food) <==> food in Heads(vals)
  {
    SomeHeadOnSpec(vals, ks, |ks|, food);
    if food in Heads(vals) {
      var id :| id in vals && vals[id].head == food;
      var k :| 0 <= k < |ks| && ks[k] == id;
    }
    if SomeHeadOn(vals, ks, |ks|, food) {
      var k :| 0 <= k < |ks| && ks[k] in vals && vals[ks[k]].head == food;
      var id := ks[k];
      assert id in vals && vals[id].head == food;
    }
  }

  // ---------------------------------------------------------------------
  // The body phases of a tick, applied to every snake

  /** Every snake after moveHead. */
  function AllMoved(vals: map<int, SnakeVal>, w: int, h: int): (r: map<int, SnakeVal>)
    requires Snakes(vals, w, h)
    ensures r.Keys == vals.Keys
  {
    map id | id in vals :: Moved(vals[id], w, h)
  }

  /** Every snake after growing once per food entry under its head. */
  function AllFed(vals: map<int, SnakeVal>, foods: seq<Coord>, w: int, h: int): (r: map<int, SnakeVal>)
    requires Snakes(vals, w, h)
    ensures r.Keys == vals.Keys
  {
    map id | id in vals :: GrownTimes(vals[id], EatCount(foods, vals[id].head))
  }

  /** Every snake after cutTail. */
  function AllCut(vals: map<int, SnakeVal>, w: int, h: int): (r: map<int, SnakeVal>)
    requires Snakes(vals, w, h)
    ensures r.Keys == vals.Keys
  {
    map id | id in vals :: Cut(vals[id])
  }

  /** Every snake after one tick, each having eaten the food entries under
      the cell its head moves to. */
  function TickedAll(vals: map<int, SnakeVal>, foods: seq<Coord>, w: int, h: int): (r: map<int, SnakeVal>)
    requires Snakes(vals, w, h)
    ensures r.Keys == vals.Keys
    ensures Snakes(r, w, h)
  {
    TickedWellFormed(vals, foods, w, h);
    map id | id in vals :: Ticked(vals[id], EatCount(foods, Step(vals[id].head, vals[id].heading, w, h)), w, h)
  }

  lemma TickedWellFormed(vals: map<int, SnakeVal>, foods: seq<Coord>, w: int, h: int)
    requires Snakes(vals, w, h)
    ensures forall id :: id in vals ==>
      WellFormed(Ticked(vals[id], EatCount(foods, Step(vals[id].head, vals[id].heading, w, h)), w, h), w, h)
  {
    forall id | id in vals {
      TickedBody(vals[id], EatCount(foods, Step(vals[id].head, vals[id].heading, w, h)), w, h);
    }
  }

  /** Every snake has at least two cells behind its head. */
  predicate LongEnough(vals: map<int, SnakeVal>) {
    forall id :: id in vals ==> Length(vals[id].waypoints) >= 2
  }

  /** Moving keeps every snake well formed, gives each one more cell, and
      puts each head one wrapped step along its heading. */
  lemma AllMovedSnakes(vals: map<int, SnakeVal>, w: int, h: int)
    requires Snakes(vals, w, h)
    ensures var m := AllMoved(vals, w, h);
      Snakes(m, w, h) && LongEnough(m)
      && forall id :: id in m ==> m[id].head == Step(vals[id].head, vals[id].heading, w, h)
  {
    var m := AllMoved(vals, w, h);
    forall id | id in m
      ensures WellFormed(m[id], w, h) && Length(m[id].waypoints) >= 2
      ensures m[id].head == Step(vals[id].head, vals[id].heading, w, h)
    {
      MovedBody(vals[id], w, h);
      LengthPositive(vals[id].waypoints);
    }
  }

  /** A body has at least as many cells behind its head as waypoints. */
  lemma {:induction false} LengthPositive(wps: seq<Coord>)
    requires AllWaypoints(wps)
    ensures Length(wps) >= |wps|
  {
    if wps != [] {
      assert AllWaypoints(wps[1..]) by {
        forall i | 0 <= i < |wps| - 1 ensures IsWaypoint(wps[1..][i]) {
          assert wps[1..][i] == wps[i + 1];
        }
      }
      LengthPositive(wps[1..]);
    }
  }

  /** Feeding keeps every snake well formed and never shortens one. */
  lemma AllFedSnakes(vals: map<int, SnakeVal>, foods: seq<Coord>, w: int, h: int)
    requires Snakes(vals, w, h)
    ensures var f := AllFed(vals, foods, w, h);
      Snakes(f, w, h) && (LongEnough(vals) ==> LongEnough(f))
      && forall id :: id in f ==> f[id].head == vals[id].head && f[id].state == vals[id].state
  {
    var f := AllFed(vals, foods, w, h);
    forall id | id in f
      ensures WellFormed(f[id], w, h) && Length(f[id].waypoints) >= Length(vals[id].waypoints)
      ensures f[id].head == vals[id].head && f[id].state == vals[id].state
    {
      GrownTimesBody(vals[id], EatCount(foods, vals[id].head), w, h);
    }
  }

  /** Cutting snakes with two cells behind the head keeps them well formed. */
  lemma AllCutSnakes(vals: map<int, SnakeVal>, w: int, h: int)
    requires Snakes(vals, w, h) && LongEnough(vals)
    ensures var c := AllCut(vals, w, h);
      Snakes(c, w, h)
      && forall id :: id in c ==> c[id].head == vals[id].head && c[id].state == vals[id].state
  {
    var c := AllCut(vals, w, h);
    forall id | id in c
      ensures WellFormed(c[id], w, h)
      ensures c[id].head == vals[id].head && c[id].state == vals[id].state
    {
      CutBody(vals[id], w, h);
    }
  }

  /** One of the per-snake loops of a tick. */
  datatype Phase = MovePhase | FeedPhase(eaten: seq<Coord>) | CutPhase

  /** What the phase does to one snake. Every snake of a game has a body of
      waypoints; a value without one is left as it is. */
  function Apply(p: Phase, v: SnakeVal, w: int, h: int): SnakeVal {
    if w > 0 && h > 0 && |v.waypoints| >= 1 && AllWaypoints(v.waypoints) then
      match p
      case MovePhase => Moved(v, w, h)
      case FeedPhase(eaten) => GrownTimes(v, EatCount(eaten, v.head))
      case CutPhase => Cut(v)
    else v
  }

  /** The snakes after the phase has visited the first `n` of `ks`, in
      order. */
  function Visit(p: Phase, vals: map<int, SnakeVal>, ks: seq<int>, n: int, w: int, h: int): (r: map<int, SnakeVal>)
    requires KeysIn(ks, vals) && 0 <= n <= |ks|
    ensures r.Keys == vals.Keys
    decreases n, ks
  {
    if n == 0 then vals
    else Visit(p, vals, ks, n - 1, w, h)[ks[n - 1] := Apply(p, vals[ks[n - 1]], w, h)]
  }

  /** A visited snake has had the phase applied, an unvisited one is as it
      was. */
  lemma {:induction false} VisitSpec(p: Phase, vals: map<int, SnakeVal>, ks: seq<int>, n: int, w: int, h: int, id: int)
    requires KeysIn(ks, vals) && 0 <= n <= |ks| && id in vals
    ensures Visit(p, vals, ks, n, w, h)[id] == if id in ks[..n] then Apply(p, vals[id], w, h) else vals[id]
    decreases n
  {
    if n > 0 {
      VisitSpec(p, vals, ks, n - 1, w, h, id);
      assert ks[..n] == ks[..n - 1] + [ks[n - 1]];
    }
  }

  /** The next key of a list without repetitions has not been visited yet. */
  lemma VisitNext(p: Phase, vals: map<int, SnakeVal>, ks: seq<int>, n: int, w: int, h: int)
    requires KeysIn(ks, vals) && Distinct(ks) && 0 <= n < |ks|
    ensures Visit(p, vals, ks, n, w, h)[ks[n]] == vals[ks[n]]
  {
    VisitSpec(p, vals, ks, n, w, h, ks[n]);
    forall i | 0 <= i < n ensures ks[..n][i] != ks[n] {
      assert ks[i] != ks[n];
    }
  }

  /** A visit over a list holding every key applies the phase to every
      snake. */
  lemma VisitAll(p: Phase, vals: map<int, SnakeVal>, ks: seq<int>, w: int, h: int)
    requires KeysIn(ks, vals) && forall id :: id in vals ==> id in ks
    ensures forall id :: id in vals ==> Visit(p, vals, ks, |ks|, w, h)[id] == Apply(p, vals[id], w, h)
  {
    assert ks[..|ks|] == ks;
    forall id | id in vals ensures Visit(p, vals, ks, |ks|, w, h)[id] == Apply(p, vals[id], w, h) {
      VisitSpec(p, vals, ks, |ks|, w, h, id);
    }
  }

  /** The move loop over every key moves every snake. */
  lemma MovedEveryone(vals: map<int, SnakeVal>, ks: seq<int>, w: int, h: int)
    requires Snakes(vals, w, h) && KeysIn(ks, vals) && forall id :: id in vals ==> id in ks
    ensures Visit(MovePhase, vals, ks, |ks|, w, h) == AllMoved(vals, w, h)
  {
    VisitAll(MovePhase, vals, ks, w, h);
    var r := Visit(MovePhase, vals, ks, |ks|, w, h);
    var m := AllMoved(vals, w, h);
    forall id | id in r ensures r[id] == m[id] {
      assert Apply(MovePhase, vals[id], w, h) == Moved(vals[id], w, h);
    }
  }

  /** The eating loop over every key feeds every snake. */
  lemma FedEveryone(vals: map<int, SnakeVal>, eaten: seq<Coord>, ks: seq<int>, w: int, h: int)
    requires Snakes(vals, w, h) && KeysIn(ks, vals) && forall id :: id in vals ==> id in ks
    ensures Visit(FeedPhase(eaten), vals, ks, |ks|, w, h) == AllFed(vals, eaten, w, h)
  {
    VisitAll(FeedPhase(eaten), vals, ks, w, h);
    var r := Visit(FeedPhase(eaten), vals, ks, |ks|, w, h);
    var m := AllFed(vals, eaten, w, h);
    forall id | id in r ensures r[id] == m[id] {
      assert Apply(FeedPhase(eaten), vals[id], w, h) == GrownTimes(vals[id], EatCount(eaten, vals[id].head));
    }
  }

  /** The cut loop over an increasing list of all keys cuts every snake. */
  lemma CutAllKeys(vals: map<int, SnakeVal>, keys: seq<int>, w: int, h: int)
    requires Snakes(vals, w, h) && Increasing(keys) && Elems(keys) == vals.Keys
    ensures KeysIn(keys, vals)
    ensures Visit(CutPhase, vals, keys, |keys|, w, h) == AllCut(vals, w, h)
  {
    Enumerates(keys, vals);
    EnumeratesAll(keys, vals);
    CutEveryone(vals, keys, w, h);
  }

  /** The cut loop over every key cuts every snake. */
  lemma CutEveryone(vals: map<int, SnakeVal>, ks: seq<int>, w: int, h: int)
    requires Snakes(vals, w, h) && KeysIn(ks, vals) && forall id :: id in vals ==> id in ks
    ensures Visit(CutPhase, vals, ks, |ks|, w, h) == AllCut(vals, w, h)
  {
    VisitAll(CutPhase, vals, ks, w, h);
    var r := Visit(CutPhase, vals, ks, |ks|, w, h);
    var m := AllCut(vals, w, h);
    forall id | id in r ensures r[id] == m[id] {
      assert Apply(CutPhase, vals[id], w, h) == Cut(vals[id]);
    }
  }

  /** `p` gains one point when it has `earned` it; no other score changes. */
  function Credit(scores: map<int, int>, p: int, earned: bool): (r: map<int, int>)
    ensures r.Keys == scores.Keys
  {
    if earned && p in scores then scores[p := scores[p] + 1] else scores
  }

  /** The owners' scores after the removeIf test for `food` has visited the
      first `n` snakes of `ks`, in order: each alive snake whose head is on
      the food earns its owner one point. */
  function Earned(scores: map<int, int>, vals: map<int, SnakeVal>, food: Coord, ks: seq<int>, n: int): (r: map<int, int>)
    requires 0 <= n <= |ks|
    ensures r.Keys == scores.Keys
    decreases n, ks
  {
    if n == 0 then scores
    else
      var last := ks[n - 1];
      Credit(Earned(scores, vals, food, ks, n - 1), last, IsAlive(vals, last) && vals[last].head == food)
  }

  /** Visiting a key once awards its point once. */
  lemma {:induction false} EarnedSpec(scores: map<int, int>, vals: map<int, SnakeVal>, food: Coord, ks: seq<int>, n: int, p: int)
    requires 0 <= n <= |ks| && Distinct(ks) && p in scores
    ensures Earned(scores, vals, food, ks, n)[p]
         == if p in ks[..n] && IsAlive(vals, p) && vals[p].head == food then scores[p] + 1 else scores[p]
    decreases n
  {
    if n > 0 {
      EarnedSpec(scores, vals, food, ks, n - 1, p);
      assert ks[..n] == ks[..n - 1] + [ks[n - 1]];
      if p == ks[n - 1] {
        var pre := ks[..n - 1];
        forall i | 0 <= i < |pre| ensures pre[i] != p {
          assert ks[i] != ks[n - 1];
        }
      }
    }
  }

  /** Once every snake has been visited, the test for `food` has awarded
      exactly the points ScoresAfterEating counts for it. */
  lemma EarnedEveryone(scores: map<int, int>, vals: map<int, SnakeVal>, food: Coord, ks: seq<int>)
    requires Distinct(ks) && forall id :: id in vals ==> id in ks
    ensures Earned(scores, vals, food, ks, |ks|) == ScoresAfterEating(scores, [food], vals)
  {
    var r := Earned(scores, vals, food, ks, |ks|);
    var e := ScoresAfterEating(scores, [food], vals);
    assert ks[..|ks|] == ks;
    forall p | p in scores ensures r[p] == e[p] {
      EarnedSpec(scores, vals, food, ks, |ks|, p);
      if p in vals {
        EatCountSnoc([], food, vals[p].head);
        assert [] + [food] == [food];
      }
    }
    assert forall p :: p in r ==> r[p] == e[p];
  }

  /** The three body phases, each over all snakes, make one tick of each
      snake. */
  lemma TickPhases(vals: map<int, SnakeVal>, foods: seq<Coord>, w: int, h: int)
    requires Snakes(vals, w, h)
    ensures Snakes(AllMoved(vals, w, h), w, h) && Snakes(AllFed(AllMoved(vals, w, h), foods, w, h), w, h)
    ensures var m := AllMoved(vals, w, h);
      AllCut(AllFed(m, foods, w, h), w, h) == TickedAll(vals, foods, w, h)
    ensures Snakes(TickedAll(vals, foods, w, h), w, h)
  {
    AllMovedSnakes(vals, w, h);
    AllFedSnakes(AllMoved(vals, w, h), foods, w, h);
    TickedAllPhases(vals, foods, w, h);
  }

  lemma TickedAllPhases(vals: map<int, SnakeVal>, foods: seq<Coord>, w: int, h: int)
    requires Snakes(vals, w, h) && Snakes(AllMoved(vals, w, h), w, h)
    requires Snakes(AllFed(AllMoved(vals, w, h), foods, w, h), w, h)
    ensures AllCut(AllFed(AllMoved(vals, w, h), foods, w, h), w, h) == TickedAll(vals, foods, w, h)
  {
    var m := AllMoved(vals, w, h);
    var f := AllFed(m, foods, w, h);
    var c := AllCut(f, w, h);
    var t := TickedAll(vals, foods, w, h);
    forall id | id in t ensures c[id] == t[id] {
      TickedPhases(vals[id], foods, w, h);
      assert m[id] == Moved(vals[id], w, h);
      assert f[id] == GrownTimes(m[id], EatCount(foods, m[id].head));
      assert c[id] == Cut(f[id]);
    }
    assert c.Keys == t.Keys;
  }

  /** One snake's three phases make its tick. */
  lemma TickedPhases(v: SnakeVal, foods: seq<Coord>, w: int, h: int)
    requires WellFormed(v, w, h)
    ensures var m := Moved(v, w, h);
      var e := EatCount(foods, Step(v.head, v.heading, w, h));
      && WellFormed(Ticked(v, e, w, h), w, h)
      && |m.waypoints| >= 1 && AllWaypoints(m.waypoints)
      && |GrownTimes(m, EatCount(foods, m.head)).waypoints| >= 1
      && Cut(GrownTimes(m, EatCount(foods, m.head))) == Ticked(v, e, w, h)
  {
    MovedBody(v, w, h);
    TickedBody(v, EatCount(foods, Step(v.head, v.heading, w, h)), w, h);
  }

  lemma EatCountSnoc(foods: seq<Coord>, x: Coord, c: Coord)
    ensures EatCount(foods + [x], c) == EatCount(foods, c) + (if x == c then 1 else 0)
  {
    assert (foods + [x])[..|foods|] == foods;
  }

  /** Testing one food entry grows a snake once exactly when its head is on
      it. */
  lemma FeedOnce(v: SnakeVal, food: Coord)
    requires |v.waypoints| >= 1 && AllWaypoints(v.waypoints)
    ensures GrownTimes(v, EatCount([food], v.head)) == if food == v.head then Grown(v) else v
  {
    EatCountSnoc([], food, v.head);
    assert [] + [food] == [food];
    if food == v.head {
      assert GrownTimes(v, 1) == Grown(GrownTimes(v, 0));
    }
  }

  /** The removeIf test applied to one more food entry: feeding on `foods`
      and then on `x` is feeding on `foods + [x]`, for bodies, heads and
      scores alike. */
  lemma FeedSnoc(vals: map<int, SnakeVal>, foods: seq<Coord>, x: Coord, scores: map<int, int>, w: int, h: int)
    requires Snakes(vals, w, h)
    ensures Snakes(AllFed(vals, foods, w, h), w, h)
    ensures Heads(AllFed(vals, foods, w, h)) == Heads(vals)
    ensures AllFed(AllFed(vals, foods, w, h), [x], w, h) == AllFed(vals, foods + [x], w, h)
    ensures ScoresAfterEating(ScoresAfterEating(scores, foods, vals), [x], AllFed(vals, foods, w, h))
         == ScoresAfterEating(scores, foods + [x], vals)
  {
    FeedSnocBodies(vals, foods, x, w, h);
    FeedSnocScores(vals, foods, x, scores, w, h);
  }

  /** Eating the entries of `foods` and then `x` grows each snake as eating
      `foods + [x]` does, and keeps the heads. */
  lemma FeedSnocBodies(vals: map<int, SnakeVal>, foods: seq<Coord>, x: Coord, w: int, h: int)
    requires Snakes(vals, w, h)
    ensures Snakes(AllFed(vals, foods, w, h), w, h)
    ensures Heads(AllFed(vals, foods, w, h)) == Heads(vals)
    ensures AllFed(AllFed(vals, foods, w, h), [x], w, h) == AllFed(vals, foods + [x], w, h)
  {
    AllFedSnakes(vals, foods, w, h);
    var f := AllFed(vals, foods, w, h);
    var f2 := AllFed(f, [x], w, h);
    var g := AllFed(vals, foods + [x], w, h);
    forall id | id in vals ensures f2[id] == g[id] {
      FedOnceMore(vals[id], foods, x, w, h);
    }
    assert Heads(f) == Heads(vals) by {
      forall c | c in Heads(vals) ensures c in Heads(f) {
        var id :| id in vals && vals[id].head == c;
        assert f[id].head == c;
      }
    }
    assert f2 == g;
  }

  /** One snake eating the entries of `foods` and then `x`. */
  lemma FedOnceMore(v: SnakeVal, foods: seq<Coord>, x: Coord, w: int, h: int)
    requires WellFormed(v, w, h)
    ensures var g := GrownTimes(v, EatCount(foods, v.head));
      && g.head == v.head
      && GrownTimes(g, EatCount([x], g.head)) == GrownTimes(v, EatCount(foods + [x], v.head))
  {
    var c := v.head;
    var n := EatCount(foods, c);
    var k := EatCount([x], c);
    GrownTimesBody(v, n, w, h);
    assert EatCount(foods + [x], c) == n + k by {
      EatCountSnoc(foods, x, c);
      EatCountSnoc([], x, c);
      assert [] + [x] == [x];
    }
    var g := GrownTimes(v, n);
    assert g.head == c;
    GrownTimesAdd(v, n, k);
    assert GrownTimes(g, EatCount([x], g.head)) == GrownTimes(v, n + k);
    assert GrownTimes(v, n + k) == GrownTimes(v, EatCount(foods + [x], v.head));
  }

  /** Crediting the entries of `foods` and then `x` gives each owner what
      crediting `foods + [x]` does. */
  lemma FeedSnocScores(vals: map<int, SnakeVal>, foods: seq<Coord>, x: Coord, scores: map<int, int>, w: int, h: int)
    requires Snakes(vals, w, h)
    ensures ScoresAfterEating(ScoresAfterEating(scores, foods, vals), [x], AllFed(vals, foods, w, h))
         == ScoresAfterEating(scores, foods + [x], vals)
  {
    AllFedSnakes(vals, foods, w, h);
    var f := AllFed(vals, foods, w, h);
    var s1 := ScoresAfterEating(scores, foods, vals);
    var s2 := ScoresAfterEating(s1, [x], f);
    var g := ScoresAfterEating(scores, foods + [x], vals);
    forall p | p in scores ensures s2[p] == g[p] {
      if IsAlive(vals, p) {
        var c := vals[p].head;
        EatCountSnoc(foods, x, c);
        EatCountSnoc([], x, c);
        assert [] + [x] == [x];
      }
    }
    assert s2 == g;
  }

  /** The removeIf test for entry `k` of the food list, after those before
      it: the bodies, heads, scores and surviving food as FeedSnoc and
      Uneaten describe them, over the prefix of the list. */
  lemma FeedNext(vals: map<int, SnakeVal>, foods: seq<Coord>, k: int, scores: map<int, int>, w: int, h: int)
    requires Snakes(vals, w, h) && 0 <= k < |foods|
    ensures Snakes(AllFed(vals, foods[..k], w, h), w, h)
    ensures Heads(AllFed(vals, foods[..k], w, h)) == Heads(vals)
    ensures AllFed(AllFed(vals, foods[..k], w, h), [foods[k]], w, h) == AllFed(vals, foods[..k + 1], w, h)
    ensures ScoresAfterEating(ScoresAfterEating(scores, foods[..k], vals), [foods[k]], AllFed(vals, foods[..k], w, h))
         == ScoresAfterEating(scores, foods[..k + 1], vals)
    ensures Uneaten(foods[..k + 1], Heads(vals))
         == Uneaten(foods[..k], Heads(vals)) + (if foods[k] in Heads(vals) then [] else [foods[k]])
  {
    assert foods[..k + 1] == foods[..k] + [foods[k]];
    FeedSnoc(vals, foods[..k], foods[k], scores, w, h);
  }

  lemma CreditCountSnoc(b: int, pairs: seq<(int, int)>, x: (int, int))
    ensures CreditCount(b, pairs + [x]) == CreditCount(b, pairs) + (if x.1 == b then 1 else 0)
  {
    assert (pairs + [x])[..|pairs|] == pairs;
  }

  /** Crediting one more pair raises only the credited alive owner's score. */
  lemma CreditSnoc(scores: map<int, int>, pairs: seq<(int, int)>, x: (int, int), vals: map<int, SnakeVal>)
    ensures var before := ScoresAfterCredit(scores, pairs, vals);
      ScoresAfterCredit(scores, pairs + [x], vals)
      == if x.1 in before && IsAlive(vals, x.1) then before[x.1 := before[x.1] + 1] else before
  {
    forall p | p in scores {
      CreditCountSnoc(p, pairs, x);
    }
  }

  /** The snakes not in `victims`. */
  function Survivors(vals: map<int, SnakeVal>, victims: seq<int>): (r: map<int, SnakeVal>)
    ensures forall id :: id in r <==> id in vals && id !in victims
    ensures forall id :: id in r ==> r[id] == vals[id]
  {
    map id | id in vals && id !in victims :: vals[id]
  }

  /** Removing one more victim removes exactly that snake. */
  lemma SurvivorsSnoc(vals: map<int, SnakeVal>, victims: seq<int>, x: int)
    ensures Survivors(vals, victims + [x]) == Survivors(vals, victims) - {x}
  {
    assert forall id :: id in victims + [x] <==> id in victims || id == x;
  }

  /** `p`'s score drops to zero when it is `lost`; no other score changes. */
  function Reset(scores: map<int, int>, p: int, lost: bool): (r: map<int, int>)
    ensures r.Keys == scores.Keys
  {
    if lost && p in scores then scores[p := 0] else scores
  }

  /** Removing one more victim resets only that victim's owner, and only
      when the victim is alive. */
  lemma RemovalSnoc(scores: map<int, int>, victims: seq<int>, x: int, vals: map<int, SnakeVal>)
    ensures ScoresAfterRemoval(scores, victims + [x], vals)
         == Reset(ScoresAfterRemoval(scores, victims, vals), x, IsAlive(vals, x))
  {
    assert forall id :: id in victims + [x] <==> id in victims || id == x;
  }

  /** Scores computed from bodies that agree on every owner's state and head
      are the same. */
  lemma EatingScoresAgree(scores: map<int, int>, foods: seq<Coord>, a: map<int, SnakeVal>, b: map<int, SnakeVal>)
    requires a.Keys == b.Keys
    requires forall id :: id in a ==> a[id].head == b[id].head && a[id].state == b[id].state
    ensures ScoresAfterEating(scores, foods, a) == ScoresAfterEating(scores, foods, b)
  {
    forall p | p in scores ensures IsAlive(a, p) == IsAlive(b, p) {
    }
  }

  // ---------------------------------------------------------------------
  // Collisions

  /** All snakes are well formed on a `w` by `h` grid. */
  predicate Snakes(vals: map<int, SnakeVal>, w: int, h: int) {
    w > 0 && h > 0 && forall id :: id in vals ==> WellFormed(vals[id], w, h)
  }

  predicate KeysIn(s: seq<int>, vals: map<int, SnakeVal>) {
    forall i :: 0 <= i < |s| ==> s[i] in vals
  }

  /** An increasing list of the keys of `vals` names each snake once. */
  lemma Enumerates(keys: seq<int>, vals: map<int, SnakeVal>)
    requires Increasing(keys) && Elems(keys) == vals.Keys
    ensures Distinct(keys) && KeysIn(keys, vals)
  {
    assert forall i :: 0 <= i < |keys| ==> keys[i] in Elems(keys);
  }

  /** ... and names every snake. */
  lemma EnumeratesAll(keys: seq<int>, vals: map<int, SnakeVal>)
    requires Elems(keys) == vals.Keys
    ensures forall id :: id in vals ==> id in keys
  {
  }

  /** Snake `a` runs into snake `b` (into its own body when `a == b`). */
  predicate Hits(vals: map<int, SnakeVal>, a: int, b: int, w: int, h: int)
    requires Snakes(vals, w, h) && a in vals && b in vals
  {
    StumblesInto(vals[a], vals[b], a != b, w, h)
  }

  /** The first of `cands`, in order, that `a` runs into. */
  function FirstHit(a: int, cands: seq<int>, vals: map<int, SnakeVal>, w: int, h: int): (r: Option<int>)
    requires Snakes(vals, w, h) && a in vals && KeysIn(cands, vals)
    ensures r.Some? ==> r.value in vals
    decreases |cands|
  {
    if cands == [] then None
    else
      var p := FirstHit(a, cands[..|cands| - 1], vals, w, h);
      if p.Some? then p
      else if Hits(vals, a, cands[|cands| - 1], w, h) then Some(cands[|cands| - 1])
      else None
  }

  /** FirstHit finds a candidate exactly when `a` runs into one, and the one
      it finds is hit while every earlier candidate is not. */
  lemma {:induction false} FirstHitSpec(a: int, cands: seq<int>, vals: map<int, SnakeVal>, w: int, h: int)
    requires Snakes(vals, w, h) && a in vals && KeysIn(cands, vals)
    ensures var r := FirstHit(a, cands, vals, w, h);
      (r.Some? <==> exists i :: 0 <= i < |cands| && Hits(vals, a, cands[i], w, h))
      && (r.Some? ==>
            exists i :: (0 <= i < |cands| && cands[i] == r.value && Hits(vals, a, r.value, w, h)
              && forall j :: 0 <= j < i ==> !Hits(vals, a, cands[j], w, h)))
    decreases |cands|
  {
    if cands != [] {
      var n := |cands|;
      var pre := cands[..n - 1];
      FirstHitSpec(a, pre, vals, w, h);
      var p := FirstHit(a, pre, vals, w, h);
      if p.Some? {
        var i :| 0 <= i < |pre| && pre[i] == p.value && Hits(vals, a, p.value, w, h)
            && forall j :: 0 <= j < i ==> !Hits(vals, a, pre[j], w, h);
        MissesPrefix(a, pre, cands, vals, w, h, i);
      } else {
        MissesPrefix(a, pre, cands, vals, w, h, n - 1);
        if !Hits(vals, a, cands[n - 1], w, h) {
          MissesAll(a, cands, vals, w, h);
        }
      }
    }
  }

  /** Candidates that `a` misses before position `i` of a prefix are missed
      before position `i` of the whole list. */
  lemma MissesPrefix(a: int, pre: seq<int>, cands: seq<int>, vals: map<int, SnakeVal>, w: int, h: int, i: int)
    requires Snakes(vals, w, h) && a in vals && KeysIn(cands, vals)
    requires 0 <= i <= |pre| < |cands| && pre == cands[..|pre|]
    requires forall j :: 0 <= j < i ==> !Hits(vals, a, pre[j], w, h)
    ensures i < |pre| ==> cands[i] == pre[i]
    ensures forall j :: 0 <= j < i ==> !Hits(vals, a, cands[j], w, h)
  {
    forall j | 0 <= j < i ensures !Hits(vals, a, cands[j], w, h) {
      assert cands[j] == pre[j];
    }
  }

  /** When `a` misses every candidate but the last and also the last, it
      misses them all. */
  lemma MissesAll(a: int, cands: seq<int>, vals: map<int, SnakeVal>, w: int, h: int)
    requires Snakes(vals, w, h) && a in vals && KeysIn(cands, vals) && cands != []
    requires forall j :: 0 <= j < |cands| - 1 ==> !Hits(vals, a, cands[j], w, h)
    requires !Hits(vals, a, cands[|cands| - 1], w, h)
    ensures forall j :: 0 <= j < |cands| ==> !Hits(vals, a, cands[j], w, h)
  {
  }

  /** For each snake of `done`, in order, that runs into any snake of `all`:
      the pair (victim, the first snake of `all` it runs into). */
  function Collisions(done: seq<int>, all: seq<int>, vals: map<int, SnakeVal>, w: int, h: int): (r: seq<(int, int)>)
    requires Snakes(vals, w, h) && KeysIn(done, vals) && KeysIn(all, vals)
    ensures |r| <= |done|
    ensures forall i :: 0 <= i < |r| ==> r[i].0 in vals && r[i].1 in vals
    decreases |done|
  {
    if done == [] then []
    else
      var a := done[|done| - 1];
      var prev := Collisions(done[..|done| - 1], all, vals, w, h);
      match FirstHit(a, all, vals, w, h)
      case Some(b) => prev + [(a, b)]
      case None => prev
  }

  function Victims(pairs: seq<(int, int)>): (r: seq<int>)
    ensures |r| == |pairs|
  {
    seq(|pairs|, i requires 0 <= i < |pairs| => pairs[i].0)
  }

  /** Some snake of `all` is hit by `a`. */
  predicate HitsAny(vals: map<int, SnakeVal>, a: int, all: seq<int>, w: int, h: int)
    requires Snakes(vals, w, h) && a in vals && KeysIn(all, vals)
  {
    exists i :: 0 <= i < |all| && Hits(vals, a, all[i], w, h)
  }

  /** The collisions of one tick: every snake, in ascending key order, tested
      against every snake after the bodies have moved, eaten and been cut. */
  ghost function TickCollisions(vals: map<int, SnakeVal>, foods: seq<Coord>, w: int, h: int): (r: seq<(int, int)>)
    requires Snakes(vals, w, h)
    ensures Distinct(Victims(r)) && KeysIn(Victims(r), TickedAll(vals, foods, w, h))
  {
    var t := TickedAll(vals, foods, w, h);
    var keys := SortedKeys(vals.Keys);
    Enumerates(keys, t);
    CollisionsDistinct(keys, keys, t, w, h);
    Collisions(keys, keys, t, w, h)
  }

  /** The snakes one tick removes, in the order they are marked. */
  ghost function TickVictims(vals: map<int, SnakeVal>, foods: seq<Coord>, w: int, h: int): (r: seq<int>)
    requires Snakes(vals, w, h)
    ensures Distinct(r) && KeysIn(r, TickedAll(vals, foods, w, h))
  {
    Victims(TickCollisions(vals, foods, w, h))
  }

  /** The snakes left on the board after one tick. */
  ghost function TickSurvivors(vals: map<int, SnakeVal>, foods: seq<Coord>, w: int, h: int): map<int, SnakeVal>
    requires Snakes(vals, w, h)
  {
    Survivors(TickedAll(vals, foods, w, h), TickVictims(vals, foods, w, h))
  }

  /** A snake survives a tick exactly when, after the bodies have moved, eaten
      and been cut, it runs into no snake on the board, itself included; a
      survivor keeps its ticked body. */
  lemma TickSurvivorsSpec(vals: map<int, SnakeVal>, foods: seq<Coord>, w: int, h: int, id: int)
    requires Snakes(vals, w, h) && id in vals
    ensures var t := TickedAll(vals, foods, w, h);
      (id in TickSurvivors(vals, foods, w, h) <==> forall k :: k in t ==> !Hits(t, id, k, w, h))
      && (id in TickSurvivors(vals, foods, w, h) ==> TickSurvivors(vals, foods, w, h)[id] == t[id])
  {
    var t := TickedAll(vals, foods, w, h);
    var keys := SortedKeys(vals.Keys);
    Enumerates(keys, t);
    EnumeratesAll(keys, t);
    CollisionsVictims(keys, keys, t, w, h, id);
    assert HitsAny(t, id, keys, w, h) <==> exists k :: k in t && Hits(t, id, k, w, h) by {
      if HitsAny(t, id, keys, w, h) {
        var i :| 0 <= i < |keys| && Hits(t, id, keys[i], w, h);
        assert keys[i] in t;
      }
      if exists k :: k in t && Hits(t, id, k, w, h) {
        var k :| k in t && Hits(t, id, k, w, h);
        var i :| 0 <= i < |keys| && keys[i] == k;
      }
    }
  }

  /** The food list after one tick, before any top-up: the entries no head
      moved onto, then the dead food of each removed snake in removal order. */
  ghost function TickLeftovers(vals: map<int, SnakeVal>, foods: seq<Coord>, lucks: seq<seq<real>>, prob: real, w: int, h: int): seq<Coord>
    requires Snakes(vals, w, h) && LuckFor(TickVictims(vals, foods, w, h), TickedAll(vals, foods, w, h), lucks, w, h)
  {
    var t := TickedAll(vals, foods, w, h);
    Uneaten(foods, Heads(AllMoved(vals, w, h))) + DeadFoods(TickVictims(vals, foods, w, h), t, lucks, prob, w, h)
  }

  /** The scores after one tick: food eaten, then collision credits, then
      the reset of removed alive snakes' owners. */
  ghost function ScoresAfterTick(scores: map<int, int>, vals: map<int, SnakeVal>, foods: seq<Coord>, w: int, h: int): map<int, int>
    requires Snakes(vals, w, h)
  {
    var t := TickedAll(vals, foods, w, h);
    var pairs := TickCollisions(vals, foods, w, h);
    ScoresAfterRemoval(ScoresAfterCredit(ScoresAfterEating(scores, foods, t), pairs, t), Victims(pairs), t)
  }

  /** A snake is marked for removal exactly when it runs into some snake,
      itself included. */
  lemma {:induction false} CollisionsVictims(done: seq<int>, all: seq<int>, vals: map<int, SnakeVal>, w: int, h: int, a: int)
    requires Snakes(vals, w, h) && KeysIn(done, vals) && KeysIn(all, vals) && a in vals
    ensures a in Victims(Collisions(done, all, vals, w, h)) <==> a in done && HitsAny(vals, a, all, w, h)
    decreases |done|
  {
    if done != [] {
      var n := |done|;
      var pre := done[..n - 1];
      var last := done[n - 1];
      CollisionsVictims(pre, all, vals, w, h, a);
      FirstHitAny(last, all, vals, w, h);
      var prev := Collisions(pre, all, vals, w, h);
      assert done == pre + [last];
      assert a in done <==> a in pre || a == last;
      match FirstHit(last, all, vals, w, h)
      case Some(b) => {
        VictimsSnoc(prev, (last, b));
      }
      case None => {
      }
    }
  }

  /** Some first hit exists exactly when some candidate is hit. */
  lemma FirstHitAny(a: int, cands: seq<int>, vals: map<int, SnakeVal>, w: int, h: int)
    requires Snakes(vals, w, h) && a in vals && KeysIn(cands, vals)
    ensures FirstHit(a, cands, vals, w, h).Some? <==> HitsAny(vals, a, cands, w, h)
  {
    FirstHitSpec(a, cands, vals, w, h);
  }

  /** Appending a pair appends its victim. */
  lemma VictimsSnoc(pairs: seq<(int, int)>, p: (int, int))
    ensures Victims(pairs + [p]) == Victims(pairs) + [p.0]
  {
  }

  /** Every pair credits the victim's first hit among `all`. */
  predicate CreditsFirstHits(pairs: seq<(int, int)>, all: seq<int>, vals: map<int, SnakeVal>, w: int, h: int)
    requires Snakes(vals, w, h) && KeysIn(all, vals)
  {
    forall i :: 0 <= i < |pairs| ==> pairs[i].0 in vals && FirstHit(pairs[i].0, all, vals, w, h) == Some(pairs[i].1)
  }

  /** Each victim is credited to the first snake, in order, it runs into. */
  lemma {:induction false} CollisionsScorer(done: seq<int>, all: seq<int>, vals: map<int, SnakeVal>, w: int, h: int)
    requires Snakes(vals, w, h) && KeysIn(done, vals) && KeysIn(all, vals)
    ensures CreditsFirstHits(Collisions(done, all, vals, w, h), all, vals, w, h)
    decreases |done|
  {
    if done != [] {
      var pre := done[..|done| - 1];
      var last := done[|done| - 1];
      CollisionsScorer(pre, all, vals, w, h);
      var prev := Collisions(pre, all, vals, w, h);
      var fh := FirstHit(last, all, vals, w, h);
      if fh.Some? {
        var r := prev + [(last, fh.value)];
        assert Collisions(done, all, vals, w, h) == r;
        forall i | 0 <= i < |r| ensures r[i].0 in vals && FirstHit(r[i].0, all, vals, w, h) == Some(r[i].1) {
          if i < |prev| { assert r[i] == prev[i]; } else { assert r[i] == (last, fh.value); }
        }
      } else {
        assert Collisions(done, all, vals, w, h) == prev;
      }
    }
  }

  /** No snake is marked twice when the snakes are visited once each. */
  lemma {:induction false} CollisionsDistinct(done: seq<int>, all: seq<int>, vals: map<int, SnakeVal>, w: int, h: int)
    requires Snakes(vals, w, h) && KeysIn(done, vals) && KeysIn(all, vals) && Distinct(done)
    ensures Distinct(Victims(Collisions(done, all, vals, w, h)))
    decreases |done|
  {
    if done != [] {
      var n := |done|;
      var pre := done[..n - 1];
      var last := done[n - 1];
      assert Distinct(pre);
      CollisionsDistinct(pre, all, vals, w, h);
      var prev := Collisions(pre, all, vals, w, h);
      forall i | 0 <= i < n - 1 ensures pre[i] != last {
        assert done[i] != done[n - 1];
      }
      match FirstHit(last, all, vals, w, h)
      case Some(b) => {
        var vs := Victims(prev);
        CollisionsVictims(pre, all, vals, w, h, last);
        assert last !in pre;
        DistinctSnoc(vs, last);
        VictimsSnoc(prev, (last, b));
      }
      case None => {
      }
    }
  }

  /** What the inner collision loop has recorded for `a` once it has tried
      the candidates `cands`: the pair (a, first hit), if any. */
  function HitPair(a: int, cands: seq<int>, vals: map<int, SnakeVal>, w: int, h: int): seq<(int, int)>
    requires Snakes(vals, w, h) && a in vals && KeysIn(cands, vals)
  {
    match FirstHit(a, cands, vals, w, h)
    case Some(b) => [(a, b)]
    case None => []
  }

  /** Trying one more candidate: once `a` is marked the candidate is skipped,
      otherwise it is recorded exactly when `a` runs into it. */
  lemma HitPairNext(a: int, all: seq<int>, j: int, vals: map<int, SnakeVal>, w: int, h: int)
    requires Snakes(vals, w, h) && a in vals && KeysIn(all, vals) && 0 <= j < |all|
    ensures KeysIn(all[..j], vals) && KeysIn(all[..j + 1], vals)
    ensures HitPair(a, all[..j + 1], vals, w, h)
         == if HitPair(a, all[..j], vals, w, h) != [] then HitPair(a, all[..j], vals, w, h)
            else if Hits(vals, a, all[j], w, h) then [(a, all[j])] else []
  {
    assert all[..j + 1][..j] == all[..j];
    assert all[..j + 1][j] == all[j];
  }

  /** The outer collision loop after one more snake of `done`. */
  lemma CollisionsNext(done: seq<int>, all: seq<int>, i: int, vals: map<int, SnakeVal>, w: int, h: int)
    requires Snakes(vals, w, h) && KeysIn(done, vals) && KeysIn(all, vals) && 0 <= i < |done|
    ensures KeysIn(done[..i], vals) && KeysIn(done[..i + 1], vals)
    ensures Collisions(done[..i + 1], all, vals, w, h)
         == Collisions(done[..i], all, vals, w, h) + HitPair(done[i], all, vals, w, h)
  {
    assert done[..i + 1][..i] == done[..i];
    assert done[..i + 1][i] == done[i];
  }

  /** While the inner loop runs for `done[i]`, that snake is marked exactly
      when a pair has been recorded for it. */
  lemma MarkedNow(done: seq<int>, all: seq<int>, i: int, cands: seq<int>, vals: map<int, SnakeVal>, w: int, h: int)
    requires Snakes(vals, w, h) && KeysIn(done, vals) && KeysIn(all, vals) && KeysIn(cands, vals)
    requires Distinct(done) && 0 <= i < |done|
    ensures KeysIn(done[..i], vals)
    ensures var pairs := Collisions(done[..i], all, vals, w, h) + HitPair(done[i], cands, vals, w, h);
      done[i] in Victims(pairs) <==> HitPair(done[i], cands, vals, w, h) != []
  {
    var a := done[i];
    var prev := Collisions(done[..i], all, vals, w, h);
    var hp := HitPair(a, cands, vals, w, h);
    CollisionsVictims(done[..i], all, vals, w, h, a);
    assert a !in done[..i] by {
      forall k | 0 <= k < i ensures done[..i][k] != a {
        assert done[k] != done[i];
      }
    }
    assert Victims(prev + hp) == Victims(prev) + Victims(hp);
    if hp != [] {
      assert Victims(hp)[0] == a;
    }
  }

  /** How many of `pairs` credit snake `b`. */
  function CreditCount(b: int, pairs: seq<(int, int)>): nat
    decreases |pairs|
  {
    if pairs == [] then 0
    else CreditCount(b, pairs[..|pairs| - 1]) + (if pairs[|pairs| - 1].1 == b then 1 else 0)
  }

  // ---------------------------------------------------------------------
  // Scores

  predicate IsAlive(vals: map<int, SnakeVal>, p: int) {
    p in vals && vals[p].state == Alive
  }

  /** After the eating phase: each alive snake's owner gains one point per
      food entry its head landed on. */
  function ScoresAfterEating(scores: map<int, int>, foods: seq<Coord>, vals: map<int, SnakeVal>): map<int, int> {
    map p | p in scores :: if IsAlive(vals, p) then scores[p] + EatCount(foods, vals[p].head) else scores[p]
  }

  /** After collision detection: the owner of an alive snake gains one point
      per snake credited to it. */
  function ScoresAfterCredit(scores: map<int, int>, pairs: seq<(int, int)>, vals: map<int, SnakeVal>): map<int, int> {
    map p | p in scores :: if IsAlive(vals, p) then scores[p] + CreditCount(p, pairs) else scores[p]
  }

  /** After removal: the owner of an alive removed snake is reset to zero. */
  function ScoresAfterRemoval(scores: map<int, int>, victims: seq<int>, vals: map<int, SnakeVal>): map<int, int> {
    map p | p in scores :: if p in victims && IsAlive(vals, p) then 0 else scores[p]
  }

  /** A tick never makes a score negative, and the owner of a removed alive
      snake ends at zero whatever it gained earlier in the tick, while a
      surviving alive snake's owner gains one point per food entry eaten and
      one per pair of `pairs` that credits it; in a tick's collisions that is
      one per victim whose first hit, in ascending key order, is this snake. */
  lemma TickScores(scores: map<int, int>, foods: seq<Coord>, pairs: seq<(int, int)>, victims: seq<int>, vals: map<int, SnakeVal>, p: int)
    requires forall q :: q in scores ==> scores[q] >= 0
    requires p in scores
    ensures var s := ScoresAfterRemoval(ScoresAfterCredit(ScoresAfterEating(scores, foods, vals), pairs, vals), victims, vals);
      && p in s && s[p] >= 0
      && (p in victims && IsAlive(vals, p) ==> s[p] == 0)
      && (p !in victims && IsAlive(vals, p) ==> s[p] == scores[p] + EatCount(foods, vals[p].head) + CreditCount(p, pairs))
      && (!IsAlive(vals, p) ==> s[p] == scores[p])
  {
  }

  // ---------------------------------------------------------------------
  // Dead food

  /** The cells of `cells` whose draw `luck[i]` falls below `prob`, in order. */
  function DeadFood(cells: seq<Coord>, luck: seq<real>, prob: real): (r: seq<Coord>)
    requires |luck| == |cells|
    ensures |r| <= |cells|
    decreases |cells|
  {
    if cells == [] then []
    else
      var n := |cells|;
      DeadFood(cells[..n - 1], luck[..n - 1], prob) + (if luck[n - 1] < prob then [cells[n - 1]] else [])
  }

  /** One more draw decides one more cell. */
  lemma DeadFoodSnoc(cells: seq<Coord>, luck: seq<real>, k: int, current: real, prob: real)
    requires 0 <= k < |cells| && |luck| == k
    ensures DeadFood(cells[..k + 1], luck + [current], prob)
         == DeadFood(cells[..k], luck, prob) + (if current < prob then [cells[k]] else [])
    ensures Draws(luck) && 0.0 <= current < 1.0 ==> Draws(luck + [current])
  {
    assert cells[..k + 1][..k] == cells[..k] && cells[..k + 1][k] == cells[k];
    assert (luck + [current])[..k] == luck;
  }

  predicate Draws(luck: seq<real>) {
    forall i :: 0 <= i < |luck| ==> 0.0 <= luck[i] < 1.0
  }

  /** Dead food lies on the dead snake's cells; probability 0 or below
      leaves none and probability 1 or above turns every cell into food. */
  lemma {:induction false} DeadFoodSpec(cells: seq<Coord>, luck: seq<real>, prob: real)
    requires |luck| == |cells| && Draws(luck)
    ensures forall c :: c in DeadFood(cells, luck, prob) ==> c in cells
    ensures prob <= 0.0 ==> DeadFood(cells, luck, prob) == []
    ensures prob >= 1.0 ==> DeadFood(cells, luck, prob) == cells
    decreases |cells|
  {
    if cells != [] {
      var n := |cells|;
      assert Draws(luck[..n - 1]);
      DeadFoodSpec(cells[..n - 1], luck[..n - 1], prob);
      assert cells == cells[..n - 1] + [cells[n - 1]];
    }
  }

  /** One sequence of draws per victim, one draw per cell of its body. */
  predicate LuckFor(victims: seq<int>, vals: map<int, SnakeVal>, lucks: seq<seq<real>>, w: int, h: int) {
    |lucks| == |victims|
    && forall i :: 0 <= i < |victims| ==>
         && victims[i] in vals && WellFormed(vals[victims[i]], w, h)
         && |lucks[i]| == |Cells(vals[victims[i]], w, h)| && Draws(lucks[i])
  }

  /** The food the removal loop leaves behind: each victim's dead food, in
      removal order. */
  function DeadFoods(victims: seq<int>, vals: map<int, SnakeVal>, lucks: seq<seq<real>>, prob: real, w: int, h: int): seq<Coord>
    requires Snakes(vals, w, h) && LuckFor(victims, vals, lucks, w, h)
    decreases |victims|
  {
    if victims == [] then []
    else
      var n := |victims|;
      assert LuckFor(victims[..n - 1], vals, lucks[..n - 1], w, h);
      DeadFoods(victims[..n - 1], vals, lucks[..n - 1], prob, w, h)
        + DeadFood(Cells(vals[victims[n - 1]], w, h), lucks[n - 1], prob)
  }

  /** Removing one more victim adds its dead food. */
  lemma DeadFoodsSnoc(victims: seq<int>, vals: map<int, SnakeVal>, lucks: seq<seq<real>>, x: int, luck: seq<real>, prob: real, w: int, h: int)
    requires Snakes(vals, w, h) && LuckFor(victims, vals, lucks, w, h)
    requires x in vals && |luck| == |Cells(vals[x], w, h)| && Draws(luck)
    ensures LuckFor(victims + [x], vals, lucks + [luck], w, h)
    ensures DeadFoods(victims + [x], vals, lucks + [luck], prob, w, h)
         == DeadFoods(victims, vals, lucks, prob, w, h) + DeadFood(Cells(vals[x], w, h), luck, prob)
  {
    assert (victims + [x])[..|victims|] == victims;
    assert (lucks + [luck])[..|victims|] == lucks;
  }

  /** Dead food lies on cells the victims occupied, and so on the grid; a
      probability of 0 or below leaves none. */
  lemma {:induction false} DeadFoodsSpec(victims: seq<int>, vals: map<int, SnakeVal>, lucks: seq<seq<real>>, prob: real, w: int, h: int)
    requires Snakes(vals, w, h) && LuckFor(victims, vals, lucks, w, h)
    ensures forall c :: c in DeadFoods(victims, vals, lucks, prob, w, h) ==> c in Occupied(vals, w, h) && InGrid(c, w, h)
    ensures prob <= 0.0 ==> DeadFoods(victims, vals, lucks, prob, w, h) == []
    decreases |victims|
  {
    if victims != [] {
      var n := |victims|;
      var x := victims[n - 1];
      assert LuckFor(victims[..n - 1], vals, lucks[..n - 1], w, h);
      DeadFoodsSpec(victims[..n - 1], vals, lucks[..n - 1], prob, w, h);
      var cells := Cells(vals[x], w, h);
      DeadFoodSpec(cells, lucks[n - 1], prob);
      forall c | c in DeadFood(cells, lucks[n - 1], prob) ensures c in Occupied(vals, w, h) && InGrid(c, w, h) {
        CellsInGrid(vals[x], w, h);
      }
    }
  }

  /** Every cell of a well-formed snake is on the grid. */
  lemma CellsInGrid(v: SnakeVal, w: int, h: int)
    requires WellFormed(v, w, h)
    ensures forall c :: c in Cells(v, w, h) ==> InGrid(c, w, h)
  {
    WalkInGrid(v.head, v.waypoints, w, h);
  }

  // ---------------------------------------------------------------------
  // Food target

  /** Java's `(int)` cast of a double: truncation toward zero. */
  function TruncToInt(r: real): int {
    if r >= 0.0 then r.Floor else -((-r).Floor)
  }

  lemma TruncToIntSpec(r: real)
    ensures r >= 0.0 ==> 0 <= TruncToInt(r) && TruncToInt(r) as real <= r < TruncToInt(r) as real + 1.0
    ensures r < 0.0 ==> TruncToInt(r) <= 0 && TruncToInt(r) as real - 1.0 < r <= TruncToInt(r) as real
  {
  }

  /** The number of food cells addNeededFood aims for with `n` snakes. */
  function FoodTarget(config: GameConfig, n: int): int {
    config.foodStatic + TruncToInt(n as real * config.foodPerPlayer)
  }

  /** With a non-negative ratio the target is the static count plus the
      truncated per-snake amount: at least the static count, within one below
      the exact product, and non-decreasing in the number of snakes. */
  lemma FoodTargetBounds(config: GameConfig, n: int, m: int)
    requires config.foodPerPlayer >= 0.0 && 0 <= n <= m
    ensures config.foodStatic <= FoodTarget(config, n) <= FoodTarget(config, m)
    ensures (FoodTarget(config, n) - config.foodStatic) as real <= n as real * config.foodPerPlayer
    ensures n as real * config.foodPerPlayer < (FoodTarget(config, n) - config.foodStatic + 1) as real
  {
    var a := n as real * config.foodPerPlayer;
    var b := m as real * config.foodPerPlayer;
    assert 0.0 <= a <= b by {
      assert b - a == (m - n) as real * config.foodPerPlayer;
    }
    TruncToIntSpec(a);
    TruncToIntSpec(b);
  }

  /** With the default configuration the target is one food per snake plus
      one. */
  lemma DefaultFoodTarget(n: int)
    requires n >= 0
    ensures FoodTarget(DEFAULT, n) == n + 1
  {
    assert n as real * 1.0 == n as real;
  }

  // ---------------------------------------------------------------------
  // Empty cells

  /** Cells (x, 0) .. (x, n-1). */
  function Column(x: int, n: nat): (r: seq<Coord>)
    ensures |r| == n
    ensures forall i :: 0 <= i < n ==> r[i] == Coord(x, i)
  {
    if n == 0 then [] else Column(x, n - 1) + [Coord(x, n - 1)]
  }

  /** Every cell of a `w` by `h` grid, column by column: the order the empty
      list is filled in. */
  function GridOrder(w: nat, h: nat): (r: seq<Coord>)
    ensures forall i :: 0 <= i < |r| ==> InGrid(r[i], w, h)
  {
    if w == 0 then [] else GridOrder(w - 1, h) + Column(w - 1, h)
  }

  /** Filtering out nothing keeps the list. */
  lemma {:induction false} WithoutNothing(s: seq<Coord>)
    ensures Without(s, {}) == s
  {
    if s != [] {
      WithoutNothing(s[1..]);
    }
  }

  /** The grid order lists each cell of the grid exactly once. */
  lemma {:induction false} GridOrderSpec(w: nat, h: nat)
    ensures forall c :: c in GridOrder(w, h) <==> InGrid(c, w, h)
    ensures Distinct(GridOrder(w, h))
  {
    if w > 0 {
      GridOrderSpec(w - 1, h);
      var p := GridOrder(w - 1, h);
      var q := Column(w - 1, h);
      forall c | InGrid(c, w, h) ensures c in GridOrder(w, h) {
        if c.x < w - 1 {
          assert c in p;
        } else {
          assert q[c.y] == c;
        }
      }
      forall i, j | 0 <= i < j < |p + q| ensures (p + q)[i] != (p + q)[j] {
        if j >= |p| && i < |p| {
          assert (p + q)[i].x < w - 1;
          assert (p + q)[j] == q[j - |p|];
        } else if i >= |p| {
          assert (p + q)[i] == q[i - |p|] && (p + q)[j] == q[j - |p|];
        }
      }
    }
  }

  /** The entries of `s` not in `ex`, in order. */
  function Without(s: seq<Coord>, ex: set<Coord>): (r: seq<Coord>)
    ensures |r| <= |s|
    ensures forall c :: c in r <==> c in s && c !in ex
  {
    if s == [] then []
    else (if s[0] in ex then [] else [s[0]]) + Without(s[1..], ex)
  }

  /** ArrayList.remove(Object): delete the first entry equal to `x`, if any. */
  function RemoveFirst(s: seq<Coord>, x: Coord): (r: seq<Coord>)
    ensures x in s ==> |r| == |s| - 1
    ensures x !in s ==> r == s
  {
    if s == [] then []
    else if s[0] == x then s[1..]
    else [s[0]] + RemoveFirst(s[1..], x)
  }

  lemma {:induction false} WithoutDistinct(s: seq<Coord>, ex: set<Coord>)
    requires Distinct(s)
    ensures Distinct(Without(s, ex))
  {
    if s != [] {
      HeadNotInRest(s);
      WithoutDistinct(s[1..], ex);
    }
  }

  lemma HeadNotInRest(s: seq<Coord>)
    requires Distinct(s) && s != []
    ensures s[0] !in s[1..] && Distinct(s[1..])
  {
    forall i | 0 <= i < |s| - 1 ensures s[1..][i] != s[0] {
      assert s[i + 1] != s[0];
    }
  }

  /** Removing a value once from a filtered list without repeats is
      filtering it out too, so the order of removals does not matter. */
  lemma {:induction false} RemoveFirstWithout(s: seq<Coord>, ex: set<Coord>, x: Coord)
    requires Distinct(s)
    ensures RemoveFirst(Without(s, ex), x) == Without(s, ex + {x})
  {
    if s != [] {
      HeadNotInRest(s);
      RemoveFirstWithout(s[1..], ex, x);
      var rest := Without(s[1..], ex);
      if s[0] in ex {
        assert Without(s, ex) == rest;
        assert Without(s, ex + {x}) == Without(s[1..], ex + {x});
      } else if s[0] == x {
        assert Without(s, ex) == [x] + rest;
        assert x !in rest;
        assert Without(s, ex + {x}) == Without(s[1..], ex + {x});
        WithoutSameOn(s[1..], ex, ex + {x});
      } else {
        assert Without(s, ex) == [s[0]] + rest;
        assert Without(s, ex + {x}) == [s[0]] + Without(s[1..], ex + {x});
      }
    }
  }

  /** Filters agreeing on the entries of `s` give the same list. */
  lemma {:induction false} WithoutSameOn(s: seq<Coord>, ex1: set<Coord>, ex2: set<Coord>)
    requires forall c :: c in s ==> (c in ex1 <==> c in ex2)
    ensures Without(s, ex1) == Without(s, ex2)
  {
    if s != [] {
      assert forall c :: c in s[1..] ==> c in s;
      WithoutSameOn(s[1..], ex1, ex2);
    }
  }

  /** Every cell some snake occupies. */
  function Occupied(vals: map<int, SnakeVal>, w: int, h: int): set<Coord>
    requires Snakes(vals, w, h)
  {
    set id, c | id in vals && c in Cells(vals[id], w, h) :: c
  }

  /** Every cell occupied by one of the snakes `ids`. */
  function OccupiedBy(vals: map<int, SnakeVal>, ids: set<int>, w: int, h: int): set<Coord>
    requires Snakes(vals, w, h)
  {
    set id, c | id in ids && id in vals && c in Cells(vals[id], w, h) :: c
  }

  /** The cells getEmptyTilesList has removed once it has handled the food
      and the snakes `ids`. */
  function Blocked(foods: seq<Coord>, vals: map<int, SnakeVal>, ids: set<int>, w: int, h: int): set<Coord>
    requires Snakes(vals, w, h)
  {
    SetOf(foods) + OccupiedBy(vals, ids, w, h)
  }

  /** Before any snake only the food is removed; after all of them, every
      occupied cell is. */
  lemma BlockedEnds(foods: seq<Coord>, vals: map<int, SnakeVal>, w: int, h: int)
    requires Snakes(vals, w, h)
    ensures Blocked(foods, vals, {}, w, h) == {} + SetOf(foods)
    ensures Blocked(foods, vals, vals.Keys, w, h) == SetOf(foods) + Occupied(vals, w, h)
  {
  }

  /** One more snake removes exactly its own cells. */
  lemma BlockedAdd(foods: seq<Coord>, vals: map<int, SnakeVal>, ids: set<int>, id: int, w: int, h: int)
    requires Snakes(vals, w, h) && id in vals
    ensures Blocked(foods, vals, ids + {id}, w, h) == Blocked(foods, vals, ids, w, h) + SetOf(Cells(vals[id], w, h))
  {
    var a := OccupiedBy(vals, ids + {id}, w, h);
    var b := OccupiedBy(vals, ids, w, h) + SetOf(Cells(vals[id], w, h));
    forall c | c in b ensures c in a {
      if c !in OccupiedBy(vals, ids, w, h) {
        assert c in Cells(vals[id], w, h);
      }
    }
  }

  /** The board of a single snake is occupied exactly on that snake's cells. */
  lemma OccupiedSingle(id: int, v: SnakeVal, w: int, h: int)
    requires WellFormed(v, w, h)
    ensures Snakes(map[id := v], w, h)
    ensures forall c :: c in Occupied(map[id := v], w, h) <==> c in Cells(v, w, h)
  {
    var vals := map[id := v];
    assert vals[id] == v;
    forall c | c in Cells(v, w, h) ensures c in Occupied(vals, w, h) {
      assert id in vals && c in Cells(vals[id], w, h);
    }
  }

  /** getEmptyTilesList: the grid in column order without the food cells and
      without any occupied cell. */
  function FreeCells(w: int, h: int, foods: seq<Coord>, vals: map<int, SnakeVal>): seq<Coord>
    requires Snakes(vals, w, h)
  {
    Without(GridOrder(w, h), SetOf(foods) + Occupied(vals, w, h))
  }

  /** A cell is listed as empty exactly when it is on the grid, holds no food
      and no snake; no cell is listed twice. */
  lemma FreeCellsSpec(w: int, h: int, foods: seq<Coord>, vals: map<int, SnakeVal>)
    requires Snakes(vals, w, h)
    ensures forall c :: c in FreeCells(w, h, foods, vals) <==>
      InGrid(c, w, h) && c !in foods && c !in Occupied(vals, w, h)
    ensures Distinct(FreeCells(w, h, foods, vals))
  {
    GridOrderSpec(w, h);
    WithoutDistinct(GridOrder(w, h), SetOf(foods) + Occupied(vals, w, h));
  }

  /** addNeededFood's outcome: `after` is `before` followed by distinct
      entries of the empty list `free`, as many as are `need`ed or, when the
      list runs out first, as many as it has. */
  predicate TopUp(before: seq<Coord>, after: seq<Coord>, free: seq<Coord>, need: int) {
    && |before| <= |after| && after[..|before|] == before
    && |after| - |before| == (if need <= 0 then 0 else if need <= |free| then need else |free|)
    && Distinct(after[|before|..])
    && forall i :: |before| <= i < |after| ==> after[i] in free
  }

  /** Asking for no new food leaves the list as it is. */
  lemma TopUpNone(foods: seq<Coord>, free: seq<Coord>, need: int)
    requires need <= 0
    ensures TopUp(foods, foods, free, need)
  {
    assert foods[..|foods|] == foods && foods[|foods|..] == [];
  }

  /** The cells listed in `s`. */
  function SetOf(s: seq<Coord>): (r: set<Coord>)
    ensures forall c :: c in r <==> c in s
  {
    set c | c in s
  }

  lemma SetOfSnoc(s: seq<Coord>, x: Coord)
    ensures SetOf(s + [x]) == SetOf(s) + {x}
    ensures SetOf([]) == {}
  {
  }

  /** One more draw from the remaining empty list: the drawn cell is free
      and not drawn before, and removing it from the list filters it out. */
  lemma TopUpSnoc(before: seq<Coord>, after: seq<Coord>, free: seq<Coord>, i: int, x: Coord, grid: seq<Coord>, base: set<Coord>)
    requires Distinct(grid) && free == Without(grid, base)
    requires 0 <= i < |free| && TopUp(before, after, free, i)
    requires x in Without(grid, base + SetOf(after[|before|..]))
    ensures TopUp(before, after + [x], free, i + 1)
    ensures RemoveFirst(Without(grid, base + SetOf(after[|before|..])), x)
         == Without(grid, base + SetOf((after + [x])[|before|..]))
  {
    var added := after[|before|..];
    var next := after + [x];
    SliceSnoc(after, |before|, x);
    RemoveFirstWithout(grid, base + SetOf(added), x);
    SetOfSnoc(added, x);
    assert base + SetOf(added) + {x} == base + SetOf(added + [x]);
    assert x in free && x !in added;
    DistinctSnoc(added, x);
    forall k | |before| <= k < |next| ensures next[k] in free {
      if k < |after| {
        assert next[k] == after[k];
      }
    }
  }

  lemma SliceSnoc<T>(a: seq<T>, n: int, x: T)
    requires 0 <= n <= |a|
    ensures (a + [x])[n..] == a[n..] + [x] && (a + [x])[..n] == a[..n]
  {
  }

  lemma DistinctSnoc<T>(s: seq<T>, x: T)
    requires Distinct(s) && x !in s
    ensures Distinct(s + [x])
  {
    forall p, q | 0 <= p < q < |s| + 1 ensures (s + [x])[p] != (s + [x])[q] {
      assert (s + [x])[p] == s[p];
      if q < |s| {
        assert (s + [x])[q] == s[q];
      }
    }
  }

  /** Nothing is added when the food on the board already meets the target;
      otherwise exactly the missing number of free cells become food, and when
      there are fewer free cells than that, all of them do. */
  lemma TopUpSpec(before: seq<Coord>, after: seq<Coord>, free: seq<Coord>, need: int)
    requires TopUp(before, after, free, need) && Distinct(free)
    ensures need <= 0 ==> after == before
    ensures 0 < need <= |free| ==> |after| == |before| + need
    ensures need > |free| ==> forall c :: c in free ==> c in after[|before|..]
  {
    var added := after[|before|..];
    if need <= 0 {
      assert after == after[..|before|];
    }
    if need > |free| {
      forall k | 0 <= k < |added| ensures added[k] in free {
        assert added[k] == after[|before| + k];
      }
      DistinctCover(added, free);
    }
  }

  /** A list without repeats that is drawn from another list without repeats
      of the same length contains all of it. */
  lemma DistinctCover(a: seq<Coord>, b: seq<Coord>)
    requires Distinct(a) && Distinct(b) && |a| == |b|
    requires forall c :: c in a ==> c in b
    ensures forall c :: c in b ==> c in a
  {
    var sa := set c | c in a;
    var sb := set c | c in b;
    DistinctCard(a);
    DistinctCard(b);
    forall c | c in b ensures c in a {
      if c !in a {
        assert sa <= sb - {c};
        SubsetCard(sa, sb - {c});
      }
    }
  }

  /** A list without repeats has as many elements as entries. */
  lemma {:induction false} DistinctCard(s: seq<Coord>)
    requires Distinct(s)
    ensures |set c | c in s| == |s|
    decreases |s|
  {
    if s != [] {
      HeadNotInRest(s);
      DistinctCard(s[1..]);
      assert (set c | c in s) == (set c | c in s[1..]) + {s[0]} by {
        assert forall c :: c in s <==> c == s[0] || c in s[1..];
      }
    }
  }

  lemma {:induction false} SubsetCard(a: set<Coord>, b: set<Coord>)
    requires a <= b
    ensures |a| <= |b|
    decreases |b|
  {
    if a != {} {
      var x :| x in a;
      SubsetCard(a - {x}, b - {x});
    }
  }

  // ---------------------------------------------------------------------
  // Spawn placement

  function Offset(c: Coord, i: int, j: int): Coord {
    Coord(c.x + i, c.y + j)
  }

  /** The test addNewSnake applies to a candidate head: every cell of the
      5 by 5 square around it, with no wrapping, is in the empty list. */
  predicate Suitable(c: Coord, empty: seq<Coord>) {
    forall i, j :: -2 <= i <= 2 && -2 <= j <= 2 ==> Offset(c, i, j) in empty
  }

  /** A suitable head lies at least two cells from every edge, and the two
      cells of a snake spawned there, heading anywhere, are empty. */
  lemma SuitableInterior(c: Coord, empty: seq<Coord>, d: Direction, w: int, h: int)
    requires w > 0 && h > 0 && (forall e :: e in empty ==> InGrid(e, w, h))
    requires Suitable(c, empty)
    ensures 2 <= c.x < w - 2 && 2 <= c.y < h - 2
    ensures c in empty && Step(c, Opposite(d), w, h) in empty
  {
    assert InGrid(Offset(c, -2, -2), w, h) && InGrid(Offset(c, 2, 2), w, h);
    assert Offset(c, 0, 0) == c;
    var b := Opposite(d);
    assert Step(c, b, w, h) == Offset(c, DX(b), DY(b));
    assert Offset(c, DX(b), DY(b)) in empty;
  }

  /** The corrected spawn: the candidates a uniform draw is made from. */
  function Candidates(empty: seq<Coord>): seq<Coord> {
    CandidatesAmong(empty, empty)
  }

  /** The entries of `s` that are suitable in `empty`, in order. */
  function CandidatesAmong(s: seq<Coord>, empty: seq<Coord>): seq<Coord> {
    if s == [] then []
    else (if Suitable(s[0], empty) then [s[0]] else []) + CandidatesAmong(s[1..], empty)
  }

  /** A snake spawned at a candidate, heading anywhere, is well formed and
      lies on free tiles only. */
  lemma SpawnFree(free: seq<Coord>, c: Coord, d: Direction, w: int, h: int)
    requires w > 0 && h > 0 && (forall e :: e in free ==> InGrid(e, w, h))
    requires c in Candidates(free)
    ensures c in free && WellFormed(Spawned(c, d), w, h)
    ensures forall x :: x in Cells(Spawned(c, d), w, h) ==> x in free
  {
    CandidatesSpec(free, free);
    SuitableInterior(c, free, d, w, h);
    SpawnedBody(c, d, w, h);
  }

  /** The candidates are exactly the suitable entries of the list. */
  lemma {:induction false} CandidatesSpec(s: seq<Coord>, empty: seq<Coord>)
    ensures forall c :: c in CandidatesAmong(s, empty) <==> c in s && Suitable(c, empty)
  {
    if s != [] {
      CandidatesSpec(s[1..], empty);
      assert forall c :: c in s <==> c == s[0] || c in s[1..];
    }
  }

  /** Every snake is as addNewSnake creates it. */
  predicate AllSpawned(vals: map<int, SnakeVal>) {
    forall id :: id in vals ==> vals[id] == Spawned(vals[id].head, vals[id].heading)
  }

  /** One turn of startNewGame's loop on a board with no food: player `id`
      gets a snake spawned at a candidate tile of `before`, or nothing when
      no tile qualifies. */
  ghost predicate SpawnStep(before: map<int, SnakeVal>, after: map<int, SnakeVal>, id: int, w: int, h: int) {
    && Snakes(before, w, h) && Snakes(after, w, h)
    && var cands := Candidates(FreeCells(w, h, [], before));
       if cands == [] then after == before
       else && id in after && after == before[id := after[id]]
            && after[id] == Spawned(after[id].head, after[id].heading)
            && after[id].head in cands
  }

  /** A turn adds at most the key of its own player, and only when some tile
      qualified. */
  lemma SpawnStepSpec(before: map<int, SnakeVal>, after: map<int, SnakeVal>, id: int, w: int, h: int)
    requires SpawnStep(before, after, id, w, h) && id !in before
    ensures after.Keys == before.Keys + (if Candidates(FreeCells(w, h, [], before)) != [] then {id} else {})
    ensures forall k :: k in before ==> after[k] == before[k]
    ensures AllSpawned(before) ==> AllSpawned(after)
  {
  }

  /** The boards after each of the first `n` turns of the loop over `keys`,
      from the empty board. */
  ghost predicate SpawnPrefix(keys: seq<int>, steps: seq<map<int, SnakeVal>>, n: int, w: int, h: int) {
    && 0 <= n <= |keys| && n < |steps| && steps[0] == map[]
    && (forall i {:trigger Snakes(steps[i], w, h)} :: 0 <= i <= n ==> Snakes(steps[i], w, h))
    && forall i :: 0 <= i < n ==> SpawnStepAt(keys, steps, i, w, h)
  }

  /** Turn `i` of the loop over `keys` took board `steps[i]` to `steps[i + 1]`. */
  ghost predicate SpawnStepAt(keys: seq<int>, steps: seq<map<int, SnakeVal>>, i: int, w: int, h: int)
    requires 0 <= i < |keys| && i + 1 < |steps|
  {
    SpawnStep(steps[i], steps[i + 1], keys[i], w, h)
  }

  /** Before the first turn the board is empty. */
  lemma SpawnPrefixStart(keys: seq<int>, steps: seq<map<int, SnakeVal>>, w: int, h: int)
    requires w > 0 && h > 0 && steps == [map[]]
    ensures SpawnPrefix(keys, steps, 0, w, h)
  {
    assert Snakes(steps[0], w, h);
  }

  lemma SpawnPrefixNext(keys: seq<int>, steps: seq<map<int, SnakeVal>>, n: int, next: map<int, SnakeVal>, w: int, h: int)
    requires SpawnPrefix(keys, steps, n, w, h) && n < |keys| && |steps| == n + 1
    requires SpawnStep(steps[n], next, keys[n], w, h)
    ensures SpawnPrefix(keys, steps + [next], n + 1, w, h)
  {
    var s := steps + [next];
    assert s[n + 1] == next;
    forall i | 0 <= i <= n + 1 ensures Snakes(s[i], w, h) {
      if i <= n { assert s[i] == steps[i]; }
    }
    forall i | 0 <= i < n + 1 ensures SpawnStepAt(keys, s, i, w, h) {
      if i < n {
        assert SpawnStepAt(keys, steps, i, w, h);
        assert s[i] == steps[i] && s[i + 1] == steps[i + 1];
      }
    }
  }

  /** After the loop over increasing `keys`, only those keys own snakes and
      every snake is freshly spawned. */
  lemma {:induction false} SpawnPrefixKeys(keys: seq<int>, steps: seq<map<int, SnakeVal>>, n: int, w: int, h: int)
    requires Increasing(keys) && SpawnPrefix(keys, steps, n, w, h)
    ensures steps[n].Keys <= Elems(keys[..n]) && AllSpawned(steps[n])
    decreases n
  {
    if n == 0 {
      assert keys[..0] == [];
    } else {
      var m := n - 1;
      SpawnPrefixKeys(keys, steps, m, w, h);
      ElemsStep(keys, m);
      assert SpawnStepAt(keys, steps, m, w, h);
      SpawnStepSpec(steps[m], steps[n], keys[m], w, h);
    }
  }

  /** ... and each key owns a snake exactly when some tile qualified at its
      turn. */
  lemma {:induction false} SpawnPrefixOwners(keys: seq<int>, steps: seq<map<int, SnakeVal>>, n: int, w: int, h: int)
    requires Increasing(keys) && SpawnPrefix(keys, steps, n, w, h)
    ensures forall i :: 0 <= i < n ==> (keys[i] in steps[n] <==> Candidates(FreeCells(w, h, [], steps[i])) != [])
    decreases n
  {
    if n > 0 {
      var m := n - 1;
      SpawnPrefixOwners(keys, steps, m, w, h);
      SpawnPrefixKeys(keys, steps, m, w, h);
      ElemsStep(keys, m);
      var prev, cur := steps[m], steps[n];
      assert SpawnStepAt(keys, steps, m, w, h);
      SpawnStepSpec(prev, cur, keys[m], w, h);
      forall i | 0 <= i < n
        ensures keys[i] in cur <==> Candidates(FreeCells(w, h, [], steps[i])) != []
      {
        if i < m {
          assert keys[i] < keys[m];
        }
      }
    }
  }

  /** What the as-written retry loop of addNewSnake has done after the
      successive draws `picks`: an index into the empty list per iteration.
      The list never changes between draws. */
  datatype Placement = Placed(head: Coord) | NoRoom | StillDrawing

  predicate PicksIn(picks: seq<int>, n: int) {
    forall i :: 0 <= i < |picks| ==> 0 <= picks[i] < n
  }

  function RetryLoop(empty: seq<Coord>, picks: seq<int>): Placement
    requires PicksIn(picks, |empty|)
  {
    if empty == [] then NoRoom
    else if picks == [] then StillDrawing
    else if Suitable(empty[picks[0]], empty) then Placed(empty[picks[0]])
    else RetryLoop(empty, picks[1..])
  }

  /** When the as-written loop stops it has either found an empty list or
      placed the head on a candidate of the corrected spawn. */
  lemma {:induction false} RetryLoopSound(empty: seq<Coord>, picks: seq<int>)
    requires PicksIn(picks, |empty|)
    ensures RetryLoop(empty, picks) == NoRoom <==> empty == []
    ensures RetryLoop(empty, picks).Placed? ==> RetryLoop(empty, picks).head in Candidates(empty)
  {
    if empty != [] && picks != [] {
      CandidatesSpec(empty, empty);
      if !Suitable(empty[picks[0]], empty) {
        assert PicksIn(picks[1..], |empty|);
        RetryLoopSound(empty, picks[1..]);
      }
    }
  }

  /** With no suitable entry in a non-empty list, no sequence of draws ever
      ends the as-written loop. */
  lemma {:induction false} RetryLoopNeverEnds(empty: seq<Coord>, picks: seq<int>)
    requires empty != [] && PicksIn(picks, |empty|)
    requires forall k :: 0 <= k < |empty| ==> !Suitable(empty[k], empty)
    ensures RetryLoop(empty, picks) == StillDrawing
  {
    if picks != [] {
      assert PicksIn(picks[1..], |empty|);
      RetryLoopNeverEnds(empty, picks[1..]);
    }
  }

  /** On a 5 by 5 board only (2, 2) can be suitable. */
  lemma OnlyCentreSuitable(empty: seq<Coord>, w: int, h: int)
    requires w == 5 && h == 5 && (forall e :: e in empty ==> InGrid(e, w, h))
    requires Coord(2, 2) !in empty
    ensures forall k :: 0 <= k < |empty| ==> !Suitable(empty[k], empty)
  {
    forall k | 0 <= k < |empty| ensures !Suitable(empty[k], empty) {
      if Suitable(empty[k], empty) {
        SuitableInterior(empty[k], empty, Up, w, h);
        assert false;
      }
    }
  }

  /** With one freshly spawned snake and no food, the empty list is every
      other cell of the grid. */
  lemma FreeCellsOneSpawn(c: Coord, d: Direction, w: int, h: int)
    requires w > 0 && h > 0 && InGrid(c, w, h)
    ensures var vals := map[0 := Spawned(c, d)];
      Snakes(vals, w, h) &&
      forall x :: x in FreeCells(w, h, [], vals) <==> InGrid(x, w, h) && x != c && x != Step(c, Opposite(d), w, h)
  {
    var vals := map[0 := Spawned(c, d)];
    OccupiedOneSpawn(c, d, w, h);
    FreeCellsSpec(w, h, [], vals);
  }

  lemma OccupiedOneSpawn(c: Coord, d: Direction, w: int, h: int)
    requires w > 0 && h > 0 && InGrid(c, w, h)
    ensures var vals := map[0 := Spawned(c, d)];
      Snakes(vals, w, h) &&
      forall x :: x in Occupied(vals, w, h) <==> x == c || x == Step(c, Opposite(d), w, h)
  {
    SpawnedBody(c, d, w, h);
    OccupiedSingle(0, Spawned(c, d), w, h);
  }

  /** On a 5 by 5 board with one snake spawned at the only possible head
      (2, 2), registering a second player leaves 23 empty cells of which none
      is suitable: whatever it draws, the as-written retry loop never exits,
      while the corrected spawn finds no candidate and reports failure. */
  lemma RetryLoopStuck(w: int, h: int, d: Direction, picks: seq<int>)
    requires w == 5 && h == 5
    ensures var vals := map[0 := Spawned(Coord(2, 2), d)];
      && Snakes(vals, w, h)
      && (PicksIn(picks, |FreeCells(w, h, [], vals)|) ==> RetryLoop(FreeCells(w, h, [], vals), picks) == StillDrawing)
      && Candidates(FreeCells(w, h, [], vals)) == []
  {
    var c := Coord(2, 2);
    var vals := map[0 := Spawned(c, d)];
    FreeCellsOneSpawn(c, d, w, h);
    var empty := FreeCells(w, h, [], vals);
    assert Coord(0, 0) in empty by {
      assert Coord(0, 0) != Step(c, Opposite(d), w, h) by { OppositePairs(); }
    }
    assert forall k :: 0 <= k < |empty| ==> !Suitable(empty[k], empty) by {
      OnlyCentreSuitable(empty, w, h);
    }
    if PicksIn(picks, |empty|) {
      RetryLoopNeverEnds(empty, picks);
    }
    NoCandidates(empty);
  }

  /** A list with no suitable entry offers the corrected spawn nothing. */
  lemma NoCandidates(empty: seq<Coord>)
    requires forall k :: 0 <= k < |empty| ==> !Suitable(empty[k], empty)
    ensures Candidates(empty) == []
  {
    NoneSuitable(empty, empty);
  }

  lemma {:induction false} NoneSuitable(s: seq<Coord>, empty: seq<Coord>)
    requires forall c :: c in s ==> !Suitable(c, empty)
    ensures CandidatesAmong(s, empty) == []
  {
    if s != [] {
      NoneSuitable(s[1..], empty);
    }
  }

  /** The bodies a tick produces have the heads and states the bodies had
      right after moving, which is what the eating test sees. */
  lemma TickedAgreesWithMoved(vals: map<int, SnakeVal>, foods: seq<Coord>, w: int, h: int)
    requires Snakes(vals, w, h)
    ensures var m := AllMoved(vals, w, h);
      var t := TickedAll(vals, foods, w, h);
      m.Keys == t.Keys && forall id :: id in m ==> m[id].head == t[id].head && m[id].state == t[id].state
  {
    var m := AllMoved(vals, w, h);
    var t := TickedAll(vals, foods, w, h);
    forall id | id in m ensures m[id].head == t[id].head && m[id].state == t[id].state {
      var v := vals[id];
      MovedBody(v, w, h);
      TickedBody(v, EatCount(foods, Step(v.head, v.heading, w, h)), w, h);
    }
  }
}
