/** The mutable simulation objects: a Snake whose body is updated in place
    tick by tick, and the GameState that owns the snakes, the food list and
    the players and advances them one tick at a time. Every method is proved
    against the pure specifications of Bodies and World. */
module Game {
  import opened Directions
  import opened Coords
  import opened Waypoints
  import opened Bodies
  import opened Config
  import opened Players
  import opened World

  /** A snake: its head cell, the waypoint offsets behind it, its state and
      the heading used on the next tick. The grid size it wraps on is the
      game's configuration, copied into `width` and `height`. */
  class Snake {
    const playerId: int
    const width: int
    const height: int
    var head: Coord
    var waypoints: seq<Coord>
    var state: SnakeState
    var currentDirection: Direction

    function Val(): SnakeVal
      reads this
    {
      SnakeVal(head, waypoints, state, currentDirection)
    }

    ghost predicate Valid()
      reads this
    {
      WellFormed(Val(), width, height)
    }

    /** A new alive snake: the head and one tail cell behind it. */
    constructor (playerId: int, head: Coord, currentDirection: Direction, width: int, height: int)
      requires width > 0 && height > 0 && InGrid(head, width, height)
      ensures this.playerId == playerId && this.width == width && this.height == height
      ensures Val() == Spawned(head, currentDirection) && Valid()
    {
      this.playerId := playerId;
      this.width := width;
      this.height := height;
      this.head := head;
      this.waypoints := [Coord(-DX(currentDirection), -DY(currentDirection))];
      this.state := Alive;
      this.currentDirection := currentDirection;
      new;
      SpawnedBody(head, currentDirection, width, height);
    }

    /** Adopts `direction` unless it points into the neck. */
    method ChangeDirection(direction: Direction)
      requires Valid()
      modifies this
      ensures Val() == Steered(old(Val()), direction) && Valid()
    {
      var neck := DirOfRelative(waypoints[0]);
      if Id(neck) != Id(direction) {
        currentDirection := direction;
      }
      SteeringRule(old(Val()), direction, width, height);
    }

    method MoveHead()
      requires Valid()
      modifies this
      ensures Val() == Moved(old(Val()), width, height) && Valid()
      ensures Length(waypoints) == Length(old(waypoints)) + 1
    {
      ghost var v := Val();
      var keyPoint := waypoints[0];
      var lastDirection := DirOfRelative(keyPoint);
      assert lastDirection == Neck(v);
      if DX(currentDirection) == -DX(lastDirection) && DY(currentDirection) == -DY(lastDirection) {
        waypoints := [Coord(keyPoint.x + DX(lastDirection), keyPoint.y + DY(lastDirection))] + waypoints[1..];
        assert waypoints == [Extended(v.waypoints[0])] + v.waypoints[1..];
      } else {
        waypoints := [Coord(-DX(currentDirection), -DY(currentDirection))] + waypoints;
      }
      head := Step(head, currentDirection, width, height);
      assert Val() == Moved(v, width, height);
      MovedBody(v, width, height);
    }

    method GrowTail()
      requires Valid()
      modifies this
      ensures Val() == Grown(old(Val())) && Valid()
      ensures Length(waypoints) == Length(old(waypoints)) + 1
    {
      var n := |waypoints|;
      var tail := waypoints[n - 1];
      var relTail := DirOfRelative(tail);
      waypoints := waypoints[..n - 1] + [Coord(tail.x + DX(relTail), tail.y + DY(relTail))];
      GrownBody(old(Val()), width, height);
    }

    /** Needs two cells behind the head, as every snake has right after it
        moved. */
    method CutTail()
      requires Valid() && Length(waypoints) >= 2
      modifies this
      ensures Val() == Cut(old(Val())) && Valid()
      ensures Length(waypoints) == Length(old(waypoints)) - 1
    {
      var n := |waypoints|;
      var tail := waypoints[n - 1];
      var relTail := DirOfRelative(tail);
      if tail.x == DX(relTail) && tail.y == DY(relTail) {
        waypoints := waypoints[..n - 1];
      } else {
        waypoints := waypoints[..n - 1] + [Coord(tail.x - DX(relTail), tail.y - DY(relTail))];
      }
      CutBody(old(Val()), width, height);
    }

    /** Whether this snake's head lies on `snake`: on its head when the two
        are different objects, or on any cell its waypoints walk over. */
    method StumblesInto(snake: Snake) returns (r: bool)
      requires Valid() && snake.Valid() && snake.width == width && snake.height == height
      ensures r == Bodies.StumblesInto(Val(), snake.Val(), this != snake, width, height)
    {
      var h0 := head;
      if h0 == snake.head && this != snake {
        return true;
      }
      r := WalkHits(h0, snake.head, snake.waypoints, width, height);
    }

    /** Every cell the snake occupies, head first, walking its waypoints. */
    method OccupiedCells() returns (cells: seq<Coord>)
      requires Valid()
      ensures cells == Cells(Val(), width, height)
    {
      cells := [head];
      var cur := head;
      var i := 0;
      while i < |waypoints|
        invariant 0 <= i <= |waypoints|
        invariant AllWaypoints(waypoints[..i])
        invariant cells == [head] + Walk(head, waypoints[..i], width, height)
        invariant cur == WalkEnd(head, waypoints[..i], width, height)
      {
        ghost var before := cells;
        var seg, next := SegmentCells(cur, waypoints[i]);
        WalkSnocPrefix(head, waypoints, i, width, height);
        ConcatAssoc([head], Walk(head, waypoints[..i], width, height), seg);
        cells := cells + seg;
        cur := next;
        i := i + 1;
      }
      assert waypoints[..|waypoints|] == waypoints;
    }

    /** The inner loop of getEmptyTilesList: |x| + |y| wrapped steps from
        `start` in the waypoint's direction. */
    method SegmentCells(start: Coord, coord: Coord) returns (seg: seq<Coord>, cur: Coord)
      requires width > 0 && height > 0 && IsWaypoint(coord)
      ensures seg == Segment(start, DirOfRelative(coord), Magnitude(coord), width, height)
      ensures cur == SegmentEnd(start, DirOfRelative(coord), Magnitude(coord), width, height)
    {
      var countToIterate := Abs(coord.x) + Abs(coord.y);
      var nextDir := DirOfRelative(coord);
      ghost var k := Magnitude(coord);
      seg := [];
      cur := start;
      while countToIterate != 0
        invariant 0 <= countToIterate <= k
        invariant cur == SegmentEnd(start, nextDir, k - countToIterate, width, height)
        invariant seg == Segment(start, nextDir, k - countToIterate, width, height)
      {
        ghost var done := k - countToIterate;
        SegmentSnoc(start, nextDir, done, width, height);
        countToIterate := countToIterate - 1;
        cur := Step(cur, nextDir, width, height);
        seg := seg + [cur];
        assert k - countToIterate == done + 1;
      }
    }
  }

  /** The whole board: the snakes by owner id (iterated in ascending id
      order), the food list, the players by id, the configuration, the tick
      counter and the count of live snakes. The ghost maps `vals` and
      `scores` mirror the snakes' bodies and the players' scores. */
  class GameState {
    var stateId: int
    var snakes: map<int, Snake>
    var foods: seq<Coord>
    var players: map<int, PlayerInfo>
    const config: GameConfig
    var snakesAlive: int
    ghost var vals: map<int, SnakeVal>
    ghost var scores: map<int, int>

    /** Snake `s` is stored under its owner's id and walks this game's grid. */
    predicate Fits(s: Snake, id: int) {
      s.playerId == id && s.width == config.width && s.height == config.height
    }

    /** Every snake is stored under its owner's id, walks this game's grid
        and has the body `vals` records. Distinct keys therefore hold
        distinct snake objects. */
    ghost predicate Coupled()
      reads this, snakes.Values
    {
      && snakes.Keys == vals.Keys
      && forall id :: id in snakes ==> Fits(snakes[id], id) && snakes[id].Val() == vals[id]
    }

    /** Every player is stored under its own id with the score `scores`
        records. */
    ghost predicate Paid()
      reads this, players.Values
    {
      && players.Keys == scores.Keys
      && forall id :: id in players ==> players[id].id == id && players[id].score == scores[id] >= 0
    }

    /** The objects agree with the ghost maps, every snake is well formed,
        every snake has an owner, no score is negative and the live-snake
        counter counts the snakes. */
    ghost predicate Valid()
      reads this, snakes.Values, players.Values
    {
      && Coupled() && Paid()
      && Snakes(vals, config.width, config.height)
      && vals.Keys <= scores.Keys
      && snakesAlive == |snakes|
    }

    /** Replacing the body of one snake, and recording the new body in
        `vals`, keeps the snakes coupled when no other snake changed. */
    twostate lemma Recoupled(id: int)
      requires old(Coupled()) && id in snakes && snakes == old(snakes)
      requires forall o :: o in snakes && o != id ==> unchanged(snakes[o])
      requires vals == old(vals)[id := snakes[id].Val()]
      ensures Coupled()
    {
      forall o | o in snakes && o != id ensures snakes[o].Val() == vals[o] {
        assert old(snakes[o].Val()) == old(vals)[o];
      }
    }

    /** Replacing the body of one snake, and recording the new body in
        `vals`, keeps the state valid when nothing else changed. */
    twostate lemma Rebodied(id: int)
      requires old(Valid()) && id in snakes && snakes == old(snakes)
      requires players == old(players) && scores == old(scores) && snakesAlive == old(snakesAlive)
      requires forall o :: o in snakes && o != id ==> unchanged(snakes[o])
      requires forall p :: p in players ==> unchanged(players[p])
      requires vals == old(vals)[id := snakes[id].Val()] && snakes[id].Valid()
      ensures Valid()
    {
      Recoupled(id);
    }

    /** Changing the score of one player, and recording it in `scores`,
        keeps the players coupled when no other player changed. */
    twostate lemma Repaid(id: int)
      requires old(Paid()) && id in players && players == old(players)
      requires forall p :: p in players && p != id ==> unchanged(players[p])
      requires scores == old(scores)[id := players[id].score] && players[id].score >= 0
      ensures Paid()
    {
      forall p | p in players && p != id ensures players[p].score == scores[p] >= 0 {
        assert old(players[p].score) == old(scores)[p] >= 0;
      }
    }

    /** Changing the score of one player, and recording it in `scores`,
        keeps the state valid when nothing else changed. */
    twostate lemma Rescored(id: int)
      requires old(Valid()) && id in players && players == old(players)
      requires snakes == old(snakes) && vals == old(vals) && snakesAlive == old(snakesAlive)
      requires forall o :: o in snakes ==> unchanged(snakes[o])
      requires forall p :: p in players && p != id ==> unchanged(players[p])
      requires scores == old(scores)[id := players[id].score] && players[id].score >= 0
      ensures Valid()
    {
      Repaid(id);
    }

    /** One snake moves its head; no other snake changes. */
    method MoveOne(id: int)
      requires Valid() && id in snakes
      modifies this`vals, snakes[id]
      ensures Valid() && snakes == old(snakes)
      ensures vals == old(vals)[id := Moved(old(vals)[id], config.width, config.height)]
    {
      var snake := snakes[id];
      assert Fits(snake, id) && snake.Valid();
      snake.MoveHead();
      vals := vals[id := snake.Val()];
      forall o | o in snakes && o != id ensures unchanged(snakes[o]) {
        assert snakes[o].playerId == o;
      }
      Rebodied(id);
    }


    /** One snake grows its tail; no other snake changes. */
    method GrowOne(id: int)
      requires Valid() && id in snakes
      modifies this`vals, snakes[id]
      ensures Valid() && snakes == old(snakes)
      ensures vals == old(vals)[id := Grown(old(vals)[id])]
      ensures snakes[id].state == old(snakes[id].state)
    {
      var snake := snakes[id];
      assert Fits(snake, id) && snake.Valid();
      snake.GrowTail();
      vals := vals[id := snake.Val()];
      forall o | o in snakes && o != id ensures unchanged(snakes[o]) {
        assert snakes[o].playerId == o;
      }
      Rebodied(id);
    }

    /** One snake cuts its tail; no other snake changes. */
    method CutOne(id: int)
      requires Valid() && id in snakes && Length(vals[id].waypoints) >= 2
      modifies this`vals, snakes[id]
      ensures Valid() && snakes == old(snakes)
      ensures vals == old(vals)[id := Cut(old(vals)[id])]
    {
      var snake := snakes[id];
      assert Fits(snake, id) && snake.Valid();
      snake.CutTail();
      vals := vals[id := snake.Val()];
      forall o | o in snakes && o != id ensures unchanged(snakes[o]) {
        assert snakes[o].playerId == o;
      }
      Rebodied(id);
    }

    /** One player's score goes up by one; nothing else changes. */
    method CreditOne(id: int)
      requires Valid() && id in players
      modifies this`scores, {players[id]}`score
      ensures Valid() && snakes == old(snakes) && players == old(players) && vals == old(vals)
      ensures scores == Credit(old(scores), id, true)
    {
      var player := players[id];
      player.IncrementScore();
      scores := scores[id := player.score];
      forall p | p in players && p != id ensures unchanged(players[p]) {
        assert players[p].id == p;
      }
      Rescored(id);
    }

    /** A snake whose head is on the food grows, and its owner scores when
        the snake is alive. */
    method FeedOne(id: int)
      requires Valid() && id in snakes
      modifies this`vals, this`scores, snakes[id], {players[id]}`score
      ensures Valid() && snakes == old(snakes) && players == old(players)
      ensures vals == old(vals)[id := Grown(old(vals)[id])]
      ensures scores == Credit(old(scores), id, IsAlive(old(vals), id))
    {
      var snake := snakes[id];
      assert Fits(snake, id) && snake.Val() == vals[id];
      GrowOne(id);
      if snake.state == Alive {
        CreditOne(id);
      }
    }

    /** The body of the removeIf test for one snake: a snake whose head is
        on `food` grows, and its owner scores when the snake is alive. */
    method EatOne(id: int, food: Coord) returns (ate: bool)
      requires Valid() && id in snakes
      modifies this`vals, this`scores, snakes[id], {players[id]}`score
      ensures Valid() && snakes == old(snakes) && players == old(players)
      ensures ate <==> old(vals)[id].head == food
      ensures vals == old(vals)[id := GrownTimes(old(vals)[id], EatCount([food], old(vals)[id].head))]
      ensures scores == Credit(old(scores), id, IsAlive(old(vals), id) && old(vals)[id].head == food)
    {
      var snake := snakes[id];
      assert Fits(snake, id) && snake.Val() == vals[id];
      FeedOnce(vals[id], food);
      if food == snake.head {
        FeedOne(id);
        ate := true;
      } else {
        assert vals[id := vals[id]] == vals;
        ate := false;
      }
    }

    /** The move loop reaches `keys[i]`, after the snakes before it. */
    method MoveStep(keys: seq<int>, i: int, ghost v0: map<int, SnakeVal>)
      requires Valid() && KeysIn(keys, v0) && Distinct(keys) && 0 <= i < |keys| && keys[i] in snakes
      requires Snakes(v0, config.width, config.height)
      requires vals == Visit(MovePhase, v0, keys, i, config.width, config.height)
      modifies this`vals, snakes[keys[i]]
      ensures Valid() && snakes == old(snakes)
      ensures vals == Visit(MovePhase, v0, keys, i + 1, config.width, config.height)
    {
      var id := keys[i];
      VisitNext(MovePhase, v0, keys, i, config.width, config.height);
      assert Apply(MovePhase, v0[id], config.width, config.height) == Moved(v0[id], config.width, config.height);
      MoveOne(id);
    }

    /** changeState's first loop: every snake moves its head. */
    method MoveSnakes(keys: seq<int>)
      requires Valid() && Increasing(keys) && Elems(keys) == snakes.Keys
      modifies this`vals, snakes.Values
      ensures Valid() && snakes == old(snakes) && players == old(players)
      ensures foods == old(foods) && scores == old(scores)
      ensures vals == AllMoved(old(vals), config.width, config.height)
    {
      ghost var v0 := vals;
      Enumerates(keys, vals);
      var i := 0;
      while i < |keys|
        invariant 0 <= i <= |keys|
        invariant Valid() && snakes == old(snakes)
        invariant vals == Visit(MovePhase, v0, keys, i, config.width, config.height)
      {
        MoveStep(keys, i, v0);
        i := i + 1;
      }
      assert i == |keys|;
      EnumeratesAll(keys, v0);
      MovedEveryone(v0, keys, config.width, config.height);
    }


    /** The removeIf test for `food` has visited the first `j` snakes of
        `keys`, starting from bodies `v0` and scores `s0`: those snakes have
        been fed, their owners credited, and `found` says whether one of
        their heads is on the food. */
    ghost predicate Eating(food: Coord, keys: seq<int>, j: int, found: bool, v0: map<int, SnakeVal>, s0: map<int, int>)
      reads this
    {
      && KeysIn(keys, v0) && 0 <= j <= |keys|
      && vals == Visit(FeedPhase([food]), v0, keys, j, config.width, config.height)
      && scores == Earned(s0, v0, food, keys, j)
      && found == SomeHeadOn(v0, keys, j, food)
    }

    /** The removeIf test for `food` reaches `keys[j]`, after the snakes
        before it. */
    method EatStep(food: Coord, keys: seq<int>, j: int, seen: bool, ghost v0: map<int, SnakeVal>, ghost s0: map<int, int>)
      returns (found: bool)
      requires Valid() && Distinct(keys) && j < |keys| && Snakes(v0, config.width, config.height)
      requires Eating(food, keys, j, seen, v0, s0)
      modifies this`vals, this`scores, snakes.Values, players.Values`score
      ensures Valid() && snakes == old(snakes) && players == old(players)
      ensures Eating(food, keys, j + 1, found, v0, s0)
    {
      var id := keys[j];
      VisitNext(FeedPhase([food]), v0, keys, j, config.width, config.height);
      assert Apply(FeedPhase([food]), v0[id], config.width, config.height)
          == GrownTimes(v0[id], EatCount([food], v0[id].head));
      assert IsAlive(vals, id) == IsAlive(v0, id) && vals[id].head == v0[id].head;
      var ate := EatOne(id, food);
      found := seen || ate;
    }

    /** The removeIf test for `food` visits the snakes of `keys` in order. */
    method EatAll(food: Coord, keys: seq<int>) returns (toDelete: bool)
      requires Valid() && Increasing(keys) && Elems(keys) == snakes.Keys
      modifies this`vals, this`scores, snakes.Values, players.Values`score
      ensures Valid() && snakes == old(snakes) && players == old(players)
      ensures toDelete == SomeHeadOn(old(vals), keys, |keys|, food)
      ensures vals == Visit(FeedPhase([food]), old(vals), keys, |keys|, config.width, config.height)
      ensures scores == Earned(old(scores), old(vals), food, keys, |keys|)
    {
      ghost var v0, s0 := vals, scores;
      Enumerates(keys, vals);
      toDelete := false;
      var j := 0;
      while j < |keys|
        invariant Valid() && snakes == old(snakes) && players == old(players)
        invariant 0 <= j <= |keys|
        invariant Eating(food, keys, j, toDelete, v0, s0)
      {
        toDelete := EatStep(food, keys, j, toDelete, v0, s0);
        j := j + 1;
      }
      assert j == |keys|;
    }

    /** The removeIf test for one food entry: every snake whose head is on
        it grows once and its owner scores when the snake is alive; the entry
        goes exactly when some head is on it. */
    method FoodEaten(food: Coord, keys: seq<int>) returns (toDelete: bool)
      requires Valid() && Increasing(keys) && Elems(keys) == snakes.Keys
      modifies this`vals, this`scores, snakes.Values, players.Values`score
      ensures Valid() && snakes == old(snakes) && players == old(players)
      ensures toDelete <==> food in Heads(old(vals))
      ensures vals == AllFed(old(vals), [food], config.width, config.height)
      ensures scores == ScoresAfterEating(old(scores), [food], old(vals))
    {
      Enumerates(keys, vals);
      EnumeratesAll(keys, vals);
      ghost var v0, s0 := vals, scores;
      toDelete := EatAll(food, keys);
      FedEveryone(v0, [food], keys, config.width, config.height);
      EarnedEveryone(s0, v0, food, keys);
      SomeHeadOnEveryone(v0, keys, food);
    }

    /** changeState's removeIf reaches food entry `k`, after those before
        it; `kept` holds the entries that were not eaten. */
    method FeedStep(keys: seq<int>, f0: seq<Coord>, k: int, kept: seq<Coord>, ghost v0: map<int, SnakeVal>, ghost s0: map<int, int>)
      returns (kept': seq<Coord>)
      requires Valid() && Increasing(keys) && Elems(keys) == snakes.Keys && 0 <= k < |f0|
      requires Snakes(v0, config.width, config.height)
      requires vals == AllFed(v0, f0[..k], config.width, config.height)
      requires scores == ScoresAfterEating(s0, f0[..k], v0)
      requires kept == Uneaten(f0[..k], Heads(v0))
      modifies this`vals, this`scores, snakes.Values, players.Values`score
      ensures Valid() && snakes == old(snakes) && players == old(players)
      ensures vals == AllFed(v0, f0[..k + 1], config.width, config.height)
      ensures scores == ScoresAfterEating(s0, f0[..k + 1], v0)
      ensures kept' == Uneaten(f0[..k + 1], Heads(v0))
    {
      FeedNext(v0, f0, k, s0, config.width, config.height);
      var toDelete := FoodEaten(f0[k], keys);
      kept' := if toDelete then kept else kept + [f0[k]];
    }

    /** changeState's removeIf: each food entry is tested in list order and
        the eaten ones are dropped. */
    method FeedSnakes(keys: seq<int>)
      requires Valid() && Increasing(keys) && Elems(keys) == snakes.Keys
      modifies this`vals, this`scores, this`foods, snakes.Values, players.Values`score
      ensures Valid() && snakes == old(snakes) && players == old(players)
      ensures vals == AllFed(old(vals), old(foods), config.width, config.height)
      ensures foods == Uneaten(old(foods), Heads(old(vals)))
      ensures scores == ScoresAfterEating(old(scores), old(foods), old(vals))
    {
      ghost var v0 := vals;
      ghost var s0 := scores;
      var f0 := foods;
      var kept: seq<Coord> := [];
      var k := 0;
      assert f0[..0] == [];
      while k < |f0|
        invariant 0 <= k <= |f0|
        invariant Valid() && snakes == old(snakes) && players == old(players)
        invariant vals == AllFed(v0, f0[..k], config.width, config.height)
        invariant scores == ScoresAfterEating(s0, f0[..k], v0)
        invariant kept == Uneaten(f0[..k], Heads(v0))
      {
        kept := FeedStep(keys, f0, k, kept, v0, s0);
        k := k + 1;
      }
      assert f0[..|f0|] == f0;
      SetFoods(kept);
    }

    /** Replaces the food list; nothing else changes. */
    method SetFoods(kept: seq<Coord>)
      requires Valid()
      modifies this`foods
      ensures Valid() && foods == kept
      ensures snakes == old(snakes) && players == old(players) && vals == old(vals) && scores == old(scores)
    {
      foods := kept;
    }

    /** The cut loop has visited the first `i` snakes of `keys`, starting
        from bodies `v0` in which every snake has at least two cells: those
        snakes have cut their tails. */
    ghost predicate Cutting(keys: seq<int>, i: int, v0: map<int, SnakeVal>)
      reads this
    {
      && KeysIn(keys, v0) && Distinct(keys) && 0 <= i <= |keys|
      && Snakes(v0, config.width, config.height) && LongEnough(v0)
      && vals == Visit(CutPhase, v0, keys, i, config.width, config.height)
    }

    /** The cut loop reaches `keys[i]`, after the snakes before it. */
    method CutStep(keys: seq<int>, i: int, ghost v0: map<int, SnakeVal>)
      requires Valid() && i < |keys| && Cutting(keys, i, v0) && keys[i] in snakes
      modifies this`vals, snakes[keys[i]]
      ensures Valid() && snakes == old(snakes)
      ensures Cutting(keys, i + 1, v0)
    {
      var id := keys[i];
      VisitNext(CutPhase, v0, keys, i, config.width, config.height);
      assert Apply(CutPhase, v0[id], config.width, config.height) == Cut(v0[id]);
      assert Length(vals[id].waypoints) >= 2;
      CutOne(id);
    }

    /** changeState's third loop: every snake cuts its tail. */
    method CutSnakes(keys: seq<int>)
      requires Valid() && Increasing(keys) && Elems(keys) == snakes.Keys
      requires LongEnough(vals)
      modifies this`vals, snakes.Values
      ensures Valid() && snakes == old(snakes) && players == old(players)
      ensures foods == old(foods) && scores == old(scores)
      ensures vals == AllCut(old(vals), config.width, config.height)
    {
      ghost var v0 := vals;
      Enumerates(keys, vals);
      var i := 0;
      while i < |keys|
        invariant Valid() && snakes == old(snakes)
        invariant Cutting(keys, i, v0)
      {
        assert keys[i] in Elems(keys);
        CutStep(keys, i, v0);
        i := i + 1;
      }
      assert i == |keys|;
      CutAllKeys(v0, keys, config.width, config.height);
    }

    /** changeState's three per-snake loops: every snake moves, grows once
        per food entry under its new head (its owner scoring while it is
        alive), and cuts its tail. The result is one tick of every body. */
    method AdvanceBodies(keys: seq<int>)
      requires Valid() && Increasing(keys) && Elems(keys) == snakes.Keys
      modifies this`vals, this`scores, this`foods, snakes.Values, players.Values`score
      ensures Valid() && snakes == old(snakes) && players == old(players)
      ensures vals == TickedAll(old(vals), old(foods), config.width, config.height)
      ensures foods == Uneaten(old(foods), Heads(AllMoved(old(vals), config.width, config.height)))
      ensures scores == ScoresAfterEating(old(scores), old(foods), vals)
    {
      ghost var v0, f0, s0 := vals, foods, scores;
      MoveSnakes(keys);
      ghost var m := vals;
      AllMovedSnakes(v0, config.width, config.height);
      FeedSnakes(keys);
      AllFedSnakes(m, f0, config.width, config.height);
      CutSnakes(keys);
      TickPhases(v0, f0, config.width, config.height);
      TickedAgreesWithMoved(v0, f0, config.width, config.height);
      EatingScoresAgree(s0, f0, m, vals);
    }

    /** changeState: one tick. When no snake survives it a new round
        starts; otherwise the food is topped up on the board the tick left.
        The dead snakes' food and the scores are those of the tick in both
        cases, except that a new round clears the food first. */
    method ChangeState() returns (ok: bool, ghost lucks: seq<seq<real>>, ghost steps: seq<map<int, SnakeVal>>)
      requires Valid()
      modifies this`stateId, this`snakes, this`vals, this`foods, this`scores, this`snakesAlive
      modifies snakes.Values, players.Values`score
      ensures Valid() && players == old(players)
      ensures var w, h := config.width, config.height;
        && LuckFor(TickVictims(old(vals), old(foods), w, h), TickedAll(old(vals), old(foods), w, h), lucks, w, h)
        && scores == ScoresAfterTick(old(scores), old(vals), old(foods), w, h)
      ensures var w, h := config.width, config.height;
        var survivors := TickSurvivors(old(vals), old(foods), w, h);
        survivors != map[] ==>
          var left := TickLeftovers(old(vals), old(foods), lucks, config.deadFoodProb, w, h);
          var need := FoodTarget(config, snakesAlive) - |left|;
          var free := FreeCells(w, h, left, survivors);
          && stateId == old(stateId) + 1 && vals == survivors
          && TopUp(left, foods, free, need) && (ok <==> need <= |free|)
      ensures var w, h := config.width, config.height;
        TickSurvivors(old(vals), old(foods), w, h) == map[] ==>
          var keys := SortedKeys(players.Keys);
          var need := FoodTarget(config, snakesAlive);
          var free := FreeCells(w, h, [], vals);
          && stateId == 0
          && |steps| == |keys| + 1 && SpawnPrefix(keys, steps, |keys|, w, h) && vals == steps[|keys|]
          && TopUp([], foods, free, need) && (ok <==> need <= |free|)
    {
      lucks := Tick();
      if snakes == map[] {
        ok, steps := StartNewGame();
      } else {
        steps := [];
        ok := AddNeededFood();
      }
    }

    /** The tick of changeState up to the empty-board test: the counter goes
        up, the bodies move, eat and are cut, the snakes that run into some
        snake are marked in ascending id order and credited to the first
        snake each hits, and the marked snakes turn into food, lose their
        owner's score while alive and leave the board. */
    method Tick() returns (ghost lucks: seq<seq<real>>)
      requires Valid()
      modifies this`stateId, this`snakes, this`vals, this`foods, this`scores, this`snakesAlive
      modifies snakes.Values, players.Values`score
      ensures Valid() && players == old(players) && stateId == old(stateId) + 1
      ensures var w, h := config.width, config.height;
        && LuckFor(TickVictims(old(vals), old(foods), w, h), TickedAll(old(vals), old(foods), w, h), lucks, w, h)
        && vals == TickSurvivors(old(vals), old(foods), w, h)
        && foods == TickLeftovers(old(vals), old(foods), lucks, config.deadFoodProb, w, h)
        && scores == ScoresAfterTick(old(scores), old(vals), old(foods), w, h)
    {
      ghost var w, h := config.width, config.height;
      ghost var v0, f0 := vals, foods;
      var next := stateId + 1;
      var keys := AscendingKeys(snakes.Keys);
      assert keys == SortedKeys(v0.Keys);
      AdvanceBodies(keys);
      lucks := Collide(keys);
      // No phase of the tick reads the counter, so storing the raised value
      // last is the same as raising it first.
      SetStateId(next);
    }

    /** The collision and deletion loops of changeState over the snakes in
        ascending id order `keys`. */
    method Collide(keys: seq<int>) returns (ghost lucks: seq<seq<real>>)
      requires Valid() && Increasing(keys) && Elems(keys) == snakes.Keys
      modifies this`snakes, this`vals, this`foods, this`scores, this`snakesAlive, players.Values`score
      ensures Valid() && players == old(players)
      ensures var w, h := config.width, config.height;
        var pairs := Collisions(keys, keys, old(vals), w, h);
        var victims := Victims(pairs);
        && LuckFor(victims, old(vals), lucks, w, h)
        && vals == Survivors(old(vals), victims)
        && foods == old(foods) + DeadFoods(victims, old(vals), lucks, config.deadFoodProb, w, h)
        && scores == ScoresAfterRemoval(ScoresAfterCredit(old(scores), pairs, old(vals)), victims, old(vals))
    {
      var toDelete := FindCollisions(keys);
      CollisionsDistinct(keys, keys, vals, config.width, config.height);
      lucks := RemoveDead(toDelete);
    }

    /** Sets the tick counter; nothing else changes. */
    method SetStateId(n: int)
      requires Valid()
      modifies this`stateId
      ensures Valid() && stateId == n
      ensures snakes == old(snakes) && players == old(players) && vals == old(vals)
      ensures foods == old(foods) && scores == old(scores) && snakesAlive == old(snakesAlive)
    {
      stateId := n;
    }

    /** One test of the collision loops: whether `keys[i]` runs into
        `keys[j]`. The first hit marks it and credits the hit snake's owner
        while that snake is alive. */
    method CollideStep(keys: seq<int>, i: int, j: int, marked: seq<int>, ghost s0: map<int, int>)
      returns (toDelete: seq<int>)
      requires Valid() && Distinct(keys) && i < |keys| && j < |keys|
      requires Trying(keys, i, j, marked, s0, vals, scores, config.width, config.height)
      modifies this`scores, players.Values`score
      ensures Valid() && snakes == old(snakes) && players == old(players) && vals == old(vals)
      ensures Trying(keys, i, j + 1, toDelete, s0, vals, scores, config.width, config.height)
    {
      var a, b := keys[i], keys[j];
      var snake1, snake2 := snakes[a], snakes[b];
      assert Fits(snake1, a) && Fits(snake2, b) && snake1.Val() == vals[a] && snake2.Val() == vals[b];
      assert snake1.Valid() && snake2.Valid();
      assert (snake1 != snake2) == (a != b);
      var hit := snake1.StumblesInto(snake2);
      var alive := snake2.state == Alive;
      TryNext(keys, i, j, marked, s0, vals, scores, hit, config.width, config.height);
      toDelete := marked;
      if hit && a !in toDelete {
        toDelete := toDelete + [a];
        if alive {
          CreditOne(b);
        }
      }
    }

    /** The inner collision loop for `keys[i]`. */
    method CollideOne(keys: seq<int>, i: int, marked: seq<int>, ghost s0: map<int, int>)
      returns (toDelete: seq<int>)
      requires Valid() && Distinct(keys) && i < |keys|
      requires Colliding(keys, i, marked, s0, vals, scores, config.width, config.height)
      modifies this`scores, players.Values`score
      ensures Valid() && snakes == old(snakes) && players == old(players) && vals == old(vals)
      ensures Colliding(keys, i + 1, toDelete, s0, vals, scores, config.width, config.height)
    {
      toDelete := marked;
      TryFirst(keys, i, marked, s0, vals, scores, config.width, config.height);
      var j := 0;
      while j < |keys|
        invariant 0 <= j <= |keys|
        invariant Valid() && snakes == old(snakes) && players == old(players) && vals == old(vals)
        invariant Trying(keys, i, j, toDelete, s0, vals, scores, config.width, config.height)
      {
        toDelete := CollideStep(keys, i, j, toDelete, s0);
        j := j + 1;
      }
      assert j == |keys|;
      TryLast(keys, i, toDelete, s0, vals, scores, config.width, config.height);
    }

    /** changeState's collision loops: every snake, in ascending order, is
        tested against every snake, itself included; each one that runs into
        something is marked once, and the first snake it runs into earns its
        owner a point while that snake is alive. */
    method FindCollisions(keys: seq<int>) returns (toDelete: seq<int>)
      requires Valid() && Increasing(keys) && Elems(keys) == snakes.Keys
      modifies this`scores, players.Values`score
      ensures foods == old(foods)
      ensures Valid() && snakes == old(snakes) && players == old(players) && vals == old(vals)
      ensures KeysIn(keys, vals) && Distinct(keys)
      ensures toDelete == Victims(Collisions(keys, keys, vals, config.width, config.height))
      ensures scores == ScoresAfterCredit(old(scores), Collisions(keys, keys, vals, config.width, config.height), vals)
    {
      Enumerates(keys, vals);
      ghost var s0 := scores;
      toDelete := CollideAll(keys);
      CollidingLast(keys, toDelete, s0, vals, scores, config.width, config.height);
    }

    /** The outer loop of the collision pass over `keys`. */
    method CollideAll(keys: seq<int>) returns (toDelete: seq<int>)
      requires Valid() && Distinct(keys) && KeysIn(keys, vals)
      modifies this`scores, players.Values`score
      ensures foods == old(foods)
      ensures Valid() && snakes == old(snakes) && players == old(players) && vals == old(vals)
      ensures Colliding(keys, |keys|, toDelete, old(scores), vals, scores, config.width, config.height)
    {
      ghost var s0 := scores;
      toDelete := [];
      CollidingFirst(keys, s0, vals, config.width, config.height);
      var i := 0;
      while i < |keys|
        invariant 0 <= i <= |keys|
        invariant Valid() && snakes == old(snakes) && players == old(players) && vals == old(vals)
        invariant Colliding(keys, i, toDelete, s0, vals, scores, config.width, config.height)
      {
        toDelete := CollideOne(keys, i, toDelete, s0);
        i := i + 1;
      }
    }

    /** One player's score drops to zero; nothing else changes. */
    method NullifyOne(id: int)
      requires Valid() && id in players
      modifies this`scores, {players[id]}`score
      ensures Valid() && snakes == old(snakes) && players == old(players)
      ensures vals == old(vals) && foods == old(foods)
      ensures scores == Reset(old(scores), id, true)
    {
      var player := players[id];
      player.NullifyScore();
      scores := scores[id := player.score];
      forall p | p in players && p != id ensures unchanged(players[p]) {
        assert players[p].id == p;
      }
      Rescored(id);
    }

    /** turnIntoFood: one draw per cell of the snake, head first along its
        wrapped walk; each cell whose draw falls below deadFoodProb is
        appended to the food list. */
    method TurnIntoFood(id: int) returns (ghost luck: seq<real>)
      requires Valid() && id in snakes
      modifies this`foods
      ensures Valid() && snakes == old(snakes) && players == old(players)
      ensures vals == old(vals) && scores == old(scores)
      ensures |luck| == |Cells(vals[id], config.width, config.height)| && Draws(luck)
      ensures foods == old(foods) + DeadFood(Cells(vals[id], config.width, config.height), luck, config.deadFoodProb)
    {
      var snake := snakes[id];
      assert Fits(snake, id) && snake.Val() == vals[id];
      assert snake.Valid();
      var cells := snake.OccupiedCells();
      var dropped;
      dropped, luck := DropFood(cells, config.deadFoodProb);
      SetFoods(foods + dropped);
    }

    /** Takes snake `id` off the board and off the live-snake counter. */
    method RemoveSnake(id: int)
      requires Valid() && id in snakes
      modifies this`snakes, this`vals, this`snakesAlive
      ensures Valid() && snakes == old(snakes) - {id} && vals == old(vals) - {id}
      ensures players == old(players) && foods == old(foods) && scores == old(scores)
    {
      snakes := snakes - {id};
      vals := vals - {id};
      snakesAlive := snakesAlive - 1;
      Dropped(id);
    }

    /** Removing one snake from both maps and from the counter keeps the
        state valid. */
    twostate lemma Dropped(id: int)
      requires old(Valid()) && id in old(snakes)
      requires snakes == old(snakes) - {id} && vals == old(vals) - {id} && snakesAlive == old(snakesAlive) - 1
      requires players == old(players) && scores == old(scores)
      requires forall o :: o in old(snakes) ==> unchanged(old(snakes)[o])
      requires forall p :: p in players ==> unchanged(players[p])
      ensures Valid()
    {
      assert |snakes| == |old(snakes)| - 1;
    }

    /** The deletion loop reaches `toDelete[k]`: the snake turns into food,
        its owner's score is reset while it is alive, and it is removed. */
    method RemoveStep(toDelete: seq<int>, k: int, ghost lucks: seq<seq<real>>, ghost v0: map<int, SnakeVal>, ghost f0: seq<Coord>, ghost s0: map<int, int>)
      returns (ghost lucks': seq<seq<real>>)
      requires Valid() && Distinct(toDelete) && KeysIn(toDelete, v0) && k < |toDelete|
      requires Removing(toDelete, k, lucks, v0, f0, s0, vals, foods, scores, config.deadFoodProb, config.width, config.height)
      modifies this`snakes, this`vals, this`foods, this`scores, this`snakesAlive, players.Values`score
      ensures Valid() && players == old(players) && snakes == old(snakes) - {toDelete[k]}
      ensures Removing(toDelete, k + 1, lucks', v0, f0, s0, vals, foods, scores, config.deadFoodProb, config.width, config.height)
    {
      var id := toDelete[k];
      RemovingHas(toDelete, k, lucks, v0, f0, s0, vals, foods, scores, config.deadFoodProb, config.width, config.height);
      var snake := snakes[id];
      assert Fits(snake, id) && snake.Val() == v0[id];
      var alive := snake.state == Alive;
      ghost var luck := TurnIntoFood(id);
      if alive {
        NullifyOne(id);
      }
      RemoveSnake(id);
      RemovingNext(toDelete, k, lucks, v0, f0, s0, old(vals), old(foods), old(scores), luck, config.deadFoodProb, config.width, config.height);
      lucks' := lucks + [luck];
    }

    /** changeState's deletion loop: each marked snake, in marking order,
        turns into food, resets its owner's score while it is alive and leaves
        the board and the live-snake counter. */
    method RemoveDead(toDelete: seq<int>) returns (ghost lucks: seq<seq<real>>)
      requires Valid() && Distinct(toDelete) && KeysIn(toDelete, vals)
      modifies this`snakes, this`vals, this`foods, this`scores, this`snakesAlive, players.Values`score
      ensures Valid() && players == old(players)
      ensures forall id :: id in snakes ==> id in old(snakes) && snakes[id] == old(snakes)[id]
      ensures LuckFor(toDelete, old(vals), lucks, config.width, config.height)
      ensures vals == Survivors(old(vals), toDelete)
      ensures foods == old(foods) + DeadFoods(toDelete, old(vals), lucks, config.deadFoodProb, config.width, config.height)
      ensures scores == ScoresAfterRemoval(old(scores), toDelete, old(vals))
    {
      ghost var v0, f0, s0 := vals, foods, scores;
      lucks := [];
      RemovingFirst(toDelete, v0, f0, s0, config.deadFoodProb, config.width, config.height);
      var k := 0;
      while k < |toDelete|
        invariant 0 <= k <= |toDelete|
        invariant Valid() && players == old(players)
        invariant forall id :: id in snakes ==> id in old(snakes) && snakes[id] == old(snakes)[id]
        invariant Removing(toDelete, k, lucks, v0, f0, s0, vals, foods, scores, config.deadFoodProb, config.width, config.height)
      {
        lucks := RemoveStep(toDelete, k, lucks, v0, f0, s0);
        k := k + 1;
      }
      assert k == |toDelete|;
      RemovingLast(toDelete, lucks, v0, f0, s0, vals, foods, scores, config.deadFoodProb, config.width, config.height);
    }

    /** getEmptyTilesList: the grid in column order, less one entry per food
        entry and per cell some snake occupies. */
    method GetEmptyTilesList() returns (emptyList: seq<Coord>)
      requires Valid()
      ensures emptyList == FreeCells(config.width, config.height, foods, vals)
    {
      var w, h := config.width, config.height;
      ghost var grid := GridOrder(w, h);
      GridOrderSpec(w, h);
      WithoutNothing(grid);
      emptyList := GridList(w, h);
      emptyList := RemoveEach(emptyList, foods, grid, {});
      BlockedEnds(foods, vals, w, h);
      var keys := AscendingKeys(snakes.Keys);
      Enumerates(keys, vals);
      assert keys[..0] == [];
      ElemsEmpty(keys[..0]);
      var i := 0;
      while i < |keys|
        invariant 0 <= i <= |keys|
        invariant emptyList == Without(grid, Blocked(foods, vals, Elems(keys[..i]), w, h))
      {
        var id := keys[i];
        var snake := snakes[id];
        assert Fits(snake, id) && snake.Val() == vals[id];
        assert snake.Valid();
        var cells := snake.OccupiedCells();
        ghost var ids := Elems(keys[..i]);
        ElemsStep(keys, i);
        BlockedAdd(foods, vals, ids, id, w, h);
        emptyList := RemoveEach(emptyList, cells, grid, Blocked(foods, vals, ids, w, h));
        i := i + 1;
      }
      assert i == |keys| && keys[..i] == keys;
    }

    /** addNewSnake, with the placement corrected: the head is drawn among
        the empty tiles whose whole 5 by 5 square is empty and the heading
        among the four directions; when no tile qualifies nothing changes and
        the result is false. */
    method AddNewSnake(playerId: int) returns (ok: bool)
      requires Valid() && playerId in players && playerId !in snakes
      modifies this`snakes, this`vals, this`snakesAlive
      ensures Valid() && players == old(players) && foods == old(foods) && scores == old(scores) && stateId == old(stateId)
      ensures ok <==> Candidates(FreeCells(config.width, config.height, foods, old(vals))) != []
      ensures !ok ==> snakes == old(snakes) && vals == old(vals)
      ensures ok ==> && playerId in vals && vals == old(vals)[playerId := vals[playerId]]
                     && vals[playerId] == Spawned(vals[playerId].head, vals[playerId].heading)
                     && vals[playerId].head in Candidates(FreeCells(config.width, config.height, foods, old(vals)))
                     && forall c :: c in Cells(vals[playerId], config.width, config.height) ==>
                          c in FreeCells(config.width, config.height, foods, old(vals))
      ensures ok ==> snakes == old(snakes)[playerId := snakes[playerId]] && fresh(snakes[playerId])
    {
      var emptyList := GetEmptyTilesList();
      var cands := SuitableCells(emptyList);
      if cands == [] {
        return false;
      }
      var k :| 0 <= k < |cands|;
      var nextCoord := cands[k];
      var di :| 0 <= di < |VALUES|;
      var d := VALUES[di];
      FreeCellsSpec(config.width, config.height, foods, vals);
      SpawnFree(emptyList, nextCoord, d, config.width, config.height);
      PlaceSnake(playerId, nextCoord, d);
      ok := true;
    }

    /** A new snake for `playerId`, spawned at `c` heading `d`, joins the
        board and the live-snake counter. */
    method PlaceSnake(playerId: int, c: Coord, d: Direction)
      requires Valid() && playerId in players && playerId !in snakes && InGrid(c, config.width, config.height)
      modifies this`snakes, this`vals, this`snakesAlive
      ensures Valid() && players == old(players) && foods == old(foods) && scores == old(scores) && stateId == old(stateId)
      ensures vals == old(vals)[playerId := Spawned(c, d)]
      ensures snakes == old(snakes)[playerId := snakes[playerId]] && fresh(snakes[playerId])
    {
      SpawnedBody(c, d, config.width, config.height);
      var snake := new Snake(playerId, c, d, config.width, config.height);
      snakes := snakes[playerId := snake];
      vals := vals[playerId := snake.Val()];
      snakesAlive := snakesAlive + 1;
      Added(playerId);
    }

    /** Adding a fresh, well-formed snake under a new key, recorded in `vals`
        and counted, keeps the state valid. */
    twostate lemma Added(id: int)
      requires old(Valid()) && id !in old(snakes) && id in players
      requires id in snakes && snakes == old(snakes)[id := snakes[id]] && fresh(snakes[id]) && Fits(snakes[id], id)
      requires vals == old(vals)[id := snakes[id].Val()] && WellFormed(vals[id], config.width, config.height)
      requires snakesAlive == old(snakesAlive) + 1
      requires players == old(players) && scores == old(scores)
      requires forall o :: o in old(snakes) ==> unchanged(old(snakes)[o])
      requires forall p :: p in players ==> unchanged(players[p])
      ensures Valid()
    {
      assert |snakes| == |old(snakes)| + 1;
      forall o | o in old(snakes) ensures snakes[o].Val() == vals[o] {
        assert old(snakes[o].Val()) == old(vals)[o];
      }
    }

    /** The starting state: the master is the only player, gets a snake
        where a tile of the empty board qualifies, and the food is topped up. */
    constructor (config: GameConfig, master: PlayerInfo)
      requires config.width > 0 && config.height > 0 && master.Valid()
      ensures Valid() && this.config == config && stateId == 0
      ensures players == map[master.id := master] && scores == map[master.id := master.score]
      ensures vals.Keys <= {master.id} && AllSpawned(vals)
      ensures master.id in vals <==> Candidates(FreeCells(config.width, config.height, [], map[])) != []
      ensures master.id in vals ==> vals[master.id].head in Candidates(FreeCells(config.width, config.height, [], map[]))
      ensures TopUp([], foods, FreeCells(config.width, config.height, [], vals), FoodTarget(config, snakesAlive))
    {
      stateId := 0;
      this.config := config;
      players := map[master.id := master];
      scores := map[master.id := master.score];
      snakes := map[];
      vals := map[];
      foods := [];
      snakesAlive := 0;
      new;
      var placed := AddNewSnake(master.id);
      var fed := AddNeededFood();
    }

    /** startNewGame: clears the food, resets the tick counter, gives every
        player in ascending id order a snake where a tile qualifies, and tops
        the food up. `steps` records the board after each player's turn. */
    method StartNewGame() returns (ok: bool, ghost steps: seq<map<int, SnakeVal>>)
      requires Valid() && snakes == map[]
      modifies this`foods, this`stateId, this`snakes, this`vals, this`snakesAlive
      ensures Valid() && stateId == 0 && players == old(players) && scores == old(scores)
      ensures var keys := SortedKeys(players.Keys);
        |steps| == |keys| + 1 && SpawnPrefix(keys, steps, |keys|, config.width, config.height) && vals == steps[|keys|]
      ensures var need := FoodTarget(config, snakesAlive);
        var free := FreeCells(config.width, config.height, [], vals);
        TopUp([], foods, free, need) && (ok <==> need <= |free|)
    {
      SetFoods([]);
      stateId := 0;
      var keys := AscendingKeys(players.Keys);
      steps := SpawnAll(keys);
      ok := AddNeededFood();
    }

    /** The loop of startNewGame over the players in ascending id order, on
        an empty board. */
    method SpawnAll(keys: seq<int>) returns (ghost steps: seq<map<int, SnakeVal>>)
      requires Valid() && snakes == map[] && foods == []
      requires Increasing(keys) && Elems(keys) == players.Keys
      modifies this`snakes, this`vals, this`snakesAlive
      ensures Valid() && players == old(players) && foods == old(foods) && scores == old(scores) && stateId == old(stateId)
      ensures |steps| == |keys| + 1 && SpawnPrefix(keys, steps, |keys|, config.width, config.height) && vals == steps[|keys|]
    {
      assert vals == map[];
      steps := [vals];
      SpawnPrefixStart(keys, steps, config.width, config.height);
      var i := 0;
      while i < |keys|
        invariant Spawning(keys, steps, i)
        invariant players == old(players) && scores == old(scores) && stateId == old(stateId)
      {
        steps := SpawnOne(keys, i, steps);
        i := i + 1;
      }
      assert i == |keys|;
    }

    /** startNewGame's loop over increasing `keys` has given the first `i`
        players their turn, on a board that started empty, with boards
        `steps`. */
    ghost predicate Spawning(keys: seq<int>, steps: seq<map<int, SnakeVal>>, i: int)
      reads this, snakes.Values, players.Values
    {
      && Valid() && foods == [] && Increasing(keys) && Elems(keys) == players.Keys
      && 0 <= i <= |keys| && |steps| == i + 1
      && SpawnPrefix(keys, steps, i, config.width, config.height) && vals == steps[i]
    }

    /** One turn of startNewGame's loop: player `keys[i]` gets a snake if a
        tile qualifies. */
    method SpawnOne(keys: seq<int>, i: int, ghost steps: seq<map<int, SnakeVal>>) returns (ghost steps': seq<map<int, SnakeVal>>)
      requires Spawning(keys, steps, i) && i < |keys|
      modifies this`snakes, this`vals, this`snakesAlive
      ensures Spawning(keys, steps', i + 1)
      ensures players == old(players) && scores == old(scores) && stateId == old(stateId)
    {
      var id := keys[i];
      SpawnPrefixKeys(keys, steps, i, config.width, config.height);
      ElemsStep(keys, i);
      assert id in players && id !in snakes;
      ghost var before := vals;
      var placed := AddNewSnake(id);
      assert SpawnStep(before, vals, id, config.width, config.height);
      SpawnPrefixNext(keys, steps, i, vals, config.width, config.height);
      steps' := steps + [vals];
    }

    /** addNeededFood: tops the food up to foodStatic plus the truncated
        product of the live snakes and foodPerPlayer, each new entry an empty
        tile drawn from those not drawn yet. The result is false where the
        source draws from an exhausted list and throws. */
    method AddNeededFood() returns (ok: bool)
      requires Valid()
      modifies this`foods
      ensures Valid() && snakes == old(snakes) && players == old(players) && vals == old(vals)
      ensures scores == old(scores) && snakesAlive == old(snakesAlive) && stateId == old(stateId)
      ensures var need := FoodTarget(config, snakesAlive) - |old(foods)|;
        var free := FreeCells(config.width, config.height, old(foods), vals);
        TopUp(old(foods), foods, free, need) && (ok <==> need <= |free|)
    {
      var w, h := config.width, config.height;
      ghost var need := FoodTarget(config, snakesAlive) - |foods|;
      ghost var free := FreeCells(w, h, foods, vals);
      var foodToCreate := FoodTarget(config, snakesAlive);
      var foodOnField := |foods|;
      if foodToCreate <= foodOnField {
        TopUpNone(foods, free, need);
        return true;
      }
      GridOrderSpec(w, h);
      var emptyList := GetEmptyTilesList();
      assert emptyList == free;
      var added;
      added, ok := DrawFood(foods, emptyList, foodToCreate - foodOnField, GridOrder(w, h), SetOf(foods) + Occupied(vals, w, h));
      assert TopUp(old(foods), added, free, need) && (ok <==> need <= |free|);
      SetFoods(added);
    }

    /** changeSnakeDirection: steers the owner's snake, if it has one. */
    method ChangeSnakeDirection(ownerId: int, direction: Direction)
      requires Valid()
      modifies this`vals, snakes.Values
      ensures Valid() && snakes == old(snakes)
      ensures vals == if ownerId in old(vals) then old(vals)[ownerId := Steered(old(vals)[ownerId], direction)] else old(vals)
    {
      if ownerId !in snakes {
        return;
      }
      var snake := snakes[ownerId];
      assert Fits(snake, ownerId) && snake.Valid();
      snake.ChangeDirection(direction);
      vals := vals[ownerId := snake.Val()];
      forall o | o in snakes && o != ownerId ensures unchanged(snakes[o]) {
        assert snakes[o].playerId == o;
      }
      Rebodied(ownerId);
    }
  }

  /** getEmptyTilesList's first loops: every cell of the grid, column by
      column. */
  method GridList(w: nat, h: nat) returns (r: seq<Coord>)
    ensures r == GridOrder(w, h)
  {
    r := [];
    var i := 0;
    while i < w
      invariant 0 <= i <= w && r == GridOrder(i, h)
    {
      var j := 0;
      while j < h
        invariant 0 <= j <= h && r == GridOrder(i, h) + Column(i, j)
      {
        r := r + [Coord(i, j)];
        j := j + 1;
      }
      i := i + 1;
    }
  }

  /** addNeededFood's loop: appends `n` entries to `foods`, each drawn from
      the tiles of `free` not drawn yet, and reports false when the list runs
      out first. */
  method DrawFood(foods: seq<Coord>, free: seq<Coord>, n: int, ghost grid: seq<Coord>, ghost base: set<Coord>)
    returns (r: seq<Coord>, ok: bool)
    requires Distinct(grid) && free == Without(grid, base) && 0 <= n
    ensures TopUp(foods, r, free, n) && (ok <==> n <= |free|)
  {
    r := foods;
    var emptyList := free;
    assert r[..|foods|] == foods && r[|foods|..] == [] && SetOf(r[|foods|..]) == {} && base + {} == base;
    var i := 0;
    while i < n
      invariant 0 <= i <= n && i <= |free|
      invariant TopUp(foods, r, free, i) && |emptyList| == |free| - i
      invariant emptyList == Without(grid, base + SetOf(r[|foods|..]))
    {
      if emptyList == [] {
        return r, false;
      }
      var k :| 0 <= k < |emptyList|;
      var next := emptyList[k];
      TopUpSnoc(foods, r, free, i, next, grid, base);
      r := r + [next];
      emptyList := RemoveFirst(emptyList, next);
      i := i + 1;
    }
    return r, true;
  }

  /** turnIntoFood's draws: one per cell, in order; the cells whose draw
      falls below `chance` become food. */
  method DropFood(cells: seq<Coord>, chance: real) returns (dropped: seq<Coord>, ghost luck: seq<real>)
    ensures |luck| == |cells| && Draws(luck)
    ensures dropped == DeadFood(cells, luck, chance)
  {
    dropped := [];
    luck := [];
    var k := 0;
    while k < |cells|
      invariant 0 <= k <= |cells| && |luck| == k && Draws(luck)
      invariant dropped == DeadFood(cells[..k], luck, chance)
    {
      var currentLuck: real :| 0.0 <= currentLuck < 1.0;
      DeadFoodSnoc(cells, luck, k, currentLuck, chance);
      if currentLuck < chance {
        dropped := dropped + [cells[k]];
      }
      luck := luck + [currentLuck];
      k := k + 1;
    }
    assert cells[..|cells|] == cells;
  }

  /** ArrayList.remove(Object) for each of `xs` in turn, on a list that
      filters a list without repeats: the result filters out `xs` as well. */
  method RemoveEach(list: seq<Coord>, xs: seq<Coord>, ghost s: seq<Coord>, ghost ex: set<Coord>) returns (r: seq<Coord>)
    requires Distinct(s) && list == Without(s, ex)
    ensures r == Without(s, ex + SetOf(xs))
  {
    r := list;
    var k := 0;
    SetOfSnoc([], Coord(0, 0));
    assert xs[..0] == [] && ex + {} == ex;
    while k < |xs|
      invariant 0 <= k <= |xs| && r == Without(s, ex + SetOf(xs[..k]))
    {
      RemoveFirstWithout(s, ex + SetOf(xs[..k]), xs[k]);
      assert xs[..k + 1] == xs[..k] + [xs[k]];
      SetOfSnoc(xs[..k], xs[k]);
      assert ex + SetOf(xs[..k]) + {xs[k]} == ex + SetOf(xs[..k + 1]);
      r := RemoveFirst(r, xs[k]);
      k := k + 1;
    }
    assert xs[..k] == xs;
  }

  // ---------------------------------------------------------------------
  // Progress of changeState's loops, stated on values

  /** The collision loops have finished the first `i` snakes of `keys`:
      `marked` lists the snakes found to run into something and the scores
      carry one point per credited collision. */
  ghost predicate Colliding(keys: seq<int>, i: int, marked: seq<int>, s0: map<int, int>,
                            vals: map<int, SnakeVal>, scores: map<int, int>, w: int, h: int)
  {
    && Snakes(vals, w, h) && KeysIn(keys, vals) && 0 <= i <= |keys|
    && var pairs := Collisions(keys[..i], keys, vals, w, h);
       marked == Victims(pairs) && scores == ScoresAfterCredit(s0, pairs, vals)
  }

  /** The inner collision loop for `keys[i]` has tried the first `j` snakes
      of `keys`. */
  ghost predicate Trying(keys: seq<int>, i: int, j: int, marked: seq<int>, s0: map<int, int>,
                         vals: map<int, SnakeVal>, scores: map<int, int>, w: int, h: int)
  {
    && Snakes(vals, w, h) && KeysIn(keys, vals) && 0 <= i < |keys| && 0 <= j <= |keys|
    && var pairs := Collisions(keys[..i], keys, vals, w, h) + HitPair(keys[i], keys[..j], vals, w, h);
       marked == Victims(pairs) && scores == ScoresAfterCredit(s0, pairs, vals)
  }

  lemma CollidingFirst(keys: seq<int>, s0: map<int, int>, vals: map<int, SnakeVal>, w: int, h: int)
    requires Snakes(vals, w, h) && KeysIn(keys, vals)
    ensures Colliding(keys, 0, [], s0, vals, s0, w, h)
  {
    assert keys[..0] == [];
    assert ScoresAfterCredit(s0, [], vals) == s0;
  }

  lemma CollidingLast(keys: seq<int>, marked: seq<int>, s0: map<int, int>, vals: map<int, SnakeVal>, scores: map<int, int>, w: int, h: int)
    requires Colliding(keys, |keys|, marked, s0, vals, scores, w, h)
    ensures marked == Victims(Collisions(keys, keys, vals, w, h))
    ensures scores == ScoresAfterCredit(s0, Collisions(keys, keys, vals, w, h), vals)
  {
    assert keys[..|keys|] == keys;
  }

  lemma TryFirst(keys: seq<int>, i: int, marked: seq<int>, s0: map<int, int>, vals: map<int, SnakeVal>, scores: map<int, int>, w: int, h: int)
    requires Colliding(keys, i, marked, s0, vals, scores, w, h) && i < |keys|
    ensures Trying(keys, i, 0, marked, s0, vals, scores, w, h)
  {
    assert keys[..0] == [];
    var prev := Collisions(keys[..i], keys, vals, w, h);
    assert HitPair(keys[i], [], vals, w, h) == [];
    assert prev + [] == prev;
  }

  lemma TryLast(keys: seq<int>, i: int, marked: seq<int>, s0: map<int, int>, vals: map<int, SnakeVal>, scores: map<int, int>, w: int, h: int)
    requires Trying(keys, i, |keys|, marked, s0, vals, scores, w, h)
    ensures Colliding(keys, i + 1, marked, s0, vals, scores, w, h)
  {
    assert keys[..|keys|] == keys;
    CollisionsNext(keys, keys, i, vals, w, h);
  }

  /** One test of the inner loop: `keys[i]` is newly marked exactly when it
      is not marked yet and runs into `keys[j]`, and then the owner of
      `keys[j]` gains a point when that snake is alive. */
  lemma TryNext(keys: seq<int>, i: int, j: int, marked: seq<int>, s0: map<int, int>,
                vals: map<int, SnakeVal>, scores: map<int, int>, hit: bool, w: int, h: int)
    requires Trying(keys, i, j, marked, s0, vals, scores, w, h) && Distinct(keys) && j < |keys|
    requires hit == Hits(vals, keys[i], keys[j], w, h)
    ensures var a, b := keys[i], keys[j];
      if hit && a !in marked then
        Trying(keys, i, j + 1, marked + [a], s0, vals, Credit(scores, b, IsAlive(vals, b)), w, h)
      else
        Trying(keys, i, j + 1, marked, s0, vals, scores, w, h)
  {
    if hit && keys[i] !in marked {
      TryMarks(keys, i, j, marked, s0, vals, scores, w, h);
    } else {
      TrySkips(keys, i, j, marked, s0, vals, scores, w, h);
    }
  }

  /** A first hit marks `keys[i]` and credits the owner of `keys[j]`. */
  lemma TryMarks(keys: seq<int>, i: int, j: int, marked: seq<int>, s0: map<int, int>,
                 vals: map<int, SnakeVal>, scores: map<int, int>, w: int, h: int)
    requires Trying(keys, i, j, marked, s0, vals, scores, w, h) && Distinct(keys) && j < |keys|
    requires Hits(vals, keys[i], keys[j], w, h) && keys[i] !in marked
    ensures Trying(keys, i, j + 1, marked + [keys[i]], s0, vals, Credit(scores, keys[j], IsAlive(vals, keys[j])), w, h)
  {
    var a, b := keys[i], keys[j];
    var prev := Collisions(keys[..i], keys, vals, w, h);
    MarkedNow(keys, keys, i, keys[..j], vals, w, h);
    HitPairNext(a, keys, j, vals, w, h);
    MarkSnoc(prev, HitPair(a, keys[..j], vals, w, h), HitPair(a, keys[..j + 1], vals, w, h), marked, s0, scores, vals, a, b);
  }

  /** The marks and credits after the first hit of `a` on `b`. */
  lemma MarkSnoc(prev: seq<(int, int)>, before: seq<(int, int)>, after: seq<(int, int)>, marked: seq<int>,
                 s0: map<int, int>, scores: map<int, int>, vals: map<int, SnakeVal>, a: int, b: int)
    requires before == [] && after == [(a, b)]
    requires marked == Victims(prev + before) && scores == ScoresAfterCredit(s0, prev + before, vals)
    ensures marked + [a] == Victims(prev + after)
    ensures Credit(scores, b, IsAlive(vals, b)) == ScoresAfterCredit(s0, prev + after, vals)
  {
    assert prev + before == prev;
    CreditSnoc(s0, prev, (a, b), vals);
  }

  /** A miss, or any test after the first hit, records nothing. */
  lemma TrySkips(keys: seq<int>, i: int, j: int, marked: seq<int>, s0: map<int, int>,
                 vals: map<int, SnakeVal>, scores: map<int, int>, w: int, h: int)
    requires Trying(keys, i, j, marked, s0, vals, scores, w, h) && Distinct(keys) && j < |keys|
    requires !Hits(vals, keys[i], keys[j], w, h) || keys[i] in marked
    ensures Trying(keys, i, j + 1, marked, s0, vals, scores, w, h)
  {
    HitPairNext(keys[i], keys, j, vals, w, h);
    MarkedNow(keys, keys, i, keys[..j], vals, w, h);
  }

  /** The deletion loop has handled the first `k` of `toDelete`, starting
      from bodies `v0`, food `f0` and scores `s0`. */
  ghost predicate Removing(toDelete: seq<int>, k: int, lucks: seq<seq<real>>, v0: map<int, SnakeVal>, f0: seq<Coord>, s0: map<int, int>,
                           vals: map<int, SnakeVal>, foods: seq<Coord>, scores: map<int, int>, prob: real, w: int, h: int)
  {
    && Snakes(v0, w, h) && 0 <= k <= |toDelete|
    && LuckFor(toDelete[..k], v0, lucks, w, h)
    && vals == Survivors(v0, toDelete[..k])
    && foods == f0 + DeadFoods(toDelete[..k], v0, lucks, prob, w, h)
    && scores == ScoresAfterRemoval(s0, toDelete[..k], v0)
  }

  lemma RemovingFirst(toDelete: seq<int>, v0: map<int, SnakeVal>, f0: seq<Coord>, s0: map<int, int>, prob: real, w: int, h: int)
    requires Snakes(v0, w, h)
    ensures Removing(toDelete, 0, [], v0, f0, s0, v0, f0, s0, prob, w, h)
  {
    assert toDelete[..0] == [];
    assert Survivors(v0, []) == v0;
    assert ScoresAfterRemoval(s0, [], v0) == s0;
  }

  lemma RemovingLast(toDelete: seq<int>, lucks: seq<seq<real>>, v0: map<int, SnakeVal>, f0: seq<Coord>, s0: map<int, int>,
                     vals: map<int, SnakeVal>, foods: seq<Coord>, scores: map<int, int>, prob: real, w: int, h: int)
    requires Removing(toDelete, |toDelete|, lucks, v0, f0, s0, vals, foods, scores, prob, w, h)
    ensures LuckFor(toDelete, v0, lucks, w, h)
    ensures vals == Survivors(v0, toDelete)
    ensures foods == f0 + DeadFoods(toDelete, v0, lucks, prob, w, h)
    ensures scores == ScoresAfterRemoval(s0, toDelete, v0)
  {
    assert toDelete[..|toDelete|] == toDelete;
  }

  /** The next snake to delete is still on the board, unchanged. */
  lemma RemovingHas(toDelete: seq<int>, k: int, lucks: seq<seq<real>>, v0: map<int, SnakeVal>, f0: seq<Coord>, s0: map<int, int>,
                    vals: map<int, SnakeVal>, foods: seq<Coord>, scores: map<int, int>, prob: real, w: int, h: int)
    requires Removing(toDelete, k, lucks, v0, f0, s0, vals, foods, scores, prob, w, h)
    requires Distinct(toDelete) && KeysIn(toDelete, v0) && k < |toDelete|
    ensures toDelete[k] in vals && vals[toDelete[k]] == v0[toDelete[k]]
    ensures toDelete[k] !in toDelete[..k]
  {
    var id := toDelete[k];
    forall q | 0 <= q < k ensures toDelete[..k][q] != id {
      assert toDelete[q] != toDelete[k];
    }
  }

  /** Deleting `toDelete[k]`: its dead food is appended, its owner's score
      is reset when it was alive, and it leaves the board. */
  lemma RemovingNext(toDelete: seq<int>, k: int, lucks: seq<seq<real>>, v0: map<int, SnakeVal>, f0: seq<Coord>, s0: map<int, int>,
                     vals: map<int, SnakeVal>, foods: seq<Coord>, scores: map<int, int>, luck: seq<real>, prob: real, w: int, h: int)
    requires Snakes(v0, w, h)
    requires Distinct(toDelete) && KeysIn(toDelete, v0) && 0 <= k < |toDelete|
    requires WellFormed(v0[toDelete[k]], w, h) && |luck| == |Cells(v0[toDelete[k]], w, h)| && Draws(luck)
    requires Removing(toDelete, k, lucks, v0, f0, s0, vals, foods, scores, prob, w, h)
    ensures var x := toDelete[k];
      Removing(toDelete, k + 1, lucks + [luck], v0, f0, s0, vals - {x},
               foods + DeadFood(Cells(v0[x], w, h), luck, prob), Reset(scores, x, IsAlive(v0, x)), prob, w, h)
  {
    var x := toDelete[k];
    var pre := toDelete[..k];
    assert toDelete[..k + 1] == pre + [x];
    RemovedFoods(pre, lucks, v0, f0, foods, x, luck, prob, w, h);
    RemovalSnoc(s0, pre, x, v0);
    SurvivorsSnoc(v0, pre, x);
  }

  lemma RemovedFoods(pre: seq<int>, lucks: seq<seq<real>>, v0: map<int, SnakeVal>, f0: seq<Coord>, foods: seq<Coord>,
                     x: int, luck: seq<real>, prob: real, w: int, h: int)
    requires Snakes(v0, w, h) && LuckFor(pre, v0, lucks, w, h) && foods == f0 + DeadFoods(pre, v0, lucks, prob, w, h)
    requires x in v0 && |luck| == |Cells(v0[x], w, h)| && Draws(luck)
    ensures LuckFor(pre + [x], v0, lucks + [luck], w, h)
    ensures foods + DeadFood(Cells(v0[x], w, h), luck, prob) == f0 + DeadFoods(pre + [x], v0, lucks + [luck], prob, w, h)
  {
    DeadFoodsSnoc(pre, v0, lucks, x, luck, prob, w, h);
  }

  /** The waypoint loop of stumblesInto: whether `target` lies on the walk
      from `first` over `wps`, painting one segment at a time. */
  method WalkHits(target: Coord, first: Coord, wps: seq<Coord>, w: int, h: int) returns (r: bool)
    requires w > 0 && h > 0 && AllWaypoints(wps)
    ensures r <==> target in Walk(first, wps, w, h)
  {
    var cur := first;
    var i := 0;
    while i < |wps|
      invariant 0 <= i <= |wps|
      invariant AllWaypoints(wps[..i])
      invariant cur == WalkEnd(first, wps[..i], w, h)
      invariant target !in Walk(first, wps[..i], w, h)
    {
      var hit;
      hit, cur := PaintSegment(target, cur, wps[i], w, h);
      if hit {
        SegmentInWalk(target, first, wps, i, w, h);
        return true;
      }
      WalkSnocPrefix(first, wps, i, w, h);
      i := i + 1;
    }
    assert wps[..|wps|] == wps;
    return false;
  }

  /** The inner loop of stumblesInto: paints the cells of waypoint `coord`
      one wrapped step at a time from `start`, stopping at the first cell
      equal to `target`. */
  method PaintSegment(target: Coord, start: Coord, coord: Coord, w: int, h: int) returns (hit: bool, end: Coord)
    requires w > 0 && h > 0 && IsWaypoint(coord)
    ensures var seg := Segment(start, DirOfRelative(coord), Magnitude(coord), w, h);
      hit <==> target in seg
    ensures !hit ==> end == SegmentEnd(start, DirOfRelative(coord), Magnitude(coord), w, h)
  {
    var countToPaint := Abs(coord.x) + Abs(coord.y);
    var nextDir := DirOfRelative(coord);
    ghost var k := Magnitude(coord);
    var cur := start;
    while countToPaint != 0
      invariant 0 <= countToPaint <= k
      invariant cur == SegmentEnd(start, nextDir, k - countToPaint, w, h)
      invariant target !in Segment(start, nextDir, k - countToPaint, w, h)
    {
      ghost var done := k - countToPaint;
      PaintStep(start, nextDir, done, k, target, w, h);
      countToPaint := countToPaint - 1;
      cur := Step(cur, nextDir, w, h);
      assert k - countToPaint == done + 1;
      if target == cur {
        return true, cur;
      }
    }
    assert k - countToPaint == k;
    return false, cur;
  }

  /** The iteration order of an ordered map's keys: ascending. */
  method AscendingKeys(keys: set<int>) returns (r: seq<int>)
    ensures Increasing(r) && Elems(r) == keys
    ensures r == SortedKeys(keys)
  {
    r := [];
    var rest := keys;
    while rest != {}
      invariant Increasing(r)
      invariant forall x :: x in r <==> x in keys && x !in rest
      invariant rest <= keys
      invariant forall i :: 0 <= i < |r| ==> forall y :: y in rest ==> r[i] < y
      decreases |rest|
    {
      MinExists(rest);
      var m :| m in rest && forall y :: y in rest ==> m <= y;
      IncreasingSnoc(r, m);
      r := r + [m];
      rest := rest - {m};
    }
    assert forall x :: x in Elems(r) <==> x in keys;
    IncreasingUnique(r, SortedKeys(keys));
  }

  /** addNewSnake's test of a candidate head: every cell of the 5 by 5 square
      around it is in the empty list. */
  method IsSuitable(nextCoord: Coord, emptyList: seq<Coord>) returns (isSuitable: bool)
    ensures isSuitable == Suitable(nextCoord, emptyList)
  {
    isSuitable := true;
    var i := -2;
    while i <= 2
      invariant -2 <= i <= 3
      invariant isSuitable <==> forall a, b :: -2 <= a < i && -2 <= b <= 2 ==> Offset(nextCoord, a, b) in emptyList
    {
      var j := -2;
      while j <= 2
        invariant -2 <= j <= 3
        invariant isSuitable <==>
          (forall a, b :: -2 <= a < i && -2 <= b <= 2 ==> Offset(nextCoord, a, b) in emptyList)
          && (forall b :: -2 <= b < j ==> Offset(nextCoord, i, b) in emptyList)
      {
        if Coord(nextCoord.x + i, nextCoord.y + j) !in emptyList {
          isSuitable := false;
          assert Offset(nextCoord, i, j) !in emptyList;
        }
        j := j + 1;
      }
      i := i + 1;
    }
  }

  /** Every suitable entry of the empty list, in list order. */
  method SuitableCells(emptyList: seq<Coord>) returns (cands: seq<Coord>)
    ensures cands == Candidates(emptyList)
  {
    cands := [];
    var k := 0;
    while k < |emptyList|
      invariant 0 <= k <= |emptyList|
      invariant cands + CandidatesAmong(emptyList[k..], emptyList) == Candidates(emptyList)
    {
      var ok := IsSuitable(emptyList[k], emptyList);
      CandidatesStep(emptyList, k, ok);
      ghost var before := cands;
      if ok {
        cands := cands + [emptyList[k]];
      }
      KeptSnoc(before, cands, CandidatesAmong(emptyList[k..], emptyList), CandidatesAmong(emptyList[k + 1..], emptyList),
               emptyList[k], ok, Candidates(emptyList));
      k := k + 1;
    }
    assert emptyList[|emptyList|..] == [];
  }

  /** The candidate list from entry `k` on: entry `k` when it passed the
      test, then the candidates after it. */
  lemma CandidatesStep(empty: seq<Coord>, k: int, ok: bool)
    requires 0 <= k < |empty| && ok == Suitable(empty[k], empty)
    ensures CandidatesAmong(empty[k..], empty) == (if ok then [empty[k]] else []) + CandidatesAmong(empty[k + 1..], empty)
  {
    assert empty[k..][1..] == empty[k + 1..];
  }

  /** Moving one decided entry from the pending candidates to the kept
      ones keeps their concatenation. */
  lemma KeptSnoc(kept: seq<Coord>, kept': seq<Coord>, rest: seq<Coord>, tail: seq<Coord>, x: Coord, ok: bool, total: seq<Coord>)
    requires kept + rest == total && rest == (if ok then [x] else []) + tail
    requires kept' == if ok then kept + [x] else kept
    ensures kept' + tail == total
  {
    if ok {
      ConcatAssoc(kept, [x], tail);
    } else {
      assert rest == tail;
    }
  }
}
