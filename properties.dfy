/**
 * What the engine promises, proved about the step functions of module Rules: the state
 * invariant and its preservation, the movement and growth laws, the eat and respawn
 * protocols, the fail condition, and the terminal game-over state.
 */
module Properties {
  import opened Grid
  import opened Rules

  /**
   * Every candidate of every draw lies on the board: the part of `ValidDraws` these
   * properties need, since none of them depends on how many candidates a draw holds.
   */
  predicate DrawsOnBoard(n: int, draws: seq<seq<Vec>>) {
    forall i :: 0 <= i < |draws| ==> AllInBounds(draws[i], n)
  }

  // ---------------------------------------------------------------- snake

  /** A move with a legal heading keeps the body connected. */
  lemma MoveKeepsContiguous(s: SnakeState)
    requires CanMove(s) && IsHeading(s.direction) && Contiguous(s.body)
    ensures Contiguous(Move(s).body)
  {
  }

  // ---------------------------------------------------------------- fruit

  /** Spawning with one more draw spawns one more fruit, after all the others. */
  lemma SpawnAllNext(body: seq<Vec>, fruits: seq<Vec>, draws: seq<seq<Vec>>, k: nat)
    requires k < |draws|
    ensures var prev := SpawnAll(body, fruits, draws[..k]);
            SpawnAll(body, fruits, draws[..k + 1]) == prev + [NewFruit(body, prev, draws[k])]
  {
    assert draws[..k + 1][..k] == draws[..k];
  }

  /** The respawn step, given the fruit and counter its loop ends with. */
  lemma RespawnLoopExit(g: Game, cfg: Config, maxPer: int, draws: seq<seq<Vec>>, created: nat, cells: seq<Vec>)
    requires maxPer <= |draws| && g.pending > 0
    requires created <= SpawnCount(g, cfg, maxPer)
    requires !(created < maxPer && g.pending - created > 0 && |g.fruits| + created < cfg.fruitsCount)
    requires cells == SpawnAll(g.snake.body, g.fruits, draws[..created])
    ensures ProcessPendingSpawns(g, cfg, maxPer, draws)
         == g.(fruits := cells, pending := if |cells| >= cfg.fruitsCount then 0 else g.pending - created)
  {
  }

  /** Spawning fruit with on-board candidates keeps every fruit on the board. */
  lemma {:induction false} SpawnAllOnBoard(body: seq<Vec>, fruits: seq<Vec>, draws: seq<seq<Vec>>, n: int)
    requires n >= 1 && AllInBounds(fruits, n) && DrawsOnBoard(n, draws)
    ensures AllInBounds(SpawnAll(body, fruits, draws), n)
  {
    if draws != [] {
      var prev := SpawnAll(body, fruits, draws[..|draws| - 1]);
      SpawnAllOnBoard(body, fruits, draws[..|draws| - 1], n);
      var last := draws[|draws| - 1];
      assert AllInBounds(last, n);
      var pos := NewFruit(body, prev, last);
      assert pos == Zero || pos in last;
      assert InBounds(pos, n);
    }
  }

  /** Fruit `j` is off the body and off every fruit before it, or at the fallback (0, 0). */
  predicate PlacedApart(body: seq<Vec>, fruits: seq<Vec>, j: int)
    requires 0 <= j < |fruits|
  {
    fruits[j] == Zero || (fruits[j] !in body && fruits[j] !in fruits[..j])
  }

  /**
   * Every spawned fruit lands off the body and off every fruit before it, unless all its
   * candidates were taken, in which case it stays at (0, 0).
   */
  lemma {:induction false} SpawnAllFresh(body: seq<Vec>, fruits: seq<Vec>, draws: seq<seq<Vec>>)
    ensures forall j :: |fruits| <= j < |fruits| + |draws| ==> PlacedApart(body, SpawnAll(body, fruits, draws), j)
  {
    if draws != [] {
      var prev := SpawnAll(body, fruits, draws[..|draws| - 1]);
      SpawnAllFresh(body, fruits, draws[..|draws| - 1]);
      var r := SpawnAll(body, fruits, draws);
      var last := NewFruit(body, prev, draws[|draws| - 1]);
      assert r == prev + [last];
      assert r[..|prev|] == prev;
      forall j | |fruits| <= j < |r|
        ensures PlacedApart(body, r, j)
      {
        if j < |prev| {
          assert r[j] == prev[j] && r[..j] == prev[..j];
          assert PlacedApart(body, prev, j);
        } else {
          assert r[j] == last;
          if last != Zero {
            var draw := draws[|draws| - 1];
            assert !(forall i :: 0 <= i < |draw| ==> draw[i] in Occupied(body, prev));
            assert r[..j] == prev;
          }
        }
      }
    }
  }

  /**
   * The eat step removes at most one fruit, and exactly one copy of the head's cell
   * when the head is on a fruit.
   */
  lemma CheckEatRemovesOne(g: Game)
    requires |g.snake.body| >= 1
    ensures var r := CheckEat(g);
            multiset(r.fruits) == multiset(g.fruits) - multiset{g.snake.body[0]}
    ensures |g.fruits| - 1 <= |CheckEat(g).fruits| <= |g.fruits|
  {
    var head := g.snake.body[0];
    var r := CheckEat(g);
    if head in g.fruits {
      var i := IndexOf(g.fruits, head);
      assert g.fruits == g.fruits[..i] + [head] + g.fruits[i + 1..];
      calc {
        multiset(g.fruits);
        multiset(g.fruits[..i] + [head] + g.fruits[i + 1..]);
        multiset(g.fruits[..i]) + multiset{head} + multiset(g.fruits[i + 1..]);
        multiset(r.fruits) + multiset{head};
      }
    } else {
      assert multiset(g.fruits)[head] == 0;
    }
  }

  /** The eat step, given the first fruit a scan from the front finds under the head. */
  lemma CheckEatAt(g: Game, i: nat)
    requires |g.snake.body| >= 1 && i < |g.fruits|
    requires g.fruits[i] == g.snake.body[0]
    requires forall j :: 0 <= j < i ==> g.fruits[j] != g.snake.body[0]
    ensures CheckEat(g)
         == g.(fruits := g.fruits[..i] + g.fruits[i + 1..], snake := g.snake.(newBlock := true),
               pending := g.pending + 1, crunches := g.crunches + 1)
  {
  }

  /** Removing one element keeps every remaining fruit on the board. */
  lemma RemoveKeepsOnBoard(s: seq<Vec>, i: nat, n: int)
    requires i < |s| && AllInBounds(s, n)
    ensures AllInBounds(s[..i] + s[i + 1..], n)
  {
  }

  // ---------------------------------------------------------------- respawn

  /**
   * The respawn step (`_process_pending_spawns`): fruit are only appended, at most
   * `maxPer` of them; the board never passes its target; one owed fruit is paid per fruit
   * created; the counter stays non-negative and is zero whenever the board is full.
   */
  lemma RespawnFacts(g: Game, cfg: Config, maxPer: int, draws: seq<seq<Vec>>)
    requires maxPer <= |draws|
    ensures var r := ProcessPendingSpawns(g, cfg, maxPer, draws);
            var created := |r.fruits| - |g.fruits|;
            && r.snake == g.snake && r.over == g.over && r.crunches == g.crunches
            && 0 <= created <= (if maxPer > 0 then maxPer else 0)
            && (g.pending > 0 ==> created == SpawnCount(g, cfg, maxPer))
            && r.fruits[..|g.fruits|] == g.fruits
            && (|g.fruits| <= cfg.fruitsCount ==> |r.fruits| <= cfg.fruitsCount)
            && (g.pending >= 0 ==> r.pending >= 0)
            && (g.pending >= 0 && |r.fruits| >= cfg.fruitsCount ==> r.pending == 0)
            && (|r.fruits| < cfg.fruitsCount ==> r.pending == g.pending - created)
            && (g.pending >= 0 && |g.fruits| + g.pending == cfg.fruitsCount ==>
                  |r.fruits| + r.pending == cfg.fruitsCount)
            && (cfg.cellNumber >= 1 && AllInBounds(g.fruits, cfg.cellNumber) && DrawsOnBoard(cfg.cellNumber, draws)
                ==> AllInBounds(r.fruits, cfg.cellNumber))
  {
    if g.pending > 0 {
      var c := SpawnCount(g, cfg, maxPer);
      if cfg.cellNumber >= 1 && AllInBounds(g.fruits, cfg.cellNumber) && DrawsOnBoard(cfg.cellNumber, draws) {
        SpawnAllOnBoard(g.snake.body, g.fruits, draws[..c], cfg.cellNumber);
      }
    }
  }

  // ---------------------------------------------------------------- invariant

  /**
   * Construction and reset give a length-3 snake, score 0, a full board, and the invariant;
   * each fruit is off the snake and off the fruit before it, or at the fallback (0, 0).
   */
  lemma FreshState(cfg: Config, draws: seq<seq<Vec>>, crunches: nat)
    requires cfg.cellNumber >= 1 && cfg.fruitsCount >= 1
    requires |draws| == cfg.fruitsCount && DrawsOnBoard(cfg.cellNumber, draws)
    ensures var g := Fresh(draws, crunches);
            && Inv(g, cfg)
            && |g.snake.body| == StartLength && Score(g.snake.body) == 0
            && g.snake.direction == Zero && !g.snake.newBlock
            && !g.over && g.pending == 0 && |g.fruits| == cfg.fruitsCount
            && forall j :: 0 <= j < |g.fruits| ==> PlacedApart(StartBody, g.fruits, j)
  {
    SpawnAllOnBoard(StartBody, [], draws, cfg.cellNumber);
    SpawnAllFresh(StartBody, [], draws);
    assert Adjacent(StartBody[0], StartBody[1]) && Adjacent(StartBody[1], StartBody[2]);
  }

  /** A key press keeps the invariant. */
  lemma HandleKeyPreservesInv(g: Game, cfg: Config, k: Key)
    requires Inv(g, cfg)
    ensures Inv(HandleKey(g, k), cfg)
  {
  }

  /** A tick keeps the invariant. */
  lemma UpdatePreservesInv(g: Game, cfg: Config, draw: seq<Vec>)
    requires Inv(g, cfg) && AllInBounds(draw, cfg.cellNumber)
    ensures Inv(Update(g, cfg, draw), cfg)
  {
    if !g.over {
      MoveKeepsContiguous(g.snake);
      var moved := Moved(g);
      var fed := CheckEat(moved);
      var head := moved.snake.body[0];
      if head in moved.fruits {
        RemoveKeepsOnBoard(moved.fruits, IndexOf(moved.fruits, head), cfg.cellNumber);
      }
      var checked := CheckFail(fed, cfg.cellNumber);
      RespawnFacts(checked, cfg, 1, [draw]);
    }
  }

  // ---------------------------------------------------------------- ticks

  /**
   * A tick moves the snake exactly as Move says (head one heading ahead of the old head,
   * the rest shifted one index back), grows it by one and raises the score by one exactly
   * when growth was pending and the heading is non-zero, and leaves growth pending
   * afterwards exactly when the new head ate a fruit (or it was pending and the snake stood).
   */
  lemma UpdateMovesAndGrows(g: Game, cfg: Config, draw: seq<Vec>)
    requires Inv(g, cfg) && !g.over
    ensures var r := Update(g, cfg, draw);
            var grows := g.snake.direction != Zero && g.snake.newBlock;
            var ate := Move(g.snake).body[0] in g.fruits;
            && r.snake.body == Move(g.snake).body
            && r.snake.direction == g.snake.direction
            && |r.snake.body| == |g.snake.body| + (if grows then 1 else 0)
            && Score(r.snake.body) == Score(g.snake.body) + (if grows then 1 else 0)
            && (r.snake.newBlock <==> ate || (g.snake.direction == Zero && g.snake.newBlock))
  {
  }

  /**
   * A tick ends the game exactly when the moved head is off the board or on another
   * segment of the moved body (the eat step in between changes neither).
   */
  lemma UpdateFailsIff(g: Game, cfg: Config, draw: seq<Vec>)
    requires !g.over && Steppable(g.snake)
    ensures Update(g, cfg, draw).over <==> Collides(Move(g.snake).body, cfg.cellNumber)
  {
  }

  /**
   * The respawn step of a tick runs whether or not the tick ended the game: one fruit
   * appears exactly when one is owed after the eat step, and at most one per tick.
   */
  lemma UpdateRespawnsAtMostOne(g: Game, cfg: Config, draw: seq<Vec>)
    requires Inv(g, cfg) && !g.over
    ensures var fed := CheckEat(Moved(g));
            var r := Update(g, cfg, draw);
            && |r.fruits| == |fed.fruits| + (if fed.pending > 0 then 1 else 0)
            && r.fruits[..|fed.fruits|] == fed.fruits
            && r.pending == (if fed.pending > 0 then fed.pending - 1 else 0)
            && r.crunches == fed.crunches
  {
  }

  /**
   * What drives a game from outside: a timer tick, with the draw its respawn would use,
   * or a key press, which the event loop passes on between ticks.
   */
  datatype Event = Tick(draw: seq<Vec>) | Press(key: Key)

  /** Every tick's candidates lie on the board. */
  predicate TicksOnBoard(n: int, events: seq<Event>) {
    forall i :: 0 <= i < |events| && events[i].Tick? ==> AllInBounds(events[i].draw, n)
  }

  /** No key is pressed. */
  predicate OnlyTicks(events: seq<Event>) {
    forall i :: 0 <= i < |events| ==> events[i].Tick?
  }

  /** One event: `update` for a tick, `handle_key` for a key press; both keep the invariant. */
  function Step(g: Game, cfg: Config, e: Event): (r: Game)
    requires Inv(g, cfg) && (e.Tick? ==> AllInBounds(e.draw, cfg.cellNumber))
    ensures Inv(r, cfg)
  {
    match e
    case Tick(draw) =>
      UpdatePreservesInv(g, cfg, draw);
      Update(g, cfg, draw)
    case Press(k) =>
      HandleKeyPreservesInv(g, cfg, k);
      HandleKey(g, k)
  }

  /** Events in order, from a state satisfying the invariant; every state reached keeps it. */
  function Run(g: Game, cfg: Config, events: seq<Event>): (r: Game)
    requires Inv(g, cfg) && TicksOnBoard(cfg.cellNumber, events)
    ensures Inv(r, cfg)
    decreases |events|
  {
    if events == [] then g
    else
      assert events[0].Tick? ==> AllInBounds(events[0].draw, cfg.cellNumber);
      Run(Step(g, cfg, events[0]), cfg, events[1..])
  }

  /** Once the game is over, no sequence of ticks and key presses changes anything. */
  lemma {:induction false} GameOverIsTerminal(g: Game, cfg: Config, events: seq<Event>)
    requires Inv(g, cfg) && TicksOnBoard(cfg.cellNumber, events) && g.over
    ensures Run(g, cfg, events) == g
    decreases |events|
  {
    if events != [] {
      assert events[0].Tick? ==> AllInBounds(events[0].draw, cfg.cellNumber);
      GameOverIsTerminal(Step(g, cfg, events[0]), cfg, events[1..]);
    }
  }

  /** While the heading is zero and no key is pressed, ticks leave the body and heading as they are. */
  lemma {:induction false} IdleTicksKeepBody(g: Game, cfg: Config, events: seq<Event>)
    requires Inv(g, cfg) && TicksOnBoard(cfg.cellNumber, events) && OnlyTicks(events)
    requires g.snake.direction == Zero
    ensures Run(g, cfg, events).snake.body == g.snake.body
    ensures Run(g, cfg, events).snake.direction == Zero
    decreases |events|
  {
    if events != [] {
      assert events[0].Tick? && AllInBounds(events[0].draw, cfg.cellNumber);
      if !g.over {
        UpdateMovesAndGrows(g, cfg, events[0].draw);
      }
      IdleTicksKeepBody(Step(g, cfg, events[0]), cfg, events[1..]);
    }
  }

  /** Over any ticks and key presses the snake never shrinks, so the score never decreases. */
  lemma {:induction false} RunNeverShrinks(g: Game, cfg: Config, events: seq<Event>)
    requires Inv(g, cfg) && TicksOnBoard(cfg.cellNumber, events)
    ensures |Run(g, cfg, events).snake.body| >= |g.snake.body|
    ensures Score(Run(g, cfg, events).snake.body) >= Score(g.snake.body)
    decreases |events|
  {
    if events != [] {
      assert events[0].Tick? ==> AllInBounds(events[0].draw, cfg.cellNumber);
      if !g.over && events[0].Tick? {
        UpdateMovesAndGrows(g, cfg, events[0].draw);
      }
      RunNeverShrinks(Step(g, cfg, events[0]), cfg, events[1..]);
    }
  }
}
