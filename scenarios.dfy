/**
 * Concrete situations from the game's unit tests, and what the rules say happens at the
 * start of a game: the start body lies on row 10, so on a board of 10 or fewer cells it
 * starts off the board and the first tick decides the game.
 */
module Scenarios {
  import opened Grid
  import opened Rules
  import opened Properties

  /** A snake whose head is on the right edge of a 5-cell board, heading right, hits the wall. */
  lemma WallCollision(fruits: seq<Vec>, pending: int, crunches: nat, draw: seq<Vec>)
    ensures var snake := SnakeState([Vec(4, 2), Vec(3, 2), Vec(2, 2)], Right, false);
            Update(Game(snake, fruits, pending, false, crunches), Config(5, 1), draw).over
  {
    var snake := SnakeState([Vec(4, 2), Vec(3, 2), Vec(2, 2)], Right, false);
    var g := Game(snake, fruits, pending, false, crunches);
    assert Move(snake).body[0] == Vec(5, 2);
    var fed := CheckEat(Moved(g));
    assert fed.snake.body[0] == Vec(5, 2);
  }

  /**
   * After construction or reset, an idle tick leaves the body where it was; it ends the
   * game exactly when the board has 10 or fewer cells, because the head (5, 10) is then
   * off the board.
   */
  lemma IdleFirstTick(cfg: Config, draws: seq<seq<Vec>>, crunches: nat, draw: seq<Vec>)
    ensures var r := Update(Fresh(draws, crunches), cfg, draw);
            && r.snake.body == StartBody
            && (r.over <==> cfg.cellNumber <= 10)
  {
    var g := Fresh(draws, crunches);
    var fed := CheckEat(Moved(g));
    assert fed.snake.body == StartBody;
    assert Collides(StartBody, cfg.cellNumber) <==> cfg.cellNumber <= 10;
  }

  /** The start snake set heading right moves its head from (5, 10) to (6, 10). */
  lemma FirstStepRight(cfg: Config, draws: seq<seq<Vec>>, crunches: nat, draw: seq<Vec>)
    ensures var g := Fresh(draws, crunches).(snake := StartSnake.(direction := Right));
            var r := Update(g, cfg, draw);
            && r.snake.body == [Vec(6, 10), Vec(5, 10), Vec(4, 10)]
            && (r.over <==> cfg.cellNumber <= 10)
  {
    var g := Fresh(draws, crunches).(snake := StartSnake.(direction := Right));
    var moved := Move(g.snake);
    assert moved.body == [Vec(6, 10), Vec(5, 10), Vec(4, 10)];
    var fed := CheckEat(Moved(g));
    assert fed.snake.body == moved.body;
  }

  /**
   * With growth scheduled before the first step right, the snake grows to four segments,
   * the score becomes 1, and the old body follows the new head.
   */
  lemma FirstStepRightGrows(cfg: Config, draws: seq<seq<Vec>>, crunches: nat, draw: seq<Vec>)
    ensures var g := Fresh(draws, crunches).(snake := SnakeState(StartBody, Right, true));
            var r := Update(g, cfg, draw);
            && r.snake.body == [Vec(6, 10)] + StartBody
            && |r.snake.body| == StartLength + 1
            && Score(r.snake.body) == 1
  {
    var g := Fresh(draws, crunches).(snake := SnakeState(StartBody, Right, true));
    var moved := Move(g.snake);
    assert moved.body == [Vec(6, 10)] + StartBody;
    var fed := CheckEat(Moved(g));
    assert fed.snake.body == moved.body;
  }

  /**
   * A spawn for the vertical snake of the test, on a 10-cell board, lands on the board
   * and off the snake whenever one of its candidates is free.
   */
  lemma SpawnAvoidsSnake(draw: seq<Vec>, current: Vec)
    requires ValidDraw(10, draw)
    requires exists i :: 0 <= i < |draw| && draw[i] !in {Vec(1, 1), Vec(1, 2), Vec(1, 3), Vec(1, 4)}
    ensures var occupied := {Vec(1, 1), Vec(1, 2), Vec(1, 3), Vec(1, 4)};
            var r := Place(draw, occupied, current);
            r !in occupied && InBounds(r, 10)
  {
    var occupied := {Vec(1, 1), Vec(1, 2), Vec(1, 3), Vec(1, 4)};
    var k := FirstFreeIndex(draw, occupied);
    assert k < |draw| by {
      var i :| 0 <= i < |draw| && draw[i] !in occupied;
      assert !(i < k);
    }
    assert InBounds(draw[k], 10);
  }

  /** A three-segment body collides when its head is off the board or on one of the others. */
  lemma ThreeCollides(b: seq<Vec>, n: int)
    requires |b| == 3
    ensures Collides(b, n) <==> !InBounds(b[0], n) || b[1] == b[0] || b[2] == b[0]
  {
    if b[1] == b[0] { assert 1 < |b|; }
    if b[2] == b[0] { assert 2 < |b|; }
  }

  /**
   * The start snake moved one step in heading `d` collides exactly when the new head
   * (5, 10) + d is off the board, or when `d` is LEFT and the head lands on the neck.
   */
  lemma StartCollision(d: Vec, n: int)
    requires IsHeading(d)
    ensures Steppable(StartSnake.(direction := d))
    ensures Collides(Move(StartSnake.(direction := d)).body, n)
        <==> !InBounds(Add(Vec(5, 10), d), n) || d == Left
  {
    var body := Move(StartSnake.(direction := d)).body;
    if d == Zero {
      assert body == StartBody;
    } else {
      assert body == [Add(Vec(5, 10), d), Vec(5, 10), Vec(4, 10)];
    }
    ThreeCollides(body, n);
  }

  /**
   * Whether the first key after a start lets the snake survive its first tick on an
   * `n`-cell board: UP from 10 cells on, RIGHT or no arrow key from 11, DOWN from 12, and
   * LEFT never, since it turns the head onto the neck.
   */
  predicate FirstKeySafe(k: Key, n: int) {
    match k
    case KeyUp => n >= 10
    case KeyRight => n >= 11
    case KeyOther => n >= 11
    case KeyDown => n >= 12
    case KeyLeft => false
  }

  /** From a standing start every arrow key is accepted: the heading becomes the key's. */
  lemma SteerFromRest(k: Key)
    ensures IsHeading(Steer(Zero, k))
    ensures !k.KeyOther? ==> Steer(Zero, k) == KeyHeading(k)
    ensures k.KeyOther? ==> Steer(Zero, k) == Zero
  {
    match k
    case KeyUp => assert Steer(Zero, k) == Up;
    case KeyRight => assert Steer(Zero, k) == Right;
    case KeyDown => assert Steer(Zero, k) == Down;
    case KeyLeft => assert Steer(Zero, k) == Left;
    case KeyOther => assert Steer(Zero, k) == Zero;
  }

  /**
   * With the heading a first key sets from rest, the new head (5, 10) + d is on the board
   * without reversing exactly when the key is safe for the board.
   */
  lemma HeadSafe(k: Key, d: Vec, n: int)
    requires !k.KeyOther? ==> d == KeyHeading(k)
    requires k.KeyOther? ==> d == Zero
    ensures (InBounds(Add(Vec(5, 10), d), n) && d != Left) <==> FirstKeySafe(k, n)
  {
  }

  /** From the start snake a key changes only the heading, to `Steer(Zero, k)`. */
  lemma FirstKey(start: Game, k: Key)
    requires start.snake == StartSnake && !start.over
    ensures HandleKey(start, k).snake == StartSnake.(direction := Steer(Zero, k))
    ensures IsHeading(Steer(Zero, k))
  {
    SteerFromRest(k);
  }

  /** The first move from the start snake stays clear exactly when the first key is safe. */
  lemma FirstCollision(start: Game, n: int, k: Key)
    requires start.snake == StartSnake && !start.over
    ensures Steppable(HandleKey(start, k).snake)
    ensures !Collides(Move(HandleKey(start, k).snake).body, n) <==> FirstKeySafe(k, n)
  {
    FirstKey(start, k);
    SteerFromRest(k);
    StartCollision(Steer(Zero, k), n);
    HeadSafe(k, Steer(Zero, k), n);
  }

  /**
   * From the start snake (after construction or reset) the first tick, after any first key,
   * survives exactly when that key is safe for the board.
   */
  lemma FirstTick(start: Game, cfg: Config, k: Key, draw: seq<Vec>)
    requires start.snake == StartSnake && !start.over
    ensures !Update(HandleKey(start, k), cfg, draw).over <==> FirstKeySafe(k, cfg.cellNumber)
  {
    FirstCollision(start, cfg.cellNumber, k);
    UpdateFailsIff(HandleKey(start, k), cfg, draw);
  }

  /**
   * Two keys between ticks reverse the snake: heading right, UP then LEFT leaves it heading
   * left, and the next tick puts the head on the neck and ends the game.
   */
  lemma TwoTurnsReverse(g: Game, cfg: Config, draw: seq<Vec>)
    requires !g.over && |g.snake.body| >= 3 && g.snake.direction == Right && !g.snake.newBlock
    requires g.snake.body[1] == Add(g.snake.body[0], Left)
    ensures var h := HandleKey(HandleKey(g, KeyUp), KeyLeft);
            h.snake.direction == Left && Update(h, cfg, draw).over
  {
    var h := HandleKey(HandleKey(g, KeyUp), KeyLeft);
    assert h.snake.direction == Left;
    var moved := Move(h.snake);
    assert moved.body[0] == g.snake.body[1] && moved.body[2] == g.snake.body[1];
    assert Collides(moved.body, cfg.cellNumber);
    var fed := CheckEat(Moved(h));
    assert fed.snake.body == moved.body;
  }
}
