/**
 * The engine as objects: a Snake, Fruit objects, and the SnakeGame that owns them.
 * Every method changes its fields step by step, as the game does. `Snake.Move` and the
 * step methods of `SnakeGame` are proved to leave the state that the matching function of
 * module Rules computes; the other `Snake` and `Fruit` methods state their new state
 * directly; the entry points of `SnakeGame` also keep its invariant `Valid()`.
 */
module Engine {
  import opened Grid
  import opened Rules
  import opened Properties

  /** A positive integer: the board size and the clamped fruit count. */
  type Pos = x: int | x >= 1 witness 1

  class Snake {
    /** Segments head-first. */
    var body: seq<Vec>
    var direction: Vec
    /** Growth deferred to the next move. */
    var newBlock: bool
    /** "Fruit eaten" events emitted, in place of playing the crunch sound. */
    var crunches: nat

    function State(): SnakeState
      reads this
    {
      SnakeState(body, direction, newBlock)
    }

    constructor ()
      ensures State() == StartSnake && crunches == 0
    {
      body := StartBody;
      direction := Zero;
      newBlock := false;
      crunches := 0;
    }

    method Reset()
      modifies this
      ensures State() == StartSnake && crunches == old(crunches)
    {
      body := StartBody;
      direction := Zero;
      newBlock := false;
    }

    method PlayCrunchSound()
      modifies this
      ensures State() == old(State()) && crunches == old(crunches) + 1
    {
      crunches := crunches + 1;
    }

    method AddBlock()
      modifies this
      ensures State() == old(State()).(newBlock := true) && crunches == old(crunches)
    {
      newBlock := true;
    }

    method Move()
      requires CanMove(State())
      modifies this
      ensures State() == Rules.Move(old(State())) && crunches == old(crunches)
    {
      if direction == Zero {
        return;
      }
      if newBlock {
        var copy := body;
        copy := [Add(copy[0], direction)] + copy;
        body := copy;
        newBlock := false;
      } else {
        var copy := body[..|body| - 1];
        copy := [Add(copy[0], direction)] + copy;
        body := copy;
      }
    }
  }

  class Fruit {
    const cellNumber: int
    var pos: Vec

    constructor (cellNumber: int)
      ensures this.cellNumber == cellNumber && pos == Zero
    {
      this.cellNumber := cellNumber;
      pos := Zero;
    }

    /** Rejection sampling over the drawn candidates; the position stays if all are taken. */
    method Spawn(occupied: set<Vec>, draw: seq<Vec>)
      requires ValidDraw(cellNumber, draw)
      modifies this
      ensures pos == Place(draw, occupied, old(pos))
    {
      var maxAttempts := cellNumber * cellNumber + SpareAttempts;
      for attempt := 0 to maxAttempts
        invariant pos == old(pos)
        invariant forall j :: 0 <= j < attempt ==> draw[j] in occupied
      {
        var candidate := draw[attempt];
        if candidate !in occupied {
          pos := candidate;
          return;
        }
      }
    }
  }

  /** The positions of `fs`, in list order. */
  function Positions(fs: seq<Fruit>): (r: seq<Vec>)
    reads fs
    ensures |r| == |fs|
    ensures forall i :: 0 <= i < |fs| ==> r[i] == fs[i].pos
  {
    seq(|fs|, i requires 0 <= i < |fs| reads fs => fs[i].pos)
  }

  /** Taking one fruit out of the list takes its position out of the positions. */
  lemma PositionsRemove(fs: seq<Fruit>, i: nat)
    requires i < |fs|
    ensures Positions(fs[..i] + fs[i + 1..]) == Positions(fs)[..i] + Positions(fs)[i + 1..]
  {
  }

  class SnakeGame {
    const cellNumber: Pos
    const fruitsCount: Pos
    const snake: Snake
    var fruits: seq<Fruit>
    var pendingSpawns: int
    var gameOver: bool

    function Cfg(): Config {
      Config(cellNumber, fruitsCount)
    }

    function FruitCells(): seq<Vec>
      reads this, fruits
    {
      Positions(fruits)
    }

    function State(): Game
      reads this, snake, fruits
    {
      Game(snake.State(), FruitCells(), pendingSpawns, gameOver, snake.crunches)
    }

    ghost predicate Valid()
      reads this, snake, fruits
    {
      Inv(State(), Cfg())
    }

    constructor (cellNumber: int, fruitsCount: int, draws: seq<seq<Vec>>)
      requires cellNumber >= 1
      requires |draws| == MakeConfig(cellNumber, fruitsCount).fruitsCount
      requires ValidDraws(cellNumber, draws)
      ensures Cfg() == MakeConfig(cellNumber, fruitsCount)
      ensures Valid() && State() == Fresh(draws, 0)
    {
      this.cellNumber := cellNumber;
      this.fruitsCount := if fruitsCount > 1 then fruitsCount else 1;
      snake := new Snake();
      fruits := [];
      pendingSpawns := 0;
      gameOver := false;
      new;
      SpawnInitialFruits(draws);
      FreshState(Cfg(), draws, 0);
    }

    method Reset(draws: seq<seq<Vec>>)
      requires |draws| == fruitsCount && ValidDraws(cellNumber, draws)
      modifies this, snake
      ensures Valid() && State() == Fresh(draws, old(snake.crunches))
    {
      snake.Reset();
      fruits := [];
      pendingSpawns := 0;
      gameOver := false;
      SpawnInitialFruits(draws);
      FreshState(Cfg(), draws, snake.crunches);
    }

    function IsGameOver(): (over: bool)
      reads this
      ensures over == gameOver
    {
      gameOver
    }

    /** The length of the snake above its start length, never negative. */
    function GetScore(): (score: int)
      reads this, snake
      ensures score >= 0
      ensures |snake.body| >= StartLength ==> score == |snake.body| - StartLength
      ensures |snake.body| <= StartLength ==> score == 0
    {
      Score(snake.body)
    }

    /** One tick; `draw` feeds the at most one respawn of this tick. */
    method Update(draw: seq<Vec>)
      requires Valid() && ValidDraw(cellNumber, draw)
      modifies this, snake
      ensures Valid() && State() == Rules.Update(old(State()), Cfg(), draw)
    {
      if gameOver {
        return;
      }
      ghost var start := State();
      snake.Move();
      assert FruitCells() == start.fruits;
      assert State() == Moved(start);
      CheckEat();
      ghost var fed := State();
      CheckFail();
      assert State() == Rules.CheckFail(fed, cellNumber);
      ProcessPendingSpawns(1, [draw]);
      UpdatePreservesInv(start, Cfg(), draw);
    }

    method HandleKey(key: Key)
      requires Valid()
      modifies snake
      ensures Valid() && State() == Rules.HandleKey(old(State()), key)
    {
      if gameOver {
        return;
      }
      ghost var start := State();
      var d := snake.direction;
      if key == KeyUp && d.y != 1 {
        snake.direction := Up;
      } else if key == KeyRight && d.x != -1 {
        snake.direction := Right;
      } else if key == KeyDown && d.y != -1 {
        snake.direction := Down;
      } else if key == KeyLeft && d.x != 1 {
        snake.direction := Left;
      }
      assert FruitCells() == start.fruits;
      assert State() == Rules.HandleKey(start, key);
      HandleKeyPreservesInv(start, Cfg(), key);
    }

    /** The cells of the body and of every fruit. */
    method OccupiedCells() returns (occupied: set<Vec>)
      ensures occupied == Occupied(snake.body, FruitCells())
    {
      occupied := {};
      for i := 0 to |snake.body|
        invariant occupied == set j | 0 <= j < i :: snake.body[j]
      {
        occupied := occupied + {snake.body[i]};
      }
      ghost var cells := FruitCells();
      for i := 0 to |fruits|
        invariant occupied == (set c | c in snake.body) + set j | 0 <= j < i :: cells[j]
      {
        occupied := occupied + {fruits[i].pos};
      }
    }

    method SpawnInitialFruits(draws: seq<seq<Vec>>)
      requires |draws| == fruitsCount && ValidDraws(cellNumber, draws)
      modifies this
      ensures FruitCells() == SpawnAll(snake.body, old(FruitCells()), draws)
      ensures pendingSpawns == old(pendingSpawns) && gameOver == old(gameOver)
    {
      for i := 0 to fruitsCount
        invariant FruitCells() == SpawnAll(snake.body, old(FruitCells()), draws[..i])
        invariant pendingSpawns == old(pendingSpawns) && gameOver == old(gameOver)
      {
        SpawnOneFruit(draws[i]);
        SpawnAllNext(snake.body, old(FruitCells()), draws, i);
      }
      assert draws[..fruitsCount] == draws;
    }

    method SpawnOneFruit(draw: seq<Vec>)
      requires ValidDraw(cellNumber, draw)
      modifies this
      ensures FruitCells() == old(FruitCells()) + [NewFruit(snake.body, old(FruitCells()), draw)]
      ensures pendingSpawns == old(pendingSpawns) && gameOver == old(gameOver)
    {
      var fruit := new Fruit(cellNumber);
      var occupied := OccupiedCells();
      fruit.Spawn(occupied, draw);
      fruits := fruits + [fruit];
    }

    /** The index of the first fruit on `cell`, or -1 when no fruit is there. */
    method FindFruit(cell: Vec) returns (index: int)
      ensures -1 <= index < |fruits|
      ensures index == -1 <==> cell !in FruitCells()
      ensures index >= 0 ==> index == IndexOf(FruitCells(), cell)
    {
      index := -1;
      for i := 0 to |fruits|
        invariant index == -1
        invariant forall j :: 0 <= j < i ==> FruitCells()[j] != cell
      {
        if fruits[i].pos == cell {
          return i;
        }
      }
    }

    method CheckEat()
      requires |snake.body| >= 1
      modifies this, snake
      ensures State() == Rules.CheckEat(old(State()))
    {
      var eatenIndex := FindFruit(snake.body[0]);
      if eatenIndex >= 0 {
        ghost var start := State();
        ghost var cells := start.fruits[..eatenIndex] + start.fruits[eatenIndex + 1..];
        PositionsRemove(fruits, eatenIndex);
        fruits := fruits[..eatenIndex] + fruits[eatenIndex + 1..];
        assert FruitCells() == cells;
        snake.AddBlock();
        snake.PlayCrunchSound();
        pendingSpawns := pendingSpawns + 1;
      }
    }

    method ProcessPendingSpawns(maxPerUpdate: int, draws: seq<seq<Vec>>)
      requires maxPerUpdate <= |draws| && ValidDraws(cellNumber, draws)
      modifies this
      ensures State() == Rules.ProcessPendingSpawns(old(State()), Cfg(), maxPerUpdate, draws)
    {
      if pendingSpawns <= 0 {
        return;
      }
      ghost var start := State();
      ghost var count := SpawnCount(start, Cfg(), maxPerUpdate);
      var created := 0;
      while created < maxPerUpdate && pendingSpawns > 0 && |fruits| < fruitsCount
        invariant 0 <= created <= count
        invariant FruitCells() == SpawnAll(snake.body, start.fruits, draws[..created])
        invariant pendingSpawns == start.pending - created
        invariant gameOver == start.over
        decreases maxPerUpdate - created
      {
        SpawnOneFruit(draws[created]);
        SpawnAllNext(snake.body, start.fruits, draws, created);
        pendingSpawns := pendingSpawns - 1;
        created := created + 1;
      }
      ghost var cells := FruitCells();
      RespawnLoopExit(start, Cfg(), maxPerUpdate, draws, created, cells);
      if |fruits| >= fruitsCount {
        pendingSpawns := 0;
      }
      assert FruitCells() == cells;
    }

    method CheckFail()
      requires |snake.body| >= 1
      modifies this
      ensures State() == Rules.CheckFail(old(State()), cellNumber)
    {
      var head := snake.body[0];
      if !(0 <= head.x < cellNumber && 0 <= head.y < cellNumber) {
        gameOver := true;
        return;
      }
      var rest := snake.body[1..];
      for i := 0 to |rest|
        invariant forall j :: 0 <= j < i ==> rest[j] != head
      {
        if rest[i] == head {
          gameOver := true;
          return;
        }
      }
    }
  }
}
