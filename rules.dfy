/**
 * The simulation engine of the snake game as values: one function per step of a tick,
 * per input, and per spawn. The classes in module Engine are proved to change their
 * fields exactly as these functions say.
 */
module Rules {
  import opened Grid

  /** Length of the snake on construction and after reset; the score is the length above it. */
  const StartLength: nat := 3
  const StartBody: seq<Vec> := [Vec(5, 10), Vec(4, 10), Vec(3, 10)]

  /** A spawn tries `n * n` plus this many random cells before it gives up. */
  const SpareAttempts: nat := 200

  function MaxAttempts(n: int): int {
    n * n + SpareAttempts
  }

  /**
   * The cells one spawn would draw with two calls of randint(0, n - 1) per attempt:
   * one per attempt, each on the board. The game consumes them from the front.
   */
  predicate ValidDraw(n: int, draw: seq<Vec>) {
    |draw| == MaxAttempts(n) && AllInBounds(draw, n)
  }

  predicate ValidDraws(n: int, draws: seq<seq<Vec>>) {
    forall i :: 0 <= i < |draws| ==> ValidDraw(n, draws[i])
  }

  // ---------------------------------------------------------------- snake

  /** Body head-first, heading, and the deferred-growth flag (`new_block`). */
  datatype SnakeState = SnakeState(body: seq<Vec>, direction: Vec, newBlock: bool)

  const StartSnake := SnakeState(StartBody, Zero, false)

  /** What a move needs so that it does not index an empty body. */
  predicate CanMove(s: SnakeState) {
    s.direction == Zero || |s.body| >= (if s.newBlock then 1 else 2)
  }

  /**
   * One step: unless the heading is zero, a new head one heading ahead of the old one
   * is put in front; the tail is dropped unless growth is pending, and growth is cleared.
   */
  function Move(s: SnakeState): (r: SnakeState)
    requires CanMove(s)
    ensures r.direction == s.direction
    ensures s.direction == Zero ==> r == s
    ensures s.direction != Zero ==>
              && !r.newBlock
              && |r.body| == |s.body| + (if s.newBlock then 1 else 0)
              && r.body[0] == Add(s.body[0], s.direction)
              && r.body[1..] == s.body[..|r.body| - 1]
  {
    if s.direction == Zero then s
    else
      var kept := if s.newBlock then s.body else s.body[..|s.body| - 1];
      SnakeState([Add(kept[0], s.direction)] + kept, s.direction, false)
  }

  /** Length above the start length, never negative. */
  function Score(body: seq<Vec>): (score: nat)
    ensures |body| >= StartLength ==> score + StartLength == |body|
    ensures |body| <= StartLength ==> score == 0
  {
    if |body| > StartLength then |body| - StartLength else 0
  }

  // ---------------------------------------------------------------- input

  /** The four arrow keys; every other key is `KeyOther`. */
  datatype Key = KeyUp | KeyRight | KeyDown | KeyLeft | KeyOther

  function KeyHeading(k: Key): Vec
    requires !k.KeyOther?
  {
    match k
    case KeyUp => Up
    case KeyRight => Right
    case KeyDown => Down
    case KeyLeft => Left
  }

  /**
   * The heading after key `k`: the key's heading unless that is the exact opposite of
   * the current one. From a standing start every arrow key is accepted.
   */
  function Steer(d: Vec, k: Key): (r: Vec)
    ensures r == d || (!k.KeyOther? && r == KeyHeading(k))
    ensures IsHeading(d) ==>
              r == if k.KeyOther? || KeyHeading(k) == Opposite(d) then d else KeyHeading(k)
  {
    if k == KeyUp && d.y != 1 then Up
    else if k == KeyRight && d.x != -1 then Right
    else if k == KeyDown && d.y != -1 then Down
    else if k == KeyLeft && d.x != 1 then Left
    else d
  }

  // ---------------------------------------------------------------- fruit

  /** Index of the first candidate not in `occupied`, or `|draw|` when there is none. */
  function FirstFreeIndex(draw: seq<Vec>, occupied: set<Vec>): (k: nat)
    ensures k <= |draw|
    ensures k < |draw| ==> draw[k] !in occupied
    ensures forall j :: 0 <= j < k ==> draw[j] in occupied
  {
    if draw == [] then 0
    else if draw[0] !in occupied then 0
    else 1 + FirstFreeIndex(draw[1..], occupied)
  }

  /**
   * Where a fruit at `current` ends up after a spawn that draws `draw`: on the first
   * free candidate, or where it was when every candidate is occupied.
   */
  function Place(draw: seq<Vec>, occupied: set<Vec>, current: Vec): (r: Vec)
    ensures r == current || r in draw
    ensures (exists i :: 0 <= i < |draw| && draw[i] !in occupied) ==> r in draw && r !in occupied
    ensures (forall i :: 0 <= i < |draw| ==> draw[i] in occupied) ==> r == current
    ensures FirstFreeIndex(draw, occupied) < |draw| ==> r == draw[FirstFreeIndex(draw, occupied)]
  {
    var k := FirstFreeIndex(draw, occupied);
    if k < |draw| then draw[k] else current
  }

  /** The cells covered by the body or by a fruit. */
  function Occupied(body: seq<Vec>, fruits: seq<Vec>): (cells: set<Vec>)
    ensures forall c :: c in cells <==> c in body || c in fruits
  {
    (set c | c in body) + (set c | c in fruits)
  }

  /** A new fruit starts at (0, 0) and is then spawned against the current occupancy. */
  function NewFruit(body: seq<Vec>, fruits: seq<Vec>, draw: seq<Vec>): (r: Vec)
    ensures r == Zero || r in draw
    ensures (exists i :: 0 <= i < |draw| && draw[i] !in body && draw[i] !in fruits) ==>
              r in draw && r !in body && r !in fruits
  {
    Place(draw, Occupied(body, fruits), Zero)
  }

  /** `fruits` followed by one new fruit per draw, each spawned after the ones before it. */
  function SpawnAll(body: seq<Vec>, fruits: seq<Vec>, draws: seq<seq<Vec>>): (r: seq<Vec>)
    ensures |r| == |fruits| + |draws|
    ensures r[..|fruits|] == fruits
  {
    if draws == [] then fruits
    else
      var prev := SpawnAll(body, fruits, draws[..|draws| - 1]);
      prev + [NewFruit(body, prev, draws[|draws| - 1])]
  }

  // ---------------------------------------------------------------- game

  /** Board size and the number of fruit the board tries to keep. */
  datatype Config = Config(cellNumber: int, fruitsCount: int)

  /** The constructor clamps the fruit count to at least one. */
  function MakeConfig(cellNumber: int, fruitsCount: int): (cfg: Config)
    ensures cfg.cellNumber == cellNumber && cfg.fruitsCount >= 1
    ensures fruitsCount >= 1 ==> cfg.fruitsCount == fruitsCount
    ensures fruitsCount < 1 ==> cfg.fruitsCount == 1
  {
    Config(cellNumber, if fruitsCount > 1 then fruitsCount else 1)
  }

  /**
   * The whole engine state: the snake, the fruit positions in list order, the number of
   * fruit still to respawn, the terminal flag, and how many "fruit eaten" events were emitted.
   */
  datatype Game = Game(snake: SnakeState, fruits: seq<Vec>, pending: int, over: bool, crunches: nat)

  /** The state after construction (`crunches` 0) or reset (`crunches` kept). */
  function Fresh(draws: seq<seq<Vec>>, crunches: nat): (g: Game)
    ensures g.snake == StartSnake && |g.fruits| == |draws|
    ensures g.pending == 0 && !g.over && g.crunches == crunches
  {
    Game(StartSnake, SpawnAll(StartBody, [], draws), 0, false, crunches)
  }

  function HandleKey(g: Game, k: Key): (r: Game)
    ensures g.over ==> r == g
    ensures r == g.(snake := g.snake.(direction := r.snake.direction))
    ensures !g.over ==> r.snake.direction == Steer(g.snake.direction, k)
  {
    if g.over then g
    else g.(snake := g.snake.(direction := Steer(g.snake.direction, k)))
  }

  /** Index of the first element equal to `x`, or `|s|` when `x` is absent. */
  function IndexOf(s: seq<Vec>, x: Vec): (k: nat)
    ensures k <= |s|
    ensures k < |s| ==> s[k] == x
    ensures forall j :: 0 <= j < k ==> s[j] != x
  {
    if s == [] then 0
    else if s[0] == x then 0
    else 1 + IndexOf(s[1..], x)
  }

  /**
   * The eat step: if the head is on a fruit, the first such fruit is removed, growth is
   * scheduled, one respawn is owed and one event is emitted; otherwise nothing changes.
   */
  function CheckEat(g: Game): (r: Game)
    requires |g.snake.body| >= 1
    ensures g.snake.body[0] !in g.fruits ==> r == g
    ensures g.snake.body[0] in g.fruits ==>
              var i := IndexOf(g.fruits, g.snake.body[0]);
              && i < |g.fruits|
              && r.fruits == g.fruits[..i] + g.fruits[i + 1..]
              && r.snake == g.snake.(newBlock := true)
              && r.pending == g.pending + 1
              && r.crunches == g.crunches + 1
              && r.over == g.over
  {
    var head := g.snake.body[0];
    var i := IndexOf(g.fruits, head);
    if i < |g.fruits| then
      g.(fruits := g.fruits[..i] + g.fruits[i + 1..],
         snake := g.snake.(newBlock := true),
         pending := g.pending + 1,
         crunches := g.crunches + 1)
    else g
  }

  /** The head is off the board or on another segment of the body. */
  predicate Collides(body: seq<Vec>, n: int)
    requires |body| >= 1
  {
    !InBounds(body[0], n) || exists i :: 1 <= i < |body| && body[i] == body[0]
  }

  /** The fail step: game over on a wall or self collision; nothing else changes. */
  function CheckFail(g: Game, n: int): (r: Game)
    requires |g.snake.body| >= 1
    ensures r == g.(over := r.over)
    ensures r.over <==> g.over || Collides(g.snake.body, n)
  {
    var head := g.snake.body[0];
    if !(0 <= head.x < n && 0 <= head.y < n) then g.(over := true)
    else if head in g.snake.body[1..] then g.(over := true)
    else g
  }

  /**
   * How many fruit one respawn step creates: no more than `maxPer`, than are owed, or
   * than there is room for below the target count.
   */
  function SpawnCount(g: Game, cfg: Config, maxPer: int): (c: nat)
    ensures c > 0 ==> c <= maxPer && c <= g.pending && |g.fruits| + c <= cfg.fruitsCount
    ensures c < maxPer && c < g.pending ==> |g.fruits| + c >= cfg.fruitsCount
  {
    var room := cfg.fruitsCount - |g.fruits|;
    var limit := if maxPer < g.pending then maxPer else g.pending;
    var m := if limit < room then limit else room;
    if m > 0 then m else 0
  }

  /**
   * The respawn step: when fruit are owed, spawn `SpawnCount` of them one after another
   * (each against the cells taken so far) and pay one owed fruit per fruit created; a
   * full board drops whatever is still owed.
   */
  function ProcessPendingSpawns(g: Game, cfg: Config, maxPer: int, draws: seq<seq<Vec>>): (r: Game)
    requires maxPer <= |draws|
    ensures g.pending <= 0 ==> r == g
    ensures r.snake == g.snake && r.over == g.over && r.crunches == g.crunches
  {
    if g.pending <= 0 then g
    else
      var c := SpawnCount(g, cfg, maxPer);
      var fruits := SpawnAll(g.snake.body, g.fruits, draws[..c]);
      g.(fruits := fruits, pending := if |fruits| >= cfg.fruitsCount then 0 else g.pending - c)
  }

  /** What a tick needs: a head to read after the move. */
  predicate Steppable(s: SnakeState) {
    |s.body| >= 1 && CanMove(s)
  }

  /** The state after the move step (the first step of a tick). */
  function Moved(g: Game): Game
    requires Steppable(g.snake)
  {
    g.(snake := Move(g.snake))
  }

  /** One tick: move, eat, fail check, then at most one respawn (using `draw`). */
  function Update(g: Game, cfg: Config, draw: seq<Vec>): (r: Game)
    requires g.over || Steppable(g.snake)
    ensures g.over ==> r == g
  {
    if g.over then g
    else
      var fed := CheckEat(Moved(g));
      var checked := CheckFail(fed, cfg.cellNumber);
      ProcessPendingSpawns(checked, cfg, 1, [draw])
  }

  /**
   * What every reachable state satisfies: the body keeps at least its start length and
   * stays connected, the heading is one of the five, every fruit is on the board, and
   * the fruit still owed are exactly the board's deficit.
   */
  ghost predicate Inv(g: Game, cfg: Config) {
    && cfg.cellNumber >= 1
    && cfg.fruitsCount >= 1
    && |g.snake.body| >= StartLength
    && Contiguous(g.snake.body)
    && IsHeading(g.snake.direction)
    && AllInBounds(g.fruits, cfg.cellNumber)
    && g.pending >= 0
    && |g.fruits| + g.pending == cfg.fruitsCount
  }
}
