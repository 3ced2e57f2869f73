/** The snake game: a grid of 20 by 20 cells, a snake that moves one cell per
    tick in the buffered direction, dies on the walls or on itself, and grows
    by one cell and ten points on food. */
module RetroSnake {
  import opened Common

  const GridSize: nat := 20

  datatype Direction = Up | Down | Left | Right
  datatype Point = Point(x: int, y: int)

  function Opposite(d: Direction): (r: Direction)
    ensures r != d
  {
    match d
    case Up => Down
    case Down => Up
    case Left => Right
    case Right => Left
  }

  /** The head moved one cell: `UP` decreases `y`, `DOWN` increases it,
      `LEFT` decreases `x`, `RIGHT` increases it. */
  function Move(p: Point, d: Direction): (r: Point)
    ensures r != p
    ensures (r.x - p.x) * (r.x - p.x) + (r.y - p.y) * (r.y - p.y) == 1
  {
    match d
    case Up => p.(y := p.y - 1)
    case Down => p.(y := p.y + 1)
    case Left => p.(x := p.x - 1)
    case Right => p.(x := p.x + 1)
  }

  /** Moving back the opposite way undoes a move. */
  lemma MoveOpposite(p: Point, d: Direction)
    ensures Move(Move(p, d), Opposite(d)) == p
  {
  }

  predicate InGrid(p: Point) {
    0 <= p.x < GridSize && 0 <= p.y < GridSize
  }

  /** Every segment on the board and no two segments on one cell. */
  predicate WellFormed(s: seq<Point>) {
    && (forall i :: 0 <= i < |s| ==> InGrid(s[i]))
    && (forall i, j :: 0 <= i < j < |s| ==> s[i] != s[j])
  }

  /** The outcome of one tick: a collision, which ends the game and keeps the
      snake, or the moved snake and whether it ate. */
  datatype StepResult = Crash | Advance(snake: seq<Point>, ate: bool)

  /** One tick of the game loop on the snake, with head first. The collision
      test runs over every current segment, the tail included, before the tail
      moves. */
  function Step(snake: seq<Point>, dir: Direction, food: Point): (r: StepResult)
    requires |snake| > 0
    ensures r.Crash? <==> !InGrid(Move(snake[0], dir)) || Move(snake[0], dir) in snake
    ensures r.Advance? ==> |r.snake| > 0 && r.snake[0] == Move(snake[0], dir) && r.ate == (r.snake[0] == food)
    ensures r.Advance? ==> r.snake[1..] == if r.ate then snake else snake[..|snake| - 1]
    ensures r.Advance? ==> |r.snake| == if r.ate then |snake| + 1 else |snake|
  {
    var newHead := Move(snake[0], dir);
    if !InGrid(newHead) then Crash
    else if exists i :: 0 <= i < |snake| && snake[i] == newHead then Crash
    else
      var newSnake := [newHead] + snake;
      if newHead == food then Advance(newSnake, true)
      else Advance(newSnake[..|newSnake| - 1], false)
  }

  lemma WellFormedCons(h: Point, s: seq<Point>)
    requires WellFormed(s) && InGrid(h) && h !in s
    ensures WellFormed([h] + s)
  {
    var t := [h] + s;
    forall i, j | 0 <= i < j < |t| ensures t[i] != t[j] {
      if i == 0 {
        assert t[j] == s[j - 1];
      } else {
        assert t[i] == s[i - 1] && t[j] == s[j - 1];
      }
    }
  }

  lemma WellFormedPrefix(s: seq<Point>, k: nat)
    requires WellFormed(s) && k <= |s|
    ensures WellFormed(s[..k])
  {
  }

  /** A tick that does not crash keeps every segment on the board and all
      segments apart. */
  lemma StepPreservesWellFormed(snake: seq<Point>, dir: Direction, food: Point)
    requires |snake| > 0 && WellFormed(snake)
    ensures Step(snake, dir, food).Advance? ==> WellFormed(Step(snake, dir, food).snake)
  {
    var r := Step(snake, dir, food);
    if r.Advance? {
      var h := Move(snake[0], dir);
      var rest := if r.ate then snake else snake[..|snake| - 1];
      WellFormedPrefix(snake, |rest|);
      assert forall p :: p in rest ==> p in snake;
      WellFormedCons(h, rest);
      assert r.snake == [h] + rest;
    }
  }

  /** Running head-first into the tail cell is a crash even though the tail
      would have moved away in the same tick. */
  lemma TailCollisionCrashes()
    ensures Step([Point(0, 0), Point(1, 0), Point(1, 1), Point(0, 1)], Down, Point(5, 5)) == Crash
  {
    var s := [Point(0, 0), Point(1, 0), Point(1, 1), Point(0, 1)];
    assert Move(s[0], Down) == s[3];
  }

  /** The keyboard guard: a turn is taken unless it is straight back along the
      buffered direction. */
  function KeyTurn(current: Direction, key: Direction): (r: Direction)
    ensures r == key || r == current
    ensures r != Opposite(current)
    ensures key != Opposite(current) ==> r == key
  {
    if current != Opposite(key) then key else current
  }

  /** The buffer is overwritten on every accepted key, so two keys between
      ticks can still turn the snake straight back, into its own neck. */
  lemma DoubleTurnReverses()
    ensures KeyTurn(KeyTurn(Right, Up), Left) == Opposite(Right)
    ensures AfterKeys(KeyTurn, Right, [Up, Left]) == Opposite(Right)
    ensures Step([Point(10, 10), Point(9, 10)], KeyTurn(KeyTurn(Right, Up), Left), Point(15, 5)) == Crash
  {
    assert Move(Point(10, 10), Left) == Point(9, 10);
  }

  /** Applies the keys pressed between two ticks, each through `turn`, to the
      buffered direction. */
  function AfterKeys(turn: (Direction, Direction) -> Direction, buffered: Direction, keys: seq<Direction>): Direction
    decreases |keys|
  {
    if keys == [] then buffered else AfterKeys(turn, turn(buffered, keys[0]), keys[1..])
  }

  /** The guard the buffer was meant to provide: a key is refused when it
      reverses the direction of the last tick, `moved`, whatever the buffer
      holds by now. */
  function GuardedTurn(moved: Direction, buffered: Direction, key: Direction): (r: Direction)
    ensures r == key || r == buffered
    ensures key != Opposite(moved) ==> r == key
    ensures buffered != Opposite(moved) ==> r != Opposite(moved)
  {
    if key != Opposite(moved) then key else buffered
  }

  /** With that guard no sequence of keys between two ticks turns the snake
      straight back. */
  lemma {:induction false} GuardedKeysNeverReverse(moved: Direction, buffered: Direction, keys: seq<Direction>)
    requires buffered != Opposite(moved)
    ensures AfterKeys((b, k) => GuardedTurn(moved, b, k), buffered, keys) != Opposite(moved)
    decreases |keys|
  {
    if keys != [] {
      GuardedKeysNeverReverse(moved, GuardedTurn(moved, buffered, keys[0]), keys[1..]);
    }
  }

  /** Two directions that move a cell to the same place are the same. */
  lemma MoveInjective(p: Point, d: Direction, e: Direction)
    requires Move(p, d) == Move(p, e)
    ensures d == e
  {
  }

  /** So the head never runs into the neck, the cell it came from on the last
      tick. */
  lemma GuardedTickSparesNeck(snake: seq<Point>, moved: Direction, keys: seq<Direction>)
    requires |snake| >= 2 && snake[0] == Move(snake[1], moved)
    ensures Move(snake[0], AfterKeys((b, k) => GuardedTurn(moved, b, k), moved, keys)) != snake[1]
  {
    var dir := AfterKeys((b, k) => GuardedTurn(moved, b, k), moved, keys);
    GuardedKeysNeverReverse(moved, moved, keys);
    MoveOpposite(snake[1], moved);
    if Move(snake[0], dir) == snake[1] {
      MoveInjective(snake[0], dir, Opposite(moved));
    }
  }

  /** `spawnFood`: two uniform draws scaled to the grid. */
  function SpawnFood(rx: real, ry: real): (p: Point)
    requires 0.0 <= rx < 1.0 && 0.0 <= ry < 1.0
    ensures InGrid(p)
  {
    Point(Pick(rx, GridSize), Pick(ry, GridSize))
  }

  const StartSnake: seq<Point> := [Point(10, 10)]

  /** The component state. `direction` is the rendered direction and
      `directionRef` the buffer the tick reads; both are written together.
      The random draws of `spawnFood` are parameters of the methods that
      spawn food. */
  class SnakeGame {
    var snake: seq<Point>
    var food: Point
    var direction: Direction
    var directionRef: Direction
    var isPlaying: bool
    var score: int
    var highScore: int
    var gameOver: bool

    ghost predicate Valid()
      reads this
    {
      |snake| > 0 && WellFormed(snake) && direction == directionRef
    }

    /** The state before the first press of start. The stored high score is
        not modelled: it starts at 0. */
    constructor()
      ensures Valid()
      ensures snake == StartSnake && food == Point(15, 5)
      ensures direction == Right && directionRef == Right
      ensures !isPlaying && score == 0 && highScore == 0 && !gameOver
    {
      snake := StartSnake;
      food := Point(15, 5);
      direction := Right;
      directionRef := Right;
      isPlaying := false;
      score := 0;
      highScore := 0;
      gameOver := false;
    }

    /** `changeDir`: both the rendered direction and the buffer. */
    method ChangeDir(newDir: Direction)
      modifies this
      ensures direction == newDir && directionRef == newDir
      ensures snake == old(snake) && food == old(food) && isPlaying == old(isPlaying)
      ensures score == old(score) && highScore == old(highScore) && gameOver == old(gameOver)
    {
      direction := newDir;
      directionRef := newDir;
    }

    /** An arrow key: guarded against the buffered direction. */
    method KeyDown(key: Direction)
      requires Valid()
      modifies this
      ensures Valid()
      ensures directionRef == KeyTurn(old(directionRef), key)
      ensures snake == old(snake) && food == old(food) && isPlaying == old(isPlaying)
      ensures score == old(score) && highScore == old(highScore) && gameOver == old(gameOver)
    {
      if directionRef != Opposite(key) {
        ChangeDir(key);
      }
    }

    /** A button of the on-screen pad: guarded against the rendered direction. */
    method PadPress(key: Direction)
      requires Valid()
      modifies this
      ensures Valid()
      ensures direction == KeyTurn(old(direction), key)
      ensures snake == old(snake) && food == old(food) && isPlaying == old(isPlaying)
      ensures score == old(score) && highScore == old(highScore) && gameOver == old(gameOver)
    {
      if direction != Opposite(key) {
        ChangeDir(key);
      }
    }

    /** `resetGame`. */
    method ResetGame(rx: real, ry: real)
      requires 0.0 <= rx < 1.0 && 0.0 <= ry < 1.0
      modifies this
      ensures Valid()
      ensures snake == StartSnake && food == SpawnFood(rx, ry)
      ensures direction == Right && directionRef == Right
      ensures score == 0 && !gameOver && isPlaying && highScore == old(highScore)
    {
      snake := StartSnake;
      food := SpawnFood(rx, ry);
      direction := Right;
      directionRef := Right;
      score := 0;
      gameOver := false;
      isPlaying := true;
    }

    /** `gameOverLogic`, without the vibration. */
    method GameOverLogic()
      modifies this
      ensures !isPlaying && gameOver
      ensures snake == old(snake) && food == old(food) && direction == old(direction)
      ensures directionRef == old(directionRef) && score == old(score) && highScore == old(highScore)
    {
      isPlaying := false;
      gameOver := true;
    }

    /** One interval tick, which only runs while playing: a crash ends the
        game and keeps the snake; otherwise the snake advances, and on food
        the score rises by ten and new food is spawned from `rx`, `ry`. */
    method Tick(rx: real, ry: real)
      requires Valid() && isPlaying
      requires 0.0 <= rx < 1.0 && 0.0 <= ry < 1.0
      modifies this
      ensures Valid()
      ensures direction == old(direction) && directionRef == old(directionRef) && highScore == old(highScore)
      ensures Step(old(snake), old(directionRef), old(food)).Crash? ==>
        snake == old(snake) && food == old(food) && score == old(score) && !isPlaying && gameOver
      ensures Step(old(snake), old(directionRef), old(food)).Advance? ==>
        && snake == Step(old(snake), old(directionRef), old(food)).snake
        && isPlaying && gameOver == old(gameOver)
        && (if Step(old(snake), old(directionRef), old(food)).ate
            then score == old(score) + 10 && food == SpawnFood(rx, ry)
            else score == old(score) && food == old(food))
    {
      StepPreservesWellFormed(snake, directionRef, food);
      var head := snake[0];
      var newHead := Move(head, directionRef);
      if newHead.x < 0 || newHead.x >= GridSize || newHead.y < 0 || newHead.y >= GridSize {
        GameOverLogic();
        return;
      }
      if exists i :: 0 <= i < |snake| && snake[i] == newHead {
        GameOverLogic();
        return;
      }
      var newSnake := [newHead] + snake;
      if newHead == food {
        score := score + 10;
        food := SpawnFood(rx, ry);
      } else {
        newSnake := newSnake[..|newSnake| - 1];
      }
      snake := newSnake;
    }

    /** The high-score effect: raised to the score when the score passes it. */
    method SyncHighScore()
      modifies this
      ensures highScore >= old(highScore) && highScore >= score
      ensures highScore == if old(score) > old(highScore) then old(score) else old(highScore)
      ensures snake == old(snake) && food == old(food) && direction == old(direction)
      ensures directionRef == old(directionRef) && score == old(score)
      ensures isPlaying == old(isPlaying) && gameOver == old(gameOver)
    {
      if score > highScore {
        highScore := score;
      }
    }
  }
}
