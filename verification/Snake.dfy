/**
 The game of snake.py: a state machine driven by frames of key events, each frame ended by
 one move of the snake.
 */
module Snake {
  import opened Bytes

  const GRID_WIDTH := 30
  const GRID_HEIGHT := 20
  const CELLS := GRID_WIDTH * GRID_HEIGHT

  datatype Direction = Up | Down | Left | Right {
    function Opposite(): Direction {
      match this
      case Up => Down
      case Down => Up
      case Left => Right
      case Right => Left
    }
  }

  datatype Cell = Cell(x: int, y: int) {
    function Plus(d: Direction): Cell {
      match d
      case Up => Cell(x, y - 1)
      case Down => Cell(x, y + 1)
      case Left => Cell(x - 1, y)
      case Right => Cell(x + 1, y)
    }

    predicate InGrid() {
      0 <= x < GRID_WIDTH && 0 <= y < GRID_HEIGHT
    }
  }

  /** The two cells share an edge. */
  ghost predicate Adjacent(a: Cell, b: Cell) {
    (a.x == b.x && (a.y == b.y + 1 || b.y == a.y + 1)) || (a.y == b.y && (a.x == b.x + 1 || b.x == a.x + 1))
  }

  datatype Event = Quit | Escape | Pause | Restart(choice: nat) | Turn(to: Direction) | Other

  /** The events waiting at the start of a frame, and the random choice its move may need. */
  datatype Frame = Frame(events: seq<Event>, choice: nat)

  // A snake is a path of cells that does not meet itself.

  ghost predicate Distinct<T>(s: seq<T>) {
    forall i, j :: 0 <= i < j < |s| ==> s[i] != s[j]
  }

  ghost predicate IsSnake(body: seq<Cell>)
    ensures IsSnake(body) ==> 0 < |body|
  {
    && 0 < |body|
    && (forall c :: c in body ==> c.InGrid())
    && Distinct(body)
    && (forall i :: 0 <= i < |body| - 1 ==> Adjacent(body[i], body[i + 1]))
  }

  ghost predicate FillsGrid(body: seq<Cell>) {
    forall c: Cell :: c.InGrid() ==> c in body
  }

  // Counting cells.

  /** `n` distinct numbers below `n` are all of them. */
  lemma {:induction false} Pigeonhole(s: seq<nat>, n: nat)
    requires Distinct(s) && forall v :: v in s ==> v < n
    ensures |s| <= n
    ensures |s| == n <==> forall v: nat :: v < n ==> v in s
    decreases n
  {
    assert s == [] || (s[0] in s && s[0] < n);
    if n == 0 {
    } else if i :| 0 <= i < |s| && s[i] == n - 1 {
      var rest := s[..i] + s[i + 1..];
      assert forall v :: v in s <==> v in rest || v == n - 1;
      Pigeonhole(rest, n - 1);
      assert forall v: nat :: v < n - 1 ==> (v in rest <==> v in s);
    } else {
      Pigeonhole(s, n - 1);
      assert n - 1 !in s;
    }
  }

  function Number(c: Cell): (r: nat)
    requires c.InGrid()
    ensures r < CELLS && r / GRID_HEIGHT == c.x && r % GRID_HEIGHT == c.y
  {
    c.x * GRID_HEIGHT + c.y
  }

  ghost function Numbers(body: seq<Cell>): (r: seq<nat>)
    requires forall c :: c in body ==> c.InGrid()
    ensures |r| == |body| && forall i :: 0 <= i < |body| ==> r[i] == Number(body[i])
  {
    seq(|body|, i requires 0 <= i < |body| => Number(body[i]))
  }

  /** A snake has at most as many cells as the grid, and as many exactly when it fills it. */
  lemma {:induction false} LongestSnake(body: seq<Cell>)
    requires IsSnake(body)
    ensures |body| <= CELLS
    ensures |body| == CELLS <==> FillsGrid(body)
  {
    hide Number;
    var numbers := Numbers(body);
    forall i, j | 0 <= i < j < |body| ensures numbers[i] != numbers[j] {
      assert body[i].x != body[j].x || body[i].y != body[j].y;
    }
    Pigeonhole(numbers, CELLS);
    if FillsGrid(body) {
      forall v: nat | v < CELLS ensures v in numbers {
        var c := Cell(v / GRID_HEIGHT, v % GRID_HEIGHT);
        assert c in body;
        var i :| 0 <= i < |body| && body[i] == c;
        SameNumber(c, v);
        assert numbers[i] == v;
      }
    }
    if |body| == CELLS {
      forall c: Cell | c.InGrid() ensures c in body {
        assert Number(c) in numbers;
        var i :| 0 <= i < |body| && numbers[i] == Number(c);
        assert body[i] == c;
      }
    }
  }

  lemma {:induction false} SameNumber(c: Cell, v: nat)
    requires c.InGrid() && c.x == v / GRID_HEIGHT && c.y == v % GRID_HEIGHT
    ensures Number(c) == v
  {
  }

  // Food.

  /** Cell `b` comes after cell `a` column by column. */
  ghost predicate After(a: Cell, b: Cell) {
    a.x < b.x || (a.x == b.x && a.y < b.y)
  }

  /** Every cell the body leaves free, once each. */
  method FreeCells(body: seq<Cell>) returns (free: seq<Cell>)
    ensures forall c :: c in free <==> c.InGrid() && c !in body
    ensures Distinct(free)
  {
    free := [];
    for x := 0 to GRID_WIDTH
      invariant forall c :: c in free <==> c.InGrid() && c !in body && After(c, Cell(x, 0))
      invariant Distinct(free)
    {
      for y := 0 to GRID_HEIGHT
        invariant forall c :: c in free <==> c.InGrid() && c !in body && After(c, Cell(x, y))
        invariant Distinct(free)
      {
        if Cell(x, y) !in body {
          free := free + [Cell(x, y)];
        }
      }
    }
  }

  /** A free cell, any of them according to the choice; none exactly if there is none. */
  method RandomFood(body: seq<Cell>, choice: nat) returns (food: Option<Cell>)
    ensures food.Some? ==> food.value.InGrid() && food.value !in body
    ensures food.None? <==> FillsGrid(body)
  {
    var free := FreeCells(body);
    if free == [] {
      return None;
    }
    food := Some(free[choice % |free|]);
    assert food.value in free;
  }

  // Moving.

  /** The snake cannot move to `to`: outside, or onto a cell it will still occupy. */
  predicate Blocked(body: seq<Cell>, food: Option<Cell>, to: Cell)
    requires 0 < |body|
  {
    !to.InGrid() || to in (if food == Some(to) then body else body[..|body| - 1])
  }

  function Moved(body: seq<Cell>, food: Option<Cell>, to: Cell): (r: seq<Cell>)
    requires 0 < |body|
  {
    [to] + (if food == Some(to) then body else body[..|body| - 1])
  }

  /** A move is blocked exactly if it would not leave a snake. */
  lemma {:induction false} MovedIsSnake(body: seq<Cell>, food: Option<Cell>, d: Direction)
    requires IsSnake(body)
    ensures !Blocked(body, food, body[0].Plus(d)) <==> IsSnake(Moved(body, food, body[0].Plus(d)))
  {
    var to := body[0].Plus(d);
    var moved, kept := Moved(body, food, to), if food == Some(to) then body else body[..|body| - 1];
    assert moved[0] in moved && forall i :: 1 <= i < |moved| ==> moved[i] == body[i - 1] == kept[i - 1];
    if !Blocked(body, food, to) {
      forall i | 0 <= i < |moved| - 1 ensures Adjacent(moved[i], moved[i + 1]) {
        if i > 0 {
          assert Adjacent(body[i - 1], body[i]);
        }
      }
    } else if to in kept {
      var i :| 0 <= i < |kept| && kept[i] == to;
      assert moved[0] == moved[i + 1];
    }
  }

  /** The cells the head has visited since the start, oldest first: the body is the newest of
      them, newest first. */
  ghost predicate Trails(trail: seq<Cell>, body: seq<Cell>) {
    |body| <= |trail| && forall i :: 0 <= i < |body| ==> body[i] == trail[|trail| - 1 - i]
  }

  lemma {:induction false} TrailsNext(trail: seq<Cell>, body: seq<Cell>, food: Option<Cell>, to: Cell)
    requires 0 < |body| && Trails(trail, body)
    ensures Trails(trail + [to], Moved(body, food, to))
  {
  }

  /** Each turn moves the head by one cell, up and down along the column and left and right along
      the row. */
  ghost predicate Displaced(from: Cell, d: Direction, to: Cell) {
    && (d == Up ==> to.x == from.x && to.y == from.y - 1)
    && (d == Down ==> to.x == from.x && to.y == from.y + 1)
    && (d == Left ==> to.x == from.x - 1 && to.y == from.y)
    && (d == Right ==> to.x == from.x + 1 && to.y == from.y)
  }

  /** The head came from its neck in direction `d`. */
  ghost predicate Follows(body: seq<Cell>, d: Direction) {
    1 < |body| ==> body[0] == body[1].Plus(d)
  }

  /** A head that came from its neck and does not reverse does not go back to it. */
  lemma {:induction false} NeverBack(body: seq<Cell>, came: Direction, goes: Direction)
    requires Follows(body, came) && goes != came.Opposite()
    ensures 1 < |body| ==> body[0].Plus(goes) != body[1]
  {
  }

  /** A snake of the score's length on the trail of its head, and food beside it unless it fills
      the grid. */
  ghost predicate Board(body: seq<Cell>, food: Option<Cell>, score: nat, trail: seq<Cell>)
    ensures Board(body, food, score, trail) ==> 0 < |body| && (food.None? <==> FillsGrid(body))
  {
    && IsSnake(body)
    && score == |body| - 1
    && Trails(trail, body)
    && (food.Some? ==> food.value.InGrid() && food.value !in body)
    && (food.None? <==> FillsGrid(body))
  }

  lemma {:induction false} BoardMoves(body: seq<Cell>, food: Option<Cell>, score: nat, trail: seq<Cell>, d: Direction)
    requires Board(body, food, score, trail)
    requires food != Some(body[0].Plus(d)) && !Blocked(body, food, body[0].Plus(d))
    ensures var to := body[0].Plus(d);
            Board(Moved(body, food, to), food, score, trail + [to])
  {
    hide IsSnake, FillsGrid, Trails;
    var to := body[0].Plus(d);
    MovedIsSnake(body, food, d);
    TrailsNext(trail, body, food, to);
    SameLength(body, Moved(body, food, to));
  }

  /** Food is never out of reach. */
  lemma {:induction false} FoodInReach(body: seq<Cell>, food: Option<Cell>, score: nat, trail: seq<Cell>, to: Cell)
    requires Board(body, food, score, trail) && food == Some(to)
    ensures !Blocked(body, food, to)
  {
  }

  lemma {:induction false} BoardEats(body: seq<Cell>, food: Option<Cell>, score: nat, trail: seq<Cell>, d: Direction, next: Option<Cell>)
    requires Board(body, food, score, trail) && food == Some(body[0].Plus(d))
    requires var grown := [body[0].Plus(d)] + body;
             (next.Some? ==> next.value.InGrid() && next.value !in grown) && (next.None? <==> FillsGrid(grown))
    ensures var to := body[0].Plus(d);
            Board([to] + body, next, score + 1, trail + [to])
  {
    hide IsSnake, FillsGrid, Trails;
    MovedIsSnake(body, food, d);
    TrailsNext(trail, body, food, body[0].Plus(d));
  }

  class Game {
    var body: seq<Cell>
    var direction: Direction
    var nextDirection: Direction
    var food: Option<Cell>
    var score: nat
    var gameOver: bool
    var paused: bool
    var running: bool

    /** Where the head has been since the last start. */
    ghost var trail: seq<Cell>

    ghost predicate Valid()
      reads this
    {
      && Board(body, food, score, trail)
      && nextDirection != direction.Opposite()
      && (!gameOver ==> Follows(body, direction))
      && (food.None? ==> gameOver)
      && !(gameOver && paused)
    }

    /** A game that has just begun. */
    ghost predicate Started()
      reads this
    {
      && body == trail == [Cell(15, 10)]
      && direction == nextDirection == Right
      && score == 0 && !gameOver && !paused
    }

    constructor (choice: nat)
      ensures Valid() && Started() && running
    {
      running := true;
      new;
      Reset(choice);
    }

    method Reset(choice: nat)
      modifies this
      ensures Valid() && Started() && running == old(running)
    {
      body, direction, score, gameOver, paused := [Cell(GRID_WIDTH / 2, GRID_HEIGHT / 2)], Right, 0, false, false;
      food := RandomFood(body, choice);
      nextDirection := direction;
      trail := body;
      NotFull(body);
    }

    /** One key. A turn is taken unless it would reverse the direction of the last move. */
    method Handle(event: Event)
      requires Valid()
      modifies this
      ensures Valid()
      ensures running == (old(running) && !event.Quit? && !event.Escape?)
      ensures event.Restart? ==> Started()
      ensures !event.Restart? ==> body == old(body) && food == old(food) && trail == old(trail)
                                  && direction == old(direction) && gameOver == old(gameOver)
      ensures !event.Restart? ==> paused == (if event.Pause? && !gameOver then !old(paused) else old(paused))
      ensures !event.Restart? ==> nextDirection ==
                                  if event.Turn? && event.to.Opposite() != direction then event.to else old(nextDirection)
    {
      hide Board, FillsGrid, Follows;
      match event
      case Quit => running := false;
      case Escape => running := false;
      case Pause =>
        if !gameOver {
          paused := !paused;
        }
      case Restart(choice) => Reset(choice);
      case Turn(to) =>
        if direction != to.Opposite() {
          nextDirection := to;
        }
      case Other =>
    }

    /** One move. The snake never turns back on itself, food is never out of its reach, and the
        game ends exactly when the way is blocked or the snake fills the grid. */
    method Update(choice: nat)
      requires Valid()
      modifies this
      ensures Valid()
      ensures running == old(running) && paused == old(paused) && nextDirection == old(nextDirection)
      ensures old(paused || gameOver) ==> body == old(body) && food == old(food) && trail == old(trail)
                                          && direction == old(direction) && gameOver == old(gameOver)
      ensures !old(paused || gameOver) ==>
                var to := old(body[0]).Plus(direction);
                && direction == old(nextDirection)
                && Displaced(old(body[0]), direction, to)
                && (|old(body)| > 1 ==> to != old(body)[1])
                && (old(food) == Some(to) ==> !Blocked(old(body), old(food), to))
                && (Blocked(old(body), old(food), to) ==>
                      gameOver && body == old(body) && food == old(food) && trail == old(trail))
                && (!Blocked(old(body), old(food), to) ==>
                      && body == Moved(old(body), old(food), to)
                      && trail == old(trail) + [to]
                      && (food == old(food) || old(food) == Some(to))
                      && (gameOver <==> FillsGrid(body)))
    {
      hide Board, FillsGrid, Blocked, Moved, Follows;
      if paused || gameOver {
        return;
      }
      NeverBack(body, direction, nextDirection);
      direction := nextDirection;
      var to := body[0].Plus(direction);
      var eating := Some(to) == food;
      if eating {
        FoodInReach(body, food, score, trail, to);
      }
      if Blocked(body, food, to) {
        gameOver := true;
        return;
      }
      if eating {
        Eat(to, choice);
      } else {
        Slide(to);
      }
    }

    /** The snake moves by one cell. */
    method Slide(to: Cell)
      requires Board(body, food, score, trail) && food != Some(to) && to == body[0].Plus(direction)
      requires !Blocked(body, food, to)
      modifies `body, `trail
      ensures Board(body, food, score, trail) && body == Moved(old(body), food, to) && trail == old(trail) + [to]
      ensures Follows(body, direction)
    {
      hide Board, FillsGrid, Blocked;
      BoardMoves(body, food, score, trail, direction);
      body := [to] + body;
      body := body[..|body| - 1];
      trail := trail + [to];
      assert body == Moved(old(body), food, to);
    }

    /** The snake grows onto its food. */
    method Eat(to: Cell, choice: nat)
      requires Board(body, food, score, trail) && food == Some(to) && to == body[0].Plus(direction)
      modifies `body, `food, `score, `gameOver, `trail
      ensures Board(body, food, score, trail) && body == Moved(old(body), old(food), to) && trail == old(trail) + [to]
      ensures Follows(body, direction)
      ensures gameOver == (old(gameOver) || food.None?)
    {
      hide Board, FillsGrid;
      body := [to] + body;
      score := score + 1;
      food := RandomFood(body, choice);
      BoardEats(old(body), old(food), old(score), trail, direction, food);
      trail := trail + [to];
      if food == None {
        gameOver := true;
      }
    }

    method HandleAll(events: seq<Event>)
      requires Valid()
      modifies this
      ensures Valid()
      ensures running == (old(running) && Quit !in events && Escape !in events)
    {
      for k := 0 to |events|
        invariant Valid()
        invariant running == (old(running) && Quit !in events[..k] && Escape !in events[..k])
      {
        assert events[..k + 1] == events[..k] + [events[k]];
        Handle(events[k]);
      }
      assert events[..|events|] == events;
    }

    /** The main loop. It plays every frame up to the one that asks it to stop, and every frame
        leaves a valid game. */
    method Run(frames: seq<Frame>) returns (played: nat)
      requires Valid() && running
      modifies this
      ensures Valid()
      ensures |body| <= CELLS && (food == None <==> |body| == CELLS)
      ensures played <= |frames|
      ensures forall k :: 0 <= k < played - 1 ==> !Stops(frames[k])
      ensures played < |frames| || !running ==> 0 < played && Stops(frames[played - 1])
    {
      played := 0;
      while running && played < |frames|
        invariant Valid() && played <= |frames|
        invariant forall k :: 0 <= k < played - 1 ==> !Stops(frames[k])
        invariant !running <==> 0 < played && Stops(frames[played - 1])
        decreases |frames| - played
      {
        HandleAll(frames[played].events);
        Update(frames[played].choice);
        played := played + 1;
      }
      LongestSnake(body);
    }
  }

  ghost predicate Stops(f: Frame) {
    Quit in f.events || Escape in f.events
  }

  lemma {:induction false} NotFull(body: seq<Cell>)
    requires |body| == 1
    ensures !FillsGrid(body)
  {
    var c := if body[0] == Cell(0, 0) then Cell(0, 1) else Cell(0, 0);
    assert c.InGrid() && c !in body;
  }

  /** Of two snakes of one length, both fill the grid or neither does. */
  lemma {:induction false} SameLength(a: seq<Cell>, b: seq<Cell>)
    requires IsSnake(a) && IsSnake(b) && |a| == |b|
    ensures FillsGrid(a) <==> FillsGrid(b)
  {
    LongestSnake(a);
    LongestSnake(b);
  }
}
