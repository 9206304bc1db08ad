/**
 * The snake engine: a body of grid cells (head first) on a square board that moves one
 * cell per tick in the pending direction, grows when it reaches the food and ends the
 * game when it leaves the board or runs into itself.
 */
module Snake {

  import opened Wrappers

  /** Side length of the square board. */
  const BoardSize: int := 20

  /** A grid cell, or a direction when both coordinates are in -1..1. */
  datatype Pos = Pos(x: int, y: int)

  /** The body and heading a game starts with. */
  const InitialSnake: seq<Pos> := [Pos(8, 10)]
  const InitialDir: Pos := Pos(1, 0)

  /** The first move of a new game, one cell in the initial heading, stays on the board. */
  lemma InitialStateSound()
    ensures !Collides(InitialSnake, Add(InitialSnake[0], InitialDir))
  {
  }

  predicate InBounds(p: Pos) {
    0 <= p.x < BoardSize && 0 <= p.y < BoardSize
  }

  /** Some segment of `body` sits on `p` (segments compare coordinate by coordinate). */
  predicate Occupied(body: seq<Pos>, p: Pos) {
    p in body
  }

  function Add(p: Pos, d: Pos): Pos {
    Pos(p.x + d.x, p.y + d.y)
  }

  function Neg(d: Pos): Pos {
    Pos(-d.x, -d.y)
  }

  /** The four headings; the y axis grows downwards, as on screen. */
  predicate IsUnit(d: Pos) {
    d == Pos(1, 0) || d == Pos(-1, 0) || d == Pos(0, 1) || d == Pos(0, -1)
  }

  /**
   * The end-of-game test of a tick: the next head is off the board, or on a segment of the
   * current body. The whole body counts, the tail that is about to move away included.
   */
  predicate Collides(body: seq<Pos>, next: Pos) {
    !InBounds(next) || Occupied(body, next)
  }

  /** What every body the engine builds satisfies: non-empty, on the board, no cell twice. */
  predicate WellFormedBody(body: seq<Pos>) {
    |body| >= 1 && (forall i :: 0 <= i < |body| ==> InBounds(body[i])) && Distinct(body)
  }

  /**
   * A tick that does not collide keeps the body well formed, whether the body grows onto
   * the new head or also drops its tail.
   */
  lemma {:induction false} MovePreservesBody(body: seq<Pos>, next: Pos)
    requires WellFormedBody(body) && !Collides(body, next)
    ensures WellFormedBody([next] + body)
    ensures WellFormedBody([next] + body[..|body| - 1])
  {
  }

  /** The arrows a player can press. */
  datatype Arrow = Left | Right | Up | Down

  /** The heading an arrow asks for. */
  function Delta(a: Arrow): Pos {
    match a
    case Left => Pos(-1, 0)
    case Right => Pos(1, 0)
    case Up => Pos(0, -1)
    case Down => Pos(0, 1)
  }

  /**
   * The direction update shared by the keyboard and the on-screen buttons: an arrow is
   * refused (the previous pending direction is kept) when it points exactly against it.
   */
  function Turn(prev: Pos, a: Arrow): (r: Pos)
    ensures IsUnit(prev) ==> IsUnit(r) && r != Neg(prev)
    ensures r == prev || r == Delta(a)
  {
    match a
    case Left => if prev.x != 1 then Pos(-1, 0) else prev
    case Right => if prev.x != -1 then Pos(1, 0) else prev
    case Up => if prev.y != 1 then Pos(0, -1) else prev
    case Down => if prev.y != -1 then Pos(0, 1) else prev
  }

  /** From a unit heading, an arrow is taken unless it is the exact reverse. */
  lemma TurnTakesAllButReverse(prev: Pos, a: Arrow)
    requires IsUnit(prev)
    ensures Turn(prev, a) == if Delta(a) == Neg(prev) then prev else Delta(a)
  {
  }

  /** The four names under which an input source reports the arrows. */
  datatype ArrowNames = ArrowNames(left: string, right: string, up: string, down: string)

  /** Key names of the keyboard handler, and names passed by the on-screen buttons. */
  const KeyNames := ArrowNames("ArrowLeft", "ArrowRight", "ArrowUp", "ArrowDown")
  const ButtonNames := ArrowNames("left", "right", "up", "down")

  function NameOf(names: ArrowNames, a: Arrow): string {
    match a
    case Left => names.left
    case Right => names.right
    case Up => names.up
    case Down => names.down
  }

  /**
   * The arrow an input names, tried in the order left, right, up, down; a name that is none
   * of the four selects nothing, and the direction is left as it is.
   */
  function ArrowFor(names: ArrowNames, s: string): (r: Option<Arrow>)
    ensures r.Some? <==> s in {names.left, names.right, names.up, names.down}
    ensures r.Some? ==> NameOf(names, r.value) == s
  {
    if s == names.left then Some(Left)
    else if s == names.right then Some(Right)
    else if s == names.up then Some(Up)
    else if s == names.down then Some(Down)
    else None
  }

  predicate AllInBounds(draws: seq<Pos>) {
    forall k :: 0 <= k < |draws| ==> InBounds(draws[k])
  }

  predicate HasFreeDraw(draws: seq<Pos>, body: seq<Pos>) {
    exists k :: 0 <= k < |draws| && !Occupied(body, draws[k])
  }

  /** Draw `k` is the first draw that `body` leaves free. */
  predicate FirstFree(body: seq<Pos>, draws: seq<Pos>, k: nat)
    requires k < |draws|
  {
    !Occupied(body, draws[k]) && forall m :: 0 <= m < k ==> Occupied(body, draws[m])
  }

  /**
   * Food placement. The engine draws random cells until one is not covered by `body`;
   * `draws` is that stream of random cells. Some draw must be free: on a full board the
   * retry loop never ends.
   */
  method GetRandomFood(body: seq<Pos>, draws: seq<Pos>) returns (food: Pos)
    requires AllInBounds(draws) && HasFreeDraw(draws, body)
    ensures InBounds(food) && !Occupied(body, food)
    ensures exists k :: 0 <= k < |draws| && food == draws[k] && FirstFree(body, draws, k)
  {
    var i := 0;
    while Occupied(body, draws[i])
      invariant 0 <= i < |draws|
      invariant forall m :: 0 <= m < i ==> Occupied(body, draws[m])
      decreases |draws| - i
    {
      i := i + 1;
    }
    food := draws[i];
  }

  /** The state of one snake game, updated event by event. */
  class SnakeGame {
    var snake: seq<Pos>
    var dir: Pos
    var food: Pos
    var playing: bool
    var gameOver: bool
    var score: nat

    ghost predicate Valid()
      reads this
    {
      WellFormedBody(snake) && IsUnit(dir) && InBounds(food) && !Occupied(snake, food) &&
      (gameOver ==> !playing)
    }

    /** Where the head goes on the next tick. */
    function NextHead(): Pos
      reads this
      requires |snake| > 0
    {
      Add(snake[0], dir)
    }

    /** A tick that moves onto the food (it does not collide, and the next head is the food). */
    predicate Eats()
      reads this
      requires |snake| > 0
    {
      !Collides(snake, NextHead()) && NextHead() == food
    }

    /** The state on first display: initial body and heading, food placed, not yet started. */
    constructor (draws: seq<Pos>)
      requires AllInBounds(draws) && HasFreeDraw(draws, InitialSnake)
      ensures Valid()
      ensures snake == InitialSnake && dir == InitialDir && food in draws
      ensures !playing && !gameOver && score == 0
    {
      var first := GetRandomFood(InitialSnake, draws);
      snake := InitialSnake;
      dir := InitialDir;
      food := first;
      playing := false;
      gameOver := false;
      score := 0;
    }

    /** Start or restart: initial body and heading, new food, score 0, playing. */
    method Reset(draws: seq<Pos>)
      requires AllInBounds(draws) && HasFreeDraw(draws, InitialSnake)
      modifies this
      ensures Valid()
      ensures snake == InitialSnake && dir == InitialDir && food in draws
      ensures playing && !gameOver && score == 0
    {
      snake := InitialSnake;
      dir := InitialDir;
      food := GetRandomFood(InitialSnake, draws);
      score := 0;
      gameOver := false;
      playing := true;
    }

    /** One timer tick; `draws` feeds the food placement when the snake eats. */
    method Tick(draws: seq<Pos>)
      requires Valid() && AllInBounds(draws)
      requires playing && !gameOver && Eats() ==> HasFreeDraw(draws, [NextHead()] + snake)
      modifies this
      ensures Valid() && dir == old(dir)
      // not running: nothing changes
      ensures !old(playing) || old(gameOver) ==> unchanged(this)
      // collision: the game ends, body, food and score stay
      ensures old(playing && !gameOver && Collides(snake, NextHead())) ==>
        !playing && gameOver && snake == old(snake) && food == old(food) && score == old(score)
      // food: the body grows by the new head, the score goes up by one, new food off the body
      ensures old(playing && !gameOver && Eats()) ==>
        playing && !gameOver && snake == [old(NextHead())] + old(snake) &&
        score == old(score) + 1 && food in draws && !Occupied(snake, food)
      // plain move: new head in front, tail dropped, the length stays
      ensures old(playing && !gameOver && !Collides(snake, NextHead()) && !Eats()) ==>
        playing && !gameOver && snake == [old(NextHead())] + old(snake)[..|old(snake)| - 1] &&
        |snake| == old(|snake|) && food == old(food) && score == old(score)
    {
      if !playing || gameOver {
        return;
      }
      var next := Add(snake[0], dir);
      if next.x < 0 || next.x >= BoardSize || next.y < 0 || next.y >= BoardSize || Occupied(snake, next) {
        playing := false;
        gameOver := true;
        return;
      }
      MovePreservesBody(snake, next);
      var newSnake := [next] + snake;
      if next == food {
        food := GetRandomFood(newSnake, draws);
        score := score + 1;
        snake := newSnake;
      } else {
        newSnake := newSnake[..|newSnake| - 1];
        assert newSnake == [next] + snake[..|snake| - 1];
        snake := newSnake;
      }
    }

    /** A key press: ignored unless playing or unless the key is an arrow. */
    method HandleKeyDown(key: string)
      requires Valid()
      modifies this`dir
      ensures Valid()
      ensures !playing || ArrowFor(KeyNames, key).None? ==> dir == old(dir)
      ensures playing && ArrowFor(KeyNames, key).Some? ==> dir == Turn(old(dir), ArrowFor(KeyNames, key).value)
      ensures dir != Neg(old(dir))
    {
      if !playing {
        return;
      }
      var arrow := ArrowFor(KeyNames, key);
      if arrow.Some? {
        dir := Turn(dir, arrow.value);
      }
    }

    /** An on-screen arrow button; unlike the keyboard it works whether or not the game runs. */
    method ManualMove(name: string)
      requires Valid()
      modifies this`dir
      ensures Valid()
      ensures ArrowFor(ButtonNames, name).None? ==> dir == old(dir)
      ensures ArrowFor(ButtonNames, name).Some? ==> dir == Turn(old(dir), ArrowFor(ButtonNames, name).value)
      ensures dir != Neg(old(dir))
    {
      var arrow := ArrowFor(ButtonNames, name);
      if arrow.Some? {
        dir := Turn(dir, arrow.value);
      }
    }
  }
}
