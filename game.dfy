/** The game session: the snake, the food, the score and the running flag,
    advanced one tick at a time. Window, fonts, the frame clock, drawing and
    event polling are not part of this model. */
module Games {
  import opened Board
  import opened Options
  import opened Snakes
  import opened Foods

  /** The heading vectors selected by a tick's arrow presses, in order. */
  function Presses(keys: seq<Arrow>): (r: seq<Pos>)
    ensures |r| == |keys|
    ensures forall k :: 0 <= k < |keys| ==> r[k] == Vector(keys[k]) && IsDirection(r[k])
  {
    seq(|keys|, k requires 0 <= k < |keys| => Vector(keys[k]))
  }

  class Game {
    var snake: Snake
    var food: Food
    var score: nat
    var running: bool

    ghost predicate Valid()
      reads this, snake
    {
      snake.Valid()
    }

    /** What holds of a session that has not ended: a valid heading, a
        connected snake on the board without repeated cells, and the food on a
        free cell. */
    ghost predicate Alive()
      reads this, snake
      requires Valid()
    {
      && IsDirection(snake.direction)
      && Distinct(snake.body) && Connected(snake.body) && AllOnGrid(snake.body)
      && OnGrid(food.position) && food.position !in snake.body
    }

    ghost predicate Consistent()
      reads this, snake
    {
      Valid() && (running ==> Alive())
    }

    /** The first food of a round: the starting snake leaves free cells, so
        placement cannot report a full board. */
    static method FirstFood(body: seq<Pos>) returns (f: Food)
      requires body == InitialBody()
      ensures OnGrid(f.position) && f.position !in body
    {
      assert OnGrid(Pos(0, 0)) && Pos(0, 0) !in body;
      var r := GenerateValidPosition(body);
      if r.None? {
        assert false;
      }
      f := Food(r.value);
    }

    /** The logic of starting a game: a fresh round. */
    constructor ()
      ensures Consistent() && fresh(snake)
      ensures snake.body == InitialBody() && snake.direction == Right && !snake.grow
      ensures score == 0 && running
    {
      var s := new Snake();
      var f := FirstFood(s.body);
      InitialBodyWellFormed();
      snake, food, score, running := s, f, 0, true;
    }

    /** Starts a new round: a new three-segment snake heading right, food on a
        free cell, no score, running. */
    method Reset()
      modifies this
      ensures Consistent() && fresh(snake)
      ensures snake.body == InitialBody() && snake.direction == Right && !snake.grow
      ensures score == 0 && running
    {
      snake := new Snake();
      food := FirstFood(snake.body);
      InitialBodyWellFormed();
      score := 0;
      running := true;
    }

    /** The effect of one tick's arrow presses: each is handed to the snake's
        turn check in order. */
    method HandleInput(keys: seq<Arrow>)
      requires Valid()
      modifies snake
      ensures Valid()
      ensures snake.direction == Steered(old(snake.direction), Presses(keys))
      ensures snake.body == old(snake.body) && snake.grow == old(snake.grow)
      ensures old(Consistent()) ==> Consistent()
    {
      ghost var requests := Presses(keys);
      for i := 0 to |keys|
        invariant snake.body == old(snake.body) && snake.grow == old(snake.grow)
        invariant Steered(snake.direction, requests[i..]) == Steered(old(snake.direction), requests)
        invariant IsDirection(old(snake.direction)) ==> IsDirection(snake.direction)
      {
        assert requests[i..][1..] == requests[i + 1..];
        snake.ChangeDirection(Vector(keys[i]));
      }
    }

    /** One tick: move; on reaching the food, flag growth for the next move,
        score a point and place new food; then end the game on a collision.
        When the snake covers the whole board no food can be placed and the
        game ends as well. */
    method Update()
      requires Valid()
      modifies this, snake
      ensures Valid() && snake == old(snake)
      ensures snake.body == Moved(old(snake.body), old(snake.direction), old(snake.grow))
      ensures snake.direction == old(snake.direction)
      ensures var ate := snake.body[0] == old(food.position);
              var full := forall p :: OnGrid(p) ==> p in snake.body;
              && snake.grow == ate
              && score == old(score) + (if ate then 1 else 0)
              && (!ate || full ==> food == old(food))
              && (ate && !full ==> OnGrid(food.position) && food.position !in snake.body)
              && running == (old(running) && !Collides(snake.body) && !(ate && full))
      ensures old(Consistent()) ==> Consistent()
    {
      ghost var wasAlive := running && Alive();
      ghost var oldBody, oldFood := snake.body, food;
      snake.Move();
      if snake.body[0] == food.position {
        snake.grow := true;
        score := score + 1;
        var r := GenerateValidPosition(snake.body);
        match r
        case Some(p) => food := Food(p);
        case None => running := false;
      } else if wasAlive {
        MoveKeepsCellFree(oldBody, snake.direction, old(snake.grow), oldFood.position);
      }
      if snake.CheckCollision() {
        running := false;
      }
      if wasAlive && running {
        MoveKeepsDistinct(oldBody, snake.direction, old(snake.grow));
        MoveKeepsConnected(oldBody, snake.direction, old(snake.grow));
        MoveKeepsOnGrid(oldBody, snake.direction, old(snake.grow));
      }
    }
  }
}
