/** The snake: an ordered list of cell positions, head first, a heading and a
    one-shot growth flag. The pure functions below say what one move, one turn
    and the collision query mean; the class Snake holds the state the game
    updates in place and is proved against them. */
module Snakes {
  import opened Board

  /** The body after one move: a new head one heading ahead of the old head,
      followed by the whole old body when growing, or by all of it except the
      tail otherwise. */
  function Moved(body: seq<Pos>, d: Pos, grow: bool): (r: seq<Pos>)
    requires |body| >= 1
    ensures |r| == |body| + (if grow then 1 else 0)
    ensures r[0] == Add(body[0], d)
    ensures forall i :: 1 <= i < |r| ==> r[i] == body[i - 1]
  {
    var longer := [Add(body[0], d)] + body;
    if grow then longer else longer[..|longer| - 1]
  }

  /** The collision query: the head lies on another segment or outside the window. */
  function Collides(body: seq<Pos>): (r: bool)
    requires |body| >= 1
    ensures r <==> (exists i :: 1 <= i < |body| && body[i] == body[0])
                   || body[0].x < 0 || body[0].x >= ScreenWidth
                   || body[0].y < 0 || body[0].y >= ScreenHeight
  {
    body[0] in body[1..] || !InBounds(body[0])
  }

  /** The heading after a turn request: a request whose vector sum with the
      current heading is zero is ignored, any other request is taken as is. */
  function Turn(current: Pos, requested: Pos): (r: Pos)
    ensures requested == Opposite(current) ==> r == current
    ensures requested != Opposite(current) ==> r == requested
    ensures IsDirection(current) && IsDirection(requested) ==> IsDirection(r) && r != Opposite(current)
  {
    if current.x + requested.x == 0 && current.y + requested.y == 0 then current else requested
  }

  /** The heading after several turn requests in one tick, each checked
      against the heading left by the requests before it. */
  function Steered(d: Pos, requests: seq<Pos>): Pos
    decreases |requests|
  {
    if requests == [] then d else Steered(Turn(d, requests[0]), requests[1..])
  }

  predicate Distinct(body: seq<Pos>) {
    forall i, j :: 0 <= i < j < |body| ==> body[i] != body[j]
  }

  /** Each segment lies one heading ahead of the segment behind it. */
  predicate Connected(body: seq<Pos>) {
    forall i :: 0 <= i < |body| - 1 ==> IsDirection(Pos(body[i].x - body[i + 1].x, body[i].y - body[i + 1].y))
  }

  predicate AllOnGrid(body: seq<Pos>) {
    forall i :: 0 <= i < |body| ==> OnGrid(body[i])
  }

  /** The starting snake: three segments at the centre of the window, head first. */
  function InitialBody(): seq<Pos> {
    [Pos(ScreenWidth / 2, ScreenHeight / 2),
     Pos(ScreenWidth / 2 - BlockSize, ScreenHeight / 2),
     Pos(ScreenWidth / 2 - 2 * BlockSize, ScreenHeight / 2)]
  }

  lemma InitialBodyWellFormed()
    ensures InitialBody() == [Pos(400, 300), Pos(380, 300), Pos(360, 300)]
    ensures Distinct(InitialBody()) && Connected(InitialBody()) && AllOnGrid(InitialBody())
    ensures !Collides(InitialBody())
  {
  }

  // ---------------------------------------------------------------------
  // Turning

  /** The last request wins unless it reverses the heading that the earlier
      requests of the same tick left behind. */
  lemma {:induction false} SteeredLast(d: Pos, requests: seq<Pos>)
    requires |requests| >= 1
    ensures Steered(d, requests) == Turn(Steered(d, requests[..|requests| - 1]), requests[|requests| - 1])
    decreases |requests|
  {
    if |requests| > 1 {
      var rest := requests[1..];
      SteeredLast(Turn(d, requests[0]), rest);
      assert rest[..|rest| - 1] == requests[1..|requests| - 1];
      assert requests[..|requests| - 1][1..] == requests[1..|requests| - 1];
    }
  }

  /** The heading after a tick is the old heading or one of the requests,
      and it is a valid heading when all of them are. */
  lemma {:induction false} SteeredChoosesRequest(d: Pos, requests: seq<Pos>)
    ensures Steered(d, requests) == d || Steered(d, requests) in requests
    ensures IsDirection(d) && (forall k :: 0 <= k < |requests| ==> IsDirection(requests[k]))
            ==> IsDirection(Steered(d, requests))
    decreases |requests|
  {
    if requests != [] {
      SteeredChoosesRequest(Turn(d, requests[0]), requests[1..]);
      assert forall k :: 1 <= k < |requests| ==> requests[1..][k - 1] == requests[k];
    }
  }

  /** Two requests in one tick: the second is checked against the heading the first left. */
  lemma SteeredTwice(d: Pos, a: Pos, b: Pos)
    ensures Steered(d, [a, b]) == Turn(Turn(d, a), b)
  {
    assert [a, b][1..] == [b] && [b][1..] == [];
    assert Steered(d, [a, b]) == Steered(Turn(d, a), [b]);
    assert Steered(Turn(d, a), [b]) == Steered(Turn(Turn(d, a), b), []);
  }

  /** Two presses in one tick can undo the reversal guard: a press at right
      angles followed by the reverse of the heading leaves the snake heading
      backwards, although each press alone was checked. */
  lemma {:induction false} ReversalWithinOneTick(d: Pos)
    requires IsDirection(d)
    ensures Steered(d, [Pos(d.y, d.x), Opposite(d)]) == Opposite(d)
  {
    var side := Pos(d.y, d.x);
    SteeredTwice(d, side, Opposite(d));
    assert Turn(d, side) == side;
    assert Turn(side, Opposite(d)) == Opposite(d);
  }

  /** A snake whose neck lies behind its head runs into its own body when it
      moves backwards: from three segments on a plain move, and already from
      two when growth is pending, since the tail then stays. */
  lemma ReversingCollides(body: seq<Pos>, d: Pos, grow: bool)
    requires |body| >= (if grow then 2 else 3) && body[1] == Add(body[0], Opposite(d))
    ensures Collides(Moved(body, Opposite(d), grow))
  {
    var moved := Moved(body, Opposite(d), grow);
    assert moved[2] == body[1] == moved[0];
  }

  // ---------------------------------------------------------------------
  // Moving

  lemma DistinctCons(h: Pos, rest: seq<Pos>)
    ensures Distinct([h] + rest) <==> h !in rest && Distinct(rest)
  {
    var s := [h] + rest;
    if h !in rest && Distinct(rest) {
      forall i, j | 0 <= i < j < |s| ensures s[i] != s[j] {
        if i == 0 {
          assert s[j] == rest[j - 1];
        } else {
          assert s[i] == rest[i - 1] && s[j] == rest[j - 1];
        }
      }
    }
    if Distinct(s) {
      forall i, j | 0 <= i < j < |rest| ensures rest[i] != rest[j] {
        assert rest[i] == s[i + 1] && rest[j] == s[j + 1];
      }
      forall k | 0 <= k < |rest| ensures rest[k] != h {
        assert s[0] == h && rest[k] == s[k + 1];
      }
    }
  }

  /** Starting from a body without repeated cells, a move leaves a body
      without repeated cells exactly when the head did not run into the rest
      of the body: self-intersection is what the collision query detects. */
  lemma MoveKeepsDistinct(body: seq<Pos>, d: Pos, grow: bool)
    requires |body| >= 1 && Distinct(body)
    ensures var r := Moved(body, d, grow);
            Distinct(r) <==> r[0] !in r[1..]
  {
    var r := Moved(body, d, grow);
    var rest := r[1..];
    assert r == [r[0]] + rest;
    assert rest == if grow then body else body[..|body| - 1];
    DistinctCons(r[0], rest);
  }

  /** A body that was connected stays connected after a move along a heading. */
  lemma MoveKeepsConnected(body: seq<Pos>, d: Pos, grow: bool)
    requires |body| >= 1 && Connected(body) && IsDirection(d)
    ensures Connected(Moved(body, d, grow))
  {
    var r := Moved(body, d, grow);
    forall i | 0 <= i < |r| - 1
      ensures IsDirection(Pos(r[i].x - r[i + 1].x, r[i].y - r[i + 1].y))
    {
      if i == 0 {
        assert Pos(r[0].x - r[1].x, r[0].y - r[1].y) == d;
      } else {
        assert r[i] == body[i - 1] && r[i + 1] == body[i];
      }
    }
  }

  /** Without a collision, every segment of the moved body is still a cell of the board. */
  lemma MoveKeepsOnGrid(body: seq<Pos>, d: Pos, grow: bool)
    requires |body| >= 1 && AllOnGrid(body) && IsDirection(d)
    requires !Collides(Moved(body, d, grow))
    ensures AllOnGrid(Moved(body, d, grow))
  {
    var r := Moved(body, d, grow);
    StepStaysAligned(body[0], d);
    forall i | 0 <= i < |r| ensures OnGrid(r[i]) {
      if i > 0 {
        assert r[i] == body[i - 1];
      }
    }
  }

  /** A cell that was free and that the new head does not enter is still free after a move. */
  lemma MoveKeepsCellFree(body: seq<Pos>, d: Pos, grow: bool, c: Pos)
    requires |body| >= 1 && c !in body && c != Add(body[0], d)
    ensures c !in Moved(body, d, grow)
  {
    var r := Moved(body, d, grow);
    forall i | 0 <= i < |r| ensures r[i] != c {
      if i > 0 {
        assert r[i] == body[i - 1];
      }
    }
  }

  /** Chasing the tail: when the head steps into the cell the tail occupies,
      a move without growth is no collision (the tail has left), while a
      growing move keeps the tail there and collides. */
  lemma TailChase(body: seq<Pos>, d: Pos)
    requires |body| >= 2 && Distinct(body) && AllOnGrid(body)
    requires Add(body[0], d) == body[|body| - 1]
    ensures !Collides(Moved(body, d, false))
    ensures Collides(Moved(body, d, true))
  {
    var shrunk := Moved(body, d, false);
    var tail := body[|body| - 1];
    forall i | 1 <= i < |shrunk| ensures shrunk[i] != tail {
      assert shrunk[i] == body[i - 1];
    }
    assert OnGrid(body[|body| - 1]);
    var grown := Moved(body, d, true);
    assert grown[|grown| - 1] == tail;
  }

  /** The snake object the game updates in place. */
  class Snake {
    var body: seq<Pos>
    var direction: Pos
    var grow: bool

    ghost predicate Valid()
      reads this
    {
      |body| >= 1
    }

    constructor ()
      ensures Valid() && body == InitialBody() && direction == Right && !grow
    {
      body := InitialBody();
      direction := Right;
      grow := false;
    }

    /** Pushes a new head one heading ahead; drops the tail unless growth was
        pending, in which case the flag is cleared instead. */
    method Move()
      requires Valid()
      modifies this
      ensures Valid()
      ensures body == Moved(old(body), old(direction), old(grow))
      ensures !grow && direction == old(direction)
    {
      var newHead := Add(body[0], direction);
      body := [newHead] + body;
      if !grow {
        body := body[..|body| - 1];
      } else {
        grow := false;
      }
    }

    /** Takes the requested heading unless it is the reverse of the current one. */
    method ChangeDirection(newDirection: Pos)
      modifies this
      ensures direction == Turn(old(direction), newDirection)
      ensures body == old(body) && grow == old(grow)
    {
      if direction.x + newDirection.x == 0 && direction.y + newDirection.y == 0 {
        return;
      }
      direction := newDirection;
    }

    /** The collision query on the current body; it changes nothing. */
    function CheckCollision(): (r: bool)
      reads this
      requires Valid()
      ensures r == Collides(body)
    {
      Collides(body)
    }
  }
}
