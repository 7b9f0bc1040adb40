/** Food placement. The game draws a random column and row, scales them to
    pixels and retries until the cell is not part of the snake. The draws are
    injected here as a finite stream; the corrected placement picks any free
    cell and reports when there is none. */
module Foods {
  import opened Board
  import opened Options

  /** The food item: one cell of the board. */
  datatype Food = Food(position: Pos)

  /** One pair of results of the random generator: a column and a row index. */
  datatype Draw = Draw(column: int, row: int)

  /** What the generator can return: both indices within the board. */
  predicate InRange(d: Draw) {
    0 <= d.column <= MaxColumn && 0 <= d.row <= MaxRow
  }

  predicate AllInRange(draws: seq<Draw>) {
    forall k :: 0 <= k < |draws| ==> InRange(draws[k])
  }

  function DrawnCell(d: Draw): Pos {
    Cell(d.column, d.row)
  }

  /** The cells of the board the snake does not occupy. */
  function FreeCells(body: seq<Pos>): set<Pos> {
    set i, j | 0 <= i <= MaxColumn && 0 <= j <= MaxRow && Cell(i, j) !in body :: Cell(i, j)
  }

  lemma FreeCellsMembership(body: seq<Pos>, p: Pos)
    ensures p in FreeCells(body) <==> OnGrid(p) && p !in body
  {
    if OnGrid(p) && p !in body {
      OnGridIsCell(p);
      var i, j := p.x / BlockSize, p.y / BlockSize;
      assert Cell(i, j) in FreeCells(body);
    }
    if p in FreeCells(body) {
      var i, j :| 0 <= i <= MaxColumn && 0 <= j <= MaxRow && Cell(i, j) !in body && p == Cell(i, j);
      CellOnGrid(i, j);
    }
  }

  /** The board is full exactly when every cell of it is occupied by the snake. */
  lemma FullBoard(body: seq<Pos>)
    ensures FreeCells(body) == {} <==> forall p :: OnGrid(p) ==> p in body
  {
    if FreeCells(body) == {} {
      forall p | OnGrid(p) ensures p in body {
        FreeCellsMembership(body, p);
      }
    }
    if forall p :: OnGrid(p) ==> p in body {
      forall p | p in FreeCells(body) ensures false {
        FreeCellsMembership(body, p);
      }
    }
  }

  /** What the retry loop returns after trying the given draws in order: the
      first drawn cell outside the body, or None when every draw hit the body
      (the loop has not exited yet). */
  function FirstFree(body: seq<Pos>, draws: seq<Draw>): (r: Option<Pos>)
    ensures r.Some? ==> r.value !in body && (AllInRange(draws) ==> OnGrid(r.value))
    ensures r.Some? ==> exists k :: 0 <= k < |draws| && r.value == DrawnCell(draws[k])
                                    && forall m :: 0 <= m < k ==> DrawnCell(draws[m]) in body
    ensures r.None? ==> forall k :: 0 <= k < |draws| ==> DrawnCell(draws[k]) in body
    decreases |draws|
  {
    if draws == [] then None
    else if DrawnCell(draws[0]) !in body then Some(DrawnCell(draws[0]))
    else
      var r := FirstFree(body, draws[1..]);
      assert r.Some? ==> exists k :: 1 <= k < |draws| && r.value == DrawnCell(draws[k])
                                     && forall m :: 0 <= m < k ==> DrawnCell(draws[m]) in body by {
        if r.Some? {
          var k :| 0 <= k < |draws[1..]| && r.value == DrawnCell(draws[1..][k])
                   && forall m :: 0 <= m < k ==> DrawnCell(draws[1..][m]) in body;
          assert forall m :: 0 <= m < k + 1 ==> DrawnCell(draws[m]) in body by {
            forall m | 0 <= m < k + 1 ensures DrawnCell(draws[m]) in body {
              if m > 0 { assert draws[m] == draws[1..][m - 1]; }
            }
          }
          assert r.value == DrawnCell(draws[k + 1]);
        }
      }
      r
  }

  /** The retry loop as written, over a finite prefix of the random stream. */
  method RetryDraws(snakeBody: seq<Pos>, draws: seq<Draw>) returns (r: Option<Pos>)
    ensures r == FirstFree(snakeBody, draws)
  {
    var k := 0;
    while k < |draws|
      invariant 0 <= k <= |draws|
      invariant FirstFree(snakeBody, draws[k..]) == FirstFree(snakeBody, draws)
    {
      var p := DrawnCell(draws[k]);
      if p !in snakeBody {
        return Some(p);
      }
      assert draws[k..][1..] == draws[k + 1..];
      k := k + 1;
    }
    return None;
  }

  /** On a full board no draw the generator can make ends the retry loop,
      however many draws it is given. */
  lemma {:induction false} RetryNeverExitsOnFullBoard(body: seq<Pos>, draws: seq<Draw>)
    requires FreeCells(body) == {}
    requires AllInRange(draws)
    ensures FirstFree(body, draws) == None
  {
    var r := FirstFree(body, draws);
    if r.Some? {
      FreeCellsMembership(body, r.value);
      assert false;
    }
  }

  /** The corrected placement: some free cell of the board, or None when the
      snake covers the whole board. */
  method GenerateValidPosition(snakeBody: seq<Pos>) returns (r: Option<Pos>)
    ensures r.Some? ==> OnGrid(r.value) && r.value !in snakeBody
    ensures r.None? <==> forall p :: OnGrid(p) ==> p in snakeBody
  {
    var free := FreeCells(snakeBody);
    FullBoard(snakeBody);
    if free == {} {
      return None;
    }
    var p :| p in free;
    FreeCellsMembership(snakeBody, p);
    return Some(p);
  }
}
