/** The snake helpers: a snake is a non-empty sequence of grid positions with
    its head last; a direction is a position offset; the grid is
    `width` x `height` cells with corner (0, 0). */
module Snake {
  import opened Seqs

  /** An `[x, y]` pair: a cell, or a direction when used as an offset. */
  datatype Pos = Pos(x: int, y: int)

  /** The `{width:, height:}` dimensions hash. */
  datatype Dims = Dims(width: int, height: int)

  /** `snake_head`: the last position of the snake. */
  function SnakeHead(snake: seq<Pos>): (h: Pos)
    requires |snake| > 0
    ensures h in snake && h == snake[|snake| - 1]
  {
    snake[|snake| - 1]
  }

  /** `position_in_front_of_snake`: one step from `head` in `direction`. */
  function PositionInFront(head: Pos, direction: Pos): (p: Pos)
    ensures p.x - head.x == direction.x && p.y - head.y == direction.y
  {
    Pos(head.x + direction.x, head.y + direction.y)
  }

  /** `grow`: the whole snake plus a new head one step ahead. */
  function Grow(snake: seq<Pos>, direction: Pos): (r: seq<Pos>)
    requires |snake| > 0
    ensures |r| == |snake| + 1 && r[..|snake|] == snake
    ensures SnakeHead(r) == PositionInFront(SnakeHead(snake), direction)
  {
    snake + [PositionInFront(SnakeHead(snake), direction)]
  }

  /** `move`: `grow` and then drop the tail, so the length stays, every
      segment but the tail survives in order, and the head is one step ahead. */
  function Move(snake: seq<Pos>, direction: Pos): (r: seq<Pos>)
    requires |snake| > 0
    ensures |r| == |snake| && r[..|r| - 1] == snake[1..]
    ensures SnakeHead(r) == PositionInFront(SnakeHead(snake), direction)
  {
    var grown := Grow(snake, direction);
    assert grown == snake + [SnakeHead(grown)];
    grown[1..]
  }

  /** `in_bounds?`: both coordinates are `between?(0, size - 1)`. */
  predicate InBounds(p: Pos, dims: Dims)
  {
    0 <= p.x <= dims.width - 1 && 0 <= p.y <= dims.height - 1
  }

  /** `body_ahead?`: the position is one of the snake's segments. */
  predicate BodyAhead(p: Pos, snake: seq<Pos>)
  {
    p in snake
  }

  /** `obstacle_ahead?`: the next cell is off the grid or on the snake
      (the tail counts, although a move would vacate it). */
  predicate ObstacleAhead(snake: seq<Pos>, direction: Pos, dims: Dims)
    requires |snake| > 0
  {
    var next := PositionInFront(SnakeHead(snake), direction);
    !InBounds(next, dims) || BodyAhead(next, snake)
  }

  /** `danger?`: an obstacle now, or after one more move the same way. */
  predicate Danger(snake: seq<Pos>, direction: Pos, dims: Dims)
    requires |snake| > 0
  {
    ObstacleAhead(snake, direction, dims) || ObstacleAhead(Move(snake, direction), direction, dims)
  }

  /** Danger spelled out in terms of the current snake: with `h` its head,
      the cell `h + d` is off the grid or on the snake, or the cell `h + 2d`
      is off the grid or on a segment other than the current tail. */
  lemma DangerCells(snake: seq<Pos>, d: Pos, dims: Dims)
    requires |snake| > 0
    ensures
      var h := SnakeHead(snake);
      var one, two := Pos(h.x + d.x, h.y + d.y), Pos(h.x + 2 * d.x, h.y + 2 * d.y);
      Danger(snake, d, dims) <==>
        !InBounds(one, dims) || one in snake || !InBounds(two, dims) || two in snake[1..]
  {
    var h := SnakeHead(snake);
    var one, two := Pos(h.x + d.x, h.y + d.y), Pos(h.x + 2 * d.x, h.y + 2 * d.y);
    var moved := Move(snake, d);
    assert moved == snake[1..] + [one];
    assert PositionInFront(SnakeHead(moved), d) == two;
    if two == one {
      assert d == Pos(0, 0);
      assert one == h;
    }
  }

  /** Not moving at all always meets the snake's own head. */
  lemma StandingStill(snake: seq<Pos>, dims: Dims)
    requires |snake| > 0
    ensures ObstacleAhead(snake, Pos(0, 0), dims) && Danger(snake, Pos(0, 0), dims)
  {
    assert PositionInFront(SnakeHead(snake), Pos(0, 0)) == SnakeHead(snake);
  }

  /** The cells `(x, y)`, `(x, y + 1)`, ... `(x, height - 1)`. */
  function Column(x: int, y: int, height: int): (r: seq<Pos>)
    ensures forall p :: p in r <==> p.x == x && y <= p.y < height
    decreases height - y
  {
    if y >= height then [] else [Pos(x, y)] + Column(x, y + 1, height)
  }

  /** The columns `x` .. `width - 1`, each from top to bottom. */
  function Columns(x: int, dims: Dims): (r: seq<Pos>)
    ensures forall p :: p in r <==> x <= p.x < dims.width && 0 <= p.y < dims.height
    decreases dims.width - x
  {
    if x >= dims.width then [] else Column(x, 0, dims.height) + Columns(x + 1, dims)
  }

  /** `xs.product(ys)`: every cell of the grid, column by column. */
  function AllPositions(dims: Dims): (r: seq<Pos>)
    ensures forall p :: p in r <==> InBounds(p, dims)
  {
    Columns(0, dims)
  }

  /** `all_positions - (food + snake)`: the cells that hold neither food nor
      a snake segment. */
  function FreeCells(food: seq<Pos>, snake: seq<Pos>, dims: Dims): (r: seq<Pos>)
    ensures forall p :: p in r <==> InBounds(p, dims) && p !in food && p !in snake
  {
    Minus(AllPositions(dims), food + snake)
  }

  /** `obstacle_ahead?` holds exactly when the next cell is not one that
      `new_food` could choose on a grid without food. */
  lemma ObstacleIffNotFree(snake: seq<Pos>, direction: Pos, dims: Dims)
    requires |snake| > 0
    ensures ObstacleAhead(snake, direction, dims) <==>
            PositionInFront(SnakeHead(snake), direction) !in FreeCells([], snake, dims)
  {
  }

  /** `new_food`: `empty_positions.sample`, where the random choice is the
      `pick`-th free cell (modulo their number); `nil` when no cell is free. */
  function NewFood(food: seq<Pos>, snake: seq<Pos>, dims: Dims, pick: nat): (r: Option<Pos>)
    ensures r == None <==> forall p :: InBounds(p, dims) ==> p in food || p in snake
    ensures r.Some? ==> InBounds(r.value, dims) && r.value !in food && r.value !in snake
  {
    var free := FreeCells(food, snake, dims);
    if free == [] then None
    else
      assert free[pick % |free|] in free;
      Some(free[pick % |free|])
  }

  /** Every free cell is the one `new_food` returns for some random choice. */
  lemma NewFoodReachesEveryFreeCell(food: seq<Pos>, snake: seq<Pos>, dims: Dims, p: Pos)
    requires InBounds(p, dims) && p !in food && p !in snake
    ensures exists pick: nat :: NewFood(food, snake, dims, pick) == Some(p)
  {
    var free := FreeCells(food, snake, dims);
    assert p in free;
    var k :| 0 <= k < |free| && free[k] == p;
    NewFoodAt(food, snake, dims, k);
  }

  /** Choosing `pick = k` yields the `k`-th free cell. */
  lemma NewFoodAt(food: seq<Pos>, snake: seq<Pos>, dims: Dims, k: nat)
    requires k < |FreeCells(food, snake, dims)|
    ensures NewFood(food, snake, dims, k) == Some(FreeCells(food, snake, dims)[k])
  {
    assert k % |FreeCells(food, snake, dims)| == k;
  }
}
