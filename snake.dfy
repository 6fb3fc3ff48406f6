/**
 * The snake's positional state (SnakeCs/Snake.cs): a list of blocks, head
 * first, that moves one cell per call with wrap-around and grows by keeping
 * its tail for one move.
 */
module SnakeState {
  import opened Coords

  /** The four movement directions; an unrecognised value cannot be formed. */
  datatype Direction = Left | Right | Up | Down

  /** The unit vector of a direction, used as the reference for a step. */
  function DeltaX(d: Direction): int {
    match d
    case Left => -1
    case Right => 1
    case Up => 0
    case Down => 0
  }

  function DeltaY(d: Direction): int {
    match d
    case Left => 0
    case Right => 0
    case Up => -1
    case Down => 1
  }

  /** The `switch` of `Move`: one cell in `d`, through a `(short)` cast. */
  function Offset(c: Coord, d: Direction): (r: Coord)
    ensures (r.x as int - (c.x as int + DeltaX(d))) % 0x10000 == 0
    ensures (r.y as int - (c.y as int + DeltaY(d))) % 0x10000 == 0
    ensures -0x8000 <= c.x as int + DeltaX(d) < 0x8000 ==> r.x as int == c.x as int + DeltaX(d)
    ensures -0x8000 <= c.y as int + DeltaY(d) < 0x8000 ==> r.y as int == c.y as int + DeltaY(d)
  {
    match d
    case Left => Coord(Wrap16(c.x as int - 1), c.y)
    case Right => Coord(Wrap16(c.x as int + 1), c.y)
    case Up => Coord(c.x, Wrap16(c.y as int - 1))
    case Down => Coord(c.x, Wrap16(c.y as int + 1))
  }

  /** The four wrap-around tests of `Move`, applied in their order. */
  function WrapInto(p: Coord, maxX: Short, maxY: Short): (r: Coord)
    ensures InArea(p, maxX, maxY) ==> r == p
    ensures 0 <= maxX && 0 <= maxY ==> InArea(r, maxX, maxY)
    ensures p.x < 0 ==> r.x == maxX
    ensures 0 <= p.x && maxX < p.x ==> r.x == 0
    ensures p.y < 0 ==> r.y == maxY
    ensures 0 <= p.y && maxY < p.y ==> r.y == 0
  {
    var x1 := if p.x < 0 then maxX else p.x;
    var x2 := if x1 > maxX then 0 else x1;
    var y1 := if p.y < 0 then maxY else p.y;
    var y2 := if y1 > maxY then 0 else y1;
    Coord(x2, y2)
  }

  /** The head that `Move` inserts. */
  function NextHead(c: Coord, d: Direction, maxX: Short, maxY: Short): (r: Coord)
    ensures InArea(Offset(c, d), maxX, maxY) ==> r == Offset(c, d)
  {
    WrapInto(Offset(c, d), maxX, maxY)
  }

  predicate InArea(c: Coord, maxX: Short, maxY: Short) {
    0 <= c.x <= maxX && 0 <= c.y <= maxY
  }

  /** Whatever the old head, the new one lies in `[0,maxX] x [0,maxY]`. */
  lemma NextHeadInArea(c: Coord, d: Direction, maxX: Short, maxY: Short)
    requires 0 <= maxX && 0 <= maxY
    ensures InArea(NextHead(c, d, maxX, maxY), maxX, maxY)
  {
  }

  /** `v % n` for a value at most one step outside `[0, n)`. */
  lemma ModOneStep(v: int, n: int)
    requires 0 < n && -1 <= v <= n
    ensures v % n == if v < 0 then n - 1 else if v == n then 0 else v
  {
    if v < 0 {
      assert v == n * (-1) + (n - 1);
    } else if v == n {
      assert v == n * 1 + 0;
    } else {
      assert v == n * 0 + v;
    }
  }

  /**
   * From a head inside the area, a move is a step by the direction's unit
   * vector taken modulo the area's size: the grid is a torus. The bound
   * below 0x7FFF keeps the `(short)` cast from wrapping first (see
   * `RightAtShortLimitStays`).
   */
  lemma NextHeadIsTorusStep(c: Coord, d: Direction, maxX: Short, maxY: Short)
    requires InArea(c, maxX, maxY) && maxX < 0x7FFF && maxY < 0x7FFF
    ensures NextHead(c, d, maxX, maxY).x as int == (c.x as int + DeltaX(d)) % (maxX as int + 1)
    ensures NextHead(c, d, maxX, maxY).y as int == (c.y as int + DeltaY(d)) % (maxY as int + 1)
  {
    ModOneStep(c.x as int + DeltaX(d), maxX as int + 1);
    ModOneStep(c.y as int + DeltaY(d), maxY as int + 1);
  }

  /** At the `short` limit the cast wraps before the bounds test, so the head stays put. */
  lemma RightAtShortLimitStays()
    ensures NextHead(Coord(0x7FFF, 0), Right, 0x7FFF, 0x7FFF) == Coord(0x7FFF, 0)
  {
  }

  /** The coordinates of the blocks after `Move`, head first. */
  function MoveBody(body: seq<Coord>, d: Direction, maxX: Short, maxY: Short, grow: bool): (r: seq<Coord>)
    requires |body| > 0
    ensures |r| == |body| + (if grow then 1 else 0)
    ensures r[1..|body|] == body[..|body| - 1]
  {
    [NextHead(body[0], d, maxX, maxY)] + (if grow then body else body[..|body| - 1])
  }

  /**
   * A move keeps the length unless growth is pending, when it adds exactly
   * one block; the snake stays non-empty; every old block moves back by one
   * place and only the old tail can drop off.
   */
  lemma MoveBodyShape(body: seq<Coord>, d: Direction, maxX: Short, maxY: Short, grow: bool)
    requires |body| > 0
    ensures var r := MoveBody(body, d, maxX, maxY, grow);
      && |r| == |body| + (if grow then 1 else 0)
      && |r| > 0
      && r[0] == NextHead(body[0], d, maxX, maxY)
      && (forall i :: 1 <= i < |r| ==> r[i] == body[i - 1])
  {
  }

  /** The body positions other than the head that `pos` occupies, if any. */
  predicate Occupies(body: seq<Coord>, pos: Coord, excludeHead: bool) {
    exists i :: (if excludeHead then 1 else 0) <= i < |body| && body[i] == pos
  }

  /** One block of the snake. `isHead` is rewritten in place by `Move`. */
  class Block {
    var isHead: bool
    var coords: Coord

    constructor (isHead: bool, coords: Coord)
      ensures this.isHead == isHead && this.coords == coords
    {
      this.isHead := isHead;
      this.coords := coords;
    }
  }

  class Snake {
    var growNextMove: bool
    /** `Blocks`: the list, head at index 0. */
    var blocks: seq<Block>

    /** The coordinates of `blocks`, in order. */
    ghost var Body: seq<Coord>
    /** The objects of the implementation: this snake and every block it ever held. */
    ghost var Repr: set<object>

    ghost predicate Valid()
      reads this, Repr
    {
      && this in Repr
      && |blocks| == |Body| > 0
      && (forall i :: 0 <= i < |blocks| ==> blocks[i] in Repr && blocks[i].coords == Body[i])
      && HeadOnlyAtFront()
    }

    /** Exactly one block is marked as the head: the one at index 0. */
    ghost predicate HeadOnlyAtFront()
      reads this, blocks
    {
      forall i :: 0 <= i < |blocks| ==> (blocks[i].isHead <==> i == 0)
    }

    /** A new snake is one head block at `startPos`, with no growth pending. */
    constructor (startPos: Coord)
      ensures Valid() && fresh(Repr)
      ensures Body == [startPos] && !growNextMove
    {
      var head := new Block(true, startPos);
      growNextMove := false;
      blocks := [head];
      Body := [startPos];
      Repr := {this, head};
    }

    /** `Head`: the first block, which is the one marked as head. */
    function Head(): (b: Block)
      reads this, Repr
      requires Valid()
      ensures b in Repr && b.isHead && b.coords == Body[0]
    {
      blocks[0]
    }

    /** True iff a block, skipping the one marked head when `excludeHead`, lies on `pos`. */
    method InsideSnake(pos: Coord, excludeHead: bool) returns (r: bool)
      requires Valid()
      ensures r <==> Occupies(Body, pos, excludeHead)
    {
      var i := 0;
      while i < |blocks|
        invariant 0 <= i <= |blocks|
        invariant forall j :: (if excludeHead then 1 else 0) <= j < i ==> Body[j] != pos
      {
        var block := blocks[i];
        if excludeHead && block.isHead {
          i := i + 1;
          continue;
        }
        if EqualOp(block.coords, pos) {
          return true;
        }
        i := i + 1;
      }
      return false;
    }

    /**
     * Inserts the next head, moved one cell in `direction` and wrapped into
     * `[0,maxX] x [0,maxY]`, drops the tail unless growth was pending, and
     * clears the growth flag. Only the old head's block object is altered.
     */
    method Move(direction: Direction, maxX: Short, maxY: Short)
      requires Valid()
      modifies Repr
      ensures Valid() && fresh(Repr - old(Repr))
      ensures Body == MoveBody(old(Body), direction, maxX, maxY, old(growNextMove))
      ensures !growNextMove
      ensures blocks[1..] == if old(growNextMove) then old(blocks) else old(blocks)[..|old(blocks)| - 1]
    {
      ghost var oldBlocks, oldBody := blocks, Body;
      blocks[0].isHead := false;
      assert forall i :: 0 <= i < |blocks| ==> !blocks[i].isHead;
      var oldFrontPos := blocks[0].coords;
      var newFrontPos := Offset(oldFrontPos, direction);
      // the four wrap-around tests
      newFrontPos := WrapInto(newFrontPos, maxX, maxY);

      var front := new Block(true, newFrontPos);
      blocks := [front] + blocks;
      Body := [newFrontPos] + Body;
      Repr := Repr + {front};
      assert blocks[1..] == oldBlocks && Body[1..] == oldBody;
      if !growNextMove {
        blocks := blocks[..|blocks| - 1];
        Body := Body[..|Body| - 1];
        assert blocks[1..] == oldBlocks[..|oldBlocks| - 1] && Body[1..] == oldBody[..|oldBody| - 1];
      }
      growNextMove := false;
    }

    /** Makes the next `Move` keep the tail. Calling it again changes nothing more. */
    method Grow()
      requires Valid()
      modifies this`growNextMove
      ensures Valid() && growNextMove
    {
      growNextMove := true;
    }
  }

  /** Concrete moves on a 10 x 10 grid. */
  method MoveExamples()
  {
    var s := new Snake(Coord(0, 0));
    s.Move(Right, 9, 9);
    assert s.Body == [Coord(1, 0)];
    s.Grow();
    s.Move(Right, 9, 9);
    assert s.Body == [Coord(2, 0), Coord(1, 0)];

    var t := new Snake(Coord(0, 5));
    t.Move(Left, 9, 9);
    assert t.Body == [Coord(9, 5)];
  }

  /** Two calls of `Grow` before one `Move` still add only one block. */
  method GrowTwiceAddsOneBlock(s: Snake, d: Direction)
    requires s.Valid()
    modifies s.Repr
    ensures s.Valid() && |s.Body| == |old(s.Body)| + 1 && !s.growNextMove
  {
    s.Grow();
    s.Grow();
    s.Move(d, 9, 9);
  }
}
