/**
 * The game loop (SnakeCs/Game.cs): a 40 x 20 play area above a three-row
 * score bar, one snake, one food cell and a score. Each tick clears the
 * frame, reads the keyboard, moves the snake, handles food and death, and
 * draws and flushes the next frame.
 */
module GameLoop {
  import opened Wrappers
  import opened Coords
  import opened SnakeState
  import opened Gfx

  /** The keys the game tells apart; every other key is `OtherKey`. */
  datatype Key = LeftArrow | RightArrow | UpArrow | DownArrow | OtherKey

  /** The `switch` of `ProcessInput`: an arrow key names a direction, any other key none. */
  function KeyDirection(k: Key): (r: Option<Direction>)
    ensures r.Some? <==> k != OtherKey
    ensures r.Some? ==> ArrowKey(r.value) == k
  {
    match k
    case LeftArrow => Some(Left)
    case RightArrow => Some(Right)
    case UpArrow => Some(Up)
    case DownArrow => Some(Down)
    case OtherKey => None
  }

  /** The arrow key of each direction. */
  function ArrowKey(d: Direction): Key {
    match d
    case Left => LeftArrow
    case Right => RightArrow
    case Up => UpArrow
    case Down => DownArrow
  }

  /** A key names direction `d` exactly when it is `d`'s arrow key. */
  lemma KeyDirectionIsArrow(k: Key, d: Direction)
    ensures KeyDirection(k) == Some(d) <==> k == ArrowKey(d)
  {
  }

  /**
   * The direction of the next move, given the previous one and the keys
   * pressed since the last tick, oldest first: the first key is read and
   * the rest are drained unread.
   */
  function NextDirection(last: Direction, pending: seq<Key>): (d: Direction)
    ensures d == last || (pending != [] && pending[0] == ArrowKey(d))
  {
    if pending == [] then last
    else match KeyDirection(pending[0])
      case Some(d) => d
      case None => last
  }

  /** Only the first pending key counts; the keys after it are thrown away. */
  lemma FirstKeyWins(last: Direction, k: Key, rest: seq<Key>)
    ensures NextDirection(last, [k] + rest) == NextDirection(last, [k])
  {
  }

  /** A first key that is an arrow turns the snake that way, whatever comes after it. */
  lemma ArrowTurns(last: Direction, d: Direction, rest: seq<Key>)
    ensures NextDirection(last, [ArrowKey(d)] + rest) == d
  {
  }

  /** With no key, or a first key that is not an arrow, the snake keeps going. */
  lemma NoArrowKeepsDirection(last: Direction, pending: seq<Key>)
    requires pending == [] || pending[0] == OtherKey
    ensures NextDirection(last, pending) == last
  {
  }

  /** The play area `[0, 40) x [0, 20)`, where the snake and the food live. */
  predicate InPlayArea(p: Coord) {
    0 <= p.x < 40 && 0 <= p.y < 20
  }

  predicate BodyInPlayArea(body: seq<Coord>) {
    forall i :: 0 <= i < |body| ==> InPlayArea(body[i])
  }

  /** Moving with the game's limits (39, 19) keeps every block in the play area. */
  lemma MoveStaysInPlayArea(body: seq<Coord>, d: Direction, grow: bool)
    requires |body| > 0 && BodyInPlayArea(body)
    ensures BodyInPlayArea(MoveBody(body, d, 39, 19, grow))
  {
    NextHeadInArea(body[0], d, 39, 19);
    MoveBodyShape(body, d, 39, 19, grow);
    var r := MoveBody(body, d, 39, 19, grow);
    forall i | 0 <= i < |r|
      ensures InPlayArea(r[i])
    {
      if i > 0 {
        assert r[i] == body[i - 1];
      }
    }
  }

  /**
   * Turning straight back onto the second block kills a snake of three or
   * more blocks: its new head lands on a block that stays in the body.
   */
  lemma ReversalIsFatal(body: seq<Coord>, d: Direction, grow: bool)
    requires |body| >= 3 && NextHead(body[0], d, 39, 19) == body[1]
    ensures var r := MoveBody(body, d, 39, 19, grow); Occupies(r, r[0], true)
  {
    var r := MoveBody(body, d, 39, 19, grow);
    MoveBodyShape(body, d, 39, 19, grow);
    assert r[2] == body[1];
  }

  /** The digit character for `d`. */
  function DigitChar(d: int): char
    requires 0 <= d < 10
  {
    ('0' as int + d) as char
  }

  /** `n` in decimal, as C# formats a non-negative `int`: no sign, no leading zeros. */
  function DecimalDigits(n: nat): (s: string)
    ensures |s| >= 1
    ensures forall i :: 0 <= i < |s| ==> '0' <= s[i] <= '9'
    ensures n > 0 ==> s[0] != '0'
    decreases n
  {
    if n < 10 then [DigitChar(n)] else DecimalDigits(n / 10) + [DigitChar(n % 10)]
  }

  /** The value of a string of decimal digits, read most significant first. */
  function DecimalValue(s: string): int
    decreases |s|
  {
    if s == [] then 0 else DecimalValue(s[..|s| - 1]) * 10 + (s[|s| - 1] as int - '0' as int)
  }

  /** Reading the digits back gives the number. */
  lemma {:induction false} DecimalRoundTrip(n: nat)
    ensures DecimalValue(DecimalDigits(n)) == n
    decreases n
  {
    if n >= 10 {
      DecimalRoundTrip(n / 10);
      var s := DecimalDigits(n);
      assert s[..|s| - 1] == DecimalDigits(n / 10);
    }
  }

  function Pow10(k: nat): nat {
    if k == 0 then 1 else 10 * Pow10(k - 1)
  }

  /** A number below `10^k` takes at most `k` digits. */
  lemma {:induction false} DecimalLength(n: nat, k: nat)
    requires 1 <= k && n < Pow10(k)
    ensures |DecimalDigits(n)| <= k
    decreases k
  {
    if n >= 10 {
      DecimalLength(n / 10, k - 1);
    }
  }

  /** The score bar's text. */
  function ScoreText(score: nat): string {
    "Score: " + DecimalDigits(score)
  }

  /** The cells of a `width x height` buffer with every cell of `cs` painted `c`. */
  function PaintPoints(s: seq<Cell>, width: int, height: int, cs: seq<Coord>, c: Color): (r: seq<Cell>)
    requires 0 < width && |s| == width * height
    requires forall i :: 0 <= i < |cs| ==> 0 <= cs[i].x as int < width && 0 <= cs[i].y as int < height
    ensures |r| == |s|
    decreases |cs|
  {
    if cs == [] then s
    else
      var p := cs[|cs| - 1];
      CellIndexInBuffer(width, height, p.x as int, p.y as int);
      PaintPoints(s, width, height, cs[..|cs| - 1], c)[CellIndex(width, p.x as int, p.y as int) := Point(c)]
  }

  /** A painted buffer holds `c` exactly on the cells of `cs`, and the old cell elsewhere. */
  lemma {:induction false} PaintPointsAt(s: seq<Cell>, width: int, height: int, cs: seq<Coord>, c: Color, p: Coord)
    requires 0 < width && |s| == width * height
    requires forall i :: 0 <= i < |cs| ==> 0 <= cs[i].x as int < width && 0 <= cs[i].y as int < height
    requires 0 <= p.x as int < width && 0 <= p.y as int < height
    ensures 0 <= CellIndex(width, p.x as int, p.y as int) < |s|
    ensures PaintPoints(s, width, height, cs, c)[CellIndex(width, p.x as int, p.y as int)]
         == if p in cs then Point(c) else s[CellIndex(width, p.x as int, p.y as int)]
    decreases |cs|
  {
    CellIndexInBuffer(width, height, p.x as int, p.y as int);
    if cs != [] {
      var q := cs[|cs| - 1];
      var init := cs[..|cs| - 1];
      assert cs == init + [q];
      PaintPointsAt(s, width, height, init, c, p);
      if q != p && CellIndex(width, q.x as int, q.y as int) == CellIndex(width, p.x as int, p.y as int) {
        CellIndexInjective(width, q.x as int, q.y as int, p.x as int, p.y as int);
        assert false;
      }
    }
  }

  /** Two lines written from (0, 0) and (0, 1) of the 40 x 23 buffer `s`. */
  function TwoLines(s: seq<Cell>, first: string, second: string): (r: TextRun)
    requires |s| == 40 * 23
    ensures |r.cells| == |s|
  {
    var attr := Attribute(White, Black);
    var top := WriteRun(s, 40, 23, first, 0, 0, 0, attr);
    if top.fits then WriteRun(top.cells, 40, 23, second, 0, 1, 0, attr) else top
  }

  /** Lines shorter than a row fit, and each shows in its row over the old cells. */
  lemma TwoLinesAt(s: seq<Cell>, first: string, second: string, i: int)
    requires |s| == 40 * 23 && |first| < 40 && |second| < 40 && 0 <= i < |s|
    ensures var attr := Attribute(White, Black);
      && TwoLines(s, first, second).fits
      && TwoLines(s, first, second).cells[i]
         == if i < |first| then Cell(first[i], attr)
            else if 40 <= i < 40 + |second| then Cell(second[i - 40], attr)
            else s[i]
  {
    var attr := Attribute(White, Black);
    var top := WriteRun(s, 40, 23, first, 0, 0, 0, attr);
    WriteRunInRow(s, 40, 23, first, 0, 0, 0, attr, i);
    WriteRunInRow(top.cells, 40, 23, second, 0, 1, 0, attr, i);
  }

  const HelpLine := "Use the arrow keys to move."
  const StartLine := "Press any key to start the game"

  /** Both lines of the start screen fit in one row. */
  lemma StartLinesFit()
    ensures |HelpLine| == 27 && |StartLine| == 31
  {
  }

  /** The four `DrawLine` calls of `Draw`: the frame around the score bar, in white. */
  function ScoreBarFrame(s: seq<Cell>): (r: seq<Cell>)
    requires |s| == 40 * 23
    ensures |r| == |s|
  {
    var edge := Point(White);
    var top := AxisLine(s, 40, 0, 20, 39, 20, edge);
    var left := AxisLine(top, 40, 0, 20, 0, 22, edge);
    var right := AxisLine(left, 40, 39, 20, 39, 22, edge);
    AxisLine(right, 40, 0, 22, 39, 22, edge)
  }

  /** Where the frame is: rows 20 and 22, and columns 0 and 39 of row 21. */
  predicate OnFrame(p: Coord) {
    0 <= p.x < 40 && (p.y == 20 || p.y == 22 || (p.y == 21 && (p.x == 0 || p.x == 39)))
  }

  /** The frame paints exactly its own cells white. */
  lemma ScoreBarFrameAt(s: seq<Cell>, p: Coord)
    requires |s| == 40 * 23 && 0 <= p.x < 40 && 0 <= p.y < 23
    ensures ScoreBarFrame(s)[CellIndex(40, p.x as int, p.y as int)]
         == if OnFrame(p) then Point(White) else s[CellIndex(40, p.x as int, p.y as int)]
  {
    var edge := Point(White);
    var x, y := p.x as int, p.y as int;
    var top := AxisLine(s, 40, 0, 20, 39, 20, edge);
    var left := AxisLine(top, 40, 0, 20, 0, 22, edge);
    var right := AxisLine(left, 40, 39, 20, 39, 22, edge);
    assert Wrap16(39 - 0) == 39;
    FillAt(s, 40, 0, 20, 39, 1, edge, x, y);
    FillAt(top, 40, 0, 20, 1, 3, edge, x, y);
    FillAt(left, 40, 39, 20, 1, 3, edge, x, y);
    FillAt(right, 40, 0, 22, 39, 1, edge, x, y);
  }

  /**
   * `Draw` on the cells `s`: the snake's blocks in red, then the food in
   * blue, then the frame, then the score text from (1, 21), wrapping to
   * column 1.
   */
  function DrawScene(s: seq<Cell>, body: seq<Coord>, food: Coord, score: nat): (r: TextRun)
    requires |s| == 40 * 23 && BodyInPlayArea(body) && InPlayArea(food)
    ensures |r.cells| == |s|
  {
    var snakeDrawn := PaintPoints(s, 40, 23, body, Red);
    var foodDrawn := snakeDrawn[CellIndex(40, food.x as int, food.y as int) := Point(Blue)];
    WriteRun(ScoreBarFrame(foodDrawn), 40, 23, ScoreText(score), 1, 21, 1, Attribute(White, Black))
  }

  /** In the play area the food is drawn over the snake, and the snake over the old cell. */
  lemma ScenePlayArea(s: seq<Cell>, body: seq<Coord>, food: Coord, score: nat, p: Coord)
    requires |s| == 40 * 23 && BodyInPlayArea(body) && InPlayArea(food) && InPlayArea(p)
    ensures DrawScene(s, body, food, score).cells[CellIndex(40, p.x as int, p.y as int)]
         == if p == food then Point(Blue)
            else if p in body then Point(Red)
            else s[CellIndex(40, p.x as int, p.y as int)]
  {
    var i := CellIndex(40, p.x as int, p.y as int);
    var snakeDrawn := PaintPoints(s, 40, 23, body, Red);
    var foodDrawn := snakeDrawn[CellIndex(40, food.x as int, food.y as int) := Point(Blue)];
    PaintPointsAt(s, 40, 23, body, Red, p);
    ScoreBarFrameAt(foodDrawn, p);
    WriteRunKeepsEarlier(ScoreBarFrame(foodDrawn), 40, 23, ScoreText(score), 1, 21, 1, Attribute(White, Black), i);
    if p != food && i == CellIndex(40, food.x as int, food.y as int) {
      CellIndexInjective(40, p.x as int, p.y as int, food.x as int, food.y as int);
      assert false;
    }
  }

  /**
   * The score bar: when the score takes at most 31 digits, the text stays in
   * row 21 from column 1, the frame stays whole around it, and the rest of
   * row 21 keeps its old cells.
   */
  lemma SceneScoreBar(s: seq<Cell>, body: seq<Coord>, food: Coord, score: nat, p: Coord)
    requires |s| == 40 * 23 && BodyInPlayArea(body) && InPlayArea(food)
    requires |DecimalDigits(score)| <= 31
    requires 0 <= p.x < 40 && 20 <= p.y < 23
    ensures var r := DrawScene(s, body, food, score);
      var t := ScoreText(score);
      && r.fits
      && r.cells[CellIndex(40, p.x as int, p.y as int)]
         == if p.y == 21 && 1 <= p.x as int <= |t| then Cell(t[p.x as int - 1], Attribute(White, Black))
            else if OnFrame(p) then Point(White)
            else s[CellIndex(40, p.x as int, p.y as int)]
  {
    var i := CellIndex(40, p.x as int, p.y as int);
    var snakeDrawn := PaintPoints(s, 40, 23, body, Red);
    var foodDrawn := snakeDrawn[CellIndex(40, food.x as int, food.y as int) := Point(Blue)];
    PaintPointsAt(s, 40, 23, body, Red, p);
    ScoreBarFrameAt(foodDrawn, p);
    WriteRunInRow(ScoreBarFrame(foodDrawn), 40, 23, ScoreText(score), 1, 21, 1, Attribute(White, Black), i);
  }

  /** The frame's text fits exactly when the score takes fewer than 71 digits (78 cells from (1, 21)). */
  lemma SceneFits(s: seq<Cell>, body: seq<Coord>, food: Coord, score: nat)
    requires |s| == 40 * 23 && BodyInPlayArea(body) && InPlayArea(food)
    ensures DrawScene(s, body, food, score).fits <==> |DecimalDigits(score)| < 71
  {
    var snakeDrawn := PaintPoints(s, 40, 23, body, Red);
    var foodDrawn := snakeDrawn[CellIndex(40, food.x as int, food.y as int) := Point(Blue)];
    WriteRunFitsIff(ScoreBarFrame(foodDrawn), 40, 23, ScoreText(score), 1, 21, 1, Attribute(White, Black));
    assert Capacity(40, 23, 1, 21, 1) == 78;
  }

  /**
   * One game: the snake, the food, the score and the renderer. The game is
   * over once the moved head lands on another block of the snake.
   */
  class Game {
    var gameOver: bool
    const snake: Snake
    const graphics: ConsoleGraphics
    var lastDirection: Direction
    var foodLocation: Option<Coord>
    const gameSize: Coord
    const gfxSize: Coord
    var Score: int

    /** This game, its renderer with the buffer array, and the snake's objects. */
    ghost var Repr: set<object>

    ghost predicate Valid()
      reads this, Repr
    {
      && this in Repr && snake in Repr && graphics in Repr && graphics.writeBuffer in Repr
      && snake.Repr <= Repr
      && this !in snake.Repr && graphics !in snake.Repr && graphics.writeBuffer !in snake.Repr
      && snake.Valid()
      && graphics.Valid()
      && gameSize == Coord(40, 20) && gfxSize == Coord(40, 23)
      && graphics.width == gfxSize.x && graphics.height == gfxSize.y
      && foodLocation.Some? && InPlayArea(foodLocation.value)
      && BodyInPlayArea(snake.Body)
      && Score >= 0
    }

    /**
     * A one-block snake at (0, 0) heading right, food at the random cell
     * (foodX, foodY), score 0 and a blank buffer on a 40 x 23 console. The
     * start screen is written and flushed, then cleared after a key press.
     */
    constructor (foodX: int, foodY: int)
      requires 0 <= foodX < 40 && 0 <= foodY < 20
      ensures Valid() && fresh(Repr)
      ensures !gameOver && lastDirection == Right && Score == 0
      ensures foodLocation == Some(Coord(foodX as Short, foodY as Short))
      ensures snake.Body == [Coord(0, 0)] && !snake.growNextMove
      ensures graphics.writeBuffer[..] == Blanks(40 * 23)
    {
      gameOver := false;
      lastDirection := Right;
      var size := Coord(40, 20);
      gameSize := size;
      snake := new Snake(Coord(0, 0));
      foodLocation := Some(Coord(Wrap16(foodX), Wrap16(foodY)));
      var total := Coord(size.x, Wrap16(size.y as int + 3));
      gfxSize := total;
      graphics := new ConsoleGraphics(total.x as int, total.y as int);
      Score := 0;
      new;
      Repr := {this} + snake.Repr + {graphics, graphics.writeBuffer};
      StartLinesFit();
      var _, _ := ShowStartScreen(HelpLine, StartLine, true, 0);
      Score := 0;
    }

    /**
     * The start screen: two lines of help from (0, 0) and (0, 1), flushed,
     * then cleared once a key is pressed.
     */
    method ShowStartScreen(help: string, start: string, writeSucceeded: bool, lastError: Short)
      returns (sent: seq<Cell>, r: Outcome<GfxError>)
      requires graphics.Valid() && graphics.width == 40 && graphics.height == 23
      requires |help| < 40 && |start| < 40
      modifies graphics.writeBuffer
      ensures |sent| == 40 * 23
      ensures forall i :: 0 <= i < 40 * 23 ==>
        sent[i] == if i < |help| then Cell(help[i], Attribute(White, Black))
                   else if 40 <= i < 40 + |start| then Cell(start[i - 40], Attribute(White, Black))
                   else old(graphics.writeBuffer[i])
      ensures graphics.writeBuffer[..] == Blanks(40 * 23)
      ensures r == if writeSucceeded then Pass else Fail(WriteFailed(lastError))
    {
      TwoLinesAt(graphics.writeBuffer[..], help, start, 0);
      WriteRunInRow(graphics.writeBuffer[..], 40, 23, help, 0, 0, 0, Attribute(White, Black), 0);
      r := graphics.WriteText(help, 0, 0, 0, White, Black);
      if r.Fail? {
        assert false;
      }
      WriteRunInRow(graphics.writeBuffer[..], 40, 23, start, 0, 1, 0, Attribute(White, Black), 0);
      r := graphics.WriteText(start, 0, 1, 0, White, Black);
      if r.Fail? {
        assert false;
      }
      sent, r := graphics.Flush(writeSucceeded, lastError);
      forall i | 0 <= i < 40 * 23
        ensures sent[i] == if i < |help| then Cell(help[i], Attribute(White, Black))
                           else if 40 <= i < 40 + |start| then Cell(start[i - 40], Attribute(White, Black))
                           else old(graphics.writeBuffer[i])
      {
        TwoLinesAt(old(graphics.writeBuffer[..]), help, start, i);
      }
      if r.Fail? {
        return;
      }
      // the key press is not modelled
      graphics.Clear();
    }

    /** `IsRunning`: true until the snake has run into itself. */
    function IsRunning(): (running: bool)
      reads this
      ensures running <==> !gameOver
    {
      !gameOver
    }

    /** Puts the food on the random cell (fx, fy) of the play area; it may lie on the snake. */
    method RandomizeFood(fx: int, fy: int)
      requires 0 <= fx < gameSize.x as int && 0 <= fy < gameSize.y as int
      modifies this`foodLocation
      ensures foodLocation.Some? && foodLocation.value.x as int == fx && foodLocation.value.y as int == fy
    {
      foodLocation := Some(Coord(Wrap16(fx), Wrap16(fy)));
    }

    /**
     * Moves the snake once, in the direction of the first key pressed since
     * the last tick when it is an arrow, and otherwise in the last direction.
     */
    method ProcessInput(pending: seq<Key>)
      requires Valid()
      modifies Repr
      ensures Valid() && fresh(Repr - old(Repr))
      ensures lastDirection == NextDirection(old(lastDirection), pending)
      ensures snake.Body == MoveBody(old(snake.Body), lastDirection, 39, 19, old(snake.growNextMove))
      ensures !snake.growNextMove
      ensures gameOver == old(gameOver) && foodLocation == old(foodLocation) && Score == old(Score)
      ensures graphics.writeBuffer[..] == old(graphics.writeBuffer[..])
    {
      var maxX, maxY := Wrap16(gameSize.x as int - 1), Wrap16(gameSize.y as int - 1);
      if pending == [] {
        snake.Move(lastDirection, maxX, maxY);
      } else {
        var lastKey := pending[0];
        // the later keys are drained unread
        var direction := KeyDirection(lastKey);
        if direction.Some? {
          snake.Move(direction.value, maxX, maxY);
          lastDirection := direction.value;
        } else {
          snake.Move(lastDirection, maxX, maxY);
        }
      }
      MoveStaysInPlayArea(old(snake.Body), lastDirection, old(snake.growNextMove));
      Repr := Repr + snake.Repr;
    }

    /**
     * Eats the food when the head is on it (one more point, new food at
     * (fx, fy), growth on the next move), then ends the game when the head
     * lies on any other block.
     */
    method Update(fx: int, fy: int)
      requires Valid() && 0 <= fx < 40 && 0 <= fy < 20
      modifies this`Score, this`foodLocation, this`gameOver, snake`growNextMove
      ensures Valid()
      ensures var ate := old(foodLocation).value == snake.Body[0];
        && Score == old(Score) + (if ate then 1 else 0)
        && foodLocation == (if ate then Some(Coord(fx as Short, fy as Short)) else old(foodLocation))
        && snake.growNextMove == (ate || old(snake.growNextMove))
      ensures gameOver == (old(gameOver) || Occupies(snake.Body, snake.Body[0], true))
    {
      if EqualOp(foodLocation.value, snake.Head().coords) {
        Score := Score + 1;
        RandomizeFood(fx, fy);
        snake.Grow();
      }
      var dead := snake.InsideSnake(snake.Head().coords, true);
      if dead {
        gameOver := true;
      }
    }

    /**
     * Draws the frame (see `DrawScene`) and flushes it. When the score text
     * does not fit, the failure is reported and nothing is flushed.
     */
    method Draw(writeSucceeded: bool, lastError: Short) returns (sent: Option<seq<Cell>>, r: Outcome<GfxError>)
      requires Valid()
      modifies graphics.writeBuffer
      ensures Valid()
      ensures var scene := DrawScene(old(graphics.writeBuffer[..]), snake.Body, foodLocation.value, Score);
        && (scene.fits ==>
              sent == Some(scene.cells) && graphics.writeBuffer[..] == Blanks(40 * 23)
              && r == if writeSucceeded then Pass else Fail(WriteFailed(lastError)))
        && (!scene.fits ==> sent == None && graphics.writeBuffer[..] == scene.cells && r == Fail(TextDoesNotFit))
    {
      ghost var s0 := graphics.writeBuffer[..];
      for i := 0 to |snake.blocks|
        invariant graphics.writeBuffer[..] == PaintPoints(s0, 40, 23, snake.Body[..i], Red)
      {
        var block := snake.blocks[i];
        assert snake.Body[..i + 1][..i] == snake.Body[..i];
        CellIndexRoundTrip(40, 23, block.coords.x as int, block.coords.y as int);
        graphics.DrawPoint(block.coords.x, block.coords.y, Red);
      }
      assert snake.Body[..|snake.blocks|] == snake.Body;
      var food := foodLocation.value;
      CellIndexRoundTrip(40, 23, food.x as int, food.y as int);
      graphics.DrawPoint(food.x, food.y, Blue);
      var right, bottom := Wrap16(gameSize.x as int - 1), Wrap16(gfxSize.y as int - 1);
      graphics.DrawLine(0, gameSize.y, right, gameSize.y, White);
      graphics.DrawLine(0, gameSize.y, 0, bottom, White);
      graphics.DrawLine(right, gameSize.y, right, bottom, White);
      graphics.DrawLine(0, bottom, right, bottom, White);
      var textResult := graphics.WriteText(ScoreText(Score), 1, Wrap16(gameSize.y as int + 1), 1, White, Black);
      if textResult.Fail? {
        return None, textResult;
      }
      var frame;
      frame, r := graphics.Flush(writeSucceeded, lastError);
      sent := Some(frame);
    }

    /**
     * `Tick` without the sleep: clear, move, eat or die, then draw and flush
     * the frame on a blank buffer.
     */
    method Tick(pending: seq<Key>, fx: int, fy: int, writeSucceeded: bool, lastError: Short)
      returns (sent: Option<seq<Cell>>, r: Outcome<GfxError>)
      requires Valid() && 0 <= fx < 40 && 0 <= fy < 20
      modifies Repr
      ensures Valid() && fresh(Repr - old(Repr))
      ensures lastDirection == NextDirection(old(lastDirection), pending)
      ensures snake.Body == MoveBody(old(snake.Body), lastDirection, 39, 19, old(snake.growNextMove))
      ensures var ate := old(foodLocation).value == snake.Body[0];
        && Score == old(Score) + (if ate then 1 else 0)
        && foodLocation == (if ate then Some(Coord(fx as Short, fy as Short)) else old(foodLocation))
        && snake.growNextMove == ate
      ensures gameOver == (old(gameOver) || Occupies(snake.Body, snake.Body[0], true))
      ensures var scene := DrawScene(Blanks(40 * 23), snake.Body, foodLocation.value, Score);
        && (scene.fits ==> sent == Some(scene.cells) && r == if writeSucceeded then Pass else Fail(WriteFailed(lastError)))
        && (!scene.fits ==> sent == None && r == Fail(TextDoesNotFit))
        && graphics.writeBuffer[..] == if scene.fits then Blanks(40 * 23) else scene.cells
    {
      graphics.Clear();
      ProcessInput(pending);
      Update(fx, fy);
      sent, r := Draw(writeSucceeded, lastError);
    }
  }
}
