/**
 * `MotionController` once its `Scroller` has finished: a start and a current pointer
 * position, two axis allowances, and the swipe classification and fling targets computed
 * from them with Java `int` arithmetic.
 *
 * Coordinates are 32-bit: every difference and sum wraps as Java's does, and `Math.abs`
 * leaves `Integer.MIN_VALUE` negative. A position that was never set (or was reset) is
 * Java's `null`, and reading it is a `NullPointerException`.
 */
module MotionController {
  import opened Common

  const MinInt: int := -0x8000_0000
  const MaxInt: int := 0x7fff_ffff

  type Int32 = x: int | MinInt <= x <= MaxInt

  /** Java's wrap-around of an `int` result. */
  function Wrap(x: int): (r: Int32)
    ensures MinInt <= x <= MaxInt ==> r == x
    ensures (r - x) % 0x1_0000_0000 == 0
  {
    (x - MinInt) % 0x1_0000_0000 + MinInt
  }

  /** `Math.abs(int)`. */
  function Abs(x: Int32): (r: Int32)
    ensures x == MinInt ==> r == MinInt
    ensures x != MinInt ==> r >= 0 && (r == x || r == -x)
  {
    if x == MinInt then MinInt else if x < 0 then -x else x
  }

  datatype Point = Point(x: Int32, y: Int32)

  datatype Direction = ToStartPosition | NoSwap | RightToLeft | LeftToRight | UpToDown | DownToUp {
    predicate IsHorizontal() { this == RightToLeft || this == LeftToRight }
    predicate IsVertical() { this == UpToDown || this == DownToUp }
  }

  datatype Controller = Controller(start: Option<Point>, current: Option<Point>, horizontal: bool, vertical: bool)

  /** The `Scroller` animation a fling starts, from the current position to the target. */
  datatype Animation = Animation(from: Point, target: Point)

  /** A fling's effect: the controller afterwards and the animation started, if any. */
  datatype Fling = Fling(controller: Controller, animation: Option<Animation>)

  /** A new controller: no positions, horizontal swipes allowed, vertical ones not. */
  function New(): (c: Controller)
    ensures c.start.None? && c.current.None? && c.horizontal && !c.vertical
  {
    Controller(None, None, true, false)
  }

  /** `setStartPointerPosition(x, y)`: start and current both become `(x, y)`. */
  function SetStart(c: Controller, x: Int32, y: Int32): (r: Controller)
    ensures r.start == Some(Point(x, y)) && r.current == r.start
    ensures r.horizontal == c.horizontal && r.vertical == c.vertical
  {
    c.(start := Some(Point(x, y)), current := Some(Point(x, y)))
  }

  /** `setCurrentPointerPosition(x, y)`. */
  function SetCurrent(c: Controller, x: Int32, y: Int32): (r: Controller)
    ensures r.current == Some(Point(x, y)) && r.start == c.start
    ensures r.horizontal == c.horizontal && r.vertical == c.vertical
  {
    c.(current := Some(Point(x, y)))
  }

  /** `setSwapAllowance(h, v)`. */
  function SetSwapAllowance(c: Controller, h: bool, v: bool): (r: Controller)
    ensures r.horizontal == h && r.vertical == v && r.start == c.start && r.current == c.current
  {
    c.(horizontal := h, vertical := v)
  }

  /** `reset()`: forgets both positions. */
  function Reset(c: Controller): (r: Controller)
    ensures r.start.None? && r.current.None? && r.horizontal == c.horizontal && r.vertical == c.vertical
  {
    c.(start := None, current := None)
  }

  /** The horizontal delta `current.X - start.X`, wrapped. */
  function DeltaX(c: Controller): (r: Result<Int32, JavaError>)
    ensures r.Failure? <==> c.start.None? || c.current.None?
    ensures r.Failure? ==> r.error == NullPointer
    ensures r.Success? && MinInt <= c.current.value.x - c.start.value.x <= MaxInt ==>
              r.value == c.current.value.x - c.start.value.x
    ensures r.Success? ==> (r.value - (c.current.value.x - c.start.value.x)) % 0x1_0000_0000 == 0
  {
    if c.start.None? || c.current.None? then Failure(NullPointer)
    else Success(Wrap(c.current.value.x - c.start.value.x))
  }

  /** The vertical delta `current.Y - start.Y`, wrapped. */
  function DeltaY(c: Controller): (r: Result<Int32, JavaError>)
    ensures r.Failure? <==> c.start.None? || c.current.None?
    ensures r.Failure? ==> r.error == NullPointer
    ensures r.Success? && MinInt <= c.current.value.y - c.start.value.y <= MaxInt ==>
              r.value == c.current.value.y - c.start.value.y
    ensures r.Success? ==> (r.value - (c.current.value.y - c.start.value.y)) % 0x1_0000_0000 == 0
  {
    if c.start.None? || c.current.None? then Failure(NullPointer)
    else Success(Wrap(c.current.value.y - c.start.value.y))
  }

  /** A difference outside the `int` range comes back shifted by 2^32, as Java's `int`
      subtraction gives it: `MAX_VALUE - MIN_VALUE` is -1. */
  lemma DeltaWraps(c: Controller)
    requires c.start.Some? && c.current.Some?
    ensures var d := c.current.value.x - c.start.value.x;
      DeltaX(c).value == if d > MaxInt then d - 0x1_0000_0000 else if d < MinInt then d + 0x1_0000_0000 else d
    ensures var d := c.current.value.y - c.start.value.y;
      DeltaY(c).value == if d > MaxInt then d - 0x1_0000_0000 else if d < MinInt then d + 0x1_0000_0000 else d
    ensures c.start.value.x == MinInt && c.current.value.x == MaxInt ==> DeltaX(c) == Success(-1)
  {
  }

  /** A horizontal delta's direction. */
  function HorizontalOf(dx: int): (d: Direction)
    ensures d == NoSwap <==> dx == 0
    ensures d == LeftToRight <==> dx > 0
    ensures d == RightToLeft <==> dx < 0
  {
    if dx > 0 then LeftToRight else if dx < 0 then RightToLeft else NoSwap
  }

  /** A vertical delta's direction. */
  function VerticalOf(dy: int): (d: Direction)
    ensures d == NoSwap <==> dy == 0
    ensures d == UpToDown <==> dy > 0
    ensures d == DownToUp <==> dy < 0
  {
    if dy > 0 then UpToDown else if dy < 0 then DownToUp else NoSwap
  }

  /** `getMoveDirection()`: with both axes allowed the axis with the larger `Math.abs`
      wins, ties going to the vertical one; with one axis allowed only its delta counts; with
      none the answer is `NO_SWAP`. Both deltas are read first in every case. */
  function MoveDirection(c: Controller): (r: Result<Direction, JavaError>)
    ensures r.Failure? <==> c.start.None? || c.current.None?
    ensures r.Success? ==> r.value != ToStartPosition
    ensures r.Success? && r.value.IsHorizontal() ==> c.horizontal
    ensures r.Success? && r.value.IsVertical() ==> c.vertical
    ensures r.Success? && !c.horizontal && !c.vertical ==> r.value == NoSwap
    ensures r.Success? && c.horizontal && !c.vertical ==> r.value == HorizontalOf(DeltaX(c).value)
    ensures r.Success? && !c.horizontal && c.vertical ==> r.value == VerticalOf(DeltaY(c).value)
  {
    if c.start.None? || c.current.None? then Failure(NullPointer)
    else
      var dx, dy := DeltaX(c).value, DeltaY(c).value;
      if c.horizontal && c.vertical then
        Success(if Abs(dx) > Abs(dy) then HorizontalOf(dx) else VerticalOf(dy))
      else if c.vertical then Success(VerticalOf(dy))
      else if c.horizontal then Success(HorizontalOf(dx))
      else Success(NoSwap)
  }

  /** `getOffset()`: the deltas with each disallowed axis reported as 0. Only the deltas of
      allowed axes are read, so with neither allowed there is no null to trip on. */
  function Offset(c: Controller): (r: Result<(Int32, Int32), JavaError>)
    ensures !c.horizontal && !c.vertical ==> r == Success((0, 0))
    ensures (c.horizontal || c.vertical) ==> (r.Failure? <==> c.start.None? || c.current.None?)
    ensures r.Success? ==> r.value.0 == (if c.horizontal then DeltaX(c).value else 0)
    ensures r.Success? ==> r.value.1 == (if c.vertical then DeltaY(c).value else 0)
  {
    if !c.horizontal && !c.vertical then Success((0, 0))
    else if c.start.None? || c.current.None? then Failure(NullPointer)
    else Success((if c.horizontal then DeltaX(c).value else 0, if c.vertical then DeltaY(c).value else 0))
  }

  /** `getHorizontalMoveDirection()`: the sign of the horizontal delta, whatever the
      allowances. */
  function HorizontalMoveDirection(c: Controller): (r: Result<Direction, JavaError>)
    ensures r.Failure? <==> c.start.None? || c.current.None?
    ensures r.Success? ==> !r.value.IsVertical() && r.value != ToStartPosition
    ensures r.Success? ==> r.value == HorizontalOf(DeltaX(c).value)
  {
    if c.start.None? || c.current.None? then Failure(NullPointer) else Success(HorizontalOf(DeltaX(c).value))
  }

  /** `getVerticalMoveDirection()`: the sign of the vertical delta, whatever the
      allowances. */
  function VerticalMoveDirection(c: Controller): (r: Result<Direction, JavaError>)
    ensures r.Failure? <==> c.start.None? || c.current.None?
    ensures r.Success? ==> !r.value.IsHorizontal() && r.value != ToStartPosition
    ensures r.Success? ==> r.value == VerticalOf(DeltaY(c).value)
  {
    if c.start.None? || c.current.None? then Failure(NullPointer) else Success(VerticalOf(DeltaY(c).value))
  }

  /** `getHorizontalOffset()`: the horizontal delta, whatever the allowances. */
  function HorizontalOffset(c: Controller): (r: Result<Int32, JavaError>)
    ensures r.Failure? <==> c.start.None? || c.current.None?
    ensures r.Success? ==> r.value == DeltaX(c).value
  {
    DeltaX(c)
  }

  /** `getVerticalOffset()`. */
  function VerticalOffset(c: Controller): (r: Result<Int32, JavaError>)
    ensures r.Failure? <==> c.start.None? || c.current.None?
    ensures r.Success? ==> r.value == DeltaY(c).value
  {
    DeltaY(c)
  }

  /** `getStartPointerPosition()`. */
  function StartPosition(c: Controller): (r: Result<Point, JavaError>)
    ensures r.Failure? <==> c.start.None?
    ensures r.Success? ==> Some(r.value) == c.start
  {
    if c.start.None? then Failure(NullPointer) else Success(c.start.value)
  }

  /** `getCurrentPointerPosition()`. */
  function CurrentPosition(c: Controller): (r: Result<Point, JavaError>)
    ensures r.Failure? <==> c.current.None?
    ensures r.Success? ==> Some(r.value) == c.current
  {
    if c.current.None? then Failure(NullPointer) else Success(c.current.value)
  }

  /** `finishFling(x, y, duration)`: animates from the current position to `(x, y)`, which
      becomes the current position. */
  function FinishFling(c: Controller, x: Int32, y: Int32): (r: Result<Fling, JavaError>)
    ensures r.Failure? <==> c.current.None?
    ensures r.Success? ==>
              r.value.controller == c.(current := Some(Point(x, y))) &&
              r.value.animation == Some(Animation(c.current.value, Point(x, y)))
  {
    if c.current.None? then Failure(NullPointer)
    else Success(Fling(c.(current := Some(Point(x, y))), Some(Animation(c.current.value, Point(x, y)))))
  }

  /** `finishHorizontalFling(offset, duration, direction)`: nothing when horizontal swipes
      are disallowed or the direction is vertical; otherwise a fling to `start.X + offset`
      (left to right), `start.X - offset` (right to left) or back to the start. */
  function FinishHorizontalFling(c: Controller, offset: Int32, dir: Direction): (r: Result<Fling, JavaError>)
    ensures !c.horizontal || dir.IsVertical() ==> r == Success(Fling(c, None))
    ensures c.horizontal && !dir.IsVertical() ==> (r.Failure? <==> c.start.None? || c.current.None?)
    ensures r.Success? && c.horizontal && !dir.IsVertical() ==>
              var s, p := c.start.value, c.current.value;
              var target :=
                if dir == LeftToRight then Point(Wrap(s.x + offset), p.y)
                else if dir == RightToLeft then Point(Wrap(s.x - offset), p.y)
                else s;
              r.value == Fling(c.(current := Some(target)), Some(Animation(p, target)))
  {
    if !c.horizontal || dir.IsVertical() then Success(Fling(c, None))
    else if c.start.None? || c.current.None? then Failure(NullPointer)
    else
      var s, p := c.start.value, c.current.value;
      var left, right := Wrap(s.x - offset), Wrap(s.x + offset);
      var target := match dir
        case LeftToRight => Point(right, p.y)
        case RightToLeft => Point(left, p.y)
        case _ => s;
      Success(Fling(c.(current := Some(target)), Some(Animation(p, target))))
  }

  /** `finishVerticalFling(offset, duration, direction)`: the same on the vertical axis, with
      `start.Y + offset` for up to down and `start.Y - offset` for down to up. */
  function FinishVerticalFling(c: Controller, offset: Int32, dir: Direction): (r: Result<Fling, JavaError>)
    ensures !c.vertical || dir.IsHorizontal() ==> r == Success(Fling(c, None))
    ensures c.vertical && !dir.IsHorizontal() ==> (r.Failure? <==> c.start.None? || c.current.None?)
    ensures r.Success? && c.vertical && !dir.IsHorizontal() ==>
              var s, p := c.start.value, c.current.value;
              var target :=
                if dir == UpToDown then Point(p.x, Wrap(s.y + offset))
                else if dir == DownToUp then Point(p.x, Wrap(s.y - offset))
                else s;
              r.value == Fling(c.(current := Some(target)), Some(Animation(p, target)))
  {
    if !c.vertical || dir.IsHorizontal() then Success(Fling(c, None))
    else if c.start.None? || c.current.None? then Failure(NullPointer)
    else
      var s, p := c.start.value, c.current.value;
      var top, bottom := Wrap(s.y - offset), Wrap(s.y + offset);
      var target := match dir
        case UpToDown => Point(p.x, bottom)
        case DownToUp => Point(p.x, top)
        case _ => s;
      Success(Fling(c.(current := Some(target)), Some(Animation(p, target))))
  }

  // ----- properties -----------------------------------------------------------------------

  /** Right after `setStartPointerPosition` nothing has moved. */
  lemma StartIsAtRest(c: Controller, x: Int32, y: Int32)
    ensures MoveDirection(SetStart(c, x, y)) == Success(NoSwap)
    ensures Offset(SetStart(c, x, y)) == Success((0, 0))
    ensures HorizontalMoveDirection(SetStart(c, x, y)) == Success(NoSwap)
    ensures VerticalMoveDirection(SetStart(c, x, y)) == Success(NoSwap)
  {
  }

  /** What the setters store the getters read back, and the offset of a current position
      that lies within `int` range of the start is its plain distance from it. */
  lemma SetCurrentReadsBack(c: Controller, x: Int32, y: Int32)
    requires c.start.Some?
    requires MinInt <= x - c.start.value.x <= MaxInt && MinInt <= y - c.start.value.y <= MaxInt
    ensures CurrentPosition(SetCurrent(c, x, y)) == Success(Point(x, y))
    ensures StartPosition(SetCurrent(c, x, y)) == StartPosition(c)
    ensures HorizontalOffset(SetCurrent(c, x, y)) == Success(x - c.start.value.x)
    ensures VerticalOffset(SetCurrent(c, x, y)) == Success(y - c.start.value.y)
  {
  }

  /** `getOffset` is the pair of single-axis offsets, each kept only when its axis is
      allowed. */
  lemma OffsetOfAxes(c: Controller)
    requires c.start.Some? && c.current.Some?
    ensures Offset(c) == Success((if c.horizontal then HorizontalOffset(c).value else 0,
                                  if c.vertical then VerticalOffset(c).value else 0))
  {
  }

  /** The per-axis directions do not read the swap allowances. */
  lemma AxisDirectionsIgnoreAllowances(c: Controller, h: bool, v: bool)
    ensures HorizontalMoveDirection(SetSwapAllowance(c, h, v)) == HorizontalMoveDirection(c)
    ensures VerticalMoveDirection(SetSwapAllowance(c, h, v)) == VerticalMoveDirection(c)
  {
  }

  /** With one axis allowed, `getMoveDirection` is that axis's direction; with none it is
      `NO_SWAP` once both points are set. */
  lemma SingleAxisDirection(c: Controller)
    ensures c.horizontal && !c.vertical ==> MoveDirection(c) == HorizontalMoveDirection(c)
    ensures !c.horizontal && c.vertical ==> MoveDirection(c) == VerticalMoveDirection(c)
    ensures !c.horizontal && !c.vertical && c.start.Some? && c.current.Some? ==> MoveDirection(c) == Success(NoSwap)
  {
  }

  /** Apart from the `Integer.MIN_VALUE` delta, the direction is `NO_SWAP` exactly when the
      offset is zero. */
  lemma NoSwapIffNoOffset(c: Controller)
    requires c.start.Some? && c.current.Some?
    requires DeltaX(c).value != MinInt && DeltaY(c).value != MinInt
    ensures MoveDirection(c).value == NoSwap <==> Offset(c).value == (0, 0)
  {
  }

  /** With both axes allowed the direction is the sign of the offset component with the
      larger magnitude, the vertical one on a tie. */
  lemma DominantAxis(c: Controller)
    requires c.start.Some? && c.current.Some? && c.horizontal && c.vertical
    requires DeltaX(c).value != MinInt && DeltaY(c).value != MinInt
    ensures var (ox, oy) := Offset(c).value;
            MoveDirection(c).value == if (if ox < 0 then -ox else ox) > (if oy < 0 then -oy else oy) then HorizontalOf(ox) else VerticalOf(oy)
  {
  }

  /** `Math.abs(Integer.MIN_VALUE)` is negative: a vertical delta of `Integer.MIN_VALUE`
      loses to a zero horizontal delta, and the answer is `NO_SWAP` although the offset is
      not zero. */
  lemma MinValueDelta()
    ensures var c := Controller(Some(Point(0, 0)), Some(Point(0, MinInt)), true, true);
            MoveDirection(c) == Success(NoSwap) && Offset(c) == Success((0, MinInt))
  {
  }

  /** A horizontal fling by a positive offset that does not overflow ends on the side its
      direction names, and a fling to the start ends at rest. */
  lemma HorizontalFlingLands(c: Controller, offset: Int32, dir: Direction)
    requires c.horizontal && c.start.Some? && c.current.Some? && !dir.IsVertical()
    requires offset > 0 && MinInt <= c.start.value.x - offset && c.start.value.x + offset <= MaxInt
    ensures var after := FinishHorizontalFling(c, offset, dir).value.controller;
            HorizontalMoveDirection(after) == Success(if dir.IsHorizontal() then dir else NoSwap) &&
            (!dir.IsHorizontal() ==> MoveDirection(after) == Success(NoSwap))
  {
  }

  lemma VerticalFlingLands(c: Controller, offset: Int32, dir: Direction)
    requires c.vertical && c.start.Some? && c.current.Some? && !dir.IsHorizontal()
    requires offset > 0 && MinInt <= c.start.value.y - offset && c.start.value.y + offset <= MaxInt
    ensures var after := FinishVerticalFling(c, offset, dir).value.controller;
            VerticalMoveDirection(after) == Success(if dir.IsVertical() then dir else NoSwap) &&
            (!dir.IsVertical() ==> MoveDirection(after) == Success(NoSwap))
  {
  }

  /** After `finishFling(x, y)` the offset is the distance from the start to `(x, y)`. */
  lemma FlingOffset(c: Controller, x: Int32, y: Int32)
    requires c.start.Some? && c.current.Some? && c.horizontal && c.vertical
    requires MinInt <= x - c.start.value.x <= MaxInt && MinInt <= y - c.start.value.y <= MaxInt
    ensures Offset(FinishFling(c, x, y).value.controller) == Success((x - c.start.value.x, y - c.start.value.y))
  {
  }
}
