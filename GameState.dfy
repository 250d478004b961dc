/** The Snake game state as a value, and the rules that update it.
    Coordinates are pixels; the board is ScreenWidth x ScreenHeight pixels cut into
    UnitSize x UnitSize cells. The snake is held in two parallel coordinate sequences
    of fixed length GameUnits, head first; the first bodyParts slots are the visible
    body, and slot bodyParts is the extra slot that a move fills with the cell the
    tail has just left. */
module GameState {

  const ScreenWidth: int := 1300
  const ScreenHeight: int := 750
  const UnitSize: int := 50
  /** Capacity of the coordinate arrays: the number of cells on the board (390). */
  const GameUnits: int := (ScreenWidth * ScreenHeight) / (UnitSize * UnitSize)
  const InitialBodyParts: int := 6
  /** The bounds of the random draws for the apple cell. */
  const BoardColumns: int := ScreenWidth / UnitSize
  const BoardRows: int := ScreenHeight / UnitSize

  const Int32Min: int := -0x8000_0000
  const Int32Max: int := 0x7fff_ffff

  datatype Option<T> = None | Some(value: T)

  datatype Direction = Up | Down | Left | Right

  /** A key press: one of the four arrow keys, or any other key. */
  datatype Key = Arrow(dir: Direction) | OtherKey

  datatype State = State(
    xs: seq<int>,
    ys: seq<int>,
    bodyParts: int,
    applesEaten: int,
    appleX: int,
    appleY: int,
    direction: Direction,
    running: bool)

  /** One event delivered by the event thread: a timer tick (carrying the apple cell
      that the random generator would draw if the apple is eaten) or a key press. */
  datatype Event = TimerFired(cellX: int, cellY: int) | KeyEvent(key: Key)

  // ---------------------------------------------------------------------------
  // Directions and the key rule

  function Opposite(d: Direction): Direction
  {
    match d
    case Up => Down
    case Down => Up
    case Left => Right
    case Right => Left
  }

  /** The pixel offset of one step of the head in direction d. */
  function Delta(d: Direction): (step: (int, int))
    ensures (step.0 == 0) != (step.1 == 0)
    ensures step.0 + step.1 == UnitSize || step.0 + step.1 == -UnitSize
    ensures step.0 != 0 <==> d == Left || d == Right
  {
    match d
    case Up => (0, -UnitSize)
    case Down => (0, UnitSize)
    case Left => (-UnitSize, 0)
    case Right => (UnitSize, 0)
  }

  /** The direction after a key press: an arrow key is ignored when it points
      straight back against the current direction, and taken otherwise; any
      other key leaves the direction alone. */
  function NextDirection(current: Direction, k: Key): (d: Direction)
    ensures d != Opposite(current)
    ensures k.OtherKey? ==> d == current
    ensures k.Arrow? ==> (d == current <==> k.dir == current || k.dir == Opposite(current))
    ensures k.Arrow? && d != current ==> d == k.dir
  {
    match k
    case Arrow(Left) => if current != Right then Left else current
    case Arrow(Right) => if current != Left then Right else current
    case Arrow(Up) => if current != Down then Up else current
    case Arrow(Down) => if current != Up then Down else current
    case OtherKey => current
  }

  // ---------------------------------------------------------------------------
  // Apple placement

  predicate CellInRange(cellX: int, cellY: int)
  {
    0 <= cellX < BoardColumns && 0 <= cellY < BoardRows
  }

  /** A pixel coordinate that is the corner of a cell inside [0, extent). */
  predicate OnGrid(p: int, extent: int)
  {
    0 <= p < extent && p % UnitSize == 0
  }

  function CellToPixel(cell: int): (p: int)
    requires 0 <= cell
    ensures p % UnitSize == 0 && p / UnitSize == cell
  {
    cell * UnitSize
  }

  /** The apple goes to the corner of the drawn cell; nothing else changes, and in
      particular the snake is not consulted. */
  function PlaceApple(s: State, cellX: int, cellY: int): (r: State)
    requires CellInRange(cellX, cellY)
    ensures OnGrid(r.appleX, ScreenWidth) && OnGrid(r.appleY, ScreenHeight)
    ensures r.appleX / UnitSize == cellX && r.appleY / UnitSize == cellY
    ensures r.(appleX := s.appleX, appleY := s.appleY) == s
  {
    s.(appleX := CellToPixel(cellX), appleY := CellToPixel(cellY))
  }

  /** Every cell corner on the board is a possible apple position, and only those. */
  lemma ApplePositionsAreTheGrid(px: int, py: int)
    ensures OnGrid(px, ScreenWidth) && OnGrid(py, ScreenHeight)
        <==> exists cx, cy :: CellInRange(cx, cy) && CellToPixel(cx) == px && CellToPixel(cy) == py
  {
    if OnGrid(px, ScreenWidth) && OnGrid(py, ScreenHeight) {
      var cx, cy := px / UnitSize, py / UnitSize;
      assert CellToPixel(cx) == px && CellToPixel(cy) == py;
      assert CellInRange(cx, cy);
    }
    if exists cx, cy :: CellInRange(cx, cy) && CellToPixel(cx) == px && CellToPixel(cy) == py {
      var cx, cy :| CellInRange(cx, cy) && CellToPixel(cx) == px && CellToPixel(cy) == py;
      assert px < ScreenWidth && py < ScreenHeight;
    }
  }

  // ---------------------------------------------------------------------------
  // The state and its initial value

  /** The coordinate arrays have their fixed capacity. */
  predicate Shaped(s: State)
  {
    |s.xs| == GameUnits && |s.ys| == GameUnits && 0 <= s.bodyParts
  }

  /** The game as it stands when the panel has been built: every slot at the origin,
      six body parts, heading right, one apple placed, running. */
  function Start(cellX: int, cellY: int): (s: State)
    requires CellInRange(cellX, cellY)
    ensures Reachable(s)
  {
    var zeros := seq(GameUnits, _ => 0);
    PlaceApple(State(zeros, zeros, InitialBodyParts, 0, 0, 0, Right, false), cellX, cellY)
      .(running := true)
  }

  // ---------------------------------------------------------------------------
  // One tick: move, then checkApple, then checkCollisions

  /** One coordinate column after a move of a snake of n parts: slots 1..n take the
      value of their predecessor, slot 0 moves by delta, the rest stay. */
  function Shifted(s: seq<int>, n: int, delta: int): (r: seq<int>)
    requires 0 <= n < |s|
    ensures |r| == |s|
    ensures r[0] == s[0] + delta
    ensures forall i :: 1 <= i <= n ==> r[i] == s[i - 1]
    ensures forall i :: n < i < |s| ==> r[i] == s[i]
  {
    [s[0] + delta] + s[..n] + s[n + 1..]
  }

  /** A column that agrees with Shifted slot by slot is Shifted. */
  lemma ShiftedSlotwise(before: seq<int>, after: seq<int>, n: int, delta: int)
    requires 0 <= n < |before| == |after|
    requires after[0] == before[0] + delta
    requires forall j :: 1 <= j <= n ==> after[j] == before[j - 1]
    requires forall j :: n < j < |after| ==> after[j] == before[j]
    ensures after == Shifted(before, n, delta)
  {
    var r := Shifted(before, n, delta);
    forall j | 0 <= j < |after|
      ensures after[j] == r[j]
    {
      if 1 <= j <= n {
        assert r[j] == before[j - 1];
      }
    }
  }

  function Move(s: State): (r: State)
    requires Shaped(s) && s.bodyParts < GameUnits
    ensures Shaped(r)
    ensures r == s.(xs := r.xs, ys := r.ys)
  {
    var (dx, dy) := Delta(s.direction);
    s.(xs := Shifted(s.xs, s.bodyParts, dx), ys := Shifted(s.ys, s.bodyParts, dy))
  }

  predicate HeadOnApple(s: State)
    requires Shaped(s)
  {
    s.xs[0] == s.appleX && s.ys[0] == s.appleY
  }

  function CheckApple(s: State, cellX: int, cellY: int): (r: State)
    requires Shaped(s) && CellInRange(cellX, cellY)
    ensures Shaped(r)
    ensures HeadOnApple(s) ==>
      r.bodyParts == s.bodyParts + 1 && r.applesEaten == s.applesEaten + 1 &&
      r.appleX / UnitSize == cellX && r.appleY / UnitSize == cellY
    ensures !HeadOnApple(s) ==> r == s
    ensures r == s.(bodyParts := r.bodyParts, applesEaten := r.applesEaten,
                    appleX := r.appleX, appleY := r.appleY)
  {
    if HeadOnApple(s) then
      PlaceApple(s.(bodyParts := s.bodyParts + 1, applesEaten := s.applesEaten + 1), cellX, cellY)
    else
      s
  }

  /** The head shares its cell with one of the slots 1..bodyParts; slot bodyParts
      is the one past the visible body. */
  predicate SelfHit(s: State)
    requires Shaped(s) && s.bodyParts < GameUnits
  {
    exists i :: 1 <= i <= s.bodyParts && s.xs[i] == s.xs[0] && s.ys[i] == s.ys[0]
  }

  predicate OffBoard(px: int, py: int)
  {
    px < 0 || px >= ScreenWidth || py < 0 || py >= ScreenHeight
  }

  function CheckCollisions(s: State): (r: State)
    requires Shaped(s) && s.bodyParts < GameUnits
    ensures r == s.(running := r.running)
    ensures r.running ==> s.running
  {
    s.(running := s.running && !SelfHit(s) && !OffBoard(s.xs[0], s.ys[0]))
  }

  /** The tick can run without indexing past the arrays: move writes slot bodyParts,
      and checkCollisions, after checkApple may have grown the snake, reads slot
      bodyParts again. */
  predicate TickSafe(s: State)
    requires Shaped(s)
  {
    !s.running ||
    (s.bodyParts < GameUnits && (HeadOnApple(Move(s)) ==> s.bodyParts + 1 < GameUnits))
  }

  /** One timer tick. None stands for the array index fault the code would raise. */
  function Tick(s: State, cellX: int, cellY: int): (r: Option<State>)
    requires Shaped(s) && CellInRange(cellX, cellY)
    ensures r.Some? <==> TickSafe(s)
    ensures !s.running ==> r == Some(s)
    ensures r.Some? ==> Shaped(r.value)
    ensures r.Some? && s.running ==> r.value.bodyParts < GameUnits
  {
    if !s.running then Some(s)
    else if s.bodyParts >= GameUnits then None
    else
      var a := CheckApple(Move(s), cellX, cellY);
      if a.bodyParts >= GameUnits then None
      else Some(CheckCollisions(a))
  }

  /** A key press turns the snake by the key rule, and touches nothing else,
      whether or not the game is running. */
  function KeyPressed(s: State, k: Key): (r: State)
    ensures r == s.(direction := r.direction)
    ensures r.direction == NextDirection(s.direction, k)
  {
    s.(direction := NextDirection(s.direction, k))
  }

  // ---------------------------------------------------------------------------
  // Sequences of events

  predicate EventsInRange(evs: seq<Event>)
  {
    forall i :: 0 <= i < |evs| && evs[i].TimerFired? ==> CellInRange(evs[i].cellX, evs[i].cellY)
  }

  function Apply(s: State, e: Event): (r: Option<State>)
    requires Shaped(s) && (e.TimerFired? ==> CellInRange(e.cellX, e.cellY))
    ensures r.Some? ==> Shaped(r.value)
  {
    match e
    case TimerFired(cellX, cellY) => Tick(s, cellX, cellY)
    case KeyEvent(k) => Some(KeyPressed(s, k))
  }

  /** The events applied in order; None once one of them faults. */
  function Run(s: State, evs: seq<Event>): (r: Option<State>)
    requires Shaped(s) && EventsInRange(evs)
    ensures r.Some? ==> Shaped(r.value)
    decreases |evs|
  {
    if evs == [] then Some(s)
    else
      match Apply(s, evs[0])
      case None => None
      case Some(t) => Run(t, evs[1..])
  }

  // ---------------------------------------------------------------------------
  // Invariants of every state a game can reach

  /** The snake's length is the initial length plus the score. */
  predicate ScoreInStep(s: State)
  {
    0 <= s.applesEaten && s.bodyParts == InitialBodyParts + s.applesEaten
  }

  predicate AppleOnBoard(s: State)
  {
    OnGrid(s.appleX, ScreenWidth) && OnGrid(s.appleY, ScreenHeight)
  }

  predicate HeadOnBoardWhileRunning(s: State)
    requires Shaped(s)
  {
    s.running ==> !OffBoard(s.xs[0], s.ys[0])
  }

  /** Every slot lies within one cell of the board. */
  predicate SlotsBounded(s: State)
    requires Shaped(s)
  {
    forall i :: 0 <= i < GameUnits ==>
      -UnitSize <= s.xs[i] <= ScreenWidth + UnitSize && -UnitSize <= s.ys[i] <= ScreenHeight + UnitSize
  }

  /** The slots beyond the extra slot have never been written. */
  predicate UnusedSlotsZero(s: State)
    requires Shaped(s)
  {
    forall i :: s.bodyParts < i < GameUnits ==> s.xs[i] == 0 && s.ys[i] == 0
  }

  predicate Adjacent(x1: int, y1: int, x2: int, y2: int)
  {
    (x1 == x2 && (y1 - y2 == UnitSize || y2 - y1 == UnitSize)) ||
    (y1 == y2 && (x1 - x2 == UnitSize || x2 - x1 == UnitSize))
  }

  /** Each visible segment shares its cell with the next or sits next to it. */
  predicate Connected(s: State)
    requires Shaped(s) && s.bodyParts <= GameUnits
  {
    forall i :: 0 <= i < s.bodyParts - 1 ==>
      (s.xs[i] == s.xs[i + 1] && s.ys[i] == s.ys[i + 1]) || Adjacent(s.xs[i], s.ys[i], s.xs[i + 1], s.ys[i + 1])
  }

  predicate Reachable(s: State)
  {
    Shaped(s) && s.bodyParts < GameUnits && ScoreInStep(s) && AppleOnBoard(s) &&
    HeadOnBoardWhileRunning(s) && SlotsBounded(s) && UnusedSlotsZero(s) && Connected(s)
  }

  /** Reachable states hold only values that fit a 32-bit int, so unbounded integers
      describe the arithmetic of the code exactly. */
  lemma ReachableFitsInt32(s: State, i: int)
    requires Reachable(s) && 0 <= i < GameUnits
    ensures Int32Min <= s.xs[i] <= Int32Max && Int32Min <= s.ys[i] <= Int32Max
    ensures Int32Min <= s.xs[0] + Delta(s.direction).0 <= Int32Max
    ensures Int32Min <= s.ys[0] + Delta(s.direction).1 <= Int32Max
    ensures 0 <= s.applesEaten < s.bodyParts < GameUnits
  {
  }

  // ---------------------------------------------------------------------------
  // What one tick does

  /** A tick that eats counts the apple and grows the snake, whether or not it is
      also the fatal tick; the apple moves to the drawn cell. */
  lemma TickEats(s: State, cellX: int, cellY: int)
    requires Shaped(s) && CellInRange(cellX, cellY) && TickSafe(s)
    requires s.running && HeadOnApple(Move(s))
    ensures var t := Tick(s, cellX, cellY).value;
      t.applesEaten == s.applesEaten + 1 && t.bodyParts == s.bodyParts + 1 &&
      t.appleX == CellToPixel(cellX) && t.appleY == CellToPixel(cellY)
  {
  }

  /** A tick that does not eat keeps the length, the score and the apple. */
  lemma TickWithoutEating(s: State, cellX: int, cellY: int)
    requires Shaped(s) && CellInRange(cellX, cellY) && TickSafe(s)
    requires !(s.running && HeadOnApple(Move(s)))
    ensures var t := Tick(s, cellX, cellY).value;
      t.applesEaten == s.applesEaten && t.bodyParts == s.bodyParts &&
      t.appleX == s.appleX && t.appleY == s.appleY
  {
  }

  /** The game ends on a tick exactly when the moved head meets one of the slots
      1..bodyParts (after eating) or leaves the board; it never restarts. */
  lemma TickEndsGame(s: State, cellX: int, cellY: int)
    requires Shaped(s) && CellInRange(cellX, cellY) && TickSafe(s) && s.running
    ensures var a := CheckApple(Move(s), cellX, cellY);
      !Tick(s, cellX, cellY).value.running <==>
        SelfHit(a) || OffBoard(s.xs[0] + Delta(s.direction).0, s.ys[0] + Delta(s.direction).1)
  {
  }

  /** Moving the head into the cell the tail has just left ends the game: that cell
      is kept in the extra slot, and the collision check looks at it. */
  lemma VacatedTailCellIsFatal(s: State, cellX: int, cellY: int)
    requires Shaped(s) && CellInRange(cellX, cellY) && TickSafe(s) && s.running
    requires 1 <= s.bodyParts
    requires var (dx, dy) := Delta(s.direction);
      s.xs[0] + dx == s.xs[s.bodyParts - 1] && s.ys[0] + dy == s.ys[s.bodyParts - 1]
    ensures !Tick(s, cellX, cellY).value.running
  {
    var a := CheckApple(Move(s), cellX, cellY);
    assert a.xs[s.bodyParts] == a.xs[0] && a.ys[s.bodyParts] == a.ys[0];
  }

  /** Eating an apple that lies at the origin ends the game: the snake grows onto
      a slot that has never been written and so still holds the origin. */
  lemma EatingAtOriginIsFatal(s: State, cellX: int, cellY: int)
    requires Reachable(s) && CellInRange(cellX, cellY) && TickSafe(s) && s.running
    requires s.appleX == 0 && s.appleY == 0 && HeadOnApple(Move(s))
    ensures var t := Tick(s, cellX, cellY).value;
      !t.running && t.applesEaten == s.applesEaten + 1
  {
    var a := CheckApple(Move(s), cellX, cellY);
    var n := s.bodyParts + 1;
    assert a.xs[n] == s.xs[n] == 0 && a.ys[n] == s.ys[n] == 0;
  }

  /** From the origin heading left, the first tick leaves the board. */
  lemma LeftFromOriginIsFatal(s: State, cellX: int, cellY: int)
    requires Shaped(s) && CellInRange(cellX, cellY) && TickSafe(s) && s.running
    requires s.xs[0] == 0 && s.direction == Left
    ensures var t := Tick(s, cellX, cellY).value;
      !t.running && t.xs[0] == -UnitSize
  {
  }

  // ---------------------------------------------------------------------------
  // The invariants are kept by every event

  lemma MoveKeepsConnected(s: State)
    requires Reachable(s) && s.running
    ensures var m := Move(s);
      forall i :: 0 <= i < s.bodyParts ==>
        (m.xs[i] == m.xs[i + 1] && m.ys[i] == m.ys[i + 1]) || Adjacent(m.xs[i], m.ys[i], m.xs[i + 1], m.ys[i + 1])
  {
    var m := Move(s);
    var (dx, dy) := Delta(s.direction);
    forall i | 0 <= i < s.bodyParts
      ensures (m.xs[i] == m.xs[i + 1] && m.ys[i] == m.ys[i + 1]) || Adjacent(m.xs[i], m.ys[i], m.xs[i + 1], m.ys[i + 1])
    {
      if i == 0 {
        assert m.xs[0] == s.xs[0] + dx && m.xs[1] == s.xs[0];
        assert m.ys[0] == s.ys[0] + dy && m.ys[1] == s.ys[0];
      } else {
        assert m.xs[i] == s.xs[i - 1] && m.xs[i + 1] == s.xs[i];
        assert m.ys[i] == s.ys[i - 1] && m.ys[i + 1] == s.ys[i];
      }
    }
  }

  lemma TickKeepsReachable(s: State, cellX: int, cellY: int)
    requires Reachable(s) && CellInRange(cellX, cellY) && TickSafe(s)
    ensures var t := Tick(s, cellX, cellY).value;
      Reachable(t) && s.bodyParts <= t.bodyParts && s.applesEaten <= t.applesEaten
  {
    if s.running {
      MoveKeepsConnected(s);
    }
  }

  /** Length and score move together and never shrink, and a finished game stays
      finished, along any sequence of events that does not fault. */
  lemma {:induction false} RunKeepsReachable(s: State, evs: seq<Event>)
    requires Reachable(s) && EventsInRange(evs) && Run(s, evs).Some?
    ensures var t := Run(s, evs).value;
      Reachable(t) && s.bodyParts <= t.bodyParts && s.applesEaten <= t.applesEaten &&
      (!s.running ==> !t.running)
    decreases |evs|
  {
    if evs != [] {
      var t := Apply(s, evs[0]).value;
      if evs[0].TimerFired? {
        TickKeepsReachable(s, evs[0].cellX, evs[0].cellY);
      }
      assert EventsInRange(evs[1..]) by {
        forall i | 0 <= i < |evs[1..]| && evs[1..][i].TimerFired?
          ensures CellInRange(evs[1..][i].cellX, evs[1..][i].cellY)
        {
          assert evs[1..][i] == evs[i + 1];
        }
      }
      RunKeepsReachable(t, evs[1..]);
    }
  }

  /** Once the game is over no event faults and no event changes the snake, the
      score or the apple; key presses still turn the direction. */
  lemma {:induction false} GameOverIsPermanent(s: State, evs: seq<Event>)
    requires Shaped(s) && !s.running && EventsInRange(evs)
    ensures Run(s, evs).Some?
    ensures Run(s, evs).value == s.(direction := Run(s, evs).value.direction)
    decreases |evs|
  {
    if evs != [] {
      assert EventsInRange(evs[1..]) by {
        forall i | 0 <= i < |evs[1..]| && evs[1..][i].TimerFired?
          ensures CellInRange(evs[1..][i].cellX, evs[1..][i].cellY)
        {
          assert evs[1..][i] == evs[i + 1];
        }
      }
      GameOverIsPermanent(Apply(s, evs[0]).value, evs[1..]);
    }
  }

  // ---------------------------------------------------------------------------
  // The key rule, over several presses

  /** A press never reverses the direction, but two presses between ticks can: a
      quarter turn followed by the reverse of the original direction. */
  lemma TwoPressesCanReverse(d: Direction)
    ensures var turn := if d == Up || d == Down then Left else Up;
      NextDirection(NextDirection(d, Arrow(turn)), Arrow(Opposite(d))) == Opposite(d)
  {
  }

  /** Stepping in a direction and then in its opposite returns the head to its cell. */
  lemma OppositeStepsBack(d: Direction)
    ensures Delta(Opposite(d)).0 == -Delta(d).0 && Delta(Opposite(d)).1 == -Delta(d).1
  {
  }

  /** Why a reversal is refused: if the head last stepped in direction d and the
      snake were turned to the opposite direction, the next tick would put the head
      back on the cell of the segment behind it and end the game. */
  lemma ReversalIsFatal(s: State, d: Direction, cellX: int, cellY: int)
    requires Shaped(s) && CellInRange(cellX, cellY) && TickSafe(s) && s.running
    requires 2 <= s.bodyParts
    requires s.xs[0] == s.xs[1] + Delta(d).0 && s.ys[0] == s.ys[1] + Delta(d).1
    requires s.direction == Opposite(d)
    ensures !Tick(s, cellX, cellY).value.running
  {
    OppositeStepsBack(d);
    var a := CheckApple(Move(s), cellX, cellY);
    assert a.xs[2] == s.xs[1] == a.xs[0] && a.ys[2] == s.ys[1] == a.ys[0];
  }
}
