/** The game panel: the Snake state held the way the game holds it, in two
    fixed-size coordinate arrays and scalar fields that each step updates in place.
    Every method is proved against the matching rule of module GameState, read
    through Model(). */
module Panel {
  import opened GameState

  class GamePanel {
    const x: array<int>
    const y: array<int>
    var bodyParts: int
    var applesEaten: int
    var appleX: int
    var appleY: int
    var direction: Direction
    var running: bool

    /** The arrays have the board's capacity and are distinct. */
    ghost predicate Valid()
      reads this
    {
      x.Length == GameUnits && y.Length == GameUnits && x != y && 0 <= bodyParts
    }

    /** The panel's fields as a GameState value. */
    ghost function Model(): State
      reads this, x, y
    {
      State(x[..], y[..], bodyParts, applesEaten, appleX, appleY, direction, running)
    }

    /** Builds the panel and starts the game; the apple goes to the given cell. */
    constructor (cellX: int, cellY: int)
      requires CellInRange(cellX, cellY)
      ensures Valid() && fresh(x) && fresh(y)
      ensures Model() == Start(cellX, cellY)
    {
      x := new int[GameUnits](_ => 0);
      y := new int[GameUnits](_ => 0);
      bodyParts := InitialBodyParts;
      applesEaten := 0;
      appleX, appleY := 0, 0;
      direction := Right;
      running := false;
      new;
      NewApple(cellX, cellY);
      running := true;
    }

    method NewApple(cellX: int, cellY: int)
      requires CellInRange(cellX, cellY)
      modifies this`appleX, this`appleY
      ensures appleX == CellToPixel(cellX) && appleY == CellToPixel(cellY)
      ensures Model() == PlaceApple(old(Model()), cellX, cellY)
    {
      appleX := cellX * UnitSize;
      appleY := cellY * UnitSize;
    }

    /** Shifts slots bodyParts down to 1 onto their predecessors, then steps the head. */
    method Move()
      requires Valid() && bodyParts < GameUnits
      modifies x, y
      ensures forall j :: 1 <= j <= bodyParts ==> x[j] == old(x[j - 1]) && y[j] == old(y[j - 1])
      ensures forall j :: bodyParts < j < GameUnits ==> x[j] == old(x[j]) && y[j] == old(y[j])
      ensures x[0] == old(x[0]) + Delta(direction).0 && y[0] == old(y[0]) + Delta(direction).1
      ensures Model() == GameState.Move(old(Model()))
    {
      var i := bodyParts;
      while i > 0
        invariant 0 <= i <= bodyParts
        invariant forall j :: i < j <= bodyParts ==> x[j] == old(x[j - 1]) && y[j] == old(y[j - 1])
        invariant forall j :: 0 <= j <= i ==> x[j] == old(x[j]) && y[j] == old(y[j])
        invariant forall j :: bodyParts < j < GameUnits ==> x[j] == old(x[j]) && y[j] == old(y[j])
      {
        x[i] := x[i - 1];
        y[i] := y[i - 1];
        i := i - 1;
      }
      match direction {
        case Up => y[0] := y[0] - UnitSize;
        case Down => y[0] := y[0] + UnitSize;
        case Left => x[0] := x[0] - UnitSize;
        case Right => x[0] := x[0] + UnitSize;
      }
      MovedModel();
    }

    /** The slot-by-slot outcome of Move is GameState.Move of the state before it. */
    twostate lemma MovedModel()
      requires Valid() && bodyParts < GameUnits && unchanged(this)
      requires forall j :: 1 <= j <= bodyParts ==> x[j] == old(x[j - 1]) && y[j] == old(y[j - 1])
      requires forall j :: bodyParts < j < GameUnits ==> x[j] == old(x[j]) && y[j] == old(y[j])
      requires x[0] == old(x[0]) + Delta(direction).0 && y[0] == old(y[0]) + Delta(direction).1
      ensures Model() == GameState.Move(old(Model()))
    {
      ShiftedSlotwise(old(x[..]), x[..], bodyParts, Delta(direction).0);
      ShiftedSlotwise(old(y[..]), y[..], bodyParts, Delta(direction).1);
    }

    method CheckApple(cellX: int, cellY: int)
      requires Valid() && CellInRange(cellX, cellY)
      modifies this`bodyParts, this`applesEaten, this`appleX, this`appleY
      ensures Valid()
      ensures Model() == GameState.CheckApple(old(Model()), cellX, cellY)
    {
      if x[0] == appleX && y[0] == appleY {
        bodyParts := bodyParts + 1;
        applesEaten := applesEaten + 1;
        NewApple(cellX, cellY);
      }
    }

    /** Clears running when the head meets slot bodyParts..1 or leaves the board. */
    method CheckCollisions()
      requires Valid() && bodyParts < GameUnits
      modifies this`running
      ensures Model() == GameState.CheckCollisions(old(Model()))
    {
      var i := bodyParts;
      while i > 0
        invariant 0 <= i <= bodyParts
        invariant running == (old(running) &&
          forall j :: i < j <= bodyParts ==> !(x[j] == x[0] && y[j] == y[0]))
      {
        if x[0] == x[i] && y[0] == y[i] {
          running := false;
        }
        i := i - 1;
      }
      if x[0] < 0 || x[0] >= ScreenWidth || y[0] < 0 || y[0] >= ScreenHeight {
        running := false;
      }
    }

    /** One timer tick: move, eat, collide, all only while running. */
    method ActionPerformed(cellX: int, cellY: int)
      requires Valid() && CellInRange(cellX, cellY) && TickSafe(Model())
      modifies this, x, y
      ensures Valid()
      ensures Tick(old(Model()), cellX, cellY) == Some(Model())
    {
      if running {
        Move();
        CheckApple(cellX, cellY);
        CheckCollisions();
      }
    }

    /** The arrow-key handler; it does not look at running. */
    method KeyPressed(k: Key)
      modifies this`direction
      ensures direction == NextDirection(old(direction), k)
      ensures Model() == GameState.KeyPressed(old(Model()), k)
    {
      match k
      case Arrow(Left) =>
        if direction != Right {
          direction := Left;
        }
      case Arrow(Right) =>
        if direction != Left {
          direction := Right;
        }
      case Arrow(Up) =>
        if direction != Down {
          direction := Up;
        }
      case Arrow(Down) =>
        if direction != Up {
          direction := Down;
        }
      case OtherKey =>
    }
  }

  /** A game that turns up from the start leaves the board on the first tick, and
      key presses still turn the snake afterwards. */
  method TurnUpFromStart(cellX: int, cellY: int)
    requires CellInRange(cellX, cellY)
  {
    var p := new GamePanel(cellX, cellY);
    p.KeyPressed(Arrow(Left));
    assert p.direction == Right;
    p.KeyPressed(Arrow(Up));
    assert p.direction == Up;
    p.ActionPerformed(cellX, cellY);
    assert p.y[0] == -UnitSize && !p.running;
    p.KeyPressed(Arrow(Left));
    assert p.direction == Left;
  }
}
