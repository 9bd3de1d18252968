/**
 * The game's control flow: the started/paused flags, how a mouse click is
 * routed to the field or to the control panel, and the main loop that runs
 * one generation per frame while the simulation is running and handles the
 * frame's events. Events reach the model as values: a quit request, a key
 * press, or a mouse button press together with the pointer position.
 */
module GameLoop {
  import opened Cells
  import opened Geometry
  import opened Engine
  import opened GameField

  const DEFAULT_TILE_SIZE: int := 20
  const DEFAULT_BASE_SIMULATION_DELAY: int := 1000

  datatype Key = Escape | OtherKey
  datatype Button = Left | Right | OtherButton
  datatype Event =
    | QuitEvent
    | KeyDown(key: Key)
    | MouseDown(button: Button, at: Point)
    | OtherEvent

  datatype Flags = Flags(started: bool, paused: bool)

  /** What an event asks of the field: nothing, or setting the slot under a
      point to a state code. */
  datatype Command = NoCommand | Paint(at: Point, code: int)

  /** The field rectangle of a game with the given field size. */
  function FieldRect(fieldWidth: int, fieldHeight: int): Rect
  {
    Rect(CTRL_PANEL_WIDTH + OFFSET_X, OFFSET_Y, fieldWidth, fieldHeight)
  }

  predicate IsPointInField(field: Rect, p: Point)
  {
    Contains(field, p)
  }

  /** Everything outside the field counts as the control panel. */
  predicate IsPointInControlPanel(field: Rect, p: Point)
  {
    !IsPointInField(field, p)
  }

  /** The quit requests: the window's close event and the Escape key. */
  predicate IsQuitRequest(e: Event)
  {
    e == QuitEvent || e == KeyDown(Escape)
  }

  /** The flags after an event. While paused, a left click on the control
      panel starts (or resumes) the simulation; while running, a right click
      on the control panel pauses it; nothing else touches the flags. */
  function NextFlags(f: Flags, e: Event, field: Rect): (r: Flags)
    ensures r != f ==> e.MouseDown? && IsPointInControlPanel(field, e.at)
    ensures r != f && f.paused ==> r == Flags(true, false) && e.button == Left
    ensures r != f && !f.paused ==> r == Flags(f.started, true) && e.button == Right
    ensures f.paused && e.MouseDown? && e.button == Left && IsPointInControlPanel(field, e.at)
      ==> r == Flags(true, false)
    ensures !f.paused && e.MouseDown? && e.button == Right && IsPointInControlPanel(field, e.at)
      ==> r == Flags(f.started, true)
  {
    match e
    case MouseDown(b, p) =>
      if f.paused then
        (if !IsPointInField(field, p) && IsPointInControlPanel(field, p) && b == Left
         then Flags(true, false) else f)
      else
        (if IsPointInControlPanel(field, p) && b == Right then Flags(f.started, true) else f)
    case _ => f
  }

  /** The field edit an event asks for: while paused, a left click on the
      field makes the cell under it Alive and a right click makes it Empty. */
  function CommandOf(f: Flags, e: Event, field: Rect): (c: Command)
    ensures c.Paint? ==> f.paused && e.MouseDown? && c.at == e.at && IsPointInField(field, e.at)
    ensures c.Paint? ==> (c.code == ALIVE_CELL <==> e.button == Left)
    ensures c.Paint? ==> (c.code == EMPTY_CELL <==> e.button == Right)
    ensures c.Paint? ==> e.button == Left || e.button == Right
    ensures f.paused && e.MouseDown? && IsPointInField(field, e.at) && (e.button == Left || e.button == Right)
      ==> c == Paint(e.at, if e.button == Left then ALIVE_CELL else EMPTY_CELL)
  {
    match e
    case MouseDown(b, p) =>
      if f.paused && IsPointInField(field, p) then
        (if b == Left then Paint(p, ALIVE_CELL)
         else if b == Right then Paint(p, EMPTY_CELL)
         else NoCommand)
      else NoCommand
    case _ => NoCommand
  }

  /** The simulation never runs before it has been started. */
  predicate FlagsOk(f: Flags)
  {
    !f.started ==> f.paused
  }

  lemma NextFlagsKeepsOk(f: Flags, e: Event, field: Rect)
    requires FlagsOk(f)
    ensures FlagsOk(NextFlags(f, e, field))
  {
  }

  /** Once started, the game stays started, and a running simulation can
      only become paused. */
  lemma StartIsFinal(f: Flags, e: Event, field: Rect)
    ensures f.started ==> NextFlags(f, e, field).started
    ensures !f.paused ==> NextFlags(f, e, field).started == f.started
  {
  }

  /** The field is only edited while the simulation is paused, and a running
      simulation reacts to nothing but pausing and quitting. */
  lemma EditsOnlyWhilePaused(f: Flags, e: Event, field: Rect)
    ensures !f.paused ==> CommandOf(f, e, field) == NoCommand
    ensures CommandOf(f, e, field).Paint? ==> NextFlags(f, e, field) == f
  {
  }

  /** A quit request neither edits the field nor changes the flags. */
  lemma QuitIsInert(f: Flags, e: Event, field: Rect)
    requires IsQuitRequest(e)
    ensures CommandOf(f, e, field) == NoCommand && NextFlags(f, e, field) == f
  {
  }

  /** The slots after a command: a paint sets the slot whose tile lies under
      the point, and a point outside every tile changes nothing. */
  function Apply(s: seq<CellState>, c: Command, w: int, h: int, t: int): seq<CellState>
    requires w >= 1 && h >= 1 && t >= 1
  {
    match c
    case NoCommand => s
    case Paint(p, code) => SetSlot(s, CellAt(w, h, t, p), code)
  }

  function ApplyCodes(cs: seq<int>, s: seq<CellState>, c: Command, w: int, h: int, t: int): seq<int>
    requires w >= 1 && h >= 1 && t >= 1 && |cs| == |s|
  {
    match c
    case NoCommand => cs
    case Paint(p, code) => SetCode(cs, s, CellAt(w, h, t, p), code)
  }

  /** A click on the field always lands on a tile, so a paint command of a
      game whose field is covered by its tiles sets exactly one slot. */
  lemma PaintHitsCell(fieldWidth: int, fieldHeight: int, t: int, s: seq<CellState>, c: Command)
    requires t >= 1 && CeilDiv(fieldWidth, t) >= 1 && CeilDiv(fieldHeight, t) >= 1
    requires |s| == CeilDiv(fieldWidth, t) * CeilDiv(fieldHeight, t)
    requires c.Paint? && IsPointInField(FieldRect(fieldWidth, fieldHeight), c.at)
    ensures var w, h := CeilDiv(fieldWidth, t), CeilDiv(fieldHeight, t);
      var i := CellAt(w, h, t, c.at);
      && 0 <= i < |s|
      && Apply(s, c, w, h, t)[i] == StateOfCode(c.code)
      && forall j :: 0 <= j < |s| && j != i ==> Apply(s, c, w, h, t)[j] == s[j]
  {
    FieldCovered(fieldWidth, fieldHeight, t, c.at);
  }

  class Game {
    var started: bool
    var paused: bool
    const baseSimulationDelay: int
    const simulationSpeedMultiplier: int
    const fieldType: int
    const fieldWidth: int
    const fieldHeight: int
    const tileSize: int
    const field: Field

    function State(): Flags
      reads this
    {
      Flags(started, paused)
    }

    ghost predicate Valid()
      reads this, field, field.cells, field.cellsStates
    {
      && field.Valid() && field.Laid()
      && tileSize >= 1 && field.tileSize == tileSize
      && field.width == CeilDiv(fieldWidth, tileSize) && field.height == CeilDiv(fieldHeight, tileSize)
      && field.size == FieldRect(fieldWidth, fieldHeight)
      && FlagsOk(State())
    }

    /** The initial game state followed by the creation of its field: not
        started, paused, a bordered field of default-size tiles. */
    constructor (fieldWidth: int, fieldHeight: int, simSpeedMul: int)
      requires CeilDiv(fieldWidth, DEFAULT_TILE_SIZE) >= 2 && CeilDiv(fieldHeight, DEFAULT_TILE_SIZE) >= 2
      ensures Valid() && fresh(field) && fresh(field.cells) && fresh(field.cellsStates)
      ensures !started && paused
      ensures baseSimulationDelay == DEFAULT_BASE_SIMULATION_DELAY && simulationSpeedMultiplier == simSpeedMul
      ensures fieldType == FIELD_TYPE_WITH_BORDERS && tileSize == DEFAULT_TILE_SIZE
      ensures this.fieldWidth == fieldWidth && this.fieldHeight == fieldHeight
      ensures field.fieldType == FIELD_TYPE_WITH_BORDERS && field.Wired()
      ensures forall i :: 0 <= i < field.maxCellsCount ==> field.cells[i] == Empty
    {
      started := false;
      paused := true;
      baseSimulationDelay := DEFAULT_BASE_SIMULATION_DELAY;
      simulationSpeedMultiplier := simSpeedMul;
      fieldType := FIELD_TYPE_WITH_BORDERS;
      this.fieldWidth := fieldWidth;
      this.fieldHeight := fieldHeight;
      tileSize := DEFAULT_TILE_SIZE;
      field := new Field(fieldWidth, fieldHeight, DEFAULT_TILE_SIZE,
                         FieldRect(fieldWidth, fieldHeight), FIELD_TYPE_WITH_BORDERS);
    }

    /** One event of the poll loop. Reports whether the event asks to quit. */
    method HandleEvent(e: Event) returns (quitRequested: bool)
      requires Valid()
      modifies this, field.cells, field.cellsStates
      ensures Valid()
      ensures quitRequested <==> IsQuitRequest(e)
      ensures State() == NextFlags(old(State()), e, field.size)
      ensures var c := CommandOf(old(State()), e, field.size);
        && field.cells[..] == Apply(old(field.cells[..]), c, field.width, field.height, tileSize)
        && field.cellsStates[..] == ApplyCodes(old(field.cellsStates[..]), old(field.cells[..]), c, field.width, field.height, tileSize)
    {
      quitRequested := false;
      if e == QuitEvent {
        quitRequested := true;
      }
      if e.KeyDown? && e.key == Escape {
        quitRequested := true;
      }
      if e.MouseDown? {
        var p := e.at;
        if paused {
          if IsPointInField(field.size, p) {
            var cellIdx := field.PointToIdx(p);
            if cellIdx > -1 {
              if e.button == Left {
                field.SetCell(cellIdx, ALIVE_CELL);
              } else if e.button == Right {
                field.SetCell(cellIdx, EMPTY_CELL);
              }
            }
          } else if IsPointInControlPanel(field.size, p) {
            if e.button == Left {
              started := true;
              paused := false;
            }
          }
        } else {
          if IsPointInControlPanel(field.size, p) {
            if e.button == Right {
              paused := true;
            }
          }
        }
      }
    }

    /** The main loop over a finite run of frames, each the list of events
        polled in it. A frame first runs one generation when the simulation
        is running, which sets the quit flag once the field has settled, and
        then handles all its events; the loop stops at the first frame that
        starts with the quit flag set. */
    method Run(frames: seq<seq<Event>>) returns (framesRun: nat)
      requires Valid()
      modifies this, field.cells, field.cellsStates
      ensures Valid()
      ensures framesRun <= |frames|
      ensures old(started) ==> started
    {
      var quit := false;
      framesRun := 0;
      while !quit && framesRun < |frames|
        invariant Valid() && framesRun <= |frames|
        invariant old(started) ==> started
      {
        if started && !paused {
          quit := field.CheckCellsStates();
        }
        var events := frames[framesRun];
        var j := 0;
        while j < |events|
          invariant Valid() && j <= |events|
          invariant old(started) ==> started
        {
          ghost var before := State();
          var stop := HandleEvent(events[j]);
          StartIsFinal(before, events[j], field.size);
          if stop {
            quit := true;
          }
          j := j + 1;
        }
        framesRun := framesRun + 1;
      }
    }
  }
}
