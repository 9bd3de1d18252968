# Game of Life: a verified model of the field engine

This project models the core of a small SDL Game of Life program in Dafny:

- the field of cell slots, laid out as square tiles to the right of a
  400-pixel control panel;
- the neighbour lists of the field with borders and of the toroidal field;
- the life-cycle rule of the three cell classes (plain, alive, dead);
- the generation step, which walks the slots in index order and replaces
  each one in place, and reports whether the simulation is over;
- single-slot edits and the lookup of the slot under a screen point;
- the started/paused flags of the main loop and how a mouse click is routed;
- the start-up checks of the command-line values.

The model has seven modules, one file each:

| file | module | models |
|---|---|---|
| `cells.dfy` | `Cells` | state codes, the life-cycle rule, rectangles, the `Cell` object's setters |
| `geometry.dfy` | `Geometry` | position classes of an index, bordered and toroidal neighbour lists, `Grid` |
| `engine.dfy` | `Engine` | live-neighbour counts, the in-place walk `Sweep`, the synchronous reference `Generation` |
| `field.dfy` | `GameField` | class `Field`: its constructor, `PointToIdx`, `SetCell` and `CheckCellsStates` on arrays |
| `game.dfy` | `GameLoop` | flags, event handling and the main loop of class `Game` |
| `launcher.dfy` | `Launcher` | the parameter checks and the argument-count switch of the program's entry point |
| `scenarios.dfy` | `Scenarios` | a vertical blinker on the 3 x 3 field with borders, walked slot by slot |

Each slot of the field holds a cell object whose dynamic class is Cell,
AliveCell or DeadCell. Its state code always matches that class. The model
keeps one `CellState` tag per slot (`Empty`, `Alive`, `Dead`) in an `array`.
The parallel `cellsStates` array of raw codes is kept beside it. The
invariant `Agree` says that each recorded code names its slot's state.

The generation step is modelled as the code runs it: in place. A cell counts
the new state of every neighbour the walk has already passed. It counts the
old state of the neighbours still ahead. `Engine.Sweep` is that walk, and
`Field.CheckCellsStates` is proved to produce exactly `Sweep`. The textbook
rule of the Game of Life is synchronous: every cell is judged on the
previous generation. That rule is kept as `Engine.Generation`, so the two can be
compared:

- `SameFixedPoints`: the two rules have the same still lifes.
- `Scenarios.BlinkerSweep`: the two rules differ on a vertical blinker.
  The synchronous rule turns it horizontal. The in-place walk kills it, and
  the step then reports the end of the game.

## Model

| member | source | states |
|---|---|---|
| Cells.StateOfCode | includes/Game.hpp:123 | a code outside EMPTY_CELL..DEAD_CELL reads as Empty; otherwise the state the code names |
| Cells.CodeRoundTrip | includes/Game.hpp:35-40 | decoding a state's code gives the state back, and distinct states have distinct codes |
| Cells.DoLifeCycle | src/Game.cpp:22-56 | the test of an AliveCell holds exactly with 2 or 3 live neighbours; that of a plain Cell or a DeadCell holds exactly when the count is not 3; NextState carries its effect on a slot |
| Cells.Contains | src/Game.cpp:91-105 | containment with both borders inclusive; no ensures of its own, its meaning is used by GameField.CellAtCorrect and GameField.FieldCovered |
| Cells.NextState | src/Game.cpp:22-56 | the state after the life-cycle test: Alive exactly when an alive cell has 2 or 3 live neighbours or another cell has 3; a failing alive cell becomes Dead; any other non-alive cell keeps its state (Empty stays Empty) |
| Cells.Cell.SetState | includes/Game.hpp:123 | the stored code is the argument when it is a valid state and EMPTY_CELL otherwise; nothing else changes |
| Cells.Cell.SetIndex | includes/Game.hpp:124 | a negative index leaves the stored index unchanged; otherwise it is stored |
| Cells.Cell.constructor | src/Game.cpp:58-72 | the new cell has the given area, the normalised state and, for a non-negative index, that index |
| Cells.Cell.IsPointInCell | src/Game.cpp:91-105 | whether the point lies in the cell's area, borders inclusive; no ensures of its own, as with Contains |
| Geometry.PositionCodesDistinct | includes/Game.hpp:58-69 | the nine position codes are pairwise distinct |
| Geometry.CellPosByIdx | src/Game.cpp:488-515 | the code's chain of tests, in its order; no ensures of its own, its meaning is stated by Geometry.CellPosByIdxCorrect |
| Geometry.CellPosByIdxCorrect | src/Game.cpp:488-515 | the class of an index is the corner, edge or inner class of its row and column, each class exactly characterised |
| Geometry.BorderedNeighbours | src/Game.cpp:311-380 | the list the code pushes for each position class; no ensures of its own, its meaning is stated by Geometry.BorderedNeighboursExact and Geometry.BorderedSymmetric |
| Geometry.BorderedNeighboursExact | src/Game.cpp:311-380 | the bordered list of a cell holds exactly the in-grid cells whose row and column differ by at most 1 (not the cell itself), without repetition, 3, 5 or 8 of them by class |
| Geometry.BorderedComplete | src/Game.cpp:311-380 | every in-grid adjacent cell is in the bordered list |
| Geometry.BorderedSymmetric | src/Game.cpp:311-380 | on the field with borders, j is in the list of i exactly when i is in the list of j |
| Geometry.TorusNeighbours | src/Game.cpp:382-486 | the list the code pushes for each position class; no ensures of its own, its meaning is stated by Geometry.TorusNeighboursExact, Geometry.TorusNeighboursWraps and Geometry.TorusSymmetric |
| Geometry.TorusNeighboursExact | src/Game.cpp:382-486 | the toroidal list has MAX_CELL_NEIGHBOURS entries, holds exactly the cells one wrapped step away, never the cell itself, and has no repetition on grids of at least 3 x 3 |
| Geometry.TorusSymmetric | src/Game.cpp:382-486 | on the toroidal field, j is in the list of i exactly when i is in the list of j |
| Geometry.TorusAdjacentFlip | src/Game.cpp:382-486 | the opposite wrapped step leads back, so toroidal adjacency is symmetric |
| Geometry.TorusNeighboursWraps | src/Game.cpp:382-486 | each toroidal list is the list of the wrapped king's moves of its class's offsets, in the code's order |
| Geometry.WrapInjective | src/Game.cpp:382-486 | on grids of at least 3 x 3, distinct unit steps wrap to distinct slots |
| Geometry.TorusOffsetsExact | src/Game.cpp:382-486 | each class's step list names every one of the eight unit steps once |
| Geometry.Grid.Nbrs | src/Game.cpp:144 | a cell's list is the bordered one for FIELD_TYPE_WITH_BORDERS and the toroidal one otherwise; at most 8 entries, all in the grid and none the cell itself |
| Engine.NeighbourTableInRange | src/Game.cpp:311-486 | every list names slots of the field |
| Engine.AliveNeighbours | src/Game.cpp:8-20 | the loop over the neighbour slots returns the number of listed slots holding an Alive cell |
| Engine.AliveCountIsCardinality | src/Game.cpp:8-20 | on a list without repetition the count is the number of distinct live neighbours |
| Engine.AliveCountFrame | src/Game.cpp:8-20 | the count depends only on the slots the list names |
| Engine.Sweep | src/Game.cpp:243-304 | after the walk has passed slots 0..k-1, the slots from k on are untouched |
| Engine.SweepStable | src/Game.cpp:243-304 | a slot the walk has passed is never changed again |
| Engine.SweepView | src/Game.cpp:243-304 | a cell is judged on the new states of the cells before it and the old states of the rest |
| Engine.SameFixedPoints | src/Game.cpp:306-308 | the walk leaves a field unchanged exactly when the synchronous rule does |
| Engine.NonAliveCount | src/Game.cpp:306-308 | the count of non-alive slots reaches the slot count exactly when no slot is Alive |
| GameField.CeilDivIsCeiling | src/Game.cpp:119 | the tile counts are the least number of tiles covering the field's width and height |
| GameField.CellArea | src/Game.cpp:136-142 | the tile of slot i: column i % w and row i / w, past the panel and margin; no ensures of its own, its meaning is stated by GameField.CellAtCorrect and GameField.FieldCovered |
| GameField.CellAtCorrect | src/Game.cpp:91-105 | a point lies in slot i's tile (both borders inclusive) exactly when the lookup returns i |
| GameField.FieldCovered | src/Game.cpp:796-810 | every point of the field rectangle lies in some slot's tile |
| GameField.SetSlot | src/Game.cpp:201-234 | an edit sets only the named slot, to the state its code names |
| GameField.SetCode | src/Game.cpp:201-234 | when the edit replaces the cell the raw code is recorded at the slot, even one outside the valid codes; otherwise the codes are unchanged |
| GameField.SetKeepsAgreement | src/Game.cpp:201-234 | an edit keeps every recorded code naming its slot's state |
| GameField.SetSameIsNoOp | src/Game.cpp:207-211 | setting a slot to the state it holds changes neither array |
| GameField.SetIdempotent | src/Game.cpp:201-234 | repeating the same edit changes nothing more |
| GameField.Field.constructor | src/Game.cpp:118-167 | a w x h grid with w and h the rounded-up tile counts; slot i gets the i-th tile of the row-major layout and its neighbour list, and every slot starts Empty with code EMPTY_CELL |
| GameField.Field.PointToIdx | src/Game.cpp:190-199 | the first slot whose tile contains the point, or -1; equal to the arithmetic lookup |
| GameField.Field.SetCell | src/Game.cpp:201-234 | the slot array after the edit is SetSlot of the old one and the code array SetCode of the old one |
| GameField.Field.CheckCell | src/Game.cpp:243-304 | one iteration: the slot gets the rule's next state from the current field; it reports whether the slot was replaced and whether it is non-alive afterwards |
| GameField.Field.CheckCellsStates | src/Game.cpp:236-309 | the new field is the in-place walk of the old one; each replaced slot records its new code; the result is true exactly when the field did not change or no Alive cell is left |
| GameField.Field.SweepSlot | src/Game.cpp:244-302 | one pass of the loop: the field moves from the walk up to slot i to the walk up to slot i + 1, and the changed flag and the non-alive count keep describing exactly the slots walked so far |
| GameLoop.NextFlags | src/Game.cpp:744-786 | a left click on the control panel while paused starts the run, a right click on it while running pauses it, and nothing else changes the flags |
| GameLoop.CommandOf | src/Game.cpp:751-764 | while paused, a left click on the field paints its cell Alive and a right click paints it Empty, and nothing else edits |
| GameLoop.FieldRect | src/Game.cpp:668-675 | the field rectangle the game builds: its top-left corner just past the control panel and the margins, with the field's own width and height; no ensures of its own, its meaning is used by GameLoop.IsPointInField, GameLoop.PaintHitsCell and the invariant of GameLoop.Game |
| GameLoop.IsPointInField | src/Game.cpp:796-810 | containment in the field rectangle, borders inclusive; no ensures of its own, its meaning is used by GameLoop.PaintHitsCell |
| GameLoop.IsPointInControlPanel | src/Game.cpp:812-815 | every point outside the field; no ensures of its own, its meaning is used by GameLoop.NextFlags |
| GameLoop.NextFlagsKeepsOk | src/Game.cpp:682-695 | the simulation is never running before it has been started |
| GameLoop.StartIsFinal | src/Game.cpp:765-785 | once started the game stays started, and a running game can only become paused |
| GameLoop.EditsOnlyWhilePaused | src/Game.cpp:751-786 | a running game ignores clicks on the field, and an edit never changes the flags |
| GameLoop.QuitIsInert | src/Game.cpp:732-742 | a quit request neither edits the field nor changes the flags |
| GameLoop.PaintHitsCell | src/Game.cpp:753-763 | a click on the field sets exactly the slot under the point |
| GameLoop.Game.constructor | src/Game.cpp:669-695 | the game starts not started and paused, with the default delay and tile size and a bordered all-Empty field |
| GameLoop.Game.HandleEvent | src/Game.cpp:732-786 | one polled event: reports a quit request exactly for the close event and Escape; the flags become NextFlags; the field gets CommandOf's edit |
| GameLoop.Game.Run | src/Game.cpp:697-794 | the loop keeps the game's invariant, and a started game stays started |
| Launcher.CheckFieldWidthParam | main.cpp:5-18 | the width is accepted exactly when 800 <= width <= display width - 410; a rejected width reads as 0 |
| Launcher.CheckFieldHeightParam | main.cpp:20-33 | the height is accepted exactly when 600 <= height <= display height - 10 |
| Launcher.CheckSimSpeedMultiplierParam | main.cpp:35-49 | the multiplier is accepted exactly when it lies in 1..200 |
| Launcher.ChooseSettings | main.cpp:73-113 | each setting is the supplied value when the argument count supplies it and its check accepts it, else its default (800, 600, 1); the textures path is the fourth argument only from five arguments on |
| Launcher.ChosenInRange | main.cpp:73-113 | the speed multiplier always lies in 1..200, and each field dimension is its default or an accepted value |
| Launcher.AcceptedFieldFitsDisplay | main.cpp:122 | the window of an accepted field size fits the display |
| Launcher.WindowSize | main.cpp:122 | the window holds the panel, the field and both margins; no ensures of its own, its meaning is stated by Launcher.AcceptedFieldFitsDisplay |
| Launcher.ChosenFieldIsLarge | main.cpp:73-113 | every chosen field has at least 40 x 30 default-size tiles |
| Scenarios.SmallFieldTable | src/Game.cpp:311-380 | the neighbour lists of the 3 x 3 field with borders, slot by slot |
| Scenarios.BlinkerGeneration | src/Game.cpp:22-56 | under the synchronous rule the vertical blinker becomes the horizontal one |
| Scenarios.BlinkerSlot | src/Game.cpp:22-56 | each slot of the synchronous generation of the vertical blinker, from its live-neighbour count |
| Scenarios.BlinkerSweep | src/Game.cpp:236-309 | the in-place walk turns the vertical blinker into three Dead cells and no live one, unlike the synchronous rule |

## Left out

- Rendering, textures, fonts, the window, the renderer and logging are not modelled. The model has no SDL calls and no `SDL_Delay` pacing.
- The speed and delay arithmetic used for pacing is not modelled. The density field is not modelled.
- `strtol` parsing is not modelled. Each command-line value reaches `ChooseSettings` as an integer.
- The display size query is a parameter of the checks.
- The final `getchar` wait of the entry point is not modelled.
- The tile counts use the C++ `ceil` of a `float` quotient. They are modelled as integer ceiling division, which is exact for the sizes the program uses.
- Object identity is not modelled: `new`/`delete`, `dynamic_cast` and the `Cell**` indirection of the neighbour lists. A slot's cell object is represented by its state tag.
- The neighbour lists are a table the constructor builds once. The code recomputes them at every generation and every edit, but the result is the same list for the same slot.
- The copy and move constructors and the default constructors of `Field` and `Game` are not modelled. The destructors are not modelled either.
- GameField.Field.constructor: requires each tile count to be at least 2. The neighbour-list code reads slots of a second row and column, so the model needs them. Every size the launcher accepts has at least 40 x 30 tiles (`ChosenFieldIsLarge`).
- GameLoop.Game.constructor: the field is created with the game state. `Run` creates it before its loop and the program calls nothing in between.
- GameLoop.Game.Run: the infinite frame loop is a finite run over a given sequence of frames, each holding its polled events. The contract states the invariant and the flags only; each frame's effect is stated by `HandleEvent` and `CheckCellsStates`.
- Cells.Cell.constructor: the stored index is left unspecified for a negative index, since the C++ member is then never assigned.
- GameLoop.Game.HandleEvent: the pointer position is part of the mouse event rather than read with `SDL_GetMouseState`, and the redraw after an edit is not modelled.
