/**
 * The cell state model of the Game-of-Life field: the three state codes, the
 * per-subtype life-cycle rule that the field dispatches on, the per-cell
 * object with its normalising setters, and the screen rectangles cells occupy.
 */
module Cells {

  const EMPTY_CELL: int := 0
  const ALIVE_CELL: int := 1
  const DEAD_CELL: int := 2

  /** The state tag of a slot. It stands for the dynamic type of the cell
      object held there: a plain Cell is Empty, an AliveCell is Alive and a
      DeadCell is Dead. */
  datatype CellState = Empty | Alive | Dead

  function Code(s: CellState): (n: int)
    ensures EMPTY_CELL <= n <= DEAD_CELL
  {
    match s
    case Empty => EMPTY_CELL
    case Alive => ALIVE_CELL
    case Dead => DEAD_CELL
  }

  /** The state a cell object ends up in when it is given the code `n`:
      a code outside [EMPTY_CELL, DEAD_CELL] is normalised to Empty. */
  function StateOfCode(n: int): (s: CellState)
    ensures EMPTY_CELL <= n <= DEAD_CELL ==> Code(s) == n
    ensures !(EMPTY_CELL <= n <= DEAD_CELL) ==> s == Empty
  {
    if n == ALIVE_CELL then Alive
    else if n == DEAD_CELL then Dead
    else Empty
  }

  /** The three state codes are distinct and every tag survives the trip
      through its code. */
  lemma CodeRoundTrip(s: CellState, t: CellState)
    ensures StateOfCode(Code(s)) == s
    ensures Code(s) == Code(t) ==> s == t
  {
  }

  /** The life-cycle test of the cell object's own class. For an AliveCell the
      answer means "survives"; for a plain Cell and a DeadCell it means "stays
      without life" (false: it is born). */
  function DoLifeCycle(kind: CellState, aliveCount: int): (keep: bool)
    ensures kind == Alive ==> (keep <==> aliveCount == 2 || aliveCount == 3)
    ensures kind != Alive ==> (keep <==> aliveCount != 3)
  {
    match kind
    case Alive => !(aliveCount < 2 || aliveCount > 3)
    case Dead => aliveCount != 3
    case Empty => aliveCount != 3
  }

  /** The state a slot holds after the generation step has looked at it:
      an Alive cell whose test fails is replaced by a Dead one, a Dead or Empty
      cell whose test fails is replaced by an Alive one, and otherwise the slot
      keeps its cell. */
  function NextState(s: CellState, aliveCount: int): (r: CellState)
    ensures r == Alive <==> (if s == Alive then aliveCount == 2 || aliveCount == 3 else aliveCount == 3)
    ensures r != Alive ==> r == (if s == Alive then Dead else s)
  {
    if s == Alive then
      (if DoLifeCycle(s, aliveCount) then Alive else Dead)
    else
      (if DoLifeCycle(s, aliveCount) then s else Alive)
  }

  datatype Point = Point(x: int, y: int)

  /** A screen rectangle with its top-left corner at (x, y). */
  datatype Rect = Rect(x: int, y: int, w: int, h: int)

  /** Containment with both borders inclusive: the last column covered is
      x + w - 1 and the last row y + h - 1. */
  predicate Contains(r: Rect, p: Point)
  {
    r.x <= p.x <= r.x + r.w - 1 && r.y <= p.y <= r.y + r.h - 1
  }

  /** The per-cell object: its state code, its slot index and its area. */
  class Cell {
    var state: int
    var index: int
    var area: Rect

    ghost predicate Valid()
      reads this
    {
      EMPTY_CELL <= state <= DEAD_CELL
    }

    function Tag(): CellState
      reads this
    {
      StateOfCode(state)
    }

    /** The state is normalised through SetState; the index is stored only
        when it is not negative (otherwise it keeps whatever it held). */
    constructor (area: Rect, cellState: int, idx: int)
      ensures Valid()
      ensures this.area == area
      ensures Tag() == StateOfCode(cellState)
      ensures EMPTY_CELL <= cellState <= DEAD_CELL ==> state == cellState
      ensures idx >= 0 ==> index == idx
    {
      this.area := area;
      new;
      SetState(cellState);
      SetIndex(idx);
    }

    method SetState(s: int)
      modifies this
      ensures Valid()
      ensures state == (if EMPTY_CELL <= s <= DEAD_CELL then s else EMPTY_CELL)
      ensures Tag() == StateOfCode(s)
      ensures index == old(index) && area == old(area)
    {
      if EMPTY_CELL <= s <= DEAD_CELL {
        state := s;
      } else {
        state := EMPTY_CELL;
      }
    }

    method SetIndex(idx: int)
      requires Valid()
      modifies this
      ensures Valid()
      ensures index == (if idx < 0 then old(index) else idx)
      ensures state == old(state) && area == old(area)
    {
      if idx >= 0 {
        index := idx;
      }
    }

    predicate IsPointInCell(p: Point)
      reads this
    {
      Contains(area, p)
    }
  }
}
