/**
 * The game field: a grid of cell slots laid out as square tiles to the right
 * of the control panel. The field owns the slot array (the state tag of the
 * cell object in each slot) and the array of raw state codes beside it; it
 * looks cells up by screen point, overwrites single slots while the game is
 * paused, and runs one generation in place.
 */
module GameField {
  import opened Cells
  import opened Geometry
  import opened Engine

  const CTRL_PANEL_WIDTH: int := 400
  const OFFSET_X: int := 5
  const OFFSET_Y: int := 5

  /** The number of tiles needed to cover `a` pixels with tiles of `t`
      pixels: the rounded-up quotient. */
  function CeilDiv(a: int, t: int): int
    requires t >= 1
  {
    (a + t - 1) / t
  }

  /** The rounded-up quotient is the least tile count that covers `a`. */
  lemma CeilDivIsCeiling(a: int, t: int)
    requires t >= 1
    ensures CeilDiv(a, t) * t >= a
    ensures (CeilDiv(a, t) - 1) * t < a
  {
    var c := CeilDiv(a, t);
    assert (a + t - 1) == c * t + (a + t - 1) % t;
    assert (c - 1) * t == c * t - t;
  }

  /** The screen rectangle of slot i: column i % w and row i / w of the grid,
      shifted right past the control panel and down by the top margin. */
  function CellArea(w: int, t: int, i: int): Rect
    requires w >= 1
  {
    Rect(i % w * t + CTRL_PANEL_WIDTH + OFFSET_X, i / w * t + OFFSET_Y, t, t)
  }

  /** The slot whose tile covers p, found by arithmetic, or -1 when p lies
      outside the tiled area. */
  function CellAt(w: int, h: int, t: int, p: Point): (r: int)
    requires w >= 1 && h >= 1 && t >= 1
    ensures -1 <= r < w * h
  {
    var c, q := (p.x - CTRL_PANEL_WIDTH - OFFSET_X) / t, (p.y - OFFSET_Y) / t;
    if 0 <= c < w && 0 <= q < h then
      IdxFacts(w, h, q, c);
      Idx(w, q, c)
    else -1
  }

  // ---------------------------------------------------------------------
  // Division facts behind the tile lookup

  lemma DivCharacter(x: int, t: int, a: int)
    requires t >= 1
    ensures a * t <= x <= a * t + t - 1 <==> x / t == a
  {
    var q := x / t;
    assert x == q * t + x % t;
    if a * t <= x <= a * t + t - 1 {
      if q < a {
        MulMonotone(q + 1, a, t);
        assert false;
      } else if q > a {
        MulMonotone(a + 1, q, t);
        assert false;
      }
    }
  }

  lemma DivLower(y: int, t: int, a: int)
    requires t >= 1 && a * t <= y
    ensures y / t >= a
  {
    var q := y / t;
    assert y == q * t + y % t;
    if q < a {
      MulMonotone(q + 1, a, t);
      assert false;
    }
  }

  /** A tile contains p exactly when p's column and row of tiles are those
      of the slot. */
  lemma TileContains(w: int, t: int, i: int, p: Point)
    requires w >= 1 && t >= 1
    ensures Contains(CellArea(w, t, i), p)
      <==> (p.x - CTRL_PANEL_WIDTH - OFFSET_X) / t == i % w && (p.y - OFFSET_Y) / t == i / w
  {
    DivCharacter(p.x - CTRL_PANEL_WIDTH - OFFSET_X, t, i % w);
    DivCharacter(p.y - OFFSET_Y, t, i / w);
  }

  /** The tiles do not overlap: the only slot whose tile holds p is the one
      the arithmetic lookup finds. */
  lemma CellAtCorrect(w: int, h: int, t: int, p: Point, i: int)
    requires w >= 1 && h >= 1 && t >= 1 && 0 <= i < w * h
    ensures Contains(CellArea(w, t, i), p) <==> i == CellAt(w, h, t, p)
  {
    TileContains(w, t, i, p);
    Decompose(w, h, i);
    var c, q := (p.x - CTRL_PANEL_WIDTH - OFFSET_X) / t, (p.y - OFFSET_Y) / t;
    if 0 <= c < w && 0 <= q < h {
      IdxFacts(w, h, q, c);
    }
  }

  /** The tiles cover the whole field rectangle: every point of the field
      lies in some slot's tile. */
  lemma FieldCovered(fw: int, fh: int, t: int, p: Point)
    requires t >= 1 && CeilDiv(fw, t) >= 1 && CeilDiv(fh, t) >= 1
    requires Contains(Rect(CTRL_PANEL_WIDTH + OFFSET_X, OFFSET_Y, fw, fh), p)
    ensures CellAt(CeilDiv(fw, t), CeilDiv(fh, t), t, p) >= 0
  {
    var x, y := p.x - CTRL_PANEL_WIDTH - OFFSET_X, p.y - OFFSET_Y;
    var c, q := x / t, y / t;
    DivLower(x, t, 0);
    DivLower(y, t, 0);
    assert c * t <= x by { DivCharacter(x, t, c); }
    assert q * t <= y by { DivCharacter(y, t, q); }
    assert (c + 1) * t == c * t + t;
    assert (q + 1) * t == q * t + t;
    DivLower(fw + t - 1, t, c + 1);
    DivLower(fh + t - 1, t, q + 1);
  }

  // ---------------------------------------------------------------------
  // Single-slot edits

  /** Whether an edit of slot idx to code actually replaces the cell: the
      index must name a slot and the slot's state must differ from code. */
  predicate Overwrites(s: seq<CellState>, idx: int, code: int)
  {
    0 <= idx < |s| && Code(s[idx]) != code
  }

  /** The slots after an edit. */
  function SetSlot(s: seq<CellState>, idx: int, code: int): (r: seq<CellState>)
    ensures |r| == |s|
    ensures forall j :: 0 <= j < |s| && j != idx ==> r[j] == s[j]
    ensures 0 <= idx < |s| ==> r[idx] == StateOfCode(code)
  {
    if Overwrites(s, idx, code) then s[idx := StateOfCode(code)] else s
  }

  /** The state codes after an edit: the raw code is recorded when the slot
      is replaced. */
  function SetCode(cs: seq<int>, s: seq<CellState>, idx: int, code: int): (r: seq<int>)
    requires |cs| == |s|
    ensures |r| == |cs|
    ensures forall j :: 0 <= j < |cs| && j != idx ==> r[j] == cs[j]
    ensures Overwrites(s, idx, code) ==> r[idx] == code
    ensures !Overwrites(s, idx, code) ==> r == cs
  {
    if Overwrites(s, idx, code) then cs[idx := code] else cs
  }

  /** Each code names the state of its slot. */
  predicate Agree(cs: seq<int>, s: seq<CellState>)
  {
    |cs| == |s| && forall j :: 0 <= j < |s| ==> StateOfCode(cs[j]) == s[j]
  }

  /** An edit keeps the codes naming the slots' states. */
  lemma SetKeepsAgreement(cs: seq<int>, s: seq<CellState>, idx: int, code: int)
    requires Agree(cs, s)
    ensures Agree(SetCode(cs, s, idx, code), SetSlot(s, idx, code))
  {
  }

  /** Editing a slot to the state it already has changes nothing. */
  lemma SetSameIsNoOp(cs: seq<int>, s: seq<CellState>, idx: int, code: int)
    requires |cs| == |s| && 0 <= idx < |s| && Code(s[idx]) == code
    ensures SetSlot(s, idx, code) == s && SetCode(cs, s, idx, code) == cs
  {
  }

  /** Repeating an edit changes nothing more. */
  lemma SetIdempotent(cs: seq<int>, s: seq<CellState>, idx: int, code: int)
    requires |cs| == |s|
    ensures var s1, c1 := SetSlot(s, idx, code), SetCode(cs, s, idx, code);
      SetSlot(s1, idx, code) == s1 && SetCode(c1, s1, idx, code) == c1
  {
    var s1, c1 := SetSlot(s, idx, code), SetCode(cs, s, idx, code);
    if Overwrites(s1, idx, code) {
      assert s1[idx] == StateOfCode(code);
      assert c1[idx] == code;
    }
  }

  /** Each slot that the walk changed records the code of its new state;
      every other slot keeps the code it had. */
  predicate Recorded(c0: seq<int>, s0: seq<CellState>, cs: seq<int>, s: seq<CellState>)
  {
    && |c0| == |s0| && |cs| == |s0| && |s| == |s0|
    && forall j :: 0 <= j < |s0| ==> cs[j] == (if s[j] == s0[j] then c0[j] else Code(s[j]))
  }

  /** A record of the walk's changes keeps the codes naming the states. */
  lemma RecordedAgrees(c0: seq<int>, s0: seq<CellState>, cs: seq<int>, s: seq<CellState>)
    requires Agree(c0, s0) && Recorded(c0, s0, cs, s)
    ensures Agree(cs, s)
  {
    forall j | 0 <= j < |s|
      ensures StateOfCode(cs[j]) == s[j]
    {
      CodeRoundTrip(s[j], s[j]);
    }
  }

  /** Whether the walk has changed any of the slots it has passed. */
  predicate Changed(t: seq<seq<int>>, s: seq<CellState>, k: nat)
    requires Table(t, |s|) && k <= |s|
  {
    Sweep(t, s, k)[..k] != s[..k]
  }

  /** Slot i still holds its old state when the walk reaches it, and the
      step at i replaces it by the rule applied to the field as it stands. */
  lemma SweepStep(t: seq<seq<int>>, s: seq<CellState>, i: nat)
    requires Table(t, |s|) && i < |s|
    ensures var p := Sweep(t, s, i);
      && p[i] == s[i]
      && Sweep(t, s, i + 1) == p[i := NextState(p[i], AliveCount(p, t[i]))]
  {
    var p := Sweep(t, s, i);
    assert p[i..][0] == s[i..][0];
  }

  /** The walk has changed a slot up to i exactly when it had before or
      slot i changed. */
  lemma ChangedStep(t: seq<seq<int>>, s: seq<CellState>, i: nat)
    requires Table(t, |s|) && i < |s|
    ensures Changed(t, s, i + 1) <==> Changed(t, s, i) || Sweep(t, s, i + 1)[i] != s[i]
  {
    var p, q := Sweep(t, s, i), Sweep(t, s, i + 1);
    SweepStep(t, s, i);
    assert q[..i] == p[..i];
    assert q[..i + 1] == q[..i] + [q[i]];
    assert s[..i + 1] == s[..i] + [s[i]];
  }

  /** Counting the non-alive slots up to i goes up by one exactly when the
      new state of slot i is not Alive. */
  lemma NonAliveStep(t: seq<seq<int>>, s: seq<CellState>, i: nat)
    requires Table(t, |s|) && i < |s|
    ensures var q := Sweep(t, s, i + 1);
      NonAliveCount(q[..i + 1]) == NonAliveCount(Sweep(t, s, i)[..i]) + (if q[i] != Alive then 1 else 0)
  {
    var p, q := Sweep(t, s, i), Sweep(t, s, i + 1);
    SweepStep(t, s, i);
    assert q[..i + 1][..i] == q[..i] == p[..i];
  }

  /** Replacing slot i, whose state is still the old one, and recording the
      new code when the state changes keeps the record. */
  lemma RecordedStep(c0: seq<int>, s0: seq<CellState>, pc: seq<int>, p: seq<CellState>, i: nat, x: CellState)
    requires Recorded(c0, s0, pc, p) && i < |s0| && p[i] == s0[i]
    ensures Recorded(c0, s0, if x == p[i] then pc else pc[i := Code(x)], p[i := x])
  {
  }

  // ---------------------------------------------------------------------
  // The field

  class Field {
    /** The field rectangle on the screen, in pixels. */
    const size: Rect
    /** The grid size in cells; fixed at construction. */
    const width: int
    const height: int
    const maxCellsCount: int
    const fieldType: int
    const tileSize: int
    /** The tile of each slot. */
    const areas: seq<Rect>
    /** The neighbour slots of each slot. */
    const nbrs: seq<seq<int>>
    /** The state tag of the cell object in each slot. */
    const cells: array<CellState>
    /** The state code recorded for each slot. */
    const cellsStates: array<int>

    function Shape(): Grid
    {
      Grid(fieldType, width, height)
    }

    /** The invariant every operation keeps: the sizes agree, every list
        names slots of the grid, and each recorded code names its slot's
        state. */
    ghost predicate Valid()
      reads cells, cellsStates
    {
      && Shape().Valid() && tileSize >= 1
      && maxCellsCount == width * height
      && cells.Length == maxCellsCount && cellsStates.Length == maxCellsCount
      && Table(nbrs, maxCellsCount)
      && Agree(cellsStates[..], cells[..])
    }

    /** Slot i's tile is the i-th square of the row-major layout. Only
        constants are involved, so this holds for the field's whole life. */
    predicate Laid()
      requires Shape().Valid()
    {
      |areas| == maxCellsCount
      && forall i :: 0 <= i < maxCellsCount ==> areas[i] == CellArea(width, tileSize, i)
    }

    /** Each slot's list is the grid's neighbour list of that slot; like
        Laid, this holds for the field's whole life. */
    predicate Wired()
      requires Shape().Valid()
    {
      nbrs == NeighbourTable(Shape())
    }

    /** The grid is w = ceil(fieldWidth / tile) by h = ceil(fieldHeight / tile)
        cells; every slot gets its tile and its neighbour list and starts
        Empty. */
    constructor (fieldWidth: int, fieldHeight: int, tile: int, size: Rect, fType: int)
      requires tile >= 1 && CeilDiv(fieldWidth, tile) >= 2 && CeilDiv(fieldHeight, tile) >= 2
      ensures Valid() && Laid() && Wired() && fresh(cells) && fresh(cellsStates)
      ensures this.size == size && fieldType == fType && tileSize == tile
      ensures width == CeilDiv(fieldWidth, tile) && height == CeilDiv(fieldHeight, tile)
      ensures forall i :: 0 <= i < maxCellsCount ==> cells[i] == Empty && cellsStates[i] == EMPTY_CELL
    {
      var w, h := CeilDiv(fieldWidth, tile), CeilDiv(fieldHeight, tile);
      MulMonotone(0, h, w);
      var n := w * h;
      var g := Grid(fType, w, h);
      var st := new int[n];
      var ca := new CellState[n];
      var ar: seq<Rect> := [];
      var nl: seq<seq<int>> := [];
      var i := 0;
      while i < n
        invariant 0 <= i <= n
        invariant |ar| == i && forall j :: 0 <= j < i ==> ar[j] == CellArea(w, tile, j)
        invariant nl == NeighbourTable(g)[..i]
        invariant forall j :: 0 <= j < i ==> ca[j] == Empty && st[j] == EMPTY_CELL
      {
        ar := ar + [CellArea(w, tile, i)];
        nl := nl + [g.Nbrs(i)];
        ca[i] := Empty;
        st[i] := EMPTY_CELL;
        i := i + 1;
      }
      NeighbourTableInRange(g);
      this.size := size;
      width, height, maxCellsCount := w, h, n;
      fieldType, tileSize := fType, tile;
      areas, nbrs := ar, nl;
      cells, cellsStates := ca, st;
    }

    /** The first slot, in index order, whose tile contains p, or -1 when
        there is none; since tiles do not overlap, this is the slot the
        arithmetic lookup names. */
    method PointToIdx(p: Point) returns (r: int)
      requires Valid() && Laid()
      ensures -1 <= r < maxCellsCount
      ensures r >= 0 ==> Contains(areas[r], p)
      ensures forall i :: 0 <= i < maxCellsCount && (r < 0 || i < r) ==> !Contains(areas[i], p)
      ensures r == CellAt(width, height, tileSize, p)
    {
      var i := 0;
      while i < maxCellsCount
        invariant 0 <= i <= maxCellsCount
        invariant forall j :: 0 <= j < i ==> !Contains(areas[j], p)
      {
        if Contains(areas[i], p) {
          CellAtCorrect(width, height, tileSize, p, i);
          return i;
        }
        i := i + 1;
      }
      var c := CellAt(width, height, tileSize, p);
      if c >= 0 {
        CellAtCorrect(width, height, tileSize, p, c);
      }
      return -1;
    }

    /** Replaces the cell in slot idx by a new cell of the class of code,
        unless the slot already holds that state; an index outside the grid
        changes nothing. */
    method SetCell(idx: int, cellState: int)
      requires Valid()
      modifies cells, cellsStates
      ensures Valid()
      ensures cells[..] == SetSlot(old(cells[..]), idx, cellState)
      ensures cellsStates[..] == SetCode(old(cellsStates[..]), old(cells[..]), idx, cellState)
    {
      var i := 0;
      while i < maxCellsCount
        invariant 0 <= i <= maxCellsCount
        invariant !(0 <= idx < i)
        invariant cells[..] == old(cells[..]) && cellsStates[..] == old(cellsStates[..])
      {
        if i == idx {
          if Code(cells[i]) == cellState {
            return;
          }
          var replacement: CellState;
          if cellState == ALIVE_CELL {
            replacement := Alive;
          } else if cellState == DEAD_CELL {
            replacement := Dead;
          } else {
            replacement := Empty;
          }
          cells[i] := replacement;
          cellsStates[i] := cellState;
          SetKeepsAgreement(old(cellsStates[..]), old(cells[..]), idx, cellState);
          return;
        }
        i := i + 1;
      }
    }

    /** The loop body of the generation for slot i: the cell is judged by
        its own class's test on the live neighbours it sees now, and an Alive
        cell that fails becomes Dead, a Dead or Empty cell that fails becomes
        Alive. Reports whether the slot was replaced and whether it counts as
        not alive. */
    method CheckCell(i: int) returns (replaced: bool, counted: bool)
      requires 0 <= i < cells.Length == cellsStates.Length && |nbrs| == cells.Length
      requires InRange(nbrs[i], cells.Length)
      modifies cells, cellsStates
      ensures var p := old(cells[..]);
        cells[..] == p[i := NextState(p[i], AliveCount(p, nbrs[i]))]
      ensures replaced <==> cells[i] != old(cells[i])
      ensures counted <==> cells[i] != Alive
      ensures cellsStates[..] == if replaced then old(cellsStates[..])[i := Code(cells[i])] else old(cellsStates[..])
    {
      var state := cells[i];
      var aliveCount := AliveNeighbours(cells, nbrs[i]);
      var dlc := DoLifeCycle(state, aliveCount);
      replaced, counted := false, false;
      if state == Alive {
        if !dlc {
          cells[i] := Dead;
          cellsStates[i] := DEAD_CELL;
          replaced, counted := true, true;
        }
      } else {
        if !dlc {
          cells[i] := Alive;
          cellsStates[i] := ALIVE_CELL;
          replaced := true;
        } else {
          counted := true;
        }
      }
    }

    /** One iteration of the generation loop: slot i is checked, and the
        flag saying whether the field changed and the count of non-alive
        slots are brought up to date, so that both describe slots 0 .. i. */
    method SweepSlot(i: int, ghost s0: seq<CellState>, ghost c0: seq<int>, changed: bool, dead: int)
      returns (changedAfter: bool, deadAfter: int)
      requires 0 <= i < maxCellsCount && cells.Length == maxCellsCount && cellsStates.Length == maxCellsCount
      requires |s0| == maxCellsCount && Table(nbrs, maxCellsCount)
      requires cells[..] == Sweep(nbrs, s0, i)
      requires Recorded(c0, s0, cellsStates[..], cells[..])
      requires changed <==> Changed(nbrs, s0, i)
      requires dead == NonAliveCount(Sweep(nbrs, s0, i)[..i])
      modifies cells, cellsStates
      ensures cells[..] == Sweep(nbrs, s0, i + 1)
      ensures Recorded(c0, s0, cellsStates[..], cells[..])
      ensures changedAfter <==> Changed(nbrs, s0, i + 1)
      ensures deadAfter == NonAliveCount(Sweep(nbrs, s0, i + 1)[..i + 1])
    {
      ghost var p, pc := cells[..], cellsStates[..];
      var replaced, counted := CheckCell(i);
      changedAfter, deadAfter := changed, dead;
      if replaced {
        changedAfter := true;
      }
      if counted {
        deadAfter := deadAfter + 1;
      }
      ghost var q, qc := cells[..], cellsStates[..];
      assert q == Sweep(nbrs, s0, i + 1) && Recorded(c0, s0, qc, q)
      by {
        SweepStep(nbrs, s0, i);
        RecordedStep(c0, s0, pc, p, i, q[i]);
      }
      ChangedStep(nbrs, s0, i);
      NonAliveStep(nbrs, s0, i);
    }

    /** One generation, in place: slot i is replaced, in index order, by the
        result of the rule applied to the field as it stands when the walk
        reaches it. The result is true when nothing changed or no cell is
        left alive, which ends the simulation. */
    method CheckCellsStates() returns (finish: bool)
      requires Valid()
      modifies cells, cellsStates
      ensures Valid()
      ensures cells[..] == Sweep(nbrs, old(cells[..]), maxCellsCount)
      ensures Recorded(old(cellsStates[..]), old(cells[..]), cellsStates[..], cells[..])
      ensures finish <==> (cells[..] == old(cells[..]) || NoneAlive(cells[..]))
    {
      ghost var s0 := cells[..];
      ghost var c0 := cellsStates[..];
      var deadCellsCount := 0;
      var fieldChangedState := false;
      var i := 0;
      while i < maxCellsCount
        invariant 0 <= i <= maxCellsCount
        invariant cells[..] == Sweep(nbrs, s0, i)
        invariant fieldChangedState <==> Changed(nbrs, s0, i)
        invariant deadCellsCount == NonAliveCount(Sweep(nbrs, s0, i)[..i])
        invariant Recorded(c0, s0, cellsStates[..], cells[..])
      {
        fieldChangedState, deadCellsCount := SweepSlot(i, s0, c0, fieldChangedState, deadCellsCount);
        i := i + 1;
      }
      assert cells[..][..i] == cells[..] && s0[..i] == s0;
      assert deadCellsCount >= maxCellsCount <==> NoneAlive(cells[..]);
      assert Agree(cellsStates[..], cells[..]) by {
        RecordedAgrees(c0, s0, cellsStates[..], cells[..]);
      }
      finish := deadCellsCount >= maxCellsCount || !fieldChangedState;
    }
  }
}
