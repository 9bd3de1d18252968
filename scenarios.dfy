/**
 * A worked case of the in-place generation: the vertical blinker on the
 * 3 x 3 field with borders. Under the synchronous rule it turns into the
 * horizontal blinker; the engine's in-place walk instead kills the middle
 * column one cell at a time, because each cell already counts the new,
 * dead state of the cell above it, and no cell is born. The field then
 * holds no Alive cell, so the generation step reports that the game is over.
 */
module Scenarios {
  import opened Cells
  import opened Geometry
  import opened Engine

  const SMALL_FIELD: Grid := Grid(FIELD_TYPE_WITH_BORDERS, 3, 3)

  /** The neighbour lists of the 3 x 3 field with borders, slot by slot. */
  const SMALL_TABLE: seq<seq<int>> :=
    [[1, 3, 4], [0, 2, 3, 4, 5], [1, 5, 4],
     [0, 6, 1, 4, 7], [3, 5, 1, 7, 0, 2, 6, 8], [2, 8, 1, 4, 7],
     [7, 3, 4], [6, 8, 3, 4, 5], [7, 5, 4]]

  /** The table the field builds for its 3 x 3 grid with borders is the one above. */
  lemma SmallFieldTable()
    ensures NeighbourTable(SMALL_FIELD) == SMALL_TABLE
    ensures Table(SMALL_TABLE, 9)
  {
    NeighbourTableInRange(SMALL_FIELD);
    var t := NeighbourTable(SMALL_FIELD);
    assert CellPosByIdx(3, 3, 0) == LeftTopCorner;
    assert CellPosByIdx(3, 3, 1) == TopEdge;
    assert CellPosByIdx(3, 3, 2) == RightTopCorner;
    assert CellPosByIdx(3, 3, 3) == LeftEdge;
    assert CellPosByIdx(3, 3, 4) == Inner;
    assert CellPosByIdx(3, 3, 5) == RightEdge;
    assert CellPosByIdx(3, 3, 6) == LeftBottomCorner;
    assert CellPosByIdx(3, 3, 7) == BottomEdge;
    assert CellPosByIdx(3, 3, 8) == RightBottomCorner;
    assert t[0] == [1, 3, 4];
    assert t[1] == [0, 2, 3, 4, 5];
    assert t[2] == [1, 5, 4];
    assert t[3] == [0, 6, 1, 4, 7];
    assert t[4] == [3, 5, 1, 7, 0, 2, 6, 8];
    assert t[5] == [2, 8, 1, 4, 7];
    assert t[6] == [7, 3, 4];
    assert t[7] == [6, 8, 3, 4, 5];
    assert t[8] == [7, 5, 4];
  }

  /** Every list of the small table names a slot of the 3 x 3 field, read
      off the literal table itself. */
  lemma SmallTableInRange()
    ensures Table(SMALL_TABLE, 9)
  {
    forall i | 0 <= i < 9
      ensures InRange(SMALL_TABLE[i], 9)
    {
      assert SMALL_TABLE[i] in SMALL_TABLE;
    }
  }

  /** 1 when slot x holds an Alive cell. */
  function Ind(s: seq<CellState>, x: int): int
    requires 0 <= x < |s|
  {
    if s[x] == Alive then 1 else 0
  }

  /** Counting a list one entry longer adds that entry's indicator. */
  lemma CountSnoc(s: seq<CellState>, nb: seq<int>, x: int)
    requires InRange(nb, |s|) && 0 <= x < |s|
    ensures InRange(nb + [x], |s|)
    ensures AliveCount(s, nb + [x]) == AliveCount(s, nb) + Ind(s, x)
  {
    assert (nb + [x])[..|nb|] == nb;
  }

  lemma Count3(s: seq<CellState>, a: int, b: int, c: int)
    requires 0 <= a < |s| && 0 <= b < |s| && 0 <= c < |s|
    ensures InRange([a, b, c], |s|)
    ensures AliveCount(s, [a, b, c]) == Ind(s, a) + Ind(s, b) + Ind(s, c)
  {
    CountSnoc(s, [], a);
    assert [] + [a] == [a];
    CountSnoc(s, [a], b);
    assert [a] + [b] == [a, b];
    CountSnoc(s, [a, b], c);
    assert [a, b] + [c] == [a, b, c];
  }

  lemma Count5(s: seq<CellState>, a: int, b: int, c: int, d: int, e: int)
    requires 0 <= a < |s| && 0 <= b < |s| && 0 <= c < |s| && 0 <= d < |s| && 0 <= e < |s|
    ensures InRange([a, b, c, d, e], |s|)
    ensures AliveCount(s, [a, b, c, d, e]) == Ind(s, a) + Ind(s, b) + Ind(s, c) + Ind(s, d) + Ind(s, e)
  {
    Count3(s, a, b, c);
    CountSnoc(s, [a, b, c], d);
    assert [a, b, c] + [d] == [a, b, c, d];
    CountSnoc(s, [a, b, c, d], e);
    assert [a, b, c, d] + [e] == [a, b, c, d, e];
  }

  lemma Count8(s: seq<CellState>, a: int, b: int, c: int, d: int, e: int, f: int, g: int, h: int)
    requires 0 <= a < |s| && 0 <= b < |s| && 0 <= c < |s| && 0 <= d < |s|
    requires 0 <= e < |s| && 0 <= f < |s| && 0 <= g < |s| && 0 <= h < |s|
    ensures InRange([a, b, c, d, e, f, g, h], |s|)
    ensures AliveCount(s, [a, b, c, d, e, f, g, h])
      == Ind(s, a) + Ind(s, b) + Ind(s, c) + Ind(s, d) + Ind(s, e) + Ind(s, f) + Ind(s, g) + Ind(s, h)
  {
    Count5(s, a, b, c, d, e);
    CountSnoc(s, [a, b, c, d, e], f);
    assert [a, b, c, d, e] + [f] == [a, b, c, d, e, f];
    CountSnoc(s, [a, b, c, d, e, f], g);
    assert [a, b, c, d, e, f] + [g] == [a, b, c, d, e, f, g];
    CountSnoc(s, [a, b, c, d, e, f, g], h);
    assert [a, b, c, d, e, f, g] + [h] == [a, b, c, d, e, f, g, h];
  }

  /** The live-neighbour count of one slot of a 3 x 3 field with borders. */
  lemma SlotCount(s: seq<CellState>, k: int)
    requires |s| == 9 && 0 <= k < 9
    ensures InRange(SMALL_TABLE[k], |s|)
    ensures k == 0 ==> AliveCount(s, SMALL_TABLE[k]) == Ind(s, 1) + Ind(s, 3) + Ind(s, 4)
    ensures k == 1 ==> AliveCount(s, SMALL_TABLE[k]) == Ind(s, 0) + Ind(s, 2) + Ind(s, 3) + Ind(s, 4) + Ind(s, 5)
    ensures k == 2 ==> AliveCount(s, SMALL_TABLE[k]) == Ind(s, 1) + Ind(s, 5) + Ind(s, 4)
    ensures k == 3 ==> AliveCount(s, SMALL_TABLE[k]) == Ind(s, 0) + Ind(s, 6) + Ind(s, 1) + Ind(s, 4) + Ind(s, 7)
    ensures k == 4 ==> AliveCount(s, SMALL_TABLE[k]) == Ind(s, 3) + Ind(s, 5) + Ind(s, 1) + Ind(s, 7) + Ind(s, 0) + Ind(s, 2) + Ind(s, 6) + Ind(s, 8)
    ensures k == 5 ==> AliveCount(s, SMALL_TABLE[k]) == Ind(s, 2) + Ind(s, 8) + Ind(s, 1) + Ind(s, 4) + Ind(s, 7)
    ensures k == 6 ==> AliveCount(s, SMALL_TABLE[k]) == Ind(s, 7) + Ind(s, 3) + Ind(s, 4)
    ensures k == 7 ==> AliveCount(s, SMALL_TABLE[k]) == Ind(s, 6) + Ind(s, 8) + Ind(s, 3) + Ind(s, 4) + Ind(s, 5)
    ensures k == 8 ==> AliveCount(s, SMALL_TABLE[k]) == Ind(s, 7) + Ind(s, 5) + Ind(s, 4)
  {
    if k == 0 {
      Count3(s, 1, 3, 4);
    } else if k == 1 {
      Count5(s, 0, 2, 3, 4, 5);
    } else if k == 2 {
      Count3(s, 1, 5, 4);
    } else if k == 3 {
      Count5(s, 0, 6, 1, 4, 7);
    } else if k == 4 {
      Count8(s, 3, 5, 1, 7, 0, 2, 6, 8);
    } else if k == 5 {
      Count5(s, 2, 8, 1, 4, 7);
    } else if k == 6 {
      Count3(s, 7, 3, 4);
    } else if k == 7 {
      Count5(s, 6, 8, 3, 4, 5);
    } else if k == 8 {
      Count3(s, 7, 5, 4);
    }
  }

  const VERTICAL_BLINKER: seq<CellState> := [Empty, Alive, Empty, Empty, Alive, Empty, Empty, Alive, Empty]
  const HORIZONTAL_BLINKER: seq<CellState> := [Empty, Dead, Empty, Alive, Alive, Alive, Empty, Dead, Empty]

  /** The synchronous rule turns the vertical blinker into the horizontal one. */
  lemma BlinkerGeneration()
    ensures Table(SMALL_TABLE, 9)
    ensures Generation(SMALL_TABLE, VERTICAL_BLINKER) == HORIZONTAL_BLINKER
  {
    SmallTableInRange();
    var g := Generation(SMALL_TABLE, VERTICAL_BLINKER);
    forall k | 0 <= k < 9
      ensures g[k] == HORIZONTAL_BLINKER[k]
    {
      BlinkerSlot(k);
    }
  }

  /** Slot k of the synchronous generation of the vertical blinker. */
  lemma BlinkerSlot(k: nat)
    requires k < 9
    ensures Table(SMALL_TABLE, 9)
    ensures Generation(SMALL_TABLE, VERTICAL_BLINKER)[k] == HORIZONTAL_BLINKER[k]
  {
    SmallTableInRange();
    SlotCount(VERTICAL_BLINKER, k);
  }

  /** One step of the walk over the 3 x 3 field: from the field before slot k,
      whose count there is n, to the one after. */
  lemma SmallStep(s: seq<CellState>, k: nat, n: int, p: seq<CellState>, q: seq<CellState>)
    requires |s| == 9 && k < 9 && Table(SMALL_TABLE, 9) && Sweep(SMALL_TABLE, s, k) == p
    requires AliveCount(p, SMALL_TABLE[k]) == n
    requires |q| == 9 && q[k] == NextState(p[k], n)
    requires forall j :: 0 <= j < 9 && j != k ==> q[j] == p[j]
    ensures Sweep(SMALL_TABLE, s, k + 1) == q
  {
    assert q == p[k := NextState(p[k], n)];
  }

  /** The field while the walk passes over the vertical blinker: before
      slot k, for k from 0 to 9. The column dies one cell at a time. */
  function BlinkerStage(k: nat): (p: seq<CellState>)
    ensures |p| == 9
  {
    if k < 2 then VERTICAL_BLINKER
    else if k < 5 then [Empty, Dead, Empty, Empty, Alive, Empty, Empty, Alive, Empty]
    else if k < 8 then [Empty, Dead, Empty, Empty, Dead, Empty, Empty, Alive, Empty]
    else [Empty, Dead, Empty, Empty, Dead, Empty, Empty, Dead, Empty]
  }

  /** One step of the walk over the top row: its middle cell, the top of
      the column, sees one live neighbour and dies. */
  lemma BlinkerStepTop(k: nat)
    requires 0 <= k < 3 && Table(SMALL_TABLE, 9)
    requires Sweep(SMALL_TABLE, VERTICAL_BLINKER, k) == BlinkerStage(k)
    ensures Sweep(SMALL_TABLE, VERTICAL_BLINKER, k + 1) == BlinkerStage(k + 1)
  {
    SlotCount(BlinkerStage(k), k);
    if k == 0 {
      SmallStep(VERTICAL_BLINKER, 0, 2, BlinkerStage(0), BlinkerStage(1));
    } else if k == 1 {
      SmallStep(VERTICAL_BLINKER, 1, 1, BlinkerStage(1), BlinkerStage(2));
    } else {
      SmallStep(VERTICAL_BLINKER, 2, 1, BlinkerStage(2), BlinkerStage(3));
    }
  }

  /** One step of the walk over the middle row: the centre of the column
      now sees the dead cell above it and dies, and no cell beside it is born. */
  lemma BlinkerStepMiddle(k: nat)
    requires 3 <= k < 6 && Table(SMALL_TABLE, 9)
    requires Sweep(SMALL_TABLE, VERTICAL_BLINKER, k) == BlinkerStage(k)
    ensures Sweep(SMALL_TABLE, VERTICAL_BLINKER, k + 1) == BlinkerStage(k + 1)
  {
    SlotCount(BlinkerStage(k), k);
    if k == 3 {
      SmallStep(VERTICAL_BLINKER, 3, 2, BlinkerStage(3), BlinkerStage(4));
    } else if k == 4 {
      SmallStep(VERTICAL_BLINKER, 4, 1, BlinkerStage(4), BlinkerStage(5));
    } else {
      SmallStep(VERTICAL_BLINKER, 5, 1, BlinkerStage(5), BlinkerStage(6));
    }
  }

  /** One step of the walk over the bottom row: the last cell of the column
      has no live neighbour left and dies. */
  lemma BlinkerStepBottom(k: nat)
    requires 6 <= k < 9 && Table(SMALL_TABLE, 9)
    requires Sweep(SMALL_TABLE, VERTICAL_BLINKER, k) == BlinkerStage(k)
    ensures Sweep(SMALL_TABLE, VERTICAL_BLINKER, k + 1) == BlinkerStage(k + 1)
  {
    SlotCount(BlinkerStage(k), k);
    if k == 6 {
      SmallStep(VERTICAL_BLINKER, 6, 1, BlinkerStage(6), BlinkerStage(7));
    } else if k == 7 {
      SmallStep(VERTICAL_BLINKER, 7, 0, BlinkerStage(7), BlinkerStage(8));
    } else {
      SmallStep(VERTICAL_BLINKER, 8, 0, BlinkerStage(8), BlinkerStage(9));
    }
  }

  /** The walk over the vertical blinker, slot by slot. */
  lemma {:induction false} BlinkerWalk(k: nat)
    requires k <= 9
    ensures Table(SMALL_TABLE, 9)
    ensures Sweep(SMALL_TABLE, VERTICAL_BLINKER, k) == BlinkerStage(k)
  {
    SmallTableInRange();
    if k > 0 {
      BlinkerWalk(k - 1);
      if k <= 3 {
        BlinkerStepTop(k - 1);
      } else if k <= 6 {
        BlinkerStepMiddle(k - 1);
      } else {
        BlinkerStepBottom(k - 1);
      }
    }
  }

  /** The in-place walk of the engine over the field's own table (see
      SmallFieldTable) kills the whole column and leaves no Alive cell, so it
      differs from the synchronous generation on this field and the
      generation step reports the end of the game. */
  lemma BlinkerSweep()
    ensures Table(SMALL_TABLE, 9)
    ensures Sweep(SMALL_TABLE, VERTICAL_BLINKER, 9)
      == [Empty, Dead, Empty, Empty, Dead, Empty, Empty, Dead, Empty]
    ensures NoneAlive(Sweep(SMALL_TABLE, VERTICAL_BLINKER, 9))
    ensures Sweep(SMALL_TABLE, VERTICAL_BLINKER, 9) != Generation(SMALL_TABLE, VERTICAL_BLINKER)
  {
    BlinkerWalk(9);
    BlinkerGeneration();
    assert Sweep(SMALL_TABLE, VERTICAL_BLINKER, 9)[3] != Generation(SMALL_TABLE, VERTICAL_BLINKER)[3];
  }
}
