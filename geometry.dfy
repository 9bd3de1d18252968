/**
 * Row-major index geometry of the field: the nine position classes, the
 * neighbour lists of the bordered field and of the torus, and the facts
 * about index arithmetic that the proofs about them rest on.
 */
module Geometry {

  const FIELD_TYPE_WITH_BORDERS: int := 1
  const FIELD_TYPE_TOR: int := 2
  const MAX_CELL_NEIGHBOURS: int := 8

  datatype Position =
    | LeftTopCorner | RightTopCorner | LeftBottomCorner | RightBottomCorner
    | TopEdge | BottomEdge | LeftEdge | RightEdge | Inner

  function PositionCode(p: Position): (n: int)
    ensures 0 <= n <= 8
  {
    match p
    case LeftTopCorner => 0
    case RightTopCorner => 1
    case LeftBottomCorner => 2
    case RightBottomCorner => 3
    case TopEdge => 4
    case BottomEdge => 5
    case LeftEdge => 6
    case RightEdge => 7
    case Inner => 8
  }

  /** The nine position codes are pairwise distinct. */
  lemma PositionCodesDistinct(p: Position, q: Position)
    ensures PositionCode(p) == PositionCode(q) ==> p == q
  {
  }

  /** The row-major index of the cell in row r and column c. */
  function Idx(w: int, r: int, c: int): int
  {
    r * w + c
  }

  /** Classification of a row-major index, corners first, then the left and
      right edges, then the top and bottom edges. */
  function CellPosByIdx(w: int, h: int, i: int): Position
    requires w >= 1 && h >= 1 && 0 <= i < w * h
  {
    var n := w * h;
    if i == 0 then LeftTopCorner
    else if i == w - 1 then RightTopCorner
    else if i == n - 1 then RightBottomCorner
    else if i == n - w then LeftBottomCorner
    else if i % w == 0 then LeftEdge
    else if (i + 1) % w == 0 then RightEdge
    else if 0 < i < w - 1 then TopEdge
    else if n - w < i < n - 1 then BottomEdge
    else Inner
  }

  // ---------------------------------------------------------------------
  // Index arithmetic

  lemma MulStep(d: int, w: int)
    requires -1 <= d <= 1
    ensures d * w == (if d == -1 then -w else if d == 0 then 0 else w)
  {
  }

  lemma MulMonotone(a: int, b: int, w: int)
    requires a <= b && w >= 0
    ensures a * w <= b * w
  {
    assert b * w - a * w == (b - a) * w;
  }

  /** Row and column of an in-grid cell are recovered from its index, and
      the index lies in [0, w * h). */
  lemma IdxFacts(w: int, h: int, r: int, c: int)
    requires w >= 1 && 0 <= r < h && 0 <= c < w
    ensures 0 <= Idx(w, r, c) < w * h
    ensures Idx(w, r, c) / w == r && Idx(w, r, c) % w == c
  {
    MulMonotone(0, r, w);
    MulMonotone(r, h - 1, w);
    var j := Idx(w, r, c);
    var q, m := j / w, j % w;
    assert j == q * w + m;
    if q < r {
      MulMonotone(q + 1, r, w);
      assert false;
    } else if q > r {
      MulMonotone(r + 1, q, w);
      assert false;
    }
  }

  /** Every index of the grid is the index of its row and column. */
  lemma Decompose(w: int, h: int, i: int)
    requires w >= 1 && h >= 1 && 0 <= i < w * h
    ensures 0 <= i / w < h && 0 <= i % w < w
    ensures i == Idx(w, i / w, i % w)
  {
    var q := i / w;
    if q >= h {
      MulMonotone(h, q, w);
      assert false;
    }
  }

  /** Index ordering is lexicographic in (row, column). */
  lemma IdxOrder(w: int, r1: int, c1: int, r2: int, c2: int)
    requires w >= 1 && 0 <= c1 < w && 0 <= c2 < w && r1 < r2
    ensures Idx(w, r1, c1) < Idx(w, r2, c2)
  {
    MulMonotone(r1 + 1, r2, w);
  }


  /** Moving from (r0, c0) to (r1, c1) changes the index by whole rows and
      columns. */
  lemma IdxDiff(w: int, r0: int, c0: int, r1: int, c1: int)
    ensures Idx(w, r1, c1) == Idx(w, r0, c0) + (r1 - r0) * w + (c1 - c0)
  {
    assert r1 * w - r0 * w == (r1 - r0) * w;
  }

  // ---------------------------------------------------------------------
  // Position classes

  /** For a grid of at least 2 x 2 cells the index chain classifies a cell by
      its row and column: the four corners, the non-corner cells of each of
      the four borders, and the inner cells. */
  lemma CellPosByIdxAt(w: int, h: int, r: int, c: int)
    requires w >= 2 && h >= 2 && 0 <= r < h && 0 <= c < w
    ensures 0 <= Idx(w, r, c) < w * h
    ensures var p := CellPosByIdx(w, h, Idx(w, r, c));
      && (p == LeftTopCorner <==> r == 0 && c == 0)
      && (p == RightTopCorner <==> r == 0 && c == w - 1)
      && (p == LeftBottomCorner <==> r == h - 1 && c == 0)
      && (p == RightBottomCorner <==> r == h - 1 && c == w - 1)
      && (p == TopEdge <==> r == 0 && 0 < c < w - 1)
      && (p == BottomEdge <==> r == h - 1 && 0 < c < w - 1)
      && (p == LeftEdge <==> 0 < r < h - 1 && c == 0)
      && (p == RightEdge <==> 0 < r < h - 1 && c == w - 1)
      && (p == Inner <==> 0 < r < h - 1 && 0 < c < w - 1)
  {
    ChainTests(w, h, r, c);
  }

  /** What each test of the classification chain says about the row and the
      column of the cell. */
  lemma ChainTests(w: int, h: int, r: int, c: int)
    requires w >= 2 && h >= 2 && 0 <= r < h && 0 <= c < w
    ensures var i, n := Idx(w, r, c), w * h;
      && 0 <= i < n
      && (i == 0 <==> r == 0 && c == 0)
      && (i == w - 1 <==> r == 0 && c == w - 1)
      && (i == n - 1 <==> r == h - 1 && c == w - 1)
      && (i == n - w <==> r == h - 1 && c == 0)
      && (i % w == 0 <==> c == 0)
      && ((i + 1) % w == 0 <==> c == w - 1)
      && (0 < i < w - 1 <==> r == 0 && 0 < c < w - 1)
      && (n - w < i < n - 1 <==> r == h - 1 && 0 < c < w - 1)
  {
    var i, n := Idx(w, r, c), w * h;
    assert 0 <= i < n && i / w == r && i % w == c by { IdxFacts(w, h, r, c); }
    assert n - w >= w by { MulMonotone(2, h, w); }
    // Rows above the last start before n - w; rows below the first start
    // after w - 1.
    assert r > 0 ==> i > w - 1 by {
      if r > 0 { IdxOrder(w, 0, w - 1, r, c); }
    }
    assert r < h - 1 ==> i < n - w by {
      if r < h - 1 {
        IdxOrder(w, r, c, h - 1, 0);
        assert (h - 1) * w == n - w;
      }
    }
    assert r == 0 ==> i == c;
    assert r == h - 1 ==> i == n - w + c by {
      assert (h - 1) * w == n - w;
    }
    RightEdgeTest(w, h, r, c);
    ChainOrder(w, h, r, c, i, n);
  }

  /** The right-edge test looks at the column of the next index: it is 0
      exactly when the cell is in the last column. */
  lemma RightEdgeTest(w: int, h: int, r: int, c: int)
    requires w >= 2 && 0 <= r < h && 0 <= c < w
    ensures (Idx(w, r, c) + 1) % w == 0 <==> c == w - 1
  {
    if c < w - 1 {
      IdxFacts(w, h + 1, r, c + 1);
    } else {
      IdxFacts(w, h + 1, r + 1, 0);
    }
  }

  /** The order facts of ChainTests, on plain numbers: i is the index of row
      r, column c in a grid of n cells whose last row starts at n - w. */
  lemma ChainOrder(w: int, h: int, r: int, c: int, i: int, n: int)
    requires w >= 2 && h >= 2 && 0 <= r < h && 0 <= c < w && n - w >= w
    requires r == 0 ==> i == c
    requires r == h - 1 ==> i == n - w + c
    requires r > 0 ==> i > w - 1
    requires r < h - 1 ==> i < n - w
    ensures i == 0 <==> r == 0 && c == 0
    ensures i == w - 1 <==> r == 0 && c == w - 1
    ensures i == n - 1 <==> r == h - 1 && c == w - 1
    ensures i == n - w <==> r == h - 1 && c == 0
    ensures 0 < i < w - 1 <==> r == 0 && 0 < c < w - 1
    ensures n - w < i < n - 1 <==> r == h - 1 && 0 < c < w - 1
  {
  }


  /** The index form of CellPosByIdxAt: every index in [0, w * h) gets the
      class of its row i / w and column i % w. */
  lemma CellPosByIdxCorrect(w: int, h: int, i: int)
    requires w >= 2 && h >= 2 && 0 <= i < w * h
    ensures var r, c, p := i / w, i % w, CellPosByIdx(w, h, i);
      && (p == LeftTopCorner <==> r == 0 && c == 0)
      && (p == RightTopCorner <==> r == 0 && c == w - 1)
      && (p == LeftBottomCorner <==> r == h - 1 && c == 0)
      && (p == RightBottomCorner <==> r == h - 1 && c == w - 1)
      && (p == TopEdge <==> r == 0 && 0 < c < w - 1)
      && (p == BottomEdge <==> r == h - 1 && 0 < c < w - 1)
      && (p == LeftEdge <==> 0 < r < h - 1 && c == 0)
      && (p == RightEdge <==> 0 < r < h - 1 && c == w - 1)
      && (p == Inner <==> 0 < r < h - 1 && 0 < c < w - 1)
  {
    Decompose(w, h, i);
    CellPosByIdxAt(w, h, i / w, i % w);
  }

  // ---------------------------------------------------------------------
  // Neighbour lists

  /** The neighbour list of the field with borders, in the order the slots
      are listed for each position class. */
  function BorderedNeighbours(w: int, h: int, i: int): seq<int>
    requires w >= 2 && h >= 2 && 0 <= i < w * h
  {
    var n := w * h;
    match CellPosByIdx(w, h, i)
    case LeftTopCorner => [1, w, w + 1]
    case RightTopCorner => [w - 1 - 1, w - 1 + w, w - 1 + w - 1]
    case LeftBottomCorner =>
      var lbc := n - w;
      [lbc + 1, lbc - w, lbc - w + 1]
    case RightBottomCorner => [n - 1 - 1, n - 1 - w, n - 1 - w - 1]
    case TopEdge => [i - 1, i + 1, i - 1 + w, i + w, i + 1 + w]
    case BottomEdge => [i - 1, i + 1, i - 1 - w, i - w, i + 1 - w]
    case LeftEdge => [i - w, i + w, i - w + 1, i + 1, i + w + 1]
    case RightEdge => [i - w, i + w, i - w - 1, i - 1, i + w - 1]
    case Inner => [i - 1, i + 1, i - w, i + w, i - w - 1, i - w + 1, i + w - 1, i + w + 1]
  }

  /** The neighbour list of the toroidal field: the eight slots one king's
      move away when moves leaving the grid wrap round to the opposite edge,
      listed in an order fixed for each position class. */
  function TorusNeighbours(w: int, h: int, i: int): seq<int>
    requires w >= 2 && h >= 2 && 0 <= i < w * h
  {
    var n := w * h;
    match CellPosByIdx(w, h, i)
    case LeftTopCorner =>
      [1, w - 1, w - 1 + w, n - 1, n - w, n - w + 1, w, w + 1]
    case RightTopCorner =>
      [w - 1 - 1, w - 1 + w, w - 1 + w - 1, 0, w, n - w, n - 1, n - 1 - 1]
    case LeftBottomCorner =>
      var lbc := n - w;
      [lbc + 1, lbc - w, lbc - w + 1, 0, 1, w - 1, n - 1, n - 1 - w]
    case RightBottomCorner =>
      var rbc := n - 1;
      [rbc - 1, rbc - w, rbc - w - 1, rbc + 1 - w - w, rbc + 1 - w, 0, w - 1, w - 1 - 1]
    case TopEdge =>
      [i - 1, i + 1, i - 1 + w, i + w, i + 1 + w, n - w + i - 1, n - w + i, n - w + i + 1]
    case BottomEdge =>
      [i - 1, i + 1, i - 1 - w, i - w, i + 1 - w, i - (n - w), i - (n - w) - 1, i - (n - w) + 1]
    case LeftEdge =>
      [i - w, i + w, i - w + 1, i + 1, i + w + 1, i + w - 1, i + w - 1 + w, i + w - 1 - w]
    case RightEdge =>
      [i - w, i + w, i - w - 1, i - 1, i + w - 1, i - w + 1, i - w + 1 - w, i - w + 1 + w]
    case Inner =>
      [i - 1, i + 1, i - w, i + w, i - w - 1, i - w + 1, i + w - 1, i + w + 1]
  }

  /** Cell j is a Chebyshev-distance-1 neighbour of cell i on the field with
      borders: a different cell at most one row and one column away. */
  predicate Adjacent(w: int, i: int, j: int)
    requires w >= 1
  {
    j != i && -1 <= j / w - i / w <= 1 && -1 <= j % w - i % w <= 1
  }

  predicate Distinct<T(==)>(s: seq<T>)
  {
    forall a, b :: 0 <= a < b < |s| ==> s[a] != s[b]
  }

  /** The number of bordered neighbours of a position class. */
  function BorderedCount(p: Position): nat
  {
    match p
    case LeftTopCorner => 3
    case RightTopCorner => 3
    case LeftBottomCorner => 3
    case RightBottomCorner => 3
    case Inner => 8
    case _ => 5
  }

  /** j is the cell of i shifted by (dr, dc) without leaving the grid. */
  lemma Shifted(w: int, h: int, i: int, dr: int, dc: int, j: int)
    requires w >= 1 && h >= 1 && 0 <= i < w * h
    requires -1 <= dr <= 1 && -1 <= dc <= 1
    requires 0 <= i / w + dr < h && 0 <= i % w + dc < w
    requires j == i + dr * w + dc
    ensures 0 <= j < w * h && j / w == i / w + dr && j % w == i % w + dc
  {
    var r, c := i / w, i % w;
    assert j == Idx(w, r + dr, c + dc) by {
      Decompose(w, h, i);
      IdxDiff(w, r, c, r + dr, c + dc);
    }
    IdxFacts(w, h, r + dr, c + dc);
  }

  /** An in-grid cell at most one row and column away from i lies at one of
      the eight offsets dr * w + dc from it. */
  lemma AdjacentOffset(w: int, h: int, i: int, j: int)
    requires w >= 1 && h >= 1 && 0 <= i < w * h && 0 <= j < w * h && Adjacent(w, i, j)
    ensures var dr, dc := j / w - i / w, j % w - i % w;
      j == i + (if dr == -1 then -w else if dr == 0 then 0 else w) + dc
  {
    Decompose(w, h, i);
    Decompose(w, h, j);
    var dr := j / w - i / w;
    MulStep(dr, w);
    assert dr * w == (j / w) * w - (i / w) * w;
  }

  /** The bordered list is exactly the set of in-grid cells at Chebyshev
      distance 1, without repetitions: 3 cells at a corner, 5 on the rest of
      the border, 8 inside. */
  lemma BorderedNeighboursExact(w: int, h: int, i: int)
    requires w >= 2 && h >= 2 && 0 <= i < w * h
    ensures var nb := BorderedNeighbours(w, h, i);
      && (forall j :: j in nb <==> 0 <= j < w * h && Adjacent(w, i, j))
      && Distinct(nb)
      && |nb| == BorderedCount(CellPosByIdx(w, h, i))
  {
    BorderedSound(w, h, i);
    BorderedComplete(w, h, i);
  }

  /** Every entry of i's bordered list is an in-grid cell adjacent to i, and
      no entry is repeated. */
  lemma BorderedSound(w: int, h: int, i: int)
    requires w >= 2 && h >= 2 && 0 <= i < w * h
    ensures BorderedSoundAt(w, h, i)
  {
    match CellPosByIdx(w, h, i)
    case LeftTopCorner =>
      assert i == 0 && i / w == 0 && i % w == 0 by { CellPosByIdxCorrect(w, h, i); }
      BorderedLeftTopCorner(w, h, i);
    case RightTopCorner =>
      assert i == w - 1 && i / w == 0 && i % w == w - 1 by { CellPosByIdxCorrect(w, h, i); }
      BorderedRightTopCorner(w, h, i);
    case LeftBottomCorner =>
      assert i == w * h - w && i / w == h - 1 && i % w == 0 by { CellPosByIdxCorrect(w, h, i); }
      BorderedLeftBottomCorner(w, h, i);
    case RightBottomCorner =>
      assert i == w * h - 1 && i / w == h - 1 && i % w == w - 1 by { CellPosByIdxCorrect(w, h, i); }
      BorderedRightBottomCorner(w, h, i);
    case TopEdge =>
      assert i / w == 0 && 0 < i % w < w - 1 by { CellPosByIdxCorrect(w, h, i); }
      BorderedTopEdge(w, h, i);
    case BottomEdge =>
      assert i / w == h - 1 && 0 < i % w < w - 1 by { CellPosByIdxCorrect(w, h, i); }
      BorderedBottomEdge(w, h, i);
    case LeftEdge =>
      assert 0 < i / w < h - 1 && i % w == 0 by { CellPosByIdxCorrect(w, h, i); }
      BorderedLeftEdge(w, h, i);
    case RightEdge =>
      assert 0 < i / w < h - 1 && i % w == w - 1 by { CellPosByIdxCorrect(w, h, i); }
      BorderedRightEdge(w, h, i);
    case Inner =>
      assert 0 < i / w < h - 1 && 0 < i % w < w - 1 by { CellPosByIdxCorrect(w, h, i); }
      BorderedInner(w, h, i);
  }

  predicate BorderedSoundAt(w: int, h: int, i: int)
    requires w >= 2 && h >= 2 && 0 <= i < w * h
  {
    var nb := BorderedNeighbours(w, h, i);
    ListSound(w, h, i, nb) && |nb| == BorderedCount(CellPosByIdx(w, h, i))
  }

  /** Every entry of nb is an in-grid cell adjacent to i, and none repeats. */
  predicate ListSound(w: int, h: int, i: int, nb: seq<int>)
    requires w >= 1
  {
    (forall j :: j in nb ==> 0 <= j < w * h && Adjacent(w, i, j)) && Distinct(nb)
  }

  lemma BorderedLeftTopCorner(w: int, h: int, i: int)
    requires w >= 2 && h >= 2 && 0 <= i < w * h && i == 0 && i / w == 0 && i % w == 0
    ensures ListSound(w, h, i, [1, w, w + 1])
  {
    Shifted(w, h, i, 0, 1, 1);
    Shifted(w, h, i, 1, 0, w);
    Shifted(w, h, i, 1, 1, w + 1);
  }

  lemma BorderedRightTopCorner(w: int, h: int, i: int)
    requires w >= 2 && h >= 2 && 0 <= i < w * h && i == w - 1 && i / w == 0 && i % w == w - 1
    ensures ListSound(w, h, i, [w - 1 - 1, w - 1 + w, w - 1 + w - 1])
  {
    Shifted(w, h, i, 0, -1, w - 1 - 1);
    Shifted(w, h, i, 1, 0, w - 1 + w);
    Shifted(w, h, i, 1, -1, w - 1 + w - 1);
  }

  lemma BorderedLeftBottomCorner(w: int, h: int, i: int)
    requires w >= 2 && h >= 2 && 0 <= i < w * h && i == w * h - w && i / w == h - 1 && i % w == 0
    ensures ListSound(w, h, i, [w * h - w + 1, w * h - w - w, w * h - w - w + 1])
  {
    Shifted(w, h, i, 0, 1, w * h - w + 1);
    Shifted(w, h, i, -1, 0, w * h - w - w);
    Shifted(w, h, i, -1, 1, w * h - w - w + 1);
  }

  lemma BorderedRightBottomCorner(w: int, h: int, i: int)
    requires w >= 2 && h >= 2 && 0 <= i < w * h && i == w * h - 1 && i / w == h - 1 && i % w == w - 1
    ensures ListSound(w, h, i, [w * h - 1 - 1, w * h - 1 - w, w * h - 1 - w - 1])
  {
    Shifted(w, h, i, 0, -1, w * h - 1 - 1);
    Shifted(w, h, i, -1, 0, w * h - 1 - w);
    Shifted(w, h, i, -1, -1, w * h - 1 - w - 1);
  }

  lemma BorderedTopEdge(w: int, h: int, i: int)
    requires w >= 2 && h >= 2 && 0 <= i < w * h && i / w == 0 && 0 < i % w < w - 1
    ensures ListSound(w, h, i, [i - 1, i + 1, i - 1 + w, i + w, i + 1 + w])
  {
    Shifted(w, h, i, 0, -1, i - 1);
    Shifted(w, h, i, 0, 1, i + 1);
    Shifted(w, h, i, 1, -1, i - 1 + w);
    Shifted(w, h, i, 1, 0, i + w);
    Shifted(w, h, i, 1, 1, i + 1 + w);
  }

  lemma BorderedBottomEdge(w: int, h: int, i: int)
    requires w >= 2 && h >= 2 && 0 <= i < w * h && i / w == h - 1 && 0 < i % w < w - 1
    ensures ListSound(w, h, i, [i - 1, i + 1, i - 1 - w, i - w, i + 1 - w])
  {
    Shifted(w, h, i, 0, -1, i - 1);
    Shifted(w, h, i, 0, 1, i + 1);
    Shifted(w, h, i, -1, -1, i - 1 - w);
    Shifted(w, h, i, -1, 0, i - w);
    Shifted(w, h, i, -1, 1, i + 1 - w);
  }

  lemma BorderedLeftEdge(w: int, h: int, i: int)
    requires w >= 2 && h >= 2 && 0 <= i < w * h && 0 < i / w < h - 1 && i % w == 0
    ensures ListSound(w, h, i, [i - w, i + w, i - w + 1, i + 1, i + w + 1])
  {
    Shifted(w, h, i, -1, 0, i - w);
    Shifted(w, h, i, 1, 0, i + w);
    Shifted(w, h, i, -1, 1, i - w + 1);
    Shifted(w, h, i, 0, 1, i + 1);
    Shifted(w, h, i, 1, 1, i + w + 1);
  }

  lemma BorderedRightEdge(w: int, h: int, i: int)
    requires w >= 2 && h >= 2 && 0 <= i < w * h && 0 < i / w < h - 1 && i % w == w - 1
    ensures ListSound(w, h, i, [i - w, i + w, i - w - 1, i - 1, i + w - 1])
  {
    Shifted(w, h, i, -1, 0, i - w);
    Shifted(w, h, i, 1, 0, i + w);
    Shifted(w, h, i, -1, -1, i - w - 1);
    Shifted(w, h, i, 0, -1, i - 1);
    Shifted(w, h, i, 1, -1, i + w - 1);
  }

  lemma BorderedInner(w: int, h: int, i: int)
    requires w >= 2 && h >= 2 && 0 <= i < w * h && 0 < i / w < h - 1 && 0 < i % w < w - 1
    ensures ListSound(w, h, i, [i - 1, i + 1, i - w, i + w, i - w - 1, i - w + 1, i + w - 1, i + w + 1])
  {
    BorderedInnerAdjacent(w, h, i);
    InnerDistinct(w, i);
  }

  /** The eight offsets of an inner cell are distinct once rows are at least
      three cells long. */
  lemma InnerDistinct(w: int, i: int)
    requires w >= 3
    ensures Distinct([i - 1, i + 1, i - w, i + w, i - w - 1, i - w + 1, i + w - 1, i + w + 1])
  {
  }

  lemma BorderedInnerAdjacent(w: int, h: int, i: int)
    requires w >= 2 && h >= 2 && 0 <= i < w * h && 0 < i / w < h - 1 && 0 < i % w < w - 1
    ensures forall j :: j in [i - 1, i + 1, i - w, i + w, i - w - 1, i - w + 1, i + w - 1, i + w + 1] ==> 0 <= j < w * h && Adjacent(w, i, j)
  {
    Shifted(w, h, i, 0, -1, i - 1);
    Shifted(w, h, i, 0, 1, i + 1);
    Shifted(w, h, i, -1, 0, i - w);
    Shifted(w, h, i, 1, 0, i + w);
    Shifted(w, h, i, -1, -1, i - w - 1);
    Shifted(w, h, i, -1, 1, i - w + 1);
    Shifted(w, h, i, 1, -1, i + w - 1);
    Shifted(w, h, i, 1, 1, i + w + 1);
  }


  /** Every in-grid cell adjacent to i is on i's bordered list. */
  lemma BorderedComplete(w: int, h: int, i: int)
    requires w >= 2 && h >= 2 && 0 <= i < w * h
    ensures forall j :: 0 <= j < w * h && Adjacent(w, i, j) ==> j in BorderedNeighbours(w, h, i)
  {
    forall j | 0 <= j < w * h && Adjacent(w, i, j)
      ensures j in BorderedNeighbours(w, h, i)
    {
      CellPosByIdxCorrect(w, h, i);
      AdjacentOffset(w, h, i, j);
      Decompose(w, h, j);
    }
  }

  // ---------------------------------------------------------------------
  // The torus

  /** x taken modulo n when x is at most one step outside [0, n). */
  lemma WrapMod(x: int, n: int)
    requires n >= 2 && -1 <= x <= n
    ensures x % n == (if x == -1 then n - 1 else if x == n then 0 else x)
  {
    if x == -1 {
      assert x == (-1) * n + (n - 1);
    } else if x == n {
      assert x == 1 * n + 0;
    }
  }

  /** The cell reached from i by moving dr rows and dc columns on the torus:
      row (r + dr) mod h and column (c + dc) mod w, with r, c the row and
      column of i. */
  function Wrap(w: int, h: int, i: int, dr: int, dc: int): (j: int)
    requires w >= 1 && h >= 1 && 0 <= i < w * h
    ensures 0 <= j < w * h
  {
    IdxFacts(w, h, (i / w + dr) % h, (i % w + dc) % w);
    Idx(w, (i / w + dr) % h, (i % w + dc) % w)
  }

  /** The row and the column a move lands on. */
  lemma WrapRowCol(w: int, h: int, i: int, dr: int, dc: int)
    requires w >= 1 && h >= 1 && 0 <= i < w * h
    ensures var j := Wrap(w, h, i, dr, dc);
      j / w == (i / w + dr) % h && j % w == (i % w + dc) % w
  {
    IdxFacts(w, h, (i / w + dr) % h, (i % w + dc) % w);
  }

  /** A king's move on the torus: one row and one column step of at most
      one, not both zero. */
  predicate UnitOffset(dr: int, dc: int)
  {
    -1 <= dr <= 1 && -1 <= dc <= 1 && (dr != 0 || dc != 0)
  }

  /** j is one king's move away from i on the w x h torus. */
  predicate TorusAdjacent(w: int, h: int, i: int, j: int)
    requires w >= 1 && h >= 1 && 0 <= i < w * h
  {
    exists dr, dc :: -1 <= dr <= 1 && -1 <= dc <= 1 && UnitOffset(dr, dc) && j == Wrap(w, h, i, dr, dc)
  }

  /** A king's move never lands on the cell it starts from, even on a torus
      only two cells wide or high. */
  lemma WrapNotSelf(w: int, h: int, i: int, dr: int, dc: int)
    requires w >= 2 && h >= 2 && 0 <= i < w * h && UnitOffset(dr, dc)
    ensures Wrap(w, h, i, dr, dc) != i
  {
    WrapRowCol(w, h, i, dr, dc);
    Decompose(w, h, i);
    WrapMod(i / w + dr, h);
    WrapMod(i % w + dc, w);
  }

  /** On a torus of at least 3 x 3 cells different moves reach different
      cells. */
  lemma WrapInjective(w: int, h: int, i: int, dr: int, dc: int, er: int, ec: int)
    requires w >= 3 && h >= 3 && 0 <= i < w * h
    requires -1 <= dr <= 1 && -1 <= dc <= 1 && -1 <= er <= 1 && -1 <= ec <= 1
    requires Wrap(w, h, i, dr, dc) == Wrap(w, h, i, er, ec)
    ensures dr == er && dc == ec
  {
    WrapRowCol(w, h, i, dr, dc);
    WrapRowCol(w, h, i, er, ec);
    Decompose(w, h, i);
    WrapMod(i / w + dr, h); WrapMod(i / w + er, h);
    WrapMod(i % w + dc, w); WrapMod(i % w + ec, w);
  }

  /** Moving back by the opposite offset returns to the start: the torus
      neighbourhood is symmetric. */
  lemma WrapInverse(w: int, h: int, i: int, dr: int, dc: int)
    requires w >= 2 && h >= 2 && 0 <= i < w * h && -1 <= dr <= 1 && -1 <= dc <= 1
    ensures Wrap(w, h, Wrap(w, h, i, dr, dc), -dr, -dc) == i
  {
    var j := Wrap(w, h, i, dr, dc);
    WrapRowCol(w, h, i, dr, dc);
    WrapRowCol(w, h, j, -dr, -dc);
    Decompose(w, h, i);
    WrapMod(i / w + dr, h); WrapMod(i % w + dc, w);
    WrapMod(j / w - dr, h); WrapMod(j % w - dc, w);
    IdxFacts(w, h, i / w, i % w);
  }

  /** The index change of a column step from column c: one cell, except
      that leaving the first or last column jumps w - 1 cells the other way. */
  function ColShift(w: int, c: int, dc: int): int
  {
    if c + dc < 0 then w - 1 else if c + dc >= w then 1 - w else dc
  }

  /** A move from i as a plain index offset: a row step adds or removes w,
      except that leaving the top or bottom row jumps by n - w the other way;
      the column step is ColShift. */
  lemma WrapShift(w: int, h: int, i: int, dr: int, dc: int)
    requires w >= 2 && h >= 2 && 0 <= i < w * h && -1 <= dr <= 1 && -1 <= dc <= 1
    ensures Wrap(w, h, i, dr, dc) == i
      + (if i / w + dr < 0 then w * h - w else if i / w + dr >= h then w - w * h else dr * w)
      + ColShift(w, i % w, dc)
  {
    Decompose(w, h, i);
    if i / w + dr < 0 {
      WrapFromTop(w, h, i, dc);
    } else if i / w + dr >= h {
      WrapFromBottom(w, h, i, dc);
    } else {
      WrapWithin(w, h, i, dr, dc);
    }
  }

  lemma WrapColumn(w: int, c: int, dc: int)
    requires w >= 2 && 0 <= c < w && -1 <= dc <= 1
    ensures (c + dc) % w == c + ColShift(w, c, dc)
  {
    WrapMod(c + dc, w);
  }

  lemma WrapFromTop(w: int, h: int, i: int, dc: int)
    requires w >= 2 && h >= 2 && 0 <= i < w * h && i / w == 0 && -1 <= dc <= 1
    ensures Wrap(w, h, i, -1, dc) == i + (w * h - w) + ColShift(w, i % w, dc)
  {
    var c := i % w;
    assert i == c by {
      Decompose(w, h, i);
    }
    assert (h - 1) * w == w * h - w;
    assert (i / w - 1) % h == h - 1 by {
      WrapMod(-1, h);
    }
    assert (c + dc) % w == c + ColShift(w, c, dc) by {
      WrapColumn(w, c, dc);
    }
    assert Wrap(w, h, i, -1, dc) == Idx(w, h - 1, c + ColShift(w, c, dc));
  }

  lemma WrapFromBottom(w: int, h: int, i: int, dc: int)
    requires w >= 2 && h >= 2 && 0 <= i < w * h && i / w == h - 1 && -1 <= dc <= 1
    ensures Wrap(w, h, i, 1, dc) == i - (w * h - w) + ColShift(w, i % w, dc)
  {
    var c := i % w;
    assert i == (h - 1) * w + c by {
      Decompose(w, h, i);
    }
    assert (h - 1) * w == w * h - w;
    assert (i / w + 1) % h == 0 by {
      WrapMod(h, h);
    }
    assert (c + dc) % w == c + ColShift(w, c, dc) by {
      WrapColumn(w, c, dc);
    }
    assert Wrap(w, h, i, 1, dc) == Idx(w, 0, c + ColShift(w, c, dc));
  }

  lemma WrapWithin(w: int, h: int, i: int, dr: int, dc: int)
    requires w >= 2 && h >= 2 && 0 <= i < w * h && -1 <= dr <= 1 && -1 <= dc <= 1
    requires 0 <= i / w + dr < h
    ensures Wrap(w, h, i, dr, dc) == i + dr * w + ColShift(w, i % w, dc)
  {
    var r, c := i / w, i % w;
    var c1 := c + ColShift(w, c, dc);
    assert (c + dc) % w == c1 by { WrapColumn(w, c, dc); }
    assert (r + dr) % h == r + dr by { WrapMod(r + dr, h); }
    assert Wrap(w, h, i, dr, dc) == Idx(w, r + dr, c1);
    assert Idx(w, r + dr, c1) == Idx(w, r, c) + dr * w + (c1 - c) by { IdxDiff(w, r, c, r + dr, c1); }
    assert i == Idx(w, r, c) by { Decompose(w, h, i); }
  }

  /** The offsets, in list order, at which the toroidal list of each
      position class names its neighbours. */
  function TorusOffsets(p: Position): (offs: seq<(int, int)>)
    ensures |offs| == MAX_CELL_NEIGHBOURS
  {
    match p
    case LeftTopCorner => [(0, 1), (0, -1), (1, -1), (-1, -1), (-1, 0), (-1, 1), (1, 0), (1, 1)]
    case RightTopCorner => [(0, -1), (1, 0), (1, -1), (0, 1), (1, 1), (-1, 1), (-1, 0), (-1, -1)]
    case LeftBottomCorner => [(0, 1), (-1, 0), (-1, 1), (1, 0), (1, 1), (1, -1), (0, -1), (-1, -1)]
    case RightBottomCorner => [(0, -1), (-1, 0), (-1, -1), (-1, 1), (0, 1), (1, 1), (1, 0), (1, -1)]
    case TopEdge => [(0, -1), (0, 1), (1, -1), (1, 0), (1, 1), (-1, -1), (-1, 0), (-1, 1)]
    case BottomEdge => [(0, -1), (0, 1), (-1, -1), (-1, 0), (-1, 1), (1, 0), (1, -1), (1, 1)]
    case LeftEdge => [(-1, 0), (1, 0), (-1, 1), (0, 1), (1, 1), (0, -1), (1, -1), (-1, -1)]
    case RightEdge => [(-1, 0), (1, 0), (-1, -1), (0, -1), (1, -1), (0, 1), (-1, 1), (1, 1)]
    case Inner => [(0, -1), (0, 1), (-1, 0), (1, 0), (-1, -1), (-1, 1), (1, -1), (1, 1)]
  }

  /** Every position class lists each of the eight king's moves exactly
      once: all entries are king's moves, none repeats, and none is missing. */
  lemma TorusOffsetsExact(p: Position)
    ensures var offs := TorusOffsets(p);
      && Distinct(offs)
      && (forall k :: 0 <= k < |offs| ==> UnitOffset(offs[k].0, offs[k].1))
      && (forall dr, dc :: UnitOffset(dr, dc) ==> (dr, dc) in offs)
  {
    TorusOffsetsDistinct(p);
    TorusOffsetsUnit(p);
  }

  lemma TorusOffsetsDistinct(p: Position)
    ensures Distinct(TorusOffsets(p))
  {
    if p.LeftTopCorner? || p.RightTopCorner? || p.LeftBottomCorner? || p.RightBottomCorner? {
      CornerOffsetsDistinct(p);
    } else {
      SideOffsetsDistinct(p);
    }
  }

  lemma CornerOffsetsDistinct(p: Position)
    requires p.LeftTopCorner? || p.RightTopCorner? || p.LeftBottomCorner? || p.RightBottomCorner?
    ensures Distinct(TorusOffsets(p))
  {
  }

  lemma SideOffsetsDistinct(p: Position)
    requires !(p.LeftTopCorner? || p.RightTopCorner? || p.LeftBottomCorner? || p.RightBottomCorner?)
    ensures Distinct(TorusOffsets(p))
  {
  }

  lemma TorusOffsetsUnit(p: Position)
    ensures var offs := TorusOffsets(p);
      forall k :: 0 <= k < |offs| ==> UnitOffset(offs[k].0, offs[k].1)
  {
  }

  /** The cells reached from i by the moves in offs, in order. */
  function Wraps(w: int, h: int, i: int, offs: seq<(int, int)>): seq<int>
    requires w >= 1 && h >= 1 && 0 <= i < w * h
  {
    seq(|offs|, k requires 0 <= k < |offs| => Wrap(w, h, i, offs[k].0, offs[k].1))
  }

  /** The toroidal list is exactly the set of cells one king's move away on
      the torus: eight entries, all in the grid, never the cell itself, and
      no repetition once the torus is at least 3 x 3. */
  lemma TorusNeighboursExact(w: int, h: int, i: int)
    requires w >= 2 && h >= 2 && 0 <= i < w * h
    ensures var nb := TorusNeighbours(w, h, i);
      && |nb| == MAX_CELL_NEIGHBOURS
      && (forall j :: j in nb <==> TorusAdjacent(w, h, i, j))
      && (forall j :: j in nb ==> 0 <= j < w * h)
      && i !in nb
      && (w >= 3 && h >= 3 ==> Distinct(nb))
  {
    var p := CellPosByIdx(w, h, i);
    var nb, offs := TorusNeighbours(w, h, i), TorusOffsets(p);
    TorusNeighboursWraps(w, h, i);
    TorusOffsetsExact(p);
    forall j | j in nb
      ensures TorusAdjacent(w, h, i, j) && j != i
    {
      var k :| 0 <= k < |nb| && nb[k] == j;
      WrapNotSelf(w, h, i, offs[k].0, offs[k].1);
    }
    forall j | TorusAdjacent(w, h, i, j)
      ensures j in nb
    {
      var dr, dc :| UnitOffset(dr, dc) && j == Wrap(w, h, i, dr, dc);
      assert (dr, dc) in offs;
      var k :| 0 <= k < |offs| && offs[k] == (dr, dc);
      assert nb[k] == j;
    }
    if w >= 3 && h >= 3 {
      forall a, b | 0 <= a < b < |nb|
        ensures nb[a] != nb[b]
      {
        if nb[a] == nb[b] {
          WrapInjective(w, h, i, offs[a].0, offs[a].1, offs[b].0, offs[b].1);
        }
      }
    }
  }

  /** A king's move on the torus can be undone by the opposite move, so
      adjacency on the torus is symmetric. */
  lemma TorusAdjacentFlip(w: int, h: int, i: int, j: int)
    requires w >= 2 && h >= 2 && 0 <= i < w * h && 0 <= j < w * h
    requires TorusAdjacent(w, h, i, j)
    ensures TorusAdjacent(w, h, j, i)
  {
    var dr, dc :| -1 <= dr <= 1 && -1 <= dc <= 1 && UnitOffset(dr, dc) && j == Wrap(w, h, i, dr, dc);
    WrapInverse(w, h, i, dr, dc);
    assert UnitOffset(-dr, -dc) && i == Wrap(w, h, j, -dr, -dc);
  }

  /** On the toroidal field, j is listed as a neighbour of i exactly when i
      is listed as a neighbour of j. */
  lemma TorusSymmetric(w: int, h: int, i: int, j: int)
    requires w >= 2 && h >= 2 && 0 <= i < w * h && 0 <= j < w * h
    ensures j in TorusNeighbours(w, h, i) <==> i in TorusNeighbours(w, h, j)
  {
    TorusNeighboursExact(w, h, i);
    TorusNeighboursExact(w, h, j);
    if TorusAdjacent(w, h, i, j) {
      TorusAdjacentFlip(w, h, i, j);
    }
    if TorusAdjacent(w, h, j, i) {
      TorusAdjacentFlip(w, h, j, i);
    }
  }

  /** On the field with borders, j is listed as a neighbour of i exactly
      when i is listed as a neighbour of j. */
  lemma BorderedSymmetric(w: int, h: int, i: int, j: int)
    requires w >= 2 && h >= 2 && 0 <= i < w * h && 0 <= j < w * h
    ensures j in BorderedNeighbours(w, h, i) <==> i in BorderedNeighbours(w, h, j)
  {
    BorderedNeighboursExact(w, h, i);
    BorderedNeighboursExact(w, h, j);
  }

  /** The toroidal list of i is the list of its king's moves in the order
      of its position class. */
  lemma TorusNeighboursWraps(w: int, h: int, i: int)
    requires w >= 2 && h >= 2 && 0 <= i < w * h
    ensures TorusNeighbours(w, h, i) == Wraps(w, h, i, TorusOffsets(CellPosByIdx(w, h, i)))
  {
    match CellPosByIdx(w, h, i)
    case LeftTopCorner => TorusAtLeftTopCorner(w, h, i);
    case RightTopCorner => TorusAtRightTopCorner(w, h, i);
    case LeftBottomCorner => TorusAtLeftBottomCorner(w, h, i);
    case RightBottomCorner => TorusAtRightBottomCorner(w, h, i);
    case TopEdge => TorusAtTopEdge(w, h, i);
    case BottomEdge => TorusAtBottomEdge(w, h, i);
    case LeftEdge => TorusAtLeftEdge(w, h, i);
    case RightEdge => TorusAtRightEdge(w, h, i);
    case Inner => TorusAtInner(w, h, i);
  }

  lemma TorusAtLeftTopCorner(w: int, h: int, i: int)
    requires w >= 2 && h >= 2 && 0 <= i < w * h && CellPosByIdx(w, h, i) == LeftTopCorner
    ensures TorusNeighbours(w, h, i) == Wraps(w, h, i, TorusOffsets(LeftTopCorner))
  {
    assert i == 0 && i / w == 0 && i % w == 0 by { CellPosByIdxCorrect(w, h, i); }
    TorusLeftTopCorner(w, h, i);
  }

  lemma TorusAtRightTopCorner(w: int, h: int, i: int)
    requires w >= 2 && h >= 2 && 0 <= i < w * h && CellPosByIdx(w, h, i) == RightTopCorner
    ensures TorusNeighbours(w, h, i) == Wraps(w, h, i, TorusOffsets(RightTopCorner))
  {
    assert i == w - 1 && i / w == 0 && i % w == w - 1 by { CellPosByIdxCorrect(w, h, i); }
    TorusRightTopCorner(w, h, i);
  }

  lemma TorusAtLeftBottomCorner(w: int, h: int, i: int)
    requires w >= 2 && h >= 2 && 0 <= i < w * h && CellPosByIdx(w, h, i) == LeftBottomCorner
    ensures TorusNeighbours(w, h, i) == Wraps(w, h, i, TorusOffsets(LeftBottomCorner))
  {
    assert i == w * h - w && i / w == h - 1 && i % w == 0 by { CellPosByIdxCorrect(w, h, i); }
    TorusLeftBottomCorner(w, h, i);
  }

  lemma TorusAtRightBottomCorner(w: int, h: int, i: int)
    requires w >= 2 && h >= 2 && 0 <= i < w * h && CellPosByIdx(w, h, i) == RightBottomCorner
    ensures TorusNeighbours(w, h, i) == Wraps(w, h, i, TorusOffsets(RightBottomCorner))
  {
    assert i == w * h - 1 && i / w == h - 1 && i % w == w - 1 by { CellPosByIdxCorrect(w, h, i); }
    TorusRightBottomCorner(w, h, i);
  }

  lemma TorusAtTopEdge(w: int, h: int, i: int)
    requires w >= 2 && h >= 2 && 0 <= i < w * h && CellPosByIdx(w, h, i) == TopEdge
    ensures TorusNeighbours(w, h, i) == Wraps(w, h, i, TorusOffsets(TopEdge))
  {
    assert i / w == 0 && 0 < i % w < w - 1 by { CellPosByIdxCorrect(w, h, i); }
    TorusTopEdge(w, h, i);
  }

  lemma TorusAtBottomEdge(w: int, h: int, i: int)
    requires w >= 2 && h >= 2 && 0 <= i < w * h && CellPosByIdx(w, h, i) == BottomEdge
    ensures TorusNeighbours(w, h, i) == Wraps(w, h, i, TorusOffsets(BottomEdge))
  {
    assert i / w == h - 1 && 0 < i % w < w - 1 by { CellPosByIdxCorrect(w, h, i); }
    TorusBottomEdge(w, h, i);
  }

  lemma TorusAtLeftEdge(w: int, h: int, i: int)
    requires w >= 2 && h >= 2 && 0 <= i < w * h && CellPosByIdx(w, h, i) == LeftEdge
    ensures TorusNeighbours(w, h, i) == Wraps(w, h, i, TorusOffsets(LeftEdge))
  {
    assert 0 < i / w < h - 1 && i % w == 0 by { CellPosByIdxCorrect(w, h, i); }
    TorusLeftEdge(w, h, i);
  }

  lemma TorusAtRightEdge(w: int, h: int, i: int)
    requires w >= 2 && h >= 2 && 0 <= i < w * h && CellPosByIdx(w, h, i) == RightEdge
    ensures TorusNeighbours(w, h, i) == Wraps(w, h, i, TorusOffsets(RightEdge))
  {
    assert 0 < i / w < h - 1 && i % w == w - 1 by { CellPosByIdxCorrect(w, h, i); }
    TorusRightEdge(w, h, i);
  }

  lemma TorusAtInner(w: int, h: int, i: int)
    requires w >= 2 && h >= 2 && 0 <= i < w * h && CellPosByIdx(w, h, i) == Inner
    ensures TorusNeighbours(w, h, i) == Wraps(w, h, i, TorusOffsets(Inner))
  {
    assert 0 < i / w < h - 1 && 0 < i % w < w - 1 by { CellPosByIdxCorrect(w, h, i); }
    TorusInner(w, h, i);
  }

  lemma TorusLeftTopCorner(w: int, h: int, i: int)
    requires w >= 2 && h >= 2 && 0 <= i < w * h && i == 0 && i / w == 0 && i % w == 0
    ensures Wrap(w, h, i, 0, 1) == 1
      && Wrap(w, h, i, 0, -1) == w - 1
      && Wrap(w, h, i, 1, -1) == w - 1 + w
      && Wrap(w, h, i, -1, -1) == w * h - 1
      && Wrap(w, h, i, -1, 0) == w * h - w
      && Wrap(w, h, i, -1, 1) == w * h - w + 1
      && Wrap(w, h, i, 1, 0) == w
      && Wrap(w, h, i, 1, 1) == w + 1
  {
    WrapShift(w, h, i, 0, 1);
    WrapShift(w, h, i, 0, -1);
    WrapShift(w, h, i, 1, -1);
    WrapShift(w, h, i, -1, -1);
    WrapShift(w, h, i, -1, 0);
    WrapShift(w, h, i, -1, 1);
    WrapShift(w, h, i, 1, 0);
    WrapShift(w, h, i, 1, 1);
  }

  lemma TorusRightTopCorner(w: int, h: int, i: int)
    requires w >= 2 && h >= 2 && 0 <= i < w * h && i == w - 1 && i / w == 0 && i % w == w - 1
    ensures Wrap(w, h, i, 0, -1) == w - 1 - 1
      && Wrap(w, h, i, 1, 0) == w - 1 + w
      && Wrap(w, h, i, 1, -1) == w - 1 + w - 1
      && Wrap(w, h, i, 0, 1) == 0
      && Wrap(w, h, i, 1, 1) == w
      && Wrap(w, h, i, -1, 1) == w * h - w
      && Wrap(w, h, i, -1, 0) == w * h - 1
      && Wrap(w, h, i, -1, -1) == w * h - 1 - 1
  {
    WrapShift(w, h, i, 0, -1);
    WrapShift(w, h, i, 1, 0);
    WrapShift(w, h, i, 1, -1);
    WrapShift(w, h, i, 0, 1);
    WrapShift(w, h, i, 1, 1);
    WrapShift(w, h, i, -1, 1);
    WrapShift(w, h, i, -1, 0);
    WrapShift(w, h, i, -1, -1);
  }

  lemma TorusLeftBottomCorner(w: int, h: int, i: int)
    requires w >= 2 && h >= 2 && 0 <= i < w * h && i == w * h - w && i / w == h - 1 && i % w == 0
    ensures Wrap(w, h, i, 0, 1) == w * h - w + 1
      && Wrap(w, h, i, -1, 0) == w * h - w - w
      && Wrap(w, h, i, -1, 1) == w * h - w - w + 1
      && Wrap(w, h, i, 1, 0) == 0
      && Wrap(w, h, i, 1, 1) == 1
      && Wrap(w, h, i, 1, -1) == w - 1
      && Wrap(w, h, i, 0, -1) == w * h - 1
      && Wrap(w, h, i, -1, -1) == w * h - 1 - w
  {
    WrapShift(w, h, i, 0, 1);
    WrapShift(w, h, i, -1, 0);
    WrapShift(w, h, i, -1, 1);
    WrapShift(w, h, i, 1, 0);
    WrapShift(w, h, i, 1, 1);
    WrapShift(w, h, i, 1, -1);
    WrapShift(w, h, i, 0, -1);
    WrapShift(w, h, i, -1, -1);
  }

  lemma TorusRightBottomCorner(w: int, h: int, i: int)
    requires w >= 2 && h >= 2 && 0 <= i < w * h && i == w * h - 1 && i / w == h - 1 && i % w == w - 1
    ensures Wrap(w, h, i, 0, -1) == w * h - 1 - 1
      && Wrap(w, h, i, -1, 0) == w * h - 1 - w
      && Wrap(w, h, i, -1, -1) == w * h - 1 - w - 1
      && Wrap(w, h, i, -1, 1) == w * h - 1 + 1 - w - w
      && Wrap(w, h, i, 0, 1) == w * h - 1 + 1 - w
      && Wrap(w, h, i, 1, 1) == 0
      && Wrap(w, h, i, 1, 0) == w - 1
      && Wrap(w, h, i, 1, -1) == w - 1 - 1
  {
    WrapShift(w, h, i, 0, -1);
    WrapShift(w, h, i, -1, 0);
    WrapShift(w, h, i, -1, -1);
    WrapShift(w, h, i, -1, 1);
    WrapShift(w, h, i, 0, 1);
    WrapShift(w, h, i, 1, 1);
    WrapShift(w, h, i, 1, 0);
    WrapShift(w, h, i, 1, -1);
  }

  lemma TorusTopEdge(w: int, h: int, i: int)
    requires w >= 2 && h >= 2 && 0 <= i < w * h && i / w == 0 && 0 < i % w < w - 1
    ensures Wrap(w, h, i, 0, -1) == i - 1
      && Wrap(w, h, i, 0, 1) == i + 1
      && Wrap(w, h, i, 1, -1) == i - 1 + w
      && Wrap(w, h, i, 1, 0) == i + w
      && Wrap(w, h, i, 1, 1) == i + 1 + w
      && Wrap(w, h, i, -1, -1) == w * h - w + i - 1
      && Wrap(w, h, i, -1, 0) == w * h - w + i
      && Wrap(w, h, i, -1, 1) == w * h - w + i + 1
  {
    WrapShift(w, h, i, 0, -1);
    WrapShift(w, h, i, 0, 1);
    WrapShift(w, h, i, 1, -1);
    WrapShift(w, h, i, 1, 0);
    WrapShift(w, h, i, 1, 1);
    WrapShift(w, h, i, -1, -1);
    WrapShift(w, h, i, -1, 0);
    WrapShift(w, h, i, -1, 1);
  }

  lemma TorusBottomEdge(w: int, h: int, i: int)
    requires w >= 2 && h >= 2 && 0 <= i < w * h && i / w == h - 1 && 0 < i % w < w - 1
    ensures Wrap(w, h, i, 0, -1) == i - 1
      && Wrap(w, h, i, 0, 1) == i + 1
      && Wrap(w, h, i, -1, -1) == i - 1 - w
      && Wrap(w, h, i, -1, 0) == i - w
      && Wrap(w, h, i, -1, 1) == i + 1 - w
      && Wrap(w, h, i, 1, 0) == i - (w * h - w)
      && Wrap(w, h, i, 1, -1) == i - (w * h - w) - 1
      && Wrap(w, h, i, 1, 1) == i - (w * h - w) + 1
  {
    WrapShift(w, h, i, 0, -1);
    WrapShift(w, h, i, 0, 1);
    WrapShift(w, h, i, -1, -1);
    WrapShift(w, h, i, -1, 0);
    WrapShift(w, h, i, -1, 1);
    WrapShift(w, h, i, 1, 0);
    WrapShift(w, h, i, 1, -1);
    WrapShift(w, h, i, 1, 1);
  }

  lemma TorusLeftEdge(w: int, h: int, i: int)
    requires w >= 2 && h >= 2 && 0 <= i < w * h && 0 < i / w < h - 1 && i % w == 0
    ensures Wrap(w, h, i, -1, 0) == i - w
      && Wrap(w, h, i, 1, 0) == i + w
      && Wrap(w, h, i, -1, 1) == i - w + 1
      && Wrap(w, h, i, 0, 1) == i + 1
      && Wrap(w, h, i, 1, 1) == i + w + 1
      && Wrap(w, h, i, 0, -1) == i + w - 1
      && Wrap(w, h, i, 1, -1) == i + w - 1 + w
      && Wrap(w, h, i, -1, -1) == i + w - 1 - w
  {
    WrapShift(w, h, i, -1, 0);
    WrapShift(w, h, i, 1, 0);
    WrapShift(w, h, i, -1, 1);
    WrapShift(w, h, i, 0, 1);
    WrapShift(w, h, i, 1, 1);
    WrapShift(w, h, i, 0, -1);
    WrapShift(w, h, i, 1, -1);
    WrapShift(w, h, i, -1, -1);
  }

  lemma TorusRightEdge(w: int, h: int, i: int)
    requires w >= 2 && h >= 2 && 0 <= i < w * h && 0 < i / w < h - 1 && i % w == w - 1
    ensures Wrap(w, h, i, -1, 0) == i - w
      && Wrap(w, h, i, 1, 0) == i + w
      && Wrap(w, h, i, -1, -1) == i - w - 1
      && Wrap(w, h, i, 0, -1) == i - 1
      && Wrap(w, h, i, 1, -1) == i + w - 1
      && Wrap(w, h, i, 0, 1) == i - w + 1
      && Wrap(w, h, i, -1, 1) == i - w + 1 - w
      && Wrap(w, h, i, 1, 1) == i - w + 1 + w
  {
    WrapShift(w, h, i, -1, 0);
    WrapShift(w, h, i, 1, 0);
    WrapShift(w, h, i, -1, -1);
    WrapShift(w, h, i, 0, -1);
    WrapShift(w, h, i, 1, -1);
    WrapShift(w, h, i, 0, 1);
    WrapShift(w, h, i, -1, 1);
    WrapShift(w, h, i, 1, 1);
  }

  lemma TorusInner(w: int, h: int, i: int)
    requires w >= 2 && h >= 2 && 0 <= i < w * h && 0 < i / w < h - 1 && 0 < i % w < w - 1
    ensures Wrap(w, h, i, 0, -1) == i - 1
      && Wrap(w, h, i, 0, 1) == i + 1
      && Wrap(w, h, i, -1, 0) == i - w
      && Wrap(w, h, i, 1, 0) == i + w
      && Wrap(w, h, i, -1, -1) == i - w - 1
      && Wrap(w, h, i, -1, 1) == i - w + 1
      && Wrap(w, h, i, 1, -1) == i + w - 1
      && Wrap(w, h, i, 1, 1) == i + w + 1
  {
    WrapShift(w, h, i, 0, -1);
    WrapShift(w, h, i, 0, 1);
    WrapShift(w, h, i, -1, 0);
    WrapShift(w, h, i, 1, 0);
    WrapShift(w, h, i, -1, -1);
    WrapShift(w, h, i, -1, 1);
    WrapShift(w, h, i, 1, -1);
    WrapShift(w, h, i, 1, 1);
  }

  // ---------------------------------------------------------------------
  // The field's grid

  /** The shape of a field: its type and its size in cells. */
  datatype Grid = Grid(fieldType: int, width: int, height: int)
  {
    predicate Valid()
    {
      width >= 2 && height >= 2
    }

    function Count(): int
    {
      width * height
    }

    /** The neighbour list a cell of this field gets: the bordered list for
        FIELD_TYPE_WITH_BORDERS and the toroidal list for any other type. */
    function Nbrs(i: int): (nb: seq<int>)
      requires Valid() && 0 <= i < Count()
      ensures |nb| <= MAX_CELL_NEIGHBOURS
      ensures forall j :: j in nb ==> 0 <= j < Count() && j != i
      ensures fieldType == FIELD_TYPE_WITH_BORDERS || (width >= 3 && height >= 3) ==> Distinct(nb)
    {
      BorderedNeighboursExact(width, height, i);
      TorusNeighboursExact(width, height, i);
      if fieldType == FIELD_TYPE_WITH_BORDERS then BorderedNeighbours(width, height, i)
      else TorusNeighbours(width, height, i)
    }
  }
}
