/**
 * One generation of the field as the field engine computes it. The engine
 * walks the slots in index order and replaces each slot in place, so a cell
 * counts the new state of the neighbours it has already passed and the old
 * state of the ones still ahead. Sweep is that in-place walk; Generation is
 * the synchronous rule, in which every cell sees the old field, kept beside
 * it as a reference.
 */
module Engine {
  import opened Cells
  import opened Geometry

  predicate InRange(nb: seq<int>, n: int)
  {
    forall k :: 0 <= k < |nb| ==> 0 <= nb[k] < n
  }

  /** A neighbour table for n slots: one list of slot indices per slot. */
  predicate Table(t: seq<seq<int>>, n: int)
  {
    |t| == n && forall i :: 0 <= i < n ==> InRange(t[i], n)
  }

  /** The table of the lists each cell of the grid is built with. */
  function NeighbourTable(g: Grid): (t: seq<seq<int>>)
    requires g.Valid()
    ensures |t| == g.Count()
    ensures forall i :: 0 <= i < g.Count() ==> t[i] == g.Nbrs(i)
  {
    seq(g.Count(), i requires 0 <= i < g.Count() => g.Nbrs(i))
  }

  /** Every list of the grid's table names slots of the grid. */
  lemma NeighbourTableInRange(g: Grid)
    requires g.Valid()
    ensures Table(NeighbourTable(g), g.Count())
  {
    var t := NeighbourTable(g);
    forall i | 0 <= i < g.Count()
      ensures InRange(t[i], g.Count())
    {
      var nb := g.Nbrs(i);
      assert forall k :: 0 <= k < |nb| ==> nb[k] in nb;
    }
  }

  /** The number of entries of nb whose slot in s holds an Alive cell. */
  function AliveCount(s: seq<CellState>, nb: seq<int>): (n: nat)
    requires InRange(nb, |s|)
    ensures n <= |nb|
  {
    if nb == [] then 0
    else AliveCount(s, nb[..|nb| - 1]) + (if s[nb[|nb| - 1]] == Alive then 1 else 0)
  }

  /** The live-neighbour count: the loop over the neighbour slots of a cell. */
  method AliveNeighbours(cells: array<CellState>, nb: seq<int>) returns (count: int)
    requires InRange(nb, cells.Length)
    ensures count == AliveCount(cells[..], nb)
  {
    count := 0;
    var k := 0;
    while k < |nb|
      invariant 0 <= k <= |nb|
      invariant count == AliveCount(cells[..], nb[..k])
    {
      assert nb[..k + 1][..k] == nb[..k];
      if cells[nb[k]] == Alive {
        count := count + 1;
      }
      k := k + 1;
    }
    assert nb[..k] == nb;
  }

  /** The count only looks at the slots the list names. */
  lemma {:induction false} AliveCountFrame(s: seq<CellState>, u: seq<CellState>, nb: seq<int>)
    requires InRange(nb, |s|) && InRange(nb, |u|)
    requires forall k :: 0 <= k < |nb| ==> s[nb[k]] == u[nb[k]]
    ensures AliveCount(s, nb) == AliveCount(u, nb)
  {
    if nb != [] {
      AliveCountFrame(s, u, nb[..|nb| - 1]);
    }
  }

  /** On a list without repetitions the count is the number of listed cells
      that are alive. */
  lemma {:induction false} AliveCountIsCardinality(s: seq<CellState>, nb: seq<int>)
    requires InRange(nb, |s|) && Distinct(nb)
    ensures AliveCount(s, nb) == |set j | j in nb && s[j] == Alive|
  {
    if nb != [] {
      var front, last := nb[..|nb| - 1], nb[|nb| - 1];
      assert nb == front + [last];
      assert Distinct(front) && last !in front;
      AliveCountIsCardinality(s, front);
      AliveSetSnoc(s, front, last);
    }
  }

  /** The live slots of a list with one more entry. */
  lemma AliveSetSnoc(s: seq<CellState>, front: seq<int>, last: int)
    requires InRange(front, |s|) && 0 <= last < |s| && last !in front
    ensures var before, after := set j | j in front && s[j] == Alive, set j | j in front + [last] && s[j] == Alive;
      |after| == |before| + (if s[last] == Alive then 1 else 0)
  {
    var before := set j | j in front && s[j] == Alive;
    var after := set j | j in front + [last] && s[j] == Alive;
    if s[last] == Alive {
      assert after == before + {last};
    } else {
      assert after == before;
    }
  }

  /** The state of the field after the walk has replaced slots 0 .. k - 1. */
  function Sweep(t: seq<seq<int>>, s: seq<CellState>, k: nat): (r: seq<CellState>)
    requires Table(t, |s|) && k <= |s|
    ensures |r| == |s|
    ensures r[k..] == s[k..]
    decreases k
  {
    if k == 0 then s
    else
      var p := Sweep(t, s, k - 1);
      p[k - 1 := NextState(p[k - 1], AliveCount(p, t[k - 1]))]
  }

  /** The synchronous generation: every cell is judged on the old field. */
  function Generation(t: seq<seq<int>>, s: seq<CellState>): (r: seq<CellState>)
    requires Table(t, |s|)
    ensures |r| == |s|
    ensures forall i :: 0 <= i < |s| ==> r[i] == NextState(s[i], AliveCount(s, t[i]))
  {
    seq(|s|, i requires 0 <= i < |s| => NextState(s[i], AliveCount(s, t[i])))
  }

  /** A slot, once the walk has passed it, is never touched again. */
  lemma {:induction false} SweepStable(t: seq<seq<int>>, s: seq<CellState>, k: nat, m: nat)
    requires Table(t, |s|) && k <= m <= |s|
    ensures Sweep(t, s, m)[..k] == Sweep(t, s, k)[..k]
    decreases m
  {
    if m > k {
      SweepStable(t, s, k, m - 1);
    }
  }

  /** What cell i sees: before the walk reaches it, the field holds the final
      states of the cells before i and the old states from i on; the final
      state of i is the rule applied to that mixed field. */
  lemma SweepView(t: seq<seq<int>>, s: seq<CellState>, i: nat)
    requires Table(t, |s|) && i < |s|
    ensures var f := Sweep(t, s, |s|);
      && Sweep(t, s, i) == f[..i] + s[i..]
      && f[i] == NextState(s[i], AliveCount(f[..i] + s[i..], t[i]))
  {
    var f := Sweep(t, s, |s|);
    var p := Sweep(t, s, i);
    assert f[..i] == p[..i] by {
      SweepStable(t, s, i, |s|);
    }
    assert p == p[..i] + s[i..] by {
      assert p == p[..i] + p[i..];
    }
    assert f[i] == Sweep(t, s, i + 1)[i] by {
      SweepStable(t, s, i + 1, |s|);
      assert f[i] == f[..i + 1][i];
    }
    assert p[i] == s[i];
  }

  /** No slot of s holds an Alive cell. */
  predicate NoneAlive(s: seq<CellState>)
  {
    forall j :: 0 <= j < |s| ==> s[j] != Alive
  }

  /** The number of slots of s that do not hold an Alive cell. */
  function NonAliveCount(s: seq<CellState>): (n: nat)
    ensures n <= |s|
    ensures n == |s| <==> NoneAlive(s)
  {
    if s == [] then 0
    else NonAliveCount(s[..|s| - 1]) + (if s[|s| - 1] != Alive then 1 else 0)
  }

  /** The walk leaves the field unchanged exactly when the synchronous rule
      does: both rules have the same still lifes. */
  lemma SameFixedPoints(t: seq<seq<int>>, s: seq<CellState>)
    requires Table(t, |s|)
    ensures Sweep(t, s, |s|) == s <==> Generation(t, s) == s
  {
    if Sweep(t, s, |s|) == s {
      forall i | 0 <= i < |s|
        ensures Generation(t, s)[i] == s[i]
      {
        SweepView(t, s, i);
        assert s[..i] + s[i..] == s;
      }
    }
    if Generation(t, s) == s {
      SweepFixed(t, s, |s|);
    }
  }

  lemma {:induction false} SweepFixed(t: seq<seq<int>>, s: seq<CellState>, k: nat)
    requires Table(t, |s|) && k <= |s| && Generation(t, s) == s
    ensures Sweep(t, s, k) == s
  {
    if k > 0 {
      SweepFixed(t, s, k - 1);
      var g := Generation(t, s);
      assert g[k - 1] == NextState(s[k - 1], AliveCount(s, t[k - 1]));
      assert Sweep(t, s, k) == s[k - 1 := g[k - 1]];
    }
  }
}
