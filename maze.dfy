/**
  The maze of maze.rb: a render grid of M2G(H) by M2G(W) values (0 open,
  1 wall, 2 marked, Unset before anything is written, and after `load` any
  digit 3 to 9, which counts as open), the breadth-first solver over it and
  the recursive-division generator that carves it.
 */
module Mazes {
  import opened Wrappers
  import opened Grid

  /** A backpointer: the search began here, or reached this cell from prev. */
  datatype Back = Start | From(prev: Cell)

  /** The four sides of a cell; true where a wall stands. */
  datatype WallSet = WallSet(up: bool, left: bool, right: bool, down: bool)

  /**
    depth ranks the backpointers: following From from any entry lowers the
    depth by one, and a Start entry has depth 0, so every chain ends at Start.
   */
  ghost predicate Rooted(trace: map<Cell, Back>, depth: map<Cell, nat>)
  {
    forall c {:trigger trace[c]} :: c in trace ==>
      && c in depth
      && (trace[c].Start? ==> depth[c] == 0)
      && (trace[c].From? ==> trace[c].prev in trace && trace[c].prev in depth && depth[c] == depth[trace[c].prev] + 1)
  }

  /** The value String#to_i gives a one-character string: its digit, or 0 for anything else. */
  function DigitValue(ch: char): (v: int)
    ensures 0 <= v <= 9
    ensures '0' <= ch <= '9' ==> DigitChar(v) == ch
    ensures !('0' <= ch <= '9') ==> v == 0
  {
    if '0' <= ch <= '9' then ch as int - '0' as int else 0
  }

  /** The digit that writes v. */
  function DigitChar(v: int): char
    requires 0 <= v <= 9
  {
    ('0' as int + v) as char
  }

  class Maze {
    /** Height and width in logical cells. */
    const H: nat
    const W: nat
    /** The render grid, indexed [render row, render column]. */
    const grid: array2<int>

    predicate Valid()
    {
      grid.Length0 == M2G(H) && grid.Length1 == M2G(W)
    }

    /** A new maze whose grid holds no value yet (maze.rb `initialize`). */
    constructor (n: nat, m: nat)
      ensures H == n && W == m && Valid() && fresh(grid)
      ensures forall i, j :: 0 <= i < grid.Length0 && 0 <= j < grid.Length1 ==> grid[i, j] == Unset
    {
      H, W := n, m;
      grid := new int[M2G(n), M2G(m)]((i, j) => Unset);
    }

    /** (x, y) is a logical cell exactly when its render centre lies strictly inside the border ring. */
    predicate OnMaze(x: int, y: int)
      requires Valid()
      ensures OnMaze(x, y) <==> 0 < M2G(x) < grid.Length1 - 1 && 0 < M2G(y) < grid.Length0 - 1
    {
      0 <= x <= W - 1 && 0 <= y <= H - 1
    }

    /**
      The walls around cell (x, y), read from the render cells next to its
      centre: each side is a wall exactly when Open rules that step closed.
     */
    function Walls(x: int, y: int): (w: WallSet)
      requires Valid() && OnMaze(x, y)
      reads grid
      ensures w.up <==> !Open(Cell(x, y), Cell(x, y - 1))
      ensures w.left <==> !Open(Cell(x, y), Cell(x - 1, y))
      ensures w.right <==> !Open(Cell(x, y), Cell(x + 1, y))
      ensures w.down <==> !Open(Cell(x, y), Cell(x, y + 1))
    {
      var gx, gy := M2G(x), M2G(y);
      WallSet(grid[gy - 1, gx] == 1, grid[gy, gx - 1] == 1, grid[gy, gx + 1] == 1, grid[gy + 1, gx] == 1)
    }

    /**
      No wall separates c from its neighbour n: the render cell halfway
      between their centres is not 1 (so 0, 2 and Unset all leave it open).
     */
    predicate Open(c: Cell, n: Cell)
      requires Valid()
      reads grid
    {
      OnMaze(c.x, c.y) && IsStep(c, n) && grid[c.y + n.y + 1, c.x + n.x + 1] != 1
    }

    /** Both cells see the same wall between them. */
    lemma OpenSymmetric(c: Cell, n: Cell)
      requires Valid() && OnMaze(c.x, c.y) && OnMaze(n.x, n.y)
      ensures Open(c, n) <==> Open(n, c)
    {
    }

    /** The cells reachable in one step from (x, y), in the order up, left, right, down. */
    function FindNext(x: int, y: int): (r: seq<Cell>)
      requires Valid() && OnMaze(x, y)
      reads grid
      ensures |r| <= 4
      ensures forall n :: n in r <==> Open(Cell(x, y), n)
      ensures forall i, j :: 0 <= i < j < |r| ==> Before(r[i], r[j])
    {
      var w := Walls(x, y);
      (if w.up then [] else [Cell(x, y - 1)])
      + (if w.left then [] else [Cell(x - 1, y)])
      + (if w.right then [] else [Cell(x + 1, y)])
      + (if w.down then [] else [Cell(x, y + 1)])
    }

    /** (i, j) is in the first or last render row or column. */
    predicate OnBorder(i: int, j: int)
    {
      i == 0 || i == grid.Length0 - 1 || j == 0 || j == grid.Length1 - 1
    }

    /** The outer ring of the render grid is all wall. */
    ghost predicate Bordered()
      requires Valid()
      reads grid
    {
      forall i, j :: 0 <= i < grid.Length0 && 0 <= j < grid.Length1 && OnBorder(i, j) ==> grid[i, j] == 1
    }

    /** Inside a walled border no open side leads off the maze. */
    lemma OpenStaysOnMaze(c: Cell, n: Cell)
      requires Valid() && Bordered() && Open(c, n)
      ensures OnMaze(n.x, n.y)
    {
    }

    /** p walks from b to e, each step through an open side. */
    ghost predicate IsWalk(p: seq<Cell>, b: Cell, e: Cell)
      requires Valid()
      reads grid
    {
      && |p| > 0 && p[0] == b && p[|p| - 1] == e
      && forall i :: 0 <= i < |p| - 1 ==> Open(p[i], p[i + 1])
    }

    ghost predicate Reachable(b: Cell, e: Cell)
      requires Valid()
      reads grid
    {
      exists p :: IsWalk(p, b, e)
    }

    /** All logical cells. */
    ghost function AllCells(): set<Cell>
    {
      set x, y | 0 <= x < W && 0 <= y < H :: Cell(x, y)
    }

    /**
      bp is a search tree rooted at b: only b is Start, every entry is on the
      maze, and every backpointer crosses an open side.
     */
    ghost predicate SearchTree(bp: map<Cell, Back>, depth: map<Cell, nat>, b: Cell)
      requires Valid()
      reads grid
    {
      && Rooted(bp, depth)
      && bp.Keys == depth.Keys
      && b in bp && bp[b] == Start
      && (forall c :: c in bp ==> OnMaze(c.x, c.y))
      && TreeEdges(bp, b)
    }

    /** Only b is a Start entry, and every backpointer crosses an open side. */
    ghost predicate TreeEdges(bp: map<Cell, Back>, b: Cell)
      requires Valid()
      reads grid
    {
      forall c {:trigger bp[c]} :: c in bp ==>
        && (bp[c].Start? ==> c == b)
        && (bp[c].From? ==> Open(bp[c].prev, c))
    }

    /** From every entry shallower than k, each open side leads into the tree, at most one level deeper. */
    ghost predicate Closed(bp: map<Cell, Back>, depth: map<Cell, nat>, k: int)
      requires Valid()
      reads grid
    {
      forall c, n {:trigger Open(c, n)} :: c in depth && depth[c] < k && Open(c, n) ==>
        n in bp && n in depth && depth[n] <= depth[c] + 1
    }

    /** The search has run to completion: every open side of every entry leads into the tree. */
    ghost predicate Complete(bp: map<Cell, Back>, depth: map<Cell, nat>)
      requires Valid()
      reads grid
    {
      forall c, n {:trigger Open(c, n)} :: c in bp && c in depth && Open(c, n) ==>
        n in bp && n in depth && depth[n] <= depth[c] + 1
    }

    /** The invariant of the search when ply is the frontier at depth k. */
    ghost predicate Layered(bp: map<Cell, Back>, depth: map<Cell, nat>, b: Cell, ply: seq<Cell>, k: nat)
      requires Valid()
      reads grid
    {
      && SearchTree(bp, depth, b)
      && (forall c :: c in depth ==> depth[c] <= k)
      && (forall c :: c in ply ==> c in depth && depth[c] == k)
      && (forall c :: c in depth && depth[c] == k ==> c in ply)
      && Closed(bp, depth, k)
    }

    /** A walk from the root never reaches a cell faster than its depth. */
    lemma {:induction false} DepthBound(bp: map<Cell, Back>, depth: map<Cell, nat>, b: Cell, q: seq<Cell>)
      requires Valid() && SearchTree(bp, depth, b) && Complete(bp, depth)
      requires |q| > 0 && q[0] == b
      requires forall i :: 0 <= i < |q| - 1 ==> Open(q[i], q[i + 1])
      ensures q[|q| - 1] in bp && q[|q| - 1] in depth && depth[q[|q| - 1]] <= |q| - 1
    {
      if |q| > 1 {
        var q' := q[..|q| - 1];
        DepthBound(bp, depth, b, q');
        assert Open(q'[|q'| - 1], q[|q| - 1]);
      }
    }

    /**
      Follows the backpointers from (x, y) back to the Start entry (maze.rb
      `walkback`); None when (x, y) has no backpointer.
     */
    method Walkback(trace: map<Cell, Back>, x: int, y: int, ghost depth: map<Cell, nat>) returns (r: Option<seq<Cell>>)
      requires Rooted(trace, depth)
      ensures r.None? <==> Cell(x, y) !in trace
      ensures r.Some? ==>
        && |r.value| == depth[Cell(x, y)] + 1
        && r.value[|r.value| - 1] == Cell(x, y)
        && r.value[0] in trace && trace[r.value[0]] == Start
        && forall i :: 0 < i < |r.value| ==> r.value[i] in trace && trace[r.value[i]] == From(r.value[i - 1])
    {
      if Cell(x, y) !in trace {
        return None;
      }
      var cell := Cell(x, y);
      var sol := [cell];
      var back := trace[cell];
      while back != Start
        invariant cell in trace && back == trace[cell]
        invariant |sol| > 0 && sol[0] == cell && sol[|sol| - 1] == Cell(x, y)
        invariant |sol| + depth[cell] == depth[Cell(x, y)] + 1
        invariant forall i :: 0 < i < |sol| ==> sol[i] in trace && trace[sol[i]] == From(sol[i - 1])
        decreases depth[cell]
      {
        cell := back.prev;
        sol := [cell] + sol;
        back := trace[cell];
      }
      return Some(sol);
    }

    /**
      The breadth-first loop of maze.rb `walk`, ply by ply from b: a cell gets
      a backpointer the first time it is seen, and the whole component of b
      is explored.
     */
    method Explore(b: Cell) returns (backptrs: map<Cell, Back>, ghost depth: map<Cell, nat>)
      requires Valid() && Bordered() && OnMaze(b.x, b.y)
      ensures SearchTree(backptrs, depth, b) && Complete(backptrs, depth)
    {
      var ply := [b];
      backptrs := map[b := Start];
      depth := map[b := 0];
      ghost var k: nat := 0;
      Seed(b);
      while ply != []
        invariant Layered(backptrs, depth, b, ply, k)
        decreases AllCells() - backptrs.Keys, |ply|
      {
        var nextply;
        backptrs, nextply, depth := ExpandPly(ply, backptrs, depth, b, k);
        ply := nextply;
        k := k + 1;
      }
      Finished(backptrs, depth, b, k);
    }

    /** An empty frontier means nothing is left to explore: the tree is complete. */
    lemma Finished(bp: map<Cell, Back>, depth: map<Cell, nat>, b: Cell, k: nat)
      requires Valid() && Layered(bp, depth, b, [], k)
      ensures SearchTree(bp, depth, b) && Complete(bp, depth)
    {
    }

    /** The search starts as a tree of b alone, with b as the frontier at depth 0. */
    lemma Seed(b: Cell)
      requires Valid() && OnMaze(b.x, b.y)
      ensures Layered(map[b := Start], map[b := 0], b, [b], 0)
    {
      var bp, depth := map[b := Start], map[b := 0];
      assert Rooted(bp, depth);
      assert TreeEdges(bp, b);
    }

    /**
      One pass of the outer loop of maze.rb `walk`: every cell of the frontier
      ply is expanded, and the newly seen cells form the next frontier.
     */
    method ExpandPly(ply: seq<Cell>, backptrs: map<Cell, Back>, ghost depth: map<Cell, nat>, ghost b: Cell, ghost k: nat)
      returns (backptrs': map<Cell, Back>, nextply: seq<Cell>, ghost depth': map<Cell, nat>)
      requires Valid() && Bordered() && Layered(backptrs, depth, b, ply, k)
      ensures Layered(backptrs', depth', b, nextply, k + 1)
      ensures Keeps(backptrs, backptrs')
      ensures nextply == [] ==> backptrs' == backptrs
      ensures nextply != [] ==> AllCells() - backptrs'.Keys < AllCells() - backptrs.Keys
    {
      backptrs', depth' := backptrs, depth;
      nextply := [];
      for i := 0 to |ply|
        invariant Expanding(backptrs', depth', b, ply, k, nextply)
        invariant Grown(backptrs, backptrs', nextply)
        invariant Keeps(backptrs, backptrs')
        invariant Processed(ply, i, depth', k)
      {
        var c := ply[i];
        ghost var depthBefore, bpBefore := depth', backptrs';
        backptrs', nextply, depth' := VisitNeighbours(c, backptrs', nextply, depth', b, ply, k, backptrs);
        ProcessedStep(ply, i, depthBefore, depth', k);
        KeepsTrans(backptrs, bpBefore, backptrs');
      }
      NextLayer(backptrs', depth', b, ply, k, nextply);
      Shrink(backptrs, backptrs', depth', b, nextply);
      if nextply == [] {
        KeepsSame(backptrs, backptrs');
      }
    }

    /**
      m' keeps every entry of m with its value: a backpointer or a depth, once
      written, never changes.
     */
    ghost predicate Keeps<V>(m: map<Cell, V>, m': map<Cell, V>)
    {
      forall x :: x in m ==> x in m' && m'[x] == m[x]
    }

    lemma KeepsTrans<V>(m: map<Cell, V>, m': map<Cell, V>, m'': map<Cell, V>)
      requires Keeps(m, m') && Keeps(m', m'')
      ensures Keeps(m, m'')
    {
    }

    /** A table that keeps every entry of m and has no other key is m. */
    lemma KeepsSame<V>(m: map<Cell, V>, m': map<Cell, V>)
      requires Keeps(m, m') && m'.Keys == m.Keys
      ensures m' == m
    {
    }

    /** The cells added since bp0 are on the maze, so the unseen cells shrink exactly when some were added. */
    lemma Shrink(bp0: map<Cell, Back>, bp: map<Cell, Back>, depth: map<Cell, nat>, b: Cell, nextply: seq<Cell>)
      requires Valid() && SearchTree(bp, depth, b) && Grown(bp0, bp, nextply)
      ensures nextply == [] ==> bp.Keys == bp0.Keys
      ensures nextply != [] ==> AllCells() - bp.Keys < AllCells() - bp0.Keys
    {
      if nextply != [] {
        var c := nextply[0];
        assert c in bp && c !in bp0 && OnMaze(c.x, c.y);
        assert c == Cell(c.x, c.y) && c in AllCells();
      }
    }

    /**
      The inner loop of maze.rb `walk` for frontier cell c: every open
      neighbour without a backpointer is queued and gets c as its backpointer.
     */
    method VisitNeighbours(c: Cell, backptrs: map<Cell, Back>, nextply: seq<Cell>, ghost depth: map<Cell, nat>,
                           ghost b: Cell, ghost ply: seq<Cell>, ghost k: nat, ghost bp0: map<Cell, Back>)
      returns (backptrs': map<Cell, Back>, nextply': seq<Cell>, ghost depth': map<Cell, nat>)
      requires Valid() && Bordered() && c in ply
      requires Expanding(backptrs, depth, b, ply, k, nextply) && Grown(bp0, backptrs, nextply)
      ensures Expanding(backptrs', depth', b, ply, k, nextply') && Grown(bp0, backptrs', nextply')
      ensures Keeps(depth, depth') && Keeps(backptrs, backptrs')
      ensures forall n :: n in backptrs' && n !in backptrs ==> backptrs'[n] == From(c)
      ensures forall n :: Open(c, n) ==> n in depth' && depth'[n] <= k + 1
    {
      backptrs', nextply', depth' := backptrs, nextply, depth;
      var ns := FindNext(c.x, c.y);
      for j := 0 to |ns|
        invariant Expanding(backptrs', depth', b, ply, k, nextply') && Grown(bp0, backptrs', nextply')
        invariant Keeps(depth, depth') && Keeps(backptrs, backptrs')
        invariant forall n :: n in backptrs' && n !in backptrs ==> backptrs'[n] == From(c)
        invariant Covered(ns, j, depth', k)
      {
        var n := ns[j];
        assert Open(Cell(c.x, c.y), n);
        if n !in backptrs' {
          VisitStep(backptrs', depth', b, ply, k, nextply', c, ns, j, bp0, depth, backptrs);
          nextply' := nextply' + [n];
          backptrs' := backptrs'[n := From(c)];
          depth' := depth'[n := k + 1];
        } else {
          SeenStep(backptrs', depth', b, ply, k, nextply', ns, j);
        }
      }
      assert c == Cell(c.x, c.y);
    }

    /** Every cell of s is known, at most at level k + 1. */
    ghost predicate Covered(s: seq<Cell>, j: nat, depth: map<Cell, nat>, k: nat)
      requires j <= |s|
    {
      forall q :: 0 <= q < j ==> s[q] in depth && depth[s[q]] <= k + 1
    }

    /** Queuing the unseen open neighbour n of c keeps every invariant of the inner loop. */
    lemma VisitStep(bp: map<Cell, Back>, depth: map<Cell, nat>, b: Cell, ply: seq<Cell>, k: nat, nextply: seq<Cell>,
                    c: Cell, s: seq<Cell>, j: nat, bp0: map<Cell, Back>, depth0: map<Cell, nat>, bp1: map<Cell, Back>)
      requires Valid() && Bordered() && Expanding(bp, depth, b, ply, k, nextply) && Grown(bp0, bp, nextply)
      requires j < |s| && Keeps(depth0, depth) && Keeps(bp1, bp) && Covered(s, j, depth, k)
      requires c in ply && Open(c, s[j]) && s[j] !in bp
      ensures Expanding(bp[s[j] := From(c)], depth[s[j] := k + 1], b, ply, k, nextply + [s[j]])
      ensures Grown(bp0, bp[s[j] := From(c)], nextply + [s[j]])
      ensures Keeps(depth0, depth[s[j] := k + 1]) && Keeps(bp1, bp[s[j] := From(c)])
      ensures Covered(s, j + 1, depth[s[j] := k + 1], k)
    {
      Visit(bp, depth, b, ply, k, nextply, c, s[j]);
      GrowStep(bp, depth, k, nextply, s, j, bp0, depth0, From(c), bp1);
    }

    /** Recording s[j] at level k + 1 keeps the bookkeeping of the inner loop. */
    lemma GrowStep(bp: map<Cell, Back>, depth: map<Cell, nat>, k: nat, nextply: seq<Cell>,
                   s: seq<Cell>, j: nat, bp0: map<Cell, Back>, depth0: map<Cell, nat>, v: Back, bp1: map<Cell, Back>)
      requires Grown(bp0, bp, nextply) && bp.Keys == depth.Keys
      requires j < |s| && Keeps(depth0, depth) && Keeps(bp1, bp) && Covered(s, j, depth, k) && s[j] !in bp
      ensures Grown(bp0, bp[s[j] := v], nextply + [s[j]])
      ensures Keeps(depth0, depth[s[j] := k + 1]) && Keeps(bp1, bp[s[j] := v])
      ensures Covered(s, j + 1, depth[s[j] := k + 1], k)
    {
    }

    /** Skipping a neighbour that already has a backpointer keeps it covered. */
    lemma SeenStep(bp: map<Cell, Back>, depth: map<Cell, nat>, b: Cell, ply: seq<Cell>, k: nat, nextply: seq<Cell>,
                   s: seq<Cell>, j: nat)
      requires Valid() && Expanding(bp, depth, b, ply, k, nextply)
      requires j < |s| && Covered(s, j, depth, k) && s[j] in bp
      ensures Covered(s, j + 1, depth, k)
    {
    }

    /** The entries added since bp0 are exactly the ones queued in nextply. */
    ghost predicate Grown(bp0: map<Cell, Back>, bp: map<Cell, Back>, nextply: seq<Cell>)
    {
      && bp0.Keys <= bp.Keys
      && (forall c :: c in bp && c !in bp0 ==> c in nextply)
      && (forall c :: c in nextply ==> c in bp && c !in bp0)
    }

    /** The invariant while the frontier ply at depth k is expanded into nextply. */
    ghost predicate Expanding(bp: map<Cell, Back>, depth: map<Cell, nat>, b: Cell, ply: seq<Cell>, k: nat, nextply: seq<Cell>)
      requires Valid()
      reads grid
    {
      && SearchTree(bp, depth, b)
      && Levels(depth, ply, k, nextply)
      && Closed(bp, depth, k)
    }

    /** Every depth is at most k + 1; ply holds exactly the level k and nextply exactly the level k + 1. */
    ghost predicate Levels(depth: map<Cell, nat>, ply: seq<Cell>, k: nat, nextply: seq<Cell>)
    {
      && (forall c :: c in depth ==> depth[c] <= k + 1)
      && (forall c :: c in ply ==> c in depth && depth[c] == k)
      && (forall c :: c in depth && depth[c] == k ==> c in ply)
      && (forall c :: c in nextply ==> c in depth && depth[c] == k + 1)
      && (forall c :: c in depth && depth[c] == k + 1 ==> c in nextply)
    }

    /** A new cell at level k + 1 joins the next frontier. */
    lemma VisitLevels(depth: map<Cell, nat>, ply: seq<Cell>, k: nat, nextply: seq<Cell>, n: Cell)
      requires Levels(depth, ply, k, nextply) && n !in depth
      ensures Levels(depth[n := k + 1], ply, k, nextply + [n])
    {
    }

    /** Giving the unvisited open neighbour n of frontier cell c its backpointer keeps the search invariant. */
    lemma Visit(bp: map<Cell, Back>, depth: map<Cell, nat>, b: Cell, ply: seq<Cell>, k: nat, nextply: seq<Cell>, c: Cell, n: Cell)
      requires Valid() && Bordered() && Expanding(bp, depth, b, ply, k, nextply)
      requires c in ply && Open(c, n) && n !in bp
      ensures Expanding(bp[n := From(c)], depth[n := k + 1], b, ply, k, nextply + [n])
    {
      OpenStaysOnMaze(c, n);
      VisitTree(bp, depth, b, c, n, k);
      VisitClosed(bp, depth, n, From(c), k);
      VisitLevels(depth, ply, k, nextply, n);
    }

    /** Adding one tree edge from c (at depth k) to the new cell n keeps a search tree. */
    lemma VisitTree(bp: map<Cell, Back>, depth: map<Cell, nat>, b: Cell, c: Cell, n: Cell, k: nat)
      requires Valid() && SearchTree(bp, depth, b)
      requires c in depth && depth[c] == k && Open(c, n) && OnMaze(n.x, n.y) && n !in bp
      ensures SearchTree(bp[n := From(c)], depth[n := k + 1], b)
    {
      VisitRooted(bp, depth, c, n, k);
      VisitEdges(bp, b, c, n);
    }

    /** The new entry n, one level below c, keeps depth a ranking of the backpointers. */
    lemma VisitRooted(bp: map<Cell, Back>, depth: map<Cell, nat>, c: Cell, n: Cell, k: nat)
      requires Rooted(bp, depth) && bp.Keys == depth.Keys
      requires c in bp && depth[c] == k && n !in bp
      ensures Rooted(bp[n := From(c)], depth[n := k + 1])
    {
      var bp', depth' := bp[n := From(c)], depth[n := k + 1];
      forall x | x in bp'
        ensures x in depth'
        ensures bp'[x].Start? ==> depth'[x] == 0
        ensures bp'[x].From? ==> bp'[x].prev in bp' && bp'[x].prev in depth' && depth'[x] == depth'[bp'[x].prev] + 1
      {
        if x != n {
          assert bp'[x] == bp[x];
        }
      }
    }

    /** A backpointer across an open side keeps the tree edges open. */
    lemma VisitEdges(bp: map<Cell, Back>, b: Cell, c: Cell, n: Cell)
      requires Valid() && TreeEdges(bp, b) && Open(c, n) && n !in bp
      ensures TreeEdges(bp[n := From(c)], b)
    {
      var bp' := bp[n := From(c)];
      forall x | x in bp'
        ensures bp'[x].Start? ==> x == b
        ensures bp'[x].From? ==> Open(bp'[x].prev, x)
      {
        if x != n {
          assert bp'[x] == bp[x];
        }
      }
    }

    /** A new entry at depth k + 1 does not disturb the closure of the levels above k. */
    lemma VisitClosed(bp: map<Cell, Back>, depth: map<Cell, nat>, n: Cell, v: Back, k: nat)
      requires Valid() && Closed(bp, depth, k) && bp.Keys == depth.Keys && n !in bp
      ensures Closed(bp[n := v], depth[n := k + 1], k)
    {
    }

    /** Once every cell of the frontier has been expanded, the next frontier is the layer below. */
    lemma NextLayer(bp: map<Cell, Back>, depth: map<Cell, nat>, b: Cell, ply: seq<Cell>, k: nat, nextply: seq<Cell>)
      requires Valid() && Expanding(bp, depth, b, ply, k, nextply)
      requires Processed(ply, |ply|, depth, k)
      ensures Layered(bp, depth, b, nextply, k + 1)
    {
    }

    /** Every open side of every cell of s leads into depth, at most at level k + 1. */
    ghost predicate Processed(s: seq<Cell>, i: nat, depth: map<Cell, nat>, k: nat)
      requires Valid() && i <= |s|
      reads grid
    {
      forall p, n {:trigger Open(s[p], n)} :: 0 <= p < i && Open(s[p], n) ==> n in depth && depth[n] <= k + 1
    }

    /** Expanding s[i], with earlier entries kept, extends the processed prefix by one cell. */
    lemma ProcessedStep(s: seq<Cell>, i: nat, depth: map<Cell, nat>, depth': map<Cell, nat>, k: nat)
      requires Valid() && i < |s| && Processed(s, i, depth, k) && Keeps(depth, depth')
      requires forall n :: Open(s[i], n) ==> n in depth' && depth'[n] <= k + 1
      ensures Processed(s, i + 1, depth', k)
    {
    }

    /**
      maze.rb `walk`: None when either end is off the maze or the end cannot
      be reached; otherwise a shortest walk from the beginning to the end.
     */
    method Walk(begX: int, begY: int, endX: int, endY: int) returns (r: Option<seq<Cell>>)
      requires Valid() && Bordered()
      ensures !(OnMaze(begX, begY) && OnMaze(endX, endY)) ==> r == None
      ensures r.Some? ==> IsWalk(r.value, Cell(begX, begY), Cell(endX, endY))
      ensures r.Some? ==> forall q :: IsWalk(q, Cell(begX, begY), Cell(endX, endY)) ==> |r.value| <= |q|
      ensures r.None? && OnMaze(begX, begY) && OnMaze(endX, endY) ==>
        forall q :: !IsWalk(q, Cell(begX, begY), Cell(endX, endY))
    {
      if !(OnMaze(begX, begY) && OnMaze(endX, endY)) {
        return None;
      }
      var b, e := Cell(begX, begY), Cell(endX, endY);
      var backptrs, depth := Explore(b);
      r := Walkback(backptrs, endX, endY, depth);
      forall q | IsWalk(q, b, e)
        ensures e in backptrs && depth[e] <= |q| - 1
      {
        DepthBound(backptrs, depth, b, q);
      }
      if r.Some? {
        var p := r.value;
        assert p[0] == b;
        forall i | 0 <= i < |p| - 1
          ensures Open(p[i], p[i + 1])
        {
          assert backptrs[p[i + 1]] == From(p[i]);
        }
      }
    }

    /**
      maze.rb `solve`: whether a walk from the beginning to the end exists
      (the truth value of the path `walk` returns).
     */
    method Solve(begX: int, begY: int, endX: int, endY: int) returns (found: bool)
      requires Valid() && Bordered()
      ensures found <==> OnMaze(begX, begY) && OnMaze(endX, endY) && Reachable(Cell(begX, begY), Cell(endX, endY))
    {
      var r := Walk(begX, begY, endX, endY);
      found := r.Some?;
      if found {
        assert IsWalk(r.value, Cell(begX, begY), Cell(endX, endY));
      }
    }

    /**
      maze.rb `trace` without the printing: when a walk is found, each cell
      centre on it is marked 2 and then reset to 0, one cell after the other.
     */
    method Trace(begX: int, begY: int, endX: int, endY: int) returns (found: bool, ghost path: seq<Cell>)
      requires Valid() && Bordered()
      modifies grid
      ensures found <==> OnMaze(begX, begY) && OnMaze(endX, endY) && old(Reachable(Cell(begX, begY), Cell(endX, endY)))
      ensures found ==> old(IsWalk(path, Cell(begX, begY), Cell(endX, endY)))
      ensures found ==> old(forall q :: IsWalk(q, Cell(begX, begY), Cell(endX, endY)) ==> |path| <= |q|)
      ensures !found ==> path == []
      ensures forall i, j :: 0 <= i < grid.Length0 && 0 <= j < grid.Length1 ==>
        grid[i, j] == if IsCentre(i, j) && CentreCell(i, j) in path then 0 else old(grid[i, j])
      ensures Bordered()
    {
      var r := Walk(begX, begY, endX, endY);
      if r.None? {
        assert OnMaze(begX, begY) && OnMaze(endX, endY) ==> !Reachable(Cell(begX, begY), Cell(endX, endY));
        return false, [];
      }
      var sol := r.value;
      found, path := true, sol;
      assert IsWalk(sol, Cell(begX, begY), Cell(endX, endY));
      forall q | 0 <= q < |sol|
        ensures OnMaze(sol[q].x, sol[q].y)
      {
        if q < |sol| - 1 {
          assert Open(sol[q], sol[q + 1]);
        }
      }
      Stamp(sol);
    }

    /** The loop of maze.rb `trace`: each centre on the path is marked 2, then reset to 0. */
    method Stamp(path: seq<Cell>)
      requires Valid() && forall q :: 0 <= q < |path| ==> OnMaze(path[q].x, path[q].y)
      modifies grid
      ensures forall i, j :: 0 <= i < grid.Length0 && 0 <= j < grid.Length1 ==>
        grid[i, j] == if IsCentre(i, j) && CentreCell(i, j) in path then 0 else old(grid[i, j])
    {
      ghost var done: seq<Cell> := [];
      for k := 0 to |path|
        invariant done == path[..k]
        invariant forall i, j :: 0 <= i < grid.Length0 && 0 <= j < grid.Length1 ==>
          grid[i, j] == if IsCentre(i, j) && CentreCell(i, j) in done then 0 else old(grid[i, j])
      {
        var gx, gy := M2G(path[k].x), M2G(path[k].y);
        grid[gy, gx] := 2;
        grid[gy, gx] := 0;
        done := done + [path[k]];
      }
      assert path[..|path|] == path;
    }

    /** Row y holds a wall from the centre of column lo to the centre of column hi, open only at column p. */
    ghost predicate HorzWall(y: int, lo: int, hi: int, p: int)
      requires Valid()
      reads grid
    {
      && 0 <= y < grid.Length0 && lo <= p < hi
      && forall j :: 0 <= j < grid.Length1 && M2G(lo) <= j <= M2G(hi) ==> grid[y, j] == (if j == M2G(p) then 0 else 1)
    }

    /** Column x holds a wall from the centre of row lo to the centre of row hi, open only at row p. */
    ghost predicate VertWall(x: int, lo: int, hi: int, p: int)
      requires Valid()
      reads grid
    {
      && 0 <= x < grid.Length1 && lo <= p < hi
      && forall i :: 0 <= i < grid.Length0 && M2G(lo) <= i <= M2G(hi) ==> grid[i, x] == (if i == M2G(p) then 0 else 1)
    }

    /**
      maze.rb `draw_horz_wall`: render row y becomes wall from the centre of
      column lo to the centre of column hi, then one passage p with
      lo <= p < hi is opened; p is the random pick.
     */
    method DrawHorzWall(y: int, lo: int, hi: int) returns (p: int)
      requires Valid() && 0 <= y < grid.Length0 && 0 <= lo < hi <= W
      modifies grid
      ensures lo <= p < hi
      ensures forall i, j :: 0 <= i < grid.Length0 && 0 <= j < grid.Length1 ==>
        grid[i, j] == if i == y && j == M2G(p) then 0
                      else if i == y && M2G(lo) <= j <= M2G(hi) then 1
                      else old(grid[i, j])
      ensures HorzWall(y, lo, hi, p)
    {
      for j := 0 to grid.Length1
        invariant forall i, j' :: 0 <= i < grid.Length0 && 0 <= j' < grid.Length1 ==>
          grid[i, j'] == if i == y && j' < j && M2G(lo) <= j' <= M2G(hi) then 1 else old(grid[i, j'])
      {
        if M2G(lo) <= j <= M2G(hi) {
          grid[y, j] := 1;
        }
      }
      p :| lo <= p < hi;
      grid[y, M2G(p)] := 0;
    }

    /**
      maze.rb `draw_vert_wall`: render column x becomes wall from the centre
      of row lo to the centre of row hi, then one passage p with lo <= p < hi
      is opened; p is the random pick.
     */
    method DrawVertWall(x: int, lo: int, hi: int) returns (p: int)
      requires Valid() && 0 <= x < grid.Length1 && 0 <= lo < hi <= H
      modifies grid
      ensures lo <= p < hi
      ensures forall i, j :: 0 <= i < grid.Length0 && 0 <= j < grid.Length1 ==>
        grid[i, j] == if j == x && i == M2G(p) then 0
                      else if j == x && M2G(lo) <= i <= M2G(hi) then 1
                      else old(grid[i, j])
      ensures VertWall(x, lo, hi, p)
    {
      for i := 0 to grid.Length0
        invariant forall i', j :: 0 <= i' < grid.Length0 && 0 <= j < grid.Length1 ==>
          grid[i', j] == if j == x && i' < i && M2G(lo) <= i' <= M2G(hi) then 1 else old(grid[i', j])
      {
        if M2G(lo) <= i <= M2G(hi) {
          grid[i, x] := 1;
        }
      }
      p :| lo <= p < hi;
      grid[M2G(p), x] := 0;
    }

    /** Render cell (i, j) lies in the rectangle spanned by the centres of cells x0..x1 by y0..y1. */
    predicate InRegion(i: int, j: int, x0: int, x1: int, y0: int, y1: int)
    {
      M2G(y0) <= i <= M2G(y1) && M2G(x0) <= j <= M2G(x1)
    }

    /** The walls right of column v and below row h of the region x0..x1 by y0..y1, each with one passage. */
    ghost predicate DivisionWalls(x0: int, x1: int, y0: int, y1: int, v: int, h: int, pv: int, ph: int)
      requires Valid()
      reads grid
    {
      x0 <= v < x1 && y0 <= h < y1 && VertWall(2 * v + 2, y0, y1, pv) && HorzWall(2 * h + 2, x0, x1, ph)
    }

    /** The region x0..x1 by y0..y1 has been split by a wall right of some column and below some row. */
    ghost predicate Divided(x0: int, x1: int, y0: int, y1: int)
      requires Valid()
      reads grid
    {
      exists v, h, pv, ph :: DivisionWalls(x0, x1, y0, y1, v, h, pv, ph)
    }

    /**
      maze.rb `recursive_div` on the cell region x0...x1 by y0...y1 (the
      begin and end of its two half-open ranges): a region one cell wide is left
      alone; otherwise a wall with one passage goes right of a random column
      v and below a random row h, and the four quadrants are divided in turn.
     */
    method RecursiveDiv(x0: int, x1: int, y0: int, y1: int)
      requires Valid()
      requires x0 == x1 || y0 == y1 || (0 <= x0 < x1 <= W && 0 <= y0 < y1 <= H)
      modifies grid
      decreases (x1 - x0) + (y1 - y0), 1
      ensures x0 == x1 || y0 == y1 ==>
        forall i, j :: 0 <= i < grid.Length0 && 0 <= j < grid.Length1 ==> grid[i, j] == old(grid[i, j])
      ensures forall i, j :: 0 <= i < grid.Length0 && 0 <= j < grid.Length1 && !InRegion(i, j, x0, x1, y0, y1) ==>
        grid[i, j] == old(grid[i, j])
      ensures forall i, j :: 0 <= i < grid.Length0 && 0 <= j < grid.Length1 && IsCentre(i, j) ==>
        grid[i, j] == old(grid[i, j])
      ensures forall i, j :: 0 <= i < grid.Length0 && 0 <= j < grid.Length1 ==>
        grid[i, j] == old(grid[i, j]) || grid[i, j] == 0 || grid[i, j] == 1
      ensures !(x0 == x1 || y0 == y1) ==> Divided(x0, x1, y0, y1)
    {
      if x0 == x1 || y0 == y1 {
        return;
      }
      var v :| x0 <= v < x1;
      var h :| y0 <= h < y1;
      var pv := DrawVertWall(2 * v + 2, y0, y1);
      var ph := DrawHorzWall(2 * h + 2, x0, x1);
      assert VertWall(2 * v + 2, y0, y1, pv);
      DivideQuadrants(x0, v, x1, y0, h, y1);
      assert DivisionWalls(x0, x1, y0, y1, v, h, pv, ph);
    }

    /** The quadrants around split column v and split row h never reach (i, j). */
    predicate Spared(i: int, j: int, x0: int, v: int, x1: int, y0: int, h: int, y1: int)
    {
      !InRegion(i, j, x0, x1, y0, y1) || j == 2 * v + 2 || i == 2 * h + 2 || IsCentre(i, j)
    }

    /**
      The four recursive calls of maze.rb `recursive_div` around the split
      column v and split row h: they write only inside the region and leave
      the render column right of v and the render row below h alone.
     */
    method DivideQuadrants(x0: int, v: int, x1: int, y0: int, h: int, y1: int)
      requires Valid() && 0 <= x0 <= v < x1 <= W && 0 <= y0 <= h < y1 <= H
      modifies grid
      decreases (x1 - x0) + (y1 - y0), 0
      ensures forall i, j :: 0 <= i < grid.Length0 && 0 <= j < grid.Length1 && Spared(i, j, x0, v, x1, y0, h, y1) ==>
        grid[i, j] == old(grid[i, j])
      ensures forall i, j :: 0 <= i < grid.Length0 && 0 <= j < grid.Length1 ==>
        grid[i, j] == old(grid[i, j]) || grid[i, j] == 0 || grid[i, j] == 1
    {
      RecursiveDiv(x0, v, y0, h);
      RecursiveDiv(v + 1, x1, y0, h);
      RecursiveDiv(x0, v, h + 1, y1);
      RecursiveDiv(v + 1, x1, h + 1, y1);
    }

    /**
      maze.rb `draw_borders`: the first and last render rows, then the first
      and last render columns, become wall; nothing else changes.
     */
    method DrawBorders()
      requires Valid()
      modifies grid
      ensures forall i, j :: 0 <= i < grid.Length0 && 0 <= j < grid.Length1 ==>
        grid[i, j] == if OnBorder(i, j) then 1 else old(grid[i, j])
      ensures Bordered()
    {
      var last := grid.Length0 - 1;
      for j := 0 to grid.Length1
        invariant forall i, j' :: 0 <= i < grid.Length0 && 0 <= j' < grid.Length1 ==>
          grid[i, j'] == if i == 0 && j' < j then 1 else old(grid[i, j'])
      {
        grid[0, j] := 1;
      }
      for j := 0 to grid.Length1
        invariant forall i, j' :: 0 <= i < grid.Length0 && 0 <= j' < grid.Length1 ==>
          grid[i, j'] == if i == 0 || (i == last && j' < j) then 1 else old(grid[i, j'])
      {
        grid[last, j] := 1;
      }
      for i := 0 to grid.Length0
        invariant forall i', j :: 0 <= i' < grid.Length0 && 0 <= j < grid.Length1 ==>
          grid[i', j] == if i' == 0 || i' == last || (i' < i && (j == 0 || j == grid.Length1 - 1)) then 1 else old(grid[i', j])
      {
        grid[i, 0] := 1;
        grid[i, grid.Length1 - 1] := 1;
      }
    }

    /**
      maze.rb `redesign`: every render cell is cleared to 0, the border is
      walled and the whole maze is divided. The division needs both ranges
      non-empty unless one of them is a single cell.
     */
    method Redesign()
      requires Valid() && (W == 1 || H == 1 || (W >= 2 && H >= 2))
      modifies grid
      ensures Bordered()
      ensures forall i, j :: 0 <= i < grid.Length0 && 0 <= j < grid.Length1 && IsCentre(i, j) ==> grid[i, j] == 0
      ensures forall i, j :: 0 <= i < grid.Length0 && 0 <= j < grid.Length1 ==> grid[i, j] == 0 || grid[i, j] == 1
      ensures W >= 2 && H >= 2 ==> Divided(0, W - 1, 0, H - 1)
    {
      for i := 0 to grid.Length0
        invariant forall i', j :: 0 <= i' < i && 0 <= j < grid.Length1 ==> grid[i', j] == 0
      {
        for j := 0 to grid.Length1
          invariant forall i', j' :: 0 <= i' < i && 0 <= j' < grid.Length1 ==> grid[i', j'] == 0
          invariant forall j' :: 0 <= j' < j ==> grid[i, j'] == 0
        {
          grid[i, j] := 0;
        }
      }
      DrawBorders();
      RecursiveDiv(0, W - 1, 0, H - 1);
    }

    /**
      maze.rb `load`: the characters of s, each read as a digit, fill the
      render grid row by row; characters past the last cell are ignored.
     */
    method Load(s: string)
      requires Valid() && |s| >= grid.Length0 * grid.Length1
      modifies grid
      ensures forall i, j :: 0 <= i < grid.Length0 && 0 <= j < grid.Length1 ==>
        grid[i, j] == DigitValue(RowMajor(s, grid.Length0, grid.Length1, i, j))
      ensures forall i, j :: 0 <= i < grid.Length0 && 0 <= j < grid.Length1 && '0' <= RowMajor(s, grid.Length0, grid.Length1, i, j) <= '9' ==>
        0 <= grid[i, j] <= 9 && DigitChar(grid[i, j]) == RowMajor(s, grid.Length0, grid.Length1, i, j)
    {
      var ints := seq(|s|, k requires 0 <= k < |s| => DigitValue(s[k]));
      ghost var used := 0;
      for i := 0 to grid.Length0
        invariant used == i * grid.Length1 && used + |ints| == |s|
        invariant forall k :: 0 <= k < |ints| ==> ints[k] == DigitValue(s[used + k])
        invariant forall i', j :: 0 <= i' < i && 0 <= j < grid.Length1 ==>
          grid[i', j] == DigitValue(RowMajor(s, grid.Length0, grid.Length1, i', j))
      {
        NextRow(s, grid.Length0, grid.Length1, i, used, ints);
        var row := ints[..grid.Length1];
        ints := ints[grid.Length1..];
        FillRow(i, row);
        used := used + grid.Length1;
      }
    }

    /** One step of maze.rb `load`: render row i takes the values of row. */
    method FillRow(i: int, row: seq<int>)
      requires Valid() && 0 <= i < grid.Length0 && |row| == grid.Length1
      modifies grid
      ensures forall i', j :: 0 <= i' < grid.Length0 && 0 <= j < grid.Length1 ==>
        grid[i', j] == if i' == i then row[j] else old(grid[i', j])
    {
      for j := 0 to grid.Length1
        invariant forall i', j' :: 0 <= i' < grid.Length0 && 0 <= j' < grid.Length1 ==>
          grid[i', j'] == if i' == i && j' < j then row[j'] else old(grid[i', j'])
      {
        grid[i, j] := row[j];
      }
    }
  }

  /** The character of s that row-major order puts at row i, column j of a rows by cols grid. */
  function RowMajor(s: string, rows: nat, cols: nat, i: nat, j: nat): char
    requires |s| >= rows * cols && i < rows && j < cols
  {
    RowFits(i, rows, cols);
    s[i * cols + j]
  }

  /**
    When row i of a rows by cols grid starts at position used of s and ints
    holds the digit values of s from there on, the first cols of ints are
    the values of row i and the rest start at row i + 1.
   */
  lemma NextRow(s: string, rows: nat, cols: nat, i: nat, used: int, ints: seq<int>)
    requires |s| >= rows * cols && i < rows && used == i * cols && used + |ints| == |s|
    requires forall k :: 0 <= k < |ints| ==> ints[k] == DigitValue(s[used + k])
    ensures cols <= |ints| && used + cols == (i + 1) * cols
    ensures forall j :: 0 <= j < cols ==> ints[j] == DigitValue(RowMajor(s, rows, cols, i, j))
    ensures forall k :: cols <= k < |ints| ==> ints[k] == DigitValue(s[used + k])
  {
    RowFits(i, rows, cols);
  }

  /** Row i of a rows by cols grid ends within the first rows * cols positions. */
  lemma RowFits(i: nat, rows: nat, cols: nat)
    requires i < rows
    ensures i * cols + cols <= rows * cols
  {
    calc {
      i * cols + cols;
      (i + 1) * cols;
    <= { MulLeq(i + 1, rows, cols); }
      rows * cols;
    }
  }

  lemma MulLeq(a: nat, b: nat, c: nat)
    requires a <= b
    ensures a * c <= b * c
  {
  }
}
