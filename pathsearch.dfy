/**
 * The connection test both engines share: a breadth-first search from one
 * tile to another over the cells whose tiles have been removed.
 *
 * Two tiles connect when a corridor of orthogonally adjacent cells leads
 * from one to the other and every cell strictly between them is EMPTY.
 * The search keeps a visited flag and a back-pointer per cell and a FIFO
 * queue of cells; a cell is enqueued when it is EMPTY or is the target.
 * It answers the corridor with the fewest steps, or the empty list when
 * there is none.
 */
module PathSearch {
  import opened Grid

  /** The four moves in the order the search tries them: down a row, up a row, right, left. */
  const DX: seq<int> := [1, -1, 0, 0]
  const DY: seq<int> := [0, 0, 1, -1]

  function Step(p: Pos, k: nat): Pos
    requires k < 4
  {
    (p.0 + DX[k], p.1 + DY[k])
  }

  /** p and q are orthogonal neighbours. */
  predicate Adjacent(p: Pos, q: Pos) {
    (p.0 == q.0 && (p.1 - q.1 == 1 || q.1 - p.1 == 1))
    || (p.1 == q.1 && (p.0 - q.0 == 1 || q.0 - p.0 == 1))
  }

  /** The four moves reach exactly the neighbours of p. */
  lemma AdjacentStep(p: Pos, q: Pos) returns (k: nat)
    requires Adjacent(p, q)
    ensures k < 4 && Step(p, k) == q
  {
    if q.0 == p.0 + 1 {
      k := 0;
    } else if q.0 == p.0 - 1 {
      k := 1;
    } else if q.1 == p.1 + 1 {
      k := 2;
    } else {
      k := 3;
    }
  }

  lemma StepAdjacent(p: Pos, k: nat)
    requires k < 4
    ensures Adjacent(p, Step(p, k))
  {
  }

  /** The search may enter p on its way to end: p is EMPTY, or p is end itself. */
  predicate Passable(g: Grid, p: Pos, end: Pos)
    requires InBounds(|g|, p)
  {
    At(g, p) == EMPTY || p == end
  }

  /** w is a corridor: neighbouring cells of the board, every cell strictly inside it EMPTY. */
  ghost predicate IsWalk(g: Grid, w: seq<Pos>) {
    |w| >= 1
    && (forall i :: 0 <= i < |w| ==> InBounds(|g|, w[i]))
    && (forall i :: 0 <= i < |w| - 1 ==> Adjacent(w[i], w[i + 1]))
    && (forall i :: 0 < i < |w| - 1 ==> At(g, w[i]) == EMPTY)
  }

  ghost predicate IsPath(g: Grid, w: seq<Pos>, a: Pos, b: Pos) {
    IsWalk(g, w) && w[0] == a && w[|w| - 1] == b
  }

  /** Some corridor leads from a to b. */
  ghost predicate Connected(g: Grid, a: Pos, b: Pos) {
    exists w :: IsPath(g, w, a, b)
  }

  function Reversed(w: seq<Pos>): (r: seq<Pos>)
    ensures |r| == |w|
    ensures forall i :: 0 <= i < |w| ==> r[i] == w[|w| - 1 - i]
  {
    if w == [] then [] else Reversed(w[1..]) + [w[0]]
  }

  /** A corridor read backwards is a corridor between the same two tiles. */
  lemma ReversedPath(g: Grid, w: seq<Pos>, a: Pos, b: Pos)
    requires IsPath(g, w, a, b)
    ensures IsPath(g, Reversed(w), b, a)
  {
    var r := Reversed(w);
    forall i | 0 <= i < |r| - 1
      ensures Adjacent(r[i], r[i + 1])
    {
      assert Adjacent(w[|w| - 2 - i], w[|w| - 1 - i]);
    }
    forall i | 0 < i < |r| - 1
      ensures At(g, r[i]) == EMPTY
    {
      assert r[i] == w[|w| - 1 - i];
    }
  }

  lemma ConnectedSymmetric(g: Grid, a: Pos, b: Pos)
    ensures Connected(g, a, b) <==> Connected(g, b, a)
  {
    if Connected(g, a, b) {
      var w :| IsPath(g, w, a, b);
      ReversedPath(g, w, a, b);
    }
    if Connected(g, b, a) {
      var w :| IsPath(g, w, b, a);
      ReversedPath(g, w, b, a);
    }
  }

  /**
   * Every cell the search has reached and already expanded (it is in dist
   * but no longer in the frontier) has all its enterable neighbours reached.
   */
  ghost predicate Closed(g: Grid, end: Pos, dist: map<Pos, nat>, frontier: seq<Pos>) {
    forall v, u {:trigger Adjacent(v, u), v in dist} ::
      v in dist && v !in frontier && InBounds(|g|, u) && Adjacent(v, u) && Passable(g, u, end)
      ==> u in dist
  }

  /** No corridor from start reaches a reached cell in fewer steps than its recorded distance. */
  ghost predicate LowerBound(g: Grid, start: Pos, dist: map<Pos, nat>) {
    forall w :: IsWalk(g, w) && w[0] == start && w[|w| - 1] in dist ==> dist[w[|w| - 1]] <= |w| - 1
  }

  /**
   * The back-pointers the search records: every reached cell other than
   * start is enterable and points back to a reached neighbour one step
   * closer to start; start points nowhere.
   */
  ghost predicate PrevTree(g: Grid, prev: array2<Option<Pos>>, start: Pos, end: Pos, dist: map<Pos, nat>)
    reads prev
  {
    prev.Length0 == |g| && prev.Length1 == |g|
    && (forall p :: p in dist ==> InBounds(|g|, p))
    && start in dist && dist[start] == 0 && prev[start.0, start.1] == None
    && forall p {:trigger prev[p.0, p.1]} :: p in dist && p != start ==>
         Passable(g, p, end)
         && prev[p.0, p.1].Some?
         && prev[p.0, p.1].value in dist
         && Adjacent(prev[p.0, p.1].value, p)
         && dist[p] == dist[prev[p.0, p.1].value] + 1
  }

  /**
   * Walking along a corridor from a reached cell, one meets a frontier cell
   * before leaving the reached cells, or never leaves them.
   */
  lemma Frontier(g: Grid, end: Pos, dist: map<Pos, nat>, frontier: seq<Pos>, w: seq<Pos>) returns (k: nat)
    requires IsWalk(g, w) && w[0] in dist
    requires Passable(g, w[|w| - 1], end)
    requires Closed(g, end, dist, frontier)
    ensures k < |w| && w[k] in dist
    ensures k == |w| - 1 || w[k] in frontier
  {
    k := 0;
    while k < |w| - 1 && w[k] !in frontier
      invariant k < |w| && w[k] in dist
    {
      assert Adjacent(w[k], w[k + 1]);
      assert Passable(g, w[k + 1], end);
      k := k + 1;
    }
  }

  /**
   * Reaching a new cell u at distance d + 1 from a cell at distance d keeps
   * every recorded distance a lower bound, provided no frontier cell is
   * closer than d.
   */
  lemma ExtendLowerBound(g: Grid, start: Pos, end: Pos, dist: map<Pos, nat>, frontier: seq<Pos>, u: Pos, d: nat)
    requires LowerBound(g, start, dist) && Closed(g, end, dist, frontier)
    requires start in dist
    requires forall q :: q in frontier ==> q in dist && d <= dist[q]
    requires InBounds(|g|, u) && Passable(g, u, end) && u !in dist
    ensures LowerBound(g, start, dist[u := d + 1])
  {
    var dist' := dist[u := d + 1];
    forall w | IsWalk(g, w) && w[0] == start && w[|w| - 1] in dist'
      ensures dist'[w[|w| - 1]] <= |w| - 1
    {
      if w[|w| - 1] == u {
        var k := Frontier(g, end, dist, frontier, w);
        assert w[k] != u;
        assert k < |w| - 1 && w[k] in frontier;
        var prefix := w[..k + 1];
        assert IsWalk(g, prefix) && prefix[0] == start && prefix[|prefix| - 1] == w[k];
        assert dist[w[k]] <= k;
      } else {
        assert w[|w| - 1] in dist;
      }
    }
  }

  /** With an empty frontier, every corridor from a reached cell ends at a reached cell. */
  lemma ClosedReach(g: Grid, end: Pos, dist: map<Pos, nat>)
    requires Closed(g, end, dist, [])
    ensures forall w :: IsWalk(g, w) && w[0] in dist && Passable(g, w[|w| - 1], end) ==> w[|w| - 1] in dist
  {
    forall w | IsWalk(g, w) && w[0] in dist && Passable(g, w[|w| - 1], end)
      ensures w[|w| - 1] in dist
    {
      var k := Frontier(g, end, dist, [], w);
    }
  }

  /** The expansion of current, direction by direction. */
  ghost predicate Expanded(g: Grid, end: Pos, dist: map<Pos, nat>, current: Pos, i: nat)
    requires i <= 4
  {
    forall k :: 0 <= k < i && InBounds(|g|, Step(current, k)) && Passable(g, Step(current, k), end)
      ==> Step(current, k) in dist
  }

  lemma ExpandedStep(g: Grid, end: Pos, dist: map<Pos, nat>, dist': map<Pos, nat>, current: Pos, i: nat)
    requires i < 4 && Expanded(g, end, dist, current, i) && dist.Keys <= dist'.Keys
    requires InBounds(|g|, Step(current, i)) && Passable(g, Step(current, i), end) ==> Step(current, i) in dist'
    ensures Expanded(g, end, dist', current, i + 1)
  {
  }

  lemma CloseCurrent(g: Grid, end: Pos, dist: map<Pos, nat>, current: Pos, queue: seq<Pos>)
    requires Closed(g, end, dist, [current] + queue)
    requires Expanded(g, end, dist, current, 4)
    ensures Closed(g, end, dist, queue)
  {
    forall v, u | v in dist && v !in queue && InBounds(|g|, u) && Adjacent(v, u) && Passable(g, u, end)
      ensures u in dist
    {
      if v == current {
        var k := AdjacentStep(v, u);
      } else {
        assert v !in [current] + queue;
      }
    }
  }

  /**
   * The back-pointer walk from end (reconstructPath): follows prev from end
   * until a cell without one, building the corridor front to back.  The
   * source adds each cell at the back and reverses the list at the end,
   * which yields the same list.
   */
  method ReconstructPath(prev: array2<Option<Pos>>, end: Pos, ghost g: Grid, ghost start: Pos, ghost dist: map<Pos, nat>)
    returns (path: seq<Pos>)
    requires PrevTree(g, prev, start, end, dist) && end in dist
    ensures IsPath(g, path, start, end)
    ensures |path| == dist[end] + 1
  {
    var at: Option<Pos> := Some(end);
    path := [];
    while at.Some?
      invariant forall i :: 0 <= i < |path| ==> path[i] in dist && dist[path[i]] + (|path| - 1 - i) == dist[end]
      invariant at.Some? ==> at.value in dist
      invariant at.Some? && path == [] ==> at.value == end
      invariant at.Some? && path != [] ==> Adjacent(at.value, path[0]) && dist[path[0]] == dist[at.value] + 1
      invariant path != [] ==> at == prev[path[0].0, path[0].1]
      invariant at.None? ==> path != [] && path[0] == start
      invariant path != [] ==> path[|path| - 1] == end
      invariant forall i :: 0 <= i < |path| - 1 ==> Adjacent(path[i], path[i + 1])
      invariant forall i :: 0 < i < |path| - 1 ==> At(g, path[i]) == EMPTY
      decreases if at.Some? then dist[at.value] + 1 else 0
    {
      var p := at.value;
      if |path| >= 2 {
        assert path[0] != start && path[0] != end;
        assert At(g, path[0]) == EMPTY;
      }
      path := [p] + path;
      at := prev[p.0, p.1];
    }
  }

  /** The visited flags mark exactly the reached cells. */
  ghost predicate VisitedIsReached(visited: array2<bool>, dist: map<Pos, nat>)
    reads visited
  {
    forall x, y {:trigger visited[x, y]} :: 0 <= x < visited.Length0 && 0 <= y < visited.Length1 ==> (visited[x, y] <==> (x, y) in dist)
  }

  /** The queue holds reached cells in order of distance, all within one step of d. */
  ghost predicate Layered(queue: seq<Pos>, dist: map<Pos, nat>, d: nat) {
    (forall q :: q in queue ==> q in dist && d <= dist[q] <= d + 1)
    && forall i, j :: 0 <= i <= j < |queue| ==> dist[queue[i]] <= dist[queue[j]]
  }

  /** A newly reached cell at distance d + 1 goes to the back of the queue without breaking its order. */
  lemma LayeredGrow(queue: seq<Pos>, dist: map<Pos, nat>, d: nat, u: Pos)
    requires Layered(queue, dist, d) && u !in dist
    ensures Layered(queue + [u], dist[u := d + 1], d)
  {
    var q', dist' := queue + [u], dist[u := d + 1];
    forall i, j | 0 <= i <= j < |q'|
      ensures dist'[q'[i]] <= dist'[q'[j]]
    {
      if j < |queue| {
        assert q'[i] == queue[i] && q'[j] == queue[j];
        assert queue[i] in dist && queue[j] in dist;
      } else if i < |queue| {
        assert q'[i] == queue[i] && queue[i] in dist;
      }
    }
  }

  /** Taking the head off a layered queue leaves it layered. */
  lemma LayeredTail(queue: seq<Pos>, dist: map<Pos, nat>, d: nat)
    requires queue != [] && Layered(queue, dist, d)
    ensures Layered(queue[1..], dist, d)
  {
    forall i, j | 0 <= i <= j < |queue| - 1
      ensures dist[queue[1..][i]] <= dist[queue[1..][j]]
    {
      assert queue[1..][i] == queue[i + 1] && queue[1..][j] == queue[j + 1];
    }
  }

  /** A non-empty layered queue is layered around the distance of its own head. */
  lemma LayeredRebase(queue: seq<Pos>, dist: map<Pos, nat>, d: nat)
    requires queue != [] && Layered(queue, dist, d)
    ensures Layered(queue, dist, dist[queue[0]])
  {
    forall q | q in queue
      ensures dist[queue[0]] <= dist[q]
    {
      var j :| 0 <= j < |queue| && queue[j] == q;
    }
  }

  /** Reaching one more cell, as part of the frontier, keeps the expanded cells closed. */
  lemma ClosedGrow(g: Grid, end: Pos, dist: map<Pos, nat>, frontier: seq<Pos>, u: Pos, du: nat)
    requires Closed(g, end, dist, frontier)
    ensures Closed(g, end, dist[u := du], frontier + [u])
  {
    var dist' := dist[u := du];
    forall v, w | v in dist' && v !in frontier + [u] && InBounds(|g|, w) && Adjacent(v, w) && Passable(g, w, end)
      ensures w in dist'
    {
      assert v in dist && v !in frontier;
    }
  }

  /**
   * Marks u visited, records current as its predecessor and appends it to
   * the queue, one step further from start than current.
   */
  method Visit(g: Grid, start: Pos, end: Pos, visited: array2<bool>, prev: array2<Option<Pos>>,
               current: Pos, u: Pos, queue0: seq<Pos>, ghost dist0: map<Pos, nat>)
    returns (queue: seq<Pos>, ghost dist: map<Pos, nat>)
    requires VisitedIsReached(visited, dist0) && PrevTree(g, prev, start, end, dist0)
    requires current in dist0 && Adjacent(current, u)
    requires InBounds(|g|, u) && u !in dist0 && Passable(g, u, end)
    requires visited.Length0 == |g| && visited.Length1 == |g|
    modifies visited, prev
    ensures VisitedIsReached(visited, dist) && PrevTree(g, prev, start, end, dist)
    ensures queue == queue0 + [u] && dist == dist0[u := dist0[current] + 1]
  {
    visited[u.0, u.1] := true;
    prev[u.0, u.1] := Some(current);
    queue := queue0 + [u];
    dist := dist0[u := dist0[current] + 1];
    forall p | p in dist0
      ensures prev[p.0, p.1] == old(prev[p.0, p.1])
    {
      assert p != u;
    }
    forall x, y | 0 <= x < |g| && 0 <= y < |g|
      ensures visited[x, y] <==> (x, y) in dist
    {
      if (x, y) != u {
        assert visited[x, y] == old(visited[x, y]);
      }
    }
  }

  /**
   * What holds after the first i moves out of current have been tried,
   * current being at distance d and keys0 and queue0 the reached cells and
   * the queue before the round.
   */
  ghost predicate Round(g: Grid, start: Pos, end: Pos, current: Pos, d: nat, keys0: set<Pos>, queue0: seq<Pos>,
                        dist: map<Pos, nat>, queue: seq<Pos>, i: nat)
    requires i <= 4
  {
    keys0 <= dist.Keys && (dist.Keys == keys0 ==> queue == queue0)
    && start in dist && current in dist && dist[current] == d && Layered(queue, dist, d)
    && Closed(g, end, dist, [current] + queue) && Expanded(g, end, dist, current, i)
    && LowerBound(g, start, dist) && (end in dist ==> end in queue)
  }

  /** Trying move i and visiting the new cell it leads to completes the round's first i + 1 moves. */
  lemma RoundVisit(g: Grid, start: Pos, end: Pos, current: Pos, d: nat, keys0: set<Pos>, queue0: seq<Pos>,
                   dist: map<Pos, nat>, queue: seq<Pos>, i: nat)
    requires i < 4 && Round(g, start, end, current, d, keys0, queue0, dist, queue, i)
    requires InBounds(|g|, Step(current, i)) && Passable(g, Step(current, i), end) && Step(current, i) !in dist
    ensures Round(g, start, end, current, d, keys0, queue0, dist[Step(current, i) := d + 1], queue + [Step(current, i)], i + 1)
  {
    var u := Step(current, i);
    ExtendLowerBound(g, start, end, dist, [current] + queue, u, d);
    ClosedGrow(g, end, dist, [current] + queue, u, d + 1);
    assert [current] + queue + [u] == [current] + (queue + [u]);
    LayeredGrow(queue, dist, d, u);
    ExpandedStep(g, end, dist, dist[u := d + 1], current, i);
  }

  /** Trying move i and finding nothing new to visit completes the round's first i + 1 moves. */
  lemma RoundSkip(g: Grid, start: Pos, end: Pos, current: Pos, d: nat, keys0: set<Pos>, queue0: seq<Pos>,
                  dist: map<Pos, nat>, queue: seq<Pos>, i: nat)
    requires i < 4 && Round(g, start, end, current, d, keys0, queue0, dist, queue, i)
    requires InBounds(|g|, Step(current, i)) && Passable(g, Step(current, i), end) ==> Step(current, i) in dist
    ensures Round(g, start, end, current, d, keys0, queue0, dist, queue, i + 1)
  {
    ExpandedStep(g, end, dist, dist, current, i);
  }

  /**
   * One round of the search loop after current has been taken off the
   * queue: each of the four neighbours of current that lies on the board,
   * is not yet visited and is EMPTY or the target is visited.
   */
  method Expand(g: Grid, start: Pos, end: Pos, visited: array2<bool>, prev: array2<Option<Pos>>,
                current: Pos, queue0: seq<Pos>, ghost dist0: map<Pos, nat>)
    returns (queue: seq<Pos>, ghost dist: map<Pos, nat>)
    requires visited.Length0 == |g| && visited.Length1 == |g|
    requires VisitedIsReached(visited, dist0) && PrevTree(g, prev, start, end, dist0)
    requires current in dist0 && current != end && Layered(queue0, dist0, dist0[current])
    requires Closed(g, end, dist0, [current] + queue0) && LowerBound(g, start, dist0)
    requires end in dist0 ==> end in queue0
    modifies visited, prev
    ensures VisitedIsReached(visited, dist) && PrevTree(g, prev, start, end, dist)
    ensures dist0.Keys <= dist.Keys && (dist.Keys == dist0.Keys ==> queue == queue0)
    ensures current in dist && Layered(queue, dist, dist0[current])
    ensures Closed(g, end, dist, queue) && LowerBound(g, start, dist)
    ensures end in dist ==> end in queue
  {
    var n := |g|;
    ghost var d := dist0[current];
    queue, dist := queue0, dist0;
    for i := 0 to 4
      invariant VisitedIsReached(visited, dist) && PrevTree(g, prev, start, end, dist)
      invariant Round(g, start, end, current, d, dist0.Keys, queue0, dist, queue, i)
    {
      queue, dist := TryMove(g, start, end, visited, prev, current, d, dist0.Keys, queue0, queue, dist, i);
    }
    CloseCurrent(g, end, dist, current, queue);
  }

  /**
   * Move i of a round: the neighbour it leads to is visited when it lies
   * on the board, is not yet visited, and is EMPTY or the target.
   */
  method TryMove(g: Grid, start: Pos, end: Pos, visited: array2<bool>, prev: array2<Option<Pos>>,
                 current: Pos, ghost d: nat, ghost keys0: set<Pos>, ghost queue0: seq<Pos>,
                 queue1: seq<Pos>, ghost dist1: map<Pos, nat>, i: nat)
    returns (queue: seq<Pos>, ghost dist: map<Pos, nat>)
    requires i < 4 && visited.Length0 == |g| && visited.Length1 == |g|
    requires VisitedIsReached(visited, dist1) && PrevTree(g, prev, start, end, dist1)
    requires Round(g, start, end, current, d, keys0, queue0, dist1, queue1, i)
    modifies visited, prev
    ensures VisitedIsReached(visited, dist) && PrevTree(g, prev, start, end, dist)
    ensures Round(g, start, end, current, d, keys0, queue0, dist, queue, i + 1)
  {
    var n := |g|;
    queue, dist := queue1, dist1;
    var next := Step(current, i);
    var nx, ny := next.0, next.1;
    if 0 <= nx < n && 0 <= ny < n && !visited[nx, ny] && (g[nx][ny] == EMPTY || (nx == end.0 && ny == end.1)) {
      RoundVisit(g, start, end, current, d, keys0, queue0, dist, queue, i);
      StepAdjacent(current, i);
      queue, dist := Visit(g, start, end, visited, prev, current, (nx, ny), queue, dist);
    } else {
      RoundSkip(g, start, end, current, d, keys0, queue0, dist, queue, i);
    }
  }

  /** The reached cells all lie on the board. */
  lemma KeysOnBoard(g: Grid, keys0: set<Pos>, dist: map<Pos, nat>)
    requires forall p :: p in dist ==> InBounds(|g|, p)
    requires keys0 <= dist.Keys
    ensures keys0 <= dist.Keys <= AllCells(|g|)
  {
  }

  /** Reaching more cells of the board leaves fewer unreached ones. */
  lemma FewerUnreached(cells: set<Pos>, keys0: set<Pos>, keys: set<Pos>)
    requires keys0 <= keys <= cells
    ensures keys != keys0 ==> cells - keys < cells - keys0
  {
    if keys != keys0 {
      var p :| p in keys && p !in keys0;
      assert p in cells - keys0 && p !in cells - keys;
    }
  }

  /**
   * findPath: the corridor from start to end with the fewest steps, or the
   * empty list when no corridor exists.
   */
  method FindPath(g: Grid, start: Pos, end: Pos) returns (path: seq<Pos>)
    requires InBounds(|g|, start) && InBounds(|g|, end)
    ensures path != [] ==> IsPath(g, path, start, end)
    ensures path == [] <==> !Connected(g, start, end)
    ensures forall w :: IsPath(g, w, start, end) ==> |path| <= |w|
  {
    var n := |g|;
    var visited := new bool[n, n]((_, _) => false);
    var prev := new Option<Pos>[n, n]((_, _) => None);
    var queue := [start];
    visited[start.0, start.1] := true;
    ghost var dist: map<Pos, nat> := map[start := 0];
    while queue != []
      invariant visited.Length0 == n && visited.Length1 == n
      invariant VisitedIsReached(visited, dist) && PrevTree(g, prev, start, end, dist)
      invariant queue != [] ==> queue[0] in dist && Layered(queue, dist, dist[queue[0]])
      invariant Closed(g, end, dist, queue)
      invariant LowerBound(g, start, dist)
      invariant end in dist ==> end in queue
      decreases AllCells(n) - dist.Keys, |queue|
    {
      ghost var d := dist[queue[0]];
      LayeredTail(queue, dist, d);
      var current := queue[0];
      queue := queue[1..];
      if current == end {
        path := ReconstructPath(prev, end, g, start, dist);
        return;
      }
      ghost var keys0 := dist.Keys;
      queue, dist := Expand(g, start, end, visited, prev, current, queue, dist);
      if queue != [] {
        LayeredRebase(queue, dist, d);
      }
      KeysOnBoard(g, keys0, dist);
      FewerUnreached(AllCells(n), keys0, dist.Keys);
    }
    path := [];
    ClosedReach(g, end, dist);
  }
}
