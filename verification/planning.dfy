/**
 * The A* grid planner of lab10/planning.py (`astar`, `heuristic`, `Node`).
 *
 * The search keeps two maps keyed by coordinate: the open map (frontier,
 * `unevaluatedMap`) and the closed map (`evaluatedMap`). Each round takes the
 * first open node of least `g + h`, stops with a path when that node is the
 * goal, and otherwise closes it and relaxes the edges to its neighbours.
 */
module Planning {
  import opened Outcomes

  /** A grid cell `(x, y)`. */
  type Coord = (int, int)

  /** One entry of `grid.getNeighbors(c)`: a neighbouring cell and the cost of the step. */
  datatype Edge = Edge(to: Coord, cost: real)

  /**
   * What the planner reads from the grid: its start cell, its goal list, and
   * the neighbour function. `cells` is the finite set of cells the grid has;
   * the neighbour function never leaves it.
   */
  datatype Grid = Grid(cells: set<Coord>, start: Coord, goals: seq<Coord>, neighbors: Coord -> seq<Edge>)

  ghost predicate WellFormed(grid: Grid)
  {
    && grid.start in grid.cells
    && forall c, k :: c in grid.cells && 0 <= k < |grid.neighbors(c)| ==> grid.neighbors(c)[k].to in grid.cells
  }

  /** A float cost as the planner uses it: finite, or `float('inf')`. */
  datatype Cost = Fin(v: real) | Inf

  /** Float addition on costs (anything plus infinity is infinity). */
  function Plus(a: Cost, b: Cost): Cost
  {
    if a.Fin? && b.Fin? then Fin(a.v + b.v) else Inf
  }

  /** Float `<` on costs. */
  predicate Below(a: Cost, b: Cost)
  {
    match (a, b)
    case (Fin(x), Fin(y)) => x < y
    case (Fin(_), Inf) => true
    case (Inf, _) => false
  }

  /**
   * A search node: best known cost from the start `g`, heuristic estimate `h`,
   * and the coordinate of its parent node (the source's `parentNode`, which is
   * always a node of the closed map).
   */
  datatype Node = Node(g: Cost, h: Cost, parent: Option<Coord>)

  /** The priority `g + h` used to choose the next node. */
  function Priority(n: Node): Cost
  {
    Plus(n.g, n.h)
  }

  /**
   * The search state. `order` lists the open coordinates in insertion order
   * (the iteration order of the Python dictionary), `visited` lists the
   * closed coordinates in the order they were closed (the `grid.addVisited`
   * calls).
   */
  datatype Search = Search(open: map<Coord, Node>, order: seq<Coord>, closed: map<Coord, Node>, visited: seq<Coord>)

  /** A planning problem: the grid, the heuristic passed to `astar`, and the targeted goal. */
  datatype Problem = Problem(grid: Grid, h: (Coord, Coord) -> real, goal: Coord)

  /** `xs` lists the members of `keys`, each exactly once. */
  ghost predicate Listing(xs: seq<Coord>, keys: set<Coord>)
  {
    && (forall i, j :: 0 <= i < j < |xs| ==> xs[i] != xs[j])
    && (forall c :: c in keys <==> c in xs)
  }

  /** `b` is reported by `getNeighbors(a)`. */
  ghost predicate Adjacent(grid: Grid, a: Coord, b: Coord)
  {
    exists k :: 0 <= k < |grid.neighbors(a)| && grid.neighbors(a)[k].to == b
  }

  /** A walk through the grid: every consecutive pair is a neighbour step. */
  ghost predicate IsPath(grid: Grid, path: seq<Coord>)
  {
    forall i :: 0 <= i < |path| - 1 ==> Adjacent(grid, path[i], path[i + 1])
  }

  /**
   * The facts every node at coordinate `c` keeps: finite g, the heuristic as h,
   * no parent exactly for the start (which costs 0), and otherwise a closed
   * parent that `getNeighbors` reports `c` as a neighbour of.
   */
  ghost predicate NodeOk(pr: Problem, closed: map<Coord, Node>, c: Coord, n: Node)
  {
    && n.g.Fin?
    && n.h == Fin(pr.h(c, pr.goal))
    && (c == pr.grid.start <==> n.parent.None?)
    && (c == pr.grid.start ==> n.g == Fin(0.0))
    && (n.parent.Some? ==> n.parent.value in closed && Adjacent(pr.grid, n.parent.value, c))
  }

  /**
   * Every closed node's parent was closed before it: no node's parent is
   * visited at or after the node itself.
   */
  ghost predicate ParentsEarlier(s: Search)
  {
    && (forall i :: 0 <= i < |s.visited| ==> s.visited[i] in s.closed)
    && (forall i, j :: 0 <= i <= j < |s.visited| ==> s.closed[s.visited[i]].parent != Some(s.visited[j]))
  }

  /** The shape of the search state: disjoint maps inside the grid, listed by `order` and `visited`. */
  ghost predicate Shape(pr: Problem, s: Search)
  {
    && s.open.Keys !! s.closed.Keys
    && s.open.Keys <= pr.grid.cells
    && s.closed.Keys <= pr.grid.cells
    && Listing(s.order, s.open.Keys)
    && Listing(s.visited, s.closed.Keys)
    && (pr.grid.start in s.closed || (s.closed == map[] && s.open.Keys == {pr.grid.start}))
    && pr.goal !in s.closed
  }

  /** Every open and every closed node keeps `NodeOk`. */
  ghost predicate NodesOk(pr: Problem, s: Search)
  {
    && (forall c :: c in s.open ==> NodeOk(pr, s.closed, c, s.open[c]))
    && (forall c :: c in s.closed ==> NodeOk(pr, s.closed, c, s.closed[c]))
  }

  /** The state invariant of the search, apart from the frontier property. */
  ghost predicate Core(pr: Problem, s: Search)
  {
    Shape(pr, s) && NodesOk(pr, s) && ParentsEarlier(s)
  }

  /** Every neighbour of a closed cell (other than those in `except`) has been seen. */
  ghost predicate Frontier(pr: Problem, s: Search, except: set<Coord>)
  {
    forall c, k :: c in s.closed && c !in except && 0 <= k < |pr.grid.neighbors(c)| ==>
      pr.grid.neighbors(c)[k].to in s.open || pr.grid.neighbors(c)[k].to in s.closed
  }

  /**
   * Lines 76-81: a node whose parent is closed costs exactly the parent's g
   * plus the cost `getNeighbors` reported for one step from the parent to it.
   */
  ghost predicate CostOk(pr: Problem, closed: map<Coord, Node>, c: Coord, n: Node)
  {
    n.parent.Some? && n.parent.value in closed ==>
      exists k :: 0 <= k < |pr.grid.neighbors(n.parent.value)|
        && pr.grid.neighbors(n.parent.value)[k].to == c
        && n.g == Plus(closed[n.parent.value].g, Fin(pr.grid.neighbors(n.parent.value)[k].cost))
  }

  /** Every open and every closed node keeps `CostOk`. */
  ghost predicate Costs(pr: Problem, s: Search)
  {
    && (forall c :: c in s.open ==> CostOk(pr, s.closed, c, s.open[c]))
    && (forall c :: c in s.closed ==> CostOk(pr, s.closed, c, s.closed[c]))
  }

  ghost predicate Inv(pr: Problem, s: Search)
  {
    Core(pr, s) && Costs(pr, s) && Frontier(pr, s, {})
  }

  /** The state before the loop: the start node alone in the open map, with g = 0. */
  function Init(pr: Problem): (s: Search)
    requires WellFormed(pr.grid)
    ensures Inv(pr, s)
    ensures s.open.Keys == {pr.grid.start} && s.closed == map[]
  {
    var start := pr.grid.start;
    Search(map[start := Node(Fin(0.0), Fin(pr.h(start, pr.goal)), None)], [start], map[], [])
  }

  /** Float `<` on costs is transitive. */
  lemma BelowTransitive(a: Cost, b: Cost, c: Cost)
    requires Below(a, b) && Below(b, c)
    ensures Below(a, c)
  {
  }

  /** `a < b <= c` gives `a < c`. */
  lemma BelowThenNotBelow(a: Cost, b: Cost, c: Cost)
    requires Below(a, b) && !Below(c, b)
    ensures Below(a, c) && !Below(c, a)
  {
  }

  /** Priority of the `k`-th open coordinate in insertion order. */
  function PriorityAt(s: Search, k: nat): Cost
    requires k < |s.order| && s.order[k] in s.open
  {
    Priority(s.open[s.order[k]])
  }

  /** Every coordinate of `order` has a node in the open map. */
  ghost predicate OrderInOpen(s: Search)
  {
    forall k :: 0 <= k < |s.order| ==> s.order[k] in s.open
  }

  /**
   * `min(unevaluatedMap.values(), key=g+h)` from position `i` on, with `best`
   * the position of the least priority among the first `i`: a later node
   * replaces it only when strictly smaller.
   */
  function MinFrom(s: Search, i: nat, best: nat): (m: nat)
    requires OrderInOpen(s)
    requires best < i <= |s.order|
    requires forall k :: 0 <= k < i ==> !Below(PriorityAt(s, k), PriorityAt(s, best))
    requires forall k :: 0 <= k < best ==> Below(PriorityAt(s, best), PriorityAt(s, k))
    ensures m < |s.order|
    ensures forall k :: 0 <= k < |s.order| ==> !Below(PriorityAt(s, k), PriorityAt(s, m))
    ensures forall k :: 0 <= k < m ==> Below(PriorityAt(s, m), PriorityAt(s, k))
    decreases |s.order| - i
  {
    if i == |s.order| then best
    else if Below(PriorityAt(s, i), PriorityAt(s, best)) then
      assert forall k :: 0 <= k < i ==> Below(PriorityAt(s, i), PriorityAt(s, k)) by {
        forall k | 0 <= k < i ensures Below(PriorityAt(s, i), PriorityAt(s, k)) {
          if k < best {
            BelowTransitive(PriorityAt(s, i), PriorityAt(s, best), PriorityAt(s, k));
          } else {
            BelowThenNotBelow(PriorityAt(s, i), PriorityAt(s, best), PriorityAt(s, k));
          }
        }
      }
      MinFrom(s, i + 1, i)
    else MinFrom(s, i + 1, best)
  }

  /**
   * The position of the node chosen each round: no open node has a smaller
   * `g + h`, and every node inserted before it has a strictly larger one.
   */
  function FirstMin(s: Search): (m: nat)
    requires OrderInOpen(s) && |s.order| > 0
    ensures m < |s.order|
    ensures forall k :: 0 <= k < |s.order| ==> !Below(PriorityAt(s, k), PriorityAt(s, m))
    ensures forall k :: 0 <= k < m ==> Below(PriorityAt(s, m), PriorityAt(s, k))
  {
    MinFrom(s, 1, 0)
  }

  /** `xs` with `x` taken out (the dictionary's order after `del`). */
  function Without(xs: seq<Coord>, x: Coord): (r: seq<Coord>)
    ensures forall c :: c in r <==> c in xs && c != x
    ensures (forall i, j :: 0 <= i < j < |xs| ==> xs[i] != xs[j]) ==>
            (forall i, j :: 0 <= i < j < |r| ==> r[i] != r[j])
  {
    if xs == [] then []
    else if xs[0] == x then Without(xs[1..], x)
    else
      assert (forall i, j :: 0 <= i < j < |xs| ==> xs[i] != xs[j]) ==> xs[0] !in xs[1..];
      [xs[0]] + Without(xs[1..], x)
  }

  /** `del` of a key that is not there leaves the order as it was. */
  lemma {:induction false} WithoutAbsent(xs: seq<Coord>, x: Coord)
    requires x !in xs
    ensures Without(xs, x) == xs
    decreases |xs|
  {
    if xs != [] {
      WithoutAbsent(xs[1..], x);
      assert [xs[0]] + xs[1..] == xs;
    }
  }

  /**
   * `del` keeps the order of the other entries: a key that occurs once, at
   * position `i`, is cut out there.
   */
  lemma {:induction false} WithoutCut(xs: seq<Coord>, x: Coord, i: nat)
    requires i < |xs| && xs[i] == x && x !in xs[..i] && x !in xs[i + 1..]
    ensures Without(xs, x) == xs[..i] + xs[i + 1..]
    decreases i
  {
    if i == 0 {
      WithoutAbsent(xs[1..], x);
      assert xs[..0] + xs[1..] == xs[1..];
    } else {
      assert xs[0] in xs[..i];
      var tail := xs[1..];
      assert tail[..i - 1] == xs[1..i];
      assert tail[i..] == xs[i + 1..];
      WithoutCut(tail, x, i - 1);
      assert Without(xs, x) == [xs[0]] + Without(tail, x);
      assert [xs[0]] + xs[1..i] == xs[..i];
    }
  }

  /** Appending a fresh coordinate to a listing lists the enlarged key set. */
  lemma ListingAppend(xs: seq<Coord>, keys: set<Coord>, x: Coord)
    requires Listing(xs, keys) && x !in keys
    ensures Listing(xs + [x], keys + {x})
  {
  }

  /** Taking a coordinate out of a listing lists the reduced key set. */
  lemma ListingWithout(xs: seq<Coord>, keys: set<Coord>, x: Coord)
    requires Listing(xs, keys)
    ensures Listing(Without(xs, x), keys - {x})
  {
  }

  /** Node facts stated against a closed map stay true when the closed map grows. */
  lemma NodeOkGrows(pr: Problem, closed: map<Coord, Node>, cur: Coord, n0: Node, c: Coord, n: Node)
    requires cur !in closed
    requires NodeOk(pr, closed, c, n)
    ensures NodeOk(pr, closed[cur := n0], c, n)
  {
  }

  /** Cost facts stated against a closed map stay true when the closed map grows. */
  lemma CostOkGrows(pr: Problem, closed: map<Coord, Node>, cur: Coord, n0: Node, c: Coord, n: Node)
    requires cur !in closed && CostOk(pr, closed, c, n)
    requires n.parent.Some? ==> n.parent.value in closed
    ensures CostOk(pr, closed[cur := n0], c, n)
  {
    if n.parent.Some? {
      assert closed[cur := n0][n.parent.value] == closed[n.parent.value];
    }
  }

  /** Closing the chosen node changes no node's cost and no closed parent's g. */
  lemma PopKeepsCosts(pr: Problem, s: Search, cur: Coord)
    requires Costs(pr, s) && NodesOk(pr, s)
    requires cur in s.open && cur !in s.closed
    ensures Costs(pr, Search(s.open - {cur}, Without(s.order, cur), s.closed[cur := s.open[cur]], s.visited + [cur]))
  {
    var n := s.open[cur];
    var closed' := s.closed[cur := n];
    forall c | c in s.open - {cur} ensures CostOk(pr, closed', c, s.open[c]) {
      assert NodeOk(pr, s.closed, c, s.open[c]);
      CostOkGrows(pr, s.closed, cur, n, c, s.open[c]);
    }
    forall c | c in closed' ensures CostOk(pr, closed', c, closed'[c]) {
      if c == cur {
        assert NodeOk(pr, s.closed, cur, n);
        CostOkGrows(pr, s.closed, cur, n, cur, n);
      } else {
        assert NodeOk(pr, s.closed, c, s.closed[c]);
        CostOkGrows(pr, s.closed, cur, n, c, s.closed[c]);
      }
    }
  }

  /** Closing `cur`, whose parent is already closed, keeps parents ahead of children. */
  lemma ParentsAfterPop(s: Search, cur: Coord, n: Node)
    requires ParentsEarlier(s) && Listing(s.visited, s.closed.Keys)
    requires forall c :: c in s.closed && s.closed[c].parent.Some? ==> s.closed[c].parent.value in s.closed
    requires cur !in s.closed
    requires n.parent.Some? ==> n.parent.value in s.closed
    ensures ParentsEarlier(s.(closed := s.closed[cur := n], visited := s.visited + [cur]))
  {
    var s' := s.(closed := s.closed[cur := n], visited := s.visited + [cur]);
    forall i, j | 0 <= i <= j < |s'.visited|
      ensures s'.closed[s'.visited[i]].parent != Some(s'.visited[j])
    {
      if i < |s.visited| {
        assert s'.visited[i] == s.visited[i];
        if j < |s.visited| {
          assert s'.visited[j] == s.visited[j];
        }
      }
    }
  }

  /**
   * Lines 52-56: the chosen node moves from the open map to the closed map and
   * its coordinate is recorded as visited.
   */
  function Pop(pr: Problem, s: Search, cur: Coord): (s': Search)
    requires Inv(pr, s)
    requires cur in s.open && cur != pr.goal
    ensures Core(pr, s') && Costs(pr, s') && Frontier(pr, s', {cur})
    ensures s'.closed == s.closed[cur := s.open[cur]]
    ensures s'.open == s.open - {cur}
    ensures s'.order == Without(s.order, cur)
    ensures s'.visited == s.visited + [cur]
  {
    var n := s.open[cur];
    var s' := Search(s.open - {cur}, Without(s.order, cur), s.closed[cur := n], s.visited + [cur]);
    assert NodeOk(pr, s.closed, cur, n);
    ParentsAfterPop(s, cur, n);
    PopKeepsCosts(pr, s, cur);
    ListingWithout(s.order, s.open.Keys, cur);
    ListingAppend(s.visited, s.closed.Keys, cur);
    assert forall c :: c in s'.open ==> NodeOk(pr, s'.closed, c, s'.open[c]) by {
      forall c | c in s'.open ensures NodeOk(pr, s'.closed, c, s'.open[c]) {
        NodeOkGrows(pr, s.closed, cur, n, c, s.open[c]);
      }
    }
    assert forall c :: c in s'.closed ==> NodeOk(pr, s'.closed, c, s'.closed[c]) by {
      forall c | c in s'.closed ensures NodeOk(pr, s'.closed, c, s'.closed[c]) {
        if c == cur {
          NodeOkGrows(pr, s.closed, cur, n, c, n);
        } else {
          NodeOkGrows(pr, s.closed, cur, n, c, s.closed[c]);
        }
      }
    }
    s'
  }

  /**
   * Lines 68-82, one neighbour `e` of the closed node `cur`: skip it when it is
   * closed; otherwise compare the cost through `cur` with its current g.
   */
  function Relax(pr: Problem, s: Search, cur: Coord, e: Edge): (s': Search)
    requires WellFormed(pr.grid) && Core(pr, s)
    requires cur in s.closed && e in pr.grid.neighbors(cur)
    ensures Core(pr, s')
    ensures Costs(pr, s) ==> Costs(pr, s')
    ensures s'.closed == s.closed && s'.visited == s.visited
    ensures s'.open.Keys == if e.to in s.closed then s.open.Keys else s.open.Keys + {e.to}
    ensures forall c :: c in s.open ==> !Below(s.open[c].g, s'.open[c].g)
    ensures e.to in s'.open ==> !Below(Plus(s.closed[cur].g, Fin(e.cost)), s'.open[e.to].g)
    ensures e.to in s.closed ==> s' == s
    ensures e.to in s.open && !Below(Via(pr, s, cur, e).g, s.open[e.to].g) ==> s' == s
    ensures e.to !in s.closed && (e.to !in s.open || Below(Via(pr, s, cur, e).g, s.open[e.to].g)) ==>
      && s'.open[e.to] == Via(pr, s, cur, e)
      && s'.order == (if e.to in s.open then s.order else s.order + [e.to])
    ensures forall c :: c in s.open && c != e.to ==> s'.open[c] == s.open[c]
    ensures ImprovedThrough(s.open, s'.open, cur) && s.order <= s'.order
  {
    if e.to in s.closed then s else Improve(pr, s, cur, e)
  }

  /**
   * Lines 71-82 for a neighbour that is not closed: the node is overwritten
   * (g, parent `cur`, h) only when the cost through `cur` is strictly smaller
   * than its g, and always for a coordinate seen for the first time. The
   * source first stores such a coordinate with an infinite g, which every
   * finite cost beats; the model writes the final node at once.
   */
  function Improve(pr: Problem, s: Search, cur: Coord, e: Edge): (s': Search)
    requires WellFormed(pr.grid) && Core(pr, s)
    requires cur in s.closed && e in pr.grid.neighbors(cur) && e.to !in s.closed
    ensures Core(pr, s')
    ensures Costs(pr, s) ==> Costs(pr, s')
    ensures s'.closed == s.closed && s'.visited == s.visited
    ensures s'.open.Keys == s.open.Keys + {e.to}
    ensures forall c :: c in s.open ==> !Below(s.open[c].g, s'.open[c].g)
    ensures !Below(Plus(s.closed[cur].g, Fin(e.cost)), s'.open[e.to].g)
    ensures e.to in s.open && !Below(Via(pr, s, cur, e).g, s.open[e.to].g) ==> s'.open == s.open && s'.order == s.order
    ensures e.to !in s.open || Below(Via(pr, s, cur, e).g, s.open[e.to].g) ==>
      && s'.open[e.to] == Via(pr, s, cur, e)
      && s'.order == (if e.to in s.open then s.order else s.order + [e.to])
    ensures forall c :: c in s.open && c != e.to ==> s'.open[c] == s.open[c]
    ensures ImprovedThrough(s.open, s'.open, cur) && s.order <= s'.order
  {
    var tentative := Plus(s.closed[cur].g, Fin(e.cost));
    assert tentative.Fin? by {
      assert NodeOk(pr, s.closed, cur, s.closed[cur]);
    }
    var s' := if e.to in s.open && !Below(tentative, s.open[e.to].g) then s else Overwrite(pr, s, cur, e);
    ImproveCases(pr, s, cur, e, s');
    s'
  }

  /** The frame of `Improve`, from what its two branches establish. */
  lemma ImproveCases(pr: Problem, s: Search, cur: Coord, e: Edge, s': Search)
    requires cur in s.closed && e.to !in s.closed
    requires Plus(s.closed[cur].g, Fin(e.cost)).Fin?
    requires e.to in s.open && !Below(Via(pr, s, cur, e).g, s.open[e.to].g) ==> s' == s
    requires e.to !in s.open || Below(Via(pr, s, cur, e).g, s.open[e.to].g) ==>
      && s'.closed == s.closed && s'.visited == s.visited
      && s'.open.Keys == s.open.Keys + {e.to}
      && (forall c :: c in s.open ==> !Below(s.open[c].g, s'.open[c].g))
      && s'.open[e.to] == Via(pr, s, cur, e)
      && (forall c :: c in s.open && c != e.to ==> s'.open[c] == s.open[c])
      && s'.order == (if e.to in s.open then s.order else s.order + [e.to])
    ensures s'.closed == s.closed && s'.visited == s.visited
    ensures s'.open.Keys == s.open.Keys + {e.to}
    ensures forall c :: c in s.open ==> !Below(s.open[c].g, s'.open[c].g)
    ensures !Below(Plus(s.closed[cur].g, Fin(e.cost)), s'.open[e.to].g)
    ensures forall c :: c in s.open && c != e.to ==> s'.open[c] == s.open[c]
    ensures ImprovedThrough(s.open, s'.open, cur) && s.order <= s'.order
  {
    if e.to in s.open && !Below(Via(pr, s, cur, e).g, s.open[e.to].g) {
      NoChangeLowersNothing(s.open);
    }
  }

  /**
   * Lines 72-73 and 80-82: the cost through `cur` beats the neighbour's g, or
   * the neighbour is seen for the first time (the source stores it with an
   * infinite g that line 77 lets any finite cost beat). Its node becomes that
   * cost, parent `cur` and its heuristic, in one write.
   */
  function Overwrite(pr: Problem, s: Search, cur: Coord, e: Edge): (s': Search)
    requires WellFormed(pr.grid) && Core(pr, s)
    requires cur in s.closed && e in pr.grid.neighbors(cur) && e.to !in s.closed
    requires e.to in s.open ==> Below(Plus(s.closed[cur].g, Fin(e.cost)), s.open[e.to].g)
    ensures Core(pr, s')
    ensures Costs(pr, s) ==> Costs(pr, s')
    ensures s'.closed == s.closed && s'.visited == s.visited
    ensures s'.open.Keys == s.open.Keys + {e.to}
    ensures forall c :: c in s.open ==> !Below(s.open[c].g, s'.open[c].g)
    ensures s'.open[e.to] == Node(Plus(s.closed[cur].g, Fin(e.cost)), Fin(pr.h(e.to, pr.goal)), Some(cur))
    ensures forall c :: c in s.open && c != e.to ==> s'.open[c] == s.open[c]
    ensures s'.order == if e.to in s.open then s.order else s.order + [e.to]
  {
    OverwriteKeepsCore(pr, s, cur, e);
    OverwriteKeepsCosts(pr, s, cur, e);
    OverwriteFrame(pr, s, cur, e);
    Overwritten(pr, s, cur, e)
  }

  /** The node line 80-82 writes for neighbour `e` of `cur`. */
  function Via(pr: Problem, s: Search, cur: Coord, e: Edge): Node
    requires cur in s.closed
  {
    Node(Plus(s.closed[cur].g, Fin(e.cost)), Fin(pr.h(e.to, pr.goal)), Some(cur))
  }

  /** The search state after that write; a coordinate seen for the first time joins the insertion order. */
  function Overwritten(pr: Problem, s: Search, cur: Coord, e: Edge): Search
    requires cur in s.closed
  {
    var order := if e.to in s.open then s.order else s.order + [e.to];
    Search(s.open[e.to := Via(pr, s, cur, e)], order, s.closed, s.visited)
  }

  /** The written node costs its parent's g plus the step's cost; no other node changes. */
  lemma OverwriteKeepsCosts(pr: Problem, s: Search, cur: Coord, e: Edge)
    requires cur in s.closed && e in pr.grid.neighbors(cur)
    ensures Costs(pr, s) ==> Costs(pr, Overwritten(pr, s, cur, e))
  {
    var s' := Overwritten(pr, s, cur, e);
    if Costs(pr, s) {
      var k :| 0 <= k < |pr.grid.neighbors(cur)| && pr.grid.neighbors(cur)[k] == e;
      assert CostOk(pr, s'.closed, e.to, s'.open[e.to]);
      forall c | c in s'.open ensures CostOk(pr, s'.closed, c, s'.open[c]) {
        if c != e.to {
          assert s'.open[c] == s.open[c];
        }
      }
    }
  }

  /** The write of lines 80-82 keeps `Core`, the structural half of the invariant (for `Overwrite`). */
  lemma OverwriteKeepsCore(pr: Problem, s: Search, cur: Coord, e: Edge)
    requires WellFormed(pr.grid) && Core(pr, s)
    requires cur in s.closed && e in pr.grid.neighbors(cur) && e.to !in s.closed
    ensures Core(pr, Overwritten(pr, s, cur, e))
  {
    RelaxKeepsCore(pr, s, cur, e, Overwritten(pr, s, cur, e));
  }

  /** The write of lines 80-82 touches only `e.to`, and there only lowers g (for `Overwrite`). */
  lemma OverwriteFrame(pr: Problem, s: Search, cur: Coord, e: Edge)
    requires cur in s.closed
    requires e.to in s.open ==> Below(Via(pr, s, cur, e).g, s.open[e.to].g)
    ensures var s' := Overwritten(pr, s, cur, e);
      && s'.closed == s.closed && s'.visited == s.visited
      && s'.open.Keys == s.open.Keys + {e.to}
      && (forall c :: c in s.open ==> !Below(s.open[c].g, s'.open[c].g))
      && s'.open[e.to] == Via(pr, s, cur, e)
      && (forall c :: c in s.open && c != e.to ==> s'.open[c] == s.open[c])
  {
    OverwriteLowers(s.open, e.to, Via(pr, s, cur, e));
  }

  /** The skip of line 78 lowers no g: the no-change branch of `Improve`. */
  lemma NoChangeLowersNothing(open: map<Coord, Node>)
    ensures forall c :: c in open ==> !Below(open[c].g, open[c].g)
  {
  }

  /** Writing a node of strictly smaller g at `x` lowers no g and raises none. */
  lemma OverwriteLowers(open: map<Coord, Node>, x: Coord, n: Node)
    requires x in open ==> Below(n.g, open[x].g)
    ensures forall c :: c in open ==> !Below(open[c].g, open[x := n][c].g)
  {
  }

  /** The relaxed state of `Relax` keeps the invariant. */
  lemma RelaxKeepsCore(pr: Problem, s: Search, cur: Coord, e: Edge, s': Search)
    requires WellFormed(pr.grid) && Core(pr, s)
    requires cur in s.closed && e in pr.grid.neighbors(cur) && e.to !in s.closed
    requires s'.closed == s.closed && s'.visited == s.visited
    requires s'.order == if e.to in s.open then s.order else s.order + [e.to]
    requires s'.open == s.open[e.to := Node(Plus(s.closed[cur].g, Fin(e.cost)), Fin(pr.h(e.to, pr.goal)), Some(cur))]
    ensures Core(pr, s')
  {
    assert NodeOk(pr, s.closed, cur, s.closed[cur]);
    RelaxKeepsShape(pr, s, cur, e, s');
    RelaxKeepsNodes(pr, s, cur, e, s');
  }

  /** A relaxation keeps the key sets, insertion order and visit order consistent (for `RelaxKeepsCore`). */
  lemma RelaxKeepsShape(pr: Problem, s: Search, cur: Coord, e: Edge, s': Search)
    requires WellFormed(pr.grid) && Shape(pr, s)
    requires cur in s.closed && e in pr.grid.neighbors(cur) && e.to !in s.closed
    requires s'.closed == s.closed && s'.visited == s.visited
    requires s'.order == if e.to in s.open then s.order else s.order + [e.to]
    requires s'.open.Keys == s.open.Keys + {e.to}
    ensures Shape(pr, s')
  {
    assert e.to in pr.grid.cells by {
      var k :| 0 <= k < |pr.grid.neighbors(cur)| && pr.grid.neighbors(cur)[k] == e;
    }
    if e.to !in s.open {
      ListingAppend(s.order, s.open.Keys, e.to);
    }
  }

  /** The node written by a relaxation has a closed parent one grid step away (for `RelaxKeepsCore`). */
  lemma RelaxKeepsNodes(pr: Problem, s: Search, cur: Coord, e: Edge, s': Search)
    requires NodesOk(pr, s) && pr.grid.start in s.closed
    requires cur in s.closed && e in pr.grid.neighbors(cur) && e.to !in s.closed
    requires s'.closed == s.closed
    requires s'.open == s.open[e.to := Node(Plus(s.closed[cur].g, Fin(e.cost)), Fin(pr.h(e.to, pr.goal)), Some(cur))]
    ensures NodesOk(pr, s')
  {
    assert NodeOk(pr, s.closed, cur, s.closed[cur]);
    forall c | c in s'.open ensures NodeOk(pr, s'.closed, c, s'.open[c]) {
      if c == e.to {
        var k :| 0 <= k < |pr.grid.neighbors(cur)| && pr.grid.neighbors(cur)[k] == e;
        assert Adjacent(pr.grid, cur, e.to);
      } else {
        assert NodeOk(pr, s.closed, c, s.open[c]);
      }
    }
  }

  /** Float `>=` on costs is transitive. */
  lemma NotBelowTransitive(a: Cost, b: Cost, c: Cost)
    requires !Below(a, b) && !Below(b, c)
    ensures !Below(a, c)
  {
  }

  /** The frontier property survives any growth of the open map. */
  lemma FrontierGrows(pr: Problem, s: Search, s': Search, except: set<Coord>)
    requires Frontier(pr, s, except)
    requires s'.closed == s.closed && s.open.Keys <= s'.open.Keys
    ensures Frontier(pr, s', except)
  {
  }

  /** The first `k` neighbours stay seen while the open map grows, and the `k`-th is now seen. */
  lemma SeenGrows(s: Search, s1: Search, nbrs: seq<Edge>, k: nat)
    requires k < |nbrs|
    requires forall j :: 0 <= j < k ==> nbrs[j].to in s.open || nbrs[j].to in s.closed
    requires s1.closed == s.closed && s.open.Keys <= s1.open.Keys
    requires nbrs[k].to in s1.open || nbrs[k].to in s1.closed
    ensures forall j :: 0 <= j < k + 1 ==> nbrs[j].to in s1.open || nbrs[j].to in s1.closed
  {
  }

  /** Once every neighbour of `cur` has been seen, `cur` no longer needs excepting. */
  lemma FrontierClose(pr: Problem, s: Search, cur: Coord)
    requires Frontier(pr, s, {cur})
    requires forall j :: 0 <= j < |pr.grid.neighbors(cur)| ==>
      pr.grid.neighbors(cur)[j].to in s.open || pr.grid.neighbors(cur)[j].to in s.closed
    ensures Frontier(pr, s, {})
  {
  }

  /**
   * Line 77's rule, over any number of relaxations from `cur`: a node that is
   * new in `after`, or differs from its node in `before`, was written through
   * `cur`, and a node that was already open got a strictly smaller g (a tie
   * changes nothing).
   */
  ghost predicate ImprovedThrough(before: map<Coord, Node>, after: map<Coord, Node>, cur: Coord)
  {
    forall c :: c in after && (c !in before || after[c] != before[c]) ==>
      after[c].parent == Some(cur) && (c in before ==> Below(after[c].g, before[c].g))
  }

  /** Two rounds of relaxation from `cur` compose into one, and insertion orders that extend each other chain. */
  lemma ImprovedCompose(o: map<Coord, Node>, o1: map<Coord, Node>, o2: map<Coord, Node>, cur: Coord,
                        xs: seq<Coord>, xs1: seq<Coord>, xs2: seq<Coord>)
    requires forall c :: c in o ==> c in o1 && !Below(o[c].g, o1[c].g)
    requires ImprovedThrough(o, o1, cur) && ImprovedThrough(o1, o2, cur)
    requires forall c :: c in o1 ==> c in o2
    requires xs <= xs1 && xs1 <= xs2
    ensures ImprovedThrough(o, o2, cur)
    ensures xs <= xs2
  {
    forall c | c in o2 && (c !in o || o2[c] != o[c])
      ensures o2[c].parent == Some(cur) && (c in o ==> Below(o2[c].g, o[c].g))
    {
      if c in o1 && o2[c] == o1[c] {
      } else if c in o {
        BelowThenNotBelow(o2[c].g, o1[c].g, o[c].g);
      }
    }
    assert xs2[..|xs|] == xs1[..|xs|];
  }

  /**
   * After the first `k` neighbours of `cur` are relaxed, each of them that is
   * still open costs no more than the path through `cur`.
   */
  ghost predicate RelaxedUpTo(pr: Problem, s: Search, cur: Coord, k: nat)
    requires cur in s.closed && k <= |pr.grid.neighbors(cur)|
  {
    forall j :: 0 <= j < k && pr.grid.neighbors(cur)[j].to in s.open ==>
      !Below(Plus(s.closed[cur].g, Fin(pr.grid.neighbors(cur)[j].cost)), s.open[pr.grid.neighbors(cur)[j].to].g)
  }

  /** Relaxing neighbour `k` bounds it, and the earlier bounds survive because g only goes down. */
  lemma RelaxedGrows(pr: Problem, s: Search, s1: Search, cur: Coord, k: nat)
    requires cur in s.closed && k < |pr.grid.neighbors(cur)|
    requires s1.closed == s.closed && s1.open.Keys !! s1.closed.Keys
    requires forall j :: 0 <= j < k ==>
      pr.grid.neighbors(cur)[j].to in s.open || pr.grid.neighbors(cur)[j].to in s.closed
    requires forall c :: c in s.open ==> c in s1.open && !Below(s.open[c].g, s1.open[c].g)
    requires RelaxedUpTo(pr, s, cur, k)
    requires pr.grid.neighbors(cur)[k].to in s1.open ==>
      !Below(Plus(s.closed[cur].g, Fin(pr.grid.neighbors(cur)[k].cost)), s1.open[pr.grid.neighbors(cur)[k].to].g)
    ensures RelaxedUpTo(pr, s1, cur, k + 1)
  {
    var nbrs := pr.grid.neighbors(cur);
    forall j | 0 <= j < k + 1 && nbrs[j].to in s1.open
      ensures !Below(Plus(s1.closed[cur].g, Fin(nbrs[j].cost)), s1.open[nbrs[j].to].g)
    {
      if j < k {
        var t := Plus(s.closed[cur].g, Fin(nbrs[j].cost));
        NotBelowTransitive(t, s.open[nbrs[j].to].g, s1.open[nbrs[j].to].g);
      }
    }
  }

  /**
   * The `for neighbor in neighbors` loop of lines 67-82, from the `k`-th
   * neighbour of `cur` on. Afterwards every neighbour of every closed cell
   * has been seen, no closed node has changed, and no g has grown.
   */
  function RelaxFrom(pr: Problem, s: Search, cur: Coord, k: nat): (s': Search)
    requires WellFormed(pr.grid) && Core(pr, s) && Costs(pr, s) && Frontier(pr, s, {cur})
    requires cur in s.closed && k <= |pr.grid.neighbors(cur)|
    requires forall j :: 0 <= j < k ==>
      pr.grid.neighbors(cur)[j].to in s.open || pr.grid.neighbors(cur)[j].to in s.closed
    requires RelaxedUpTo(pr, s, cur, k)
    ensures Inv(pr, s')
    ensures s'.closed == s.closed && s'.visited == s.visited
    ensures s.open.Keys <= s'.open.Keys
    ensures forall c :: c in s.open ==> !Below(s.open[c].g, s'.open[c].g)
    ensures RelaxedUpTo(pr, s', cur, |pr.grid.neighbors(cur)|)
    ensures ImprovedThrough(s.open, s'.open, cur)
    ensures s.order <= s'.order
    decreases |pr.grid.neighbors(cur)| - k
  {
    var nbrs := pr.grid.neighbors(cur);
    if k == |nbrs| then
      FrontierClose(pr, s, cur);
      s
    else
      var s1 := Relax(pr, s, cur, nbrs[k]);
      FrontierGrows(pr, s, s1, {cur});
      SeenGrows(s, s1, nbrs, k);
      RelaxedGrows(pr, s, s1, cur, k);
      var s' := RelaxFrom(pr, s1, cur, k + 1);
      RelaxThenRest(s, cur, s1, s');
      s'
  }

  /** The frame of `RelaxFrom`: one relaxation followed by the rest of the loop. */
  lemma RelaxThenRest(s: Search, cur: Coord, s1: Search, s': Search)
    requires s.open.Keys <= s1.open.Keys
    requires ImprovedThrough(s.open, s1.open, cur) && s.order <= s1.order
    requires s1.closed == s.closed && s1.visited == s.visited
    requires forall c :: c in s.open ==> !Below(s.open[c].g, s1.open[c].g)
    requires s'.closed == s1.closed && s'.visited == s1.visited
    requires s1.open.Keys <= s'.open.Keys
    requires forall c :: c in s1.open ==> !Below(s1.open[c].g, s'.open[c].g)
    requires ImprovedThrough(s1.open, s'.open, cur) && s1.order <= s'.order
    ensures s'.closed == s.closed && s'.visited == s.visited
    ensures s.open.Keys <= s'.open.Keys
    ensures forall c :: c in s.open ==> !Below(s.open[c].g, s'.open[c].g)
    ensures ImprovedThrough(s.open, s'.open, cur) && s.order <= s'.order
  {
    LowersCompose(s.open, s1.open, s'.open);
    ImprovedCompose(s.open, s1.open, s'.open, cur, s.order, s1.order, s'.order);
  }

  /** Two updates that each lower no open g and drop no open cell compose to one. */
  lemma LowersCompose(o: map<Coord, Node>, o1: map<Coord, Node>, o2: map<Coord, Node>)
    requires forall c :: c in o ==> c in o1 && !Below(o[c].g, o1[c].g)
    requires forall c :: c in o1 ==> c in o2 && !Below(o1[c].g, o2[c].g)
    ensures forall c :: c in o ==> c in o2 && !Below(o[c].g, o2[c].g)
  {
    forall c | c in o ensures c in o2 && !Below(o[c].g, o2[c].g) {
      NotBelowTransitive(o[c].g, o1[c].g, o2[c].g);
    }
  }

  /**
   * One round of the loop for a chosen node `cur` that is not the goal: close
   * it, then relax its neighbours. Exactly `cur` joins the closed map, closed
   * nodes never change afterwards, and the g of every node still open only
   * goes down.
   */
  function Expand(pr: Problem, s: Search, cur: Coord): (s': Search)
    requires WellFormed(pr.grid) && Inv(pr, s)
    requires cur in s.open && cur != pr.goal
    ensures Inv(pr, s')
    ensures s'.open.Keys !! s'.closed.Keys
    ensures s'.closed.Keys == s.closed.Keys + {cur}
    ensures forall c :: c in s.closed ==> s'.closed[c] == s.closed[c]
    ensures s'.closed[cur] == s.open[cur]
    ensures forall c :: c in s.open && c in s'.open ==> !Below(s.open[c].g, s'.open[c].g)
    ensures RelaxedUpTo(pr, s', cur, |pr.grid.neighbors(cur)|)
    ensures s'.visited == s.visited + [cur]
    ensures ImprovedThrough(s.open, s'.open, cur)
    ensures Without(s.order, cur) <= s'.order
  {
    var s1 := Pop(pr, s, cur);
    var s' := RelaxFrom(pr, s1, cur, 0);
    ExpandFrame(s, cur, s1, s');
    s'
  }

  /** What closing `cur` and then relaxing its neighbours leaves untouched. */
  lemma ExpandFrame(s: Search, cur: Coord, s1: Search, s': Search)
    requires cur in s.open && cur !in s.closed
    requires s1.closed == s.closed[cur := s.open[cur]] && s1.open == s.open - {cur}
    requires s'.closed == s1.closed && s'.open.Keys !! s'.closed.Keys
    requires s1.open.Keys <= s'.open.Keys
    requires forall c :: c in s1.open ==> !Below(s1.open[c].g, s'.open[c].g)
    requires ImprovedThrough(s1.open, s'.open, cur)
    ensures s'.closed.Keys == s.closed.Keys + {cur}
    ensures forall c :: c in s.closed ==> s'.closed[c] == s.closed[c]
    ensures s'.closed[cur] == s.open[cur]
    ensures forall c :: c in s.open && c in s'.open ==> !Below(s.open[c].g, s'.open[c].g)
    ensures ImprovedThrough(s.open, s'.open, cur)
  {
  }

  /** Position of the first occurrence of `x` in `xs`. */
  function IndexOf(xs: seq<Coord>, x: Coord): (i: nat)
    requires x in xs
    ensures i < |xs| && xs[i] == x && x !in xs[..i]
  {
    if xs[0] == x then 0
    else
      var i := 1 + IndexOf(xs[1..], x);
      assert xs[..i] == [xs[0]] + xs[1..][..i - 1];
      i
  }

  /** A walk extended by one neighbour step is still a walk. */
  lemma IsPathAppend(grid: Grid, path: seq<Coord>, c: Coord)
    requires |path| > 0 && IsPath(grid, path) && Adjacent(grid, path[|path| - 1], c)
    ensures IsPath(grid, path + [c])
  {
    var p := path + [c];
    forall i | 0 <= i < |p| - 1 ensures Adjacent(grid, p[i], p[i + 1]) {
      if i < |path| - 1 {
        assert p[i] == path[i] && p[i + 1] == path[i + 1];
      }
    }
  }

  /**
   * Lines 43-46 for a closed node: following parent links from `c` back to
   * the start and reversing gives a walk from the start to `c`.
   */
  function Chain(pr: Problem, s: Search, c: Coord): (path: seq<Coord>)
    requires Core(pr, s) && c in s.closed
    ensures |path| > 0 && path[0] == pr.grid.start && path[|path| - 1] == c
    ensures IsPath(pr.grid, path)
    decreases IndexOf(s.visited, c)
  {
    var n := s.closed[c];
    assert NodeOk(pr, s.closed, c, n);
    if n.parent.None? then [c]
    else
      var p := n.parent.value;
      var k := IndexOf(s.visited, c);
      assert p in s.visited;
      assert IndexOf(s.visited, p) < k;
      var prefix := Chain(pr, s, p);
      IsPathAppend(pr.grid, prefix, c);
      prefix + [c]
  }

  /**
   * Lines 41-47: the path handed to `grid.setPath` when the chosen node `c`
   * is the goal; it runs from the start to `c` through neighbour steps.
   */
  function PathTo(pr: Problem, s: Search, c: Coord): (path: seq<Coord>)
    requires Core(pr, s) && c in s.open
    ensures |path| > 0 && path[0] == pr.grid.start && path[|path| - 1] == c
    ensures IsPath(pr.grid, path)
  {
    var n := s.open[c];
    assert NodeOk(pr, s.closed, c, n);
    if n.parent.None? then [c]
    else
      var prefix := Chain(pr, s, n.parent.value);
      IsPathAppend(pr.grid, prefix, c);
      prefix + [c]
  }

  /** A set of cells that holds every neighbour of each of its cells. */
  ghost predicate NeighbourClosed(grid: Grid, region: set<Coord>)
  {
    forall c, k :: c in region && 0 <= k < |grid.neighbors(c)| ==> grid.neighbors(c)[k].to in region
  }

  /** A walk that starts inside a neighbour-closed region never leaves it. */
  lemma {:induction false} WalkStaysInside(grid: Grid, region: set<Coord>, path: seq<Coord>)
    requires NeighbourClosed(grid, region) && IsPath(grid, path)
    requires |path| > 0 && path[0] in region
    ensures forall i :: 0 <= i < |path| ==> path[i] in region
    decreases |path|
  {
    if |path| > 1 {
      var init := path[..|path| - 1];
      assert IsPath(grid, init) by {
        forall i | 0 <= i < |init| - 1 ensures Adjacent(grid, init[i], init[i + 1]) {
          assert Adjacent(grid, path[i], path[i + 1]);
        }
      }
      WalkStaysInside(grid, region, init);
      assert path[|path| - 2] in region by {
        assert init[|init| - 1] == path[|path| - 2];
      }
      assert Adjacent(grid, path[|path| - 2], path[|path| - 1]);
      forall i | 0 <= i < |path| ensures path[i] in region {
        if i < |path| - 1 {
          assert path[i] == init[i];
        }
      }
    }
  }

  /**
   * When the open map runs empty, the closed cells contain the start, hold
   * every neighbour of their members and exclude the goal: no walk from the
   * start reaches the goal.
   */
  lemma ExhaustedMeansUnreachable(pr: Problem, s: Search)
    requires Inv(pr, s) && |s.open| == 0
    ensures forall path :: |path| > 0 && path[0] == pr.grid.start && IsPath(pr.grid, path) ==>
      path[|path| - 1] != pr.goal
  {
    var region := s.closed.Keys;
    assert pr.grid.start in region;
    assert NeighbourClosed(pr.grid, region);
    forall path | |path| > 0 && path[0] == pr.grid.start && IsPath(pr.grid, path)
      ensures path[|path| - 1] != pr.goal
    {
      WalkStaysInside(pr.grid, region, path);
    }
  }

  /** How a call of `astar` ends, with the cells passed to `grid.addVisited` in order. */
  datatype PlanResult =
    | MissingGoal                                  // `grid.getGoals()[0]` raises on an empty goal list
    | PathSet(path: seq<Coord>, visited: seq<Coord>) // `grid.setPath(path)` was called
    | NoPath(visited: seq<Coord>)                  // the open map ran empty; no path is set

  /** The open map is listed by `order`; in particular a non-empty map has a first entry. */
  lemma OrderListsOpen(pr: Problem, s: Search)
    requires Shape(pr, s)
    ensures OrderInOpen(s)
    ensures |s.open| > 0 ==> |s.order| > 0
  {
    if |s.open| > 0 {
      var c :| c in s.open;
      assert c in s.order;
    }
  }

  /** Closing one more cell of the grid leaves fewer cells unclosed. */
  lemma FewerUnclosed(cells: set<Coord>, closed: set<Coord>, cur: Coord)
    requires cur in cells && cur !in closed
    ensures |cells - (closed + {cur})| < |cells - closed|
  {
    var rest := cells - (closed + {cur});
    assert cells - closed == rest + {cur};
    assert |rest + {cur}| == |rest| + 1;
  }

  /**
   * `astar(grid, heuristic)`: A* from `grid.getStart()` to the first goal.
   * The search always terminates; a path it sets runs from the start to the
   * first goal through neighbour steps; it gives up only when no walk from the
   * start reaches that goal.
   */
  method AStar(grid: Grid, heuristic: (Coord, Coord) -> real) returns (r: PlanResult)
    requires WellFormed(grid)
    ensures r.MissingGoal? <==> grid.goals == []
    ensures r.PathSet? ==>
      && |r.path| > 0
      && r.path[0] == grid.start
      && r.path[|r.path| - 1] == grid.goals[0]
      && IsPath(grid, r.path)
    ensures r.NoPath? ==>
      forall path :: |path| > 0 && path[0] == grid.start && IsPath(grid, path) ==>
        path[|path| - 1] != grid.goals[0]
    ensures !r.MissingGoal? ==> grid.goals[0] !in r.visited
  {
    if |grid.goals| == 0 {
      return MissingGoal;
    }
    var pr := Problem(grid, heuristic, grid.goals[0]);
    var s, found := Explore(pr);
    if found {
      return PathSet(PathTo(pr, s, pr.goal), s.visited);
    }
    ExhaustedMeansUnreachable(pr, s);
    return NoPath(s.visited);
  }

  /**
   * Lines 31-82: the main loop. It stops either when the open node of least
   * priority is the goal (`found`) or when the open map runs empty.
   */
  method Explore(pr: Problem) returns (s: Search, found: bool)
    requires WellFormed(pr.grid)
    ensures Inv(pr, s)
    ensures found ==> OrderInOpen(s) && |s.order| > 0 && s.order[FirstMin(s)] == pr.goal
    ensures !found ==> |s.open| == 0
  {
    s := Init(pr);
    while |s.open| > 0
      invariant Inv(pr, s)
      decreases |pr.grid.cells - s.closed.Keys|
    {
      OrderListsOpen(pr, s);
      var cur := s.order[FirstMin(s)];
      if cur == pr.goal {
        return s, true;
      }
      FewerUnclosed(pr.grid.cells, s.closed.Keys, cur);
      s := Expand(pr, s, cur);
    }
    return s, false;
  }

  /** A square is non-negative, and zero only for zero. */
  lemma IntSquare(x: int)
    ensures x * x >= 0
    ensures x * x == 0 <==> x == 0
  {
    if x > 0 {
      assert x * x >= x;
    } else if x < 0 {
      assert x * x == (-x) * (-x) >= -x;
    }
  }

  /**
   * The square of the straight-line distance between two cells, the quantity
   * under `math.sqrt` in `heuristic`.
   */
  function SquaredDistance(a: Coord, b: Coord): (d: int)
    ensures d >= 0
    ensures d == 0 <==> a == b
  {
    var dx, dy := a.0 - b.0, a.1 - b.1;
    IntSquare(dx);
    IntSquare(dy);
    dx * dx + dy * dy
  }

  /**
   * What the planner needs of `math.sqrt` on non-negative arguments: the
   * result is non-negative and zero exactly at zero.
   */
  ghost predicate SqrtFacts(sqrt: real -> real)
  {
    forall x: real :: x >= 0.0 ==> sqrt(x) >= 0.0 && (sqrt(x) == 0.0 <==> x == 0.0)
  }

  /**
   * `heuristic(current, goal)`: the straight-line distance between two cells,
   * with `math.sqrt` passed in as `sqrt`. It is never negative and is zero
   * exactly when the two cells coincide.
   */
  function Heuristic(a: Coord, b: Coord, sqrt: real -> real): (r: real)
    requires SqrtFacts(sqrt)
    ensures r >= 0.0
    ensures r == 0.0 <==> a == b
  {
    sqrt(SquaredDistance(a, b) as real)
  }

  /** The straight-line distance does not depend on the direction. */
  lemma HeuristicSymmetric(a: Coord, b: Coord, sqrt: real -> real)
    requires SqrtFacts(sqrt)
    ensures Heuristic(a, b, sqrt) == Heuristic(b, a, sqrt)
  {
    assert SquaredDistance(a, b) == SquaredDistance(b, a) by {
      assert (a.0 - b.0) * (a.0 - b.0) == (b.0 - a.0) * (b.0 - a.0);
      assert (a.1 - b.1) * (a.1 - b.1) == (b.1 - a.1) * (b.1 - a.1);
    }
  }
}
