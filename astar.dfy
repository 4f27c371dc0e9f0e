/** The incremental A* agent of MAZE_AI: each call of Step does one unit of
    search work over the passable cells of a Labyrinth, so that the state in
    between can be shown. */
module AStar {
  import opened Maze

  datatype Option<T> = None | Some(value: T)

  /** Noeud: a search node; f is g + h, the parent link leads back to the start. */
  datatype Node = Node(pos: Pos, g: nat, h: nat, parent: Option<Node>)
  {
    function F(): nat { g + h }
  }

  /** The statistics record: noeuds_explores, noeuds_en_attente,
      longueur_chemin and efficacite. */
  datatype Stats = Stats(explored: int, pending: int, pathLength: int, efficiency: real)

  const NoStats := Stats(0, 0, 0, 0.0)

  function Abs(n: int): nat
  {
    if n < 0 then -n else n
  }

  /** heuristique: the Manhattan distance. */
  function Heuristic(a: Pos, b: Pos): (d: nat)
    ensures d == 0 <==> a == b
    ensures Adjacent(a, b) ==> d == 1
  {
    Abs(a.x - b.x) + Abs(a.y - b.y)
  }

  /** One step changes the heuristic by at most one (the heuristic is consistent). */
  lemma HeuristicConsistent(p: Pos, q: Pos, goal: Pos)
    requires Adjacent(p, q)
    ensures Heuristic(p, goal) <= Heuristic(q, goal) + 1
  {
  }

  /** The heuristic never overestimates: every walk from p to q takes at least Heuristic(p, q) steps. */
  lemma {:induction false} HeuristicAdmissible(s: seq<Pos>)
    requires |s| >= 1 && IsWalk(s)
    ensures Heuristic(s[0], s[|s| - 1]) <= |s| - 1
  {
    if |s| > 1 {
      var t := s[1..];
      assert IsWalk(t) by {
        forall i | 0 <= i < |t| - 1
          ensures Adjacent(t[i], t[i + 1])
        {
          assert t[i] == s[i + 1] && t[i + 1] == s[i + 2];
        }
      }
      HeuristicAdmissible(t);
      assert t[|t| - 1] == s[|s| - 1];
      assert Adjacent(s[0], s[1]);
      HeuristicConsistent(s[0], s[1], s[|s| - 1]);
    }
  }

  /** The node was built by the search: its chain of parents runs through
      passable cells, one step at a time, back to a root at start with g = 0,
      and g counts the steps. */
  predicate Rooted(n: Node, grid: Grid, width: int, height: int, start: Pos)
    decreases n
  {
    IsValid(grid, width, height, n.pos.x, n.pos.y) &&
    match n.parent
    case None => n.pos == start && n.g == 0
    case Some(p) => n.g == p.g + 1 && Adjacent(p.pos, n.pos) && Rooted(p, grid, width, height, start)
  }

  /** The positions from n back along the parent links (the `chemin` list before it is reversed). */
  function Chain(n: Node): (c: seq<Pos>)
    ensures |c| >= 1 && c[0] == n.pos
    decreases n
  {
    match n.parent
    case None => [n.pos]
    case Some(p) => [n.pos] + Chain(p)
  }

  /** `s[::-1]`. */
  function Reverse<T>(s: seq<T>): (r: seq<T>)
    ensures |r| == |s|
    ensures forall i :: 0 <= i < |s| ==> r[i] == s[|s| - 1 - i]
  {
    if s == [] then [] else Reverse(s[1..]) + [s[0]]
  }

  /** The parent chain of a rooted node has g + 1 entries, is a walk over
      passable cells and ends at start. */
  lemma {:induction false} ChainOfRooted(n: Node, grid: Grid, width: int, height: int, start: Pos)
    requires Rooted(n, grid, width, height, start)
    ensures |Chain(n)| == n.g + 1
    ensures Chain(n)[|Chain(n)| - 1] == start
    ensures IsWalk(Chain(n))
    ensures AllPassable(Chain(n), grid, width, height)
    decreases n
  {
    match n.parent
    case None =>
    case Some(p) =>
      ChainOfRooted(p, grid, width, height, start);
      var c, cp := Chain(n), Chain(p);
      assert c == [n.pos] + cp;
      forall i | 0 <= i < |c| - 1
        ensures Adjacent(c[i], c[i + 1])
      {
        if i > 0 { assert c[i] == cp[i - 1] && c[i + 1] == cp[i]; }
      }
      forall i | 0 <= i < |c|
        ensures IsValid(grid, width, height, c[i].x, c[i].y)
      {
        if i > 0 { assert c[i] == cp[i - 1]; }
      }
  }

  /** The reversed parent chain of a rooted node is a path from start to the
      node's position with n.g steps. */
  lemma PathOfRooted(n: Node, grid: Grid, width: int, height: int, start: Pos)
    requires Rooted(n, grid, width, height, start)
    ensures IsPath(Reverse(Chain(n)), grid, width, height, start, n.pos)
    ensures |Reverse(Chain(n))| == n.g + 1
  {
    ChainOfRooted(n, grid, width, height, start);
    var c := Chain(n);
    var r := Reverse(c);
    ReverseWalk(c);
    ReversePassable(c, grid, width, height);
  }

  lemma ReversePassable(c: seq<Pos>, grid: Grid, width: int, height: int)
    requires AllPassable(c, grid, width, height)
    ensures AllPassable(Reverse(c), grid, width, height)
  {
    var r := Reverse(c);
    forall i | 0 <= i < |r|
      ensures IsValid(grid, width, height, r[i].x, r[i].y)
    {
      assert r[i] == c[|c| - 1 - i];
    }
  }

  /** Reversing a walk gives a walk. */
  lemma ReverseWalk(c: seq<Pos>)
    requires IsWalk(c)
    ensures IsWalk(Reverse(c))
  {
    var r := Reverse(c);
    forall i | 0 <= i < |r| - 1
      ensures Adjacent(r[i], r[i + 1])
    {
      assert r[i] == c[|c| - 1 - i] && r[i + 1] == c[|c| - 2 - i];
      assert Adjacent(c[|c| - 2 - i], c[|c| - 1 - i]);
      AdjacentSymmetric(c[|c| - 2 - i], c[|c| - 1 - i]);
    }
  }

  /** The reconstruction loop of a_star_pas_a_pas: follow the parent links
      from n, collecting positions, then reverse the list. */
  method ReconstructPath(n: Node) returns (path: seq<Pos>)
    ensures path == Reverse(Chain(n))
  {
    var chain: seq<Pos> := [];
    var current := Some(n);
    while current.Some?
      invariant chain + Rest(current) == Chain(n)
      decreases current
    {
      var node := current.value;
      assert Rest(current) == [node.pos] + Rest(node.parent);
      assert (chain + [node.pos]) + Rest(node.parent) == chain + ([node.pos] + Rest(node.parent));
      chain := chain + [node.pos];
      current := node.parent;
    }
    assert chain + [] == chain;
    path := Reverse(chain);
  }

  /** The positions still to be collected from an optional node. */
  function Rest(o: Option<Node>): seq<Pos>
  {
    match o
    case None => []
    case Some(n) => Chain(n)
  }

  /** n has the least f of the frontier. */
  predicate IsMinimal(n: Node, frontier: multiset<Node>)
  {
    forall m :: m in frontier ==> n.F() <= m.F()
  }

  /** heappop is well defined: a non-empty frontier has a node of least f. */
  lemma {:induction false} MinExists(frontier: multiset<Node>)
    requires frontier != multiset{}
    ensures exists n :: n in frontier && IsMinimal(n, frontier)
    decreases |frontier|
  {
    var x :| x in frontier;
    var rest := frontier - multiset{x};
    if rest == multiset{} {
      assert frontier == multiset{x};
      assert IsMinimal(x, frontier);
    } else {
      MinExists(rest);
      var y :| y in rest && IsMinimal(y, rest);
      assert frontier == rest + multiset{x};
      if x.F() <= y.F() {
        assert IsMinimal(x, frontier);
      } else {
        assert IsMinimal(y, frontier);
      }
    }
  }

  /** The relaxation test: the neighbour is not closed, and has no best-known
      node yet or g improves on it. */
  predicate Improves(p: Pos, g: nat, closed: set<Pos>, best: map<Pos, Node>)
  {
    p !in closed && (p !in best || g < best[p].g)
  }

  /** The node pushed for neighbour p of current. */
  function Child(current: Node, p: Pos, goal: Pos): Node
  {
    Node(p, current.g + 1, Heuristic(p, goal), Some(current))
  }

  /** The open-list state the neighbour loop updates: the heap _liste_ouverte,
      the best-known map _noeuds_ouverts and the positions shown as open. */
  datatype Open = Open(heap: multiset<Node>, best: map<Pos, Node>, shown: set<Pos>)

  /** The open-list state once the neighbour loop has handled nbs in order;
      each neighbour is tested against the best-known map as the earlier ones left it. */
  function Relax(current: Node, nbs: seq<Pos>, goal: Pos, closed: set<Pos>, o: Open): Open
    decreases |nbs|
  {
    if nbs == [] then o
    else
      var r := Relax(current, nbs[..|nbs| - 1], goal, closed, o);
      var p := nbs[|nbs| - 1];
      if Improves(p, current.g + 1, closed, r.best) then
        Open(r.heap + multiset{Child(current, p, goal)}, r.best[p := Child(current, p, goal)], r.shown + {p})
      else r
  }

  /** The neighbours that pass the relaxation test against the map before the loop. */
  function Discovered(current: Node, nbs: seq<Pos>, closed: set<Pos>, best: map<Pos, Node>): set<Pos>
  {
    set p | p in nbs && Improves(p, current.g + 1, closed, best)
  }

  /** The children of current for a set of positions. */
  function Children(current: Node, ps: set<Pos>, goal: Pos): set<Node>
  {
    set p | p in ps :: Child(current, p, goal)
  }

  /** The best-known entries the children of current for a set of positions make. */
  function ChildMap(current: Node, ps: set<Pos>, goal: Pos): map<Pos, Node>
  {
    map p | p in ps :: Child(current, p, goal)
  }

  predicate Distinct(s: seq<Pos>)
  {
    forall i, j :: 0 <= i < j < |s| ==> s[i] != s[j]
  }

  /** The last of distinct neighbours does not occur before it. */
  lemma LastNeighbour(nbs: seq<Pos>)
    requires Distinct(nbs) && nbs != []
    ensures var init, p := nbs[..|nbs| - 1], nbs[|nbs| - 1];
      Distinct(init) && p !in init && nbs == init + [p]
  {
    var init, p := nbs[..|nbs| - 1], nbs[|nbs| - 1];
    forall j | 0 <= j < |init| ensures init[j] != p { assert init[j] == nbs[j]; }
  }

  /** The discovered positions of distinct neighbours: those of all but the
      last one, and the last one if it passes the test. */
  lemma DiscoveredLast(current: Node, nbs: seq<Pos>, closed: set<Pos>, best: map<Pos, Node>)
    requires Distinct(nbs) && nbs != []
    ensures var init, p := nbs[..|nbs| - 1], nbs[|nbs| - 1];
      var d0 := Discovered(current, init, closed, best);
      && p !in d0
      && Discovered(current, nbs, closed, best)
         == if Improves(p, current.g + 1, closed, best) then d0 + {p} else d0
  {
    LastNeighbour(nbs);
    var init, p := nbs[..|nbs| - 1], nbs[|nbs| - 1];
    assert forall q :: q in nbs <==> q in init || q == p;
  }

  /** Over distinct neighbours, the loop's best-known map is the map before
      it with the child of current for every discovered position. */
  lemma {:induction false} RelaxBest(current: Node, nbs: seq<Pos>, goal: Pos, closed: set<Pos>, o: Open)
    requires Distinct(nbs)
    ensures Relax(current, nbs, goal, closed, o).best
         == o.best + ChildMap(current, Discovered(current, nbs, closed, o.best), goal)
    decreases |nbs|
  {
    if nbs != [] {
      LastNeighbour(nbs);
      DiscoveredLast(current, nbs, closed, o.best);
      var init, p := nbs[..|nbs| - 1], nbs[|nbs| - 1];
      var d0 := Discovered(current, init, closed, o.best);
      RelaxBest(current, init, goal, closed, o);
      if Improves(p, current.g + 1, closed, o.best) {
        ChildrenAdd(current, d0, p, goal);
        MergeUpdate(o.best, ChildMap(current, d0, goal), p, Child(current, p, goal));
      }
    }
  }

  /** The test on the last of distinct neighbours gives the same answer
      against the map the loop has built so far as against the map before it. */
  lemma ImprovesLast(current: Node, nbs: seq<Pos>, goal: Pos, closed: set<Pos>, o: Open)
    requires Distinct(nbs) && nbs != []
    ensures var init, p := nbs[..|nbs| - 1], nbs[|nbs| - 1];
      Improves(p, current.g + 1, closed, Relax(current, init, goal, closed, o).best)
      == Improves(p, current.g + 1, closed, o.best)
  {
    LastNeighbour(nbs);
    DiscoveredLast(current, nbs, closed, o.best);
    var init := nbs[..|nbs| - 1];
    RelaxBest(current, init, goal, closed, o);
  }

  /** Over distinct neighbours, the loop pushes exactly one child of current
      per discovered position and nothing else. */
  lemma {:induction false} RelaxHeap(current: Node, nbs: seq<Pos>, goal: Pos, closed: set<Pos>, o: Open)
    requires Distinct(nbs)
    ensures Relax(current, nbs, goal, closed, o).heap
         == o.heap + multiset(Children(current, Discovered(current, nbs, closed, o.best), goal))
    decreases |nbs|
  {
    if nbs != [] {
      LastNeighbour(nbs);
      DiscoveredLast(current, nbs, closed, o.best);
      ImprovesLast(current, nbs, goal, closed, o);
      var init, p := nbs[..|nbs| - 1], nbs[|nbs| - 1];
      var d0 := Discovered(current, init, closed, o.best);
      RelaxHeap(current, init, goal, closed, o);
      if Improves(p, current.g + 1, closed, o.best) {
        ChildrenAdd(current, d0, p, goal);
        var m0 := multiset(Children(current, d0, goal));
        assert o.heap + m0 + multiset{Child(current, p, goal)} == o.heap + (m0 + multiset{Child(current, p, goal)});
      }
    }
  }

  /** Over distinct neighbours, the loop shows exactly the discovered positions as open. */
  lemma {:induction false} RelaxShown(current: Node, nbs: seq<Pos>, goal: Pos, closed: set<Pos>, o: Open)
    requires Distinct(nbs)
    ensures Relax(current, nbs, goal, closed, o).shown == o.shown + Discovered(current, nbs, closed, o.best)
    decreases |nbs|
  {
    if nbs != [] {
      LastNeighbour(nbs);
      DiscoveredLast(current, nbs, closed, o.best);
      ImprovesLast(current, nbs, goal, closed, o);
      RelaxShown(current, nbs[..|nbs| - 1], goal, closed, o);
    }
  }

  /** Adding a position not yet in the set adds its child once. */
  lemma ChildrenAdd(current: Node, ps: set<Pos>, p: Pos, goal: Pos)
    requires p !in ps
    ensures multiset(Children(current, ps + {p}, goal)) == multiset(Children(current, ps, goal)) + multiset{Child(current, p, goal)}
    ensures ChildMap(current, ps + {p}, goal) == ChildMap(current, ps, goal)[p := Child(current, p, goal)]
  {
    assert Child(current, p, goal) !in Children(current, ps, goal);
    assert Children(current, ps + {p}, goal) == Children(current, ps, goal) + {Child(current, p, goal)};
  }

  lemma MergeUpdate<K, V>(a: map<K, V>, b: map<K, V>, k: K, v: V)
    ensures (a + b)[k := v] == a + b[k := v]
  {
  }

  /** The relaxation never raises the g of a best-known position and never
      forgets one; a position it adds or replaces gets g one more than current. */
  lemma RelaxMonotone(current: Node, nbs: seq<Pos>, goal: Pos, closed: set<Pos>, o: Open)
    requires Distinct(nbs)
    ensures var r := Relax(current, nbs, goal, closed, o);
      && o.best.Keys <= r.best.Keys
      && (forall p :: p in o.best ==> r.best[p].g <= o.best[p].g)
      && (forall p :: p in r.best && (p !in o.best || r.best[p] != o.best[p]) ==> r.best[p].g == current.g + 1)
  {
    RelaxBest(current, nbs, goal, closed, o);
  }

  /** Relaxing the passable neighbours of a sound node keeps the heap and the best-known map sound. */
  lemma {:induction false} RelaxSound(current: Node, nbs: seq<Pos>, grid: Grid, width: int, height: int, start: Pos, goal: Pos,
                                      closed: set<Pos>, o: Open)
    requires Sound(current, grid, width, height, start, goal)
    requires forall q :: q in nbs ==> Adjacent(current.pos, q) && IsValid(grid, width, height, q.x, q.y)
    requires FrontierSound(o.heap, grid, width, height, start, goal)
    requires BestSound(o.best, grid, width, height, start, goal)
    ensures var r := Relax(current, nbs, goal, closed, o);
      FrontierSound(r.heap, grid, width, height, start, goal) && BestSound(r.best, grid, width, height, start, goal)
    decreases |nbs|
  {
    if nbs != [] {
      var init, p := nbs[..|nbs| - 1], nbs[|nbs| - 1];
      assert forall q :: q in init ==> q in nbs;
      RelaxSound(current, init, grid, width, height, start, goal, closed, o);
      ChildSound(current, p, grid, width, height, start, goal);
    }
  }

  /** The child of a sound node for one of its passable neighbours is sound. */
  lemma ChildSound(current: Node, p: Pos, grid: Grid, width: int, height: int, start: Pos, goal: Pos)
    requires Sound(current, grid, width, height, start, goal)
    requires Adjacent(current.pos, p) && IsValid(grid, width, height, p.x, p.y)
    ensures Sound(Child(current, p, goal), grid, width, height, start, goal)
  {
  }

  /** The neighbour loop of a_star_pas_a_pas: for every neighbour, in order,
      that is not closed and has no best-known node or one with a larger g,
      push its child, record it as best known and show the position as open. */
  method RelaxAll(current: Node, nbs: seq<Pos>, goal: Pos, closed: set<Pos>, o: Open) returns (r: Open)
    ensures r == Relax(current, nbs, goal, closed, o)
  {
    var heap, best, shown := o.heap, o.best, o.shown;
    ghost var seen: seq<Pos> := [];
    var i := 0;
    while i < |nbs|
      invariant 0 <= i <= |nbs| && seen == nbs[..i]
      invariant Open(heap, best, shown) == Relax(current, seen, goal, closed, o)
    {
      var p := nbs[i];
      assert (seen + [p])[..|seen|] == seen;
      if p !in closed {
        var g := current.g + 1;
        var h := Heuristic(p, goal);
        if p !in best || g < best[p].g {
          var child := Node(p, g, h, Some(current));
          heap := heap + multiset{child};
          best := best[p := child];
          shown := shown + {p};
        }
      }
      seen := seen + [p];
      i := i + 1;
    }
    assert seen == nbs;
    r := Open(heap, best, shown);
  }

  /** The closing percentage: path cells per closed position, the closed count taken as at least one. */
  function Efficiency(pathCells: nat, closedCount: nat): (e: real)
    ensures e >= 0.0
    ensures 1 <= closedCount ==> e * closedCount as real == pathCells as real * 100.0
    ensures closedCount == 0 ==> e == pathCells as real * 100.0
  {
    (pathCells as real / (if closedCount < 1 then 1 else closedCount) as real) * 100.0
  }

  /** In a carved maze of even width and height no node rooted at (1,1)
      stands on the goal (width-2, height-2): the goal has no passable neighbour. */
  lemma EvenMazeGoalUnreached(n: Node, grid: Grid, width: int, height: int)
    requires 2 <= width && 2 <= height && width % 2 == 0 && height % 2 == 0
    requires Carved(grid, width, height, Pos(1, 1), Pos(width - 2, height - 2))
    requires Rooted(n, grid, width, height, Pos(1, 1))
    ensures n.pos != Pos(width - 2, height - 2)
  {
    GoalIsolatedWhenEven(grid, width, height);
    match n.parent
    case None =>
    case Some(p) =>
      AdjacentSymmetric(p.pos, n.pos);
      assert p.pos in Neighbours(grid, width, height, n.pos);
  }

  /** A node of a search over the grid: rooted at start, with the heuristic towards goal. */
  ghost predicate Sound(n: Node, grid: Grid, width: int, height: int, start: Pos, goal: Pos)
  {
    Rooted(n, grid, width, height, start) && n.h == Heuristic(n.pos, goal)
  }

  ghost predicate FrontierSound(frontier: multiset<Node>, grid: Grid, width: int, height: int, start: Pos, goal: Pos)
  {
    forall n :: n in frontier ==> Sound(n, grid, width, height, start, goal)
  }

  /** Every best-known node is keyed by its own position. */
  ghost predicate BestSound(best: map<Pos, Node>, grid: Grid, width: int, height: int, start: Pos, goal: Pos)
  {
    forall p :: p in best ==> best[p].pos == p && Sound(best[p], grid, width, height, start, goal)
  }

  /** What the agent reads of its labyrinth. */
  datatype MazeView = MazeView(grid: Grid, width: int, height: int, start: Pos, goal: Pos)

  /** The agent's fields: the hidden search state (whether it exists, the
      heap _liste_ouverte, the closed set _liste_fermee, the best-known map
      _noeuds_ouverts) and the public one (liste_ouverte_positions,
      liste_fermee_positions, chemin_final, algorithme_termine, statistiques). */
  datatype AgentState = AgentState(initialised: bool, frontier: multiset<Node>, closed: set<Pos>,
                                   best: map<Pos, Node>, openPositions: set<Pos>, closedPositions: set<Pos>,
                                   finalPath: seq<Pos>, finished: bool, stats: Stats)

  /** The state of a new agent. */
  const Fresh := AgentState(false, multiset{}, {}, map[], {}, {}, [], false, NoStats)

  /** A state the agent can be in over the labyrinth v: every node on the
      heap or in the best-known map is sound, there is no hidden state before
      initialisation, the public closed positions are hidden-closed, and a
      finished search holds a path from start to goal. */
  ghost predicate Consistent(s: AgentState, v: MazeView)
  {
    && IsValid(v.grid, v.width, v.height, v.start.x, v.start.y)
    && FrontierSound(s.frontier, v.grid, v.width, v.height, v.start, v.goal)
    && BestSound(s.best, v.grid, v.width, v.height, v.start, v.goal)
    && (!s.initialised ==> s.frontier == multiset{} && s.closed == {} && s.best == map[])
    && s.closedPositions <= s.closed
    && (s.finished <==> s.finalPath != [])
    && (s.finished ==> IsPath(s.finalPath, v.grid, v.width, v.height, v.start, v.goal))
    && (s.finished ==> v.goal in s.closedPositions)
  }

  /** The node the first step seeds the search with. */
  function Root(v: MazeView): Node
  {
    Node(v.start, 0, Heuristic(v.start, v.goal), None)
  }

  /** The initialisation branch of a_star_pas_a_pas. */
  function Seed(s: AgentState, v: MazeView): AgentState
  {
    s.(initialised := true, frontier := multiset{Root(v)}, closed := {}, best := map[v.start := Root(v)],
       openPositions := s.openPositions + {v.start})
  }

  /** The state after a step and the step's result. */
  datatype Outcome = Outcome(state: AgentState, more: bool)

  /** The rest of a step once `current` has been popped off the heap. */
  function AfterPop(s: AgentState, v: MazeView, current: Node): Outcome
  {
    var popped := s.(frontier := s.frontier - multiset{current});
    if current.pos in s.closed then Outcome(popped, true)
    else
      var closed := popped.(closed := s.closed + {current.pos}, closedPositions := s.closedPositions + {current.pos});
      if current.pos == v.goal then
        var path := Reverse(Chain(current));
        Outcome(closed.(finalPath := path, finished := true,
                        stats := s.stats.(pathLength := |path| - 1,
                                          efficiency := Efficiency(|path|, |closed.closedPositions|))),
                false)
      else
        var r := Relax(current, Neighbours(v.grid, v.width, v.height, current.pos), v.goal, closed.closed,
                       Open(popped.frontier, s.best, s.openPositions));
        Outcome(closed.(frontier := r.heap, best := r.best, openPositions := r.shown,
                        stats := s.stats.(explored := |closed.closedPositions|, pending := |r.heap|)),
                true)
  }

  /** A new agent, or one restarted, is consistent over any labyrinth whose start is passable. */
  lemma FreshConsistent(v: MazeView)
    requires IsValid(v.grid, v.width, v.height, v.start.x, v.start.y)
    ensures Consistent(Fresh, v) && !Fresh.initialised && !Fresh.finished
  {
  }

  /** Initialisation gives a consistent state. */
  lemma SeedConsistent(s: AgentState, v: MazeView)
    requires Consistent(s, v) && !s.initialised
    ensures Consistent(Seed(s, v), v)
    ensures Seed(s, v).closed == {} && Root(v).g == 0 && Root(v).F() == Heuristic(v.start, v.goal)
  {
  }

  /** Every step keeps the state consistent. */
  lemma AfterPopConsistent(s: AgentState, v: MazeView, current: Node)
    requires Consistent(s, v) && current in s.frontier
    ensures Consistent(AfterPop(s, v, current).state, v)
  {
    var popped := s.frontier - multiset{current};
    assert FrontierSound(popped, v.grid, v.width, v.height, v.start, v.goal);
    if current.pos !in s.closed {
      if current.pos == v.goal {
        PathOfRooted(current, v.grid, v.width, v.height, v.start);
      } else {
        var closed := s.closed + {current.pos};
        var nbs := Neighbours(v.grid, v.width, v.height, current.pos);
        RelaxSound(current, nbs, v.grid, v.width, v.height, v.start, v.goal, closed, Open(popped, s.best, s.openPositions));
      }
    }
  }

  /** A stale heap entry (its position already closed) only leaves the heap. */
  lemma AfterPopStale(s: AgentState, v: MazeView, current: Node)
    requires current.pos in s.closed
    ensures AfterPop(s, v, current) == Outcome(s.(frontier := s.frontier - multiset{current}), true)
  {
  }

  /** A step that pops an open position closes exactly that position, in both
      closed sets; no step removes a closed or shown-open position; the step
      returns False exactly when it reaches the goal. */
  lemma AfterPopCloses(s: AgentState, v: MazeView, current: Node)
    ensures var r := AfterPop(s, v, current);
      && s.closed <= r.state.closed && s.closedPositions <= r.state.closedPositions
      && s.openPositions <= r.state.openPositions
      && (current.pos !in s.closed ==>
            r.state.closed == s.closed + {current.pos}
            && r.state.closedPositions == s.closedPositions + {current.pos})
      && (r.more <==> current.pos in s.closed || current.pos != v.goal)
  {
    if current.pos !in s.closed && current.pos != v.goal {
      var nbs := Neighbours(v.grid, v.width, v.height, current.pos);
      RelaxShown(current, nbs, v.goal, s.closed + {current.pos}, Open(s.frontier - multiset{current}, s.best, s.openPositions));
    }
  }

  /** At the goal the search stops with the reversed parent chain: a path of
      g + 1 cells from start to goal, whose length is recorded as g. */
  lemma AfterPopGoal(s: AgentState, v: MazeView, current: Node)
    requires Consistent(s, v) && current in s.frontier
    requires current.pos !in s.closed && current.pos == v.goal
    ensures var r := AfterPop(s, v, current);
      && !r.more && r.state.finished
      && IsPath(r.state.finalPath, v.grid, v.width, v.height, v.start, v.goal)
      && |r.state.finalPath| == current.g + 1
      && r.state.stats.pathLength == current.g
      && r.state.frontier == s.frontier - multiset{current}
      && r.state.best == s.best && r.state.openPositions == s.openPositions
  {
    PathOfRooted(current, v.grid, v.width, v.height, v.start);
  }

  /** Expanding any other position relaxes its neighbours: the heap gains
      exactly one child of current per discovered neighbour, the best-known map
      records those children and the discovered neighbours are shown as open;
      the counters are then the closed count and the heap size. */
  lemma AfterPopExpand(s: AgentState, v: MazeView, current: Node)
    requires current.pos !in s.closed && current.pos != v.goal
    ensures var r := AfterPop(s, v, current).state;
      var closed := s.closed + {current.pos};
      var d := Discovered(current, Neighbours(v.grid, v.width, v.height, current.pos), closed, s.best);
      && r.frontier == s.frontier - multiset{current} + multiset(Children(current, d, v.goal))
      && r.best == s.best + ChildMap(current, d, v.goal)
      && r.openPositions == s.openPositions + d
      && (forall p :: p in d <==>
            Adjacent(current.pos, p) && IsValid(v.grid, v.width, v.height, p.x, p.y) && Improves(p, current.g + 1, closed, s.best))
      && r.stats.explored == |r.closedPositions| && r.stats.pending == |r.frontier|
      && r.finalPath == s.finalPath && r.finished == s.finished
  {
    var closed := s.closed + {current.pos};
    var nbs := Neighbours(v.grid, v.width, v.height, current.pos);
    var o := Open(s.frontier - multiset{current}, s.best, s.openPositions);
    RelaxHeap(current, nbs, v.goal, closed, o);
    RelaxBest(current, nbs, v.goal, closed, o);
    RelaxShown(current, nbs, v.goal, closed, o);
  }

  /** reinitialiser as a change of state: the public state is cleared, the
      hidden heap, closed set and best-known map are kept. */
  function Cleared(s: AgentState): AgentState
  {
    s.(openPositions := {}, closedPositions := {}, finalPath := [], finished := false, stats := NoStats)
  }

  /** A reset keeps the state consistent. */
  lemma ClearedConsistent(s: AgentState, v: MazeView)
    requires Consistent(s, v)
    ensures Consistent(Cleared(s), v)
    ensures Cleared(s).closed == s.closed && !Cleared(s).finished && Cleared(s).finalPath == []
  {
  }

  /** The state after the heap entries pops have been popped in turn. */
  function Run(s: AgentState, v: MazeView, pops: seq<Node>): AgentState
    decreases |pops|
  {
    if pops == [] then s else Run(AfterPop(s, v, pops[0]).state, v, pops[1..])
  }

  /** Once the goal is in the hidden closed set, no sequence of steps finishes
      the search or records a path. */
  lemma {:induction false} GoalClosedNeverFinishes(s: AgentState, v: MazeView, pops: seq<Node>)
    requires v.goal in s.closed && !s.finished && s.finalPath == []
    ensures !Run(s, v, pops).finished && Run(s, v, pops).finalPath == []
    decreases |pops|
  {
    if pops != [] {
      AfterPopCloses(s, v, pops[0]);
      GoalClosedNeverFinishes(AfterPop(s, v, pops[0]).state, v, pops[1..]);
    }
  }

  /** A reset after a solved search leaves the goal in the hidden closed set,
      so however the following steps pop the heap the search never finishes
      again. */
  lemma ResetAfterSolveNeverFinishes(s: AgentState, v: MazeView, pops: seq<Node>)
    requires Consistent(s, v) && s.finished
    ensures !Run(Cleared(s), v, pops).finished
  {
    GoalClosedNeverFinishes(Cleared(s), v, pops);
  }

  /** After a full restart the first step seeds a new search: nothing is
      closed, the goal included, and the heap holds the root alone. */
  lemma RestartSeedsNewSearch(v: MazeView)
    requires IsValid(v.grid, v.width, v.height, v.start.x, v.start.y)
    ensures var t := Seed(Fresh, v);
      && Consistent(t, v) && t.closed == {} && v.goal !in t.closed
      && t.frontier == multiset{Root(v)} && t.best == map[v.start := Root(v)]
      && !t.finished && t.finalPath == []
  {
    FreshConsistent(v);
    SeedConsistent(Fresh, v);
  }

  /** The goal is closed only by the step that finishes the search. */
  predicate GoalClosedOnlyWhenFinished(s: AgentState, v: MazeView)
  {
    v.goal in s.closed ==> s.finished
  }

  /** Every step keeps the goal open until it finishes the search. */
  lemma AfterPopKeepsGoalOpen(s: AgentState, v: MazeView, current: Node)
    requires GoalClosedOnlyWhenFinished(s, v)
    ensures GoalClosedOnlyWhenFinished(AfterPop(s, v, current).state, v)
    ensures s.finished ==> AfterPop(s, v, current).state.finished
  {
    if current.pos !in s.closed && current.pos != v.goal {
      assert AfterPop(s, v, current).state.finished == s.finished;
    }
  }

  /** Whatever is popped after a full restart, the goal is closed only once the
      search has finished: a solved search is reported as solved. */
  lemma {:induction false} RestartKeepsGoalOpen(v: MazeView, pops: seq<Node>)
    ensures GoalClosedOnlyWhenFinished(Run(Seed(Fresh, v), v, pops), v)
  {
    RunKeepsGoalOpen(Seed(Fresh, v), v, pops);
  }

  lemma {:induction false} RunKeepsGoalOpen(s: AgentState, v: MazeView, pops: seq<Node>)
    requires GoalClosedOnlyWhenFinished(s, v)
    ensures GoalClosedOnlyWhenFinished(Run(s, v, pops), v)
    decreases |pops|
  {
    if pops != [] {
      AfterPopKeepsGoalOpen(s, v, pops[0]);
      RunKeepsGoalOpen(AfterPop(s, v, pops[0]).state, v, pops[1..]);
    }
  }

  /** With even width and height no step ever finishes: the goal is isolated. */
  lemma EvenMazeNeverFinishes(s: AgentState, v: MazeView, current: Node)
    requires Consistent(s, v) && current in s.frontier && !s.finished
    requires 2 <= v.width && 2 <= v.height && v.width % 2 == 0 && v.height % 2 == 0
    requires v.start == Pos(1, 1) && v.goal == Pos(v.width - 2, v.height - 2)
    requires Carved(v.grid, v.width, v.height, v.start, v.goal)
    ensures !AfterPop(s, v, current).state.finished
    ensures AfterPop(s, v, current).more
  {
    EvenMazeGoalUnreached(current, v.grid, v.width, v.height);
  }

  /** path is no longer than any walk over passable cells from start to goal. */
  ghost predicate Shortest(path: seq<Pos>, v: MazeView)
  {
    forall w :: IsPath(w, v.grid, v.width, v.height, v.start, v.goal) ==> |path| <= |w|
  }

  /** Every passable neighbour of a closed position is closed too, or has a
      best-known g at most one more than the closed position's. */
  ghost predicate ClosedRelaxed(s: AgentState, v: MazeView)
  {
    forall c, q :: c in s.closed && Adjacent(c, q) && IsValid(v.grid, v.width, v.height, q.x, q.y) ==>
      q in s.closed || (c in s.best && q in s.best && s.best[q].g <= s.best[c].g + 1)
  }

  /** The best-known node of every position not yet closed waits on the heap. */
  ghost predicate OpenOnHeap(s: AgentState)
  {
    forall p :: p in s.best && p !in s.closed ==> s.best[p] in s.frontier
  }

  /** No heap entry has a smaller g than the best-known node of its position. */
  ghost predicate HeapAboveBest(s: AgentState)
  {
    forall m :: m in s.frontier ==> m.pos in s.best && s.best[m.pos].g <= m.g
  }

  /** A closed position's best-known g is below the length of every walk to it. */
  ghost predicate ClosedShortest(s: AgentState, v: MazeView)
  {
    forall c, w :: c in s.closed && IsPath(w, v.grid, v.width, v.height, v.start, c) ==>
      c in s.best && s.best[c].g < |w|
  }

  /** The A* invariant: a finished search holds a shortest path, and while the
      goal is open the closed positions carry shortest distances, their
      neighbours are relaxed, and every open best-known node is on the heap. */
  ghost predicate Optimality(s: AgentState, v: MazeView)
  {
    && (s.finished ==> Shortest(s.finalPath, v))
    && (s.initialised && v.goal !in s.closed ==> Settled(s, v))
  }

  /** The clauses of the invariant that hold while the goal is open. */
  ghost predicate Settled(s: AgentState, v: MazeView)
  {
    && v.start in s.best && s.best[v.start].g == 0
    && s.closed <= s.best.Keys
    && ClosedRelaxed(s, v) && OpenOnHeap(s) && HeapAboveBest(s) && ClosedShortest(s, v)
  }

  /** Manhattan distance obeys the triangle inequality. */
  lemma HeuristicTriangle(a: Pos, b: Pos, c: Pos)
    ensures Heuristic(a, c) <= Heuristic(a, b) + Heuristic(b, c)
  {
  }

  /** The prefix of a path up to index k is a path to its k-th cell. */
  lemma PathPrefix(w: seq<Pos>, grid: Grid, width: int, height: int, start: Pos, target: Pos, k: nat)
    requires IsPath(w, grid, width, height, start, target) && k < |w|
    ensures IsPath(w[..k + 1], grid, width, height, start, w[k])
  {
    var u := w[..k + 1];
    assert forall i, j :: 0 <= i && j == i + 1 < |u| ==> u[i] == w[i] && u[j] == w[j];
  }

  /** The suffix of a walk from index i is a walk. */
  lemma WalkSuffix(w: seq<Pos>, i: nat)
    requires IsWalk(w) && i < |w|
    ensures IsWalk(w[i..]) && |w[i..]| >= 1 && w[i..][0] == w[i] && w[i..][|w[i..]| - 1] == w[|w| - 1]
  {
    var u := w[i..];
    forall k, j | 0 <= k && j == k + 1 < |u|
      ensures Adjacent(u[k], u[j])
    {
      assert u[k] == w[i + k] && u[j] == w[i + k + 1];
    }
  }

  /** The first cell of w outside closed, given that the last one is outside. */
  function FirstOutside(w: seq<Pos>, closed: set<Pos>): (i: nat)
    requires |w| >= 1 && w[|w| - 1] !in closed
    ensures i < |w| && w[i] !in closed
    ensures forall k :: 0 <= k < i ==> w[k] in closed
    decreases |w|
  {
    if w[0] !in closed then 0 else 1 + FirstOutside(w[1..], closed)
  }

  /** The heart of A* with a consistent heuristic: while the goal is open, a
      popped node of least f whose position is open has a g below the length
      of every walk to its position. The walk leaves the closed set somewhere;
      the best-known node there is on the heap with an f no larger than the
      walk's length plus the popped node's h. */
  lemma PopShortest(s: AgentState, v: MazeView, current: Node, w: seq<Pos>)
    requires Consistent(s, v) && Optimality(s, v) && s.initialised && v.goal !in s.closed
    requires current in s.frontier && IsMinimal(current, s.frontier) && current.pos !in s.closed
    requires IsPath(w, v.grid, v.width, v.height, v.start, current.pos)
    ensures current.g < |w|
  {
    var i := FirstOutside(w, s.closed);
    var p := w[i];
    if i == 0 {
      assert p == v.start;
    } else {
      var c := w[i - 1];
      PathPrefix(w, v.grid, v.width, v.height, v.start, current.pos, i - 1);
      assert c in s.closed && IsPath(w[..i], v.grid, v.width, v.height, v.start, c);
      assert Adjacent(c, p) && IsValid(v.grid, v.width, v.height, p.x, p.y);
    }
    assert p in s.best && s.best[p].g <= i;
    var n := s.best[p];
    assert n in s.frontier && n.pos == p && n.h == Heuristic(p, v.goal);
    WalkSuffix(w, i);
    HeuristicAdmissible(w[i..]);
    HeuristicTriangle(p, current.pos, v.goal);
    assert current.h == Heuristic(current.pos, v.goal);
    assert current.F() <= n.F();
  }

  /** Seeding the search sets up the invariant. */
  lemma SeedOptimality(s: AgentState, v: MazeView)
    requires Consistent(s, v) && !s.initialised
    ensures Optimality(Seed(s, v), v)
  {
    var t := Seed(s, v);
    assert t.best[v.start] == Root(v) && Root(v) in t.frontier;
  }

  /** A stale pop keeps the invariant: only a node of a closed position leaves the heap. */
  lemma StaleOptimality(s: AgentState, v: MazeView, current: Node)
    requires Consistent(s, v) && Optimality(s, v) && current in s.frontier && current.pos in s.closed
    ensures Optimality(AfterPop(s, v, current).state, v)
  {
    var r := AfterPop(s, v, current).state;
    if s.initialised && v.goal !in s.closed {
      forall p | p in r.best && p !in r.closed
        ensures r.best[p] in r.frontier
      {
        assert s.best[p] in s.frontier && s.best[p].pos == p;
      }
    }
  }

  /** Closing the goal with a popped node of least f records a shortest path:
      no walk from start to goal is shorter than the reconstructed one. */
  lemma AfterPopGoalShortest(s: AgentState, v: MazeView, current: Node)
    requires Consistent(s, v) && Optimality(s, v)
    requires current in s.frontier && IsMinimal(current, s.frontier)
    requires current.pos !in s.closed && current.pos == v.goal
    ensures Shortest(AfterPop(s, v, current).state.finalPath, v)
    ensures Optimality(AfterPop(s, v, current).state, v)
  {
    var path := AfterPop(s, v, current).state.finalPath;
    AfterPopGoal(s, v, current);
    forall w | IsPath(w, v.grid, v.width, v.height, v.start, v.goal)
      ensures |path| <= |w|
    {
      PopShortest(s, v, current, w);
    }
  }

  /** The best-known map after an expansion: closed positions keep their
      entries, discovered ones get the child of current, no entry grows. */
  lemma ExpandBest(best: map<Pos, Node>, current: Node, d: set<Pos>, goal: Pos, closed: set<Pos>)
    requires forall p :: p in d ==> Improves(p, current.g + 1, closed, best)
    ensures var best' := best + ChildMap(current, d, goal);
      && (forall p :: p in best ==> p in best' && best'[p].g <= best[p].g)
      && (forall p :: p in closed && p in best ==> best'[p] == best[p])
      && (forall p :: p in d ==> p in best' && best'[p] == Child(current, p, goal))
      && (forall p :: p in best' && p !in d ==> p in best && best'[p] == best[p])
  {
  }

  /** An expansion keeps the invariant. */
  lemma ExpandOptimality(s: AgentState, v: MazeView, current: Node)
    requires Consistent(s, v) && Optimality(s, v)
    requires current in s.frontier && IsMinimal(current, s.frontier)
    requires current.pos !in s.closed && current.pos != v.goal
    ensures Optimality(AfterPop(s, v, current).state, v)
  {
    var r := AfterPop(s, v, current).state;
    AfterPopExpand(s, v, current);
    var d := Discovered(current, Neighbours(v.grid, v.width, v.height, current.pos), r.closed, s.best);
    if v.goal !in s.closed {
      assert Expansion(s, v, current, r, d);
      ExpandKeeps(s, v, current, r, d);
    }
  }

  /** The expansion of current, given by its effect on the hidden state:
      current.pos is closed, the discovered neighbours d get the children of
      current in the best-known map and on the heap. */
  ghost predicate Expansion(s: AgentState, v: MazeView, current: Node, r: AgentState, d: set<Pos>)
  {
    && Consistent(s, v) && Optimality(s, v) && v.goal !in s.closed
    && current in s.frontier && IsMinimal(current, s.frontier)
    && current.pos !in s.closed && current.pos != v.goal
    && r.initialised == s.initialised && r.finished == s.finished && r.finalPath == s.finalPath
    && r.closed == s.closed + {current.pos} && r.best == s.best + ChildMap(current, d, v.goal)
    && r.frontier == s.frontier - multiset{current} + multiset(Children(current, d, v.goal))
    && (forall p :: p in d <==>
          Adjacent(current.pos, p) && IsValid(v.grid, v.width, v.height, p.x, p.y) && Improves(p, current.g + 1, r.closed, s.best))
  }

  /** An expansion keeps every clause of the invariant. */
  lemma ExpandKeeps(s: AgentState, v: MazeView, current: Node, r: AgentState, d: set<Pos>)
    requires Expansion(s, v, current, r, d)
    ensures Settled(r, v)
  {
    assert Settled(s, v) && HeapAboveBest(s) && current.pos in s.best;
    ExpandStart(s.best, current, d, v.goal, v.start, s.closed);
    ExpandDistances(s, v, current, r, d);
    ExpandHeapClauses(s, v, current, r, d);
  }

  /** After expanding current, the start keeps g = 0 and every closed position is best-known. */
  lemma ExpandStart(best: map<Pos, Node>, current: Node, d: set<Pos>, goal: Pos, start: Pos, closed: set<Pos>)
    requires start in best && best[start].g == 0 && closed <= best.Keys && current.pos in best
    requires forall p :: p in d ==> Improves(p, current.g + 1, closed + {current.pos}, best)
    ensures var best' := best + ChildMap(current, d, goal);
      start in best' && best'[start].g == 0 && closed + {current.pos} <= best'.Keys
  {
    assert start !in d;
  }

  /** The clauses of the invariant about g after expanding current. */
  lemma ExpandDistances(s: AgentState, v: MazeView, current: Node, r: AgentState, d: set<Pos>)
    requires Expansion(s, v, current, r, d)
    ensures ClosedRelaxed(r, v) && ClosedShortest(r, v)
  {
    ExpandBest(s.best, current, d, v.goal, r.closed);
    PoppedIsBest(s, v, current);
    ExpandRelaxed(s, v, current, r, d);
    ExpandShortest(s, v, current, r);
  }

  /** The clauses of the invariant about the heap after expanding current. */
  lemma ExpandHeapClauses(s: AgentState, v: MazeView, current: Node, r: AgentState, d: set<Pos>)
    requires Expansion(s, v, current, r, d)
    ensures OpenOnHeap(r) && HeapAboveBest(r)
  {
    assert BestSound(s.best, v.grid, v.width, v.height, v.start, v.goal);
    ExpandOnHeap(s, current, r, d, v.goal);
    ExpandAboveBest(s, current, r, d, v.goal);
  }

  /** A popped node of least f whose position is open is the best-known node's equal in g. */
  lemma PoppedIsBest(s: AgentState, v: MazeView, current: Node)
    requires Consistent(s, v) && Optimality(s, v) && s.initialised && v.goal !in s.closed
    requires current in s.frontier && IsMinimal(current, s.frontier) && current.pos !in s.closed
    ensures current.pos in s.best && s.best[current.pos].g == current.g
  {
    var c := current.pos;
    assert c in s.best && s.best[c] in s.frontier;
    assert s.best[c].pos == c && s.best[c].h == current.h;
    assert current.F() <= s.best[c].F();
  }

  /** Distance clause after expanding current: the newly closed position gets
      a g below every walk to it, the others keep theirs. */
  lemma ExpandShortest(s: AgentState, v: MazeView, current: Node, r: AgentState)
    requires Consistent(s, v) && Optimality(s, v) && s.initialised && v.goal !in s.closed
    requires current in s.frontier && IsMinimal(current, s.frontier) && current.pos !in s.closed
    requires r.closed == s.closed + {current.pos}
    requires forall p :: p in s.best ==> p in r.best
    requires forall p :: p in r.closed && p in s.best ==> r.best[p] == s.best[p]
    ensures ClosedShortest(r, v)
  {
    PoppedIsBest(s, v, current);
    forall c, w | c in r.closed && IsPath(w, v.grid, v.width, v.height, v.start, c)
      ensures c in r.best && r.best[c].g < |w|
    {
      if c == current.pos {
        PopShortest(s, v, current, w);
      }
    }
  }

  /** Relaxation clause after expanding current: its own neighbours are now
      relaxed, and no earlier closed position's neighbour got worse. */
  lemma ExpandRelaxed(s: AgentState, v: MazeView, current: Node, r: AgentState, d: set<Pos>)
    requires ClosedRelaxed(s, v) && s.closed <= s.best.Keys
    requires current.pos in s.best && s.best[current.pos].g == current.g
    requires r.closed == s.closed + {current.pos} && r.best == s.best + ChildMap(current, d, v.goal)
    requires forall p :: p in d <==>
      Adjacent(current.pos, p) && IsValid(v.grid, v.width, v.height, p.x, p.y) && Improves(p, current.g + 1, r.closed, s.best)
    ensures ClosedRelaxed(r, v)
  {
    ExpandBest(s.best, current, d, v.goal, r.closed);
    forall c, q | c in r.closed && Adjacent(c, q) && IsValid(v.grid, v.width, v.height, q.x, q.y)
      ensures q in r.closed || (c in r.best && q in r.best && r.best[q].g <= r.best[c].g + 1)
    {
      if q !in r.closed && c != current.pos {
        assert q in s.best && s.best[q].g <= s.best[c].g + 1;
      }
    }
  }

  /** After expanding current, every open best-known node is still on the heap. */
  lemma ExpandOnHeap(s: AgentState, current: Node, r: AgentState, d: set<Pos>, goal: Pos)
    requires OpenOnHeap(s) && current in s.frontier
    requires forall p :: p in s.best ==> s.best[p].pos == p
    requires r.closed == s.closed + {current.pos} && r.best == s.best + ChildMap(current, d, goal)
    requires r.frontier == s.frontier - multiset{current} + multiset(Children(current, d, goal))
    ensures OpenOnHeap(r)
  {
    forall p | p in r.best && p !in r.closed
      ensures r.best[p] in r.frontier
    {
      if p in d {
        assert r.best[p] == Child(current, p, goal) && Child(current, p, goal) in Children(current, d, goal);
      } else {
        assert r.best[p] == s.best[p];
        assert s.best[p] in s.frontier && s.best[p] != current;
        assert s.best[p] in s.frontier - multiset{current};
      }
    }
  }

  /** After expanding current, no heap entry is below its best-known node. */
  lemma ExpandAboveBest(s: AgentState, current: Node, r: AgentState, d: set<Pos>, goal: Pos)
    requires HeapAboveBest(s)
    requires r.best == s.best + ChildMap(current, d, goal)
    requires r.frontier == s.frontier - multiset{current} + multiset(Children(current, d, goal))
    requires forall p :: p in d ==> Improves(p, current.g + 1, r.closed, s.best)
    ensures HeapAboveBest(r)
  {
    ExpandBest(s.best, current, d, goal, r.closed);
    forall m | m in r.frontier
      ensures m.pos in r.best && r.best[m.pos].g <= m.g
    {
      if m in s.frontier - multiset{current} {
        assert m in s.frontier;
      } else {
        assert m in Children(current, d, goal);
      }
    }
  }

  /** Every step after a pop of least f keeps the invariant. */
  lemma AfterPopOptimality(s: AgentState, v: MazeView, current: Node)
    requires Consistent(s, v) && Optimality(s, v)
    requires current in s.frontier && IsMinimal(current, s.frontier)
    ensures Optimality(AfterPop(s, v, current).state, v)
  {
    if current.pos in s.closed {
      StaleOptimality(s, v, current);
    } else if current.pos == v.goal {
      AfterPopGoalShortest(s, v, current);
    } else {
      ExpandOptimality(s, v, current);
    }
  }

  /** No walk over passable cells leads from the start to the goal. */
  ghost predicate Unreachable(v: MazeView)
  {
    forall w :: !IsPath(w, v.grid, v.width, v.height, v.start, v.goal)
  }

  /** A search whose heap ran dry while the goal was still open has closed
      every cell reachable from the start, so the goal is unreachable: the
      False that a_star_pas_a_pas returns on an empty heap is a true "no path". */
  lemma ExhaustedUnreachable(s: AgentState, v: MazeView)
    requires Consistent(s, v) && Optimality(s, v) && s.initialised && v.goal !in s.closed
    requires s.frontier == multiset{}
    ensures Unreachable(v)
  {
    forall w | IsPath(w, v.grid, v.width, v.height, v.start, v.goal)
      ensures false
    {
      ExhaustedClosed(s, v, w, |w| - 1);
    }
  }

  /** With an empty heap every cell of a walk from the start is closed: the
      start is best-known, and the best-known node of an open position would
      still be on the heap. */
  lemma {:induction false} ExhaustedClosed(s: AgentState, v: MazeView, w: seq<Pos>, k: nat)
    requires Settled(s, v) && s.frontier == multiset{}
    requires |w| >= 1 && w[0] == v.start && IsWalk(w) && AllPassable(w, v.grid, v.width, v.height)
    requires k < |w|
    ensures w[k] in s.closed
    decreases k
  {
    EmptyHeapClosed(s);
    if k > 0 {
      ExhaustedClosed(s, v, w, k - 1);
      assert Adjacent(w[k - 1], w[k]);
      assert IsValid(v.grid, v.width, v.height, w[k].x, w[k].y);
    }
  }

  /** With an empty heap every best-known position is closed. */
  lemma EmptyHeapClosed(s: AgentState)
    requires OpenOnHeap(s) && s.frontier == multiset{}
    ensures s.best.Keys <= s.closed
  {
  }

  /** The positions of the grid not yet closed. */
  function Unclosed(s: AgentState, v: MazeView): set<Pos>
  {
    set x, y | 0 <= x < v.width && 0 <= y < v.height && Pos(x, y) !in s.closed :: Pos(x, y)
  }

  /** after is nearer the end of the search than before: fewer positions of
      the grid are open, or as many and the heap is smaller. */
  ghost predicate Progress(before: AgentState, after: AgentState, v: MazeView)
  {
    || Unclosed(after, v) < Unclosed(before, v)
    || (Unclosed(after, v) == Unclosed(before, v) && |after.frontier| < |before.frontier|)
  }

  /** Every step after a pop either ends the search or makes progress, so
      repeated steps cannot ask for more work forever: closing a position
      removes an in-grid position from the open part of the grid, and a
      stale entry only shrinks the heap. */
  lemma AfterPopProgress(s: AgentState, v: MazeView, current: Node)
    requires Consistent(s, v) && current in s.frontier
    ensures var o := AfterPop(s, v, current);
      if o.more then Progress(s, o.state, v) else o.state.finished
  {
    var o := AfterPop(s, v, current);
    AfterPopCloses(s, v, current);
    if current.pos in s.closed {
      AfterPopStale(s, v, current);
      assert |o.state.frontier| == |s.frontier| - 1;
    } else if current.pos != v.goal {
      assert Sound(current, v.grid, v.width, v.height, v.start, v.goal);
      var p := current.pos;
      assert Pos(p.x, p.y) in Unclosed(s, v);
      assert p !in Unclosed(o.state, v);
      assert Unclosed(o.state, v) <= Unclosed(s, v);
    } else {
      AfterPopGoal(s, v, current);
    }
  }

  /** The work of a_star_pas_a_pas on the agent's state s over the labyrinth
      v: seed the search on the first call, stop on an empty heap or a finished
      search, and otherwise pop a node of least f and go on as AfterPop says.
      `popped` is the node taken off the heap, if any. */
  method Advance(s: AgentState, v: MazeView) returns (o: Outcome, popped: Option<Node>)
    ensures !s.initialised ==> popped == None && o == Outcome(Seed(s, v), true)
    ensures s.initialised && (s.frontier == multiset{} || s.finished) ==> popped == None && o == Outcome(s, false)
    ensures s.initialised && s.frontier != multiset{} && !s.finished ==>
      && popped.Some? && popped.value in s.frontier && IsMinimal(popped.value, s.frontier)
      && o == AfterPop(s, v, popped.value)
  {
    if !s.initialised {
      var root := Node(v.start, 0, Heuristic(v.start, v.goal), None);
      return Outcome(s.(initialised := true, frontier := multiset{root}, closed := {},
                        best := map[v.start := root], openPositions := s.openPositions + {v.start}), true), None;
    }
    if s.frontier == multiset{} || s.finished {
      return Outcome(s, false), None;
    }
    MinExists(s.frontier);
    var current :| current in s.frontier && IsMinimal(current, s.frontier);
    popped := Some(current);
    var frontier := s.frontier - multiset{current};
    if current.pos in s.closed {
      return Outcome(s.(frontier := frontier), true), popped;
    }
    var closed := s.closed + {current.pos};
    var closedPositions := s.closedPositions + {current.pos};
    if current.pos == v.goal {
      var path := ReconstructPath(current);
      var stats := s.stats.(pathLength := |path| - 1, efficiency := Efficiency(|path|, |closedPositions|));
      return Outcome(s.(frontier := frontier, closed := closed, closedPositions := closedPositions,
                        finalPath := path, finished := true, stats := stats), false), popped;
    }
    var nbs := Neighbours(v.grid, v.width, v.height, current.pos);
    var r := RelaxAll(current, nbs, v.goal, closed, Open(frontier, s.best, s.openPositions));
    var stats := s.stats.(explored := |closedPositions|, pending := |r.heap|);
    return Outcome(s.(frontier := r.heap, closed := closed, best := r.best, openPositions := r.shown,
                      closedPositions := closedPositions, stats := stats), true), popped;
  }

  /** AgentIAAAA. `initialised` stands for the presence of the hidden
      attribute _liste_ouverte; `frontier`, `closed` and `best` are the hidden
      heap, closed set and best-known map, the other fields the public state. */
  class Agent {
    const maze: Labyrinth
    var initialised: bool
    var frontier: multiset<Node>
    var closed: set<Pos>
    var best: map<Pos, Node>
    var openPositions: set<Pos>
    var closedPositions: set<Pos>
    var finalPath: seq<Pos>
    var finished: bool
    var stats: Stats

    function State(): AgentState
      reads this
    {
      AgentState(initialised, frontier, closed, best, openPositions, closedPositions, finalPath, finished, stats)
    }

    function Seen(): MazeView
      reads maze
    {
      MazeView(maze.grid, maze.width, maze.height, maze.start, maze.goal)
    }

    ghost predicate Valid()
      reads this, maze
    {
      maze.Valid() && Consistent(State(), Seen()) && Optimality(State(), Seen())
    }

    constructor (maze: Labyrinth)
      requires maze.Valid()
      ensures this.maze == maze && Valid() && State() == Fresh
    {
      this.maze := maze;
      initialised := false;
      frontier := multiset{};
      closed := {};
      best := map[];
      openPositions := {};
      closedPositions := {};
      finalPath := [];
      finished := false;
      stats := NoStats;
    }

    /** reinitialiser: clears the public state only; the hidden heap, closed
        set and best-known map survive, so the next step goes on with them. */
    method Reset()
      requires Valid()
      modifies this
      ensures Valid()
      ensures State() == Cleared(old(State()))
    {
      ClearedConsistent(State(), Seen());
      Store(Cleared(State()));
    }

    /** A reset that also drops the hidden search state, so that the next step
        starts a new search from the start cell. */
    method Restart()
      requires Valid()
      modifies this
      ensures Valid() && State() == Fresh
    {
      FreshConsistent(Seen());
      Store(Fresh);
    }

    /** a_star_pas_a_pas: one unit of search work. `more` is its return
        value; `popped` is the node taken off the heap, if any. */
    method Step() returns (more: bool, ghost popped: Option<Node>)
      requires Valid()
      modifies this
      ensures Valid() && initialised
      // a finished search holds a shortest path from start to goal
      ensures finished ==> Shortest(finalPath, Seen())
      // False with no path found and the goal still open: there is no path
      ensures !more && !finished && Seen().goal !in closed ==> Unreachable(Seen())
      // a step after the first that asks for more work makes progress
      ensures old(initialised) && more ==> Progress(old(State()), State(), Seen())
      // the first call seeds the search and expands nothing
      ensures !old(initialised) ==> more && popped == None && State() == Seed(old(State()), Seen())
      // an empty heap or a finished search: nothing changes
      ensures old(initialised) && (old(frontier) == multiset{} || old(finished)) ==>
        !more && popped == None && State() == old(State())
      // otherwise a node of least f leaves the heap and the step goes on from it
      ensures old(initialised) && old(frontier) != multiset{} && !old(finished) ==>
        && popped.Some? && popped.value in old(frontier) && IsMinimal(popped.value, old(frontier))
        && Outcome(State(), more) == AfterPop(old(State()), Seen(), popped.value)
    {
      ghost var s, v := State(), Seen();
      var o, p := Advance(State(), Seen());
      popped := p;
      if !s.initialised {
        SeedConsistent(s, v);
        SeedOptimality(s, v);
      } else if popped.Some? {
        AfterPopConsistent(s, v, popped.value);
        AfterPopOptimality(s, v, popped.value);
        AfterPopProgress(s, v, popped.value);
      } else if !s.finished && v.goal !in s.closed {
        ExhaustedUnreachable(s, v);
      }
      assert Consistent(o.state, v) && Optimality(o.state, v);
      Store(o.state);
      assert Seen() == v;
      more := o.more;
    }

    /** Writes the state t back into the fields. */
    method Store(t: AgentState)
      modifies this
      ensures State() == t
    {
      initialised, frontier, closed, best := t.initialised, t.frontier, t.closed, t.best;
      openPositions, closedPositions := t.openPositions, t.closedPositions;
      finalPath, finished, stats := t.finalPath, t.finished, t.stats;
    }
  }
}
