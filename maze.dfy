/** The maze generator of MAZE_AI: a grid of cells carved by a randomised
    depth-first "recursive backtracker" that keeps an explicit stack, and the
    4-connected graph of passable cells that the search runs over. */
module Maze {

  /** The cell states a maze grid holds. */
  datatype Cell = Empty | Wall | Start | Goal

  /** A grid coordinate: column x, row y. */
  datatype Pos = Pos(x: int, y: int)

  /** Rows of cells, indexed grid[y][x]. */
  type Grid = seq<seq<Cell>>

  predicate WellShaped(grid: Grid, width: int, height: int)
  {
    |grid| == height && forall y :: 0 <= y < height ==> |grid[y]| == width
  }

  predicate InBounds(p: Pos, width: int, height: int)
  {
    0 <= p.x < width && 0 <= p.y < height
  }

  /** The cell at p; positions outside the grid read as Wall. */
  function At(grid: Grid, p: Pos): Cell
  {
    if 0 <= p.y < |grid| && 0 <= p.x < |grid[p.y]| then grid[p.y][p.x] else Wall
  }

  /** The grid with the cell at p replaced by c. */
  function Paint(grid: Grid, p: Pos, c: Cell): (r: Grid)
    requires 0 <= p.y < |grid| && 0 <= p.x < |grid[p.y]|
    ensures |r| == |grid| && forall y :: 0 <= y < |r| ==> |r[y]| == |grid[y]|
    ensures At(r, p) == c
    ensures forall q :: q != p ==> At(r, q) == At(grid, q)
  {
    grid[p.y := grid[p.y][p.x := c]]
  }

  /** The four unit steps down, right, up, left. */
  predicate Adjacent(p: Pos, q: Pos)
  {
    q == Pos(p.x, p.y + 1) || q == Pos(p.x + 1, p.y) || q == Pos(p.x, p.y - 1) || q == Pos(p.x - 1, p.y)
  }

  /** Position of the step from p to q in the direction list down, right, up, left. */
  function Direction(p: Pos, q: Pos): int
  {
    if q == Pos(p.x, p.y + 1) then 0
    else if q == Pos(p.x + 1, p.y) then 1
    else if q == Pos(p.x, p.y - 1) then 2
    else 3
  }

  /** est_valide: inside the grid and not a wall. */
  predicate IsValid(grid: Grid, width: int, height: int, x: int, y: int)
  {
    0 <= x < width && 0 <= y < height && At(grid, Pos(x, y)) != Wall
  }

  /** Consecutive entries are one step apart. */
  predicate IsWalk(s: seq<Pos>)
  {
    forall i, j :: 0 <= i && j == i + 1 < |s| ==> Adjacent(s[i], s[j])
  }

  /** A walk over passable cells from start to goal. */
  predicate IsPath(s: seq<Pos>, grid: Grid, width: int, height: int, start: Pos, goal: Pos)
  {
    |s| >= 1 && s[0] == start && s[|s| - 1] == goal && IsWalk(s) && AllPassable(s, grid, width, height)
  }

  predicate AllPassable(s: seq<Pos>, grid: Grid, width: int, height: int)
  {
    forall i :: 0 <= i < |s| ==> IsValid(grid, width, height, s[i].x, s[i].y)
  }

  /** The four cells one step away from p, in the order down, right, up, left. */
  function Around(p: Pos): (r: seq<Pos>)
    ensures |r| == 4 && forall i :: 0 <= i < 4 ==> Adjacent(p, r[i]) && Direction(p, r[i]) == i
    ensures forall q :: Adjacent(p, q) ==> q in r
  {
    [Pos(p.x, p.y + 1), Pos(p.x + 1, p.y), Pos(p.x, p.y - 1), Pos(p.x - 1, p.y)]
  }

  /** The cells of cs that are passable, in their order in cs. */
  function KeepValid(grid: Grid, width: int, height: int, p: Pos, cs: seq<Pos>): (r: seq<Pos>)
    requires forall i, j :: 0 <= i < j < |cs| ==> Direction(p, cs[i]) < Direction(p, cs[j])
    ensures |r| <= |cs|
    ensures forall q :: q in r <==> q in cs && IsValid(grid, width, height, q.x, q.y)
    ensures forall i, j :: 0 <= i < j < |r| ==> Direction(p, r[i]) < Direction(p, r[j])
  {
    if cs == [] then []
    else
      var rest := KeepValid(grid, width, height, p, cs[1..]);
      assert forall q :: q in rest ==> q in cs[1..];
      if IsValid(grid, width, height, cs[0].x, cs[0].y) then [cs[0]] + rest else rest
  }

  /** obtenir_voisins: the passable cells one step away, in the order down, right, up, left. */
  function Neighbours(grid: Grid, width: int, height: int, p: Pos): (r: seq<Pos>)
    ensures |r| <= 4
    ensures forall q :: q in r <==> Adjacent(p, q) && IsValid(grid, width, height, q.x, q.y)
    ensures forall i, j :: 0 <= i < j < |r| ==> Direction(p, r[i]) < Direction(p, r[j])
    ensures forall i, j :: 0 <= i < j < |r| ==> r[i] != r[j]
  {
    KeepValid(grid, width, height, p, Around(p))
  }

  /** q is two cells away from c along one axis. */
  predicate Jump(c: Pos, q: Pos)
  {
    q == Pos(c.x, c.y + 2) || q == Pos(c.x + 2, c.y) || q == Pos(c.x, c.y - 2) || q == Pos(c.x - 2, c.y)
  }

  /** Strictly inside the border. */
  predicate Interior(p: Pos, width: int, height: int)
  {
    0 < p.x < width - 1 && 0 < p.y < height - 1
  }

  /** The four cells two steps away from c, in the order of the carve's
      direction list (0,2), (2,0), (0,-2), (-2,0). */
  function Jumps(c: Pos): (r: seq<Pos>)
    ensures |r| == 4 && forall q :: q in r <==> Jump(c, q)
    ensures forall i, j :: 0 <= i < j < |r| ==> r[i] != r[j]
  {
    [Pos(c.x, c.y + 2), Pos(c.x + 2, c.y), Pos(c.x, c.y - 2), Pos(c.x - 2, c.y)]
  }

  /** The cells of cs that lie strictly inside the border and are still walls, in their order in cs. */
  function KeepCarvable(grid: Grid, width: int, height: int, cs: seq<Pos>): (r: seq<Pos>)
    requires forall i, j :: 0 <= i < j < |cs| ==> cs[i] != cs[j]
    ensures |r| <= |cs|
    ensures forall q :: q in r <==> q in cs && Interior(q, width, height) && At(grid, q) == Wall
    ensures forall i, j :: 0 <= i < j < |r| ==> r[i] != r[j]
  {
    if cs == [] then []
    else
      var rest := KeepCarvable(grid, width, height, cs[1..]);
      assert forall q :: q in rest ==> q in cs[1..];
      if Interior(cs[0], width, height) && At(grid, cs[0]) == Wall then [cs[0]] + rest else rest
  }

  /** The carve candidates of c (the `voisins` of the carve loop): cells two
      steps away that lie strictly inside the border and are still walls. */
  function CarveCandidates(grid: Grid, width: int, height: int, c: Pos): (r: seq<Pos>)
    ensures |r| <= 4
    ensures forall q :: q in r <==> Jump(c, q) && Interior(q, width, height) && At(grid, q) == Wall
    ensures forall i, j :: 0 <= i < j < |r| ==> r[i] != r[j]
  {
    KeepCarvable(grid, width, height, Jumps(c))
  }

  /** The odd lattice the carve works on: both coordinates odd, strictly inside. */
  predicate Lattice(p: Pos, width: int, height: int)
  {
    Interior(p, width, height) && p.x % 2 == 1 && p.y % 2 == 1
  }

  /** A cell the carve may open: a lattice cell, or the wall cell between two
      lattice cells of the same row or column. */
  predicate CarveShaped(p: Pos, width: int, height: int)
  {
    Lattice(p, width, height)
    || (Lattice(Pos(p.x - 1, p.y), width, height) && Lattice(Pos(p.x + 1, p.y), width, height))
    || (Lattice(Pos(p.x, p.y - 1), width, height) && Lattice(Pos(p.x, p.y + 1), width, height))
  }

  predicate OnBorder(p: Pos, width: int, height: int)
  {
    p.x == 0 || p.y == 0 || p.x == width - 1 || p.y == height - 1
  }

  /** Every lattice neighbour of c (two steps away) has been opened. */
  predicate LatticeNeighboursOpen(grid: Grid, width: int, height: int, c: Pos)
  {
    && (Lattice(Pos(c.x, c.y + 2), width, height) ==> At(grid, Pos(c.x, c.y + 2)) != Wall)
    && (Lattice(Pos(c.x + 2, c.y), width, height) ==> At(grid, Pos(c.x + 2, c.y)) != Wall)
    && (Lattice(Pos(c.x, c.y - 2), width, height) ==> At(grid, Pos(c.x, c.y - 2)) != Wall)
    && (Lattice(Pos(c.x - 2, c.y), width, height) ==> At(grid, Pos(c.x - 2, c.y)) != Wall)
  }

  /** The cells still walls; the carve loop shrinks this set on every push. */
  function WallCells(grid: Grid, width: int, height: int): set<Pos>
  {
    set x, y | 0 <= x < width && 0 <= y < height && At(grid, Pos(x, y)) == Wall :: Pos(x, y)
  }

  /** What a finished carve leaves behind, apart from the Start and Goal marks. */
  ghost predicate Carved(grid: Grid, width: int, height: int, start: Pos, goal: Pos)
  {
    && (forall p :: InBounds(p, width, height) && At(grid, p) != Wall && p != start && p != goal ==>
          At(grid, p) == Empty && CarveShaped(p, width, height))
    && (forall p :: Lattice(p, width, height) ==> At(grid, p) != Wall)
  }

  /** A carve that only opens cells in a closed-under-neighbours way reaches
      every lattice cell: walking back two cells at a time towards (1,1)
      stays on the lattice. */
  lemma {:induction false} LatticeReached(grid: Grid, width: int, height: int, p: Pos)
    requires Lattice(p, width, height)
    requires At(grid, Pos(1, 1)) != Wall
    requires forall q {:trigger LatticeNeighboursOpen(grid, width, height, q)} ::
      Lattice(q, width, height) && At(grid, q) != Wall ==> LatticeNeighboursOpen(grid, width, height, q)
    ensures At(grid, p) != Wall
    decreases p.x + p.y
  {
    if p.x > 1 {
      var q := Pos(p.x - 2, p.y);
      assert Lattice(q, width, height);
      LatticeReached(grid, width, height, q);
      assert LatticeNeighboursOpen(grid, width, height, q);
      assert Pos(q.x + 2, q.y) == p;
    } else if p.y > 1 {
      var q := Pos(p.x, p.y - 2);
      assert Lattice(q, width, height);
      LatticeReached(grid, width, height, q);
      assert LatticeNeighboursOpen(grid, width, height, q);
      assert Pos(q.x, q.y + 2) == p;
    } else {
      assert p == Pos(1, 1);
    }
  }

  /** With an even width and an even height the goal (width-2, height-2)
      has both coordinates even, so none of its four neighbours is a lattice
      cell or a wall between two lattice cells: a carved maze of such a size
      leaves the goal with no passable neighbour. */
  lemma GoalIsolatedWhenEven(grid: Grid, width: int, height: int)
    requires 2 <= width && 2 <= height && width % 2 == 0 && height % 2 == 0
    requires Carved(grid, width, height, Pos(1, 1), Pos(width - 2, height - 2))
    ensures Neighbours(grid, width, height, Pos(width - 2, height - 2)) == []
  {
    var goal := Pos(width - 2, height - 2);
    forall q | Adjacent(goal, q)
      ensures !IsValid(grid, width, height, q.x, q.y)
    {
      NextToEvenGoal(width, height, q);
    }
    var r := Neighbours(grid, width, height, goal);
    if r != [] {
      assert r[0] in r;
    }
  }

  /** The four neighbours of an even goal (width-2, height-2) are neither (1,1) nor carve-shaped. */
  lemma NextToEvenGoal(width: int, height: int, q: Pos)
    requires 2 <= width && 2 <= height && width % 2 == 0 && height % 2 == 0
    requires Adjacent(Pos(width - 2, height - 2), q)
    ensures q != Pos(1, 1) && q != Pos(width - 2, height - 2) && !CarveShaped(q, width, height)
  {
    var gx, gy := width - 2, height - 2;
    assert gx % 2 == 0 && gy % 2 == 0;
    if q == Pos(gx, gy + 1) {
      assert !Lattice(q, width, height);
      assert !Lattice(Pos(q.x - 1, q.y), width, height);
      assert q.x % 2 == 0;
    } else if q == Pos(gx + 1, gy) {
      assert !Lattice(q, width, height);
      assert !Lattice(Pos(q.x, q.y - 1), width, height);
      assert q.y % 2 == 0;
    } else if q == Pos(gx, gy - 1) {
      assert q.x % 2 == 0;
      assert !Lattice(Pos(q.x + 1, q.y), width, height);
    } else {
      assert q.y % 2 == 0;
      assert !Lattice(Pos(q.x, q.y + 1), width, height);
    }
  }

  /** LabyrintheAAA: the grid, the start (1,1) and the goal (width-2, height-2). */
  class Labyrinth {
    const width: int
    const height: int
    const start: Pos
    const goal: Pos
    var grid: Grid

    ghost predicate Shaped()
      reads this
    {
      2 <= width && 2 <= height &&
      start == Pos(1, 1) && goal == Pos(width - 2, height - 2) &&
      WellShaped(grid, width, height)
    }

    /** A generated maze: start and goal are marked and passable. */
    ghost predicate Valid()
      reads this
    {
      Shaped() &&
      At(grid, goal) == Goal &&
      (start != goal ==> At(grid, start) == Start)
    }

    constructor (width: int, height: int, pick: nat -> nat)
      requires 2 <= width && 2 <= height
      ensures this.width == width && this.height == height
      ensures start == Pos(1, 1) && goal == Pos(width - 2, height - 2)
      ensures Valid()
      ensures Carved(grid, width, height, start, goal)
      ensures forall p :: InBounds(p, width, height) && OnBorder(p, width, height) && p != start && p != goal ==>
                At(grid, p) == Wall
      ensures forall q :: At(grid, q) != Wall && q != goal ==> JoinedToStart(grid, width, height, q)
      ensures (width % 2 == 1 || height % 2 == 1) && 3 <= width && 3 <= height ==> JoinedToStart(grid, width, height, goal)
      ensures Perfect(grid, goal)
    {
      this.width := width;
      this.height := height;
      start := Pos(1, 1);
      goal := Pos(width - 2, height - 2);
      grid := seq(height, _ => seq(width, _ => Wall));
      new;
      Generate(pick);
    }

    /** The first loop of generer_labyrinthe: every cell back to Wall. */
    method FillWalls()
      requires Shaped()
      modifies this
      ensures Shaped()
      ensures forall q :: InBounds(q, width, height) ==> At(grid, q) == Wall
    {
      var y := 0;
      while y < height
        invariant 0 <= y <= height
        invariant WellShaped(grid, width, height)
        invariant forall q: Pos :: 0 <= q.y < y && 0 <= q.x < width ==> At(grid, q) == Wall
      {
        var x := 0;
        while x < width
          invariant 0 <= x <= width
          invariant WellShaped(grid, width, height)
          invariant forall q: Pos :: 0 <= q.y < y && 0 <= q.x < width ==> At(grid, q) == Wall
          invariant forall q: Pos :: q.y == y && 0 <= q.x < x ==> At(grid, q) == Wall
        {
          grid := Paint(grid, Pos(x, y), Wall);
          x := x + 1;
        }
        y := y + 1;
      }
    }

    /** generer_labyrinthe: walls everywhere, the carve, then the Start and
        Goal marks. */
    method Generate(pick: nat -> nat)
      requires Shaped()
      modifies this
      ensures Valid()
      ensures Carved(grid, width, height, start, goal)
      ensures forall p :: InBounds(p, width, height) && OnBorder(p, width, height) && p != start && p != goal ==>
                At(grid, p) == Wall
      ensures forall q :: At(grid, q) != Wall && q != goal ==> JoinedToStart(grid, width, height, q)
      ensures (width % 2 == 1 || height % 2 == 1) && 3 <= width && 3 <= height ==> JoinedToStart(grid, width, height, goal)
      ensures Perfect(grid, goal)
    {
      FillWalls();
      var g;
      ghost var link, depth;
      g, link, depth := Carve(grid, width, height, pick);
      var marked := Paint(Paint(g, start, Start), goal, Goal);
      CarveEnds(g, marked, width, height);
      MarkedJoined(g, marked, width, height);
      MarkedPerfect(g, marked, width, height, link, depth);
      grid := marked;
    }
  }

  /** The carve loop of generer_labyrinthe on an all-wall grid: open (1,1),
      then repeatedly open a random uncarved lattice cell two steps from the
      top of the stack together with the wall between them, backtracking when
      there is none. The k-th random choice among the candidates is the one at
      index pick(k) modulo their number. */
  method Carve(walls: Grid, width: int, height: int, pick: nat -> nat)
      returns (g: Grid, ghost link: map<Pos, Pos>, ghost depth: map<Pos, nat>)
    requires 2 <= width && 2 <= height && WellShaped(walls, width, height)
    requires forall q :: InBounds(q, width, height) ==> At(walls, q) == Wall
    ensures WellShaped(g, width, height) && CarveInvariant(g, width, height, [])
    ensures forall q :: At(g, q) != Wall ==> JoinedToStart(g, width, height, q)
    ensures Linked(g, link, depth) && TreeEdges(g, link)
  {
    var origin := Pos(1, 1);
    g := Paint(walls, origin, Empty);
    var stack := [origin];
    CarveStarts(g, width, height);
    var draws: nat := 0;
    // the tree the carve grows: every opened cell links back to the one it was opened from
    link := map[];
    depth := map[origin := 0];

    while stack != []
      invariant WellShaped(g, width, height)
      invariant CarveInvariant(g, width, height, stack)
      invariant Linked(g, link, depth) && TreeEdges(g, link) && OpenWallsBridged(g, width, height)
      decreases WallCells(g, width, height), |stack|
    {
      ghost var g0, stack0 := g, stack;
      g, stack, draws, link, depth := CarveStep(g, width, height, stack, pick, draws, link, depth);
      assert WallCells(g, width, height) < WallCells(g0, width, height) || (g == g0 && |stack| < |stack0|);
    }
    AllJoined(g, width, height, link, depth);
  }

  lemma AllJoined(grid: Grid, width: int, height: int, link: map<Pos, Pos>, depth: map<Pos, nat>)
    requires Linked(grid, link, depth)
    requires forall p :: At(grid, p) != Wall ==> InBounds(p, width, height)
    ensures forall q :: At(grid, q) != Wall ==> JoinedToStart(grid, width, height, q)
  {
    forall q | At(grid, q) != Wall
      ensures JoinedToStart(grid, width, height, q)
    {
      JoinedByLinks(grid, width, height, link, depth, q);
    }
  }

  /** after is before with the cell next and the wall between c and next opened. */
  ghost predicate Opens(before: Grid, after: Grid, c: Pos, next: Pos)
  {
    && At(after, Between(c, next)) == Empty && At(after, next) == Empty
    && forall q :: q != Between(c, next) && q != next ==> At(after, q) == At(before, q)
  }

  /** One turn of the carve loop: with c the top of the stack, open the
      candidate at index pick(draws) modulo the number of candidates and the
      wall between it and c, and push it; with no candidate, pop c. */
  method CarveStep(g: Grid, width: int, height: int, stack: seq<Pos>, pick: nat -> nat, draws: nat,
                   ghost link: map<Pos, Pos>, ghost depth: map<Pos, nat>)
      returns (g': Grid, stack': seq<Pos>, draws': nat, ghost link': map<Pos, Pos>, ghost depth': map<Pos, nat>)
    requires WellShaped(g, width, height) && CarveInvariant(g, width, height, stack) && stack != []
    requires Linked(g, link, depth) && TreeEdges(g, link) && OpenWallsBridged(g, width, height)
    ensures WellShaped(g', width, height) && CarveInvariant(g', width, height, stack')
    ensures Linked(g', link', depth') && TreeEdges(g', link') && OpenWallsBridged(g', width, height)
    ensures CarveCandidates(g, width, height, stack[|stack| - 1]) == [] ==>
      g' == g && stack' == stack[..|stack| - 1] && draws' == draws
    ensures var candidates := CarveCandidates(g, width, height, stack[|stack| - 1]);
      candidates != [] ==>
        && draws' == draws + 1 && stack' == stack + [candidates[pick(draws) % |candidates|]]
        && Opens(g, g', stack[|stack| - 1], candidates[pick(draws) % |candidates|])
        && WallCells(g', width, height) < WallCells(g, width, height)
  {
    var current := stack[|stack| - 1];
    var candidates := CarveCandidates(g, width, height, current);
    if candidates != [] {
      var next := candidates[pick(draws) % |candidates|];
      draws' := draws + 1;
      g', link', depth' := CarvePush(g, width, height, stack, next, link, depth);
      stack' := stack + [next];
    } else {
      PopKeeps(g, width, height, stack);
      g', stack', draws', link', depth' := g, stack[..|stack| - 1], draws, link, depth;
    }
  }

  /** Opens the candidate next and the wall between it and the top of the stack. */
  method CarvePush(g: Grid, width: int, height: int, stack: seq<Pos>, next: Pos,
                   ghost link: map<Pos, Pos>, ghost depth: map<Pos, nat>)
      returns (g': Grid, ghost link': map<Pos, Pos>, ghost depth': map<Pos, nat>)
    requires WellShaped(g, width, height) && CarveInvariant(g, width, height, stack) && stack != []
    requires next in CarveCandidates(g, width, height, stack[|stack| - 1])
    requires Linked(g, link, depth) && TreeEdges(g, link) && OpenWallsBridged(g, width, height)
    ensures WellShaped(g', width, height) && CarveInvariant(g', width, height, stack + [next])
    ensures Linked(g', link', depth') && TreeEdges(g', link') && OpenWallsBridged(g', width, height)
    ensures Opens(g, g', stack[|stack| - 1], next)
    ensures WallCells(g', width, height) < WallCells(g, width, height)
  {
    var wall := Between(stack[|stack| - 1], next);
    PushKeeps(g, width, height, stack, next);
    link', depth' := PushLinks(g, width, height, stack, next, link, depth);
    g' := Paint(g, wall, Empty);
    g' := Paint(g', next, Empty);
  }

  /** q is joined to (1,1) by a walk over passable cells. */
  ghost predicate JoinedToStart(grid: Grid, width: int, height: int, q: Pos)
  {
    exists s :: IsPath(s, grid, width, height, q, Pos(1, 1))
  }

  /** A tree over the open cells rooted at (1,1): every other open cell links
      to an open neighbour of smaller depth. */
  ghost predicate Linked(grid: Grid, link: map<Pos, Pos>, depth: map<Pos, nat>)
  {
    forall q :: At(grid, q) != Wall ==> LinkedAt(grid, link, depth, q)
  }

  ghost predicate LinkedAt(grid: Grid, link: map<Pos, Pos>, depth: map<Pos, nat>, q: Pos)
  {
    && q in depth
    && (q != Pos(1, 1) ==>
          q in link && Adjacent(q, link[q]) && At(grid, link[q]) != Wall
          && link[q] in depth && depth[link[q]] < depth[q])
  }

  /** p, other than (1,1), links to q. */
  predicate LinksTo(link: map<Pos, Pos>, p: Pos, q: Pos)
  {
    p != Pos(1, 1) && p in link && link[p] == q
  }

  /** Every adjacency between two open cells is a link of the tree, taken
      from its end other than (1,1). Each open cell holds one link, so the
      open cells hold no cycle. */
  ghost predicate TreeEdges(grid: Grid, link: map<Pos, Pos>)
  {
    forall p, q :: Adjacent(p, q) && At(grid, p) != Wall && At(grid, q) != Wall ==>
      LinksTo(link, p, q) || LinksTo(link, q, p)
  }

  /** Every open cell other than (1,1) that is not a lattice cell (a wall the
      carve opened) has its lattice neighbours open. */
  ghost predicate OpenWallsBridged(grid: Grid, width: int, height: int)
  {
    forall q, p ::
      At(grid, q) != Wall && q != Pos(1, 1) && !Lattice(q, width, height) && Adjacent(q, p) && Lattice(p, width, height) ==>
        At(grid, p) != Wall
  }

  /** No neighbour of p is open. */
  ghost predicate Isolated(grid: Grid, p: Pos)
  {
    forall q :: Adjacent(p, q) ==> At(grid, q) == Wall
  }

  /** Every open cell, bar the goal when it is isolated, hangs in the tree of links. */
  ghost predicate Spans(grid: Grid, link: map<Pos, Pos>, depth: map<Pos, nat>, goal: Pos)
  {
    forall q :: At(grid, q) != Wall && (q != goal || !Isolated(grid, goal)) ==> LinkedAt(grid, link, depth, q)
  }

  /** A perfect maze: the open cells form one tree rooted at (1,1), with no
      cycle, and the goal is either in it or has no open neighbour. */
  ghost predicate Perfect(grid: Grid, goal: Pos)
  {
    exists link: map<Pos, Pos>, depth: map<Pos, nat> :: Spans(grid, link, depth, goal) && TreeEdges(grid, link)
  }

  /** A 5 by 5 grid whose eight open cells form a ring round the wall at (2,2). */
  function Ring(): Grid
  {
    [[Wall, Wall, Wall, Wall, Wall],
     [Wall, Start, Empty, Empty, Wall],
     [Wall, Empty, Wall, Empty, Wall],
     [Wall, Empty, Empty, Goal, Wall],
     [Wall, Wall, Wall, Wall, Wall]]
  }

  /** A maze with a cycle is not perfect: going round the ring from (1,1)
      both ways, each cell must link back to the one before it, and the two
      walks meet at an adjacency neither of whose ends links to the other. */
  lemma RingNotPerfect()
    ensures !Perfect(Ring(), Pos(3, 3))
  {
    forall link: map<Pos, Pos>, depth: map<Pos, nat>
      ensures !(Spans(Ring(), link, depth, Pos(3, 3)) && TreeEdges(Ring(), link))
    {
      RingHasNoTree(link);
    }
  }

  lemma RingHasNoTree(link: map<Pos, Pos>)
    ensures !TreeEdges(Ring(), link)
  {
    var g, e := Ring(), TreeEdges(Ring(), link);
    assert Adjacent(Pos(1, 1), Pos(2, 1)) && Adjacent(Pos(1, 1), Pos(1, 2));
    assert Adjacent(Pos(2, 1), Pos(3, 1)) && Adjacent(Pos(1, 2), Pos(1, 3));
    assert Adjacent(Pos(3, 1), Pos(3, 2)) && Adjacent(Pos(1, 3), Pos(2, 3));
    assert Adjacent(Pos(3, 2), Pos(3, 3)) && Adjacent(Pos(2, 3), Pos(3, 3));
    assert e ==> LinksTo(link, Pos(2, 1), Pos(1, 1)) && LinksTo(link, Pos(1, 2), Pos(1, 1));
    assert e ==> LinksTo(link, Pos(3, 1), Pos(2, 1)) && LinksTo(link, Pos(1, 3), Pos(1, 2));
    assert e ==> LinksTo(link, Pos(3, 2), Pos(3, 1)) && LinksTo(link, Pos(2, 3), Pos(1, 3));
    assert e ==> LinksTo(link, Pos(3, 3), Pos(3, 2));
  }

  /** Following the links from an open cell gives a walk over open cells to (1,1). */
  lemma {:induction false} JoinedByLinks(grid: Grid, width: int, height: int, link: map<Pos, Pos>, depth: map<Pos, nat>, q: Pos)
    requires Linked(grid, link, depth)
    requires forall p :: At(grid, p) != Wall ==> InBounds(p, width, height)
    requires At(grid, q) != Wall
    ensures JoinedToStart(grid, width, height, q)
    decreases depth[q]
  {
    if q == Pos(1, 1) {
      assert IsPath([q], grid, width, height, q, Pos(1, 1));
    } else {
      assert LinkedAt(grid, link, depth, q);
      var p := link[q];
      JoinedByLinks(grid, width, height, link, depth, p);
      var s :| IsPath(s, grid, width, height, p, Pos(1, 1));
      PathCons(grid, width, height, q, s);
    }
  }

  /** A passable cell next to the head of a path extends it. */
  lemma PathCons(grid: Grid, width: int, height: int, q: Pos, s: seq<Pos>)
    requires |s| >= 1 && IsPath(s, grid, width, height, s[0], Pos(1, 1))
    requires Adjacent(q, s[0]) && InBounds(q, width, height) && At(grid, q) != Wall
    ensures IsPath([q] + s, grid, width, height, q, Pos(1, 1))
  {
    var t := [q] + s;
    forall i, j | 0 <= i && j == i + 1 < |t|
      ensures Adjacent(t[i], t[j])
    {
      if i > 0 {
        assert t[i] == s[i - 1] && t[j] == s[j - 1];
      }
    }
    forall i | 0 <= i < |t|
      ensures IsValid(grid, width, height, t[i].x, t[i].y)
    {
      if i > 0 {
        assert t[i] == s[i - 1];
      }
    }
  }

  /** A step of two cells passes through the cell between them. */
  lemma BetweenAdjacent(c: Pos, next: Pos)
    requires Jump(c, next)
    ensures Adjacent(c, Between(c, next)) && Adjacent(Between(c, next), next)
    ensures Adjacent(Between(c, next), c) && Adjacent(next, Between(c, next))
    ensures Between(c, next) != next && Between(c, next) != c && c != next
  {
  }

  /** The carve's push, as seen by the tree of links: the wall between the
      top of the stack and the candidate is still closed, so both join the
      tree, and every new adjacency between open cells is one of the new links. */
  lemma PushLinks(grid: Grid, width: int, height: int, stack: seq<Pos>, next: Pos, link: map<Pos, Pos>, depth: map<Pos, nat>)
      returns (link': map<Pos, Pos>, depth': map<Pos, nat>)
    requires WellShaped(grid, width, height)
    requires CarveInvariant(grid, width, height, stack) && stack != []
    requires next in CarveCandidates(grid, width, height, stack[|stack| - 1])
    requires Linked(grid, link, depth) && TreeEdges(grid, link) && OpenWallsBridged(grid, width, height)
    ensures var wall := Between(stack[|stack| - 1], next);
      && 0 <= wall.y < |grid| && 0 <= wall.x < |grid[wall.y]|
      && 0 <= next.y < |grid| && 0 <= next.x < |grid[next.y]|
      && var after := Paint(Paint(grid, wall, Empty), next, Empty);
      && Linked(after, link', depth') && TreeEdges(after, link') && OpenWallsBridged(after, width, height)
  {
    var c := stack[|stack| - 1];
    var wall := Between(c, next);
    PushKeeps(grid, width, height, stack, next);
    CarveOriginLattice(grid, width, height, stack, next);
    assert StackShaped(grid, width, height, stack);
    assert At(grid, c) != Wall && At(grid, next) == Wall;
    WallStillClosed(grid, width, height, c, next);
    BetweenAdjacent(c, next);
    var after := Paint(Paint(grid, wall, Empty), next, Empty);
    PushClosedWallLinks(grid, after, link, depth, c, wall, next);
    link' := link[wall := c][next := wall];
    depth' := depth[wall := depth[c] + 1][next := depth[c] + 2];
    PushKeepsBridged(grid, after, width, height, c, wall, next);
    PushKeepsEdges(grid, after, link, width, height, c, wall, next);
  }

  /** The wall was closed: it joins the tree below c, and the candidate below the wall. */
  lemma PushClosedWallLinks(before: Grid, after: Grid, link: map<Pos, Pos>, depth: map<Pos, nat>, c: Pos, wall: Pos, next: Pos)
    requires Linked(before, link, depth)
    requires At(before, c) != Wall && At(before, wall) == Wall && At(before, next) == Wall
    requires Adjacent(wall, c) && Adjacent(next, wall) && wall != next
    requires forall q :: q != wall && q != next ==> At(after, q) == At(before, q)
    requires At(after, wall) != Wall && At(after, next) != Wall
    ensures c in depth && Linked(after, link[wall := c][next := wall], depth[wall := depth[c] + 1][next := depth[c] + 2])
  {
    assert LinkedAt(before, link, depth, c);
    var link' := link[wall := c][next := wall];
    var depth' := depth[wall := depth[c] + 1][next := depth[c] + 2];
    forall q | At(after, q) != Wall
      ensures LinkedAt(after, link', depth', q)
    {
      if q == next {
        assert link'[q] == wall && depth'[wall] == depth[c] + 1;
      } else if q == wall {
        assert link'[q] == c && depth'[c] == depth[c];
      } else {
        assert At(before, q) != Wall;
        assert LinkedAt(before, link, depth, q);
        if q != Pos(1, 1) {
          var p := link[q];
          assert At(before, p) != Wall;
          assert p != next && p != wall;
        }
      }
    }
  }

  /** The wall in front of a candidate is still closed: were it open, the
      candidate behind it would be open too. */
  lemma WallStillClosed(grid: Grid, width: int, height: int, c: Pos, next: Pos)
    requires OpenWallsBridged(grid, width, height)
    requires Lattice(c, width, height) && Lattice(next, width, height) && Jump(c, next)
    requires At(grid, next) == Wall
    ensures At(grid, Between(c, next)) == Wall
  {
    var wall := Between(c, next);
    Midpoint(c, next, wall, width, height);
    BetweenAdjacent(c, next);
    assert wall != Pos(1, 1) && Adjacent(wall, next);
  }

  /** The push keeps every open wall bridged: the new wall's lattice
      neighbours are the top of the stack and the candidate. */
  lemma PushKeepsBridged(before: Grid, after: Grid, width: int, height: int, c: Pos, wall: Pos, next: Pos)
    requires OpenWallsBridged(before, width, height)
    requires Lattice(c, width, height) && Lattice(next, width, height) && Jump(c, next) && wall == Between(c, next)
    requires At(before, c) != Wall
    requires forall q :: q != wall && q != next ==> At(after, q) == At(before, q)
    requires At(after, wall) != Wall && At(after, next) != Wall
    ensures OpenWallsBridged(after, width, height)
  {
    BetweenAdjacent(c, next);
    forall q, p | At(after, q) != Wall && q != Pos(1, 1) && !Lattice(q, width, height) && Adjacent(q, p) && Lattice(p, width, height)
      ensures At(after, p) != Wall
    {
      if q == wall {
        WallNeighbours(c, next, p, width, height);
      } else {
        assert At(before, q) != Wall;
      }
    }
  }

  /** The push keeps every adjacency between open cells a link: the new wall
      touches no open cell but the top of the stack and the candidate, and the
      candidate touched no open cell before, since an open wall next to it
      would have had it open. */
  lemma PushKeepsEdges(before: Grid, after: Grid, link: map<Pos, Pos>, width: int, height: int, c: Pos, wall: Pos, next: Pos)
    requires TreeEdges(before, link) && OpenWallsBridged(before, width, height) && OpenCellsShaped(before, width, height)
    requires Lattice(c, width, height) && Lattice(next, width, height) && Jump(c, next) && wall == Between(c, next)
    requires At(before, c) != Wall && At(before, wall) == Wall && At(before, next) == Wall
    requires forall q :: q != wall && q != next ==> At(after, q) == At(before, q)
    requires At(after, wall) != Wall && At(after, next) != Wall
    ensures TreeEdges(after, link[wall := c][next := wall])
  {
    var link' := link[wall := c][next := wall];
    BetweenAdjacent(c, next);
    forall p, q | Adjacent(p, q) && At(after, p) != Wall && At(after, q) != Wall
      ensures LinksTo(link', p, q) || LinksTo(link', q, p)
    {
      if p == wall || p == next {
        PushEdge(before, after, link, width, height, c, wall, next, p, q);
      } else if q == wall || q == next {
        AdjacentSymmetric(p, q);
        PushEdge(before, after, link, width, height, c, wall, next, q, p);
      } else {
        assert At(before, p) != Wall && At(before, q) != Wall;
        assert LinksTo(link, p, q) || LinksTo(link, q, p);
      }
    }
  }

  /** An adjacency at the new wall or at the candidate is one of the two new links. */
  lemma PushEdge(before: Grid, after: Grid, link: map<Pos, Pos>, width: int, height: int, c: Pos, wall: Pos, next: Pos, p: Pos, q: Pos)
    requires OpenWallsBridged(before, width, height) && OpenCellsShaped(before, width, height)
    requires Lattice(c, width, height) && Lattice(next, width, height) && Jump(c, next) && wall == Between(c, next)
    requires At(before, next) == Wall
    requires forall q :: q != wall && q != next ==> At(after, q) == At(before, q)
    requires p == wall || p == next
    requires Adjacent(p, q) && At(after, p) != Wall && At(after, q) != Wall
    ensures LinksTo(link[wall := c][next := wall], p, q) || LinksTo(link[wall := c][next := wall], q, p)
  {
    if p == wall {
      WallEdge(before, after, link, width, height, c, wall, next, q);
    } else {
      BetweenAdjacent(c, next);
      NextEdge(before, after, link, width, height, c, wall, next, q);
    }
  }

  /** The new wall's open neighbours are the top of the stack, to which it
      links, and the candidate, which links to it. */
  lemma WallEdge(before: Grid, after: Grid, link: map<Pos, Pos>, width: int, height: int, c: Pos, wall: Pos, next: Pos, q: Pos)
    requires OpenCellsShaped(before, width, height)
    requires Lattice(c, width, height) && Lattice(next, width, height) && Jump(c, next) && wall == Between(c, next)
    requires forall q :: q != wall && q != next ==> At(after, q) == At(before, q)
    requires At(before, next) == Wall
    requires Adjacent(wall, q) && At(after, q) != Wall
    ensures LinksTo(link[wall := c][next := wall], wall, q) || LinksTo(link[wall := c][next := wall], q, wall)
  {
    BetweenAdjacent(c, next);
    Midpoint(c, next, wall, width, height);
    WallNeighbours(c, next, q, width, height);
    EvenCellClosed(before, width, height, q);
    assert q != wall;
  }

  /** The candidate's only open neighbour is the new wall, which it links to. */
  lemma NextEdge(before: Grid, after: Grid, link: map<Pos, Pos>, width: int, height: int, c: Pos, wall: Pos, next: Pos, q: Pos)
    requires OpenWallsBridged(before, width, height)
    requires Lattice(next, width, height) && At(before, next) == Wall && At(before, Pos(1, 1)) != Wall && wall != next
    requires forall q :: q != wall && q != next ==> At(after, q) == At(before, q)
    requires Adjacent(next, q) && At(after, q) != Wall
    ensures LinksTo(link[wall := c][next := wall], next, q) || LinksTo(link[wall := c][next := wall], q, next)
  {
    LatticeNeighbourParity(next, q, width, height);
    AdjacentSymmetric(next, q);
    assert q != next;
  }

  /** The lattice neighbours of the wall between two lattice cells are those
      two cells; its other neighbours have both coordinates even. */
  lemma WallNeighbours(c: Pos, next: Pos, q: Pos, width: int, height: int)
    requires Lattice(c, width, height) && Lattice(next, width, height) && Jump(c, next)
    requires Adjacent(Between(c, next), q)
    ensures q == c || q == next || (q.x % 2 == 0 && q.y % 2 == 0)
  {
    if next == Pos(c.x, c.y + 2) {
      assert Between(c, next) == Pos(c.x, c.y + 1);
    } else if next == Pos(c.x + 2, c.y) {
      assert Between(c, next) == Pos(c.x + 1, c.y);
    } else if next == Pos(c.x, c.y - 2) {
      assert Between(c, next) == Pos(c.x, c.y - 1);
    } else {
      assert Between(c, next) == Pos(c.x - 1, c.y);
    }
  }

  /** A neighbour of a lattice cell has an even coordinate. */
  lemma LatticeNeighbourParity(p: Pos, q: Pos, width: int, height: int)
    requires Lattice(p, width, height) && Adjacent(p, q)
    ensures q.x % 2 == 0 || q.y % 2 == 0
  {
  }

  /** The carve never opens a cell with both coordinates even. */
  lemma EvenCellClosed(grid: Grid, width: int, height: int, q: Pos)
    requires OpenCellsShaped(grid, width, height)
    ensures q.x % 2 == 0 && q.y % 2 == 0 ==> At(grid, q) == Wall
  {
    if q.x % 2 == 0 && q.y % 2 == 0 {
      assert !Lattice(q, width, height);
      assert !Lattice(Pos(q.x - 1, q.y), width, height);
      assert !Lattice(Pos(q.x, q.y - 1), width, height);
      assert !CarveShaped(q, width, height) && q != Pos(1, 1);
    }
  }

  lemma AdjacentSymmetric(p: Pos, q: Pos)
    requires Adjacent(p, q)
    ensures Adjacent(q, p)
  {
  }

  /** Marking Start and Goal closes nothing, so every open cell other than
      the goal stays joined to (1,1). So does the goal when a size is odd and
      both are at least 3: with both odd it is a lattice cell the carve opened,
      and with one odd it lies next to one, (width-2, height-3) or
      (width-3, height-2). */
  lemma MarkedJoined(carved: Grid, marked: Grid, width: int, height: int)
    requires 2 <= width && 2 <= height && WellShaped(carved, width, height)
    requires forall q :: At(carved, q) != Wall ==> JoinedToStart(carved, width, height, q)
    requires forall p :: Lattice(p, width, height) ==> At(carved, p) != Wall
    requires marked == Paint(Paint(carved, Pos(1, 1), Start), Pos(width - 2, height - 2), Goal)
    ensures forall q :: At(marked, q) != Wall && q != Pos(width - 2, height - 2) ==> JoinedToStart(marked, width, height, q)
    ensures (width % 2 == 1 || height % 2 == 1) && 3 <= width && 3 <= height ==>
              JoinedToStart(marked, width, height, Pos(width - 2, height - 2))
  {
    var start, goal := Pos(1, 1), Pos(width - 2, height - 2);
    forall q | At(marked, q) != Wall && q != goal
      ensures JoinedToStart(marked, width, height, q)
    {
      if q == start {
        assert IsPath([q], marked, width, height, q, start);
      } else {
        JoinedKept(carved, marked, width, height, q);
      }
    }
    if 3 <= width && 3 <= height {
      if width % 2 == 1 && height % 2 == 1 {
        assert Lattice(goal, width, height);
        JoinedKept(carved, marked, width, height, goal);
      } else if width % 2 == 1 {
        GoalBeside(carved, marked, width, height, Pos(width - 2, height - 3));
      } else if height % 2 == 1 {
        GoalBeside(carved, marked, width, height, Pos(width - 3, height - 2));
      }
    }
  }

  /** The goal next to a joined lattice cell is joined through it. */
  lemma GoalBeside(carved: Grid, marked: Grid, width: int, height: int, p: Pos)
    requires 3 <= width && 3 <= height && WellShaped(carved, width, height)
    requires forall p :: Lattice(p, width, height) ==> At(carved, p) != Wall
    requires marked == Paint(Paint(carved, Pos(1, 1), Start), Pos(width - 2, height - 2), Goal)
    requires forall q :: At(marked, q) != Wall && q != Pos(width - 2, height - 2) ==> JoinedToStart(marked, width, height, q)
    requires Lattice(p, width, height) && Adjacent(Pos(width - 2, height - 2), p)
    ensures JoinedToStart(marked, width, height, Pos(width - 2, height - 2))
  {
    var goal := Pos(width - 2, height - 2);
    assert At(marked, p) != Wall;
    var s :| IsPath(s, marked, width, height, p, Pos(1, 1));
    PathCons(marked, width, height, goal, s);
  }

  /** Marking Start and Goal keeps the maze perfect. The mark on (1,1) opens
      nothing. The goal is either a cell the carve opened, or a wall with no
      open neighbour, or a wall with exactly one, to which it then hangs as a
      leaf. */
  lemma MarkedPerfect(carved: Grid, marked: Grid, width: int, height: int, link: map<Pos, Pos>, depth: map<Pos, nat>)
    requires 2 <= width && 2 <= height && WellShaped(carved, width, height)
    requires CarveInvariant(carved, width, height, [])
    requires forall p :: Lattice(p, width, height) ==> At(carved, p) != Wall
    requires Linked(carved, link, depth) && TreeEdges(carved, link)
    requires marked == Paint(Paint(carved, Pos(1, 1), Start), Pos(width - 2, height - 2), Goal)
    ensures Perfect(marked, Pos(width - 2, height - 2))
  {
    var goal := Pos(width - 2, height - 2);
    assert OpenCellsShaped(carved, width, height);
    assert forall q :: q != goal ==> (At(marked, q) != Wall <==> At(carved, q) != Wall);
    if At(carved, goal) != Wall {
      MarkedOpenGoal(carved, marked, link, depth, goal);
    } else if Isolated(marked, goal) {
      MarkedIsolatedGoal(carved, marked, link, depth, goal);
    } else {
      var nb :| Adjacent(goal, nb) && At(marked, nb) != Wall;
      GoalNeighbourUnique(carved, width, height);
      MarkedLeafGoal(carved, marked, link, depth, goal, nb);
    }
  }

  /** The goal was open: the marks change no cell between open and closed. */
  lemma MarkedOpenGoal(carved: Grid, marked: Grid, link: map<Pos, Pos>, depth: map<Pos, nat>, goal: Pos)
    requires Linked(carved, link, depth) && TreeEdges(carved, link)
    requires forall q :: At(marked, q) != Wall <==> At(carved, q) != Wall
    ensures Perfect(marked, goal)
  {
    forall q | At(marked, q) != Wall
      ensures LinkedAt(marked, link, depth, q)
    {
      assert LinkedAt(carved, link, depth, q);
    }
    assert Spans(marked, link, depth, goal);
  }

  /** The goal was a wall with no open neighbour: it stays outside the tree. */
  lemma MarkedIsolatedGoal(carved: Grid, marked: Grid, link: map<Pos, Pos>, depth: map<Pos, nat>, goal: Pos)
    requires Linked(carved, link, depth) && TreeEdges(carved, link)
    requires forall q :: q != goal ==> (At(marked, q) != Wall <==> At(carved, q) != Wall)
    requires Isolated(marked, goal)
    ensures Perfect(marked, goal)
  {
    forall q | At(marked, q) != Wall && q != goal
      ensures LinkedAt(marked, link, depth, q)
    {
      assert LinkedAt(carved, link, depth, q);
    }
    forall p, q | Adjacent(p, q) && At(marked, p) != Wall && At(marked, q) != Wall
      ensures LinksTo(link, p, q) || LinksTo(link, q, p)
    {
      AdjacentSymmetric(p, q);
      assert p != goal && q != goal;
    }
    assert Spans(marked, link, depth, goal);
  }

  /** The goal was a wall with the one open neighbour nb: it links to nb. */
  lemma MarkedLeafGoal(carved: Grid, marked: Grid, link: map<Pos, Pos>, depth: map<Pos, nat>, goal: Pos, nb: Pos)
    requires Linked(carved, link, depth) && TreeEdges(carved, link)
    requires At(carved, Pos(1, 1)) != Wall && At(carved, goal) == Wall && At(marked, goal) != Wall
    requires forall q :: q != goal ==> (At(marked, q) != Wall <==> At(carved, q) != Wall)
    requires Adjacent(goal, nb) && At(marked, nb) != Wall
    requires forall a, b :: Adjacent(goal, a) && Adjacent(goal, b) && At(carved, a) != Wall && At(carved, b) != Wall ==> a == b
    ensures Perfect(marked, goal)
  {
    assert nb != goal && At(carved, nb) != Wall;
    assert LinkedAt(carved, link, depth, nb);
    var link', depth' := link[goal := nb], depth[goal := depth[nb] + 1];
    forall q | At(marked, q) != Wall
      ensures LinkedAt(marked, link', depth', q)
    {
      if q != goal {
        assert LinkedAt(carved, link, depth, q);
      }
    }
    forall p, q | Adjacent(p, q) && At(marked, p) != Wall && At(marked, q) != Wall
      ensures LinksTo(link', p, q) || LinksTo(link', q, p)
    {
      AdjacentSymmetric(p, q);
      if p == goal {
        assert q == nb;
      } else if q == goal {
        assert p == nb;
      } else {
        assert LinksTo(link, p, q) || LinksTo(link, q, p);
      }
    }
    assert Spans(marked, link', depth', goal);
  }

  /** In a carved maze a goal the carve left closed has at most one open
      neighbour. Its neighbours on the border can only be (1,1), and its
      inner neighbours (width-3, height-2) and (width-2, height-3) are both
      open only if the goal has odd coordinates, and then it is a lattice
      cell, which the carve opens. */
  lemma GoalNeighbourUnique(grid: Grid, width: int, height: int)
    requires 2 <= width && 2 <= height
    requires OpenCellsShaped(grid, width, height)
    requires forall p :: Lattice(p, width, height) ==> At(grid, p) != Wall
    requires At(grid, Pos(width - 2, height - 2)) == Wall
    ensures forall a, b ::
      Adjacent(Pos(width - 2, height - 2), a) && Adjacent(Pos(width - 2, height - 2), b) && At(grid, a) != Wall && At(grid, b) != Wall ==>
        a == b
  {
    var goal := Pos(width - 2, height - 2);
    OddGoalOpen(grid, width, height);
    forall a, b | Adjacent(goal, a) && Adjacent(goal, b) && At(grid, a) != Wall && At(grid, b) != Wall
      ensures a == b
    {
      OpenShape(grid, width, height, a);
      OpenShape(grid, width, height, b);
    }
  }

  /** With both coordinates odd the goal is a lattice cell, opened by the carve. */
  lemma OddGoalOpen(grid: Grid, width: int, height: int)
    requires 2 <= width && 2 <= height
    requires forall p :: Lattice(p, width, height) ==> At(grid, p) != Wall
    ensures (width - 2) % 2 == 1 && (height - 2) % 2 == 1 ==> At(grid, Pos(width - 2, height - 2)) != Wall
  {
    if (width - 2) % 2 == 1 && (height - 2) % 2 == 1 {
      assert Lattice(Pos(width - 2, height - 2), width, height);
    }
  }

  /** An open cell other than (1,1) is inside the border; it has an odd
      coordinate, and along an even coordinate it stops two cells short of
      the far border. */
  lemma OpenShape(grid: Grid, width: int, height: int, p: Pos)
    requires OpenCellsShaped(grid, width, height)
    requires At(grid, p) != Wall
    ensures p == Pos(1, 1) || (
      && Interior(p, width, height)
      && (p.y % 2 == 0 ==> p.x % 2 == 1 && p.y <= height - 3)
      && (p.x % 2 == 0 ==> p.y % 2 == 1 && p.x <= width - 3))
  {
  }

  /** Opening cells keeps every walk over open cells. */
  lemma JoinedKept(before: Grid, after: Grid, width: int, height: int, q: Pos)
    requires forall p :: At(before, p) != Wall ==> At(after, p) != Wall
    requires At(before, q) != Wall ==> JoinedToStart(before, width, height, q)
    requires At(before, q) != Wall
    ensures JoinedToStart(after, width, height, q)
  {
    var s :| IsPath(s, before, width, height, q, Pos(1, 1));
    assert IsPath(s, after, width, height, q, Pos(1, 1));
  }

  /** Right after (1,1) is opened in an all-wall grid the carve invariant holds for the stack [(1,1)]. */
  lemma CarveStarts(grid: Grid, width: int, height: int)
    requires 2 <= width && 2 <= height && WellShaped(grid, width, height)
    requires forall q :: q != Pos(1, 1) && InBounds(q, width, height) ==> At(grid, q) == Wall
    requires At(grid, Pos(1, 1)) == Empty
    ensures CarveInvariant(grid, width, height, [Pos(1, 1)])
    ensures TreeEdges(grid, map[]) && OpenWallsBridged(grid, width, height)
  {
    forall q | At(grid, q) != Wall
      ensures q == Pos(1, 1)
    {
    }
  }

  /** Once the stack is empty every lattice cell is open; marking (1,1) as
      Start and then (width-2, height-2) as Goal gives a carved maze whose
      border is intact. */
  lemma CarveEnds(carved: Grid, marked: Grid, width: int, height: int)
    requires 2 <= width && 2 <= height
    requires CarveInvariant(carved, width, height, [])
    requires WellShaped(carved, width, height)
    requires marked == Paint(Paint(carved, Pos(1, 1), Start), Pos(width - 2, height - 2), Goal)
    ensures Carved(marked, width, height, Pos(1, 1), Pos(width - 2, height - 2))
    ensures forall p :: InBounds(p, width, height) && OnBorder(p, width, height) && p != Pos(1, 1) && p != Pos(width - 2, height - 2) ==>
              At(marked, p) == Wall
    ensures forall p :: Lattice(p, width, height) ==> At(carved, p) != Wall
  {
    forall p | Lattice(p, width, height)
      ensures At(carved, p) != Wall
    {
      LatticeReached(carved, width, height, p);
    }
  }

  /** Only (1,1) and carve-shaped cells are open, and open means Empty. */
  ghost predicate OpenCellsShaped(grid: Grid, width: int, height: int)
  {
    && (forall q :: At(grid, q) != Wall ==> InBounds(q, width, height) && At(grid, q) == Empty)
    && At(grid, Pos(1, 1)) == Empty
    && (forall q :: At(grid, q) != Wall ==> q == Pos(1, 1) || CarveShaped(q, width, height))
  }

  /** Every stack entry is open and is (1,1) or a lattice cell; no entry appears twice. */
  ghost predicate StackShaped(grid: Grid, width: int, height: int, stack: seq<Pos>)
  {
    && (forall i :: 0 <= i < |stack| ==>
          At(grid, stack[i]) == Empty && (stack[i] == Pos(1, 1) || Lattice(stack[i], width, height)))
    && (forall i, j :: 0 <= i < j < |stack| ==> stack[i] != stack[j])
  }

  /** Every open lattice cell that has left the stack has all its lattice neighbours open. */
  ghost predicate Backtracked(grid: Grid, width: int, height: int, stack: seq<Pos>)
  {
    forall q {:trigger LatticeNeighboursOpen(grid, width, height, q)} ::
      Lattice(q, width, height) && At(grid, q) != Wall && q !in stack ==> LatticeNeighboursOpen(grid, width, height, q)
  }

  /** The invariant of the carve loop. */
  ghost predicate CarveInvariant(grid: Grid, width: int, height: int, stack: seq<Pos>)
  {
    OpenCellsShaped(grid, width, height) && StackShaped(grid, width, height, stack) && Backtracked(grid, width, height, stack)
  }

  /** A carve candidate exists only when the top of the stack is itself a lattice cell. */
  lemma CarveOriginLattice(grid: Grid, width: int, height: int, stack: seq<Pos>, next: Pos)
    requires CarveInvariant(grid, width, height, stack) && stack != []
    requires next in CarveCandidates(grid, width, height, stack[|stack| - 1])
    ensures Lattice(stack[|stack| - 1], width, height) && Lattice(next, width, height)
  {
    var c := stack[|stack| - 1];
    assert StackShaped(grid, width, height, stack);
    assert c == Pos(1, 1) || Lattice(c, width, height);
    assert Jump(c, next) && Interior(next, width, height);
    JumpLattice(c, next, width, height);
  }

  /** Two steps along an axis from an odd cell (1,1) or a lattice cell to an interior cell stay on the lattice. */
  lemma JumpLattice(c: Pos, next: Pos, width: int, height: int)
    requires c == Pos(1, 1) || Lattice(c, width, height)
    requires Jump(c, next) && Interior(next, width, height)
    ensures Lattice(c, width, height) && Lattice(next, width, height)
  {
    assert c.x % 2 == 1 && c.y % 2 == 1;
    if next == Pos(c.x, c.y + 2) {
    } else if next == Pos(c.x + 2, c.y) {
    } else if next == Pos(c.x, c.y - 2) {
    } else {
    }
  }

  /** The cell between two lattice cells two steps apart is carve-shaped and not itself a lattice cell. */
  lemma Midpoint(c: Pos, next: Pos, wall: Pos, width: int, height: int)
    requires Lattice(c, width, height) && Lattice(next, width, height) && Jump(c, next)
    requires wall == Pos(c.x + (next.x - c.x) / 2, c.y + (next.y - c.y) / 2)
    ensures InBounds(wall, width, height) && CarveShaped(wall, width, height) && !Lattice(wall, width, height)
  {
  }

  /** The wall cell between c and a cell two steps away. */
  function Between(c: Pos, next: Pos): Pos
  {
    Pos(c.x + (next.x - c.x) / 2, c.y + (next.y - c.y) / 2)
  }

  /** Opening a candidate and the wall between it and the top of the stack,
      then pushing the candidate, keeps the carve invariant and turns one
      more wall into an open cell. */
  lemma PushKeeps(grid: Grid, width: int, height: int, stack: seq<Pos>, next: Pos)
    requires WellShaped(grid, width, height)
    requires CarveInvariant(grid, width, height, stack) && stack != []
    requires next in CarveCandidates(grid, width, height, stack[|stack| - 1])
    ensures var wall := Between(stack[|stack| - 1], next);
      && 0 <= wall.y < |grid| && 0 <= wall.x < |grid[wall.y]|
      && 0 <= next.y < |grid| && 0 <= next.x < |grid[next.y]|
      && var after := Paint(Paint(grid, wall, Empty), next, Empty);
      && CarveInvariant(after, width, height, stack + [next])
      && WallCells(after, width, height) < WallCells(grid, width, height)
  {
    var c := stack[|stack| - 1];
    var wall := Between(c, next);
    CarveOriginLattice(grid, width, height, stack, next);
    assert Jump(c, next);
    Midpoint(c, next, wall, width, height);
    var after := Paint(Paint(grid, wall, Empty), next, Empty);
    PushKeepsOpen(grid, after, width, height, next, wall);
    PushKeepsStack(grid, after, width, height, stack, next, wall);
    PushKeepsBacktracked(grid, after, width, height, stack, next, wall);
    WallCellsShrink(grid, after, width, height, next);
  }

  lemma PushKeepsOpen(before: Grid, after: Grid, width: int, height: int, next: Pos, wall: Pos)
    requires OpenCellsShaped(before, width, height)
    requires Lattice(next, width, height)
    requires InBounds(wall, width, height) && CarveShaped(wall, width, height)
    requires forall q :: q != wall && q != next ==> At(after, q) == At(before, q)
    requires At(after, wall) == Empty && At(after, next) == Empty
    ensures OpenCellsShaped(after, width, height)
  {
    forall q | At(after, q) != Wall
      ensures InBounds(q, width, height) && At(after, q) == Empty
      ensures q == Pos(1, 1) || CarveShaped(q, width, height)
    {
      if q != wall && q != next {
        assert At(before, q) != Wall;
      }
    }
  }

  lemma PushKeepsStack(before: Grid, after: Grid, width: int, height: int, stack: seq<Pos>, next: Pos, wall: Pos)
    requires StackShaped(before, width, height, stack)
    requires Lattice(next, width, height) && At(before, next) == Wall && !Lattice(wall, width, height)
    requires forall q :: q != wall && q != next ==> At(after, q) == At(before, q)
    requires At(after, wall) == Empty && At(after, next) == Empty
    ensures StackShaped(after, width, height, stack + [next])
  {
    var s' := stack + [next];
    forall i | 0 <= i < |s'|
      ensures At(after, s'[i]) == Empty && (s'[i] == Pos(1, 1) || Lattice(s'[i], width, height))
    {
      if i < |stack| {
        assert s'[i] == stack[i];
        assert At(before, stack[i]) == Empty;
      }
    }
    forall i, j | 0 <= i < j < |s'|
      ensures s'[i] != s'[j]
    {
      if j == |stack| {
        assert s'[i] == stack[i];
        assert At(before, stack[i]) == Empty;
      } else {
        assert s'[i] == stack[i] && s'[j] == stack[j];
      }
    }
  }

  lemma PushKeepsBacktracked(before: Grid, after: Grid, width: int, height: int, stack: seq<Pos>, next: Pos, wall: Pos)
    requires Backtracked(before, width, height, stack)
    requires !Lattice(wall, width, height)
    requires forall q :: q != wall && q != next ==> At(after, q) == At(before, q)
    requires At(after, wall) == Empty && At(after, next) == Empty
    ensures Backtracked(after, width, height, stack + [next])
  {
    forall q | Lattice(q, width, height) && At(after, q) != Wall && q !in stack + [next]
      ensures LatticeNeighboursOpen(after, width, height, q)
    {
      assert q != wall && q != next && q !in stack;
      assert LatticeNeighboursOpen(before, width, height, q);
    }
  }

  /** With no candidate left, the top of the stack has all its lattice
      neighbours open, so popping it keeps the carve invariant. */
  lemma PopKeeps(grid: Grid, width: int, height: int, stack: seq<Pos>)
    requires CarveInvariant(grid, width, height, stack) && stack != []
    requires CarveCandidates(grid, width, height, stack[|stack| - 1]) == []
    ensures CarveInvariant(grid, width, height, stack[..|stack| - 1])
  {
    var c := stack[|stack| - 1];
    var s' := stack[..|stack| - 1];
    assert LatticeNeighboursOpen(grid, width, height, c);
    forall q | Lattice(q, width, height) && At(grid, q) != Wall && q !in s'
      ensures LatticeNeighboursOpen(grid, width, height, q)
    {
      if q != c {
        assert q !in stack;
      }
    }
    forall i | 0 <= i < |s'|
      ensures At(grid, s'[i]) == Empty && (s'[i] == Pos(1, 1) || Lattice(s'[i], width, height))
    {
      assert s'[i] == stack[i];
    }
  }

  /** Opening cells (and keeping every open cell open) strictly shrinks the set of walls. */
  lemma WallCellsShrink(before: Grid, after: Grid, width: int, height: int, p: Pos)
    requires forall q :: At(before, q) != Wall ==> At(after, q) != Wall
    requires InBounds(p, width, height) && At(before, p) == Wall && At(after, p) != Wall
    ensures WallCells(after, width, height) < WallCells(before, width, height)
  {
    assert p in WallCells(before, width, height);
    assert p !in WallCells(after, width, height);
  }
}
