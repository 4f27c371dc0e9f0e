# MAZE_AI: the maze generator and the step-by-step A* agent

This project models, in Dafny, the algorithmic core of MAZE_AI (`main.py`):

- `LabyrintheAAA` is the maze. Its grid is `hauteur` rows of `largeur` cells, the start is (1,1) and the goal is (largeur-2, hauteur-2). `generer_labyrinthe` carves it with an iterative recursive backtracker. `est_valide` and `obtenir_voisins` give the 4-connected graph of passable cells.
- `AgentIAAAA` is the incremental A* agent. Each call of `a_star_pas_a_pas` does one unit of search work and keeps the search state in between.
  - The first call seeds the search.
  - Each later call does one of four things: it stops, skips a stale heap entry, closes the goal and records the path, or closes a position and relaxes its neighbours.
  - `reinitialiser` clears the public state.
  - `Noeud` is the search node, ordered by f = g + h.

Module `Maze` (maze.dfy) holds the grid as a `seq<seq<Cell>>` indexed `grid[y][x]`. Cells outside the grid read as walls. Class `Labyrinth` holds the `grid` field that `Generate` reassigns; the carve loop itself is the method `Carve`, which works on a grid value.

Module `AStar` (astar.dfy) holds the agent. Class `Agent` has one field per attribute of the source object:
- the hidden `_liste_ouverte` heap, as a multiset of nodes;
- the `_liste_fermee` closed set;
- the `_noeuds_ouverts` best-known map;
- the public sets, path, flag and statistics.

`Agent.Step` is proved against value-level specification functions. `Seed` is the initialisation branch and `AfterPop` is everything after the heap pop. `Relax` is the neighbour loop, and `Run` applies `AfterPop` over a sequence of pops. The properties of these functions are proved as lemmas. The `Consistent` predicate is the invariant every step preserves. It says:
- every heap and best-known node has a parent chain of adjacent passable cells back to the start, with g counting the steps;
- a finished search holds a path from start to goal.

How the model represents the source:
- `random.choice` is an oracle `pick: nat -> nat`. The k-th choice takes the candidate at index `pick(k) % |candidates|`.
- The `heapq` pop is a choice of some node of least f from the multiset, since ties are unspecified: `Noeud.__lt__` compares f only.
- The `hasattr(self, '_liste_ouverte')` test is an explicit `initialised` flag.

A reset might be expected to clear the heap, the best-known map and the closed set as well. `reinitialiser` (main.py:462-476) clears only the public state. `Agent.Reset` keeps the hidden heap, closed set and best-known map, as the code does. The consequence is listed under Findings.

Three guarantees are proved beyond the shape of the data:
- the carve makes a perfect maze (`Perfect`). The open cells form one tree rooted at (1,1): each open cell links to an open neighbour nearer the root, and every adjacency between two open cells is one of these links, so there is no cycle. Every open cell is joined to (1,1) by a walk over open cells. The goal is joined too when a size is odd and both are at least 3. With both sizes even it has no open neighbour;
- while the goal is open, the agent keeps the A* invariant `Optimality`. So a finished search holds a shortest path from start to goal: the heuristic is consistent and every pop takes a node of least f;
- a step that returns False without a path, while the goal is still open, means that no path exists: the heap ran dry after every cell reachable from the start was closed. Every step after the first that returns True closes a new cell of the grid or shrinks the heap, so repeated steps end.

## Model

| member | source | states |
|---|---|---|
| Maze.Neighbours | main.py:425-440 | at most four positions. A position is returned exactly when it is one step away and passes `est_valide`. The order is down, right, up, left, with no repeats |
| Maze.CarveCandidates | main.py:403-409 | exactly the cells two steps away that are strictly inside the border and still walls, with no repeats |
| Maze.Labyrinth.constructor | main.py:370-377 | start is (1,1) and goal is (width-2, height-2). After generation the goal cell is Goal and the start cell is Start (unless start is the goal). The border is intact and the grid is carved. The maze is perfect: the open cells form a tree with no cycle, the goal aside when it has no open neighbour. Every open cell other than the goal is joined to the start by a walk over passable cells. So is the goal when a size is odd and both are at least 3 |
| Maze.Labyrinth.FillWalls | main.py:389-391 | every cell of the grid becomes a wall and the grid keeps its shape |
| Maze.Labyrinth.Generate | main.py:387-423 | generation ends with Start at (1,1) and Goal at (width-2, height-2). Every other open cell is Empty and is a lattice cell or a wall between two lattice cells. Every lattice cell is open. Every border cell other than start and goal is still a wall. The maze is perfect: the open cells form a tree with no cycle, the goal aside when it has no open neighbour. Every open cell other than the goal is joined to the start by a walk over passable cells. So is the goal when a size is odd and both are at least 3 |
| Maze.Carve | main.py:393-420 | the carve loop terminates. It leaves only carve-shaped Empty cells open and every lattice cell reached. The returned links form a tree over the open cells rooted at (1,1), and every adjacency between open cells is one of its links, so the open cells hold no cycle. Every open cell is joined to (1,1) by a walk over open cells |
| Maze.CarveStep | main.py:400-420 | one turn of the loop. With no candidate the top of the stack is popped and the grid is unchanged. Otherwise the candidate at index pick(k) modulo their number is pushed, it and the wall before it are opened, nothing else changes, and one wall fewer remains. The carve invariant, the tree of links, and "every adjacency between open cells is a link" are kept |
| Maze.CarvePush | main.py:411-418 | opening a candidate and the wall before it, then pushing the candidate, opens exactly those two cells, keeps the carve invariant and the tree of links with no extra adjacency, and leaves one wall fewer |
| Maze.PushLinks | main.py:411-418 | after a push every open cell still links, through adjacent open cells of decreasing depth, to (1,1); every adjacency between open cells is a link; every opened wall still has its lattice neighbours open |
| Maze.PushClosedWallLinks | main.py:413-417 | the opened wall links to the top of the stack and the candidate links to the wall, at increasing depth |
| Maze.WallStillClosed | main.py:403-417 | the wall in front of a carve candidate is still closed, so a push never opens a second way into a cell |
| Maze.PushKeepsBridged | main.py:415-416 | after a push every opened wall still has both of its lattice neighbours open |
| Maze.PushKeepsEdges | main.py:415-416 | after a push every adjacency between open cells is still a link: the new wall touches only the top of the stack and the candidate, and the candidate touches only the new wall |
| Maze.WallEdge | main.py:413-415 | the new wall's open neighbours are the top of the stack and the candidate, and each adjacency is one of the two new links |
| Maze.NextEdge | main.py:416 | the candidate's only open neighbour is the new wall, to which it links |
| Maze.WallNeighbours | main.py:413-414 | a neighbour of the wall between two lattice cells is one of them or has both coordinates even |
| Maze.EvenCellClosed | main.py:398-418 | the carve never opens a cell with both coordinates even |
| Maze.RingNotPerfect | main.py:411-418 | a 5 by 5 grid whose eight open cells form a ring is not a perfect maze |
| Maze.JoinedByLinks | main.py:400-420 | following the links from an open cell gives a walk over open cells to (1,1) |
| Maze.AllJoined | main.py:400-420 | when every open cell links back to (1,1), every open cell is joined to (1,1) |
| Maze.MarkedJoined | main.py:422-423 | marking Start and Goal keeps every open cell other than the goal joined to (1,1). When a size is odd and both are at least 3 the goal is joined too: it is a lattice cell, or it is next to one |
| Maze.GoalBeside | main.py:423 | a goal next to a lattice cell is joined to (1,1) through it |
| Maze.MarkedPerfect | main.py:422-423 | marking Start and Goal keeps the maze perfect: the goal was open, or has no open neighbour, or hangs as a leaf from its one open neighbour |
| Maze.GoalNeighbourUnique | main.py:375-376 | a goal the carve left closed has at most one open neighbour |
| Maze.OddGoalOpen | main.py:375-376 | a goal with both coordinates odd is a lattice cell, so the carve opens it |
| Maze.OpenShape | main.py:398-418 | an open cell other than (1,1) is inside the border, has an odd coordinate, and stops two cells short of the far border along an even one |
| Maze.PushKeeps | main.py:411-418 | opening a candidate and the wall before it keeps the carve invariant for the stack with the candidate pushed, and strictly shrinks the set of wall cells |
| Maze.PopKeeps | main.py:419-420 | when the top of the stack has no candidate, popping it keeps the carve invariant |
| Maze.CarveStarts | main.py:389-396 | an all-wall grid with (1,1) opened satisfies the carve invariant for the stack [(1,1)] |
| Maze.CarveEnds | main.py:400-423 | an empty stack leaves every lattice cell open. After marking Start and Goal the border cells other than start and goal are walls |
| Maze.Midpoint | main.py:413-417 | the wall between two lattice cells two steps apart is inside the grid, is carve-shaped and is not itself a lattice cell |
| Maze.LatticeReached | main.py:400-420 | a grid with (1,1) open, where every open lattice cell has its lattice neighbours open, has every lattice cell open |
| Maze.GoalIsolatedWhenEven | main.py:375-376 | with even width and height, the goal of a carved maze has no passable neighbour |
| Maze.NextToEvenGoal | main.py:398 | no neighbour of an even goal can be opened by the carve |
| AStar.Heuristic | main.py:459-460 | the Manhattan distance is 0 exactly when the positions coincide, and 1 for adjacent positions |
| AStar.HeuristicConsistent | main.py:459-460 | one step changes the heuristic by at most one |
| AStar.HeuristicAdmissible | main.py:459-460 | every walk from p to q takes at least Heuristic(p, q) steps |
| AStar.ChainOfRooted | main.py:497-500 | a rooted node's parent chain has g + 1 entries, ends at the start, and its consecutive cells are adjacent and passable |
| AStar.PathOfRooted | main.py:497-500 | the reversed parent chain is a path from the start to the node, with g + 1 cells |
| AStar.ReconstructPath | main.py:497-500 | the loop returns the parent chain of the node, reversed |
| AStar.MinExists | main.py:483 | a non-empty heap holds a node of least f, so the pop is defined |
| AStar.RelaxAll | main.py:519-532 | the neighbour loop computes the `Relax` state: each neighbour is tested in order against the best-known map as the earlier ones left it |
| AStar.RelaxBest | main.py:519-531 | over distinct neighbours, the best-known map afterwards is the one before, overridden by the child of current for each discovered neighbour |
| AStar.RelaxHeap | main.py:519-530 | over distinct neighbours, the heap gains exactly one child of current per discovered neighbour and nothing else |
| AStar.RelaxShown | main.py:519-532 | over distinct neighbours, exactly the discovered neighbours are added to the shown-open positions |
| AStar.RelaxMonotone | main.py:524-531 | relaxation forgets no best-known position and never raises a best-known g. A position it adds or replaces gets g = current.g + 1 |
| AStar.RelaxSound | main.py:519-531 | relaxing the passable neighbours of a rooted node keeps every heap and best-known node rooted at the start |
| AStar.Efficiency | main.py:514 | the ratio times the closed count (taken as at least one) is 100 times the path's cell count |
| AStar.EvenMazeGoalUnreached | main.py:375-376 | in a carved maze of even size, no node rooted at (1,1) stands on the goal |
| AStar.SeedConsistent | main.py:543-555 | the first step seeds a consistent state: root with g = 0 and f = h, nothing closed |
| AStar.FreshConsistent | main.py:443-457 | a new agent is consistent and not initialised |
| AStar.AfterPopConsistent | main.py:483-541 | every step after the pop keeps the state consistent |
| AStar.AfterPopStale | main.py:485-486 | popping a position that is already closed only removes that entry from the heap, and the step returns True |
| AStar.AfterPopCloses | main.py:488-489 | an expanding step closes exactly the popped position in both closed sets. No step removes a closed or shown-open position. The step returns False exactly when it closes the goal |
| AStar.AfterPopGoal | main.py:495-516 | at the goal, the step stops with a path from start to goal of g + 1 cells, records its length as g and returns False |
| AStar.PopShortest | main.py:483-492 | while the goal is open, a popped node of least f on an open position has g below the length of every walk from the start to its position |
| AStar.AfterPopGoalShortest | main.py:495-516 | closing the goal with a node of least f records a path no longer than any walk from start to goal |
| AStar.SeedOptimality | main.py:543-555 | the first step sets up the A* invariant: the start is best-known with g = 0 and its node is on the heap |
| AStar.StaleOptimality | main.py:485-486 | dropping a stale heap entry keeps the A* invariant |
| AStar.ExpandKeeps | main.py:488-541 | expanding a node of least f keeps the A* invariant: its g is the shortest distance, its passable neighbours are relaxed, and every open best-known node stays on the heap |
| AStar.AfterPopOptimality | main.py:478-541 | every step after a pop of least f keeps the A* invariant, in each of the three cases |
| AStar.ExhaustedUnreachable | main.py:480-481 | when the heap is empty and the goal is still open, no walk over passable cells leads from the start to the goal |
| AStar.ExhaustedClosed | main.py:480-481 | when the heap is empty and the goal is open, every cell of a walk from the start is closed |
| AStar.AfterPopProgress | main.py:483-541 | a step after a pop either finishes the search and returns False, or returns True and closes a new cell of the grid, or closes nothing and shrinks the heap |
| AStar.HeuristicTriangle | main.py:459-460 | the Manhattan distance obeys the triangle inequality |
| AStar.AfterPopExpand | main.py:519-541 | the heap, best-known map and shown-open set gain exactly the discovered neighbours' children. The counters become the closed count and the heap size |
| AStar.ClearedConsistent | main.py:462-476 | a reset keeps the state consistent, keeps the hidden closed set, and clears the flag and the path |
| AStar.GoalClosedNeverFinishes | main.py:483-489 | once the goal is in the hidden closed set, no sequence of steps finishes the search |
| AStar.ResetAfterSolveNeverFinishes | main.py:462-476 | after a reset that follows a solved search, no sequence of steps finishes the search again |
| AStar.AfterPopKeepsGoalOpen | main.py:488-516 | each step keeps "goal closed implies finished" and never unsets the finished flag |
| AStar.RunKeepsGoalOpen | main.py:478-541 | every sequence of steps keeps "goal closed implies finished" |
| AStar.RestartKeepsGoalOpen | main.py:543-555 | after a full restart, no sequence of steps closes the goal without finishing |
| AStar.RestartSeedsNewSearch | main.py:543-555 | after a full restart, the first step seeds a consistent search with nothing closed and the root alone on the heap |
| AStar.EvenMazeNeverFinishes | main.py:480-481 | in a carved maze of even size, no step finishes the search and every step returns True |
| AStar.Advance | main.py:478-555 | a step on the state value seeds, stops on an empty heap or a finished search, or pops a node of least f and continues as `AfterPop` says |
| AStar.Agent.constructor | main.py:443-457 | a new agent over a generated maze: not initialised, nothing shown, no path, zero statistics |
| AStar.Agent.Reset | main.py:462-476 | public sets, path, flag and statistics are cleared. The hidden heap, closed set and best-known map are kept |
| AStar.Agent.Restart | main.py:462-476 | the corrected reset: the whole state returns to that of a new agent |
| AStar.Agent.Step | main.py:478-555 | the first call seeds the search and returns True. An empty heap or a finished search returns False and changes nothing. Otherwise a node of least f is popped and the fields become `AfterPop`'s state. The state stays consistent and keeps the A* invariant, so a finished search holds a shortest path. False without a path, with the goal still open, means no path exists. Every later call that returns True makes progress |

## Left out

- Rendering, input, menus, particles and visual effects, including the effect calls inside `a_star_pas_a_pas`: these are presentation only.
- Wall-clock timing: `temps_debut` and `temps_execution` come from a clock.
- Layout: `taille_cellule` and the offsets are screen geometry.
- The display-only cell kinds: the grid never holds them.
- Python's `random`: the oracle `pick` stands for it.
- `heapq`'s array layout and its tie-breaking between equal f: the model pops some node of least f.
- Sizes below 2 × 2: the source fails with an index error there, and the constructor requires at least 2 × 2.
- Maze.Carve: the loop works on a grid value, not on the field in place. `Generate` assigns the result to `grid` once the marks are set.
- AStar.Advance: `Agent.Step` runs its work on a copy of the fields and stores the result back. The source updates the fields one by one.
- AStar.Efficiency: a real quotient stands for the float. Rounding is not modelled.

## Findings

| source | as written | input that shows it | evidently intended | confidence | as-written member | corrected member |
|---|---|---|---|---|---|---|
| main.py:462-476 | `reinitialiser` clears the public state but keeps `_liste_ouverte`, `_liste_fermee` and `_noeuds_ouverts`. The auto-play button and the space key (main.py:929-931, 955-956) call it, and auto-play then keeps stepping (main.py:1045-1049) | solve a maze with a reachable goal one step at a time, with the 's' key (main.py:957-960) or the step button (main.py:934-937), then start auto-play with the space key. The goal is still in the hidden closed set, so no later step finishes the search or reports a path; auto-play stops without a victory once the heap is empty. A solve by auto-play does not show it: it moves to the victory screen (main.py:1053-1055), which leads only back to the menu (main.py:1111-1115), and the game screen is entered again only through a new game (main.py:732) | a reset starts a new search from the start cell, so it can solve the maze again | high, not executed | AStar.ResetAfterSolveNeverFinishes | AStar.RestartKeepsGoalOpen |
