/** The randomized depth-first backtracking maze generator. A stack of visited
    cells is grown by moving to a random open neighbour, carving the wall pair
    between the two cells; a cell without open neighbours is popped onto the
    closed list. When the stack is empty every cell is closed and the carved
    passages form a spanning tree of the grid. */
module MazeMaker {
  import opened Grid
  import opened Walls
  import opened Neighbors

  /** The integer clamp of the requested size to the range 1 to 100. */
  function ClampSize(input: int): (size: int)
    ensures 1 <= size <= 100
    ensures 1 <= input <= 100 ==> size == input
    ensures input < 1 ==> size == 1
    ensures input > 100 ==> size == 100
  {
    var capped := if input < 100 then input else 100;
    if 1 < capped then capped else 1
  }

  /** One advance of the walk: out of cell `from` through its wall `dir`. */
  datatype Carve = Carve(from: Cell, dir: Direction)

  /** The cell an advance arrives at. */
  function Target(e: Carve): Cell {
    Step(e.from, e.dir)
  }

  /** One wall flag: the side `dir` of cell `cell`. */
  datatype Side = Side(cell: Cell, dir: Direction)

  /** The two flags an advance clears: the wall it leaves through and the
      facing wall of the cell it enters. */
  function Sides(e: Carve): set<Side> {
    {Side(e.from, e.dir), Side(Target(e), Opposite(e.dir))}
  }

  /** All flags cleared by a sequence of advances. */
  function Carved(tree: seq<Carve>): set<Side> {
    if tree == [] then {} else Carved(tree[..|tree| - 1]) + Sides(tree[|tree| - 1])
  }

  /** A flag is cleared by a sequence of advances exactly when one of them
      clears it. */
  lemma {:induction false} CarvedMembers(tree: seq<Carve>)
    ensures forall s :: s in Carved(tree) <==> exists i :: 0 <= i < |tree| && s in Sides(tree[i])
  {
    if tree != [] {
      var init := tree[..|tree| - 1];
      CarvedMembers(init);
      forall s | s in Carved(tree) ensures exists i :: 0 <= i < |tree| && s in Sides(tree[i]) {
        if s in Carved(init) {
          var i :| 0 <= i < |init| && s in Sides(init[i]);
          assert tree[i] == init[i];
        } else {
          assert s in Sides(tree[|tree| - 1]);
        }
      }
      forall s | (exists i :: 0 <= i < |tree| && s in Sides(tree[i])) ensures s in Carved(tree) {
        var i :| 0 <= i < |tree| && s in Sides(tree[i]);
        if i < |tree| - 1 {
          assert init[i] == tree[i];
        }
      }
    }
  }

  /** Both cells of a carved passage lose their facing walls: the side d of
      c is cleared exactly when the side of its neighbour that faces back is. */
  lemma FacingCarved(tree: seq<Carve>, c: Cell, d: Direction)
    ensures Side(c, d) in Carved(tree) <==> Side(Step(c, d), Opposite(d)) in Carved(tree)
  {
    CarvedMembers(tree);
    OppositeInvolution(d);
    if Side(c, d) in Carved(tree) {
      var i :| 0 <= i < |tree| && Side(c, d) in Sides(tree[i]);
      OppositeInvolution(tree[i].dir);
      assert Side(Step(c, d), Opposite(d)) in Sides(tree[i]);
    }
    if Side(Step(c, d), Opposite(d)) in Carved(tree) {
      var i :| 0 <= i < |tree| && Side(Step(c, d), Opposite(d)) in Sides(tree[i]);
      OppositeInvolution(tree[i].dir);
      assert Side(c, d) in Sides(tree[i]);
    }
  }

  /** The table shows exactly the walls not in `removed`. */
  ghost predicate WallsShow(walls: array3<bool>, size: int, removed: set<Side>)
    reads walls
  {
    && walls.Length0 == size && walls.Length1 == size && walls.Length2 == 4
    && forall x, y, d | InsideGrid(size, x, y) :: walls[y, x, Index(d)] == (Side(Cell(x, y), d) !in removed)
  }

  /** The advances form a tree over the cells in visiting order: advance i
      enters order[i + 1], the first time that cell is reached, from a cell
      reached before it. */
  ghost predicate TreeOrder(order: seq<Cell>, tree: seq<Carve>) {
    && |order| == |tree| + 1
    && forall i :: 0 <= i < |tree| ==> tree[i].from in order[..i + 1] && Target(tree[i]) == order[i + 1]
  }

  /** No two advances join the same pair of cells, in either direction:
      each one enters a cell reached for the first time. */
  lemma DistinctEdges(order: seq<Cell>, tree: seq<Carve>)
    requires TreeOrder(order, tree) && Distinct(order)
    ensures forall i, j :: 0 <= i < j < |tree| ==> tree[i] != tree[j]
    ensures forall i, j :: 0 <= i < |tree| && 0 <= j < |tree| ==> tree[j] != Carve(Target(tree[i]), Opposite(tree[i].dir))
  {
    forall i, j | 0 <= i < j < |tree| ensures tree[i] != tree[j] {
      assert Target(tree[i]) == order[i + 1] && Target(tree[j]) == order[j + 1];
    }
    forall i, j | 0 <= i < |tree| && 0 <= j < |tree| ensures tree[j] != Carve(Target(tree[i]), Opposite(tree[i].dir)) {
      if tree[j] == Carve(Target(tree[i]), Opposite(tree[i].dir)) {
        ReversedAdvance(order, tree, i, j);
      }
    }
  }

  /** An advance j that takes advance i backwards enters the cell advance i
      starts from, which was reached no later than step i. */
  lemma ReversedAdvance(order: seq<Cell>, tree: seq<Carve>, i: int, j: int)
    requires TreeOrder(order, tree)
    requires 0 <= i < |tree| && 0 <= j < |tree|
    requires tree[j] == Carve(Target(tree[i]), Opposite(tree[i].dir))
    ensures exists k :: 0 <= k <= i && order[j + 1] == order[k]
  {
    OppositeInvolution(tree[i].dir);
    assert Target(tree[j]) == tree[i].from;
    var k :| 0 <= k < i + 1 && order[..i + 1][k] == tree[i].from;
    assert order[j + 1] == order[k];
  }

  /** The invariant of the walk: the stack and the closed list are disjoint,
      duplicate-free lists of grid cells; together they hold exactly the cells
      reached so far; consecutive stack entries are adjacent; the advances form
      a tree over the reached cells; and every closed cell has no in-grid
      neighbour that has not been reached. */
  ghost predicate Search(size: int, start: Cell, visited: seq<Cell>, closed: seq<Cell>,
                         order: seq<Cell>, tree: seq<Carve>)
  {
    && Distinct(visited) && Distinct(closed) && Distinct(order)
    && (forall c :: c in visited ==> c !in closed)
    && (forall c :: c in order <==> c in visited || c in closed)
    && (forall c :: c in order ==> InsideGrid(size, c.x, c.y))
    && (forall i :: 0 < i < |visited| ==> Adjacent(visited[i - 1], visited[i]))
    && TreeOrder(order, tree) && order[0] == start
    && (forall c, d :: c in closed && InsideGrid(size, Step(c, d).x, Step(c, d).y) ==>
          Step(c, d) in visited || Step(c, d) in closed)
  }

  /** The walk starts with the start cell alone on the stack. */
  lemma SearchInit(size: int, start: Cell)
    requires InsideGrid(size, start.x, start.y)
    ensures Search(size, start, [start], [], [start], [])
  {
  }

  /** Backing up from a dead end (the top of the stack has no open
      neighbour) moves that cell to the closed list and keeps the invariant. */
  lemma Backtrack(size: int, start: Cell, visited: seq<Cell>, closed: seq<Cell>,
                  order: seq<Cell>, tree: seq<Carve>)
    requires Search(size, start, visited, closed, order, tree)
    requires |visited| > 0
    requires OpenNeighbors(size, visited[|visited| - 1], visited, closed) == []
    ensures Search(size, start, visited[..|visited| - 1], closed + [visited[|visited| - 1]], order, tree)
  {
    var cell, rest := visited[|visited| - 1], visited[..|visited| - 1];
    assert visited == rest + [cell];
    OpenNeighborsSpec(size, cell, visited, closed);
    var closed' := closed + [cell];
    forall c, d | c in closed' && InsideGrid(size, Step(c, d).x, Step(c, d).y)
      ensures Step(c, d) in rest || Step(c, d) in closed'
    {
      if c == cell {
        assert !Open(size, Step(c, d), visited, closed);
      }
    }
  }

  /** Advancing from the top of the stack to the open neighbour at index
      `choice` pushes that cell, records the advance, and keeps the invariant. */
  lemma Advance(size: int, start: Cell, visited: seq<Cell>, closed: seq<Cell>,
                order: seq<Cell>, tree: seq<Carve>, choice: int)
    requires Search(size, start, visited, closed, order, tree)
    requires |visited| > 0
    requires 0 <= choice < |OpenNeighbors(size, visited[|visited| - 1], visited, closed)|
    ensures var cell := visited[|visited| - 1];
      var n := OpenNeighbors(size, cell, visited, closed)[choice];
      Search(size, start, visited + [n.cell], closed, order + [n.cell], tree + [Carve(cell, n.dir)])
  {
    var cell := visited[|visited| - 1];
    var n := OpenNeighbors(size, cell, visited, closed)[choice];
    ChosenNeighborIsOpen(size, cell, visited, closed, choice);
    assert n.cell == Step(cell, n.dir) && Open(size, n.cell, visited, closed);
    StepIsAdjacent(cell, n.dir);
    var order', tree' := order + [n.cell], tree + [Carve(cell, n.dir)];
    forall i | 0 <= i < |tree'| ensures tree'[i].from in order'[..i + 1] && Target(tree'[i]) == order'[i + 1] {
      if i < |tree| {
        assert order'[..i + 1] == order[..i + 1];
      } else {
        assert cell in order;
        assert order'[..i + 1] == order;
      }
    }
  }

  /** While the walk runs, the reached cells and the closed cells each number
      at most size * size. */
  lemma SearchBound(size: nat, start: Cell, visited: seq<Cell>, closed: seq<Cell>,
                    order: seq<Cell>, tree: seq<Carve>)
    requires Search(size, start, visited, closed, order, tree)
    ensures |order| <= size * size && |closed| <= size * size
  {
    DistinctBound(order, AllCells(size));
    DistinctBound(closed, AllCells(size));
  }

  /** Once the stack is empty every grid cell has been reached and closed. */
  lemma SearchDone(size: nat, start: Cell, closed: seq<Cell>, order: seq<Cell>, tree: seq<Carve>)
    requires Search(size, start, [], closed, order, tree)
    ensures forall c: Cell :: c in closed <==> InsideGrid(size, c.x, c.y)
    ensures forall c: Cell :: c in order <==> InsideGrid(size, c.x, c.y)
    ensures |closed| == size * size && |order| == size * size
    ensures Distinct(closed) && Distinct(order) && TreeOrder(order, tree) && order[0] == start
  {
    FillsGrid(size, closed, start);
    DistinctBound(closed, AllCells(size));
    DistinctBound(order, AllCells(size));
  }

  /** What a walk leaves behind: the closed list, the cells in the order
      they were reached, the advances, and the number of iterations. */
  datatype Outcome = Outcome(closed: seq<Cell>, order: seq<Cell>, tree: seq<Carve>, iterations: nat)

  /** The walk as a function of the draws. From a state of the loop it
      repeats the loop's step until the stack is empty: the top cell backs up
      when it has no open neighbour, and otherwise advances to the open
      neighbour at index choose(steps, n) of its n open neighbours. The walk
      also stops once steps reaches 2 * size * size; from the start cell
      the stack empties before that (Explore). */
  ghost function Run(size: nat, choose: (nat, nat) -> nat, visited: seq<Cell>, closed: seq<Cell>,
                     order: seq<Cell>, tree: seq<Carve>, steps: nat): Outcome
    requires forall step: nat, n: nat :: 0 < n ==> choose(step, n) < n
    decreases 2 * (size * size) - steps
  {
    if |visited| == 0 || 2 * (size * size) <= steps then Outcome(closed, order, tree, steps)
    else
      var cell := visited[|visited| - 1];
      var neighbors := OpenNeighbors(size, cell, visited, closed);
      if |neighbors| == 0 then
        Run(size, choose, visited[..|visited| - 1], closed + [cell], order, tree, steps + 1)
      else
        var n := neighbors[choose(steps, |neighbors|)];
        Run(size, choose, visited + [n.cell], closed, order + [n.cell], tree + [Carve(cell, n.dir)], steps + 1)
  }

  /** The walk from the start cell alone on the stack, for the given draws. */
  ghost function Generate(size: nat, start: Cell, choose: (nat, nat) -> nat): Outcome
    requires forall step: nat, n: nat :: 0 < n ==> choose(step, n) < n
  {
    Run(size, choose, [start], [], [start], [], 0)
  }

  /** Backing up is one step of the walk: from a dead end, the walk from
      the state before the step is the walk from the state after it. */
  lemma RunBacktrack(size: nat, choose: (nat, nat) -> nat, visited: seq<Cell>, closed: seq<Cell>,
                     order: seq<Cell>, tree: seq<Carve>, steps: nat)
    requires forall step: nat, n: nat :: 0 < n ==> choose(step, n) < n
    requires |visited| > 0 && steps < 2 * (size * size)
    requires OpenNeighbors(size, visited[|visited| - 1], visited, closed) == []
    ensures Run(size, choose, visited, closed, order, tree, steps)
         == Run(size, choose, visited[..|visited| - 1], closed + [visited[|visited| - 1]], order, tree, steps + 1)
  {
  }

  /** Advancing is one step of the walk: the walk from the state before the
      step is the walk from the state after moving to the open neighbour at
      the drawn index. */
  lemma RunAdvance(size: nat, choose: (nat, nat) -> nat, visited: seq<Cell>, closed: seq<Cell>,
                   order: seq<Cell>, tree: seq<Carve>, steps: nat)
    requires forall step: nat, n: nat :: 0 < n ==> choose(step, n) < n
    requires |visited| > 0 && steps < 2 * (size * size)
    requires OpenNeighbors(size, visited[|visited| - 1], visited, closed) != []
    ensures var cell := visited[|visited| - 1];
      var neighbors := OpenNeighbors(size, cell, visited, closed);
      var n := neighbors[choose(steps, |neighbors|)];
      Run(size, choose, visited, closed, order, tree, steps)
        == Run(size, choose, visited + [n.cell], closed, order + [n.cell], tree + [Carve(cell, n.dir)], steps + 1)
  {
  }

  /** With the stack empty the walk is over: its outcome is the state. */
  lemma RunDone(size: nat, choose: (nat, nat) -> nat, closed: seq<Cell>,
                order: seq<Cell>, tree: seq<Carve>, steps: nat)
    requires forall step: nat, n: nat :: 0 < n ==> choose(step, n) < n
    ensures Run(size, choose, [], closed, order, tree, steps) == Outcome(closed, order, tree, steps)
  {
  }

  /** The walk only adds to the reached cells, the closed cells and the
      advances, and when the iteration count starts as the number of pushes
      after the first plus the number of pops, it ends so. */
  lemma {:induction false} RunGrows(size: nat, choose: (nat, nat) -> nat, visited: seq<Cell>, closed: seq<Cell>,
                                    order: seq<Cell>, tree: seq<Carve>, steps: nat)
    requires forall step: nat, n: nat :: 0 < n ==> choose(step, n) < n
    ensures var r := Run(size, choose, visited, closed, order, tree, steps);
      && order <= r.order && tree <= r.tree && closed <= r.closed
      && (steps == |order| - 1 + |closed| ==> r.iterations == |r.order| - 1 + |r.closed|)
    decreases 2 * (size * size) - steps
  {
    if |visited| > 0 && steps < 2 * (size * size) {
      var cell := visited[|visited| - 1];
      var neighbors := OpenNeighbors(size, cell, visited, closed);
      if |neighbors| == 0 {
        RunGrows(size, choose, visited[..|visited| - 1], closed + [cell], order, tree, steps + 1);
      } else {
        var n := neighbors[choose(steps, |neighbors|)];
        RunGrows(size, choose, visited + [n.cell], closed, order + [n.cell], tree + [Carve(cell, n.dir)], steps + 1);
      }
    }
  }

  /** A grid of positive size has cells. */
  lemma PositiveArea(size: nat)
    requires 0 < size
    ensures 0 < size * size
  {
  }

  /** On a grid larger than one cell the start cell has an open neighbour,
      and the first passage of the maze leaves the start cell in the
      direction drawn first: entry choose(0, n) of its n open neighbours. */
  lemma FirstAdvance(size: nat, start: Cell, choose: (nat, nat) -> nat)
    requires 1 < size
    requires InsideGrid(size, start.x, start.y)
    requires forall step: nat, n: nat :: 0 < n ==> choose(step, n) < n
    ensures var neighbors := OpenNeighbors(size, start, [start], []);
      && |neighbors| > 0
      && |Generate(size, start, choose).tree| > 0
      && Generate(size, start, choose).tree[0] == Carve(start, neighbors[choose(0, |neighbors|)].dir)
  {
    var neighbors := OpenNeighbors(size, start, [start], []);
    var d := if start.x + 1 < size then Right else Left;
    OpenNeighborsSpec(size, start, [start], []);
    assert Candidate(d, Step(start, d)) in neighbors;
    PositiveArea(size);
    var n := neighbors[choose(0, |neighbors|)];
    RunAdvance(size, choose, [start], [], [start], [], 0);
    RunGrows(size, choose, [start] + [n.cell], [], [start] + [n.cell], [] + [Carve(start, n.dir)], 1);
  }

  /** On a 2 x 2 grid the top-left corner, alone on the stack, has two open
      neighbours, listed right first and bottom second. */
  lemma TwoByTwoNeighbors()
    ensures OpenNeighbors(2, Cell(0, 0), [Cell(0, 0)], []) == [Candidate(Right, Cell(1, 0)), Candidate(Bottom, Cell(0, 1))]
  {
    OpenNeighborsInKeyOrder(2, Cell(0, 0), [Cell(0, 0)], []);
  }

  /** On a 2 x 2 grid started in the top-left corner, the first draw picks
      between its two open neighbours: index 0 carves to the right, clearing
      the right wall of (0, 0) and the left wall of (1, 0); index 1 carves
      downwards, clearing the bottom wall of (0, 0) and the top wall of (0, 1). */
  lemma TwoByTwoFirstPassage(choose: (nat, nat) -> nat)
    requires forall step: nat, n: nat :: 0 < n ==> choose(step, n) < n
    ensures var g := Generate(2, Cell(0, 0), choose);
      && |g.tree| > 0
      && (choose(0, 2) == 0 ==>
            g.tree[0] == Carve(Cell(0, 0), Right) && Sides(g.tree[0]) == {Side(Cell(0, 0), Right), Side(Cell(1, 0), Left)})
      && (choose(0, 2) == 1 ==>
            g.tree[0] == Carve(Cell(0, 0), Bottom) && Sides(g.tree[0]) == {Side(Cell(0, 0), Bottom), Side(Cell(0, 1), Top)})
  {
    TwoByTwoNeighbors();
    FirstAdvance(2, Cell(0, 0), choose);
  }

  /** Clearing the two flags of one more advance. */
  lemma CarvedSnoc(tree: seq<Carve>, e: Carve)
    ensures Carved(tree + [e]) == Carved(tree) + Sides(e)
  {
    assert (tree + [e])[..|tree|] == tree;
  }

  /** `moves` is a walk from a to b: each advance starts where the previous
      one arrived. */
  ghost predicate Walk(moves: seq<Carve>, a: Cell, b: Cell)
    decreases |moves|
  {
    if moves == [] then a == b else moves[0].from == a && Walk(moves[1..], Target(moves[0]), b)
  }

  /** A walk can be continued by an advance out of its last cell. */
  lemma {:induction false} WalkExtend(moves: seq<Carve>, a: Cell, b: Cell, e: Carve)
    requires Walk(moves, a, b) && e.from == b
    ensures Walk(moves + [e], a, Target(e))
    decreases |moves|
  {
    if moves == [] {
      assert [e][1..] == [];
    } else {
      assert (moves + [e])[1..] == moves[1..] + [e];
      WalkExtend(moves[1..], Target(moves[0]), b, e);
    }
  }

  /** Every cell reached by the walk is reached from the start cell along
      advances of the tree. */
  lemma {:induction false} TreeReaches(order: seq<Cell>, tree: seq<Carve>, k: int)
    requires TreeOrder(order, tree) && 0 <= k < |order|
    ensures exists moves :: Walk(moves, order[0], order[k]) && forall i :: 0 <= i < |moves| ==> moves[i] in tree
    decreases k
  {
    if k == 0 {
      assert Walk([], order[0], order[0]);
    } else {
      var e := tree[k - 1];
      assert e.from in order[..k];
      var j :| 0 <= j < k && order[..k][j] == e.from;
      TreeReaches(order, tree, j);
      var moves :| Walk(moves, order[0], order[j]) && forall i :: 0 <= i < |moves| ==> moves[i] in tree;
      WalkExtend(moves, order[0], order[j], e);
      assert forall i :: 0 <= i < |moves + [e]| ==> (moves + [e])[i] in tree;
    }
  }

  /** An open passage of the table: both cells are in the grid and both wall
      flags between them are cleared. */
  ghost predicate Passage(walls: array3<bool>, size: int, e: Carve)
    reads walls
  {
    var t := Target(e);
    && walls.Length0 == size && walls.Length1 == size && walls.Length2 == 4
    && InsideGrid(size, e.from.x, e.from.y) && InsideGrid(size, t.x, t.y)
    && !walls[e.from.y, e.from.x, Index(e.dir)] && !walls[t.y, t.x, Index(Opposite(e.dir))]
  }

  /** When the tree spans the grid and at least its flags are cleared, every
      cell can be reached from the first cell through open passages. */
  lemma MazeConnected(walls: array3<bool>, size: nat, start: Cell, order: seq<Cell>, tree: seq<Carve>, removed: set<Side>)
    requires WallsShow(walls, size, removed) && Carved(tree) <= removed
    requires TreeOrder(order, tree) && order[0] == start
    requires forall c: Cell :: c in order <==> InsideGrid(size, c.x, c.y)
    ensures forall c: Cell :: InsideGrid(size, c.x, c.y) ==>
      exists moves :: Walk(moves, start, c) && forall i :: 0 <= i < |moves| ==> Passage(walls, size, moves[i])
  {
    CarvedMembers(tree);
    forall c: Cell | InsideGrid(size, c.x, c.y)
      ensures exists moves :: Walk(moves, start, c) && forall i :: 0 <= i < |moves| ==> Passage(walls, size, moves[i])
    {
      var k :| 0 <= k < |order| && order[k] == c;
      TreeReaches(order, tree, k);
      var moves :| Walk(moves, order[0], c) && forall i :: 0 <= i < |moves| ==> moves[i] in tree;
      forall i | 0 <= i < |moves| ensures Passage(walls, size, moves[i]) {
        var j :| 0 <= j < |tree| && tree[j] == moves[i];
        assert tree[j].from in order;
        assert Target(tree[j]) == order[j + 1];
        assert Sides(tree[j]) <= Carved(tree);
      }
    }
  }

  /** Every flag the tree clears lies between two grid cells, so the tree
      opens no wall on the border of the grid. */
  lemma TreeInsideGrid(size: int, order: seq<Cell>, tree: seq<Carve>)
    requires TreeOrder(order, tree)
    requires forall c: Cell :: c in order ==> InsideGrid(size, c.x, c.y)
    ensures forall s :: s in Carved(tree) ==>
      InsideGrid(size, s.cell.x, s.cell.y) && InsideGrid(size, Step(s.cell, s.dir).x, Step(s.cell, s.dir).y)
  {
    CarvedMembers(tree);
    forall s | s in Carved(tree)
      ensures InsideGrid(size, s.cell.x, s.cell.y) && InsideGrid(size, Step(s.cell, s.dir).x, Step(s.cell, s.dir).y)
    {
      var i :| 0 <= i < |tree| && s in Sides(tree[i]);
      assert tree[i].from in order && Target(tree[i]) in order;
      OppositeInvolution(tree[i].dir);
    }
  }

  /** One open passage between two grid cells is an advance of the tree or
      an advance taken backwards, when every cleared flag is one the tree
      clears or one on the border of the grid. */
  lemma TreePassage(walls: array3<bool>, size: int, tree: seq<Carve>, removed: set<Side>, e: Carve)
    requires WallsShow(walls, size, removed)
    requires forall s :: s in removed ==>
      s in Carved(tree) || !InsideGrid(size, Step(s.cell, s.dir).x, Step(s.cell, s.dir).y)
    requires Passage(walls, size, e)
    ensures e in tree || Carve(Target(e), Opposite(e.dir)) in tree
  {
    var s := Side(e.from, e.dir);
    assert Step(s.cell, s.dir) == Target(e);
    assert s in Carved(tree);
    CarvedMembers(tree);
    var i :| 0 <= i < |tree| && s in Sides(tree[i]);
    if s != Side(tree[i].from, tree[i].dir) {
      OppositeInvolution(tree[i].dir);
      assert tree[i] == Carve(Target(e), Opposite(e.dir));
    }
  }

  /** Only the tree's passages are open: when every cleared flag is one the
      tree clears or one on the border of the grid, every open passage is an
      advance of the tree or an advance taken backwards. */
  lemma OnlyTreePassages(walls: array3<bool>, size: int, tree: seq<Carve>, removed: set<Side>)
    requires WallsShow(walls, size, removed)
    requires forall s :: s in removed ==>
      s in Carved(tree) || !InsideGrid(size, Step(s.cell, s.dir).x, Step(s.cell, s.dir).y)
    ensures forall e :: Passage(walls, size, e) ==> e in tree || Carve(Target(e), Opposite(e.dir)) in tree
  {
    forall e | Passage(walls, size, e) ensures e in tree || Carve(Target(e), Opposite(e.dir)) in tree {
      TreePassage(walls, size, tree, removed, e);
    }
  }

  /** Every wall between two grid cells of the finished maze shows on both
      sides or on neither: side d of c and the facing side of its neighbour
      carry the same flag. */
  lemma TwoSidedWalls(walls: array3<bool>, size: int, tree: seq<Carve>, entranceRow: int, exitRow: int,
                      c: Cell, d: Direction)
    requires WallsShow(walls, size, Carved(tree) + {Side(Cell(0, entranceRow), Left)} + {Side(Cell(size - 1, exitRow), Right)})
    requires InsideGrid(size, c.x, c.y) && InsideGrid(size, Step(c, d).x, Step(c, d).y)
    ensures walls[c.y, c.x, Index(d)] == walls[Step(c, d).y, Step(c, d).x, Index(Opposite(d))]
  {
    FacingCarved(tree, c, d);
  }

  /** One wall on the border of the finished maze is open exactly when it is
      the entrance or the exit. */
  lemma BorderSide(walls: array3<bool>, size: int, order: seq<Cell>, tree: seq<Carve>, entranceRow: int, exitRow: int,
                   c: Cell, d: Direction)
    requires WallsShow(walls, size, Carved(tree) + {Side(Cell(0, entranceRow), Left)} + {Side(Cell(size - 1, exitRow), Right)})
    requires TreeOrder(order, tree)
    requires forall c: Cell :: c in order ==> InsideGrid(size, c.x, c.y)
    requires InsideGrid(size, c.x, c.y) && !InsideGrid(size, Step(c, d).x, Step(c, d).y)
    ensures walls[c.y, c.x, Index(d)] <==> Side(c, d) != Side(Cell(0, entranceRow), Left) && Side(c, d) != Side(Cell(size - 1, exitRow), Right)
  {
    TreeInsideGrid(size, order, tree);
  }

  /** The border cell by cell: in the first column only the entrance row
      lacks its left wall, in the last column only the exit row lacks its
      right wall, and the top and bottom rows keep their outer walls. */
  lemma BorderWalls(walls: array3<bool>, size: int, order: seq<Cell>, tree: seq<Carve>, entranceRow: int, exitRow: int,
                    c: Cell)
    requires WallsShow(walls, size, Carved(tree) + {Side(Cell(0, entranceRow), Left)} + {Side(Cell(size - 1, exitRow), Right)})
    requires TreeOrder(order, tree)
    requires forall c: Cell :: c in order ==> InsideGrid(size, c.x, c.y)
    requires InsideGrid(size, c.x, c.y)
    ensures c.x == 0 ==> (walls[c.y, c.x, Index(Left)] <==> c.y != entranceRow)
    ensures c.x == size - 1 ==> (walls[c.y, c.x, Index(Right)] <==> c.y != exitRow)
    ensures c.y == 0 ==> walls[c.y, c.x, Index(Top)]
    ensures c.y == size - 1 ==> walls[c.y, c.x, Index(Bottom)]
  {
    LeavesGrid(size, c, Left);
    LeavesGrid(size, c, Right);
    LeavesGrid(size, c, Top);
    LeavesGrid(size, c, Bottom);
    if c.x == 0 {
      BorderSide(walls, size, order, tree, entranceRow, exitRow, c, Left);
    }
    if c.x == size - 1 {
      BorderSide(walls, size, order, tree, entranceRow, exitRow, c, Right);
    }
    if c.y == 0 {
      BorderSide(walls, size, order, tree, entranceRow, exitRow, c, Top);
    }
    if c.y == size - 1 {
      BorderSide(walls, size, order, tree, entranceRow, exitRow, c, Bottom);
    }
  }

  /** RemoveCellEdge on the abstract view: once the flag of side `edge` of
      cell (x, y) is cleared, the table shows exactly the walls not in
      `removed` and not that side. */
  method ClearSide(walls: array3<bool>, size: int, ghost removed: set<Side>, x: int, y: int, edge: Direction)
    requires WallsShow(walls, size, removed)
    requires InsideGrid(size, x, y)
    modifies walls
    ensures WallsShow(walls, size, removed + {Side(Cell(x, y), edge)})
  {
    RemoveCellEdge(walls, x, y, edge);
  }

  /** Carves the passage of one advance: clears the wall of e.from facing
      e.dir and the facing wall of the cell entered. */
  method CarvePassage(walls: array3<bool>, size: int, ghost tree: seq<Carve>, e: Carve)
    requires WallsShow(walls, size, Carved(tree))
    requires InsideGrid(size, e.from.x, e.from.y) && InsideGrid(size, Target(e).x, Target(e).y)
    modifies walls
    ensures WallsShow(walls, size, Carved(tree + [e]))
  {
    CarvedSnoc(tree, e);
    var nextCell := Target(e);
    ClearSide(walls, size, Carved(tree), e.from.x, e.from.y, e.dir);
    ClearSide(walls, size, Carved(tree) + {Side(e.from, e.dir)}, nextCell.x, nextCell.y, Opposite(e.dir));
  }

  /** Opens the entrance, the left wall of row `entranceRow` in the first
      column, and the exit, the right wall of row `exitRow` in the last
      column. */
  method OpenEntranceAndExit(walls: array3<bool>, size: nat, ghost removed: set<Side>, entranceRow: int, exitRow: int)
    requires WallsShow(walls, size, removed)
    requires 1 <= size && 0 <= entranceRow < size && 0 <= exitRow < size
    modifies walls
    ensures WallsShow(walls, size, removed + {Side(Cell(0, entranceRow), Left)} + {Side(Cell(size - 1, exitRow), Right)})
  {
    ClearSide(walls, size, removed, 0, entranceRow, Left);
    ClearSide(walls, size, removed + {Side(Cell(0, entranceRow), Left)}, size - 1, exitRow, Right);
  }

  /** The end of the walk: opens the entrance and the exit. Afterwards the
      table shows exactly the walls cleared neither by the tree nor by these
      two, and every cell is reachable from the first cell of `order` through
      open passages. */
  method CarveEntranceAndExit(walls: array3<bool>, size: nat, ghost start: Cell, ghost order: seq<Cell>,
                              ghost tree: seq<Carve>, entranceRow: int, exitRow: int)
    requires WallsShow(walls, size, Carved(tree))
    requires TreeOrder(order, tree) && order[0] == start
    requires forall c: Cell :: c in order <==> InsideGrid(size, c.x, c.y)
    requires 1 <= size && 0 <= entranceRow < size && 0 <= exitRow < size
    modifies walls
    ensures WallsShow(walls, size, Carved(tree) + {Side(Cell(0, entranceRow), Left)} + {Side(Cell(size - 1, exitRow), Right)})
    ensures forall c: Cell :: InsideGrid(size, c.x, c.y) ==>
      exists moves :: Walk(moves, start, c) && forall i :: 0 <= i < |moves| ==> Passage(walls, size, moves[i])
    ensures forall e :: Passage(walls, size, e) ==> e in tree || Carve(Target(e), Opposite(e.dir)) in tree
  {
    ghost var removed := Carved(tree) + {Side(Cell(0, entranceRow), Left)} + {Side(Cell(size - 1, exitRow), Right)};
    OpenEntranceAndExit(walls, size, Carved(tree), entranceRow, exitRow);
    MazeConnected(walls, size, start, order, tree, removed);
    OnlyTreePassages(walls, size, tree, removed);
  }

  /** One iteration of the main loop: the top cell of the stack either
      moves to the open neighbour at the drawn index choose(steps, n),
      carving the wall pair between them, or, with no open neighbour, is
      popped onto the closed list. The iteration keeps the invariant, and the
      walk from the new state is the walk from the old one. */
  method ExploreStep(walls: array3<bool>, size: nat, ghost start: Cell, choose: (nat, nat) -> nat,
                     visited: seq<Cell>, closed: seq<Cell>, ghost order: seq<Cell>, ghost tree: seq<Carve>,
                     steps: nat)
    returns (visited': seq<Cell>, closed': seq<Cell>, ghost order': seq<Cell>, ghost tree': seq<Carve>)
    requires WallsShow(walls, size, Carved(tree))
    requires Search(size, start, visited, closed, order, tree)
    requires |visited| > 0 && steps == |order| - 1 + |closed|
    requires forall step: nat, n: nat :: 0 < n ==> choose(step, n) < n
    modifies walls
    ensures WallsShow(walls, size, Carved(tree'))
    ensures Search(size, start, visited', closed', order', tree')
    ensures |order'| - 1 + |closed'| == steps + 1
    ensures Run(size, choose, visited, closed, order, tree, steps)
         == Run(size, choose, visited', closed', order', tree', steps + 1)
    ensures var cell := visited[|visited| - 1];
      OpenNeighbors(size, cell, visited, closed) == [] ==>
        visited' == visited[..|visited| - 1] && closed' == closed + [cell] && order' == order && tree' == tree
    ensures var cell := visited[|visited| - 1];
      var neighbors := OpenNeighbors(size, cell, visited, closed);
      neighbors != [] ==>
        var n := neighbors[choose(steps, |neighbors|)];
        visited' == visited + [n.cell] && closed' == closed && order' == order + [n.cell] && tree' == tree + [Carve(cell, n.dir)]
  {
    SearchBound(size, start, visited, closed, order, tree);
    var cell := visited[|visited| - 1];
    var neighbors := FindNeighbors(size, cell.x, cell.y, visited, closed);
    assert cell == Cell(cell.x, cell.y);
    if |neighbors| == 0 {
      // dead end: back up one cell
      Backtrack(size, start, visited, closed, order, tree);
      RunBacktrack(size, choose, visited, closed, order, tree, steps);
      closed' := closed + [visited[|visited| - 1]];
      visited' := visited[..|visited| - 1];
      order', tree' := order, tree;
    } else {
      var choice := choose(steps, |neighbors|);
      var direction := RandomDirection(neighbors, choice);
      var nextCell := neighbors[choice].cell;
      Advance(size, start, visited, closed, order, tree, choice);
      RunAdvance(size, choose, visited, closed, order, tree, steps);
      ChosenNeighborIsOpen(size, cell, visited, closed, choice);
      visited', closed' := visited + [nextCell], closed;
      order' := order + [nextCell];
      CarvePassage(walls, size, tree, Carve(cell, direction));
      tree' := tree + [Carve(cell, direction)];
    }
  }

  /** When the stack empties, the walk is complete: every cell has been
      reached once and closed once, the loop ran once per push after the
      first and once per pop, and the state is the outcome of the walk. */
  lemma ExploreDone(size: nat, start: Cell, choose: (nat, nat) -> nat, closed: seq<Cell>,
                    order: seq<Cell>, tree: seq<Carve>, steps: nat)
    requires forall step: nat, n: nat :: 0 < n ==> choose(step, n) < n
    requires Search(size, start, [], closed, order, tree)
    requires steps == |order| - 1 + |closed|
    requires Run(size, choose, [], closed, order, tree, steps) == Generate(size, start, choose)
    ensures Distinct(closed) && |closed| == size * size
    ensures forall c: Cell :: c in closed <==> InsideGrid(size, c.x, c.y)
    ensures TreeOrder(order, tree) && |tree| == size * size - 1
    ensures Distinct(order) && order[0] == start
    ensures forall c: Cell :: c in order <==> InsideGrid(size, c.x, c.y)
    ensures steps == 2 * (size * size) - 1
    ensures Outcome(closed, order, tree, steps) == Generate(size, start, choose)
  {
    RunDone(size, choose, closed, order, tree, steps);
    SearchDone(size, start, closed, order, tree);
  }

  /** The main loop of the walk, on a table that still shows every wall.
      While the stack is not empty, the top cell either moves to the open
      neighbour at the drawn index, carving the wall pair between them, or,
      with no open neighbour, is popped onto the closed list.
      choose(step, n) is the index drawn among n open neighbours in
      iteration `step`. */
  method Explore(walls: array3<bool>, size: nat, start: Cell, choose: (nat, nat) -> nat)
    returns (ghost closed: seq<Cell>, ghost order: seq<Cell>, ghost tree: seq<Carve>, ghost iterations: nat)
    requires WallsShow(walls, size, {})
    requires 1 <= size
    requires InsideGrid(size, start.x, start.y)
    requires forall step: nat, n: nat :: 0 < n ==> choose(step, n) < n
    modifies walls
    ensures WallsShow(walls, size, Carved(tree))
    ensures Distinct(closed) && |closed| == size * size
    ensures forall c: Cell :: c in closed <==> InsideGrid(size, c.x, c.y)
    ensures TreeOrder(order, tree) && |tree| == size * size - 1
    ensures Distinct(order) && order[0] == start
    ensures forall c: Cell :: c in order <==> InsideGrid(size, c.x, c.y)
    ensures iterations == 2 * (size * size) - 1
    ensures Outcome(closed, order, tree, iterations) == Generate(size, start, choose)
  {
    var visited: seq<Cell> := [start];
    var closedCells: seq<Cell> := [];
    order, tree := [start], [];
    var steps: nat := 0;
    SearchInit(size, start);

    while |visited| > 0
      invariant WallsShow(walls, size, Carved(tree))
      invariant Search(size, start, visited, closedCells, order, tree)
      invariant steps == |order| - 1 + |closedCells|
      invariant steps < 2 * (size * size)
      invariant Run(size, choose, visited, closedCells, order, tree, steps) == Generate(size, start, choose)
      decreases 2 * (size * size) - steps
    {
      visited, closedCells, order, tree := ExploreStep(walls, size, start, choose, visited, closedCells, order, tree, steps);
      steps := steps + 1;
      SearchBound(size, start, visited, closedCells, order, tree);
    }

    ExploreDone(size, start, choose, closedCells, order, tree, steps);
    closed, iterations := closedCells, steps;
  }

  /** Builds a size x size maze. The random draws are parameters: the start
      cell, the row of the entrance in the left column, the row of the exit in
      the right column, and choose(step, n), the index drawn among n open
      neighbours in iteration `step`. */
  method BuildMaze(size: nat, start: Cell, choose: (nat, nat) -> nat, entranceRow: int, exitRow: int)
    returns (walls: array3<bool>, ghost closed: seq<Cell>, ghost order: seq<Cell>,
             ghost tree: seq<Carve>, ghost iterations: nat)
    requires 1 <= size
    requires InsideGrid(size, start.x, start.y)
    requires forall step: nat, n: nat :: 0 < n ==> choose(step, n) < n
    requires 0 <= entranceRow < size && 0 <= exitRow < size
    ensures fresh(walls)
    ensures WallsShow(walls, size, Carved(tree) + {Side(Cell(0, entranceRow), Left)} + {Side(Cell(size - 1, exitRow), Right)})
    ensures Distinct(closed) && |closed| == size * size
    ensures forall c: Cell :: c in closed <==> InsideGrid(size, c.x, c.y)
    ensures TreeOrder(order, tree) && |tree| == size * size - 1
    ensures Distinct(order) && order[0] == start
    ensures forall c: Cell :: c in order <==> InsideGrid(size, c.x, c.y)
    ensures iterations == 2 * (size * size) - 1
    ensures forall c: Cell :: InsideGrid(size, c.x, c.y) ==>
      exists moves :: Walk(moves, start, c) && forall i :: 0 <= i < |moves| ==> Passage(walls, size, moves[i])
    ensures forall e :: Passage(walls, size, e) ==> e in tree || Carve(Target(e), Opposite(e.dir)) in tree
    ensures Outcome(closed, order, tree, iterations) == Generate(size, start, choose)
  {
    walls := CreateTable(size);
    closed, order, tree, iterations := Explore(walls, size, start, choose);
    CarveEntranceAndExit(walls, size, start, order, tree, entranceRow, exitRow);
  }
}
