/** Cells, directions and the square grid that the maze is carved into. */
module Grid {

  /** A grid position: column x, row y. A neighbour of an edge cell lies
      outside the grid, so the coordinates are plain integers. */
  datatype Cell = Cell(x: int, y: int)

  /** The four sides of a cell, which are also the four directions of a move. */
  datatype Direction = Top | Bottom | Left | Right

  /** Column offset of a move: right goes to the next column, left to the previous one. */
  function Dx(d: Direction): int {
    match d
    case Right => 1
    case Left => -1
    case _ => 0
  }

  /** Row offset of a move: rows are numbered downwards, so bottom goes to the next row. */
  function Dy(d: Direction): int {
    match d
    case Bottom => 1
    case Top => -1
    case _ => 0
  }

  /** Two cells are adjacent when they differ by one in exactly one coordinate. */
  predicate Adjacent(a: Cell, b: Cell) {
    || (a.x == b.x && (a.y - b.y == 1 || b.y - a.y == 1))
    || (a.y == b.y && (a.x - b.x == 1 || b.x - a.x == 1))
  }

  /** The neighbour of c in direction d, as the neighbour table lists them. */
  function Step(c: Cell, d: Direction): Cell {
    match d
    case Right => Cell(c.x + 1, c.y)
    case Left => Cell(c.x - 1, c.y)
    case Bottom => Cell(c.x, c.y + 1)
    case Top => Cell(c.x, c.y - 1)
  }

  /** A step moves by the offsets of its direction. */
  lemma StepByOffsets(c: Cell, d: Direction)
    ensures Step(c, d) == Cell(c.x + Dx(d), c.y + Dy(d))
  {
  }

  /** A step lands on an adjacent cell. */
  lemma StepIsAdjacent(c: Cell, d: Direction)
    ensures Adjacent(c, Step(c, d))
  {
  }

  /** Every adjacent cell is the step in one of the four directions. */
  lemma AdjacentIsStep(a: Cell, b: Cell)
    requires Adjacent(a, b)
    ensures exists d :: Step(a, d) == b
  {
    if b.x == a.x + 1 {
      assert Step(a, Right) == b;
    } else if b.x == a.x - 1 {
      assert Step(a, Left) == b;
    } else if b.y == a.y + 1 {
      assert Step(a, Bottom) == b;
    } else {
      assert Step(a, Top) == b;
    }
  }

  /** The wall of the neighbour that faces back: top and bottom, left and
      right are swapped. */
  function Opposite(d: Direction): (r: Direction)
    ensures r != d
    ensures Dx(r) == -Dx(d) && Dy(r) == -Dy(d)
  {
    match d
    case Top => Bottom
    case Bottom => Top
    case Left => Right
    case Right => Left
  }

  /** Taking the opposite twice gives the direction back, and stepping in the
      opposite direction undoes a step. */
  lemma OppositeInvolution(d: Direction)
    ensures Opposite(Opposite(d)) == d
    ensures forall c :: Step(Step(c, d), Opposite(d)) == c
  {
  }

  /** Bounds check of a position on a grid of side `size`. */
  predicate InsideGrid(size: int, x: int, y: int) {
    x < size && x >= 0 && y < size && y >= 0
  }

  /** The cells of row y in columns 0 to w - 1. */
  function RowCells(y: int, w: nat): (r: set<Cell>)
    ensures forall c :: c in r <==> c.y == y && 0 <= c.x < w
    ensures |r| == w
  {
    if w == 0 then {} else RowCells(y, w - 1) + {Cell(w - 1, y)}
  }

  /** The cells of rows 0 to h - 1, each of width w. */
  function BlockCells(w: nat, h: nat): (r: set<Cell>)
    ensures forall c :: c in r <==> 0 <= c.x < w && 0 <= c.y < h
    ensures |r| == w * h
  {
    if h == 0 then {}
    else
      var upper, row := BlockCells(w, h - 1), RowCells(h - 1, w);
      assert upper * row == {} by {
        forall c | c in upper ensures c !in row { }
      }
      assert |upper + row| == w * (h - 1) + w;
      upper + row
  }

  /** All cells of a grid of side `size`: exactly the positions the bounds
      check accepts, size * size of them. */
  function AllCells(size: nat): (r: set<Cell>)
    ensures forall c :: c in r <==> InsideGrid(size, c.x, c.y)
    ensures |r| == size * size
  {
    BlockCells(size, size)
  }

  /** From an in-grid cell, a step leaves the grid exactly across a side on
      the border: left in column 0, right in the last column, top in row 0,
      bottom in the last row. */
  lemma LeavesGrid(size: int, c: Cell, d: Direction)
    requires InsideGrid(size, c.x, c.y)
    ensures !InsideGrid(size, Step(c, d).x, Step(c, d).y) <==>
      || (d == Left && c.x == 0) || (d == Right && c.x == size - 1)
      || (d == Top && c.y == 0) || (d == Bottom && c.y == size - 1)
  {
  }

  /** No cell occurs twice in s. */
  predicate Distinct(s: seq<Cell>) {
    forall i, j :: 0 <= i < j < |s| ==> s[i] != s[j]
  }

  /** Pigeonhole: a list of distinct members of S is no longer than S, and as
      long as S exactly when it holds all of S. */
  lemma {:induction false} DistinctBound(s: seq<Cell>, S: set<Cell>)
    requires Distinct(s)
    requires forall c :: c in s ==> c in S
    ensures |s| <= |S|
    ensures (forall c :: c in S ==> c in s) ==> |s| == |S|
  {
    if s != [] {
      var last, init := s[|s| - 1], s[..|s| - 1];
      assert s == init + [last];
      var rest := S - {last};
      forall c | c in init ensures c in rest {
        var i :| 0 <= i < |init| && init[i] == c;
        assert s[i] != s[|s| - 1];
      }
      DistinctBound(init, rest);
      if forall c :: c in S ==> c in s {
        forall c | c in rest ensures c in init {
          assert c in s && c != last;
        }
      }
    } else if forall c :: c in S ==> c in s {
      assert S == {};
    }
  }

  /** Every in-grid neighbour of a member of s is a member of s. */
  ghost predicate ClosedUnderSteps(size: int, s: seq<Cell>) {
    forall c, d :: c in s && InsideGrid(size, Step(c, d).x, Step(c, d).y) ==> Step(c, d) in s
  }

  /** From a member of s, moving left stays in s up to column 0. */
  lemma {:induction false} SlideToColumnZero(size: int, s: seq<Cell>, c: Cell)
    requires ClosedUnderSteps(size, s)
    requires c in s && InsideGrid(size, c.x, c.y)
    ensures Cell(0, c.y) in s
    decreases c.x
  {
    if c.x > 0 {
      SlideToColumnZero(size, s, Step(c, Left));
    }
  }

  /** From column 0 of a row, moving right stays in s along the whole row. */
  lemma {:induction false} SlideAlongRow(size: int, s: seq<Cell>, x: int, y: int)
    requires ClosedUnderSteps(size, s)
    requires Cell(0, y) in s && InsideGrid(size, x, y)
    ensures Cell(x, y) in s
    decreases x
  {
    if x > 0 {
      SlideAlongRow(size, s, x - 1, y);
      assert Step(Cell(x - 1, y), Right) == Cell(x, y);
    }
  }

  /** From column 0 of a row, moving up stays in s up to the corner (0, 0). */
  lemma {:induction false} SlideToRowZero(size: int, s: seq<Cell>, y: int)
    requires ClosedUnderSteps(size, s)
    requires Cell(0, y) in s && InsideGrid(size, 0, y)
    ensures Cell(0, 0) in s
    decreases y
  {
    if y > 0 {
      assert Step(Cell(0, y), Top) == Cell(0, y - 1);
      SlideToRowZero(size, s, y - 1);
    }
  }

  /** From the corner (0, 0), moving down stays in s along column 0. */
  lemma {:induction false} SlideDownColumnZero(size: int, s: seq<Cell>, y: int)
    requires ClosedUnderSteps(size, s)
    requires Cell(0, 0) in s && InsideGrid(size, 0, y)
    ensures Cell(0, y) in s
    decreases y
  {
    if y > 0 {
      SlideDownColumnZero(size, s, y - 1);
      assert Step(Cell(0, y - 1), Bottom) == Cell(0, y);
    }
  }

  /** The grid is connected: a list closed under steps that holds one
      in-grid cell holds every in-grid cell. */
  lemma FillsGrid(size: int, s: seq<Cell>, c0: Cell)
    requires ClosedUnderSteps(size, s)
    requires c0 in s && InsideGrid(size, c0.x, c0.y)
    ensures forall c: Cell :: InsideGrid(size, c.x, c.y) ==> c in s
  {
    SlideToColumnZero(size, s, c0);
    SlideToRowZero(size, s, c0.y);
    forall c: Cell | InsideGrid(size, c.x, c.y) ensures c in s {
      SlideDownColumnZero(size, s, c.y);
      SlideAlongRow(size, s, c.x, c.y);
    }
  }
}
