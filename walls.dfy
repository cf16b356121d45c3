/** The displayed maze: a size x size table whose cells each carry four wall
    flags. walls[y, x, Index(d)] is true while cell (x, y) still shows its
    wall on side d. */
module Walls {
  import opened Grid

  /** Position of a side among a cell's four flags, in the order the table
      adds them: top, bottom, left, right. */
  function Index(d: Direction): (k: nat)
    ensures k < 4
  {
    match d
    case Top => 0
    case Bottom => 1
    case Left => 2
    case Right => 3
  }

  /** Different sides have different flags. */
  lemma IndexInjective(d: Direction, e: Direction)
    ensures Index(d) == Index(e) ==> d == e
  {
  }

  /** Builds the table row by row, giving every cell all four walls. */
  method CreateTable(size: nat) returns (walls: array3<bool>)
    ensures fresh(walls)
    ensures walls.Length0 == size && walls.Length1 == size && walls.Length2 == 4
    ensures forall i, j, k | 0 <= i < size && 0 <= j < size && 0 <= k < 4 :: walls[i, j, k]
  {
    walls := new bool[size, size, 4];
    for i := 0 to size
      invariant forall i', j, k | 0 <= i' < i && 0 <= j < size && 0 <= k < 4 :: walls[i', j, k]
    {
      for j := 0 to size
        invariant forall i', j', k | 0 <= i' < i && 0 <= j' < size && 0 <= k < 4 :: walls[i', j', k]
        invariant forall j', k | 0 <= j' < j && 0 <= k < 4 :: walls[i, j', k]
      {
        walls[i, j, Index(Top)] := true;
        walls[i, j, Index(Bottom)] := true;
        walls[i, j, Index(Left)] := true;
        walls[i, j, Index(Right)] := true;
      }
    }
  }

  /** Removes the wall on side `edge` of the cell in row y, column x; every
      other flag keeps its value. The row and the column must exist. */
  method RemoveCellEdge(walls: array3<bool>, x: int, y: int, edge: Direction)
    requires 0 <= y < walls.Length0 && 0 <= x < walls.Length1 && walls.Length2 == 4
    modifies walls
    ensures forall i, j, k | 0 <= i < walls.Length0 && 0 <= j < walls.Length1 && 0 <= k < 4 ::
      walls[i, j, k] == if i == y && j == x && k == Index(edge) then false else old(walls[i, j, k])
  {
    walls[y, x, Index(edge)] := false;
  }
}
