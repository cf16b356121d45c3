/** Choosing where the walk goes next: the in-grid neighbours of the current
    cell that are neither on the stack nor closed, and one of them picked by
    an index. */
module Neighbors {
  import opened Grid

  /** One entry of the neighbour table: the direction and the cell there. */
  datatype Candidate = Candidate(dir: Direction, cell: Cell)

  /** Membership by coordinates, scanning the list from the front and
      stopping at the first match. */
  method ContainsCell(cells: seq<Cell>, c: Cell) returns (found: bool)
    ensures found <==> exists i :: 0 <= i < |cells| && cells[i].x == c.x && cells[i].y == c.y
    ensures found <==> c in cells
  {
    for i := 0 to |cells|
      invariant forall k :: 0 <= k < i ==> !(cells[k].x == c.x && cells[k].y == c.y)
    {
      if cells[i].x == c.x && cells[i].y == c.y {
        return true;
      }
    }
    return false;
  }

  /** The four neighbours of c, in the order the table lists them: right,
      left, bottom, top. */
  function Candidates(c: Cell): seq<Candidate> {
    [ Candidate(Right, Step(c, Right)), Candidate(Left, Step(c, Left)),
      Candidate(Bottom, Step(c, Bottom)), Candidate(Top, Step(c, Top)) ]
  }

  /** The table has four entries, one per direction, each holding the
      neighbour of c in its direction. */
  lemma CandidatesSpec(c: Cell)
    ensures var r := Candidates(c);
      && |r| == 4 && DistinctDirs(r)
      && (forall k :: 0 <= k < |r| ==> r[k].cell == Step(c, r[k].dir))
      && (forall d :: Candidate(d, Step(c, d)) in r)
  {
  }

  /** A cell the walk may move to: inside the grid, not closed, not on the stack. */
  predicate Open(size: int, c: Cell, visited: seq<Cell>, closed: seq<Cell>) {
    InsideGrid(size, c.x, c.y) && c !in closed && c !in visited
  }

  /** The test the filter applies, by coordinates: a cell is open exactly
      when it is inside the grid and no entry of the closed list or of the
      stack has both its x and its y. */
  lemma OpenByCoordinates(size: int, c: Cell, visited: seq<Cell>, closed: seq<Cell>)
    ensures Open(size, c, visited, closed) <==>
      && InsideGrid(size, c.x, c.y)
      && (forall i :: 0 <= i < |closed| ==> closed[i].x != c.x || closed[i].y != c.y)
      && (forall i :: 0 <= i < |visited| ==> visited[i].x != c.x || visited[i].y != c.y)
  {
  }

  /** The entries of s whose cell is open, in their original order. */
  function FilterOpen(size: int, s: seq<Candidate>, visited: seq<Cell>, closed: seq<Cell>): seq<Candidate> {
    if s == [] then []
    else
      var last := s[|s| - 1];
      FilterOpen(size, s[..|s| - 1], visited, closed) + if Open(size, last.cell, visited, closed) then [last] else []
  }

  /** No direction occurs twice in s, as no key occurs twice in an object. */
  predicate DistinctDirs(s: seq<Candidate>) {
    forall i, j :: 0 <= i < j < |s| ==> s[i].dir != s[j].dir
  }

  /** Filtering keeps exactly the open entries, drops none of them, and
      introduces no repeated direction. */
  lemma {:induction false} FilterOpenMembers(size: int, s: seq<Candidate>, visited: seq<Cell>, closed: seq<Cell>)
    ensures forall n :: n in FilterOpen(size, s, visited, closed) <==> n in s && Open(size, n.cell, visited, closed)
    ensures |FilterOpen(size, s, visited, closed)| <= |s|
    ensures DistinctDirs(s) ==> DistinctDirs(FilterOpen(size, s, visited, closed))
  {
    if s != [] {
      var init, last := s[..|s| - 1], s[|s| - 1];
      assert s == init + [last];
      FilterOpenMembers(size, init, visited, closed);
      if DistinctDirs(s) {
        assert DistinctDirs(init);
        var r := FilterOpen(size, init, visited, closed);
        forall i | 0 <= i < |r| ensures r[i].dir != last.dir {
          assert r[i] in init;
          var j :| 0 <= j < |init| && init[j] == r[i];
          assert s[j] == r[i];
        }
      }
    }
  }

  /** The neighbours the walk may move to from c. */
  function OpenNeighbors(size: int, c: Cell, visited: seq<Cell>, closed: seq<Cell>): seq<Candidate> {
    FilterOpen(size, Candidates(c), visited, closed)
  }

  /** Each returned entry is the neighbour of c in its direction and is open;
      each open neighbour of c is returned; at most four entries, one per
      direction. */
  lemma OpenNeighborsSpec(size: int, c: Cell, visited: seq<Cell>, closed: seq<Cell>)
    ensures var r := OpenNeighbors(size, c, visited, closed);
      && |r| <= 4
      && DistinctDirs(r)
      && (forall k :: 0 <= k < |r| ==> r[k].cell == Step(c, r[k].dir) && Open(size, r[k].cell, visited, closed))
      && (forall d :: Candidate(d, Step(c, d)) in r <==> Open(size, Step(c, d), visited, closed))
  {
    var cands := Candidates(c);
    FilterOpenMembers(size, cands, visited, closed);
    var r := OpenNeighbors(size, c, visited, closed);
    forall k | 0 <= k < |r| ensures r[k].cell == Step(c, r[k].dir) {
      assert r[k] in cands;
    }
  }

  /** The entry for direction d when the neighbour of c that way is open,
      and nothing otherwise. */
  function Kept(size: int, c: Cell, d: Direction, visited: seq<Cell>, closed: seq<Cell>): seq<Candidate> {
    if Open(size, Step(c, d), visited, closed) then [Candidate(d, Step(c, d))] else []
  }

  /** The table keeps the key order right, left, bottom, top: it is the
      open entries among those four, in that order. */
  lemma OpenNeighborsInKeyOrder(size: int, c: Cell, visited: seq<Cell>, closed: seq<Cell>)
    ensures OpenNeighbors(size, c, visited, closed)
         == Kept(size, c, Right, visited, closed) + Kept(size, c, Left, visited, closed)
          + Kept(size, c, Bottom, visited, closed) + Kept(size, c, Top, visited, closed)
  {
    var s := Candidates(c);
    assert s[..3][..2] == s[..2] && s[..2][..1] == s[..1] && s[..1][..0] == [];
    assert FilterOpen(size, s[..1], visited, closed) == Kept(size, c, Right, visited, closed);
    assert FilterOpen(size, s[..2], visited, closed)
        == FilterOpen(size, s[..1], visited, closed) + Kept(size, c, Left, visited, closed);
    assert FilterOpen(size, s[..3], visited, closed)
        == FilterOpen(size, s[..2], visited, closed) + Kept(size, c, Bottom, visited, closed);
  }

  /** Builds the neighbour table of (x, y) and drops every entry that is
      outside the grid, closed, or already on the stack. */
  method FindNeighbors(size: int, x: int, y: int, visited: seq<Cell>, closed: seq<Cell>)
    returns (neighbors: seq<Candidate>)
    ensures neighbors == OpenNeighbors(size, Cell(x, y), visited, closed)
  {
    var all := Candidates(Cell(x, y));
    neighbors := [];
    for i := 0 to |all|
      invariant neighbors == FilterOpen(size, all[..i], visited, closed)
    {
      var n := all[i];
      var keep := InsideGrid(size, n.cell.x, n.cell.y);
      if keep {
        var inClosed := ContainsCell(closed, n.cell);
        keep := !inClosed;
      }
      if keep {
        var inVisited := ContainsCell(visited, n.cell);
        keep := !inVisited;
      }
      if keep {
        neighbors := neighbors + [n];
      }
      assert all[..i + 1][..i] == all[..i];
    }
    assert all[..|all|] == all;
  }

  /** The direction whose key sits at position `choice` of the neighbour
      table; the index stands for the random draw. */
  function RandomDirection(neighbors: seq<Candidate>, choice: int): (d: Direction)
    requires 0 <= choice < |neighbors|
    ensures exists k :: 0 <= k < |neighbors| && neighbors[k].dir == d
  {
    neighbors[choice].dir
  }

  /** Whatever index is drawn, the chosen direction leads to an open neighbour
      of c, and that neighbour is the only entry under the chosen key. */
  lemma ChosenNeighborIsOpen(size: int, c: Cell, visited: seq<Cell>, closed: seq<Cell>, choice: int)
    requires 0 <= choice < |OpenNeighbors(size, c, visited, closed)|
    ensures var r := OpenNeighbors(size, c, visited, closed);
      var d := RandomDirection(r, choice);
      && r[choice].cell == Step(c, d)
      && Open(size, Step(c, d), visited, closed)
      && (forall k :: 0 <= k < |r| && r[k].dir == d ==> k == choice)
  {
    OpenNeighborsSpec(size, c, visited, closed);
  }
}
