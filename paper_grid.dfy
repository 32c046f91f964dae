/**
 * The roll-pruning grid of src/bin/04.rs.
 *
 * A square grid of tiles is parsed from `.`/`@` text.  One pass marks every
 * occupied tile with fewer than four occupied Moore neighbours as accessible;
 * the pass reads the grid it was given and writes a copy, so every decision is
 * taken on the same snapshot.  The driver repeats passes until one marks
 * nothing and sums what the passes marked.
 */
module PaperGrid {
  import opened Wrappers

  datatype TileState = Free | Occupied | Accessible

  datatype Tile = Tile(state: TileState)

  datatype ParseError = InvalidTile | RowLengthMismatch

  /** A tile is free (`.`) or holds a roll (`@`); nothing else is a tile. */
  function ParseTile(c: char): (r: Result<Tile, ParseError>)
    ensures r.Ok? <==> c == '.' || c == '@'
    ensures r.Ok? ==> r.value.state != Accessible
    ensures r.Err? ==> r.error == InvalidTile
  {
    match c
    case '.' => Ok(Tile(Free))
    case '@' => Ok(Tile(Occupied))
    case _ => Err(InvalidTile)
  }

  /** The character a tile is displayed as. */
  function ShowTile(t: Tile): char {
    match t.state
    case Free => '.'
    case Occupied => '@'
    case Accessible => 'x'
  }

  /** Displaying a parsed tile gives back its character, and parsing a displayed tile gives back the tile. */
  lemma TileRoundTrip(c: char, t: Tile)
    ensures ParseTile(c).Ok? ==> ShowTile(ParseTile(c).value) == c
    ensures ParseTile(ShowTile(t)) == if t.state == Accessible then Err(InvalidTile) else Ok(t)
  {
  }

  // ---------------------------------------------------------------- grid

  datatype Grid = Grid(rows: seq<seq<Tile>>) {

    function Height(): nat {
      |rows|
    }

    function Width(): nat
      requires |rows| > 0
    {
      |rows[0]|
    }

    /** Every row is as long as there are rows: the only shape the parser produces. */
    ghost predicate Square() {
      forall x :: 0 <= x < |rows| ==> |rows[x]| == |rows|
    }
  }

  /** In a square grid the width (the first row's length) is the height. */
  lemma SquareDimensions(g: Grid)
    requires g.Square() && g.Height() > 0
    ensures g.Width() == g.Height()
    ensures forall x :: 0 <= x < g.Height() ==> |g.rows[x]| == g.Width()
  {
  }

  /** One line of tiles; the first character that is not a tile fails the whole line. */
  function ParseRow(line: string): (r: Result<seq<Tile>, ParseError>)
    ensures r.Ok? <==> forall i :: 0 <= i < |line| ==> ParseTile(line[i]).Ok?
    ensures r.Ok? ==> |r.value| == |line|
    ensures r.Ok? ==> forall i :: 0 <= i < |line| ==> ParseTile(line[i]) == Ok(r.value[i])
    ensures r.Err? ==> r.error == InvalidTile
  {
    if line == [] then Ok([])
    else
      match ParseTile(line[0])
      case Err(e) => Err(e)
      case Ok(t) =>
        match ParseRow(line[1..])
        case Err(e) => Err(e)
        case Ok(ts) => Ok([t] + ts)
  }

  /** A line that parses and is exactly `height` tiles long. */
  predicate GoodLine(line: string, height: nat) {
    ParseRow(line).Ok? && |ParseRow(line).value| == height
  }

  /** The error a bad line reports: a bad character is found before the length is checked. */
  function LineError(line: string, height: nat): ParseError {
    if ParseRow(line).Err? then InvalidTile else RowLengthMismatch
  }

  function ParseRows(lines: seq<string>, height: nat): (r: Result<seq<seq<Tile>>, ParseError>)
    ensures r.Ok? <==> forall k :: 0 <= k < |lines| ==> GoodLine(lines[k], height)
    ensures r.Ok? ==> |r.value| == |lines|
    ensures r.Ok? ==> forall k :: 0 <= k < |lines| ==> ParseRow(lines[k]) == Ok(r.value[k])
    ensures r.Err? ==> exists k :: 0 <= k < |lines| && !GoodLine(lines[k], height) &&
                        (forall j :: 0 <= j < k ==> GoodLine(lines[j], height)) &&
                        r.error == LineError(lines[k], height)
  {
    if lines == [] then Ok([])
    else
      var first := ParseRow(lines[0]);
      if !GoodLine(lines[0], height) then Err(LineError(lines[0], height))
      else
        match ParseRows(lines[1..], height)
        case Err(e) =>
          ghost var k :| 0 <= k < |lines[1..]| && !GoodLine(lines[1..][k], height) &&
                     (forall j :: 0 <= j < k ==> GoodLine(lines[1..][j], height)) &&
                     e == LineError(lines[1..][k], height);
          assert !GoodLine(lines[k + 1], height);
          assert forall j :: 0 <= j < k + 1 ==> GoodLine(lines[j], height) by {
            forall j | 0 <= j < k + 1 ensures GoodLine(lines[j], height) {
              if j > 0 {
                assert lines[j] == lines[1..][j - 1];
              }
            }
          }
          Err(e)
        case Ok(rs) => Ok([first.value] + rs)
  }

  /**
   * `Grid::parse`: every line must consist of tiles and be as long as there
   * are lines; the first line that is not reports why.
   */
  function ParseGrid(lines: seq<string>): (r: Result<Grid, ParseError>)
    ensures r.Ok? <==> forall k :: 0 <= k < |lines| ==> GoodLine(lines[k], |lines|)
    ensures r.Ok? ==> r.value.Square() && |r.value.rows| == |lines|
    ensures r.Ok? ==> forall x, y :: 0 <= x < |lines| && 0 <= y < |lines| ==>
                        |lines[x]| == |lines| && ParseTile(lines[x][y]) == Ok(r.value.rows[x][y])
    ensures r.Err? ==> exists k :: 0 <= k < |lines| && !GoodLine(lines[k], |lines|) &&
                        (forall j :: 0 <= j < k ==> GoodLine(lines[j], |lines|)) &&
                        r.error == LineError(lines[k], |lines|)
  {
    match ParseRows(lines, |lines|)
    case Err(e) => Err(e)
    case Ok(rows) => Ok(Grid(rows))
  }

  // ---------------------------------------------------------- neighbours

  /**
   * The k-th offset of the 3 x 3 block, in the order the nested `dx`/`dy`
   * loops visit them: `dx` is `k / 3 - 1` and `dy` is `k % 3 - 1`.
   */
  function Offset(k: nat): (int, int)
    requires k < 9
  {
    if k < 3 then (-1, k - 1) else if k < 6 then (0, k - 4) else (1, k - 7)
  }

  /** The cell `(x + dx, y + dy)` when the offset is not `(0, 0)` and the cell lies in an n x n grid. */
  function CellAt(n: nat, x: nat, y: nat, off: (int, int)): (c: seq<(nat, nat)>)
    ensures |c| <= 1
  {
    var nx, ny := x + off.0, y + off.1;
    if (off.0 != 0 || off.1 != 0) && 0 <= nx < n && 0 <= ny < n then [(nx, ny)] else []
  }

  /** The cells at the first `k` offsets of the block, in order. */
  function CellsUpTo(n: nat, x: nat, y: nat, k: nat): (cs: seq<(nat, nat)>)
    requires k <= 9
    ensures forall i :: 0 <= i < |cs| ==> cs[i].0 < n && cs[i].1 < n
    ensures |cs| <= k
  {
    if k == 0 then [] else CellsUpTo(n, x, y, k - 1) + CellAt(n, x, y, Offset(k - 1))
  }

  /** The in-bounds Moore neighbours of `(x, y)`, in the order `get_neighbours` pushes them. */
  function NeighbourCells(n: nat, x: nat, y: nat): (cs: seq<(nat, nat)>)
    ensures forall i :: 0 <= i < |cs| ==> cs[i].0 < n && cs[i].1 < n
  {
    CellsUpTo(n, x, y, 9)
  }

  /** The two cells differ and differ by at most one in each coordinate. */
  predicate Adjacent(x: nat, y: nat, i: nat, j: nat) {
    (i != x || j != y) && x <= i + 1 && i <= x + 1 && y <= j + 1 && j <= y + 1
  }

  /** The position in the block of the offset leading from `(x, y)` to `c`. */
  function Key(x: nat, y: nat, c: (nat, nat)): int {
    3 * (c.0 - x + 1) + (c.1 - y + 1)
  }

  /** The cells listed after k offsets are in-bounds adjacent cells whose keys are below k and increase. */
  lemma {:induction false} CellsUpToShape(n: nat, x: nat, y: nat, k: nat)
    requires k <= 9
    ensures forall c :: c in CellsUpTo(n, x, y, k) ==> Adjacent(x, y, c.0, c.1) && 0 <= Key(x, y, c) < k
    ensures forall a, b :: 0 <= a < b < |CellsUpTo(n, x, y, k)| ==>
              Key(x, y, CellsUpTo(n, x, y, k)[a]) < Key(x, y, CellsUpTo(n, x, y, k)[b])
  {
    if k > 0 {
      CellsUpToShape(n, x, y, k - 1);
      var cs := CellsUpTo(n, x, y, k);
      var init := CellsUpTo(n, x, y, k - 1);
      var last := CellAt(n, x, y, Offset(k - 1));
      assert cs == init + last;
      forall c | c in last ensures Adjacent(x, y, c.0, c.1) && Key(x, y, c) == k - 1 {
      }
      forall a, b | 0 <= a < b < |cs| ensures Key(x, y, cs[a]) < Key(x, y, cs[b]) {
        if b >= |init| {
          assert cs[a] in init;
          assert cs[b] in last;
        } else {
          assert cs[a] == init[a] && cs[b] == init[b];
        }
      }
    }
  }

  /** Every in-bounds cell adjacent to `(x, y)` whose key is below k is listed after k offsets. */
  lemma {:induction false} CellsUpToComplete(n: nat, x: nat, y: nat, k: nat, i: nat, j: nat)
    requires k <= 9 && i < n && j < n && Adjacent(x, y, i, j) && Key(x, y, (i, j)) < k
    ensures (i, j) in CellsUpTo(n, x, y, k)
  {
    if Key(x, y, (i, j)) == k - 1 {
      assert Offset(k - 1) == (i - x, j - y);
      assert CellAt(n, x, y, Offset(k - 1)) == [(i, j)];
    } else {
      CellsUpToComplete(n, x, y, k - 1, i, j);
    }
  }

  /**
   * The neighbours are exactly the in-bounds cells adjacent to `(x, y)`,
   * each listed once, and there are at most eight of them.
   */
  lemma NeighbourCellsExact(n: nat, x: nat, y: nat)
    ensures forall i: nat, j: nat :: (i, j) in NeighbourCells(n, x, y) <==> i < n && j < n && Adjacent(x, y, i, j)
    ensures forall a, b :: 0 <= a < b < |NeighbourCells(n, x, y)| ==> NeighbourCells(n, x, y)[a] != NeighbourCells(n, x, y)[b]
    ensures |NeighbourCells(n, x, y)| <= 8
  {
    var cs := NeighbourCells(n, x, y);
    CellsUpToShape(n, x, y, 9);
    forall i: nat, j: nat | i < n && j < n && Adjacent(x, y, i, j) ensures (i, j) in cs {
      CellsUpToComplete(n, x, y, 9, i, j);
    }
    forall a, b | 0 <= a < b < |cs| ensures cs[a] != cs[b] {
      assert Key(x, y, cs[a]) < Key(x, y, cs[b]);
    }
    NeighbourCellsAtMostEight(n, x, y);
  }

  lemma NeighbourCellsAtMostEight(n: nat, x: nat, y: nat)
    ensures |NeighbourCells(n, x, y)| <= 8
  {
    assert CellAt(n, x, y, Offset(4)) == [];
    assert |CellsUpTo(n, x, y, 5)| <= 4;
    CellsUpToGrowth(n, x, y, 5, 9);
  }

  lemma {:induction false} CellsUpToGrowth(n: nat, x: nat, y: nat, k: nat, m: nat)
    requires k <= m <= 9
    ensures |CellsUpTo(n, x, y, m)| <= |CellsUpTo(n, x, y, k)| + (m - k)
  {
    if m > k {
      CellsUpToGrowth(n, x, y, k, m - 1);
    }
  }

  /** A corner cell of a grid at least 2 x 2 has three neighbours. */
  lemma CornerHasThreeNeighbours(n: nat)
    requires n >= 2
    ensures |NeighbourCells(n, 0, 0)| == 3
  {
    assert |CellsUpTo(n, 0, 0, 5)| == 0 by {
      assert CellsUpTo(n, 0, 0, 1) == [];
      assert CellsUpTo(n, 0, 0, 2) == [];
      assert CellsUpTo(n, 0, 0, 3) == [];
      assert CellsUpTo(n, 0, 0, 4) == [];
    }
    assert |CellsUpTo(n, 0, 0, 6)| == 1;
    assert |CellsUpTo(n, 0, 0, 7)| == 1;
    assert |CellsUpTo(n, 0, 0, 8)| == 2;
  }

  /** A cell away from the border has all eight neighbours. */
  lemma InteriorHasEightNeighbours(n: nat, x: nat, y: nat)
    requires 1 <= x < n - 1 && 1 <= y < n - 1
    ensures |NeighbourCells(n, x, y)| == 8
  {
    assert |CellsUpTo(n, x, y, 1)| == 1;
    assert |CellsUpTo(n, x, y, 2)| == 2;
    assert |CellsUpTo(n, x, y, 3)| == 3;
    assert |CellsUpTo(n, x, y, 4)| == 4;
    assert |CellsUpTo(n, x, y, 5)| == 4;
    assert |CellsUpTo(n, x, y, 6)| == 5;
    assert |CellsUpTo(n, x, y, 7)| == 6;
    assert |CellsUpTo(n, x, y, 8)| == 7;
  }

  /** The tile at a cell, and a free tile off the grid. */
  function TileAt(g: Grid, c: (nat, nat)): Tile {
    if c.0 < |g.rows| && c.1 < |g.rows[c.0]| then g.rows[c.0][c.1] else Tile(Free)
  }

  /** The tiles at a list of cells, in order. */
  function TilesAt(g: Grid, cs: seq<(nat, nat)>): (ts: seq<Tile>)
    ensures |ts| == |cs|
  {
    seq(|cs|, i requires 0 <= i < |cs| => TileAt(g, cs[i]))
  }

  lemma TilesAtSnoc(g: Grid, cs: seq<(nat, nat)>, c: (nat, nat))
    ensures TilesAt(g, cs + [c]) == TilesAt(g, cs) + [TileAt(g, c)]
  {
    assert (cs + [c])[..|cs|] == cs;
  }

  /** Whether the loops of `get_neighbours` push the cell at offset `(dx, dy)` from `(x, y)` in an n x n grid. */
  predicate Pushed(n: nat, x: nat, y: nat, dx: int, dy: int) {
    (dx != 0 || dy != 0) && 0 <= x + dx < n && 0 <= y + dy < n
  }

  /** One step of the `dx`/`dy` loops adds the tile of the visited cell exactly when that cell is pushed. */
  lemma NeighbourStep(g: Grid, x: nat, y: nat, dx: int, dy: int, k: nat, c: (nat, nat))
    requires -1 <= dx <= 1 && -1 <= dy <= 1 && k == 3 * (dx + 1) + (dy + 1)
    requires (c.0 == x + dx && c.1 == y + dy) || !Pushed(|g.rows|, x, y, dx, dy)
    ensures Pushed(|g.rows|, x, y, dx, dy) ==>
      TilesAt(g, CellsUpTo(|g.rows|, x, y, k + 1)) == TilesAt(g, CellsUpTo(|g.rows|, x, y, k)) + [TileAt(g, c)]
    ensures !Pushed(|g.rows|, x, y, dx, dy) ==>
      TilesAt(g, CellsUpTo(|g.rows|, x, y, k + 1)) == TilesAt(g, CellsUpTo(|g.rows|, x, y, k))
  {
    var n := |g.rows|;
    assert Offset(k) == (dx, dy);
    var before := CellsUpTo(n, x, y, k);
    var here := CellAt(n, x, y, (dx, dy));
    assert CellsUpTo(n, x, y, k + 1) == before + here;
    if Pushed(n, x, y, dx, dy) {
      assert here == [c];
      TilesAtSnoc(g, before, c);
    } else {
      assert before + here == before;
    }
  }

  /**
   * `get_neighbours`: the tiles around `(x, y)`, visiting the offsets row by
   * row and skipping `(0, 0)` and every cell outside the grid.
   */
  method GetNeighbours(g: Grid, x: nat, y: nat) returns (neighbours: seq<Tile>)
    requires g.Square()
    ensures neighbours == TilesAt(g, NeighbourCells(|g.rows|, x, y))
  {
    neighbours := [];
    var rows := g.Height();
    var cols := if rows > 0 then g.Width() else 0;
    assert rows == |g.rows| && cols == rows;
    ghost var k: nat := 0;
    for dx := -1 to 2
      invariant k == 3 * (dx + 1)
      invariant neighbours == TilesAt(g, CellsUpTo(rows, x, y, k))
    {
      for dy := -1 to 2
        invariant k == 3 * (dx + 1) + (dy + 1)
        invariant neighbours == TilesAt(g, CellsUpTo(rows, x, y, k))
      {
        ghost var before := k;
        k := k + 1;
        if dx == 0 && dy == 0 {
          NeighbourStep(g, x, y, dx, dy, before, (0, 0));
          continue;
        }
        var nx, ny := x + dx, y + dy;
        if nx >= 0 && nx < rows && ny >= 0 && ny < cols {
          ghost var c: (nat, nat) := (nx, ny);
          NeighbourStep(g, x, y, dx, dy, before, c);
          assert TileAt(g, c) == g.rows[nx][ny];
          neighbours := neighbours + [g.rows[nx][ny]];
        } else {
          NeighbourStep(g, x, y, dx, dy, before, (0, 0));
        }
      }
    }
  }

  /** How many of the tiles hold a roll. */
  function CountOccupied(ts: seq<Tile>): (k: nat)
    ensures k <= |ts|
  {
    if ts == [] then 0
    else CountOccupied(ts[..|ts| - 1]) + (if ts[|ts| - 1].state == Occupied then 1 else 0)
  }

  lemma CountOccupiedSnoc(ts: seq<Tile>, t: Tile)
    ensures CountOccupied(ts + [t]) == CountOccupied(ts) + (if t.state == Occupied then 1 else 0)
  {
    assert (ts + [t])[..|ts|] == ts;
  }

  /** How many neighbours of `(x, y)` hold a roll. */
  function OccupiedNeighbours(g: Grid, x: nat, y: nat): (k: nat)
    requires g.Square()
  {
    CountOccupied(TilesAt(g, NeighbourCells(|g.rows|, x, y)))
  }

  /** The occupied cells adjacent to `(x, y)`, as a set. */
  ghost function OccupiedAround(g: Grid, x: nat, y: nat): set<(nat, nat)>
    requires g.Square()
  {
    set i: nat, j: nat | i < |g.rows| && j < |g.rows| && Adjacent(x, y, i, j) && g.rows[i][j].state == Occupied :: (i, j)
  }

  /** The neighbour count is the number of occupied adjacent cells inside the grid, at most eight. */
  lemma OccupiedNeighboursCounts(g: Grid, x: nat, y: nat)
    requires g.Square()
    ensures OccupiedNeighbours(g, x, y) == |OccupiedAround(g, x, y)|
    ensures OccupiedNeighbours(g, x, y) <= 8
  {
    var n := |g.rows|;
    var cs := NeighbourCells(n, x, y);
    NeighbourCellsExact(n, x, y);
    CountOccupiedCells(g, cs);
    assert OccupiedAmong(g, cs) == OccupiedAround(g, x, y);
  }

  /** The occupied cells among `cs`. */
  ghost function OccupiedAmong(g: Grid, cs: seq<(nat, nat)>): set<(nat, nat)>
    requires g.Square()
    requires forall i :: 0 <= i < |cs| ==> cs[i].0 < |g.rows| && cs[i].1 < |g.rows|
  {
    set c | c in cs && g.rows[c.0][c.1].state == Occupied
  }

  lemma OccupiedAmongSnoc(g: Grid, cs: seq<(nat, nat)>, c: (nat, nat))
    requires g.Square() && c.0 < |g.rows| && c.1 < |g.rows| && c !in cs
    requires forall i :: 0 <= i < |cs| ==> cs[i].0 < |g.rows| && cs[i].1 < |g.rows|
    ensures |OccupiedAmong(g, cs + [c])| == |OccupiedAmong(g, cs)| + (if g.rows[c.0][c.1].state == Occupied then 1 else 0)
  {
    var before, after := OccupiedAmong(g, cs), OccupiedAmong(g, cs + [c]);
    if g.rows[c.0][c.1].state == Occupied {
      assert after == before + {c};
    } else {
      assert after == before;
    }
  }

  /** Counting the tiles of distinct cells counts the set of occupied cells among them. */
  lemma {:induction false} CountOccupiedCells(g: Grid, cs: seq<(nat, nat)>)
    requires g.Square()
    requires forall i :: 0 <= i < |cs| ==> cs[i].0 < |g.rows| && cs[i].1 < |g.rows|
    requires forall a, b :: 0 <= a < b < |cs| ==> cs[a] != cs[b]
    ensures CountOccupied(TilesAt(g, cs)) == |OccupiedAmong(g, cs)|
  {
    if cs != [] {
      var init := cs[..|cs| - 1];
      var last := cs[|cs| - 1];
      CountOccupiedCells(g, init);
      assert cs == init + [last];
      TilesAtSnoc(g, init, last);
      assert TileAt(g, last) == g.rows[last.0][last.1];
      CountOccupiedSnoc(TilesAt(g, init), g.rows[last.0][last.1]);
      assert last !in init;
      OccupiedAmongSnoc(g, init, last);
    }
  }

  // ---------------------------------------------------------------- pass

  /** An occupied tile with fewer neighbours than this is accessible. */
  const MaxNeighbours: nat := 4

  /** `(x, y)` holds a roll in `g` and fewer than four of its neighbours in `g` do. */
  predicate Removable(g: Grid, x: nat, y: nat)
    requires g.Square() && x < |g.rows| && y < |g.rows|
  {
    g.rows[x][y].state == Occupied && OccupiedNeighbours(g, x, y) < MaxNeighbours
  }

  /** The tile at `(x, y)` after one pass, decided from `g` alone. */
  function NextTile(g: Grid, x: nat, y: nat): Tile
    requires g.Square() && x < |g.rows| && y < |g.rows|
  {
    if Removable(g, x, y) then Tile(Accessible) else g.rows[x][y]
  }

  /** The generation after one pass over the snapshot `g`. */
  function Next(g: Grid): (h: Grid)
    requires g.Square()
    ensures h.Square() && |h.rows| == |g.rows|
    ensures forall x, y :: 0 <= x < |g.rows| && 0 <= y < |g.rows| ==> h.rows[x][y] == NextTile(g, x, y)
  {
    var n := |g.rows|;
    Grid(seq(n, x requires 0 <= x < n => seq(n, y requires 0 <= y < n => NextTile(g, x, y))))
  }

  /** Which cells one pass over `g` marks, row by row. */
  function Marks(g: Grid): (ms: seq<seq<bool>>)
    requires g.Square()
    ensures |ms| == |g.rows| && forall x :: 0 <= x < |ms| ==> |ms[x]| == |g.rows|
  {
    var n := |g.rows|;
    seq(n, x requires 0 <= x < n => seq(n, y requires 0 <= y < n => Removable(g, x, y)))
  }

  /** How many of the first `m` flags are set. */
  function CountTrue(row: seq<bool>, m: nat): nat
    requires m <= |row|
  {
    if m == 0 then 0 else CountTrue(row, m - 1) + (if row[m - 1] then 1 else 0)
  }

  /** How many flags are set in the first `m` rows. */
  function CountTrueRows(ms: seq<seq<bool>>, m: nat): nat
    requires m <= |ms|
  {
    if m == 0 then 0 else CountTrueRows(ms, m - 1) + CountTrue(ms[m - 1], |ms[m - 1]|)
  }

  lemma {:induction false} CountTrueZero(row: seq<bool>, m: nat)
    requires m <= |row|
    ensures CountTrue(row, m) == 0 <==> forall y :: 0 <= y < m ==> !row[y]
  {
    if m > 0 {
      CountTrueZero(row, m - 1);
    }
  }

  lemma {:induction false} CountTrueRowsZero(ms: seq<seq<bool>>, m: nat)
    requires m <= |ms|
    ensures CountTrueRows(ms, m) == 0 <==> forall x, y :: 0 <= x < m && 0 <= y < |ms[x]| ==> !ms[x][y]
  {
    if m > 0 {
      CountTrueRowsZero(ms, m - 1);
      CountTrueZero(ms[m - 1], |ms[m - 1]|);
    }
  }

  /** The removable cells `(x, y)` with `y < m`. */
  function RemovableInRow(g: Grid, x: nat, m: nat): nat
    requires g.Square() && x < |g.rows| && m <= |g.rows|
  {
    CountTrue(Marks(g)[x], m)
  }

  /** The removable cells in the first `m` rows. */
  function RemovableUpTo(g: Grid, m: nat): nat
    requires g.Square() && m <= |g.rows|
  {
    CountTrueRows(Marks(g), m)
  }

  /** The number of cells one pass over `g` marks. */
  function RemovableCount(g: Grid): nat
    requires g.Square()
  {
    RemovableUpTo(g, |g.rows|)
  }

  /** The number of tiles of `g` that hold a roll. */
  function OccupiedCount(g: Grid): nat {
    OccupiedInRows(g.rows)
  }

  function OccupiedInRows(rs: seq<seq<Tile>>): nat {
    if rs == [] then 0 else OccupiedInRows(rs[..|rs| - 1]) + CountOccupied(rs[|rs| - 1])
  }

  /** Writing the next tile at `y` into a row that agrees with `next` before `y` and with `orig` from `y` on extends both agreements by one. */
  lemma RowStep(row: seq<Tile>, next: seq<Tile>, orig: seq<Tile>, y: nat, t: Tile)
    requires y < |row| == |next| == |orig|
    requires row[..y] == next[..y] && row[y..] == orig[y..] && t == next[y]
    ensures row[y := t][..y + 1] == next[..y + 1] && row[y := t][y + 1..] == orig[y + 1..]
  {
    assert row[y := t][..y + 1] == row[..y] + [t];
    assert next[..y + 1] == next[..y] + [next[y]];
    assert row[y..][1..] == row[y + 1..];
    assert orig[y..][1..] == orig[y + 1..];
  }

  /** What the loop body of `mark_removable_rolls` decides for `(x, y)`, from the neighbour tiles it gathers for an occupied cell. */
  lemma MarkDecision(g: Grid, x: nat, y: nat, ns: seq<Tile>)
    requires g.Square() && x < |g.rows| && y < |g.rows|
    requires g.rows[x][y].state == Occupied ==> ns == TilesAt(g, NeighbourCells(|g.rows|, x, y))
    ensures NextTile(g, x, y) == if g.rows[x][y].state == Occupied && CountOccupied(ns) < MaxNeighbours then Tile(Accessible) else g.rows[x][y]
    ensures RemovableInRow(g, x, y + 1) == RemovableInRow(g, x, y) + (if g.rows[x][y].state == Occupied && CountOccupied(ns) < MaxNeighbours then 1 else 0)
  {
  }

  /**
   * `mark_removable_rolls`: a copy of the grid in which every removable cell
   * of the input is marked accessible, and the number of cells marked.  The
   * loops read only the input grid and write only the copy.
   */
  method MarkRemovableRolls(grid: Grid) returns (updated: Grid, removable: nat)
    requires grid.Square() && |grid.rows| > 0
    ensures updated == Next(grid)
    ensures removable == RemovableCount(grid)
  {
    var n := grid.Height();
    updated := grid;
    removable := 0;
    for x := 0 to grid.Width()
      invariant |updated.rows| == n
      invariant forall i :: 0 <= i < x ==> updated.rows[i] == Next(grid).rows[i]
      invariant forall i :: x <= i < n ==> updated.rows[i] == grid.rows[i]
      invariant removable == RemovableUpTo(grid, x)
    {
      ghost var before := updated;
      for y := 0 to grid.Height()
        invariant |updated.rows| == n && |updated.rows[x]| == n
        invariant forall i :: 0 <= i < n && i != x ==> updated.rows[i] == before.rows[i]
        invariant updated.rows[x][..y] == Next(grid).rows[x][..y]
        invariant updated.rows[x][y..] == grid.rows[x][y..]
        invariant removable == RemovableUpTo(grid, x) + RemovableInRow(grid, x, y)
      {
        if grid.rows[x][y].state == Occupied {
          var neighbours := GetNeighbours(grid, x, y);
          var occupied := CountOccupied(neighbours);
          MarkDecision(grid, x, y, neighbours);
          if occupied < MaxNeighbours {
            RowStep(updated.rows[x], Next(grid).rows[x], grid.rows[x], y, updated.rows[x][y].(state := Accessible));
            updated := updated.(rows := updated.rows[x := updated.rows[x][y := updated.rows[x][y].(state := Accessible)]]);
            removable := removable + 1;
          } else {
            RowStep(updated.rows[x], Next(grid).rows[x], grid.rows[x], y, updated.rows[x][y]);
          }
        } else {
          MarkDecision(grid, x, y, []);
          RowStep(updated.rows[x], Next(grid).rows[x], grid.rows[x], y, updated.rows[x][y]);
        }
      }
    }
    assert updated.rows == Next(grid).rows by {
      forall i | 0 <= i < n ensures updated.rows[i] == Next(grid).rows[i] {
      }
    }
  }

  // --------------------------------------------------- facts about a pass

  /** A cell changes in a pass exactly when it is removable, and then it goes from occupied to accessible. */
  lemma PassChangesRemovable(g: Grid, x: nat, y: nat)
    requires g.Square() && x < |g.rows| && y < |g.rows|
    ensures Next(g).rows[x][y] != g.rows[x][y] <==> Removable(g, x, y)
    ensures Removable(g, x, y) ==> g.rows[x][y].state == Occupied && Next(g).rows[x][y].state == Accessible
    ensures g.rows[x][y].state != Occupied ==> Next(g).rows[x][y] == g.rows[x][y]
  {
  }

  lemma RemovableInRowConserves(g: Grid, x: nat, m: nat)
    requires g.Square() && x < |g.rows| && m <= |g.rows|
    ensures CountOccupied(Next(g).rows[x][..m]) + RemovableInRow(g, x, m) == CountOccupied(g.rows[x][..m])
  {
    if m > 0 {
      RemovableInRowConserves(g, x, m - 1);
      assert Next(g).rows[x][..m][..m - 1] == Next(g).rows[x][..m - 1];
      assert g.rows[x][..m][..m - 1] == g.rows[x][..m - 1];
    }
  }

  lemma {:induction false} RemovableUpToConserves(g: Grid, m: nat)
    requires g.Square() && m <= |g.rows|
    ensures OccupiedInRows(Next(g).rows[..m]) + RemovableUpTo(g, m) == OccupiedInRows(g.rows[..m])
  {
    if m > 0 {
      var n := |g.rows|;
      RemovableUpToConserves(g, m - 1);
      RemovableInRowConserves(g, m - 1, n);
      assert Next(g).rows[..m][..m - 1] == Next(g).rows[..m - 1];
      assert g.rows[..m][..m - 1] == g.rows[..m - 1];
      assert Next(g).rows[m - 1][..n] == Next(g).rows[m - 1];
      assert g.rows[m - 1][..n] == g.rows[m - 1];
    }
  }

  /** A pass lowers the number of rolls by exactly the number of cells it marks. */
  lemma PassConservation(g: Grid)
    requires g.Square()
    ensures OccupiedCount(Next(g)) + RemovableCount(g) == OccupiedCount(g)
  {
    RemovableUpToConserves(g, |g.rows|);
    assert Next(g).rows[..|g.rows|] == Next(g).rows;
    assert g.rows[..|g.rows|] == g.rows;
  }

  /** A pass that marks nothing returns its input: the grid is at a fixpoint. */
  lemma ZeroPassIsFixpoint(g: Grid)
    requires g.Square()
    requires RemovableCount(g) == 0
    ensures Next(g) == g
  {
    var n := |g.rows|;
    CountTrueRowsZero(Marks(g), n);
    assert Next(g).rows == g.rows by {
      forall x | 0 <= x < n ensures Next(g).rows[x] == g.rows[x] {
        forall y | 0 <= y < n ensures Next(g).rows[x][y] == g.rows[x][y] {
          assert !Marks(g)[x][y];
        }
      }
    }
  }

  // -------------------------------------------------------------- driver

  /** The sum of what the passes from `g` mark, up to and including the first pass that marks nothing. */
  function TotalRemoved(g: Grid): nat
    requires g.Square()
    decreases OccupiedCount(g)
  {
    var k := RemovableCount(g);
    if k == 0 then 0
    else
      PassConservation(g);
      k + TotalRemoved(Next(g))
  }

  /** The number of passes the driver runs from `g`. */
  function Passes(g: Grid): nat
    requires g.Square()
    decreases OccupiedCount(g)
  {
    if RemovableCount(g) == 0 then 1
    else
      PassConservation(g);
      1 + Passes(Next(g))
  }

  /** The grid the driver stops at. */
  function Fixpoint(g: Grid): Grid
    requires g.Square()
    decreases OccupiedCount(g)
  {
    if RemovableCount(g) == 0 then g
    else
      PassConservation(g);
      Fixpoint(Next(g))
  }

  /**
   * The driver stops at a fixpoint after at most one pass more than there are
   * rolls, and what it marks in total is what the rolls decreased by.
   */
  lemma {:induction false} DriverTerminates(g: Grid)
    requires g.Square()
    ensures Fixpoint(g).Square() && |Fixpoint(g).rows| == |g.rows|
    ensures Next(Fixpoint(g)) == Fixpoint(g) && RemovableCount(Fixpoint(g)) == 0
    ensures TotalRemoved(g) + OccupiedCount(Fixpoint(g)) == OccupiedCount(g)
    ensures TotalRemoved(g) <= OccupiedCount(g)
    ensures Passes(g) <= OccupiedCount(g) + 1
    ensures RemovableCount(g) <= TotalRemoved(g)
    decreases OccupiedCount(g)
  {
    PassConservation(g);
    if RemovableCount(g) == 0 {
      ZeroPassIsFixpoint(g);
    } else {
      DriverTerminates(Next(g));
    }
  }

  /** The grid after `i` passes. */
  function Generation(g: Grid, i: nat): (h: Grid)
    requires g.Square()
    ensures h.Square() && |h.rows| == |g.rows|
  {
    if i == 0 then g else Next(Generation(g, i - 1))
  }

  /** A tile that has stopped holding a roll never changes again in later passes. */
  lemma {:induction false} LeftOccupiedForGood(g: Grid, i: nat, j: nat, x: nat, y: nat)
    requires g.Square() && i <= j && x < |g.rows| && y < |g.rows|
    requires Generation(g, i).rows[x][y].state != Occupied
    ensures Generation(g, j).rows[x][y] == Generation(g, i).rows[x][y]
    decreases j
  {
    if j > i {
      LeftOccupiedForGood(g, i, j - 1, x, y);
      PassChangesRemovable(Generation(g, j - 1), x, y);
    }
  }

  /** `part_one`: what the first pass over the parsed grid marks. */
  method PartOne(lines: seq<string>) returns (answer: Option<nat>)
    requires ParseGrid(lines).Ok? && |lines| > 0
    ensures answer == Some(RemovableCount(ParseGrid(lines).value))
  {
    var grid := ParseGrid(lines).value;
    var _, removable := MarkRemovableRolls(grid);
    answer := Some(removable);
  }

  /**
   * The loop of `part_two`: passes are repeated, each on the previous pass's
   * output, until one marks nothing; the total sums every pass.
   */
  method RemoveAll(start: Grid) returns (total: nat, ghost passes: nat)
    requires start.Square() && |start.rows| > 0
    ensures total == TotalRemoved(start)
    ensures passes == Passes(start)
    ensures total <= OccupiedCount(start)
  {
    var grid, removable := MarkRemovableRolls(start);
    total := removable;
    passes := 1;
    if removable == 0 {
      ZeroPassIsFixpoint(start);
    }
    while removable > 0
      invariant grid.Square() && |grid.rows| == |start.rows|
      invariant total + TotalRemoved(grid) == TotalRemoved(start)
      invariant removable == 0 ==> RemovableCount(grid) == 0
      invariant if removable > 0 then passes + Passes(grid) == Passes(start) else passes == Passes(start)
      decreases OccupiedCount(grid) + removable
    {
      PassConservation(grid);
      if RemovableCount(grid) == 0 {
        ZeroPassIsFixpoint(grid);
      }
      grid, removable := MarkRemovableRolls(grid);
      total := total + removable;
      passes := passes + 1;
    }
    DriverTerminates(start);
  }

  /** `part_two`: every pass, run to a fixpoint on the parsed grid. */
  method PartTwo(lines: seq<string>) returns (answer: Option<nat>, ghost passes: nat)
    requires ParseGrid(lines).Ok? && |lines| > 0
    ensures answer == Some(TotalRemoved(ParseGrid(lines).value))
    ensures passes == Passes(ParseGrid(lines).value)
    ensures answer.value <= OccupiedCount(ParseGrid(lines).value)
  {
    var total;
    total, passes := RemoveAll(ParseGrid(lines).value);
    answer := Some(total);
  }
}
