/**
 * A rectangular grid of cells parsed from a block of text, with bounds-checked
 * reads and writes, neighbour enumeration and copying (class `Grid`).
 */
module Grids {
  import opened Points
  import opened PyText

  /**
   * One grid cell. Without integer mode every cell is a character. In integer
   * mode a digit becomes its value and anything else becomes `None`, written
   * `Absent` here. A write may store any of the three.
   */
  datatype Cell = Ch(c: char) | Num(n: int) | Absent

  datatype GridError =
    | RaggedRows    // "All rows must have the same length"
    | NoDirections  // "include_straight or include_diagonal must be True"

  datatype Result<T> = Ok(value: T) | Err(error: GridError)

  /** The cell one character of a stripped line becomes. */
  function CellOf(c: char, asInt: bool): Cell
  {
    if !asInt then Ch(c)
    else if IsDigit(c) then Num(DigitValue(c))
    else Absent
  }

  /**
   * `cell` is what the character `c` reads as: the character itself, or in
   * integer mode its digit value, or `Absent` for a non-digit.
   */
  ghost predicate ReadsAs(c: char, cell: Cell, asInt: bool)
  {
    (!asInt ==> cell == Ch(c)) &&
    (asInt ==> (cell.Num? <==> IsDigit(c)) &&
               (cell.Num? ==> 0 <= cell.n < 10 && DigitChar(cell.n) == c) &&
               (!cell.Num? ==> cell == Absent))
  }

  /** The row one stripped line becomes. */
  function ToCells(line: string, asInt: bool): (row: seq<Cell>)
    ensures |row| == |line|
    ensures forall i :: 0 <= i < |line| ==> ReadsAs(line[i], row[i], asInt)
  {
    seq(|line|, i requires 0 <= i < |line| => CellOf(line[i], asInt))
  }

  /**
   * The rows the constructor keeps from the lines of its input: every line
   * stripped, up to but excluding the first line that is blank once stripped.
   */
  function RowsOf(lines: seq<string>, asInt: bool): seq<seq<Cell>>
  {
    if lines == [] || Strip(lines[0]) == [] then []
    else [ToCells(Strip(lines[0]), asInt)] + RowsOf(lines[1..], asInt)
  }

  /** Row `i` is line `i` stripped and converted, and that line is not blank. */
  ghost predicate RowFromLine(lines: seq<string>, rows: seq<seq<Cell>>, i: nat, asInt: bool)
    requires i < |lines| && i < |rows|
  {
    Strip(lines[i]) != [] && rows[i] == ToCells(Strip(lines[i]), asInt)
  }

  /**
   * What RowsOf keeps: one row per line, each the stripped line converted, and
   * it stops exactly at the first blank line (or at the end of the input).
   */
  lemma RowsOfKeepsLinesUpToFirstBlank(lines: seq<string>, asInt: bool)
    ensures |RowsOf(lines, asInt)| <= |lines|
    ensures forall i :: 0 <= i < |RowsOf(lines, asInt)| ==> RowFromLine(lines, RowsOf(lines, asInt), i, asInt)
    ensures |RowsOf(lines, asInt)| < |lines| ==> Strip(lines[|RowsOf(lines, asInt)|]) == []
  {
    RowsOfRows(lines, asInt);
    RowsOfStops(lines, asInt);
  }

  /** Each row comes from the line at the same position. */
  lemma {:induction false} RowsOfRows(lines: seq<string>, asInt: bool)
    ensures |RowsOf(lines, asInt)| <= |lines|
    ensures forall i :: 0 <= i < |RowsOf(lines, asInt)| ==> RowFromLine(lines, RowsOf(lines, asInt), i, asInt)
  {
    if lines != [] && Strip(lines[0]) != [] {
      RowsOfRows(lines[1..], asInt);
      var rows := RowsOf(lines, asInt);
      var rest := RowsOf(lines[1..], asInt);
      assert rows == [ToCells(Strip(lines[0]), asInt)] + rest;
      forall i | 0 <= i < |rows| ensures RowFromLine(lines, rows, i, asInt) {
        if i > 0 {
          ShiftedRow(lines, rows, rest, i, asInt);
        }
      }
    }
  }

  /** The line after the last row, if there is one, is blank. */
  lemma {:induction false} RowsOfStops(lines: seq<string>, asInt: bool)
    ensures |RowsOf(lines, asInt)| < |lines| ==> Strip(lines[|RowsOf(lines, asInt)|]) == []
  {
    if lines != [] && Strip(lines[0]) != [] {
      RowsOfStops(lines[1..], asInt);
      var rows := RowsOf(lines, asInt);
      var rest := RowsOf(lines[1..], asInt);
      assert |rows| == |rest| + 1;
      if |rows| < |lines| {
        assert lines[|rows|] == lines[1..][|rest|];
      }
    }
  }

  /** Row `i` of `rows` is row `i - 1` of `rest`, which came from line `i - 1` of the lines after the first. */
  lemma ShiftedRow(lines: seq<string>, rows: seq<seq<Cell>>, rest: seq<seq<Cell>>, i: nat, asInt: bool)
    requires 0 < i < |lines| && |rows| == |rest| + 1 && i < |rows| && rows[1..] == rest
    requires RowFromLine(lines[1..], rest, i - 1, asInt)
    ensures RowFromLine(lines, rows, i, asInt)
  {
    assert rows[i] == rest[i - 1] && lines[i] == lines[1..][i - 1];
  }

  /** Every row has the length of the first one (vacuous for no rows). */
  ghost predicate Rectangular(rows: seq<seq<Cell>>)
  {
    forall i :: 0 <= i < |rows| ==> |rows[i]| == |rows[0]|
  }

  /** The rows kept from a text block, as the constructor reads them. */
  ghost function Parsed(input: string, asInt: bool): seq<seq<Cell>>
  {
    RowsOf(Split(input, '\n'), asInt)
  }

  /** The construction loop: read lines until the first blank one. */
  method ReadRows(input: string, asInt: bool) returns (rows: seq<seq<Cell>>)
    ensures rows == Parsed(input, asInt)
  {
    var lines := Split(input, '\n');
    rows := [];
    var i := 0;
    while i < |lines|
      invariant 0 <= i <= |lines|
      invariant RowsOf(lines, asInt) == rows + RowsOf(lines[i..], asInt)
    {
      var line := Strip(lines[i]);
      RowsOfFrom(lines, i, asInt);
      if line == [] {
        break;
      }
      rows := rows + [ToCells(line, asInt)];
      i := i + 1;
    }
    assert i == |lines| ==> lines[i..] == [];
  }

  /** The rows kept from the `i`-th line on: none at a blank line, else that line's row first. */
  lemma RowsOfFrom(lines: seq<string>, i: nat, asInt: bool)
    requires i < |lines|
    ensures Strip(lines[i]) == [] ==> RowsOf(lines[i..], asInt) == []
    ensures Strip(lines[i]) != [] ==>
      RowsOf(lines[i..], asInt) == [ToCells(Strip(lines[i]), asInt)] + RowsOf(lines[i + 1..], asInt)
  {
    assert lines[i..][0] == lines[i] && lines[i..][1..] == lines[i + 1..];
  }

  /** The empty text gives the empty grid (what `copy` starts from). */
  lemma EmptyTextHasNoRows(asInt: bool)
    ensures Parsed("", asInt) == []
  {
    assert Split("", '\n') == [""];
  }

  class Grid {
    /** The rows, top to bottom; each row is a sequence of cells, left to right. */
    var cells: seq<seq<Cell>>

    /** The class invariant: all rows are equally long. */
    ghost predicate Valid()
      reads this
    {
      Rectangular(cells)
    }

    /** A grid holding exactly the given rows. */
    constructor FromRows(rows: seq<seq<Cell>>)
      requires Rectangular(rows)
      ensures Valid() && cells == rows
    {
      cells := rows;
    }

    /** Number of rows (the `rows` property). */
    function Rows(): (n: nat)
      reads this
      ensures n == |cells|
    {
      |cells|
    }

    /** Number of columns (the `cols` property): the length of row 0, or 0 for no rows. */
    function Cols(): (n: nat)
      reads this
      ensures cells == [] ==> n == 0
      ensures Valid() ==> forall y :: 0 <= y < |cells| ==> |cells[y]| == n
    {
      if cells != [] then |cells[0]| else 0
    }

    /** Whether `p` addresses a cell: its row and its column are both in range. */
    function InBounds(p: Point): (b: bool)
      reads this
      ensures Valid() ==> (b <==> 0 <= p.y < |cells| && 0 <= p.x < |cells[p.y]|)
      ensures b ==> 0 <= p.y < Rows() && 0 <= p.x < Cols()
    {
      0 <= p.y < Rows() && 0 <= p.x < Cols()
    }

    /** `grid[p]`: the stored cell, or `None` (Absent) when `p` is out of bounds. */
    function Get(p: Point): (c: Cell)
      requires Valid()
      reads this
      ensures InBounds(p) ==> c == cells[p.y][p.x]
      ensures !InBounds(p) ==> c == Absent
    {
      if InBounds(p) then cells[p.y][p.x] else Absent
    }

    /** `grid[p] = v`: overwrites the cell at `p`; does nothing when `p` is out of bounds. */
    method Set(p: Point, v: Cell)
      requires Valid()
      modifies this
      ensures Valid()
      ensures Rows() == old(Rows()) && Cols() == old(Cols())
      ensures old(InBounds(p)) ==> cells == old(cells[p.y := cells[p.y][p.x := v]])
      ensures !old(InBounds(p)) ==> cells == old(cells)
      ensures forall q :: Get(q) == if q == p && InBounds(p) then v else old(Get(q))
    {
      if InBounds(p) {
        cells := cells[p.y := cells[p.y][p.x := v]];
      }
    }

    /** `copy()`: a new grid with the same cells. */
    method Copy() returns (g: Grid)
      requires Valid()
      ensures fresh(g) && g.Valid()
      ensures g.cells == cells
    {
      // the source starts from Grid('') (no rows) and then assigns a copy of every row
      g := new Grid.FromRows([]);
      g.cells := cells;
    }

    /**
     * `get_neighbors`: the in-bounds points one straight step and/or one
     * diagonal step away from `p`; an error when neither kind is asked for.
     */
    method Neighbors(p: Point, straight: bool, diagonal: bool) returns (r: Result<set<Point>>)
      ensures r.Err? <==> !straight && !diagonal
      ensures r.Err? ==> r.error == NoDirections
      ensures r.Ok? ==> forall q :: q in r.value <==> InBounds(q) && Offset(p, q) in Directions(straight, diagonal)
      ensures r.Ok? ==> |r.value| <= |Directions(straight, diagonal)|
    {
      var directions := Directions(straight, diagonal);
      if directions == [] {
        return Err(NoDirections);
      }
      var neighbors: set<Point> := {};
      var i := 0;
      while i < |directions|
        invariant 0 <= i <= |directions|
        invariant |neighbors| <= i
        invariant forall q :: q in neighbors <==> InBounds(q) && Offset(p, q) in directions[..i]
      {
        var neighbor := AddPoints(p, directions[i]);
        if InBounds(neighbor) {
          neighbors := neighbors + {neighbor};
        }
        OneMoreStep(p, directions, i);
        i := i + 1;
      }
      assert directions[..i] == directions;
      return Ok(neighbors);
    }
  }

  /** Walking one more step reaches exactly one more point. */
  lemma OneMoreStep(p: Point, steps: seq<Point>, i: nat)
    requires i < |steps|
    ensures forall q :: Offset(p, q) in steps[..i + 1] <==>
      Offset(p, q) in steps[..i] || q == AddPoints(p, steps[i])
  {
    assert steps[..i + 1] == steps[..i] + [steps[i]];
    forall q ensures Offset(p, q) == steps[i] <==> q == AddPoints(p, steps[i]) {
      AddOffset(p, q);
    }
  }

  /** `Grid(text, as_int)`: the grid of the kept rows, or an error when they are ragged. */
  method NewGrid(input: string, asInt: bool) returns (r: Result<Grid>)
    ensures r.Err? <==> !Rectangular(Parsed(input, asInt))
    ensures r.Err? ==> r.error == RaggedRows
    ensures r.Ok? ==> fresh(r.value) && r.value.Valid() && r.value.cells == Parsed(input, asInt)
    ensures r.Ok? ==> r.value.Rows() <= |Split(input, '\n')|
    ensures r.Ok? && r.value.Rows() < |Split(input, '\n')| ==> Strip(Split(input, '\n')[r.value.Rows()]) == []
  {
    RowsOfKeepsLinesUpToFirstBlank(Split(input, '\n'), asInt);
    var rows := ReadRows(input, asInt);
    if rows != [] && !(forall i :: 0 <= i < |rows| ==> |rows[i]| == |rows[0]|) {
      return Err(RaggedRows);
    }
    var g := new Grid.FromRows(rows);
    return Ok(g);
  }

  /**
   * The `rows` of a grid read from a text block is the position of the first
   * blank line, or the number of lines when there is none.
   */
  lemma GridRowCount(g: Grid, input: string, asInt: bool)
    requires g.cells == Parsed(input, asInt)
    ensures g.Rows() <= |Split(input, '\n')|
    ensures forall y :: 0 <= y < g.Rows() ==> Strip(Split(input, '\n')[y]) != []
    ensures g.Rows() < |Split(input, '\n')| ==> Strip(Split(input, '\n')[g.Rows()]) == []
  {
    var lines := Split(input, '\n');
    var rows := RowsOf(lines, asInt);
    RowsOfKeepsLinesUpToFirstBlank(lines, asInt);
    assert g.Rows() == |rows|;
    forall y | 0 <= y < |rows| ensures Strip(lines[y]) != [] {
      assert RowFromLine(lines, rows, y, asInt);
    }
  }

  /** Writing to a copy leaves the original grid as it was. */
  method CopyThenSet(g: Grid, p: Point, v: Cell) returns (h: Grid)
    requires g.Valid()
    ensures fresh(h) && h.Valid()
    ensures g.cells == old(g.cells)
    ensures h.Get(p) == if g.InBounds(p) then v else Absent
  {
    h := g.Copy();
    h.Set(p, v);
  }
}
