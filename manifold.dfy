/**
 * The tachyon manifold of src/bin/07.rs.
 *
 * A manifold is a table of parts, one line of the input per row and one
 * character per part: `S` the start, `.` free space, `^` a splitter and `|`
 * a beam.  Parsing fails on any other character; displaying a manifold
 * writes the characters back, each row followed by a newline.
 */
module Manifold {
  import opened Wrappers
  import opened Text

  datatype Part = Start | FreeSpace | Splitter | Beam

  datatype ManifoldError = InvalidInput

  datatype TachyonManifold = TachyonManifold(rows: seq<seq<Part>>)

  /** `Part::parse`: the four part characters, and an error for any other. */
  function ParsePart(c: char): (r: Result<Part, ManifoldError>)
    ensures r.Ok? <==> c == 'S' || c == '.' || c == '^' || c == '|'
    ensures r.Err? ==> r.error == InvalidInput
  {
    match c
    case 'S' => Ok(Start)
    case '.' => Ok(FreeSpace)
    case '^' => Ok(Splitter)
    case '|' => Ok(Beam)
    case _ => Err(InvalidInput)
  }

  /** The `Display` mapping of a part: its character. */
  function ShowPart(p: Part): char {
    match p
    case Start => 'S'
    case FreeSpace => '.'
    case Splitter => '^'
    case Beam => '|'
  }

  /** Parsing a displayed part gives the part back. */
  lemma ParseShowPart(p: Part)
    ensures ParsePart(ShowPart(p)) == Ok(p)
  {
  }

  /** Displaying a parsed part gives the character back: display inverts parsing. */
  lemma ShowParsePart(c: char)
    requires ParsePart(c).Ok?
    ensures ShowPart(ParsePart(c).value) == c
  {
  }

  predicate ValidRow(line: string) {
    forall j :: 0 <= j < |line| ==> ParsePart(line[j]).Ok?
  }

  /** One line: `chars().map(Part::parse).collect()`, the first bad character failing the row. */
  function ParseRow(line: string): Result<seq<Part>, ManifoldError> {
    if line == [] then Ok([])
    else
      match ParsePart(line[0])
      case Err(e) => Err(e)
      case Ok(p) =>
        match ParseRow(line[1..])
        case Err(e) => Err(e)
        case Ok(rest) => Ok([p] + rest)
  }

  /** A row parses exactly when every character is a part; then it has one part per character. */
  lemma {:induction false} ParseRowIff(line: string)
    ensures ParseRow(line).Ok? <==> ValidRow(line)
    ensures ParseRow(line).Ok? ==>
      |ParseRow(line).value| == |line| &&
      forall j :: 0 <= j < |line| ==> ParsePart(line[j]) == Ok(ParseRow(line).value[j])
  {
    if line != [] {
      var tail := line[1..];
      ParseRowIff(tail);
      assert forall j :: 1 <= j < |line| ==> line[j] == tail[j - 1];
      if ParseRow(line).Ok? {
        var parts := ParseRow(line).value;
        assert parts == [ParsePart(line[0]).value] + ParseRow(tail).value;
        forall j | 0 <= j < |line| ensures ParsePart(line[j]) == Ok(parts[j]) {
          if j > 0 {
            assert parts[j] == ParseRow(tail).value[j - 1];
          }
        }
      } else if ParsePart(line[0]).Ok? {
        var j :| 0 <= j < |tail| && ParsePart(tail[j]).Err?;
        assert ParsePart(line[j + 1]).Err?;
      }
    }
  }

  predicate ValidLines(lines: seq<string>) {
    forall i :: 0 <= i < |lines| ==> ValidRow(lines[i])
  }

  /** The rows of the lines, the first failing row failing the whole table. */
  function ParseRows(lines: seq<string>): Result<seq<seq<Part>>, ManifoldError> {
    if lines == [] then Ok([])
    else
      match ParseRow(lines[0])
      case Err(e) => Err(e)
      case Ok(row) =>
        match ParseRows(lines[1..])
        case Err(e) => Err(e)
        case Ok(rest) => Ok([row] + rest)
  }

  /** `TachyonManifold::parse`: one row per line. */
  function ParseManifold(lines: seq<string>): Result<TachyonManifold, ManifoldError> {
    match ParseRows(lines)
    case Err(e) => Err(e)
    case Ok(rows) => Ok(TachyonManifold(rows))
  }

  /** The table parses exactly when every line does; then row i is the parse of line i. */
  lemma {:induction false} ParseRowsIff(lines: seq<string>)
    ensures ParseRows(lines).Ok? <==> forall i :: 0 <= i < |lines| ==> ParseRow(lines[i]).Ok?
    ensures ParseRows(lines).Ok? ==>
      |ParseRows(lines).value| == |lines| &&
      forall i :: 0 <= i < |lines| ==> ParseRow(lines[i]) == Ok(ParseRows(lines).value[i])
  {
    if lines != [] {
      var tail := lines[1..];
      ParseRowsIff(tail);
      assert forall i :: 1 <= i < |lines| ==> lines[i] == tail[i - 1];
      if ParseRows(lines).Ok? {
        var rows := ParseRows(lines).value;
        assert rows == [ParseRow(lines[0]).value] + ParseRows(tail).value;
        forall i | 0 <= i < |lines| ensures ParseRow(lines[i]) == Ok(rows[i]) {
          if i > 0 {
            assert rows[i] == ParseRows(tail).value[i - 1];
          }
        }
      } else if ParseRow(lines[0]).Ok? {
        var i :| 0 <= i < |tail| && ParseRow(tail[i]).Err?;
        assert ParseRow(lines[i + 1]).Err?;
      }
    }
  }

  /**
   * A manifold parses exactly when every character of every line is a part;
   * then it has one row per line and one part per character, each the part
   * that character names.
   */
  lemma ParseManifoldIff(lines: seq<string>)
    ensures ParseManifold(lines).Ok? <==> ValidLines(lines)
    ensures ParseManifold(lines).Ok? ==>
      var rows := ParseManifold(lines).value.rows;
      |rows| == |lines| &&
      forall i :: 0 <= i < |lines| ==>
        |rows[i]| == |lines[i]| && forall j :: 0 <= j < |lines[i]| ==> ParsePart(lines[i][j]) == Ok(rows[i][j])
  {
    ParseRowsIff(lines);
    forall i | 0 <= i < |lines| {
      ParseRowIff(lines[i]);
    }
  }

  // ------------------------------------------------------------ display

  /** The characters of one row. */
  function ShowRow(parts: seq<Part>): (s: string)
    ensures |s| == |parts|
    ensures forall j :: 0 <= j < |parts| ==> s[j] == ShowPart(parts[j])
  {
    seq(|parts|, j requires 0 <= j < |parts| => ShowPart(parts[j]))
  }

  /** The rows of a manifold as lines. */
  function ShowRows(rows: seq<seq<Part>>): (ls: seq<string>)
    ensures |ls| == |rows|
  {
    seq(|rows|, i requires 0 <= i < |rows| => ShowRow(rows[i]))
  }

  /** `Display for TachyonManifold`: every row's characters, each followed by a newline. */
  function Show(m: TachyonManifold): string {
    Display(m.rows)
  }

  function Display(rows: seq<seq<Part>>): string {
    if rows == [] then [] else ShowRow(rows[0]) + "\n" + Display(rows[1..])
  }

  /** A parsed row displays as its line: display inverts parsing. */
  lemma ShowParseRow(line: string)
    requires ParseRow(line).Ok?
    ensures ShowRow(ParseRow(line).value) == line
  {
    ParseRowIff(line);
    var parts := ParseRow(line).value;
    forall j | 0 <= j < |line| ensures ShowRow(parts)[j] == line[j] {
      ShowParsePart(line[j]);
    }
  }

  /** A displayed row parses back to its parts. */
  lemma {:induction false} ParseShowRow(parts: seq<Part>)
    ensures ParseRow(ShowRow(parts)) == Ok(parts)
  {
    if parts != [] {
      var line := ShowRow(parts);
      ParseShowRow(parts[1..]);
      assert line[1..] == ShowRow(parts[1..]);
      ParseShowPart(parts[0]);
      assert parts == [parts[0]] + parts[1..];
    }
  }

  /** Parsing the lines of a displayed manifold gives the manifold back. */
  lemma {:induction false} ParseShowRows(rows: seq<seq<Part>>)
    ensures ParseRows(ShowRows(rows)) == Ok(rows)
  {
    if rows != [] {
      var ls := ShowRows(rows);
      ParseShowRows(rows[1..]);
      assert ls[1..] == ShowRows(rows[1..]);
      ParseShowRow(rows[0]);
      assert rows == [rows[0]] + rows[1..];
    }
  }

  /** Displaying a parsed manifold writes its lines back, each followed by a newline. */
  lemma ShowParseManifold(lines: seq<string>)
    requires ParseManifold(lines).Ok?
    ensures ShowRows(ParseManifold(lines).value.rows) == lines
    ensures Show(ParseManifold(lines).value) == Join(lines + [[]], '\n')
  {
    var rows := ParseManifold(lines).value.rows;
    ParseRowsIff(lines);
    forall i | 0 <= i < |lines| ensures ShowRows(rows)[i] == lines[i] {
      ShowParseRow(lines[i]);
    }
    DisplayJoin(rows);
  }

  /** The display is the rows' lines joined by newlines, with a final newline. */
  lemma {:induction false} DisplayJoin(rows: seq<seq<Part>>)
    ensures Display(rows) == Join(ShowRows(rows) + [[]], '\n')
  {
    if rows != [] {
      var tail := rows[1..];
      DisplayJoin(tail);
      var ls := ShowRows(rows);
      assert ls[1..] == ShowRows(tail);
      assert ls + [[]] == [ls[0]] + (ShowRows(tail) + [[]]);
      JoinCons(ls[0], ShowRows(tail) + [[]], '\n');
    }
  }

  /** No part displays as a newline, so splitting the display at newlines gives back the rows. */
  lemma SplitDisplay(m: TachyonManifold)
    ensures Split(Show(m), '\n') == ShowRows(m.rows) + [[]]
  {
    var ls := ShowRows(m.rows) + [[]];
    forall i | 0 <= i < |ls| ensures '\n' !in ls[i] {
      if i < |m.rows| {
        assert ls[i] == ShowRow(m.rows[i]);
      }
    }
    DisplayJoin(m.rows);
    SplitJoin(ls, '\n');
  }

  // --------------------------------------------------------------- parts

  /** `part_one`: the manifold is parsed (a bad character stops the program) and there is no answer yet. */
  function PartOne(lines: seq<string>): (r: Option<nat>)
    requires ParseManifold(lines).Ok?
    ensures r.None?
  {
    None
  }

  /** `part_two` has no answer. */
  function PartTwo(lines: seq<string>): (r: Option<nat>)
    ensures r.None?
  {
    None
  }
}
