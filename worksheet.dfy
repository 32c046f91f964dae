/**
 * The cephalopod maths worksheet of src/bin/06.rs.
 *
 * The worksheet is a block of lines.  Each whitespace-separated column of
 * words is one problem: some numbers and, somewhere below them, a `+` or a
 * `*`.  In human mode the numbers are the words of the column.  In
 * cephalopod mode the same problems are re-read: each problem's block of
 * characters is cut out of the lines, and every character column of that
 * block, read top to bottom, is one number, the columns taken right to
 * left.  An answer is the sum over the problems of their sum or product.
 */
module Worksheet {
  import opened Wrappers
  import opened Text

  datatype Operator = Add | Multiply

  datatype Problem = Problem(numbers: seq<nat>, operator: Operator)

  datatype MathMode = Human | Cephalopod

  datatype WorksheetError = FailedToParse

  /** `Problem::default`: no numbers yet, and the operator `Add`. */
  const DefaultProblem := Problem([], Add)

  // ------------------------------------------------------- the first pass

  /** A word the first pass accepts: a `u64`, `+` or `*`. */
  predicate WordOk(w: string) {
    ParseU64(w).Some? || w == "+" || w == "*"
  }

  /** What one word does to the problem of its column. */
  function ApplyWord(p: Problem, w: string): Problem {
    match ParseU64(w)
    case Some(v) => p.(numbers := p.numbers + [v])
    case None =>
      if w == "+" then p.(operator := Add)
      else if w == "*" then p.(operator := Multiply)
      else p
  }

  predicate LineOk(words: seq<string>) {
    forall j :: 0 <= j < |words| ==> WordOk(words[j])
  }

  /** The c-th word of a line goes to the c-th problem. */
  function ApplyLine(ps: seq<Problem>, words: seq<string>): (r: seq<Problem>)
    ensures |r| == |ps|
  {
    seq(|ps|, c requires 0 <= c < |ps| => if c < |words| then ApplyWord(ps[c], words[c]) else ps[c])
  }

  /** The words of every line: `split_whitespace` line by line. */
  function WordTable(lines: seq<string>): (table: seq<seq<string>>)
    ensures |table| == |lines|
  {
    seq(|lines|, k requires 0 <= k < |lines| => Words(lines[k]))
  }

  /** No line has more words than there are problems: `problems[column]` never runs out. */
  predicate Fits(lines: seq<string>, n: nat) {
    forall i :: 0 <= i < |lines| ==> |Words(lines[i])| <= n
  }

  /** The problems after the first `i` lines of words, or `None` once a word is neither a number nor an operator. */
  function FirstPass(table: seq<seq<string>>, n: nat, i: nat): (r: Option<seq<Problem>>)
    requires i <= |table|
    ensures r.Some? ==> |r.value| == n
  {
    if i == 0 then Some(seq(n, _ => DefaultProblem))
    else
      match FirstPass(table, n, i - 1)
      case None => None
      case Some(ps) =>
        if LineOk(table[i - 1]) then Some(ApplyLine(ps, table[i - 1])) else None
  }

  lemma {:induction false} FirstPassNoneSticks(table: seq<seq<string>>, n: nat, m: nat, i: nat)
    requires m <= i <= |table| && FirstPass(table, n, m).None?
    ensures FirstPass(table, n, i).None?
    decreases i
  {
    if i > m {
      FirstPassNoneSticks(table, n, m, i - 1);
    }
  }

  /** The inner loop of the first pass: each word of a line applied to the problem of its column. */
  method ReadLine(problems: seq<Problem>, words: seq<string>) returns (r: Option<seq<Problem>>)
    requires |words| <= |problems|
    ensures r == if LineOk(words) then Some(ApplyLine(problems, words)) else None
  {
    var updated := problems;
    for column := 0 to |words|
      invariant |updated| == |problems|
      invariant forall j :: 0 <= j < column ==> WordOk(words[j])
      invariant forall c :: 0 <= c < |problems| ==>
        updated[c] == (if c < column then ApplyWord(problems[c], words[c]) else problems[c])
    {
      var word := words[column];
      match ParseU64(word)
      case Some(number) =>
        updated := updated[column := updated[column].(numbers := updated[column].numbers + [number])];
      case None =>
        if word == "+" {
          updated := updated[column := updated[column].(operator := Add)];
        } else if word == "*" {
          updated := updated[column := updated[column].(operator := Multiply)];
        } else {
          assert !WordOk(words[column]);
          return None;
        }
    }
    assert updated == ApplyLine(problems, words);
    r := Some(updated);
  }

  /**
   * The first half of `parse_input`: one problem per word of the first line,
   * each starting as the default; every word of every line then goes, by its
   * position in the line, to its problem, and an unknown word is an error.
   */
  method ReadProblems(lines: seq<string>, n: nat) returns (r: Option<seq<Problem>>)
    requires Fits(lines, n)
    ensures r == FirstPass(WordTable(lines), n, |lines|)
  {
    ghost var table := WordTable(lines);
    var problems := seq(n, _ => DefaultProblem);
    for i := 0 to |lines|
      invariant FirstPass(table, n, i) == Some(problems)
    {
      var words := Words(lines[i]);
      assert words == table[i];
      var next := ReadLine(problems, words);
      if next.None? {
        FirstPassNoneSticks(table, n, i + 1, |lines|);
        return None;
      }
      problems := next.value;
    }
    r := Some(problems);
  }

  // ------------------------------------------------ what the first pass means

  /** The words in column `c` of the first `i` lines, top to bottom. */
  function ColumnWords(table: seq<seq<string>>, i: nat, c: nat): seq<string>
    requires i <= |table|
  {
    if i == 0 then []
    else
      var words := table[i - 1];
      ColumnWords(table, i - 1, c) + (if c < |words| then [words[c]] else [])
  }

  /** The values of the words that are `u64`s, in order. */
  function NumbersOf(ws: seq<string>): seq<nat> {
    if ws == [] then []
    else
      var rest := NumbersOf(ws[..|ws| - 1]);
      match ParseU64(ws[|ws| - 1])
      case Some(v) => rest + [v]
      case None => rest
  }

  /** The operator the last `+` or `*` names, `Add` when there is none. */
  function OperatorOf(ws: seq<string>): Operator {
    if ws == [] then Add
    else if ws[|ws| - 1] == "+" then Add
    else if ws[|ws| - 1] == "*" then Multiply
    else OperatorOf(ws[..|ws| - 1])
  }

  /** The problem a column of words describes. */
  function Summary(ws: seq<string>): Problem {
    Problem(NumbersOf(ws), OperatorOf(ws))
  }

  lemma ApplyWordSummary(ws: seq<string>, w: string)
    ensures ApplyWord(Summary(ws), w) == Summary(ws + [w])
  {
    assert (ws + [w])[..|ws|] == ws;
    assert ParseU64("+").None? && ParseU64("*").None?;
  }

  /** The first `i` lines parse exactly when all their words are numbers or operators. */
  lemma {:induction false} FirstPassOk(table: seq<seq<string>>, n: nat, i: nat)
    requires i <= |table|
    ensures FirstPass(table, n, i).Some? <==> forall k :: 0 <= k < i ==> LineOk(table[k])
  {
    if i > 0 {
      FirstPassOk(table, n, i - 1);
    }
  }

  /** After the first `i` lines, problem `c` is what the words of column `c` describe. */
  lemma {:induction false} FirstPassColumns(table: seq<seq<string>>, n: nat, i: nat)
    requires i <= |table| && FirstPass(table, n, i).Some?
    ensures forall c :: 0 <= c < n ==> FirstPass(table, n, i).value[c] == Summary(ColumnWords(table, i, c))
  {
    if i > 0 {
      FirstPassColumns(table, n, i - 1);
      var words := table[i - 1];
      forall c | 0 <= c < n ensures FirstPass(table, n, i).value[c] == Summary(ColumnWords(table, i, c)) {
        if c < |words| {
          ApplyWordSummary(ColumnWords(table, i - 1, c), words[c]);
        } else {
          assert ColumnWords(table, i, c) == ColumnWords(table, i - 1, c);
        }
      }
    }
  }

  /** The numbers of a column are the values of its number words, in line order. */
  lemma {:induction false} NumbersOfAllNumbers(ws: seq<string>)
    requires forall j :: 0 <= j < |ws| ==> ParseU64(ws[j]).Some?
    ensures |NumbersOf(ws)| == |ws|
    ensures forall j :: 0 <= j < |ws| ==> NumbersOf(ws)[j] == ParseU64(ws[j]).value
  {
    if ws != [] {
      var init := ws[..|ws| - 1];
      NumbersOfAllNumbers(init);
      assert forall j :: 0 <= j < |init| ==> init[j] == ws[j];
    }
  }

  /** `*` wins exactly when it occurs with no `+` after it: the last operator word decides. */
  lemma {:induction false} OperatorLastWins(ws: seq<string>)
    ensures OperatorOf(ws) == Multiply <==>
      exists j :: 0 <= j < |ws| && ws[j] == "*" && forall k :: j < k < |ws| ==> ws[k] != "+"
  {
    if ws != [] {
      var init := ws[..|ws| - 1];
      var last := |ws| - 1;
      OperatorLastWins(init);
      if ws[last] == "*" {
        assert ws[last] == "*";
      } else if ws[last] == "+" {
        forall j | 0 <= j < |ws| && ws[j] == "*" ensures exists k :: j < k < |ws| && ws[k] == "+" {
          assert j < last;
        }
      } else {
        if OperatorOf(ws) == Multiply {
          var j :| 0 <= j < |init| && init[j] == "*" && forall k :: j < k < |init| ==> init[k] != "+";
          assert ws[j] == "*" && forall k :: j < k < |ws| ==> ws[k] != "+";
        } else {
          forall j | 0 <= j < |ws| && ws[j] == "*" ensures exists k :: j < k < |ws| && ws[k] == "+" {
            assert j < last;
            assert init[j] == "*";
            var k :| j < k < |init| && init[k] == "+";
            assert ws[k] == "+";
          }
        }
      }
    }
  }

  // ------------------------------------------------------ cephalopod widths

  /** `numbers.iter().max()` of a problem that has numbers. */
  function MaxOf(xs: seq<nat>): (m: nat)
    requires |xs| > 0
    ensures m in xs
    ensures forall k :: 0 <= k < |xs| ==> xs[k] <= m
  {
    if |xs| == 1 then xs[0]
    else
      var rest := MaxOf(xs[..|xs| - 1]);
      if xs[|xs| - 1] > rest then xs[|xs| - 1] else rest
  }

  /** Every problem has a number: otherwise `flat_map` drops it and `assert_eq!` stops the program. */
  predicate AllHaveNumbers(ps: seq<Problem>) {
    forall idx :: 0 <= idx < |ps| ==> |ps[idx].numbers| > 0
  }

  /** The width of a problem: the length of its largest number written in decimal. */
  function Widths(ps: seq<Problem>): (ws: seq<nat>)
    requires AllHaveNumbers(ps)
    ensures |ws| == |ps|
  {
    seq(|ps|, idx requires 0 <= idx < |ps| => |DecimalString(MaxOf(ps[idx].numbers))|)
  }

  /** A larger number never has a shorter decimal form. */
  lemma DecimalStringMonotone(m: nat, n: nat)
    requires m <= n
    ensures |DecimalString(m)| <= |DecimalString(n)|
  {
    var a, b := |DecimalString(n)|, |DecimalString(m)|;
    if m > 0 && a < b {
      DecimalStringLength(m);
      DecimalStringLength(n);
    }
  }

  /** Every number of a problem fits in its width, and one of them fills it. */
  lemma WidthsFit(ps: seq<Problem>, idx: nat)
    requires AllHaveNumbers(ps) && idx < |ps|
    ensures forall k :: 0 <= k < |ps[idx].numbers| ==> |DecimalString(ps[idx].numbers[k])| <= Widths(ps)[idx]
    ensures exists k :: 0 <= k < |ps[idx].numbers| && |DecimalString(ps[idx].numbers[k])| == Widths(ps)[idx]
  {
    var xs := ps[idx].numbers;
    var m := MaxOf(xs);
    forall k | 0 <= k < |xs| ensures |DecimalString(xs[k])| <= Widths(ps)[idx] {
      DecimalStringMonotone(xs[k], m);
    }
    var k :| 0 <= k < |xs| && xs[k] == m;
    assert |DecimalString(xs[k])| == Widths(ps)[idx];
  }

  // ---------------------------------------------- cutting the lines apart

  /** Where problem `idx` starts in a line: the widths before it, each followed by one separator. */
  function Offset(widths: seq<nat>, idx: nat): nat
    requires idx <= |widths|
  {
    if idx == 0 then 0 else Offset(widths, idx - 1) + widths[idx - 1] + 1
  }

  /** `take(w)` once `pos` characters of the line are consumed: fewer than `w` near its end. */
  function Take(line: string, pos: nat, w: nat): (s: string)
    ensures |s| <= w
  {
    var a := if pos < |line| then pos else |line|;
    var b := if pos + w < |line| then pos + w else |line|;
    line[a..b]
  }

  function Spaces(w: nat): string {
    seq(w, _ => ' ')
  }

  /**
   * The block of problem `idx` once the first `upto` lines are cut: `height`
   * rows, initially blank, where each cut line replaces its row by its piece.
   */
  function MatrixUpTo(lines: seq<string>, widths: seq<nat>, height: nat, idx: nat, upto: nat): (m: seq<string>)
    requires idx < |widths| && upto <= |lines|
    ensures |m| == height
  {
    seq(height, r requires 0 <= r < height =>
      if r < upto then Take(lines[r], Offset(widths, idx), widths[idx]) else Spaces(widths[idx]))
  }

  /** The block of problem `idx` once every line is cut. */
  function Matrix(lines: seq<string>, widths: seq<nat>, height: nat, idx: nat): (m: seq<string>)
    requires idx < |widths|
    ensures |m| == height
  {
    MatrixUpTo(lines, widths, height, idx, |lines|)
  }

  lemma CutStep(lines: seq<string>, widths: seq<nat>, height: nat, idx: nat, row: nat)
    requires idx < |widths| && row < |lines| && row < height
    ensures MatrixUpTo(lines, widths, height, idx, row)[row := Take(lines[row], Offset(widths, idx), widths[idx])]
      == MatrixUpTo(lines, widths, height, idx, row + 1)
  {
  }

  lemma CutSkip(lines: seq<string>, widths: seq<nat>, height: nat, idx: nat, row: nat)
    requires idx < |widths| && row < |lines| && row == height
    ensures MatrixUpTo(lines, widths, height, idx, row) == MatrixUpTo(lines, widths, height, idx, row + 1)
  {
  }

  /**
   * The cutting loop of `parse_input`: every line but the one at `height`
   * (the operators) is walked with one character cursor, giving each problem
   * in turn its width of characters and then skipping one separator.
   */
  method CutRows(lines: seq<string>, widths: seq<nat>, height: nat) returns (matrices: seq<seq<string>>)
    requires |lines| <= height + 1
    ensures |matrices| == |widths|
    ensures forall idx :: 0 <= idx < |widths| ==> matrices[idx] == Matrix(lines, widths, height, idx)
  {
    matrices := seq(|widths|, idx requires 0 <= idx < |widths| => MatrixUpTo(lines, widths, height, idx, 0));
    for row := 0 to |lines|
      invariant |matrices| == |widths|
      invariant forall idx :: 0 <= idx < |widths| ==> matrices[idx] == MatrixUpTo(lines, widths, height, idx, row)
    {
      if row == height {
        forall idx | 0 <= idx < |widths|
          ensures matrices[idx] == MatrixUpTo(lines, widths, height, idx, row + 1)
        {
          CutSkip(lines, widths, height, idx, row);
        }
        continue;
      }
      var line := lines[row];
      var pos := 0;
      for problemIdx := 0 to |widths|
        invariant |matrices| == |widths|
        invariant pos == Offset(widths, problemIdx)
        invariant forall idx :: 0 <= idx < problemIdx ==> matrices[idx] == MatrixUpTo(lines, widths, height, idx, row + 1)
        invariant forall idx :: problemIdx <= idx < |widths| ==> matrices[idx] == MatrixUpTo(lines, widths, height, idx, row)
      {
        CutStep(lines, widths, height, problemIdx, row);
        matrices := matrices[problemIdx := matrices[problemIdx][row := Take(line, pos, widths[problemIdx])]];
        pos := pos + widths[problemIdx] + 1;
      }
    }
  }

  /** A line laid out as pieces of the problems' widths with one space between gives each problem its piece. */
  lemma {:induction false} CutInvertsLayout(pieces: seq<string>, widths: seq<nat>, idx: nat)
    requires |pieces| == |widths| && idx < |pieces|
    requires forall j :: 0 <= j < |pieces| ==> |pieces[j]| == widths[j]
    ensures Take(Join(pieces, ' '), Offset(widths, idx), widths[idx]) == pieces[idx]
    decreases |pieces|
  {
    var line := Join(pieces, ' ');
    if idx == 0 {
      if |pieces| > 1 {
        assert line == pieces[0] + ([' '] + Join(pieces[1..], ' '));
      }
      assert line[0..widths[0]] == pieces[0];
    } else {
      var tail, rest := pieces[1..], widths[1..];
      CutInvertsLayout(tail, rest, idx - 1);
      OffsetShift(widths, idx);
      var prefix := pieces[0] + [' '];
      assert line == prefix + Join(tail, ' ');
      assert widths[idx] == rest[idx - 1];
      TakeShift(prefix, Join(tail, ' '), Offset(rest, idx - 1), widths[idx]);
    }
  }

  /** Characters consumed before a line's tail do not change what its tail gives. */
  lemma TakeShift(prefix: string, tail: string, pos: nat, w: nat)
    ensures Take(prefix + tail, |prefix| + pos, w) == Take(tail, pos, w)
  {
    var line := prefix + tail;
    var a := if pos < |tail| then pos else |tail|;
    var b := if pos + w < |tail| then pos + w else |tail|;
    assert Take(line, |prefix| + pos, w) == line[|prefix| + a..|prefix| + b];
    forall i | 0 <= i < b - a ensures line[|prefix| + a..|prefix| + b][i] == tail[a..b][i] {
      assert line[|prefix| + a + i] == tail[a + i];
    }
  }

  /** The offsets after the first problem are its width and separator past those of the others. */
  lemma {:induction false} OffsetShift(widths: seq<nat>, idx: nat)
    requires 0 < idx <= |widths|
    ensures Offset(widths, idx) == widths[0] + 1 + Offset(widths[1..], idx - 1)
  {
    if idx > 1 {
      OffsetShift(widths, idx - 1);
    }
  }

  // -------------------------------------------------- reading the columns

  /** A character read as a digit, `unwrap_or(0)` for anything else. */
  function DigitOrZero(c: char): (d: nat)
    ensures d < 10
    ensures IsDigit(c) ==> d == DigitOf(c)
  {
    if IsDigit(c) then DigitOf(c) else 0
  }

  /** The characters of column `column`, top to bottom. */
  function Column(matrix: seq<string>, column: nat): (col: string)
    requires forall r :: 0 <= r < |matrix| ==> column < |matrix[r]|
    ensures |col| == |matrix|
  {
    seq(|matrix|, r requires 0 <= r < |matrix| => matrix[r][column])
  }

  /** The digits of a column, top to bottom, with its whitespace skipped. */
  function ColumnDigits(col: string): (ds: seq<nat>)
    ensures AreDigits(ds)
  {
    if col == [] then []
    else if IsWhitespace(col[0]) then ColumnDigits(col[1..])
    else [DigitOrZero(col[0])] + ColumnDigits(col[1..])
  }

  /** The number a column of a block stands for. */
  function ColumnValue(matrix: seq<string>, column: nat): nat
    requires forall r :: 0 <= r < |matrix| ==> column < |matrix[r]|
  {
    DigitsValue(ColumnDigits(Column(matrix, column)))
  }

  /** The digits skip exactly the whitespace: they are those of the visible characters. */
  lemma {:induction false} ColumnDigitsVisible(col: string)
    requires AllDigitChars(Visible(col))
    ensures ColumnDigits(col) == CharDigits(Visible(col))
  {
    if col != [] {
      var v := Visible(col[1..]);
      if !IsWhitespace(col[0]) {
        assert Visible(col) == [col[0]] + v;
        assert forall i :: 0 <= i < |v| ==> v[i] == Visible(col)[i + 1];
      }
      ColumnDigitsVisible(col[1..]);
    }
  }

  /** A column whose visible characters are digits stands for the decimal number they spell, top to bottom. */
  lemma ColumnValueDecimal(matrix: seq<string>, column: nat)
    requires forall r :: 0 <= r < |matrix| ==> column < |matrix[r]|
    requires AllDigitChars(Visible(Column(matrix, column)))
    ensures ColumnValue(matrix, column) == StringValue(Visible(Column(matrix, column)))
  {
    ColumnDigitsVisible(Column(matrix, column));
  }

  lemma DigitsValueCons(d: nat, ds: seq<nat>)
    ensures DigitsValue([d] + ds) == d * Pow10(|ds|) + DigitsValue(ds)
  {
    DigitsValueAppend([d], ds);
    assert DigitsValue([d]) == DigitsValue([]) * 10 + d;
  }

  /**
   * The inner loop of the reading: rows bottom to top, each digit weighted by
   * the power of ten of the digits below it, whitespace lowering the count.
   */
  method ReadColumn(matrix: seq<string>, column: nat) returns (number: nat)
    requires forall r :: 0 <= r < |matrix| ==> column < |matrix[r]|
    ensures number == ColumnValue(matrix, column)
  {
    ghost var col := Column(matrix, column);
    var rows := |matrix|;
    number := 0;
    var numberOfDigits: nat := rows;
    for row := rows downto 0
      invariant numberOfDigits == row + |ColumnDigits(col[row..])|
      invariant number == DigitsValue(ColumnDigits(col[row..]))
    {
      ghost var below := ColumnDigits(col[row + 1..]);
      assert col[row..][1..] == col[row + 1..];
      if IsWhitespace(matrix[row][column]) {
        numberOfDigits := numberOfDigits - 1;
        continue;
      }
      var digit := DigitOrZero(matrix[row][column]);
      var factor := Pow10(numberOfDigits - row - 1);
      DigitsValueCons(digit, below);
      number := number + digit * factor;
    }
    assert col[0..] == col;
  }

  /** Every row of the block is at least as long as the first, which gives the number of columns. */
  predicate Readable(matrix: seq<string>) {
    |matrix| > 0 && forall r :: 0 <= r < |matrix| ==> |matrix[0]| <= |matrix[r]|
  }

  /** The numbers a block stands for: one per column, the rightmost first. */
  function ColumnNumbers(matrix: seq<string>): (xs: seq<nat>)
    requires Readable(matrix)
    ensures |xs| == |matrix[0]|
  {
    var columns := |matrix[0]|;
    seq(columns, k requires 0 <= k < columns => ColumnValue(matrix, columns - 1 - k))
  }

  /** The k-th number is the column k places from the right. */
  lemma ColumnNumbersAt(matrix: seq<string>, k: nat)
    requires Readable(matrix) && k < |matrix[0]|
    ensures ColumnNumbers(matrix)[k] == ColumnValue(matrix, |matrix[0]| - 1 - k)
  {
  }

  /** The outer loop of the reading: the columns from right to left. */
  method ReadNumbers(matrix: seq<string>) returns (numbers: seq<nat>)
    requires Readable(matrix)
    ensures numbers == ColumnNumbers(matrix)
  {
    var columns := |matrix[0]|;
    numbers := [];
    for column := columns downto 0
      invariant |numbers| == columns - column
      invariant forall k :: 0 <= k < |numbers| ==> numbers[k] == ColumnValue(matrix, columns - 1 - k)
    {
      var number := ReadColumn(matrix, column);
      numbers := numbers + [number];
    }
  }

  // --------------------------------------------------------- parse_input

  /**
   * What cephalopod mode needs of a worksheet whose words parse: a first
   * problem for the height, numbers in every problem, no line below the
   * operator row, and blocks whose first row is their shortest.
   */
  predicate CephalopodReady(lines: seq<string>)
    requires |lines| > 0
  {
    var n := |Words(lines[0])|;
    var first := FirstPass(WordTable(lines), n, |lines|);
    first.Some? ==>
      var ps := first.value;
      n > 0 && AllHaveNumbers(ps) && |lines| <= |ps[0].numbers| + 1 &&
      forall idx :: 0 <= idx < n ==> Readable(Matrix(lines, Widths(ps), |ps[0].numbers|, idx))
  }

  /** `parse_input` as a function of the lines. */
  function Parsed(lines: seq<string>, mode: MathMode): (r: Result<seq<Problem>, WorksheetError>)
    requires |lines| > 0
    requires mode == Cephalopod ==> CephalopodReady(lines)
    ensures r.Ok? ==> |r.value| == |Words(lines[0])|
  {
    var n := |Words(lines[0])|;
    match FirstPass(WordTable(lines), n, |lines|)
    case None => Err(FailedToParse)
    case Some(ps) =>
      if mode == Human then Ok(ps)
      else
        var widths := Widths(ps);
        var height := |ps[0].numbers|;
        Ok(seq(n, idx requires 0 <= idx < n => ps[idx].(numbers := ColumnNumbers(Matrix(lines, widths, height, idx)))))
  }

  /**
   * `parse_input`: the first pass, and in cephalopod mode the cutting and
   * the reading of every block, each problem keeping its operator.
   */
  method ParseInput(lines: seq<string>, mode: MathMode) returns (r: Result<seq<Problem>, WorksheetError>)
    requires |lines| > 0 && Fits(lines, |Words(lines[0])|)
    requires mode == Cephalopod ==> CephalopodReady(lines)
    ensures r == Parsed(lines, mode)
  {
    var n := |Words(lines[0])|;
    var first := ReadProblems(lines, n);
    if first.None? {
      return Err(FailedToParse);
    }
    var problems := first.value;
    if mode == Human {
      return Ok(problems);
    }
    var height := |problems[0].numbers|;
    var widths := Widths(problems);
    var matrices := CutRows(lines, widths, height);
    for idx := 0 to n
      invariant |problems| == n
      invariant forall j :: 0 <= j < n ==>
        problems[j] == (if j < idx then first.value[j].(numbers := ColumnNumbers(Matrix(lines, widths, height, j))) else first.value[j])
    {
      var numbers := ReadNumbers(matrices[idx]);
      problems := problems[idx := problems[idx].(numbers := numbers)];
    }
    assert problems == Parsed(lines, mode).value;
    r := Ok(problems);
  }

  /**
   * In human mode the worksheet parses exactly when every word is a number or
   * an operator; there is one problem per word of the first line, and problem
   * `c` holds the number words of column `c` in line order and the operator
   * its last operator word names (`Add` by default).
   */
  lemma HumanMeaning(lines: seq<string>)
    requires |lines| > 0
    ensures Parsed(lines, Human).Ok? <==> forall k :: 0 <= k < |lines| ==> LineOk(Words(lines[k]))
    ensures Parsed(lines, Human).Ok? ==>
      var ps := Parsed(lines, Human).value;
      |ps| == |Words(lines[0])| &&
      forall c :: 0 <= c < |ps| ==> ps[c] == Summary(ColumnWords(WordTable(lines), |lines|, c))
  {
    var table := WordTable(lines);
    var n := |Words(lines[0])|;
    FirstPassOk(table, n, |lines|);
    assert forall k :: 0 <= k < |lines| ==> table[k] == Words(lines[k]);
    match FirstPass(table, n, |lines|)
    case None =>
      assert Parsed(lines, Human) == Err(FailedToParse);
    case Some(ps) =>
      assert Parsed(lines, Human) == Ok(ps);
      FirstPassColumns(table, n, |lines|);
  }

  /**
   * In cephalopod mode each problem keeps the operator the human reading
   * gives it, and its numbers are those of its block, one per column.
   */
  lemma CephalopodMeaning(lines: seq<string>, idx: nat)
    requires |lines| > 0 && CephalopodReady(lines) && Parsed(lines, Cephalopod).Ok?
    requires idx < |Parsed(lines, Cephalopod).value|
    ensures var ps := FirstPass(WordTable(lines), |Words(lines[0])|, |lines|).value;
      var m := Matrix(lines, Widths(ps), |ps[0].numbers|, idx);
      var p := Parsed(lines, Cephalopod).value[idx];
      Readable(m) && Parsed(lines, Human).Ok? && p.operator == Parsed(lines, Human).value[idx].operator &&
      p.numbers == ColumnNumbers(m) && |p.numbers| == |m[0]|
  {
    var n := |Words(lines[0])|;
    var ps := FirstPass(WordTable(lines), n, |lines|).value;
    var m := Matrix(lines, Widths(ps), |ps[0].numbers|, idx);
    assert Parsed(lines, Human) == Ok(ps);
    var numbers := ColumnNumbers(m);
    assert Parsed(lines, Cephalopod).value[idx] == ps[idx].(numbers := numbers);
  }

  // ---------------------------------------------------------- evaluation

  function Sum(xs: seq<nat>): nat {
    if xs == [] then 0 else Sum(xs[..|xs| - 1]) + xs[|xs| - 1]
  }

  function Product(xs: seq<nat>): nat {
    if xs == [] then 1 else Product(xs[..|xs| - 1]) * xs[|xs| - 1]
  }

  /** A problem's result: the sum of its numbers for `Add`, their product for `Multiply`. */
  function Evaluate(p: Problem): nat {
    match p.operator
    case Add => Sum(p.numbers)
    case Multiply => Product(p.numbers)
  }

  /** The answer: the results of all problems added up. */
  function Total(ps: seq<Problem>): nat {
    if ps == [] then 0 else Total(ps[..|ps| - 1]) + Evaluate(ps[|ps| - 1])
  }

  lemma {:induction false} SumAppend(a: seq<nat>, b: seq<nat>)
    ensures Sum(a + b) == Sum(a) + Sum(b)
    decreases |b|
  {
    if b == [] {
      assert a + b == a;
    } else {
      assert (a + b)[..|a + b| - 1] == a + b[..|b| - 1];
      SumAppend(a, b[..|b| - 1]);
    }
  }

  lemma {:induction false} ProductAppend(a: seq<nat>, b: seq<nat>)
    ensures Product(a + b) == Product(a) * Product(b)
    decreases |b|
  {
    if b == [] {
      assert a + b == a;
    } else {
      var init := b[..|b| - 1];
      var d := b[|b| - 1];
      assert (a + b)[..|a + b| - 1] == a + init;
      ProductAppend(a, init);
      assert Product(a + b) == Product(a) * Product(init) * d;
    }
  }

  /** The answer splits over the problems: a group of problems adds its own total. */
  lemma {:induction false} TotalAppend(a: seq<Problem>, b: seq<Problem>)
    ensures Total(a + b) == Total(a) + Total(b)
    decreases |b|
  {
    if b == [] {
      assert a + b == a;
    } else {
      assert (a + b)[..|a + b| - 1] == a + b[..|b| - 1];
      TotalAppend(a, b[..|b| - 1]);
    }
  }

  function Reverse(xs: seq<nat>): (r: seq<nat>)
    ensures |r| == |xs|
  {
    if xs == [] then [] else [xs[|xs| - 1]] + Reverse(xs[..|xs| - 1])
  }

  lemma {:induction false} SumReverse(xs: seq<nat>)
    ensures Sum(Reverse(xs)) == Sum(xs)
  {
    if xs != [] {
      var init := xs[..|xs| - 1];
      var d := xs[|xs| - 1];
      SumReverse(init);
      SumAppend([d], Reverse(init));
      assert Sum([d]) == Sum([]) + d;
    }
  }

  lemma {:induction false} ProductReverse(xs: seq<nat>)
    ensures Product(Reverse(xs)) == Product(xs)
  {
    if xs != [] {
      var init := xs[..|xs| - 1];
      var d := xs[|xs| - 1];
      ProductReverse(init);
      ProductAppend([d], Reverse(init));
      assert Product([d]) == Product([]) * d;
    }
  }

  /**
   * The order of the numbers does not matter to a result: reading the
   * columns right to left or left to right gives the same answer.
   */
  lemma EvaluateReverse(p: Problem)
    ensures Evaluate(p.(numbers := Reverse(p.numbers))) == Evaluate(p)
  {
    SumReverse(p.numbers);
    ProductReverse(p.numbers);
  }

  /** A product is zero exactly when one of its numbers is. */
  lemma {:induction false} ProductZero(xs: seq<nat>)
    ensures Product(xs) == 0 <==> exists k :: 0 <= k < |xs| && xs[k] == 0
  {
    if xs != [] {
      var init := xs[..|xs| - 1];
      ProductZero(init);
      assert forall k :: 0 <= k < |init| ==> init[k] == xs[k];
      if Product(xs) == 0 && Product(init) != 0 {
        assert xs[|xs| - 1] == 0;
      }
    }
  }

  // --------------------------------------------------------------- parts

  /** `part_one`: the answer over the problems as humans read them. */
  method PartOne(lines: seq<string>) returns (answer: Option<nat>)
    requires |lines| > 0 && Fits(lines, |Words(lines[0])|)
    requires Parsed(lines, Human).Ok?
    ensures answer == Some(Total(Parsed(lines, Human).value))
  {
    var problems := ParseInput(lines, Human);
    answer := Some(Total(problems.value));
  }

  /** `part_two`: the answer over the problems as cephalopods read them. */
  method PartTwo(lines: seq<string>) returns (answer: Option<nat>)
    requires |lines| > 0 && Fits(lines, |Words(lines[0])|)
    requires CephalopodReady(lines) && Parsed(lines, Cephalopod).Ok?
    ensures answer == Some(Total(Parsed(lines, Cephalopod).value))
  {
    var problems := ParseInput(lines, Cephalopod);
    answer := Some(Total(problems.value));
  }
}
