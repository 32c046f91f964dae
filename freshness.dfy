/**
 * The ingredient database of src/bin/05.rs.
 *
 * The input lists inclusive `lo-hi` ranges of fresh ingredient ids, then a
 * blank line, then one ingredient id per line.  The first answer counts the
 * ingredients whose id lies in the union of the ranges.
 */
module Freshness {
  import opened Wrappers
  import opened Text

  /** An inclusive range of ids. */
  datatype Range = Range(lo: nat, hi: nat)

  /** The three messages the parser can fail with. */
  datatype FreshError = FailedToParse | InvalidRange | WrongIngredient

  // --------------------------------------------------------------- ranges

  /** `collect::<Result<Vec<u64>, _>>()`: every piece parsed as a u64, or nothing at the first piece that is not one. */
  function ParseBounds(pieces: seq<string>): (r: Option<seq<nat>>)
  {
    if pieces == [] then Some([])
    else
      match ParseU64(pieces[0])
      case None => None
      case Some(v) =>
        match ParseBounds(pieces[1..])
        case None => None
        case Some(vs) => Some([v] + vs)
  }

  /** The bounds exist exactly when every piece is a u64, and then they are the pieces' values in order. */
  lemma {:induction false} ParseBoundsIff(pieces: seq<string>)
    ensures ParseBounds(pieces).Some? <==> forall i :: 0 <= i < |pieces| ==> ParseU64(pieces[i]).Some?
    ensures ParseBounds(pieces).Some? ==>
      |ParseBounds(pieces).value| == |pieces| &&
      forall i :: 0 <= i < |pieces| ==> ParseU64(pieces[i]) == Some(ParseBounds(pieces).value[i])
  {
    if pieces != [] {
      var tail := pieces[1..];
      ParseBoundsIff(tail);
      assert forall i :: 1 <= i < |pieces| ==> pieces[i] == tail[i - 1];
      if ParseBounds(pieces).Some? {
        var vs := ParseBounds(pieces).value;
        assert vs == [ParseU64(pieces[0]).value] + ParseBounds(tail).value;
        forall i | 0 <= i < |pieces| ensures ParseU64(pieces[i]) == Some(vs[i]) {
          if i > 0 {
            assert vs[i] == ParseBounds(tail).value[i - 1];
          }
        }
      } else if ParseU64(pieces[0]).Some? {
        var i :| 0 <= i < |tail| && ParseU64(tail[i]).None?;
        assert pieces[i + 1] == tail[i];
      }
    }
  }

  /**
   * `Range::parse`: the line is split at every `-` (it is not trimmed); a
   * piece that is not a u64 fails the parse, and otherwise there must be
   * exactly two bounds, the first at most the second.
   */
  function ParseRange(line: string): (r: Result<Range, FreshError>)
  {
    match ParseBounds(Split(line, '-'))
    case None => Err(FailedToParse)
    case Some(bounds) =>
      if |bounds| == 2 && bounds[0] <= bounds[1] then Ok(Range(bounds[0], bounds[1]))
      else Err(InvalidRange)
  }

  /**
   * A range parses exactly when every `-`-separated piece is a u64, there
   * are two of them and they are in order (equal bounds allowed); a bad
   * piece is reported as such, whatever the number of pieces.
   */
  lemma ParseRangeIff(line: string)
    ensures var pieces := Split(line, '-');
      (ParseRange(line).Ok? <==>
        |pieces| == 2 && ParseU64(pieces[0]).Some? && ParseU64(pieces[1]).Some? &&
        ParseU64(pieces[0]).value <= ParseU64(pieces[1]).value) &&
      (ParseRange(line).Ok? ==>
        ParseRange(line).value == Range(ParseU64(pieces[0]).value, ParseU64(pieces[1]).value)) &&
      ((exists i :: 0 <= i < |pieces| && ParseU64(pieces[i]).None?) <==> ParseRange(line) == Err(FailedToParse))
  {
    ParseBoundsIff(Split(line, '-'));
  }

  /** How a range is written in the database. */
  function ShowRange(r: Range): string {
    DecimalString(r.lo) + "-" + DecimalString(r.hi)
  }

  /** Parsing a written range gives it back, also when both bounds are equal. */
  lemma ParseShowRange(r: Range)
    requires r.lo <= r.hi < U64Limit
    ensures ParseRange(ShowRange(r)) == Ok(r)
  {
    var a, b := DecimalString(r.lo), DecimalString(r.hi);
    ParseU64Decimal(r.lo);
    ParseU64Decimal(r.hi);
    ParsedU64Charset(a);
    ParsedU64Charset(b);
    assert Join([a, b], '-') == ShowRange(r);
    SplitJoin([a, b], '-');
    ParseBoundsIff([a, b]);
  }

  // ------------------------------------------------------------- sections

  /** The index of the first empty line at or after `i`, or the number of lines when there is none. */
  function FirstBlankFrom(lines: seq<string>, i: nat): (k: nat)
    requires i <= |lines|
    ensures i <= k <= |lines|
    ensures forall j :: i <= j < k ==> lines[j] != []
    ensures k < |lines| ==> lines[k] == []
    decreases |lines| - i
  {
    if i == |lines| || lines[i] == [] then i else FirstBlankFrom(lines, i + 1)
  }

  /** The index of the first empty line, or the number of lines when there is none. */
  function FirstBlank(lines: seq<string>): (k: nat)
    ensures k <= |lines|
    ensures forall j :: 0 <= j < k ==> lines[j] != []
    ensures k < |lines| ==> lines[k] == []
  {
    FirstBlankFrom(lines, 0)
  }

  /** What `parse` makes of each of the first `n` lines, or the error of the first line it rejects. */
  function Collect<T>(parse: string -> Result<T, FreshError>, lines: seq<string>, n: nat): Result<seq<T>, FreshError>
    requires n <= |lines|
  {
    if n == 0 then Ok([])
    else
      match Collect(parse, lines, n - 1)
      case Err(e) => Err(e)
      case Ok(xs) =>
        match parse(lines[n - 1])
        case Err(e) => Err(e)
        case Ok(x) => Ok(xs + [x])
  }

  /** What `parse` makes of the non-empty lines among lines `lo` to `n - 1`, or `WrongIngredient` at the first it rejects. */
  function CollectNonBlank(parse: string -> Option<nat>, lines: seq<string>, lo: nat, n: nat): Result<seq<nat>, FreshError>
    requires lo <= n <= |lines|
    decreases n - lo
  {
    if n == lo then Ok([])
    else
      match CollectNonBlank(parse, lines, lo, n - 1)
      case Err(e) => Err(e)
      case Ok(ids) =>
        if lines[n - 1] == [] then Ok(ids)
        else
          match parse(lines[n - 1])
          case None => Err(WrongIngredient)
          case Some(id) => Ok(ids + [id])
  }

  /**
   * What `parse_input` returns: the lines before the first empty line are
   * ranges, the non-empty lines after it are ids, and the first bad line in
   * input order decides the error.
   */
  function Sections(lines: seq<string>): Result<(seq<Range>, seq<nat>), FreshError> {
    var k := FirstBlank(lines);
    match Collect(ParseRange, lines, k)
    case Err(e) => Err(e)
    case Ok(rs) =>
      if k == |lines| then Ok((rs, []))
      else
        match CollectNonBlank(ParseU64, lines, k + 1, |lines|)
        case Err(e) => Err(e)
        case Ok(ids) => Ok((rs, ids))
  }

  /** Once the first `m` lines have failed, longer prefixes fail the same way. */
  lemma {:induction false} CollectErrSticks<T>(parse: string -> Result<T, FreshError>, lines: seq<string>, m: nat, n: nat)
    requires m <= n <= |lines| && Collect(parse, lines, m).Err?
    ensures Collect(parse, lines, n) == Collect(parse, lines, m)
    decreases n
  {
    if n > m {
      CollectErrSticks(parse, lines, m, n - 1);
    }
  }

  /** Once the lines up to `m` have failed, longer stretches fail the same way. */
  lemma {:induction false} NonBlankErrSticks(parse: string -> Option<nat>, lines: seq<string>, lo: nat, m: nat, n: nat)
    requires lo <= m <= n <= |lines| && CollectNonBlank(parse, lines, lo, m).Err?
    ensures CollectNonBlank(parse, lines, lo, n) == CollectNonBlank(parse, lines, lo, m)
    decreases n
  {
    if n > m {
      NonBlankErrSticks(parse, lines, lo, m, n - 1);
    }
  }

  /** The lines are collected exactly when `parse` accepts every one, and then into its results in order. */
  lemma {:induction false} CollectIff<T>(parse: string -> Result<T, FreshError>, lines: seq<string>, n: nat)
    requires n <= |lines|
    ensures Collect(parse, lines, n).Ok? <==> forall j :: 0 <= j < n ==> parse(lines[j]).Ok?
    ensures Collect(parse, lines, n).Ok? ==>
      |Collect(parse, lines, n).value| == n && forall j :: 0 <= j < n ==> parse(lines[j]) == Ok(Collect(parse, lines, n).value[j])
  {
    if n > 0 {
      CollectIff(parse, lines, n - 1);
    }
  }

  /** The non-empty lines among lines `lo` to `n - 1`, in order. */
  function NonBlank(lines: seq<string>, lo: nat, n: nat): (r: seq<string>)
    requires lo <= n <= |lines|
    ensures |r| <= n - lo
    decreases n - lo
  {
    if n == lo then []
    else NonBlank(lines, lo, n - 1) + (if lines[n - 1] == [] then [] else [lines[n - 1]])
  }

  /** The lines are collected exactly when `parse` accepts every non-empty one, and then into its results in order. */
  lemma {:induction false} CollectNonBlankIff(parse: string -> Option<nat>, lines: seq<string>, lo: nat, n: nat)
    requires lo <= n <= |lines|
    ensures CollectNonBlank(parse, lines, lo, n).Ok? <==> forall j :: lo <= j < n && lines[j] != [] ==> parse(lines[j]).Some?
    ensures CollectNonBlank(parse, lines, lo, n).Ok? ==>
      |CollectNonBlank(parse, lines, lo, n).value| == |NonBlank(lines, lo, n)| &&
      forall m :: 0 <= m < |NonBlank(lines, lo, n)| ==>
        parse(NonBlank(lines, lo, n)[m]) == Some(CollectNonBlank(parse, lines, lo, n).value[m])
    decreases n - lo
  {
    if n > lo {
      CollectNonBlankIff(parse, lines, lo, n - 1);
    }
  }

  /**
   * `parse_input` succeeds exactly when every line before the first empty
   * line is a range and every later non-empty line is a u64; one malformed
   * line fails the whole input.
   */
  lemma SectionsIff(lines: seq<string>)
    ensures var k := FirstBlank(lines);
      Sections(lines).Ok? <==>
        (forall j :: 0 <= j < k ==> ParseRange(lines[j]).Ok?) &&
        (forall j :: k < j < |lines| && lines[j] != [] ==> ParseU64(lines[j]).Some?)
  {
    var k := FirstBlank(lines);
    CollectIff(ParseRange, lines, k);
    if k < |lines| {
      CollectNonBlankIff(ParseU64, lines, k + 1, |lines|);
    }
  }

  /** A successful parse holds one range per line before the first empty line and one id per later non-empty line. */
  lemma SectionsContents(lines: seq<string>)
    requires Sections(lines).Ok?
    ensures var k := FirstBlank(lines);
      var (rs, ids) := Sections(lines).value;
      |rs| == k && (forall j :: 0 <= j < k ==> ParseRange(lines[j]) == Ok(rs[j])) &&
      (k == |lines| ==> ids == []) &&
      (k < |lines| ==>
        |ids| == |NonBlank(lines, k + 1, |lines|)| &&
        forall m :: 0 <= m < |ids| ==> ParseU64(NonBlank(lines, k + 1, |lines|)[m]) == Some(ids[m]))
  {
    var k := FirstBlank(lines);
    CollectIff(ParseRange, lines, k);
    if k < |lines| {
      CollectNonBlankIff(ParseU64, lines, k + 1, |lines|);
    }
  }

  /** What the loop of `parse_input` carries from line to line: the flag and the two vectors. */
  datatype Progress = Progress(finished: bool, ranges: seq<Range>, ids: seq<nat>)

  /** One line of the loop of `parse_input`. */
  function Step(p: Progress, line: string): Result<Progress, FreshError> {
    if line == [] then Ok(p.(finished := true))
    else if p.finished then
      match ParseU64(line)
      case None => Err(WrongIngredient)
      case Some(id) => Ok(p.(ids := p.ids + [id]))
    else
      match ParseRange(line)
      case Err(e) => Err(e)
      case Ok(r) => Ok(p.(ranges := p.ranges + [r]))
  }

  /** The loop of `parse_input` over the first `n` lines, stopping at the first error. */
  function Run(lines: seq<string>, n: nat): Result<Progress, FreshError>
    requires n <= |lines|
  {
    if n == 0 then Ok(Progress(false, [], []))
    else
      match Run(lines, n - 1)
      case Err(e) => Err(e)
      case Ok(p) => Step(p, lines[n - 1])
  }

  /** One more line is one more step of the loop. */
  lemma RunNext(lines: seq<string>, i: nat, p: Progress)
    requires i < |lines| && Run(lines, i) == Ok(p)
    ensures Run(lines, i + 1) == Step(p, lines[i])
  {
  }

  lemma {:induction false} RunErrSticks(lines: seq<string>, m: nat, n: nat)
    requires m <= n <= |lines| && Run(lines, m).Err?
    ensures Run(lines, n) == Run(lines, m)
    decreases n
  {
    if n > m {
      RunErrSticks(lines, m, n - 1);
    }
  }

  /** The loop before the first empty line: exactly the ranges of the lines read so far. */
  lemma {:induction false} RunInRanges(lines: seq<string>, n: nat)
    requires n <= FirstBlank(lines)
    ensures Run(lines, n) == match Collect(ParseRange, lines, n)
                             case Err(e) => Err(e)
                             case Ok(rs) => Ok(Progress(false, rs, []))
  {
    if n > 0 {
      RunInRanges(lines, n - 1);
    }
  }

  /** The loop after the first empty line: the ranges of the range section and the ids read so far. */
  lemma {:induction false} RunInIds(lines: seq<string>, n: nat)
    requires FirstBlank(lines) < n <= |lines|
    ensures var k := FirstBlank(lines);
      Run(lines, n) == match Collect(ParseRange, lines, k)
                       case Err(e) => Err(e)
                       case Ok(rs) =>
                         match CollectNonBlank(ParseU64, lines, k + 1, n)
                         case Err(e) => Err(e)
                         case Ok(ids) => Ok(Progress(true, rs, ids))
  {
    var k := FirstBlank(lines);
    if n == k + 1 {
      RunInRanges(lines, k);
    } else {
      RunInIds(lines, n - 1);
    }
  }

  /** Running the loop over every line gives the two sections. */
  lemma RunIsSections(lines: seq<string>)
    ensures Sections(lines) == match Run(lines, |lines|)
                               case Err(e) => Err(e)
                               case Ok(p) => Ok((p.ranges, p.ids))
  {
    if FirstBlank(lines) == |lines| {
      RunInRanges(lines, |lines|);
    } else {
      RunInIds(lines, |lines|);
    }
  }

  /**
   * One non-empty line of the loop of `parse_input`: an ingredient id once the
   * ranges are finished, a range before.
   */
  method ReadEntry(finished: bool, ranges: seq<Range>, ingredients: seq<nat>, line: string)
    returns (r: Result<Progress, FreshError>)
    requires line != []
    ensures r == Step(Progress(finished, ranges, ingredients), line)
  {
    if finished {
      match ParseU64(line)
      case None =>
        r := Err(WrongIngredient);
      case Some(id) =>
        r := Ok(Progress(finished, ranges, ingredients + [id]));
    } else {
      match ParseRange(line)
      case Err(e) =>
        r := Err(e);
      case Ok(range) =>
        r := Ok(Progress(finished, ranges + [range], ingredients));
    }
  }

  /**
   * `parse_input`: one pass over the lines with a flag that the first empty
   * line sets for good; later empty lines are skipped, and the first line
   * that does not parse ends the pass with its error.
   */
  method ParseInput(lines: seq<string>) returns (r: Result<(seq<Range>, seq<nat>), FreshError>)
    ensures r == Sections(lines)
  {
    var parsingRangesFinished := false;
    var ranges: seq<Range> := [];
    var ingredients: seq<nat> := [];
    for i := 0 to |lines|
      invariant Run(lines, i) == Ok(Progress(parsingRangesFinished, ranges, ingredients))
    {
      var line := lines[i];
      RunNext(lines, i, Progress(parsingRangesFinished, ranges, ingredients));
      if line == [] {
        parsingRangesFinished := true;
        continue;
      }
      var next := ReadEntry(parsingRangesFinished, ranges, ingredients, line);
      match next
      case Err(e) =>
        RunErrSticks(lines, i + 1, |lines|);
        RunIsSections(lines);
        return Err(e);
      case Ok(p) =>
        ranges, ingredients := p.ranges, p.ids;
    }
    RunIsSections(lines);
    r := Ok((ranges, ingredients));
  }

  // ------------------------------------------------------------ freshness

  /** The id lies in the inclusive range. */
  predicate InRange(r: Range, id: nat) {
    r.lo <= id <= r.hi
  }

  /** The id lies in one of the ranges: the union of the ranges contains it. */
  ghost predicate Fresh(ranges: seq<Range>, id: nat) {
    exists k :: 0 <= k < |ranges| && InRange(ranges[k], id)
  }

  /** A union of ranges, kept as the list of the ranges united so far. */
  function Contains(pieces: seq<Range>, id: nat): bool {
    pieces != [] && (InRange(pieces[0], id) || Contains(pieces[1..], id))
  }

  lemma {:induction false} ContainsIff(pieces: seq<Range>, id: nat)
    ensures Contains(pieces, id) <==> Fresh(pieces, id)
  {
    if pieces != [] {
      ContainsIff(pieces[1..], id);
      if Fresh(pieces[1..], id) {
        var k :| 0 <= k < |pieces[1..]| && InRange(pieces[1..][k], id);
        assert InRange(pieces[k + 1], id);
      }
      if Fresh(pieces, id) && !InRange(pieces[0], id) {
        var k :| 0 <= k < |pieces| && InRange(pieces[k], id);
        assert pieces[1..][k - 1] == pieces[k];
      }
    }
  }

  /** `fold(..., |acc, range| acc.union(range))`: each range is united with the accumulator in turn. */
  function UnionFold(acc: seq<Range>, ranges: seq<Range>): (u: seq<Range>)
    ensures |u| == |acc| + |ranges|
    decreases |ranges|
  {
    if ranges == [] then acc else UnionFold(acc + [ranges[0]], ranges[1..])
  }

  lemma {:induction false} UnionFoldPieces(acc: seq<Range>, ranges: seq<Range>)
    ensures UnionFold(acc, ranges) == acc + ranges
    decreases |ranges|
  {
    if ranges != [] {
      UnionFoldPieces(acc + [ranges[0]], ranges[1..]);
      assert acc + [ranges[0]] + ranges[1..] == acc + ranges;
    }
  }

  /** The combined range of `part_one`: the fold starts from the first range. */
  function CombinedRange(ranges: seq<Range>): seq<Range>
    requires |ranges| > 0
  {
    UnionFold([ranges[0]], ranges)
  }

  /** The combined range contains exactly the ids that lie in some range; the repeated first range adds nothing. */
  lemma CombinedRangeContains(ranges: seq<Range>, id: nat)
    requires |ranges| > 0
    ensures Contains(CombinedRange(ranges), id) <==> Fresh(ranges, id)
  {
    var u := CombinedRange(ranges);
    UnionFoldPieces([ranges[0]], ranges);
    ContainsIff(u, id);
    if Fresh(u, id) {
      var k :| 0 <= k < |u| && InRange(u[k], id);
      if k == 0 {
        assert InRange(ranges[0], id);
      } else {
        assert u[k] == ranges[k - 1];
      }
    }
    if Fresh(ranges, id) {
      var k :| 0 <= k < |ranges| && InRange(ranges[k], id);
      assert u[k + 1] == ranges[k];
    }
  }

  /** How many of the ids are fresh, each occurrence counted. */
  ghost function FreshCount(ranges: seq<Range>, ids: seq<nat>): nat {
    if ids == [] then 0
    else FreshCount(ranges, ids[..|ids| - 1]) + (if Fresh(ranges, ids[|ids| - 1]) then 1 else 0)
  }

  /** At most every ingredient is fresh. */
  lemma {:induction false} FreshCountBound(ranges: seq<Range>, ids: seq<nat>)
    ensures FreshCount(ranges, ids) <= |ids|
    ensures FreshCount(ranges, ids) == 0 <==> forall m :: 0 <= m < |ids| ==> !Fresh(ranges, ids[m])
  {
    if ids != [] {
      var init := ids[..|ids| - 1];
      FreshCountBound(ranges, init);
      assert forall m :: 0 <= m < |init| ==> init[m] == ids[m];
    }
  }

  /** Counting two lists of ids one after the other adds their counts, so a repeated id is counted at each occurrence. */
  lemma {:induction false} FreshCountAppend(ranges: seq<Range>, a: seq<nat>, b: seq<nat>)
    ensures FreshCount(ranges, a + b) == FreshCount(ranges, a) + FreshCount(ranges, b)
  {
    if b != [] {
      var init := b[..|b| - 1];
      FreshCountAppend(ranges, a, init);
      assert (a + b)[..|a + b| - 1] == a + init;
    } else {
      assert a + b == a;
    }
  }

  /** More ranges never make fewer ingredients fresh. */
  lemma {:induction false} FreshCountMonotone(ranges: seq<Range>, more: seq<Range>, ids: seq<nat>)
    requires forall k :: 0 <= k < |ranges| ==> ranges[k] in more
    ensures FreshCount(ranges, ids) <= FreshCount(more, ids)
  {
    if ids != [] {
      var init := ids[..|ids| - 1];
      var id := ids[|ids| - 1];
      FreshCountMonotone(ranges, more, init);
      if Fresh(ranges, id) {
        var k :| 0 <= k < |ranges| && InRange(ranges[k], id);
        var j :| 0 <= j < |more| && more[j] == ranges[k];
        assert InRange(more[j], id);
      }
    }
  }

  /**
   * `part_one`: the parsed input must be well formed and hold at least one
   * range (otherwise the program stops); the answer counts the ingredients
   * in the combined range.
   */
  method PartOne(lines: seq<string>) returns (answer: Option<nat>)
    requires Sections(lines).Ok? && |Sections(lines).value.0| > 0
    ensures answer == Some(FreshCount(Sections(lines).value.0, Sections(lines).value.1))
  {
    var parsed := ParseInput(lines);
    var (ranges, ingredients) := parsed.value;
    var combinedRange := CombinedRange(ranges);
    var freshIngredients := 0;
    for i := 0 to |ingredients|
      invariant freshIngredients == FreshCount(ranges, ingredients[..i])
    {
      CombinedRangeContains(ranges, ingredients[i]);
      assert ingredients[..i + 1][..i] == ingredients[..i];
      if Contains(combinedRange, ingredients[i]) {
        freshIngredients := freshIngredients + 1;
      }
    }
    assert ingredients[..|ingredients|] == ingredients;
    answer := Some(freshIngredients);
  }

  /** `part_two` has no answer. */
  function PartTwo(lines: seq<string>): (r: Option<nat>)
    ensures r.None?
  {
    None
  }
}
