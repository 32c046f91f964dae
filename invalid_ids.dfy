/**
 * The gift-shop id ranges of src/bin/02.rs.
 *
 * The input is a comma-separated list of `lo-hi` ranges.  An id is invalid
 * when its decimal form is one block of digits written twice; the first
 * answer is the sum of the invalid ids of every range.
 */
module InvalidIds {
  import opened Wrappers
  import opened Text

  datatype Range = Range(lo: nat, hi: nat)

  datatype RangeError = WrongPartCount | WrongOrder

  /** The values of the pieces that parse as a u64, in order; the other pieces are dropped. */
  function ParsedPieces(pieces: seq<string>): (vs: seq<nat>)
    ensures |vs| <= |pieces|
    ensures forall k :: 0 <= k < |vs| ==> vs[k] < U64Limit
  {
    if pieces == [] then []
    else
      var rest := ParsedPieces(pieces[1..]);
      match ParseU64(pieces[0])
      case Some(v) => [v] + rest
      case None => rest
  }

  /** When every piece is a u64, none is dropped. */
  lemma {:induction false} ParsedPiecesKeepAll(pieces: seq<string>)
    requires forall i :: 0 <= i < |pieces| ==> ParseU64(pieces[i]).Some?
    ensures |ParsedPieces(pieces)| == |pieces|
    ensures forall i :: 0 <= i < |pieces| ==> ParseU64(pieces[i]) == Some(ParsedPieces(pieces)[i])
  {
    if pieces != [] {
      var tail := pieces[1..];
      assert forall i :: 1 <= i < |pieces| ==> pieces[i] == tail[i - 1];
      ParsedPiecesKeepAll(tail);
      var vs, rest := ParsedPieces(pieces), ParsedPieces(tail);
      assert vs == [ParseU64(pieces[0]).value] + rest;
      forall i | 0 <= i < |pieces| ensures ParseU64(pieces[i]) == Some(vs[i]) {
        if i > 0 {
          assert vs[i] == rest[i - 1];
        }
      }
    }
  }

  /** The bounds `Range::parse` reads: the `-`-separated pieces of the trimmed input that are u64s. */
  function Bounds(input: string): seq<nat> {
    ParsedPieces(Split(Trim(input), '-'))
  }

  /**
   * `Range::parse`: exactly two of the pieces must be u64s, and the first must
   * be strictly below the second.
   */
  function ParseRange(input: string): (r: Result<Range, RangeError>)
    ensures r.Ok? <==> |Bounds(input)| == 2 && Bounds(input)[0] < Bounds(input)[1]
    ensures r.Ok? ==> r.value == Range(Bounds(input)[0], Bounds(input)[1]) && r.value.hi < U64Limit
    ensures |Bounds(input)| != 2 ==> r == Err(WrongPartCount)
    ensures |Bounds(input)| == 2 && Bounds(input)[0] >= Bounds(input)[1] ==> r == Err(WrongOrder)
  {
    var parts := Bounds(input);
    if |parts| != 2 then Err(WrongPartCount)
    else if parts[0] >= parts[1] then Err(WrongOrder)
    else Ok(Range(parts[0], parts[1]))
  }

  /** How a range is written in the puzzle input. */
  function ShowRange(r: Range): string {
    DecimalString(r.lo) + "-" + DecimalString(r.hi)
  }

  /** Parsing a written range gives it back. */
  lemma ParseShowRange(r: Range)
    requires r.lo < r.hi < U64Limit
    ensures ParseRange(ShowRange(r)) == Ok(r)
  {
    var a, b := DecimalString(r.lo), DecimalString(r.hi);
    var s := ShowRange(r);
    assert s[0] == a[0] && s[|s| - 1] == b[|b| - 1];
    TrimUnchanged(s);
    ParseU64Decimal(r.lo);
    ParseU64Decimal(r.hi);
    ParsedU64Charset(a);
    ParsedU64Charset(b);
    assert Join([a, b], '-') == s;
    SplitJoin([a, b], '-');
    ParsedPiecesKeepAll([a, b]);
  }

  // -------------------------------------------------------- invalid ids

  /** The string is one block written twice. */
  predicate IsDoubled(s: string) {
    |s| % 2 == 0 && s[..|s| / 2] == s[|s| / 2..]
  }

  /**
   * `is_invalid_id`: for ids of two digits or more, the first half of the
   * decimal string (rounded down), written twice, reads back as the id.
   */
  function IsInvalidId(num: nat): (r: bool)
    ensures num < 10 ==> !r
  {
    if num < 10 then false
    else
      var numStr := DecimalString(num);
      var first := numStr[..|numStr| / 2];
      StringValueAppend(first, first);
      StringValue(first + first) == num
  }

  /**
   * An id is invalid exactly when it has two digits or more and its decimal
   * string is a block repeated twice; an odd number of digits never is.
   */
  lemma InvalidIffDoubled(n: nat)
    ensures IsInvalidId(n) <==> n >= 10 && IsDoubled(DecimalString(n))
    ensures |DecimalString(n)| % 2 == 1 ==> !IsInvalidId(n)
  {
    if n >= 10 {
      var s := DecimalString(n);
      var h := |s| / 2;
      var first := s[..h];
      var twice := first + first;
      StringValueAppend(first, first);
      if |s| % 2 == 0 {
        if IsInvalidId(n) {
          StringValueInjective(twice, s);
          assert s[h..] == twice[h..];
        }
        if IsDoubled(s) {
          assert s == first + s[h..];
        }
      } else {
        StringValueBound(twice);
        DecimalStringLength(n);
        assert |twice| == |s| - 1;
      }
    }
  }

  /** The numbers of `[lo, n)` that `keep` holds for, in ascending order. */
  function Select(lo: nat, n: nat, keep: nat -> bool): (xs: seq<nat>)
    ensures forall k :: 0 <= k < |xs| ==> lo <= xs[k] < n && keep(xs[k])
  {
    if n <= lo then []
    else Select(lo, n - 1, keep) + (if keep(n - 1) then [n - 1] else [])
  }

  /** The selection holds every number of `[lo, n)` that `keep` holds for, each once, in ascending order. */
  lemma {:induction false} SelectExact(lo: nat, n: nat, keep: nat -> bool)
    ensures forall m: nat :: m in Select(lo, n, keep) <==> lo <= m < n && keep(m)
    ensures forall a, b :: 0 <= a < b < |Select(lo, n, keep)| ==> Select(lo, n, keep)[a] < Select(lo, n, keep)[b]
  {
    if n > lo {
      SelectExact(lo, n - 1, keep);
      var init := Select(lo, n - 1, keep);
      var xs := Select(lo, n, keep);
      var last: seq<nat> := if keep(n - 1) then [n - 1] else [];
      assert xs == init + last;
      forall a, b | 0 <= a < b < |xs| ensures xs[a] < xs[b] {
        if b < |init| {
          assert xs[a] == init[a] && xs[b] == init[b];
        } else {
          assert xs[a] == init[a] && xs[b] == n - 1;
        }
      }
    }
  }

  /** The invalid ids of `[lo, n)`, in ascending order. */
  function InvalidIdsBetween(lo: nat, n: nat): seq<nat> {
    Select(lo, n, IsInvalidId)
  }

  /**
   * `find_invalid_ids`: walks `lo..=hi` and keeps the invalid ids, so the
   * result holds exactly the invalid ids of the range, ascending and
   * without repeats.
   */
  method FindInvalidIds(range: Range) returns (invalidIds: seq<nat>)
    ensures invalidIds == InvalidIdsBetween(range.lo, range.hi + 1)
    ensures forall m: nat :: m in invalidIds <==> range.lo <= m <= range.hi && IsInvalidId(m)
    ensures forall a, b :: 0 <= a < b < |invalidIds| ==> invalidIds[a] < invalidIds[b]
  {
    invalidIds := [];
    var stop: nat := if range.lo <= range.hi then range.hi + 1 else range.lo;
    for id: nat := range.lo to stop
      invariant invalidIds == Select(range.lo, id, IsInvalidId)
    {
      if IsInvalidId(id) {
        invalidIds := invalidIds + [id];
      }
    }
    SelectExact(range.lo, range.hi + 1, IsInvalidId);
  }

  // ---------------------------------------------------------------- parts

  /** Every piece is a well-formed range: otherwise `expect` stops the program. */
  predicate AllRanges(pieces: seq<string>) {
    pieces == [] || (ParseRange(pieces[0]).Ok? && AllRanges(pieces[1..]))
  }

  /** The ranges of pieces that all parse, in order. */
  function Ranges(pieces: seq<string>): (rs: seq<Range>)
    requires AllRanges(pieces)
    ensures |rs| == |pieces|
  {
    if pieces == [] then [] else [ParseRange(pieces[0]).value] + Ranges(pieces[1..])
  }

  /** The ranges are the parses of the pieces, position by position. */
  lemma {:induction false} RangesParse(pieces: seq<string>)
    requires AllRanges(pieces)
    ensures forall i :: 0 <= i < |pieces| ==> ParseRange(pieces[i]) == Ok(Ranges(pieces)[i])
  {
    if pieces != [] {
      RangesParse(pieces[1..]);
      forall i | 1 <= i < |pieces| ensures ParseRange(pieces[i]) == Ok(Ranges(pieces)[i]) {
        assert pieces[i] == pieces[1..][i - 1];
        assert Ranges(pieces)[i] == Ranges(pieces[1..])[i - 1];
      }
    }
  }

  /** `flat_map(find_invalid_ids)`: the invalid ids of every range, range after range. */
  function AllInvalidIds(ranges: seq<Range>): (ids: seq<nat>)
    ensures forall m: nat :: m in ids <==> IsInvalidId(m) && exists k :: 0 <= k < |ranges| && ranges[k].lo <= m <= ranges[k].hi
  {
    if ranges == [] then []
    else
      var r := ranges[0];
      var rest := AllInvalidIds(ranges[1..]);
      assert forall k :: 1 <= k < |ranges| ==> ranges[k] == ranges[1..][k - 1];
      SelectExact(r.lo, r.hi + 1, IsInvalidId);
      InvalidIdsBetween(r.lo, r.hi + 1) + rest
  }

  function Sum(xs: seq<nat>): nat {
    if xs == [] then 0 else xs[0] + Sum(xs[1..])
  }

  /** A sum of ids that are all at least 10 is 0 only when there are none. */
  lemma {:induction false} SumOfIdsIsZero(xs: seq<nat>)
    requires forall k :: 0 <= k < |xs| ==> xs[k] >= 10
    ensures Sum(xs) == 0 <==> xs == []
    ensures Sum(xs) >= 10 * |xs|
  {
    if xs != [] {
      SumOfIdsIsZero(xs[1..]);
    }
  }

  /**
   * `part_one`: the sum of the invalid ids over all ranges of the
   * comma-separated input; a range that does not parse stops the program.
   */
  function PartOne(input: string): (r: Option<nat>)
    requires AllRanges(Split(input, ','))
    ensures r.Some?
  {
    Some(Sum(AllInvalidIds(Ranges(Split(input, ',')))))
  }

  /** The first answer is 0 exactly when no range holds an invalid id, and is at least 10 per invalid id found. */
  lemma PartOneZero(input: string)
    requires AllRanges(Split(input, ','))
    ensures var ranges := Ranges(Split(input, ','));
      PartOne(input).value >= 10 * |AllInvalidIds(ranges)| &&
      (PartOne(input).value == 0 <==>
        forall k, m :: 0 <= k < |ranges| && ranges[k].lo <= m <= ranges[k].hi ==> !IsInvalidId(m))
  {
    var ranges := Ranges(Split(input, ','));
    var ids := AllInvalidIds(ranges);
    forall k | 0 <= k < |ids| ensures ids[k] >= 10 {
      assert ids[k] in ids;
    }
    SumOfIdsIsZero(ids);
    if ids != [] {
      assert ids[0] in ids;
    }
  }

  /** `part_two` has no answer. */
  function PartTwo(input: string): (r: Option<nat>)
    ensures r.None?
  {
    None
  }
}
