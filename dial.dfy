/**
 * The safe dial of src/bin/01.rs.
 *
 * Rotations `L<n>`/`R<n>` turn a dial with positions 0..99 that starts at 50.
 * One answer counts the rotations after which the dial rests on 0; the other
 * folds the rotations and adds up, for every rotation, the magnitude of the
 * Euclidean quotient of the unreduced position by 100.
 */
module Dial {
  import opened Wrappers
  import opened Text

  datatype Rotation = Left(turns: int) | Right(turns: int)

  /**
   * `Rotation::parse`: the trimmed line is a direction letter followed by an
   * i32; an empty line, another letter or a bad number gives `None`.
   */
  function ParseRotation(line: string): (r: Option<Rotation>)
    ensures Trim(line) == [] ==> r == None
    ensures Trim(line) != [] && Trim(line)[0] != 'L' && Trim(line)[0] != 'R' ==> r == None
    ensures Trim(line) != [] && ParseI32(Trim(line)[1..]) == None ==> r == None
    ensures Trim(line) != [] && (Trim(line)[0] == 'L' || Trim(line)[0] == 'R') && ParseI32(Trim(line)[1..]).Some? ==>
      r == Some(if Trim(line)[0] == 'L' then Left(ParseI32(Trim(line)[1..]).value) else Right(ParseI32(Trim(line)[1..]).value))
    ensures r.Some? ==> I32Min <= r.value.turns <= I32Max
    ensures r.Some? ==> Trim(line)[0] == (if r.value.Left? then 'L' else 'R') &&
                        ParseI32(Trim(line)[1..]) == Some(r.value.turns)
  {
    var t := Trim(line);
    if t == [] then None
    else
      match ParseI32(t[1..])
      case None => None
      case Some(turns) =>
        if t[0] == 'L' then Some(Left(turns))
        else if t[0] == 'R' then Some(Right(turns))
        else None
  }

  /** How a rotation with a non-negative turn count is written in the puzzle input. */
  function ShowRotation(r: Rotation): string
    requires r.turns >= 0
  {
    [if r.Left? then 'L' else 'R'] + DecimalString(r.turns)
  }

  /** Parsing a written rotation gives it back. */
  lemma ParseShowRotation(r: Rotation)
    requires 0 <= r.turns <= I32Max
    ensures ParseRotation(ShowRotation(r)) == Some(r)
  {
    var s, d := ShowRotation(r), DecimalString(r.turns);
    var letter := if r.Left? then 'L' else 'R';
    assert s == [letter] + d;
    assert s[1..] == d;
    assert IsDigit(d[|d| - 1]);
    assert s[|s| - 1] == d[|d| - 1];
    TrimUnchanged(s);
    assert Trim(s) == s;
    ParseI32Decimal(r.turns);
    assert ParseI32(s[1..]) == Some(r.turns);
  }

  // ---------------------------------------------------------------- dial

  /** The number of positions on the dial. */
  const Positions: int := 100

  datatype Dial = Dial(position: int, zeroCounter: nat)

  /** `Dial::default`: the dial starts at 50 with nothing counted. */
  const Default: Dial := Dial(50, 0)

  predicate Valid(d: Dial) {
    0 <= d.position < Positions
  }

  /** The signed number of positions a rotation moves the dial. */
  function Displacement(r: Rotation): int {
    match r
    case Left(turns) => -turns
    case Right(turns) => turns
  }

  function Abs(n: int): nat {
    if n < 0 then -n else n
  }

  /**
   * `Dial::rotate_by`: the new position is the Euclidean remainder of the
   * unreduced position, and the counter grows by the magnitude of its
   * Euclidean quotient.
   */
  function RotateBy(d: Dial, r: Rotation): (e: Dial)
    ensures Valid(e)
    ensures e.zeroCounter >= d.zeroCounter
  {
    match r
    case Left(turns) =>
      Dial((d.position - turns) % Positions, d.zeroCounter + Abs((d.position - turns) / Positions))
    case Right(turns) =>
      Dial((d.position + turns) % Positions, d.zeroCounter + Abs((d.position + turns) / Positions))
  }

  /**
   * `rotate_by` moves the dial by the displacement up to whole turns of the
   * dial, and counts as many zeros as whole turns it gave up.
   */
  lemma RotateByWholeTurns(d: Dial, r: Rotation)
    ensures var e := RotateBy(d, r); var u := d.position + Displacement(r);
      (u - e.position) % Positions == 0 &&
      e.zeroCounter - d.zeroCounter == Abs((u - e.position) / Positions)
  {
    var u := d.position + Displacement(r);
    var e := RotateBy(d, r);
    RotatePosition(d, r);
    assert u == Positions * (u / Positions) + e.position;
    assert u - e.position == Positions * (u / Positions);
  }

  /** Where `rotate_by` leaves the dial: the remainder of the unreduced position. */
  lemma RotatePosition(d: Dial, r: Rotation)
    ensures RotateBy(d, r).position == (d.position + Displacement(r)) % Positions
  {
  }

  /** Adding a whole number of turns of the dial does not change a remainder. */
  lemma ModShift(a: int, q: int)
    ensures (a + Positions * q) % Positions == a % Positions
  {
    var r := a % Positions;
    assert a == Positions * (a / Positions) + r;
    assert a + Positions * q == Positions * (a / Positions + q) + r;
  }

  /** Two rotations in a row move the dial by the sum of their displacements. */
  lemma RotateCompose(d: Dial, a: Rotation, b: Rotation)
    ensures RotateBy(RotateBy(d, a), b).position == (d.position + Displacement(a) + Displacement(b)) % Positions
  {
    var u := d.position + Displacement(a);
    var e := RotateBy(d, a);
    assert e.position == u % Positions;
    assert u == Positions * (u / Positions) + e.position;
    ModShift(e.position + Displacement(b), u / Positions);
  }

  /** Turning left and then right by the same amount returns the dial to where it was. */
  lemma LeftThenRight(d: Dial, t: int)
    requires Valid(d)
    ensures RotateBy(RotateBy(d, Left(t)), Right(t)).position == d.position
  {
    RotateCompose(d, Left(t), Right(t));
  }

  // ---------------------------------------------------------------- runs

  /** The left fold of `rotate_by` over the rotations. */
  function Run(d: Dial, rs: seq<Rotation>): (e: Dial)
    ensures rs != [] ==> Valid(e)
    ensures rs == [] ==> e == d
    ensures e.zeroCounter >= d.zeroCounter
  {
    if rs == [] then d else RotateBy(Run(d, rs[..|rs| - 1]), rs[|rs| - 1])
  }

  /** The number of rotations after which the dial rests on 0. */
  function ZeroStops(d: Dial, rs: seq<Rotation>): nat {
    if rs == [] then 0
    else ZeroStops(d, rs[..|rs| - 1]) + (if Run(d, rs).position == 0 then 1 else 0)
  }

  /** The rotations, counted from 1, after which the dial rests on 0. */
  ghost function ZeroLandings(d: Dial, rs: seq<Rotation>): set<nat> {
    set i: nat | 1 <= i <= |rs| && Run(d, rs[..i]).position == 0
  }

  /** `ZeroStops` counts exactly the landings on 0, so it is at most the number of rotations. */
  lemma {:induction false} ZeroStopsCounts(d: Dial, rs: seq<Rotation>)
    ensures ZeroStops(d, rs) == |ZeroLandings(d, rs)|
    ensures ZeroStops(d, rs) <= |rs|
  {
    if rs == [] {
      assert ZeroLandings(d, rs) == {};
    } else {
      var init := rs[..|rs| - 1];
      ZeroStopsCounts(d, init);
      var landings, before := ZeroLandings(d, rs), ZeroLandings(d, init);
      assert rs[..|rs|] == rs;
      forall i | i in before ensures i in landings {
        assert rs[..i] == init[..i];
      }
      forall i | i in landings && i != |rs| ensures i in before {
        assert rs[..i] == init[..i];
      }
      if Run(d, rs).position == 0 {
        assert landings == before + {|rs|};
      } else {
        assert landings == before;
      }
    }
  }

  /**
   * `count_zero_positions`: applies the rotations one by one and counts the
   * rotations after which the position is 0.
   */
  method CountZeroPositions(initial: Dial, rotations: seq<Rotation>) returns (count: nat)
    ensures count == ZeroStops(initial, rotations)
  {
    var current := initial;
    count := 0;
    for i := 0 to |rotations|
      invariant current == Run(initial, rotations[..i])
      invariant count == ZeroStops(initial, rotations[..i])
    {
      assert rotations[..i + 1][..i] == rotations[..i];
      current := RotateBy(current, rotations[i]);
      if current.position == 0 {
        count := count + 1;
      }
    }
    assert rotations[..|rotations|] == rotations;
  }

  // --------------------------------------------------------------- input

  /** `filter_map(parse)`: the values of the lines that parse, in order. */
  function FilterMap<T>(parse: string -> Option<T>, lines: seq<string>): (ts: seq<T>)
    ensures |ts| <= |lines|
  {
    if lines == [] then []
    else
      var rest := FilterMap(parse, lines[..|lines| - 1]);
      match parse(lines[|lines| - 1])
      case None => rest
      case Some(t) => rest + [t]
  }

  /** `filter_map(Rotation::parse)`: the rotations of the lines that parse, in order. */
  function ParseAll(lines: seq<string>): (rs: seq<Rotation>)
    ensures |rs| <= |lines|
  {
    FilterMap(ParseRotation, lines)
  }

  /** What one line contributes to the values kept. */
  function Kept<T>(o: Option<T>): seq<T> {
    match o
    case None => []
    case Some(t) => [t]
  }

  /** One more line adds its own value, if any, at the end. */
  lemma FilterMapSnoc<T>(parse: string -> Option<T>, lines: seq<string>, line: string)
    ensures FilterMap(parse, lines + [line]) == FilterMap(parse, lines) + Kept(parse(line))
  {
    var all := lines + [line];
    assert all[..|all| - 1] == lines && all[|all| - 1] == line;
  }

  /** `filter_map` works line by line: two blocks of lines keep the values of the first, then those of the second. */
  lemma {:induction false} FilterMapAppend<T>(parse: string -> Option<T>, a: seq<string>, b: seq<string>)
    ensures FilterMap(parse, a + b) == FilterMap(parse, a) + FilterMap(parse, b)
    decreases |b|
  {
    if b == [] {
      assert a + b == a;
    } else {
      var init, last := b[..|b| - 1], b[|b| - 1];
      assert a + b == (a + init) + [last];
      assert b == init + [last];
      FilterMapSnoc(parse, a + init, last);
      FilterMapAppend(parse, a, init);
      FilterMapSnoc(parse, init, last);
    }
  }

  /** A single line gives its rotation, or nothing when it does not parse. */
  lemma ParseAllOne(line: string)
    ensures ParseAll([line]) == Kept(ParseRotation(line))
  {
    FilterMapSnoc(ParseRotation, [], line);
    assert [] + [line] == [line];
  }

  /**
   * The rotations of two blocks of lines are those of the first block followed
   * by those of the second: a line that parses keeps its rotation, in order,
   * whatever lines lie beside it.
   */
  lemma ParseAllAppend(a: seq<string>, b: seq<string>)
    ensures ParseAll(a + b) == ParseAll(a) + ParseAll(b)
  {
    FilterMapAppend(ParseRotation, a, b);
  }

  /** Every rotation kept is the parse of one of the lines. */
  lemma {:induction false} ParseAllFromLines(lines: seq<string>)
    ensures forall k :: 0 <= k < |ParseAll(lines)| ==>
      exists j :: 0 <= j < |lines| && ParseRotation(lines[j]) == Some(ParseAll(lines)[k])
  {
    if lines != [] {
      var init := lines[..|lines| - 1];
      ParseAllFromLines(init);
      var all, rest := ParseAll(lines), ParseAll(init);
      forall k | 0 <= k < |all|
        ensures exists j :: 0 <= j < |lines| && ParseRotation(lines[j]) == Some(all[k])
      {
        if k < |rest| {
          assert all[k] == rest[k];
          var j :| 0 <= j < |init| && ParseRotation(init[j]) == Some(rest[k]);
          assert lines[j] == init[j];
        } else {
          var last := lines[|lines| - 1];
          assert all != rest;
          assert ParseRotation(last).Some? && all == rest + [ParseRotation(last).value];
          assert ParseRotation(last) == Some(all[k]);
        }
      }
    } else {
      assert ParseAll(lines) == [];
    }
  }

  /** When every line parses, no rotation is dropped and they keep their order. */
  lemma {:induction false} ParseAllKeepsEveryLine(lines: seq<string>)
    requires forall j :: 0 <= j < |lines| ==> ParseRotation(lines[j]).Some?
    ensures |ParseAll(lines)| == |lines|
    ensures forall j :: 0 <= j < |lines| ==> ParseRotation(lines[j]) == Some(ParseAll(lines)[j])
  {
    if lines != [] {
      var init := lines[..|lines| - 1];
      assert forall j :: 0 <= j < |init| ==> init[j] == lines[j];
      ParseAllKeepsEveryLine(init);
      var last := ParseRotation(lines[|lines| - 1]).value;
      var all, rest := ParseAll(lines), ParseAll(init);
      assert all == rest + [last];
      forall j | 0 <= j < |lines| ensures ParseRotation(lines[j]) == Some(all[j]) {
        if j < |init| {
          assert lines[j] == init[j] && all[j] == rest[j];
        } else {
          assert j == |rest| && all[j] == last;
        }
      }
    }
  }

  /** `part_one`: the number of rotations of the parsed lines that leave the dial on 0. */
  method PartOne(lines: seq<string>) returns (answer: Option<nat>)
    ensures answer == Some(ZeroStops(Default, ParseAll(lines)))
    ensures answer.value <= |lines|
  {
    var count := CountZeroPositions(Default, ParseAll(lines));
    ZeroStopsCounts(Default, ParseAll(lines));
    answer := Some(count);
  }

  /**
   * `part_two` as written: the counter of the folded dial.  It is the number
   * of clicks on 0, plus the leftward rotations that start on 0, less the
   * leftward rotations that end on 0.
   */
  function PartTwo(lines: seq<string>): (r: nat)
    ensures r + LeftLandings(Default, ParseAll(lines)) ==
            RunClicks(Default, ParseAll(lines)) + LeftDepartures(Default, ParseAll(lines))
  {
    RunMiscountsLeft(Default, ParseAll(lines));
    Run(Default, ParseAll(lines)).zeroCounter
  }

  // ------------------------------------------------------ clicks on zero

  /**
   * The number of single clicks of a rotation by `m` positions from `p` that
   * leave the dial pointing at 0, counted one click at a time.
   */
  function ClicksOnZero(p: int, m: int): nat
    decreases Abs(m)
  {
    if m == 0 then 0
    else if m > 0 then ClicksOnZero(p, m - 1) + (if (p + m) % Positions == 0 then 1 else 0)
    else ClicksOnZero(p, m + 1) + (if (p + m) % Positions == 0 then 1 else 0)
  }

  /** The closed form of `ClicksOnZero`: the multiples of 100 passed over, in the direction of travel. */
  function Crossings(p: int, m: int): int {
    if m >= 0 then (p + m) / Positions - p / Positions
    else (p - 1) / Positions - (p + m - 1) / Positions
  }

  /** Between `a - 1` and `a` the quotient by 100 steps up exactly when `a` is a multiple of 100. */
  lemma QuotientStep(a: int)
    ensures a / Positions - (a - 1) / Positions == if a % Positions == 0 then 1 else 0
  {
    var q, r := a / Positions, a % Positions;
    assert a == Positions * q + r;
    if r == 0 {
      assert a - 1 == Positions * (q - 1) + 99;
    } else {
      assert a - 1 == Positions * q + (r - 1);
    }
  }

  /** The closed form counts exactly the clicks that land on 0. */
  lemma {:induction false} CrossingsCountClicks(p: int, m: int)
    ensures Crossings(p, m) == ClicksOnZero(p, m)
    decreases Abs(m)
  {
    if m > 0 {
      CrossingsCountClicks(p, m - 1);
      QuotientStep(p + m);
    } else if m < 0 {
      CrossingsCountClicks(p, m + 1);
      QuotientStep(p + m);
    }
  }

  /**
   * `Dial::rotate_by` as it is evidently meant: the counter grows by the
   * number of clicks that land on 0.
   */
  function RotateClicking(d: Dial, r: Rotation): (e: Dial)
    requires Valid(d)
    ensures Valid(e) && e.position == RotateBy(d, r).position
    ensures e.zeroCounter == d.zeroCounter + ClicksOnZero(d.position, Displacement(r))
  {
    CrossingsCountClicks(d.position, Displacement(r));
    var m := Displacement(r);
    assert Crossings(d.position, m) >= 0;
    Dial((d.position + m) % Positions, d.zeroCounter + Crossings(d.position, m))
  }

  /**
   * What `rotate_by` adds for a rightward move from a valid position is the
   * click count; for a leftward move it misses a landing on 0 and counts a
   * departure from 0.
   */
  lemma {:induction false} RotateByMiscountsLeft(d: Dial, r: Rotation)
    requires Valid(d)
    ensures var p, m := d.position, Displacement(r);
      var added := RotateBy(d, r).zeroCounter - d.zeroCounter;
      (m >= 0 ==> added == ClicksOnZero(p, m)) &&
      (m < 0 ==> added + (if (p + m) % Positions == 0 then 1 else 0) == ClicksOnZero(p, m) + (if p == 0 then 1 else 0))
  {
    var p, m := d.position, Displacement(r);
    CrossingsCountClicks(p, m);
    if m < 0 {
      QuotientStep(p + m);
    }
  }

  /** From the default dial, `L50` lands on 0 yet `rotate_by` adds nothing, while `part_one` counts it. */
  lemma LeftLandingMissed()
    ensures ParseAll(["L50"]) == [Left(50)]
    ensures ZeroStops(Default, [Left(50)]) == 1
    ensures PartTwo(["L50"]) == 0
    ensures ClicksOnZero(50, -50) == 1
  {
    ParseL50();
    assert [Left(50)][..0] == [];
    CrossingsCountClicks(50, -50);
  }

  /** The line `L50` is the rotation `Left(50)`. */
  lemma ParseL50()
    ensures ParseAll(["L50"]) == [Left(50)]
  {
    ParseShowRotation(Left(50));
    assert ShowRotation(Left(50)) == "L50";
    assert ["L50"][..0] == [];
  }

  /** The fold of the corrected rotation. */
  function RunClicking(d: Dial, rs: seq<Rotation>): (e: Dial)
    requires Valid(d)
    ensures Valid(e) && e.position == Run(d, rs).position
    ensures e.zeroCounter == d.zeroCounter + RunClicks(d, rs)
  {
    if rs == [] then d
    else
      var before := RunClicking(d, rs[..|rs| - 1]);
      RotatePosition(before, rs[|rs| - 1]);
      RotatePosition(Run(d, rs[..|rs| - 1]), rs[|rs| - 1]);
      RotateClicking(before, rs[|rs| - 1])
  }

  /** `part_two` as it is evidently meant: every click on 0 of every parsed rotation. */
  function PartTwoClicking(lines: seq<string>): (r: nat)
    ensures r == RunClicks(Default, ParseAll(lines))
  {
    RunClicking(Default, ParseAll(lines)).zeroCounter
  }

  /** The clicks on 0 of every rotation of the fold, each from where the previous one left the dial. */
  function RunClicks(d: Dial, rs: seq<Rotation>): nat {
    if rs == [] then 0
    else RunClicks(d, rs[..|rs| - 1]) + ClicksOnZero(Run(d, rs[..|rs| - 1]).position, Displacement(rs[|rs| - 1]))
  }

  /** The leftward rotations of the fold that start with the dial on 0. */
  function LeftDepartures(d: Dial, rs: seq<Rotation>): nat {
    if rs == [] then 0
    else
      LeftDepartures(d, rs[..|rs| - 1]) +
        (if Displacement(rs[|rs| - 1]) < 0 && Run(d, rs[..|rs| - 1]).position == 0 then 1 else 0)
  }

  /** The leftward rotations of the fold that leave the dial on 0. */
  function LeftLandings(d: Dial, rs: seq<Rotation>): nat {
    if rs == [] then 0
    else
      LeftLandings(d, rs[..|rs| - 1]) +
        (if Displacement(rs[|rs| - 1]) < 0 && Run(d, rs).position == 0 then 1 else 0)
  }

  /**
   * Over a whole fold, `rotate_by` counts the clicks on 0, plus one for every
   * leftward rotation that starts on 0, less one for every leftward rotation
   * that ends on 0.
   */
  lemma {:induction false} RunMiscountsLeft(d: Dial, rs: seq<Rotation>)
    requires Valid(d)
    ensures Run(d, rs).zeroCounter - d.zeroCounter + LeftLandings(d, rs) == RunClicks(d, rs) + LeftDepartures(d, rs)
  {
    if rs != [] {
      var init, last := rs[..|rs| - 1], rs[|rs| - 1];
      RunMiscountsLeft(d, init);
      var before := Run(d, init);
      RotateByMiscountsLeft(before, last);
      RotatePosition(before, last);
    }
  }

  /**
   * Every rotation that moves the dial onto 0 is counted by the corrected
   * second answer, so it is at least the number of such landings.
   */
  lemma {:induction false} ClicksCoverMovingLandings(d: Dial, rs: seq<Rotation>)
    requires Valid(d)
    ensures RunClicking(d, rs).zeroCounter - d.zeroCounter >= MovingZeroStops(d, rs)
  {
    if rs != [] {
      var init := rs[..|rs| - 1];
      var last := rs[|rs| - 1];
      ClicksCoverMovingLandings(d, init);
      var before := RunClicking(d, init);
      var m := Displacement(last);
      var landed := m != 0 && Run(d, rs).position == 0;
      assert MovingZeroStops(d, rs) == MovingZeroStops(d, init) + (if landed then 1 else 0);
      assert RunClicking(d, rs) == RotateClicking(before, last);
      if landed {
        assert Run(d, rs) == RotateBy(Run(d, init), last);
        RotatePosition(Run(d, init), last);
        LandingIsAClick(before.position, m);
      }
    }
  }

  /** A move that ends on 0 has its last click on 0. */
  lemma LandingIsAClick(p: int, m: int)
    requires m != 0 && (p + m) % Positions == 0
    ensures ClicksOnZero(p, m) >= 1
  {
  }

  /** The rotations that move the dial and leave it on 0. */
  function MovingZeroStops(d: Dial, rs: seq<Rotation>): nat {
    if rs == [] then 0
    else
      MovingZeroStops(d, rs[..|rs| - 1]) +
        (if Displacement(rs[|rs| - 1]) != 0 && Run(d, rs).position == 0 then 1 else 0)
  }
}
