/**
 * The battery banks of src/bin/03.rs.
 *
 * A bank is a line of digits.  Turning on k of its batteries, in bank order,
 * gives the k-digit number they spell; the largest such number is found
 * greedily, one digit at a time, by taking the leftmost largest digit of the
 * window that still leaves room for the digits after it.
 */
module Joltage {
  import opened Wrappers
  import opened Text

  datatype BatteryBank = BatteryBank(joltages: seq<nat>)

  datatype BankError = InvalidDigit

  /** `BatteryBank::parse`: the trimmed line must consist of decimal digits only. */
  function ParseBank(line: string): (r: Result<BatteryBank, BankError>)
    ensures r.Ok? <==> AllDigitChars(Trim(line))
    ensures r.Ok? ==> AreDigits(r.value.joltages) && |r.value.joltages| == |Trim(line)|
    ensures r.Ok? ==> forall i :: 0 <= i < |Trim(line)| ==> r.value.joltages[i] == DigitOf(Trim(line)[i])
  {
    var t := Trim(line);
    if AllDigitChars(t) then Ok(BatteryBank(CharDigits(t))) else Err(InvalidDigit)
  }

  /** How a bank of digits is written in the puzzle input. */
  function ShowBank(b: BatteryBank): (s: string)
    requires AreDigits(b.joltages)
    ensures |s| == |b.joltages| && AllDigitChars(s)
  {
    seq(|b.joltages|, i requires 0 <= i < |b.joltages| => DigitChar(b.joltages[i]))
  }

  /** Parsing a written bank gives it back. */
  lemma ParseShowBank(b: BatteryBank)
    requires AreDigits(b.joltages)
    ensures ParseBank(ShowBank(b)) == Ok(b)
  {
    var s := ShowBank(b);
    if s != [] {
      assert IsDigit(s[0]) && IsDigit(s[|s| - 1]);
    }
    TrimUnchanged(s);
    assert CharDigits(s) == b.joltages;
  }

  // ------------------------------------------------------------ choosing

  /**
   * The `reduce` over the enumerated window: the index of its largest digit,
   * the earliest one when several are equally large.
   */
  function LeftmostMax(w: seq<nat>): (m: nat)
    requires |w| > 0
    ensures m < |w|
  {
    if |w| == 1 then 0
    else
      var m := LeftmostMax(w[..|w| - 1]);
      if w[|w| - 1] > w[m] then |w| - 1 else m
  }

  /**
   * The same reduce over `s[lo..hi]`, as an index into `s`: the first
   * position of the window's largest digit.
   */
  function WindowMax(s: seq<nat>, lo: nat, hi: nat): (m: nat)
    requires lo < hi <= |s|
    ensures lo <= m < hi
    decreases hi - lo
  {
    if hi == lo + 1 then lo
    else
      var m := WindowMax(s, lo, hi - 1);
      if s[hi - 1] > s[m] then hi - 1 else m
  }

  /** The reduce over the window is the window maximum, shifted to the window's start. */
  lemma {:induction false} LeftmostMaxOfWindow(s: seq<nat>, lo: nat, hi: nat)
    requires lo < hi <= |s|
    ensures lo + LeftmostMax(s[lo..hi]) == WindowMax(s, lo, hi)
    decreases hi - lo
  {
    if hi > lo + 1 {
      var w := s[lo..hi];
      LeftmostMaxOfWindow(s, lo, hi - 1);
      assert w[..|w| - 1] == s[lo..hi - 1];
      assert w[|w| - 1] == s[hi - 1];
      assert w[LeftmostMax(w[..|w| - 1])] == s[WindowMax(s, lo, hi - 1)];
    }
  }

  /** No digit of the window is larger than the one chosen, and every earlier one is smaller. */
  lemma {:induction false} WindowMaxIsLeftmostMaximum(s: seq<nat>, lo: nat, hi: nat)
    requires lo < hi <= |s|
    ensures forall i :: lo <= i < hi ==> s[i] <= s[WindowMax(s, lo, hi)]
    ensures forall i :: lo <= i < WindowMax(s, lo, hi) ==> s[i] < s[WindowMax(s, lo, hi)]
    decreases hi - lo
  {
    if hi > lo + 1 {
      WindowMaxIsLeftmostMaximum(s, lo, hi - 1);
    }
  }


  /** The indices are strictly increasing and below n: a way to pick digits in bank order. */
  predicate IsPick(idx: seq<nat>, n: nat) {
    (forall i :: 0 <= i < |idx| ==> idx[i] < n) &&
    (forall i, j :: 0 <= i < j < |idx| ==> idx[i] < idx[j])
  }

  /** The digits at the picked indices. */
  function Pick(s: seq<nat>, idx: seq<nat>): (ds: seq<nat>)
    requires forall i :: 0 <= i < |idx| ==> idx[i] < |s|
    ensures |ds| == |idx|
  {
    seq(|idx|, i requires 0 <= i < |idx| => s[idx[i]])
  }

  /** Picked digits are digits. */
  lemma PickDigits(s: seq<nat>, idx: seq<nat>)
    requires AreDigits(s) && forall i :: 0 <= i < |idx| ==> idx[i] < |s|
    ensures AreDigits(Pick(s, idx))
  {
  }

  /**
   * The indices the greedy loop picks from `start` on when `k` digits are
   * still wanted: the leftmost largest digit of `s[start..|s| - k + 1]`, then
   * the rest after it.
   */
  function GreedyFrom(s: seq<nat>, start: nat, k: nat): (idx: seq<nat>)
    requires start + k <= |s|
    ensures |idx| == k
    ensures forall i :: 0 <= i < k ==> start <= idx[i] < |s|
    decreases k
  {
    if k == 0 then []
    else
      var j := WindowMax(s, start, |s| - k + 1);
      [j] + GreedyFrom(s, j + 1, k - 1)
  }

  /** The greedy indices strictly increase: each is chosen after the one before it. */
  lemma {:induction false} GreedyIncreasing(s: seq<nat>, start: nat, k: nat)
    requires start + k <= |s|
    ensures IsPick(GreedyFrom(s, start, k), |s|)
    decreases k
  {
    if k > 0 {
      var j := WindowMax(s, start, |s| - k + 1);
      var rest := GreedyFrom(s, j + 1, k - 1);
      GreedyIncreasing(s, j + 1, k - 1);
      var g := [j] + rest;
      assert GreedyFrom(s, start, k) == g;
      forall a, b | 0 <= a < b < k ensures g[a] < g[b] {
        if a == 0 {
          assert g[b] == rest[b - 1];
        } else {
          assert g[a] == rest[a - 1] && g[b] == rest[b - 1];
        }
      }
    }
  }

  /** One step of the greedy choice: the window's leftmost largest digit, then the rest after it. */
  lemma GreedyStep(s: seq<nat>, start: nat, k: nat, j: nat)
    requires start + k <= |s| && k > 0
    requires j == WindowMax(s, start, |s| - k + 1)
    ensures GreedyFrom(s, start, k) == [j] + GreedyFrom(s, j + 1, k - 1)
  {
  }

  /** The digits of a pick are its first digit, then the digits of the rest. */
  lemma PickHead(s: seq<nat>, idx: seq<nat>)
    requires |idx| > 0 && forall i :: 0 <= i < |idx| ==> idx[i] < |s|
    ensures Pick(s, idx) == [s[idx[0]]] + Pick(s, idx[1..])
  {
    assert Pick(s, idx)[1..] == Pick(s, idx[1..]);
  }

  /** The value of the greedy pick of k digits. */
  function MaxJoltageOf(s: seq<nat>, k: nat): nat
    requires k <= |s|
  {
    DigitsValue(Pick(s, GreedyFrom(s, 0, k)))
  }

  /**
   * The number the greedy loop ends with when `acc` has been built so far and
   * `k` digits are still to be chosen from `start` on.
   */
  function GreedyJoltage(s: seq<nat>, start: nat, k: nat, acc: nat): nat
    requires start + k <= |s|
    decreases k
  {
    if k == 0 then acc
    else
      var j := WindowMax(s, start, |s| - k + 1);
      GreedyJoltage(s, j + 1, k - 1, acc * 10 + s[j])
  }

  /** One round of the greedy loop, as it unfolds. */
  lemma GreedyJoltageStep(s: seq<nat>, start: nat, k: nat, acc: nat, j: nat)
    requires start + k <= |s| && k > 0
    requires j == WindowMax(s, start, |s| - k + 1)
    ensures GreedyJoltage(s, start, k, acc) == GreedyJoltage(s, j + 1, k - 1, acc * 10 + s[j])
  {
  }

  lemma StepValue(s: seq<nat>, start: nat, k: nat, built: seq<nat>, j: nat)
    requires start + k <= |s| && k > 0
    requires j == WindowMax(s, start, |s| - k + 1)
    ensures GreedyJoltage(s, start, k, DigitsValue(built)) == GreedyJoltage(s, j + 1, k - 1, DigitsValue(built + [s[j]]))
  {
    DigitsValueSnoc(built, s[j]);
    GreedyJoltageStep(s, start, k, DigitsValue(built), j);
  }

  /** The greedy loop appends the digits of the greedy pick to the digits it has built. */
  lemma {:induction false} GreedyJoltageValue(s: seq<nat>, start: nat, k: nat, built: seq<nat>)
    requires start + k <= |s|
    ensures GreedyJoltage(s, start, k, DigitsValue(built)) == DigitsValue(built + Pick(s, GreedyFrom(s, start, k)))
    decreases k
  {
    if k == 0 {
      assert built + Pick(s, []) == built;
    } else {
      var j := WindowMax(s, start, |s| - k + 1);
      var rest := GreedyFrom(s, j + 1, k - 1);
      StepValue(s, start, k, built, j);
      GreedyJoltageValue(s, j + 1, k - 1, built + [s[j]]);
      PickGreedyHead(s, start, k, j, built);
    }
  }

  /** The digits of the greedy pick are the first greedy digit, then the digits of the rest. */
  lemma PickGreedyHead(s: seq<nat>, start: nat, k: nat, j: nat, built: seq<nat>)
    requires start + k <= |s| && k > 0
    requires j == WindowMax(s, start, |s| - k + 1)
    ensures built + Pick(s, GreedyFrom(s, start, k)) == (built + [s[j]]) + Pick(s, GreedyFrom(s, j + 1, k - 1))
  {
    var rest := GreedyFrom(s, j + 1, k - 1);
    GreedyStep(s, start, k, j);
    PickHead(s, [j] + rest);
    assert ([j] + rest)[1..] == rest;
  }

  /** One round of the loop in `max_joltage` keeps the number it will end with. */
  lemma MaxJoltageRound(s: seq<nat>, total: nat, start: nat, r: nat, acc: nat, end: nat, index: nat)
    requires start + r <= |s| && total <= |s| && r > 0 && end == |s| - r + 1
    requires index == LeftmostMax(s[start..end])
    requires GreedyJoltage(s, start, r, acc) == GreedyJoltage(s, 0, total, 0)
    ensures start + index + 1 + (r - 1) <= |s|
    ensures GreedyJoltage(s, start + index + 1, r - 1, acc * 10 + s[start..end][index]) == GreedyJoltage(s, 0, total, 0)
  {
    LeftmostMaxOfWindow(s, start, end);
    GreedyJoltageStep(s, start, r, acc, start + index);
  }

  /**
   * `BatteryBank::max_joltage`: for every position, the leftmost largest
   * digit of the window that leaves enough digits after it, appended to the
   * number so far.
   */
  method MaxJoltage(bank: BatteryBank, totalBatteries: nat) returns (maxJoltage: nat)
    requires totalBatteries <= |bank.joltages|
    ensures maxJoltage == MaxJoltageOf(bank.joltages, totalBatteries)
  {
    var s := bank.joltages;
    maxJoltage := 0;
    var start: nat := 0;
    var length := |s|;
    for batteryPos := 0 to totalBatteries
      invariant start + (totalBatteries - batteryPos) <= length
      invariant GreedyJoltage(s, start, totalBatteries - batteryPos, maxJoltage) == GreedyJoltage(s, 0, totalBatteries, 0)
    {
      var end := length - (totalBatteries - batteryPos) + 1;
      var window := s[start..end];
      var maxDigitIndex := LeftmostMax(window);
      var maxDigit := window[maxDigitIndex];
      MaxJoltageRound(s, totalBatteries, start, totalBatteries - batteryPos, maxJoltage, end, maxDigitIndex);
      start := start + maxDigitIndex + 1;
      maxJoltage := maxJoltage * 10 + maxDigit;
    }
    GreedyJoltageValue(s, 0, totalBatteries, []);
    assert [] + Pick(s, GreedyFrom(s, 0, totalBatteries)) == Pick(s, GreedyFrom(s, 0, totalBatteries));
  }

  // ----------------------------------------------------------- optimality

  /** Strictly increasing indices grow by at least one per step. */
  lemma {:induction false} PickSpread(idx: seq<nat>, n: nat, i: nat)
    requires IsPick(idx, n) && i < |idx|
    ensures idx[0] + i <= idx[i]
  {
    if i > 0 {
      PickSpread(idx, n, i - 1);
    }
  }

  /** k strictly increasing indices below n leave room: the first is at most n - k. */
  lemma PickRoom(idx: seq<nat>, n: nat)
    requires IsPick(idx, n) && |idx| > 0
    ensures idx[0] + |idx| <= n
  {
    PickSpread(idx, n, |idx| - 1);
  }

  /**
   * Numbers of the same length compare by their first digit, and by the rest
   * when the first digits agree.
   */
  lemma CompareByHead(a: nat, x: seq<nat>, b: nat, y: seq<nat>)
    requires |x| == |y| && AreDigits(x)
    requires a < b || (a == b && DigitsValue(x) <= DigitsValue(y))
    ensures DigitsValue([a] + x) <= DigitsValue([b] + y)
  {
    DigitsValueAppend([a], x);
    DigitsValueAppend([b], y);
    assert DigitsValue([a]) == a && DigitsValue([b]) == b;
    DigitsValueBound(x);
    LeadDominates(a, b, DigitsValue(x), DigitsValue(y), Pow10(|x|));
  }


  /** With the lower part below the place value, a smaller leading digit wins. */
  lemma LeadDominates(a: nat, b: nat, x: nat, y: nat, pw: nat)
    requires a < b || (a == b && x <= y)
    requires x < pw
    ensures a * pw + x <= b * pw + y
  {
    if a < b {
      var c: nat := b - a - 1;
      assert b * pw == a * pw + c * pw + pw;
    }
  }

  /**
   * No pick of k digits at or after `start` spells a larger number than the
   * greedy one: its first digit lies in the greedy window, so it is at most
   * the window's maximum, and when it equals it, it lies no earlier than the
   * greedy choice.
   */
  lemma {:induction false} GreedyOptimal(s: seq<nat>, start: nat, k: nat, idx: seq<nat>)
    requires AreDigits(s) && start + k <= |s|
    requires |idx| == k && IsPick(idx, |s|) && forall i :: 0 <= i < k ==> start <= idx[i]
    ensures DigitsValue(Pick(s, idx)) <= DigitsValue(Pick(s, GreedyFrom(s, start, k)))
    decreases k
  {
    if k > 0 {
      var j := WindowMax(s, start, |s| - k + 1);
      var rest := GreedyFrom(s, j + 1, k - 1);
      GreedyStep(s, start, k, j);
      FirstInWindow(s, start, k, idx, j);
      var tail := idx[1..];
      PickTail(idx, |s|);
      PickHead(s, idx);
      PickHead(s, [j] + rest);
      assert ([j] + rest)[1..] == rest;
      PickDigits(s, tail);
      if s[idx[0]] == s[j] {
        GreedyOptimal(s, j + 1, k - 1, tail);
      }
      CompareByHead(s[idx[0]], Pick(s, tail), s[j], Pick(s, rest));
    }
  }

  /**
   * The first index of a pick leaves room for the others, so its digit lies
   * in the greedy window: it is no larger than the greedy digit, and when it
   * is as large, it is no earlier.
   */
  lemma FirstInWindow(s: seq<nat>, start: nat, k: nat, idx: seq<nat>, j: nat)
    requires start + k <= |s| && k > 0
    requires |idx| == k && IsPick(idx, |s|) && start <= idx[0]
    requires j == WindowMax(s, start, |s| - k + 1)
    ensures s[idx[0]] <= s[j] && (s[idx[0]] == s[j] ==> j <= idx[0])
  {
    WindowMaxIsLeftmostMaximum(s, start, |s| - k + 1);
    PickRoom(idx, |s|);
  }

  /** The rest of a pick is a pick, and all of it comes after the first index. */
  lemma PickTail(idx: seq<nat>, n: nat)
    requires IsPick(idx, n) && |idx| > 0
    ensures IsPick(idx[1..], n)
    ensures forall i :: 0 <= i < |idx| - 1 ==> idx[0] < idx[1..][i]
  {
    forall i | 0 <= i < |idx| - 1 ensures idx[1..][i] == idx[i + 1] && idx[0] < idx[i + 1] {
    }
  }


  /**
   * `max_joltage(k)` is the largest number spelt by k digits of the bank
   * taken in order: the greedy indices are such a pick, no pick is larger,
   * and the number has at most k digits.
   */
  lemma MaxJoltageIsMaximum(s: seq<nat>, k: nat)
    requires AreDigits(s) && k <= |s|
    ensures IsPick(GreedyFrom(s, 0, k), |s|) && |GreedyFrom(s, 0, k)| == k
    ensures forall idx :: |idx| == k && IsPick(idx, |s|) ==> DigitsValue(Pick(s, idx)) <= MaxJoltageOf(s, k)
    ensures MaxJoltageOf(s, k) < Pow10(k)
  {
    GreedyIncreasing(s, 0, k);
    forall idx | |idx| == k && IsPick(idx, |s|) ensures DigitsValue(Pick(s, idx)) <= MaxJoltageOf(s, k) {
      GreedyOptimal(s, 0, k, idx);
    }
    DigitsValueBound(Pick(s, GreedyFrom(s, 0, k)));
  }

  // ---------------------------------------------------------------- parts

  /** Every line is a bank of at least k digits: otherwise `unwrap` or the window arithmetic stops the program. */
  predicate AllBanks(lines: seq<string>, k: nat) {
    lines == [] ||
    (ParseBank(lines[0]).Ok? && k <= |ParseBank(lines[0]).value.joltages| && AllBanks(lines[1..], k))
  }

  /** The sum over the lines of the largest k-digit joltage of each bank; each term is below 10^k. */
  function TotalJoltage(lines: seq<string>, k: nat): (total: nat)
    requires AllBanks(lines, k)
    ensures total + |lines| <= |lines| * Pow10(k)
  {
    if lines == [] then 0
    else
      var s := ParseBank(lines[0]).value.joltages;
      MaxJoltageIsMaximum(s, k);
      var rest := TotalJoltage(lines[1..], k);
      assert (|lines| - 1) * Pow10(k) + Pow10(k) == |lines| * Pow10(k);
      MaxJoltageOf(s, k) + rest
  }

  /** `part_one`: every bank lights two batteries. */
  function PartOne(lines: seq<string>): (r: Option<nat>)
    requires AllBanks(lines, 2)
    ensures r.Some? && r.value + |lines| <= 100 * |lines|
  {
    assert Pow10(2) == 100;
    Some(TotalJoltage(lines, 2))
  }

  /** `part_two`: every bank lights twelve batteries. */
  function PartTwo(lines: seq<string>): (r: Option<nat>)
    requires AllBanks(lines, 12)
    ensures r.Some? && r.value + |lines| <= |lines| * Pow10(12)
  {
    Some(TotalJoltage(lines, 12))
  }
}
