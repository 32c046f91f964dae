/**
 * Text and number helpers shared by the puzzles: the ASCII part of Rust's
 * `char::is_whitespace`, `str::trim`, `str::split(char)`,
 * `str::split_whitespace`, decimal digits, `u64::to_string` and the
 * `FromStr` parsers of `u64` and `i32`.
 */
module Text {
  import opened Wrappers

  /** The ASCII characters for which `char::is_whitespace` holds. */
  predicate IsWhitespace(c: char) {
    c == ' ' || c == '\t' || c == '\n' || c == '\r' || c == '\U{B}' || c == '\U{C}'
  }

  // ---------------------------------------------------------------- trim

  function TrimStart(s: string): (r: string)
    ensures |r| <= |s| && r == s[|s| - |r|..]
    ensures forall i :: 0 <= i < |s| - |r| ==> IsWhitespace(s[i])
    ensures r == [] || !IsWhitespace(r[0])
  {
    if |s| > 0 && IsWhitespace(s[0]) then TrimStart(s[1..]) else s
  }

  function TrimEnd(s: string): (r: string)
    ensures |r| <= |s| && r == s[..|r|]
    ensures forall i :: |r| <= i < |s| ==> IsWhitespace(s[i])
    ensures r == [] || !IsWhitespace(r[|r| - 1])
  {
    if |s| > 0 && IsWhitespace(s[|s| - 1]) then TrimEnd(s[..|s| - 1]) else s
  }

  /** `str::trim`: the string without its leading and trailing whitespace. */
  function Trim(s: string): (r: string)
    ensures |r| <= |s|
    ensures r == [] || (!IsWhitespace(r[0]) && !IsWhitespace(r[|r| - 1]))
    ensures r == [] ==> forall i :: 0 <= i < |s| ==> IsWhitespace(s[i])
  {
    TrimEnd(TrimStart(s))
  }

  /** A string that neither starts nor ends with whitespace is its own trim. */
  lemma TrimUnchanged(s: string)
    requires s == [] || (!IsWhitespace(s[0]) && !IsWhitespace(s[|s| - 1]))
    ensures Trim(s) == s
  {
  }

  // --------------------------------------------------------------- split

  /** `str::split(sep)`: the pieces between the occurrences of `sep`. */
  function Split(s: string, sep: char): (r: seq<string>)
    ensures |r| >= 1
    ensures forall i :: 0 <= i < |r| ==> sep !in r[i]
  {
    if s == [] then [[]]
    else
      var rest := Split(s[1..], sep);
      if s[0] == sep then [[]] + rest else [[s[0]] + rest[0]] + rest[1..]
  }

  /** The pieces glued back together with `sep` between neighbours. */
  function Join(pieces: seq<string>, sep: char): string
    decreases |pieces|
  {
    if |pieces| == 0 then []
    else if |pieces| == 1 then pieces[0]
    else pieces[0] + [sep] + Join(pieces[1..], sep)
  }

  /** Joining a first piece in front of at least one more puts a separator between. */
  lemma JoinCons(p: string, ps: seq<string>, sep: char)
    requires |ps| >= 1
    ensures Join([p] + ps, sep) == p + [sep] + Join(ps, sep)
  {
    assert ([p] + ps)[1..] == ps;
  }

  /** Splitting loses nothing: joining the pieces gives the string back. */
  lemma {:induction false} JoinSplit(s: string, sep: char)
    ensures Join(Split(s, sep), sep) == s
  {
    if s != [] {
      var rest := Split(s[1..], sep);
      JoinSplit(s[1..], sep);
      assert [s[0]] + s[1..] == s;
      if s[0] == sep {
        assert Split(s, sep) == [[]] + rest;
        JoinCons([], rest, sep);
      } else {
        assert Split(s, sep) == [[s[0]] + rest[0]] + rest[1..];
        if |rest| == 1 {
          assert Join([[s[0]] + rest[0]], sep) == [s[0]] + rest[0];
        } else {
          JoinCons([s[0]] + rest[0], rest[1..], sep);
          assert rest == [rest[0]] + rest[1..];
          JoinCons(rest[0], rest[1..], sep);
        }
      }
    }
  }

  /** Separator-free pieces are recovered by splitting their join. */
  lemma {:induction false} SplitJoin(pieces: seq<string>, sep: char)
    requires |pieces| >= 1
    requires forall i :: 0 <= i < |pieces| ==> sep !in pieces[i]
    ensures Split(Join(pieces, sep), sep) == pieces
    decreases |pieces|, |pieces[0]|
  {
    if |pieces| == 1 {
      SplitNoSeparator(pieces[0], sep);
    } else if pieces[0] == [] {
      var rest := pieces[1..];
      SplitJoin(rest, sep);
      assert pieces == [[]] + rest;
      JoinCons([], rest, sep);
      assert ([sep] + Join(rest, sep))[1..] == Join(rest, sep);
    } else {
      var p := pieces[0];
      var shorter := [p[1..]] + pieces[1..];
      assert forall i :: 0 <= i < |shorter| ==> sep !in shorter[i] by {
        forall i | 0 <= i < |shorter| ensures sep !in shorter[i] {
          if i == 0 {
            assert forall c :: c in p[1..] ==> c in p;
          } else {
            assert shorter[i] == pieces[i];
          }
        }
      }
      SplitJoin(shorter, sep);
      var j := Join(pieces, sep);
      assert pieces == [p] + pieces[1..];
      JoinCons(p, pieces[1..], sep);
      JoinCons(p[1..], pieces[1..], sep);
      assert j[0] == p[0] && j[1..] == Join(shorter, sep);
      assert p[0] != sep by { assert p[0] in p; }
      assert [p[0]] + p[1..] == p;
    }
  }

  lemma {:induction false} SplitNoSeparator(s: string, sep: char)
    requires sep !in s
    ensures Split(s, sep) == [s]
  {
    if s != [] {
      assert forall c :: c in s[1..] ==> c in s;
      SplitNoSeparator(s[1..], sep);
      assert s[0] in s;
      assert [s[0]] + s[1..] == s;
    }
  }

  // ----------------------------------------------------- split_whitespace

  /** `str::split_whitespace`: the maximal runs of non-whitespace characters. */
  function Words(s: string): (r: seq<string>)
    ensures |s| > 0 && !IsWhitespace(s[0]) ==> |r| > 0 && |r[0]| > 0 && r[0][0] == s[0]
    ensures forall k :: 0 <= k < |r| ==> r[k] != [] && NoWhitespace(r[k])
  {
    if s == [] then []
    else
      var rest := Words(s[1..]);
      if IsWhitespace(s[0]) then rest
      else if |s| > 1 && !IsWhitespace(s[1]) then [[s[0]] + rest[0]] + rest[1..]
      else [[s[0]]] + rest
  }

  predicate NoWhitespace(w: string) {
    forall i :: 0 <= i < |w| ==> !IsWhitespace(w[i])
  }

  /** The non-whitespace characters of a string, in order. */
  function Visible(s: string): string {
    if s == [] then []
    else if IsWhitespace(s[0]) then Visible(s[1..])
    else [s[0]] + Visible(s[1..])
  }

  function Concat(ws: seq<string>): string {
    if ws == [] then [] else ws[0] + Concat(ws[1..])
  }

  lemma ConcatCons(w: string, ws: seq<string>)
    ensures Concat([w] + ws) == w + Concat(ws)
  {
    assert ([w] + ws)[1..] == ws;
  }

  /** The words hold exactly the non-whitespace characters, in order. */
  lemma {:induction false} WordsKeepVisible(s: string)
    ensures Concat(Words(s)) == Visible(s)
  {
    if s != [] {
      WordsKeepVisible(s[1..]);
      var rest := Words(s[1..]);
      if !IsWhitespace(s[0]) {
        assert Visible(s) == [s[0]] + Visible(s[1..]);
        if |s| > 1 && !IsWhitespace(s[1]) {
          WordsJoin(s, rest);
        } else {
          assert Words(s) == [[s[0]]] + rest;
          ConcatCons([s[0]], rest);
        }
      }
    }
  }

  /** A non-whitespace character followed by one joins the first word of the rest. */
  lemma WordsJoin(s: string, rest: seq<string>)
    requires |s| > 1 && !IsWhitespace(s[0]) && !IsWhitespace(s[1]) && rest == Words(s[1..])
    ensures Concat(Words(s)) == [s[0]] + Concat(rest)
  {
    assert |rest| > 0;
    assert Words(s) == [[s[0]] + rest[0]] + rest[1..];
    ConcatCons([s[0]] + rest[0], rest[1..]);
    assert rest == [rest[0]] + rest[1..];
    ConcatCons(rest[0], rest[1..]);
  }

  // -------------------------------------------------------------- digits

  predicate IsDigit(c: char) {
    '0' <= c <= '9'
  }

  function DigitOf(c: char): (d: nat)
    requires IsDigit(c)
    ensures d < 10
  {
    c as int - '0' as int
  }

  function DigitChar(d: nat): (c: char)
    requires d < 10
    ensures IsDigit(c) && DigitOf(c) == d
  {
    ('0' as int + d) as char
  }

  function Pow10(k: nat): (p: nat)
    ensures p >= 1
  {
    if k == 0 then 1 else 10 * Pow10(k - 1)
  }

  predicate AreDigits(ds: seq<nat>) {
    forall i :: 0 <= i < |ds| ==> ds[i] < 10
  }

  /** The value of a digit sequence written most significant digit first. */
  function DigitsValue(ds: seq<nat>): nat {
    if ds == [] then 0 else DigitsValue(ds[..|ds| - 1]) * 10 + ds[|ds| - 1]
  }

  lemma DigitsValueSnoc(ds: seq<nat>, d: nat)
    ensures DigitsValue(ds + [d]) == DigitsValue(ds) * 10 + d
  {
    assert (ds + [d])[..|ds|] == ds;
  }

  /** k digits make a number below 10^k. */
  lemma {:induction false} DigitsValueBound(ds: seq<nat>)
    requires AreDigits(ds)
    ensures DigitsValue(ds) < Pow10(|ds|)
  {
    if ds != [] {
      DigitsValueBound(ds[..|ds| - 1]);
    }
  }

  /** Concatenating digits shifts the left part by the length of the right part. */
  /** `(v 10^n + x) 10 + d == v 10^(n+1) + (10 x + d)`. */
  lemma ShiftPlace(v: nat, pw: nat, x: nat, d: nat)
    ensures (v * pw + x) * 10 + d == v * (10 * pw) + (x * 10 + d)
  {
  }

  lemma {:induction false} DigitsValueAppend(a: seq<nat>, b: seq<nat>)
    ensures DigitsValue(a + b) == DigitsValue(a) * Pow10(|b|) + DigitsValue(b)
    decreases |b|
  {
    if b == [] {
      assert a + b == a;
    } else {
      var b' := b[..|b| - 1];
      var d := b[|b| - 1];
      assert a + b == (a + b') + [d];
      assert b == b' + [d];
      DigitsValueSnoc(a + b', d);
      DigitsValueSnoc(b', d);
      DigitsValueAppend(a, b');
      ShiftPlace(DigitsValue(a), Pow10(|b'|), DigitsValue(b'), d);
    }
  }

  /** Digit sequences of one length with one value are the same sequence. */
  lemma {:induction false} DigitsValueInjective(a: seq<nat>, b: seq<nat>)
    requires |a| == |b| && AreDigits(a) && AreDigits(b)
    requires DigitsValue(a) == DigitsValue(b)
    ensures a == b
  {
    if a != [] {
      var n := |a| - 1;
      var va, vb := DigitsValue(a[..n]), DigitsValue(b[..n]);
      assert va * 10 + a[n] == vb * 10 + b[n];
      assert a[n] == b[n] && va == vb by {
        DivModUnique(va, a[n], vb, b[n]);
      }
      DigitsValueInjective(a[..n], b[..n]);
      assert a == a[..n] + [a[n]] && b == b[..n] + [b[n]];
    }
  }

  lemma DivModUnique(q1: nat, r1: nat, q2: nat, r2: nat)
    requires r1 < 10 && r2 < 10 && q1 * 10 + r1 == q2 * 10 + r2
    ensures q1 == q2 && r1 == r2
  {
  }

  predicate AllDigitChars(s: string) {
    forall i :: 0 <= i < |s| ==> IsDigit(s[i])
  }

  /** The digit values of a string of decimal digits. */
  function CharDigits(s: string): (ds: seq<nat>)
    requires AllDigitChars(s)
    ensures |ds| == |s| && AreDigits(ds)
  {
    seq(|s|, i requires 0 <= i < |s| => DigitOf(s[i]))
  }

  /** The number a string of decimal digits denotes. */
  function StringValue(s: string): nat
    requires AllDigitChars(s)
  {
    DigitsValue(CharDigits(s))
  }

  lemma StringValueSnoc(s: string, c: char)
    requires AllDigitChars(s) && IsDigit(c)
    ensures AllDigitChars(s + [c])
    ensures StringValue(s + [c]) == StringValue(s) * 10 + DigitOf(c)
  {
    assert CharDigits(s + [c]) == CharDigits(s) + [DigitOf(c)];
    DigitsValueSnoc(CharDigits(s), DigitOf(c));
  }

  lemma AllDigitCharsAppend(a: string, b: string)
    requires AllDigitChars(a) && AllDigitChars(b)
    ensures AllDigitChars(a + b)
  {
    var ab := a + b;
    forall i | 0 <= i < |ab| ensures IsDigit(ab[i]) {
      if i < |a| { assert ab[i] == a[i]; } else { assert ab[i] == b[i - |a|]; }
    }
  }

  lemma CharDigitsAppend(a: string, b: string)
    requires AllDigitChars(a) && AllDigitChars(b) && AllDigitChars(a + b)
    ensures CharDigits(a + b) == CharDigits(a) + CharDigits(b)
  {
    var ab := a + b;
    var da, db := CharDigits(a), CharDigits(b);
    forall i | 0 <= i < |ab| ensures CharDigits(ab)[i] == (da + db)[i] {
      if i < |a| { assert ab[i] == a[i]; } else { assert ab[i] == b[i - |a|]; }
    }
  }

  lemma StringValueAppend(a: string, b: string)
    requires AllDigitChars(a) && AllDigitChars(b)
    ensures AllDigitChars(a + b)
    ensures StringValue(a + b) == StringValue(a) * Pow10(|b|) + StringValue(b)
  {
    AllDigitCharsAppend(a, b);
    CharDigitsAppend(a, b);
    DigitsValueAppend(CharDigits(a), CharDigits(b));
  }

  lemma StringValueBound(s: string)
    requires AllDigitChars(s)
    ensures StringValue(s) < Pow10(|s|)
  {
    DigitsValueBound(CharDigits(s));
  }

  /** Equal-length digit strings with equal values are equal. */
  lemma StringValueInjective(a: string, b: string)
    requires |a| == |b| && AllDigitChars(a) && AllDigitChars(b)
    requires StringValue(a) == StringValue(b)
    ensures a == b
  {
    DigitsValueInjective(CharDigits(a), CharDigits(b));
    forall i | 0 <= i < |a| ensures a[i] == b[i] {
      assert CharDigits(a)[i] == CharDigits(b)[i];
    }
  }

  /** `u64::to_string` (and `usize`): the decimal form without leading zeros. */
  function DecimalString(n: nat): (s: string)
    ensures |s| >= 1 && AllDigitChars(s)
    ensures StringValue(s) == n
    ensures n > 0 ==> s[0] != '0'
    ensures n < 10 <==> |s| == 1
  {
    if n < 10 then
      var s := [DigitChar(n)];
      assert CharDigits(s) == [] + [n];
      DigitsValueSnoc([], n);
      s
    else
      var s := DecimalString(n / 10) + [DigitChar(n % 10)];
      StringValueSnoc(DecimalString(n / 10), DigitChar(n % 10));
      s
  }

  /** A k-digit decimal form belongs to a number in [10^(k-1), 10^k). */
  lemma {:induction false} DecimalStringLength(n: nat)
    ensures n < Pow10(|DecimalString(n)|)
    ensures n > 0 ==> Pow10(|DecimalString(n)| - 1) <= n
  {
    StringValueBound(DecimalString(n));
    if n >= 10 {
      DecimalStringLength(n / 10);
    }
  }

  // ------------------------------------------------------------- parsing

  const U64Limit: nat := 0x1_0000_0000_0000_0000
  const I32Min: int := -0x8000_0000
  const I32Max: int := 0x7FFF_FFFF

  /** The digits that `FromStr` reads once an optional leading `+` is skipped. */
  function UnsignedBody(s: string): string {
    if |s| > 0 && s[0] == '+' then s[1..] else s
  }

  /**
   * `u64::from_str`: an optional `+` followed by at least one decimal digit,
   * with a value that fits in 64 bits.
   */
  function ParseU64(s: string): (r: Option<nat>)
    ensures r.Some? <==> var b := UnsignedBody(s); b != [] && AllDigitChars(b) && StringValue(b) < U64Limit
    ensures r.Some? ==> r.value < U64Limit && r.value == StringValue(UnsignedBody(s))
  {
    var body := UnsignedBody(s);
    if body != [] && AllDigitChars(body) && StringValue(body) < U64Limit then Some(StringValue(body)) else None
  }

  /** A string that parses as a `u64` is made of digits and a leading `+`: no whitespace, no `-`. */
  lemma ParsedU64Charset(s: string)
    requires ParseU64(s).Some?
    ensures s != [] && NoWhitespace(s) && '-' !in s && ',' !in s
  {
    var b := UnsignedBody(s);
    forall i | 0 <= i < |s| ensures s[i] == '+' || IsDigit(s[i]) {
      if s[0] == '+' && i > 0 {
        assert s[i] == b[i - 1];
      }
    }
  }

  /** `n.to_string().parse::<u64>()` gives `n` back. */
  lemma ParseU64Decimal(n: nat)
    requires n < U64Limit
    ensures ParseU64(DecimalString(n)) == Some(n)
  {
    var s := DecimalString(n);
    assert IsDigit(s[0]);
  }

  /**
   * `i32::from_str`: an optional sign followed by at least one decimal digit,
   * with a value in the 32-bit two's complement range.
   */
  function ParseI32(s: string): (r: Option<int>)
    ensures |s| > 0 && s[0] == '-' ==>
      (r.Some? <==> var b := s[1..]; b != [] && AllDigitChars(b) && StringValue(b) <= -I32Min) &&
      (r.Some? ==> r.value == -(StringValue(s[1..]) as int))
    ensures !(|s| > 0 && s[0] == '-') ==>
      (r.Some? <==> var b := UnsignedBody(s); b != [] && AllDigitChars(b) && StringValue(b) <= I32Max) &&
      (r.Some? ==> r.value == StringValue(UnsignedBody(s)))
    ensures r.Some? ==> I32Min <= r.value <= I32Max
    ensures r.Some? ==> s != [] && (r.value < 0 ==> s[0] == '-')
  {
    if |s| > 0 && s[0] == '-' then
      var body := s[1..];
      if body != [] && AllDigitChars(body) && StringValue(body) <= -I32Min then Some(0 - StringValue(body)) else None
    else
      var body := UnsignedBody(s);
      if body != [] && AllDigitChars(body) && StringValue(body) <= I32Max then Some(StringValue(body)) else None
  }

  /** `t.to_string().parse::<i32>()` gives `t` back for non-negative `t`. */
  lemma ParseI32Decimal(t: nat)
    requires t <= I32Max
    ensures ParseI32(DecimalString(t)) == Some(t)
  {
    var s := DecimalString(t);
    assert IsDigit(s[0]);
  }

  /** `("-" + &t.to_string()).parse::<i32>()` gives `-t` for every `t` down to `i32::MIN`. */
  lemma ParseI32Negative(t: nat)
    requires t <= -I32Min
    ensures ParseI32("-" + DecimalString(t)) == Some(-(t as int))
  {
    var s := "-" + DecimalString(t);
    assert s[1..] == DecimalString(t);
  }

  /** A sign alone, or a sign followed by another sign, is not an `i32`. */
  lemma ParseI32SignsOnly(c: char, d: char)
    requires (c == '+' || c == '-') && (d == '+' || d == '-')
    ensures ParseI32([c]) == None
    ensures ParseI32([c, d]) == None
  {
    assert [c][1..] == [];
    assert [c, d][1..] == [d] && !IsDigit(d);
  }
}
