/**
 * Decimal text: the character classes the perturber works with, exact
 * decimal values (a mantissa and a count of fraction digits), the cleaning
 * step `re.sub(r'[^.0-9]', '', s)`, the `float()` parse of a cleaned
 * string, fixed-point formatting ("{:.Nf}") and thousands grouping ("{:,}").
 */
module Numeric {
  import opened Wrappers
  import Arith

  predicate IsDigit(c: char) { '0' <= c <= '9' }

  /** The characters kept by the cleaning step: `[.0-9]`. */
  predicate IsNumChar(c: char) { IsDigit(c) || c == '.' }

  predicate AllDigits(s: string) { forall i :: 0 <= i < |s| ==> IsDigit(s[i]) }

  predicate AllNumChars(s: string) { forall i :: 0 <= i < |s| ==> IsNumChar(s[i]) }

  predicate HasDigit(s: string) { exists i :: 0 <= i < |s| && IsDigit(s[i]) }

  function DigitOf(c: char): (d: nat)
    requires IsDigit(c)
    ensures d < 10
  {
    c as int - '0' as int
  }

  function CharOf(d: nat): (c: char)
    requires d < 10
    ensures IsDigit(c) && DigitOf(c) == d
  {
    ('0' as int + d) as char
  }

  function Pow10(k: nat): (r: nat)
    ensures r >= 1
  {
    if k == 0 then 1 else 10 * Pow10(k - 1)
  }

  /** A number written in base ten; the empty string reads as 0. */
  function DigitsValue(s: string): nat
    requires AllDigits(s)
  {
    if s == [] then 0 else DigitsValue(s[..|s| - 1]) * 10 + DigitOf(s[|s| - 1])
  }

  lemma {:induction false} DigitsValueAppend(a: string, b: string)
    requires AllDigits(a) && AllDigits(b)
    ensures AllDigits(a + b)
    ensures DigitsValue(a + b) == DigitsValue(a) * Pow10(|b|) + DigitsValue(b)
  {
    if b == [] {
      assert a + b == a;
    } else {
      var b' := b[..|b| - 1];
      assert (a + b)[..|a + b| - 1] == a + b';
      assert (a + b)[|a + b| - 1] == b[|b| - 1];
      DigitsValueAppend(a, b');
      Arith.ShiftDigit(DigitsValue(a), Pow10(|b'|), DigitsValue(b'), DigitOf(b[|b| - 1]));
      Arith.MulComm(10, Pow10(|b'|));
    }
  }

  /** Decimal digits of `n` with no leading zero ("{:.0f}" of a whole number). */
  function NatToDigits(n: nat): (r: string)
    ensures r != [] && AllDigits(r) && DigitsValue(r) == n
    ensures r[0] == '0' <==> n == 0
    ensures n == 0 ==> r == "0"
  {
    if n < 10 then
      var r := [CharOf(n)];
      assert r[..|r| - 1] == [];
      r
    else
      var front := NatToDigits(n / 10);
      var r := front + [CharOf(n % 10)];
      assert r[..|r| - 1] == front;
      r
  }

  /** Exactly `width` digits of `n`, zero-padded on the left (a fraction part). */
  function PadDigits(n: nat, width: nat): (r: string)
    requires n < Pow10(width)
    ensures |r| == width && AllDigits(r) && DigitsValue(r) == n
  {
    if width == 0 then
      []
    else
      var front := PadDigits(n / 10, width - 1);
      var r := front + [CharOf(n % 10)];
      assert r[..|r| - 1] == front;
      r
  }

  /** `re.sub(r'[^.0-9]', '', s)`: every character other than a digit or '.' removed. */
  function Clean(s: string): (r: string)
    ensures |r| <= |s| && AllNumChars(r)
  {
    if s == [] then []
    else (if IsNumChar(s[0]) then [s[0]] else []) + Clean(s[1..])
  }

  /** Cleaning keeps the order of what it keeps: it distributes over concatenation. */
  lemma {:induction false} CleanAppend(a: string, b: string)
    ensures Clean(a + b) == Clean(a) + Clean(b)
  {
    if a != [] {
      assert (a + b)[0] == a[0];
      assert (a + b)[1..] == a[1..] + b;
      CleanAppend(a[1..], b);
    } else {
      assert a + b == b;
    }
  }

  /** A string already made only of digits and '.' is left as it is. */
  lemma {:induction false} CleanKeepsNumChars(s: string)
    requires AllNumChars(s)
    ensures Clean(s) == s
  {
    if s != [] {
      CleanKeepsNumChars(s[1..]);
    }
  }

  /** Cleaning drops exactly the characters outside `[.0-9]`. */
  lemma {:induction false} CleanDropsOthers(s: string)
    requires forall i :: 0 <= i < |s| ==> !IsNumChar(s[i])
    ensures Clean(s) == []
  {
    if s != [] {
      CleanDropsOthers(s[1..]);
    }
  }

  /** Cleaning is idempotent. */
  lemma CleanIdempotent(s: string)
    ensures Clean(Clean(s)) == Clean(s)
  {
    CleanKeepsNumChars(Clean(s));
  }

  /** Cleaning keeps every point of the input. */
  lemma {:induction false} CleanKeepsPoints(s: string)
    ensures multiset(Clean(s))['.'] == multiset(s)['.']
  {
    if s != [] {
      CleanKeepsPoints(s[1..]);
      assert s == [s[0]] + s[1..];
    }
  }

  /** Cleaning keeps every digit of the input, so it has a digit exactly when the input has one. */
  lemma {:induction false} CleanKeepsDigits(s: string)
    ensures HasDigit(Clean(s)) <==> HasDigit(s)
  {
    if s != [] {
      CleanKeepsDigits(s[1..]);
      var head := if IsNumChar(s[0]) then [s[0]] else [];
      var tail := Clean(s[1..]);
      assert Clean(s) == head + tail;
      if HasDigit(s) && !IsDigit(s[0]) {
        var i :| 0 <= i < |s| && IsDigit(s[i]);
        assert IsDigit(s[1..][i - 1]);
        var j :| 0 <= j < |tail| && IsDigit(tail[j]);
        assert Clean(s)[|head| + j] == tail[j];
      }
      if HasDigit(Clean(s)) && !IsDigit(s[0]) {
        var i :| 0 <= i < |Clean(s)| && IsDigit(Clean(s)[i]);
        if i >= |head| {
          assert IsDigit(tail[i - |head|]);
          var j :| 0 <= j < |s[1..]| && IsDigit(s[1..][j]);
          assert IsDigit(s[j + 1]);
        }
      }
      if IsDigit(s[0]) {
        assert IsDigit(Clean(s)[0]);
      }
    }
  }

  /** An exact decimal number: `mantissa / 10^scale`, written with `scale` fraction digits. */
  datatype Decimal = Decimal(mantissa: nat, scale: nat)

  /** Index of the first '.', or `|t|` when there is none. */
  function DotIndex(t: string): (i: nat)
    ensures i <= |t| && (i < |t| ==> t[i] == '.')
    ensures forall j :: 0 <= j < i ==> t[j] != '.'
  {
    if t == [] || t[0] == '.' then 0 else 1 + DotIndex(t[1..])
  }

  /**
   * Python's `float()` on a cleaned string: an optional whole part, at most
   * one point and an optional fraction part, with at least one digit
   * ("5", "5.", ".5", "5.5"); anything else ("", ".", "1.2.3") raises. The
   * result keeps the number of fraction digits as the scale.
   */
  function ParseDecimal(t: string): (r: Option<Decimal>)
  {
    var i := DotIndex(t);
    var whole := t[..i];
    var frac := if i < |t| then t[i + 1..] else [];
    if !AllDigits(whole) || !AllDigits(frac) || |whole| + |frac| == 0 then None
    else Some(Decimal(DigitsValue(whole + frac), |frac|))
  }

  /** On cleaned text, `float()` succeeds exactly when there is at most one point and some digit. */
  lemma ParseDecimalAccepts(t: string)
    requires AllNumChars(t)
    ensures ParseDecimal(t).Some? <==> multiset(t)['.'] <= 1 && HasDigit(t)
  {
    var i := DotIndex(t);
    var frac := if i < |t| then t[i + 1..] else [];
    PointsAroundFirst(t);
    assert AllNumChars(frac);
    DigitsOrPoint(frac);
    if AllDigits(frac) {
      DigitOutsidePoint(t);
    }
  }

  /** The points of a string: the first one, if any, and those after it. */
  lemma PointsAroundFirst(t: string)
    ensures var i := DotIndex(t);
      multiset(t)['.'] == if i < |t| then 1 + multiset(t[i + 1..])['.'] else 0
  {
    var i := DotIndex(t);
    assert '.' !in t[..i] by {
      assert forall j :: 0 <= j < i ==> t[..i][j] != '.';
    }
    assert multiset(t[..i])['.'] == 0;
    if i < |t| {
      assert t == t[..i] + [t[i]] + t[i + 1..];
    } else {
      assert t == t[..i];
    }
  }

  lemma DigitsOrPoint(s: string)
    requires AllNumChars(s)
    ensures AllDigits(s) <==> multiset(s)['.'] == 0
  {
    if AllDigits(s) {
      DigitsHaveNoPoint(s);
    } else {
      var k :| 0 <= k < |s| && !IsDigit(s[k]);
      assert s[k] in multiset(s);
    }
  }

  /** With no second point, a digit of a cleaned string lies before or after the first point. */
  lemma DigitOutsidePoint(t: string)
    requires AllNumChars(t)
    requires DotIndex(t) < |t| ==> AllDigits(t[DotIndex(t) + 1..])
    ensures var i := DotIndex(t);
      HasDigit(t) <==> i + (if i < |t| then |t| - i - 1 else 0) > 0
  {
    var i := DotIndex(t);
    if HasDigit(t) {
      var k :| 0 <= k < |t| && IsDigit(t[k]);
      assert k != i;
    }
    if i > 0 {
      assert IsDigit(t[0]);
    } else if i + 1 < |t| {
      assert IsDigit(t[i + 1]) by { assert t[i + 1] == t[i + 1..][0]; }
    }
  }

  lemma DigitsHaveNoPoint(s: string)
    requires AllDigits(s)
    ensures '.' !in s
  {
    assert forall j :: 0 <= j < |s| ==> s[j] != '.';
  }

  /** "{:.Nf}" of the exact value `q / 10^places`: whole digits, then '.' and `places` digits. */
  function FormatFixed(q: nat, places: nat): string
  {
    var whole := NatToDigits(Above(q, Pow10(places)));
    if places == 0 then whole
    else whole + "." + PadDigits(Below(q, Pow10(places)), places)
  }

  /** `n / d` as a natural number. */
  function Above(n: nat, d: nat): nat
    requires d > 0
  {
    n / d
  }

  /** `n % d`, named so that its bound comes with it. */
  function Below(n: nat, d: nat): (r: nat)
    requires d > 0
    ensures r < d
  {
    n % d
  }

  /**
   * The fixed-point text is made of digits and at most the one point, which
   * it has exactly when `places > 0`, and never more than once; it starts
   * with a digit, and its whole part has no leading zero, so a '0' in front
   * is the whole part "0" itself.
   */
  lemma FormatFixedChars(q: nat, places: nat)
    ensures AllNumChars(FormatFixed(q, places))
    ensures ('.' in FormatFixed(q, places)) <==> places > 0
    ensures multiset(FormatFixed(q, places))['.'] <= 1
    ensures var r := FormatFixed(q, places);
      r != [] && IsDigit(r[0]) && (r[0] == '0' ==> |r| == 1 || r[1] == '.')
  {
    var whole := NatToDigits(Above(q, Pow10(places)));
    DigitsHaveNoPoint(whole);
    if whole[0] == '0' {
      assert whole == "0";
    }
    if places > 0 {
      var frac := PadDigits(Below(q, Pow10(places)), places);
      DigitsHaveNoPoint(frac);
      var r := whole + "." + frac;
      assert multiset(r) == multiset(whole) + multiset(".") + multiset(frac);
      assert r[|whole|] == '.';
      assert forall i :: 0 <= i < |r| ==> r[i] == '.' || r[i] in whole || r[i] in frac;
    }
  }

  /** Reading a formatted number back gives the same value and the same number of places. */
  lemma FormatFixedRoundTrip(q: nat, places: nat)
    ensures ParseDecimal(FormatFixed(q, places)) == Some(Decimal(q, places))
  {
    var whole := NatToDigits(Above(q, Pow10(places)));
    Arith.DivModSplit(q, Pow10(places));
    if places == 0 {
      ParseWhole(whole);
    } else {
      var frac := PadDigits(Below(q, Pow10(places)), places);
      ParsePointed(whole, frac);
      DigitsValueAppend(whole, frac);
    }
  }

  /** A digit string with no point parses as a whole number. */
  lemma ParseWhole(s: string)
    requires AllDigits(s) && s != []
    ensures ParseDecimal(s) == Some(Decimal(DigitsValue(s), 0))
  {
    DigitsHaveNoPoint(s);
    assert DotIndex(s) == |s|;
    assert s[..|s|] == s;
    assert s + [] == s;
  }

  /** `whole.frac` parses to the digits of both with `|frac|` places. */
  lemma ParsePointed(whole: string, frac: string)
    requires AllDigits(whole) && AllDigits(frac) && |whole| + |frac| > 0
    ensures AllDigits(whole + frac)
    ensures ParseDecimal(whole + "." + frac) == Some(Decimal(DigitsValue(whole + frac), |frac|))
  {
    var r := whole + "." + frac;
    DigitsHaveNoPoint(whole);
    assert r[|whole|] == '.';
    assert forall j :: 0 <= j < |whole| ==> r[j] == whole[j];
    DotIndexFirst(r, |whole|);
    assert r[..|whole|] == whole;
    assert r[|whole| + 1..] == frac;
    DigitsValueAppend(whole, frac);
  }

  lemma DotIndexFirst(t: string, i: nat)
    requires i < |t| && t[i] == '.'
    requires forall j :: 0 <= j < i ==> t[j] != '.'
    ensures DotIndex(t) == i
  {
  }

  /** "{:,}" grouping of a digit string: a comma before every third digit from the right. */
  function Group(s: string): string
    requires AllDigits(s)
    decreases |s|
  {
    if |s| <= 3 then s
    else Group(s[..|s| - 3]) + "," + s[|s| - 3..]
  }

  /**
   * The grouped text has a comma before every third digit from the right and
   * nowhere else: counting from the end, every fourth character is a comma.
   */
  lemma {:induction false} GroupLayout(s: string)
    requires AllDigits(s)
    ensures var r := Group(s);
      && |r| == |s| + (if s == [] then 0 else (|s| - 1) / 3)
      && (forall i :: 0 <= i < |r| ==> (r[i] == ',' <==> (|r| - i) % 4 == 0))
      && (forall i :: 0 <= i < |r| ==> r[i] == ',' || IsDigit(r[i]))
    decreases |s|
  {
    var r := Group(s);
    if |s| <= 3 {
      forall i | 0 <= i < |r|
        ensures (r[i] == ',' <==> (|r| - i) % 4 == 0) && IsDigit(r[i])
      {
        assert 1 <= |r| - i <= 3;
      }
    } else {
      var front, tail := s[..|s| - 3], s[|s| - 3..];
      assert AllDigits(front) by { forall i | 0 <= i < |front| ensures IsDigit(front[i]) { assert front[i] == s[i]; } }
      GroupLayout(front);
      var g := Group(front);
      assert r == g + "," + tail;
      assert |r| == |g| + 4;
      forall i | 0 <= i < |r|
        ensures (r[i] == ',' <==> (|r| - i) % 4 == 0) && (r[i] == ',' || IsDigit(r[i]))
      {
        if i < |g| {
          assert r[i] == g[i];
          Arith.ModShift(|g| - i, 4);
        } else if i == |g| {
          assert r[i] == ',' && |r| - i == 4;
        } else {
          assert r[i] == tail[i - |g| - 1] == s[|s| - 3 + (i - |g| - 1)];
          assert 1 <= |r| - i <= 3;
        }
      }
    }
  }

  /** Removing the grouping commas gives back the digits. */
  lemma {:induction false} CleanGroup(s: string)
    requires AllDigits(s)
    ensures Clean(Group(s)) == s
    decreases |s|
  {
    if |s| <= 3 {
      CleanKeepsNumChars(s);
    } else {
      var front, back := s[..|s| - 3], s[|s| - 3..];
      assert Group(s) == Group(front) + "," + back;
      CleanGroup(front);
      CleanAppend(Group(front), ",");
      CleanAppend(Group(front) + ",", back);
      CleanKeepsNumChars(back);
      assert Clean(",") == [] by { assert ","[1..] == []; }
      assert front + back == s;
    }
  }

  /**
   * Rounding `n / d` to the nearest whole number, ties to the even one (the
   * rule "{:.Nf}" applies to an exactly representable tie).
   */
  function RoundHalfEven(n: nat, d: nat): nat
    requires d > 0
  {
    var q, m := n / d, n % d;
    if 2 * m < d then q
    else if 2 * m > d then q + 1
    else if q % 2 == 0 then q
    else q + 1
  }

  /** The rounded quotient is within half of `n / d`, and an exact tie goes to the even neighbour. */
  lemma RoundNearest(n: nat, d: nat)
    requires d > 0
    ensures var r := RoundHalfEven(n, d);
      && 2 * (n - r * d) <= d && 2 * (r * d - n) <= d
      && ((2 * (n - r * d) == d || 2 * (r * d - n) == d) ==> r % 2 == 0)
  {
    var q := n / d;
    Arith.DivModSplit(n, d);
    Arith.MulSucc(q, d);
  }

  /** A multiple of the divisor rounds to itself. */
  lemma RoundExact(n: nat, d: nat)
    requires d > 0
    ensures RoundHalfEven(n * d, d) == n
  {
    Arith.DivModUnique(n * d, d, n, 0);
  }

  /** Rounding is monotone. */
  lemma RoundMonotone(a: nat, b: nat, d: nat)
    requires d > 0 && a <= b
    ensures RoundHalfEven(a, d) <= RoundHalfEven(b, d)
  {
    Arith.DivModSplit(a, d);
    Arith.DivModSplit(b, d);
    Arith.DivMono(a, b, d);
  }

  /** Scaling numerator and divisor by the same factor does not change the rounding. */
  lemma RoundScale(n: nat, d: nat, c: nat)
    requires d > 0 && c > 0
    ensures RoundHalfEven(n * c, d * c) == RoundHalfEven(n, d)
  {
    var q, m := n / d, n % d;
    Arith.DivModSplit(n, d);
    ScaleParts(n, d, c, q, m);
    Arith.DivModUnique(n * c, d * c, q, m * c);
  }

  lemma ScaleParts(n: nat, d: nat, c: nat, q: nat, m: nat)
    requires d > 0 && c > 0 && n == q * d + m && m < d
    ensures n * c == q * (d * c) + m * c && m * c < d * c
    ensures 2 * (m * c) < d * c <==> 2 * m < d
    ensures 2 * (m * c) > d * c <==> 2 * m > d
  {
    Arith.MulAssoc(q, d, c);
    assert (q * d + m) * c == (q * d) * c + m * c;
    Arith.MulLe(m + 1, d, c);
    Arith.MulSucc(m, c);
    CompareScaled(2 * m, d, c);
    Arith.MulAssoc(2, m, c);
  }

  lemma CompareScaled(a: nat, b: nat, c: nat)
    requires c > 0
    ensures a * c < b * c <==> a < b
    ensures a * c > b * c <==> a > b
  {
    if a < b { Arith.MulLe(a + 1, b, c); Arith.MulSucc(a, c); }
    if a > b { Arith.MulLe(b + 1, a, c); Arith.MulSucc(b, c); }
  }
}
