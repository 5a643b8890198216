/**
 * The value perturber: `alter_price` and `alter_number`. Both clean the
 * token to its digits and points, leave it untouched when nothing numeric
 * is left, drop one trailing point (a full stop after the number), parse
 * the rest as a number, take `old - old * p/100` with the run-wide
 * percentage `p`, and render the result: `alter_price` as "$" + grouped
 * whole part + two decimals, `alter_number` with as many decimals as the
 * token had after its point and no grouping.
 */
module Perturb {
  import opened Wrappers
  import opened Numeric
  import Arith

  /** The run-wide percentage `round(random(), 2)`, counted in hundredths. */
  type Percent = p: int | 0 <= p <= 100

  /** The exception `float()` raises inside `alter_price`. */
  datatype PriceError = NotANumber

  /**
   * The shared front end: `None` when the cleaned token is "" or "." (the
   * token is then returned as it is); otherwise the cleaned token with at
   * most one trailing point removed.
   */
  function Prepare(s: string): (r: Option<string>)
    ensures r.None? <==> Clean(s) == "" || Clean(s) == "."
    ensures r.Some? ==> r.value != [] && AllNumChars(r.value)
    ensures r.Some? ==> Clean(s) == r.value || Clean(s) == r.value + "."
    ensures r.Some? ==> (Clean(s) == r.value + "." <==> Clean(s)[|Clean(s)| - 1] == '.')
  {
    var c := Clean(s);
    if c == "" || c == "." then None
    else if c[|c| - 1] == '.' then
      assert c[..|c| - 1] + "." == c;
      Some(c[..|c| - 1])
    else Some(c)
  }

  /**
   * The perturbed value `old * (100 - p) / 100`, rendered with `places`
   * fraction digits: a whole number `r` standing for `r / 10^places`.
   */
  function Reduce(d: Decimal, p: Percent, places: nat): nat
  {
    RoundHalfEven(d.mantissa * (100 - p) * Pow10(places), 100 * Pow10(d.scale))
  }

  /** `alter_number`: a token that does not parse is returned unchanged (the `except ValueError`). */
  function AlterNumber(s: string, p: Percent): string
  {
    match Prepare(s)
    case None => s
    case Some(t) =>
      match ParseDecimal(t)
      case None => s
      case Some(d) => FormatFixed(Reduce(d, p, d.scale), d.scale)
  }

  /**
   * `alter_number` returns its input when the cleaned text is "" or ".", and
   * when the prepared token is not a number (two points, or no digit);
   * otherwise its result is made of digits and at most one point.
   */
  lemma AlterNumberUnchanged(s: string, p: Percent)
    ensures Prepare(s).None? ==> AlterNumber(s, p) == s
    ensures Prepare(s).Some? && !(multiset(Prepare(s).value)['.'] <= 1 && HasDigit(Prepare(s).value))
            ==> AlterNumber(s, p) == s
    ensures AlterNumber(s, p) == s || AllNumChars(AlterNumber(s, p))
    ensures Prepare(s).Some? && ParseDecimal(Prepare(s).value).Some?
            ==> AllNumChars(AlterNumber(s, p)) && multiset(AlterNumber(s, p))['.'] <= 1
  {
    if Prepare(s).Some? {
      var t := Prepare(s).value;
      ParseDecimalAccepts(t);
      if ParseDecimal(t).Some? {
        var d := ParseDecimal(t).value;
        FormatFixedChars(Reduce(d, p, d.scale), d.scale);
      }
    }
  }

  /** "${:,.2f}" of `cents / 100`. */
  function PriceText(cents: nat): (r: string)
    ensures |r| >= 5 && r[0] == '$' && r[|r| - 3] == '.'
  {
    "$" + Group(NatToDigits(cents / 100)) + "." + PadDigits(cents % 100, 2)
  }

  /**
   * A "{:,}"-grouped whole part: a digit first, a comma at every fourth place
   * counted from the right and nowhere else, digits everywhere else.
   */
  predicate Grouped(w: string)
  {
    && w != [] && IsDigit(w[0])
    && (forall i :: 0 <= i < |w| ==> (w[i] == ',' <==> (|w| - i) % 4 == 0))
    && (forall i :: 0 <= i < |w| ==> w[i] == ',' || IsDigit(w[i]))
  }

  /**
   * `r` is "${:,.2f}" of `cents / 100`: "$", the grouped whole part whose
   * digits are those of `cents / 100`, a point, and the two digits of
   * `cents % 100`.
   */
  predicate PriceLayout(r: string, cents: nat)
  {
    && |r| >= 5 && r[0] == '$' && r[|r| - 3] == '.'
    && Grouped(r[1..|r| - 3]) && Clean(r[1..|r| - 3]) == NatToDigits(cents / 100)
    && AllDigits(r[|r| - 2..]) && DigitsValue(r[|r| - 2..]) == cents % 100
  }

  /** A grouped number of `n >= 1` digits never has a length divisible by 4, so it starts with a digit. */
  lemma GroupedLength(n: nat)
    requires n >= 1
    ensures (n + (n - 1) / 3) % 4 != 0
  {
    var q, m := (n - 1) / 3, (n - 1) % 3;
    Arith.DivModSplit(n - 1, 3);
    Arith.DivModUnique(n + q, 4, q, m + 1);
  }

  /** The "{:,}" grouping of a non-empty digit string is grouped. */
  lemma GroupIsGrouped(s: string)
    requires AllDigits(s) && s != []
    ensures Grouped(Group(s))
  {
    GroupLayout(s);
    GroupedLength(|s|);
  }

  /** "$", a grouped whole part, a point and a two-digit fraction make a price layout. */
  lemma LayoutOfParts(g: string, frac: string, cents: nat)
    requires Grouped(g) && Clean(g) == NatToDigits(cents / 100)
    requires |frac| == 2 && AllDigits(frac) && DigitsValue(frac) == cents % 100
    ensures PriceLayout("$" + g + "." + frac, cents)
  {
    var r := "$" + g + "." + frac;
    assert r[1..|r| - 3] == g;
    assert r[|r| - 2..] == frac;
  }

  /** The price text is laid out as "${:,.2f}" prints `cents / 100`. */
  lemma PriceTextLayout(cents: nat)
    ensures PriceLayout(PriceText(cents), cents)
  {
    var whole := NatToDigits(cents / 100);
    var frac := PadDigits(cents % 100, 2);
    GroupIsGrouped(whole);
    CleanGroup(whole);
    LayoutOfParts(Group(whole), frac, cents);
  }

  /** `alter_price`: its `float()` is not guarded, so a token that does not parse raises. */
  function AlterPrice(s: string, p: Percent): (r: Result<string, PriceError>)
    ensures Prepare(s).None? ==> r == Ok(s)
  {
    match Prepare(s)
    case None => Ok(s)
    case Some(t) =>
      match ParseDecimal(t)
      case None => Err(NotANumber)
      case Some(d) => Ok(PriceText(Reduce(d, p, 2)))
  }

  /** `alter_price` raises exactly when the prepared token has two points or no digit. */
  lemma AlterPriceRaises(s: string, p: Percent)
    requires Prepare(s).Some?
    ensures var t := Prepare(s).value;
      AlterPrice(s, p).Err? <==> multiset(t)['.'] >= 2 || !HasDigit(t)
  {
    ParseDecimalAccepts(Prepare(s).value);
  }

  /** Cleaning a price removes the "$" and keeps the point between the two parts. */
  lemma CleanPriceParts(g: string, frac: string)
    ensures Clean("$" + g + "." + frac) == Clean(g) + "." + Clean(frac)
  {
    CleanAppend("$", g);
    CleanAppend("$" + g, ".");
    CleanAppend("$" + g + ".", frac);
    assert Clean("$") == [] by { assert "$"[1..] == []; }
    assert Clean(".") == "." by { assert "."[1..] == []; }
  }

  /** A price renders as "$", the grouped whole part, a point and two digits; read back it is `cents`. */
  lemma PriceTextReadsBack(cents: nat)
    ensures Clean(PriceText(cents)) == FormatFixed(cents, 2)
    ensures ParseDecimal(Clean(PriceText(cents))) == Some(Decimal(cents, 2))
  {
    var whole := NatToDigits(cents / 100);
    var frac := PadDigits(cents % 100, 2);
    CleanPriceParts(Group(whole), frac);
    CleanGroup(whole);
    CleanKeepsNumChars(frac);
    assert Pow10(2) == 100;
    FormatFixedRoundTrip(cents, 2);
  }

  /**
   * `alter_number` keeps the token's format: the result reads back with as
   * many fraction digits as the prepared token had after its point (none
   * when it had no point, and then the result has no point either), and its
   * value is `old * (100 - p) / 100` to within half a unit in the last place,
   * never above the old value; it starts with a digit, and its whole part
   * has no leading zero.
   */
  lemma AlterNumberFormat(s: string, p: Percent)
    requires Prepare(s).Some? && ParseDecimal(Prepare(s).value).Some?
    ensures var t := Prepare(s).value;
      var d := ParseDecimal(t).value;
      var r := AlterNumber(s, p);
      exists q: nat ::
        && ParseDecimal(r) == Some(Decimal(q, d.scale))
        && d.scale == (if DotIndex(t) < |t| then |t| - DotIndex(t) - 1 else 0)
        && ('.' in r <==> d.scale > 0)
        && 2 * (q * 100 - d.mantissa * (100 - p)) <= 100
        && 2 * (d.mantissa * (100 - p) - q * 100) <= 100
        && q <= d.mantissa
    ensures var r := AlterNumber(s, p);
      r != [] && IsDigit(r[0]) && (r[0] == '0' ==> |r| == 1 || r[1] == '.')
  {
    var t := Prepare(s).value;
    var d := ParseDecimal(t).value;
    var q := Reduce(d, p, d.scale);
    FormatFixedRoundTrip(q, d.scale);
    FormatFixedChars(q, d.scale);
    ReduceAtOwnScale(d, p);
    ScaleOfParse(t);
    assert ParseDecimal(AlterNumber(s, p)) == Some(Decimal(q, d.scale));
  }

  lemma ScaleOfParse(t: string)
    requires ParseDecimal(t).Some?
    ensures ParseDecimal(t).value.scale == (if DotIndex(t) < |t| then |t| - DotIndex(t) - 1 else 0)
  {
  }

  /** At the token's own scale the new value rounds `m * (100 - p) / 100`, and `p = 0` changes nothing. */
  lemma ReduceAtOwnScale(d: Decimal, p: Percent)
    ensures Reduce(d, p, d.scale) == RoundHalfEven(d.mantissa * (100 - p), 100)
    ensures var q, n := Reduce(d, p, d.scale), d.mantissa * (100 - p);
      2 * (q * 100 - n) <= 100 && 2 * (n - q * 100) <= 100
    ensures Reduce(d, p, d.scale) <= d.mantissa
    ensures p == 0 ==> Reduce(d, p, d.scale) == d.mantissa
  {
    var n := d.mantissa * (100 - p);
    var c := Pow10(d.scale);
    Arith.MulComm(100, c);
    RoundScale(n, 100, c);
    assert n <= d.mantissa * 100 by { Arith.MulMono(100 - p, 100, d.mantissa); Arith.MulComm(d.mantissa, 100 - p); Arith.MulComm(d.mantissa, 100); }
    RoundMonotone(n, d.mantissa * 100, 100);
    RoundExact(d.mantissa, 100);
    RoundNearest(n, 100);
  }

  /**
   * `alter_price` on a token that parses: "$", comma grouping, exactly two
   * decimals; read back it is a number of cents within half a cent of
   * `old * (100 - p) / 100` and not above the old price in cents.
   */
  lemma AlterPriceFormat(s: string, p: Percent)
    requires Prepare(s).Some? && ParseDecimal(Prepare(s).value).Some?
    ensures var d := ParseDecimal(Prepare(s).value).value;
      var k := Pow10(d.scale);
      && AlterPrice(s, p).Ok?
      && var r := AlterPrice(s, p).value;
      && r[0] == '$' && r[|r| - 3] == '.'
      && exists cents: nat ::
           && PriceLayout(r, cents)
           && ParseDecimal(Clean(r)) == Some(Decimal(cents, 2))
           && 2 * (cents * k - d.mantissa * (100 - p)) <= k
           && 2 * (d.mantissa * (100 - p) - cents * k) <= k
           && cents <= RoundHalfEven(d.mantissa * 100, k)
  {
    var d := ParseDecimal(Prepare(s).value).value;
    var cents := Reduce(d, p, 2);
    PriceTextReadsBack(cents);
    PriceTextLayout(cents);
    ReduceToCents(d, p);
  }

  /** In cents the new price rounds `m * (100 - p) / 10^scale`, never above the old price. */
  lemma ReduceToCents(d: Decimal, p: Percent)
    ensures Reduce(d, p, 2) == RoundHalfEven(d.mantissa * (100 - p), Pow10(d.scale))
    ensures var c, n, k := Reduce(d, p, 2), d.mantissa * (100 - p), Pow10(d.scale);
      2 * (c * k - n) <= k && 2 * (n - c * k) <= k
    ensures Reduce(d, p, 2) <= RoundHalfEven(d.mantissa * 100, Pow10(d.scale))
  {
    var n := d.mantissa * (100 - p);
    var k := Pow10(d.scale);
    assert Pow10(2) == 100;
    Arith.MulComm(100, k);
    RoundScale(n, k, 100);
    assert n <= d.mantissa * 100 by { Arith.MulMono(100 - p, 100, d.mantissa); Arith.MulComm(d.mantissa, 100 - p); Arith.MulComm(d.mantissa, 100); }
    RoundMonotone(n, d.mantissa * 100, k);
    RoundNearest(n, k);
  }
}
