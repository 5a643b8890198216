/**
 * Two worked examples: a 20% cut of "$1,000.00" and a 30% cut of "150".
 */
module PerturbExamples {
  import opened Wrappers
  import opened Numeric
  import opened Perturb

  lemma CleanDrop(c: char, s: string)
    requires !IsNumChar(c)
    ensures Clean([c] + s) == Clean(s)
  {
    assert ([c] + s)[1..] == s;
  }

  lemma CleanKeep(c: char, s: string)
    requires IsNumChar(c)
    ensures Clean([c] + s) == [c] + Clean(s)
  {
    assert ([c] + s)[1..] == s;
  }

  lemma DollarThousandParts()
    ensures "$1,000.00" == ['$'] + (['1'] + ([','] + "000.00"))
    ensures ['1'] + "000.00" == "1000.00"
    ensures AllNumChars("000.00")
  {
  }

  lemma CleanDollarThousand()
    ensures Clean("$1,000.00") == "1000.00"
  {
    DollarThousandParts();
    CleanKeepsNumChars("000.00");
    CleanDrop(',', "000.00");
    CleanKeep('1', [','] + "000.00");
    CleanDrop('$', ['1'] + ([','] + "000.00"));
  }

  lemma HundredThousand()
    ensures AllDigits("100000") && DigitsValue("100000") == 100000
  {
    assert "100000"[..5] == "10000";
    assert "10000"[..4] == "1000";
    assert "1000"[..3] == "100";
    assert "100"[..2] == "10";
    assert "10"[..1] == "1";
    assert "1"[..0] == "";
  }

  lemma ParseThousand()
    ensures ParseDecimal("1000.00") == Some(Decimal(100000, 2))
  {
    ParsePointed("1000", "00");
    assert "1000" + "." + "00" == "1000.00";
    assert "1000" + "00" == "100000";
    HundredThousand();
  }

  lemma EightHundredDigits()
    ensures NatToDigits(800) == "800"
  {
    assert NatToDigits(800) == NatToDigits(80) + [CharOf(0)];
    assert NatToDigits(80) == NatToDigits(8) + [CharOf(0)];
    assert NatToDigits(8) == [CharOf(8)];
    assert CharOf(0) == '0' && CharOf(8) == '8';
  }

  lemma NoCents()
    ensures PadDigits(0, 2) == "00"
  {
    assert PadDigits(0, 2) == PadDigits(0, 1) + [CharOf(0)];
    assert PadDigits(0, 1) == PadDigits(0, 0) + [CharOf(0)];
    assert CharOf(0) == '0';
  }

  lemma RenderEightHundred()
    ensures PriceText(80000) == "$800.00"
  {
    EightHundredDigits();
    NoCents();
    assert Group("800") == "800";
    assert Pow10(2) == 100;
    assert 80000 / 100 == 800 && 80000 % 100 == 0;
    assert PriceText(80000) == "$" + Group(NatToDigits(800)) + "." + PadDigits(0, 2);
  }

  lemma TwentyPercentOff()
    ensures Reduce(Decimal(100000, 2), 20, 2) == 80000
  {
    assert Pow10(2) == 100;
    assert 100000 * (100 - 20) * 100 == 800000000;
    assert 800000000 / 10000 == 80000 && 800000000 % 10000 == 0;
  }

  /** A 20% cut of "$1,000.00" gives "$800.00". */
  lemma PriceExample()
    ensures AlterPrice("$1,000.00", 20) == Ok("$800.00")
  {
    CleanDollarThousand();
    assert "1000.00"[6] == '0';
    assert Prepare("$1,000.00") == Some("1000.00");
    ParseThousand();
    TwentyPercentOff();
    RenderEightHundred();
  }

  lemma PlainNumberPrepared()
    ensures Prepare("150") == Some("150")
    ensures ParseDecimal("150") == Some(Decimal(150, 0))
  {
    CleanKeepsNumChars("150");
    assert "150"[2] == '0';
    assert DotIndex("150") == 3;
    assert "150"[..3] == "150";
    assert "150" + [] == "150";
    assert "150"[..2] == "15";
    assert "15"[..1] == "1";
    assert "1"[..0] == "";
  }

  lemma OneHundredFiveDigits()
    ensures NatToDigits(105) == "105"
  {
    assert NatToDigits(105) == NatToDigits(10) + [CharOf(5)];
    assert NatToDigits(10) == NatToDigits(1) + [CharOf(0)];
    assert NatToDigits(1) == [CharOf(1)];
    assert CharOf(0) == '0' && CharOf(1) == '1' && CharOf(5) == '5';
  }

  lemma ThirtyPercentOff()
    ensures Reduce(Decimal(150, 0), 30, 0) == 105
  {
    assert Pow10(0) == 1;
    assert 150 * (100 - 30) * 1 == 10500;
    assert 10500 / 100 == 105 && 10500 % 100 == 0;
  }

  /** A 30% cut of "150" gives "105": no point in, no point out. */
  lemma NumberExample()
    ensures AlterNumber("150", 30) == "105"
  {
    PlainNumberPrepared();
    ThirtyPercentOff();
    OneHundredFiveDigits();
    assert Pow10(0) == 1;
    assert FormatFixed(105, 0) == NatToDigits(105);
  }
}
