/** Laws of the converter that the documentation and the tests promise:
    how `under_100` and `under_1000` compose, which "and" policies agree,
    what `to_word` yields for a single group, and the defect of `under_100`
    as written. */
module ConversionLaws {
  import opened Outcomes
  import opened Text
  import opened ConversionToWords
  import opened Spelling
  import opened Grouping

  /** A compound value under one hundred is its tens, a hyphen and its
      units. */
  lemma Under100Compound(t: nat, u: nat)
    requires 2 <= t <= 9 && 1 <= u <= 9
    ensures Under100(10 * t + u) == Ok(Under100(10 * t).value + "-" + Under100(u).value)
  {
    var x := 10 * t + u;
    assert x / 10 == t && x % 10 == u;
    assert Below100(x) == TENS[t] + "-" + ONES[u];
    Under100Spelled(x);
    Under100Spelled(10 * t);
    Under100Spelled(u);
  }

  /** A "teen" is the units digit's name followed by "teen", except for the
      irregular ten to thirteen, fifteen and eighteen. */
  lemma Under100Teen(u: nat)
    requires u == 4 || u == 6 || u == 7 || u == 9
    ensures Under100(10 + u) == Ok(SingleDigit(u).value + "teen")
  {
  }

  /** A multiple of ten in sixty, seventy or ninety is the tens digit's name
      followed by "ty". */
  lemma Under100Ty(t: nat)
    requires t == 6 || t == 7 || t == 9
    ensures Under100(10 * t) == Ok(SingleDigit(t).value + "ty")
  {
  }

  /** A value under one thousand with non-zero hundreds is "<h>-hundred",
      then the policy's separator and the rest when the rest is non-zero. */
  lemma Under1000Hundreds(h: nat, r: nat, group: nat, b: AndBehavior, full: nat)
    requires 1 <= h <= 9 && r <= 99
    ensures r == 0 ==> Under1000(100 * h + r, group, b, full) == Ok(SingleDigit(h).value + "-hundred")
    ensures r > 0 ==>
      Under1000(100 * h + r, group, b, full) == Ok(SingleDigit(h).value + "-hundred" + InsertAnd(b, group, full) + Under100(r).value)
  {
    var x := 100 * h + r;
    assert x / 100 == h && x % 100 == r;
    SingleDigitSpelled(h);
    if r == 0 {
      HundredSpelled(x, group, b, full);
    } else {
      HundredAndRestSpelled(x, group, b, full);
      Under100Spelled(r);
    }
  }

  /** Under `None` and `All` a group's spelling ignores its position and the
      whole number. */
  lemma Under1000PositionFree(x: nat, b: AndBehavior, g1: nat, f1: nat, g2: nat, f2: nat)
    requires b == None || b == All
    ensures Under1000(x, g1, b, f1) == Under1000(x, g2, b, f2)
  {
    if x < 1000 {
      Under1000Spelled(x, g1, b, f1);
      Under1000Spelled(x, g2, b, f2);
    }
  }

  /** A value under one thousand has no non-zero digit but digit 0. */
  lemma {:induction false} LowDigitsOnly(x: nat, n: nat, p: PieceFn)
    requires 0 < x <= 999 && n >= 1
    ensures LowPieces(x, n, p) == [p(x, 0)]
  {
    if n > 1 {
      LowDigitsOnly(x, n - 1, p);
      PowMonotone(1000, 1, n - 1);
      DivModUnique(x, Pow(1000, n - 1), 0, x);
      assert PieceAt(x, n - 1, p) == [];
    } else {
      assert Digit(x, 0) == x;
      assert LowPieces(x, 0, p) == [];
    }
  }

  /** A positive value under one thousand is a single group, spelled with
      the separator its policy gives group 0. */
  lemma SingleGroup(x: U64, b: AndBehavior)
    requires 0 < x <= 999
    ensures ToWord(x, b) == Ok(Below1000(x, InsertAnd(b, 0, x)))
  {
    var p := GroupPiece(b, x);
    ToWordPieces(x, b);
    LowDigitsOnly(x, 7, p);
    var text := Below1000(x, InsertAnd(b, 0, x));
    assert p(x, 0) == text + POWERS_THOUSAND[0];
    assert POWERS_THOUSAND[0] == "";
    assert Join([p(x, 0)], ", ") == text;
  }

  /** Below one thousand, `LastGroup`, `OnlyUnderThousand` and `All` give the
      same text, with " and " after the hundreds; `None` puts a space
      there. */
  lemma PolicyAgreementUnder1000(x: U64, b: AndBehavior)
    requires x <= 999
    ensures b != None ==> ToWord(x, b) == ToWord(x, All)
    ensures x > 0 && b != None ==> ToWord(x, b) == Ok(Below1000(x, AND_STR))
    ensures x > 0 ==> ToWord(x, None) == Ok(Below1000(x, " "))
  {
    if x > 0 {
      SingleGroup(x, b);
      SingleGroup(x, All);
      SingleGroup(x, None);
    }
  }

  /** Below one hundred, no policy matters: the text is the English name. */
  lemma PolicyFreeUnder100(x: U64, b: AndBehavior)
    requires x <= 99
    ensures ToWord(x, b) == Ok(Below100(x))
  {
    if x == 0 {
      assert Below100(0) == "zero";
    } else {
      SingleGroup(x, b);
    }
  }

  /** `under_100` as written panics at 100. */
  lemma Under100AsWrittenPanicsAt100()
    ensures Under100AsWritten(100) == Panic("under 10")
  {
  }

  /** Over 99, `under_100` as written panics exactly on the multiples of ten
      and returns the intended error otherwise. */
  lemma Under100AsWrittenOver99(x: nat)
    requires x > 99
    ensures Under100AsWritten(x).Panic? <==> x % 10 == 0
    ensures x % 10 != 0 ==> Under100AsWritten(x) == Under100(x)
  {
  }

  /** `under_1000` built on `under_100` as written equals `under_1000` built
      on the corrected version, on every input: the defect never shows. */
  lemma Under1000AsWrittenAgrees(x: nat, group: nat, b: AndBehavior, full: nat)
    ensures Under1000AsWritten(x, group, b, full) == Under1000(x, group, b, full)
  {
    if x <= 99 {
      Under100AsWrittenAgrees(x);
    } else if x < 1000 && x % 100 != 0 {
      var h, r := x - x % 100, x % 100;
      assert 100 <= h <= 900 && h % 100 == 0;
      assert Under1000AsWritten(h, group, b, full) == Under1000(h, group, b, full);
      Under100AsWrittenAgrees(r);
      assert Under100AsWritten(r) == Under100(r);
    }
  }

  /** On every value under one hundred the two versions of `under_100`
      agree, so the correction changes no output of `to_word`. */
  lemma {:induction false} Under100AsWrittenAgrees(x: nat)
    requires x <= 99
    ensures Under100AsWritten(x) == Under100(x)
  {
    if 21 <= x && x % 10 != 0 {
      Under100AsWrittenAgrees(x - x % 10);
    }
  }
}
