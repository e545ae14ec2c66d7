/** The documented examples of `to_word`, each derived from the general
    theorems: the groups of the number, the spelling of each group, and the
    join. */
module DocExamples {
  import opened Outcomes
  import opened Text
  import opened ConversionToWords
  import opened Spelling
  import opened Grouping
  import opened ConversionLaws

  /** Digits at or above `n` of a value below 1000^n contribute nothing. */
  lemma {:induction false} HighDigitsZero(x: nat, m: nat, n: nat, p: PieceFn)
    requires n <= m && x < Pow(1000, n)
    ensures LowPieces(x, m, p) == LowPieces(x, n, p)
  {
    if m > n {
      HighDigitsZero(x, m - 1, n, p);
      PowMonotone(1000, n, m - 1);
      DivModUnique(x, Pow(1000, m - 1), 0, x);
      assert PieceAt(x, m - 1, p) == [];
    }
  }

  lemma ThirtyOne()
    ensures Below100(31) == "thirty-one"
  {
    assert 31 / 10 == 3 && 31 % 10 == 1;
  }

  lemma SevenThirtyOne(sep: string)
    ensures Below1000(731, sep) == "seven-hundred" + sep + "thirty-one"
  {
    assert 731 / 100 == 7 && 731 % 100 == 31;
    ThirtyOne();
  }

  /** `to_word(731, AndBehavior::All)`. */
  lemma Example731All()
    ensures ToWord(731, All) == Ok("seven-hundred" + " and " + "thirty-one")
  {
    SingleGroup(731, All);
    SevenThirtyOne(AND_STR);
  }

  /** `to_word(731, AndBehavior::None)`. */
  lemma Example731None()
    ensures ToWord(731, None) == Ok("seven-hundred" + " " + "thirty-one")
  {
    SingleGroup(731, None);
    SevenThirtyOne(" ");
  }

  lemma FiftyNine()
    ensures Below100(59) == "fifty-nine"
  {
    assert 59 / 10 == 5 && 59 % 10 == 9;
  }

  lemma EightFiftyNine(sep: string)
    ensures Below1000(859, sep) == "eight-hundred" + sep + "fifty-nine"
  {
    assert 859 / 100 == 8 && 859 % 100 == 59;
    FiftyNine();
  }

  /** The groups of 2859: two thousands and 859 units. */
  lemma Groups2859(p: PieceFn)
    ensures LowPieces(2859, 7, p) == [p(2, 1), p(859, 0)]
  {
    assert Pow(1000, 2) == 1_000_000;
    HighDigitsZero(2859, 7, 2, p);
    assert Digit(2859, 1) == 2;
    assert Digit(2859, 0) == 859;
  }

  lemma Pieces2859()
    ensures GroupPiece(None, 2859)(2, 1) == "two" + " thousand"
    ensures GroupPiece(None, 2859)(859, 0) == "eight-hundred" + " " + "fifty-nine"
  {
    assert InsertAnd(None, 1, 2859) == " " && InsertAnd(None, 0, 2859) == " ";
    assert Below1000(2, " ") == "two";
    assert POWERS_THOUSAND[1] == " thousand" && POWERS_THOUSAND[0] == "";
    EightFiftyNine(" ");
  }

  /** `to_word(2_859, AndBehavior::None)`. */
  lemma Example2859None()
    ensures ToWord(2859, None) ==
      Ok("two" + " thousand" + ", " + ("eight-hundred" + " " + "fifty-nine"))
  {
    var p := GroupPiece(None, 2859);
    ToWordPieces(2859, None);
    Groups2859(p);
    Pieces2859();
    assert Join([p(2, 1), p(859, 0)], ", ") == p(2, 1) + ", " + p(859, 0);
  }

  lemma ThreeFifty(sep: string)
    ensures Below1000(350, sep) == "three-hundred" + sep + "fifty"
  {
    assert 350 / 100 == 3 && 350 % 100 == 50;
    assert Below100(50) == "fifty";
  }

  lemma FourThirty(sep: string)
    ensures Below1000(430, sep) == "four-hundred" + sep + "thirty"
  {
    assert 430 / 100 == 4 && 430 % 100 == 30;
    assert Below100(30) == "thirty";
  }

  /** The groups of 350_000_430: 350 millions, no thousands, 430 units. */
  lemma Groups350000430(p: PieceFn)
    ensures LowPieces(350_000_430, 7, p) == [p(350, 2), p(430, 0)]
  {
    assert Pow(1000, 3) == 1_000_000_000;
    HighDigitsZero(350_000_430, 7, 3, p);
    assert Digit(350_000_430, 2) == 350;
    assert Digit(350_000_430, 1) == 0;
    assert Digit(350_000_430, 0) == 430;
  }

  lemma Pieces350000430()
    ensures GroupPiece(LastGroup, 350_000_430)(350, 2) == "three-hundred" + " " + "fifty" + " million"
    ensures GroupPiece(LastGroup, 350_000_430)(430, 0) == "four-hundred" + " and " + "thirty"
  {
    assert InsertAnd(LastGroup, 2, 350_000_430) == " ";
    assert InsertAnd(LastGroup, 0, 350_000_430) == AND_STR;
    assert POWERS_THOUSAND[2] == " million" && POWERS_THOUSAND[0] == "";
    ThreeFifty(" ");
    FourThirty(AND_STR);
  }

  /** `to_word(350_000_430, AndBehavior::LastGroup)`: "and" only in the
      units group. */
  lemma Example350000430LastGroup()
    ensures ToWord(350_000_430, LastGroup) ==
      Ok("three-hundred" + " " + "fifty" + " million" + ", " + ("four-hundred" + " and " + "thirty"))
  {
    var x := 350_000_430;
    var p := GroupPiece(LastGroup, x);
    ToWordPieces(x, LastGroup);
    Groups350000430(p);
    Pieces350000430();
    assert Join([p(350, 2), p(430, 0)], ", ") == p(350, 2) + ", " + p(430, 0);
  }
}
