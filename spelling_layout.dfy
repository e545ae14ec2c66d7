/** The shape of the reference pieces: every group spelling, with or
    without its magnitude suffix, is tidy and free of commas. */
module SpellingLayout {
  import opened Text
  import opened ConversionToWords
  import opened Spelling

  /** What every rendered group, suffix included, looks like: tidy, free of
      commas, and not starting with the 'z' of "zero". */
  predicate GoodPiece(p: string) {
    Tidy(p) && Lacks(p, ',') && p[0] != 'z'
  }

  lemma OnesGood(k: nat)
    requires k < 10
    ensures Tidy(ONES[k]) && Lacks(ONES[k], ',')
    ensures k > 0 ==> GoodPiece(ONES[k])
  {
    if k == 0 {
      assert ONES[k] == "zero";
      assert Tidy("zero") && Lacks("zero", ',');
    } else {
      OnesGoodPositive(k);
    }
  }

  lemma OnesGoodPositive(k: nat)
    requires 1 <= k < 10
    ensures GoodPiece(ONES[k])
  {
    if k == 1 {
      assert ONES[k] == "one";
      assert GoodPiece("one");
    } else if k == 2 {
      assert ONES[k] == "two";
      assert GoodPiece("two");
    } else if k == 3 {
      assert ONES[k] == "three";
      assert GoodPiece("three");
    } else if k == 4 {
      assert ONES[k] == "four";
      assert GoodPiece("four");
    } else if k == 5 {
      assert ONES[k] == "five";
      assert GoodPiece("five");
    } else if k == 6 {
      assert ONES[k] == "six";
      assert GoodPiece("six");
    } else if k == 7 {
      assert ONES[k] == "seven";
      assert GoodPiece("seven");
    } else if k == 8 {
      assert ONES[k] == "eight";
      assert GoodPiece("eight");
    } else {
      assert ONES[k] == "nine";
      assert GoodPiece("nine");
    }
  }

  lemma TeensGood(k: nat)
    requires k < 10
    ensures GoodPiece(TEENS[k])
  {
    if k == 0 {
      assert TEENS[k] == "ten";
      assert GoodPiece("ten");
    } else if k == 1 {
      assert TEENS[k] == "eleven";
      assert GoodPiece("eleven");
    } else if k == 2 {
      assert TEENS[k] == "twelve";
      assert GoodPiece("twelve");
    } else if k == 3 {
      assert TEENS[k] == "thirteen";
      assert GoodPiece("thirteen");
    } else if k == 4 {
      assert TEENS[k] == "fourteen";
      assert GoodPiece("fourteen");
    } else if k == 5 {
      assert TEENS[k] == "fifteen";
      assert GoodPiece("fifteen");
    } else if k == 6 {
      assert TEENS[k] == "sixteen";
      assert GoodPiece("sixteen");
    } else if k == 7 {
      assert TEENS[k] == "seventeen";
      assert GoodPiece("seventeen");
    } else if k == 8 {
      assert TEENS[k] == "eighteen";
      assert GoodPiece("eighteen");
    } else {
      assert TEENS[k] == "nineteen";
      assert GoodPiece("nineteen");
    }
  }

  lemma TensGood(k: nat)
    requires 2 <= k < 10
    ensures GoodPiece(TENS[k])
  {
    if k == 2 {
      assert TENS[k] == "twenty";
      assert GoodPiece("twenty");
    } else if k == 3 {
      assert TENS[k] == "thirty";
      assert GoodPiece("thirty");
    } else if k == 4 {
      assert TENS[k] == "forty";
      assert GoodPiece("forty");
    } else if k == 5 {
      assert TENS[k] == "fifty";
      assert GoodPiece("fifty");
    } else if k == 6 {
      assert TENS[k] == "sixty";
      assert GoodPiece("sixty");
    } else if k == 7 {
      assert TENS[k] == "seventy";
      assert GoodPiece("seventy");
    } else if k == 8 {
      assert TENS[k] == "eighty";
      assert GoodPiece("eighty");
    } else {
      assert TENS[k] == "ninety";
      assert GoodPiece("ninety");
    }
  }

  /** The scale words that follow a space in `POWERS_THOUSAND[1..]`. */
  const SCALES: seq<string> := ["thousand", "million", "billion", "trillion", "quadrillion", "quintillion"]

  lemma SuffixSplit(k: nat)
    requires 1 <= k < 7
    ensures POWERS_THOUSAND[k] == " " + SCALES[k - 1]
  {
    if k == 1 {
      assert POWERS_THOUSAND[k] == " " + "thousand";
    } else if k == 2 {
      assert POWERS_THOUSAND[k] == " " + "million";
    } else if k == 3 {
      assert POWERS_THOUSAND[k] == " " + "billion";
    } else if k == 4 {
      assert POWERS_THOUSAND[k] == " " + "trillion";
    } else if k == 5 {
      assert POWERS_THOUSAND[k] == " " + "quadrillion";
    } else {
      assert POWERS_THOUSAND[k] == " " + "quintillion";
    }
  }

  lemma ScaleGood(k: nat)
    requires k < 6
    ensures GoodPiece(SCALES[k])
  {
    if k == 0 {
      assert GoodPiece("thousand");
    } else if k == 1 {
      assert GoodPiece("million");
    } else if k == 2 {
      assert GoodPiece("billion");
    } else if k == 3 {
      assert GoodPiece("trillion");
    } else if k == 4 {
      assert GoodPiece("quadrillion");
    } else {
      assert GoodPiece("quintillion");
    }
  }

  lemma Below100Good(x: nat)
    requires x < 100
    ensures Tidy(Below100(x)) && Lacks(Below100(x), ',')
    ensures x > 0 ==> GoodPiece(Below100(x))
  {
    if x < 10 {
      OnesGood(x);
    } else if x < 20 {
      TeensGood(x - 10);
    } else if x % 10 == 0 {
      TensGood(x / 10);
    } else {
      CompoundGood(x / 10, x % 10);
    }
  }

  lemma CompoundGood(t: nat, u: nat)
    requires 2 <= t < 10 && 1 <= u < 10
    ensures GoodPiece(TENS[t] + "-" + ONES[u])
  {
    TensGood(t);
    OnesGood(u);
    Glue(TENS[t], "-", ONES[u], ',');
    assert (TENS[t] + "-" + ONES[u])[0] == TENS[t][0];
  }

  /** Every non-zero value under one thousand, with either separator, is a
      good piece. */
  lemma Below1000Good(x: nat, sep: string)
    requires 1 <= x < 1000
    requires sep == " " || sep == AND_STR
    ensures GoodPiece(Below1000(x, sep))
  {
    if x < 100 {
      Below100Good(x);
    } else {
      var h, r := x / 100, x % 100;
      HundredGood(h);
      if r != 0 {
        HundredAndRestGood(h, r, sep);
      }
    }
  }

  /** Hundreds followed by a separator and a good rest make a good piece. */
  lemma HundredAndRestGood(h: nat, r: nat, sep: string)
    requires 1 <= h <= 9 && 1 <= r < 100
    requires sep == " " || sep == AND_STR
    ensures GoodPiece(ONES[h] + "-hundred" + sep + Below100(r))
  {
    HundredGood(h);
    Below100Good(r);
    Glue(ONES[h] + "-hundred", sep, Below100(r), ',');
  }

  /** A count of hundreds is a good piece. */
  lemma HundredGood(h: nat)
    requires 1 <= h <= 9
    ensures GoodPiece(ONES[h] + "-hundred")
  {
    OnesGood(h);
    assert GoodPiece("hundred");
    Glue(ONES[h], "-", "hundred", ',');
    assert ONES[h] + "-hundred" == ONES[h] + "-" + "hundred";
  }

  /** Two good pieces joined by a space make a good piece. */
  lemma SpacedGood(p: string, name: string)
    requires GoodPiece(p) && GoodPiece(name)
    ensures GoodPiece(p + " " + name)
  {
    Glue(p, " ", name, ',');
  }

  /** Appending a magnitude suffix keeps a piece good. */
  lemma SuffixedGood(p: string, k: nat)
    requires GoodPiece(p) && k < 7
    ensures GoodPiece(p + POWERS_THOUSAND[k])
  {
    if k == 0 {
      assert p + POWERS_THOUSAND[k] == p;
    } else {
      SuffixSplit(k);
      ScaleGood(k - 1);
      SpacedGood(p, SCALES[k - 1]);
      assert p + POWERS_THOUSAND[k] == p + " " + SCALES[k - 1];
    }
  }
}
