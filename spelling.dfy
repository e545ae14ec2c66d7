/** A reference spelling of numerals, written from the English number names
    directly (one table entry per name, no composition of "teen" or "ty"),
    and the lemmas that tie the converter to it. */
module Spelling {
  import opened Outcomes
  import opened Text
  import opened ConversionToWords

  const ONES: seq<string> :=
    ["zero", "one", "two", "three", "four", "five", "six", "seven", "eight", "nine"]
  const TEENS: seq<string> :=
    ["ten", "eleven", "twelve", "thirteen", "fourteen",
     "fifteen", "sixteen", "seventeen", "eighteen", "nineteen"]
  /** Indexed by the tens digit; entries 0 and 1 are never used. */
  const TENS: seq<string> :=
    ["", "", "twenty", "thirty", "forty", "fifty", "sixty", "seventy", "eighty", "ninety"]

  function Below100(x: nat): string
    requires x < 100
  {
    if x < 10 then ONES[x]
    else if x < 20 then TEENS[x - 10]
    else if x % 10 == 0 then TENS[x / 10]
    else TENS[x / 10] + "-" + ONES[x % 10]
  }

  /** A value under one thousand, `sep` standing between the hundreds and a
      non-zero rest. */
  function Below1000(x: nat, sep: string): string
    requires x < 1000
  {
    if x < 100 then Below100(x)
    else if x % 100 == 0 then ONES[x / 100] + "-hundred"
    else ONES[x / 100] + "-hundred" + sep + Below100(x % 100)
  }

  lemma SingleDigitSpelled(x: nat)
    requires x < 10
    ensures SingleDigit(x) == Ok(ONES[x])
  {
    if x == 0 {} else if x == 1 {} else if x == 2 {} else if x == 3 {} else if x == 4 {}
    else if x == 5 {} else if x == 6 {} else if x == 7 {} else if x == 8 {} else {}
  }

  lemma TeenSpelled(x: nat)
    requires 10 <= x < 20
    ensures Under100(x) == Ok(TEENS[x - 10])
  {
    SingleDigitSpelled(x % 10);
    if x == 14 { assert "four" + "teen" == "fourteen"; }
    else if x == 16 { assert "six" + "teen" == "sixteen"; }
    else if x == 17 { assert "seven" + "teen" == "seventeen"; }
    else if x == 19 { assert "nine" + "teen" == "nineteen"; }
  }

  lemma TySpelled(x: nat)
    requires 20 <= x < 100 && x % 10 == 0
    ensures Under100(x) == Ok(TENS[x / 10])
  {
    SingleDigitSpelled(x / 10);
    if x == 60 { assert "six" + "ty" == "sixty"; }
    else if x == 70 { assert "seven" + "ty" == "seventy"; }
    else if x == 90 { assert "nine" + "ty" == "ninety"; }
  }

  lemma CompoundSpelled(x: nat)
    requires 20 <= x < 100 && x % 10 != 0
    ensures Under100(x) == Ok(TENS[x / 10] + "-" + ONES[x % 10])
  {
    var t := x - x % 10;
    assert t / 10 == x / 10 && t % 10 == 0;
    TySpelled(t);
    SingleDigitSpelled(x % 10);
  }

  /** Composing "<digit>teen", "<digit>ty" and "<tens>-<units>" gives the
      English names of all values under one hundred. */
  lemma Under100Spelled(x: nat)
    requires x < 100
    ensures Under100(x) == Ok(Below100(x))
  {
    if x < 10 {
      SingleDigitSpelled(x);
    } else if x < 20 {
      TeenSpelled(x);
    } else if x % 10 == 0 {
      TySpelled(x);
    } else {
      CompoundSpelled(x);
    }
  }

  lemma HundredSpelled(x: nat, group: nat, b: AndBehavior, full: nat)
    requires 100 <= x < 1000 && x % 100 == 0
    ensures Under1000(x, group, b, full) == Ok(ONES[x / 100] + "-hundred")
  {
    SingleDigitSpelled(x / 100);
  }

  lemma HundredAndRestSpelled(x: nat, group: nat, b: AndBehavior, full: nat)
    requires 100 <= x < 1000 && x % 100 != 0
    ensures Under1000(x, group, b, full) ==
      Ok(ONES[x / 100] + "-hundred" + InsertAnd(b, group, full) + Below100(x % 100))
  {
    var h := x - x % 100;
    assert h / 100 == x / 100 && h % 100 == 0;
    HundredSpelled(h, group, b, full);
    Under100Spelled(x % 100);
  }

  /** `under_1000` spells every value under one thousand as the reference
      does, with the policy's separator after the hundreds. */
  lemma Under1000Spelled(x: nat, group: nat, b: AndBehavior, full: nat)
    requires x < 1000
    ensures Under1000(x, group, b, full) == Ok(Below1000(x, InsertAnd(b, group, full)))
  {
    if x < 100 {
      Under100Spelled(x);
    } else if x % 100 == 0 {
      HundredSpelled(x, group, b, full);
    } else {
      HundredAndRestSpelled(x, group, b, full);
    }
  }
}
