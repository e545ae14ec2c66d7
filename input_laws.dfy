/** What the argument classifier and `Config::parse` promise: numbers are
    read from their digits alone and round-trip through their decimal text,
    options ignore case, and the last "and" option wins. */
module InputLaws {
  import opened Outcomes
  import opened Iterators
  import opened ConversionToWords
  import opened ProcessInput

  /** The character of a decimal digit. */
  function DigitChar(d: nat): (c: char)
    requires d <= 9
    ensures IsAsciiDigit(c) && DigitValue(c) == d
  {
    ('0' as int + d) as char
  }

  /** The decimal text of `n`, without leading zeros: the reference that
      `ParseSingleInput` inverts. */
  function DecimalString(n: nat): (s: string)
    ensures |s| > 0 && forall k :: 0 <= k < |s| ==> IsAsciiDigit(s[k])
  {
    if n < 10 then [DigitChar(n)] else DecimalString(n / 10) + [DigitChar(n % 10)]
  }

  lemma {:induction false} DecimalRoundTrip(n: nat)
    ensures DecimalValue(DecimalString(n)) == n
  {
    var s := DecimalString(n);
    if n < 10 {
      assert s[..0] == [];
    } else {
      DecimalRoundTrip(n / 10);
      assert s[..|s| - 1] == DecimalString(n / 10);
    }
  }

  /** Lower-casing leaves the digits of a string as they are. */
  lemma {:induction false} LowerKeepsDigits(s: string)
    ensures Filter(Lower(s), IsAsciiDigit) == Filter(s, IsAsciiDigit)
  {
    if s != [] {
      LowerKeepsDigits(s[1..]);
      assert Lower(s)[1..] == Lower(s[1..]);
    }
  }

  /** A string of digits is its own lower-case form. */
  lemma LowerOfDigits(s: string)
    requires forall k :: 0 <= k < |s| ==> IsAsciiDigit(s[k])
    ensures Lower(s) == s
  {
  }

  /** Every number's decimal text classifies as that number when it fits in
      64 bits, and as "Too big" otherwise. */
  lemma NumberRoundTrip(n: nat)
    ensures n < U64_LIMIT ==> ParseSingleInput(DecimalString(n)) == Ok(ToConvert(n))
    ensures n >= U64_LIMIT ==>
      ParseSingleInput(DecimalString(n)) == Ok(Error("Too big: " + DecimalString(n)))
  {
    var s := DecimalString(n);
    LowerOfDigits(s);
    FilterKeepsAll(s, IsAsciiDigit);
    DecimalRoundTrip(n);
    assert !IsOption(s) by {
      if |s| > 2 {
        assert s[..2][0] == s[0];
      }
    }
  }

  /** A number is read from the digits of the argument alone: separators
      and any other characters are ignored. */
  lemma ConvertedFromDigits(text: string, n: U64)
    requires ParseSingleInput(text) == Ok(ToConvert(n))
    ensures !IsOption(Lower(text))
    ensures Filter(text, IsAsciiDigit) != [] && n == DecimalValue(Filter(text, IsAsciiDigit))
  {
    LowerKeepsDigits(text);
  }

  /** A non-option argument whose digits fit in 64 bits converts to the
      value of those digits, whatever separators surround them. */
  lemma DigitsConverted(text: string)
    requires !IsOption(Lower(text))
    requires Filter(text, IsAsciiDigit) != []
    requires DecimalValue(Filter(text, IsAsciiDigit)) < U64_LIMIT
    ensures ParseSingleInput(text) == Ok(ToConvert(DecimalValue(Filter(text, IsAsciiDigit))))
  {
    LowerKeepsDigits(text);
  }

  /** An argument that is not an option and has no digit is invalid. */
  lemma NoDigitsInvalid(text: string)
    requires !IsOption(Lower(text))
    requires forall k :: 0 <= k < |text| ==> !IsAsciiDigit(text[k])
    ensures ParseSingleInput(text) == Ok(Error("Invalid input: " + text))
  {
    LowerKeepsDigits(text);
    FilterKeeps(text, IsAsciiDigit, (c: char) => !IsAsciiDigit(c));
  }

  /** An argument whose digits spell a value of 2^64 or more is too big. */
  lemma DigitsTooBig(text: string)
    requires !IsOption(Lower(text))
    requires Filter(text, IsAsciiDigit) != []
    requires DecimalValue(Filter(text, IsAsciiDigit)) >= U64_LIMIT
    ensures ParseSingleInput(text) == Ok(Error("Too big: " + text))
  {
    LowerKeepsDigits(text);
  }

  /** Options are case-insensitive: arguments that lower-case alike and take
      the option branch classify alike. */
  lemma OptionsIgnoreCase(t1: string, t2: string)
    requires Lower(t1) == Lower(t2) && IsOption(Lower(t1))
    ensures ParseSingleInput(t1) == ParseSingleInput(t2)
  {
  }

  /** Each policy's token, after "--and=", selects that policy. */
  lemma AndOptionRoundTrip(b: AndBehavior)
    ensures ParseSingleInput("--and=" + Token(b)) == Ok(AndOption(b))
  {
    var t := "--and=" + Token(b);
    assert Lower(t) == t;
    assert t[..2] == "--";
  }

  /** "--help" in any case asks for help. */
  lemma HelpOption(text: string)
    requires Lower(text) == "--help"
    ensures ParseSingleInput(text) == Ok(Help)
  {
    assert Lower(text)[..2] == "--" && Lower(text)[2..] == "help";
  }

  /** Without its dashes, "help" is not recognised, although the message for
      an empty command line suggests it. */
  lemma BareHelpIsInvalid()
    ensures ParseSingleInput("help") == Ok(Error("Invalid input: help"))
    ensures NoArguments("p") == "No arguments. Try this:\n$ p help"
  {
    assert Lower("help") == "help";
    assert "help"[..2] == "he";
    NoDigitsInvalid("help");
    assert "Invalid input: " + "help" == "Invalid input: help";
  }

  /** With no "and" option the policy is `All`. */
  lemma {:induction false} DefaultPolicy(cs: seq<InputComponent>)
    requires forall k :: 0 <= k < |cs| ==> !cs[k].AndOption?
    ensures FinalPolicy(cs) == All
  {
    if cs != [] {
      DefaultPolicy(cs[..|cs| - 1]);
    }
  }

  /** The last "and" option wins, whatever comes before it. */
  lemma {:induction false} LastOptionWins(cs: seq<InputComponent>, j: nat)
    requires j < |cs| && cs[j].AndOption?
    requires forall k :: j < k < |cs| ==> !cs[k].AndOption?
    ensures FinalPolicy(cs) == cs[j].behavior
  {
    if j < |cs| - 1 {
      LastOptionWins(cs[..|cs| - 1], j);
    }
  }

  lemma AppendAssoc<T>(x: seq<T>, y: seq<T>, z: seq<T>)
    ensures x + (y + z) == (x + y) + z
  {
  }

  /** Outputs of a concatenation are the concatenated outputs. */
  lemma {:induction false} OutputsAppend(a: seq<InputComponent>, b: seq<InputComponent>, p: AndBehavior)
    ensures Outputs(a + b, p) == Outputs(a, p) + Outputs(b, p)
  {
    if a == [] {
      assert a + b == b;
    } else {
      var rest := a[1..];
      OutputsAppend(rest, b, p);
      assert (a + b)[0] == a[0] && (a + b)[1..] == rest + b;
      AppendAssoc(Emit(a[0], p), Outputs(rest, p), Outputs(b, p));
    }
  }

  /** Every number and every error of the arguments reaches the output, and
      only they do, each number with the final policy. */
  lemma {:induction false} OutputsFaithful(cs: seq<InputComponent>, p: AndBehavior)
    ensures forall k :: 0 <= k < |Outputs(cs, p)| ==> Outputs(cs, p)[k].Convert? ==>
      Outputs(cs, p)[k].behavior == p && ToConvert(Outputs(cs, p)[k].value) in cs
    ensures forall k :: 0 <= k < |Outputs(cs, p)| ==> Outputs(cs, p)[k].Failure? ==>
      Error(Outputs(cs, p)[k].message) in cs
    ensures forall k :: 0 <= k < |cs| ==> cs[k].ToConvert? ==> Convert(cs[k].n, p) in Outputs(cs, p)
    ensures forall k :: 0 <= k < |cs| ==> cs[k].Error? ==> Failure(cs[k].message) in Outputs(cs, p)
  {
    if cs != [] {
      OutputsFaithful(cs[1..], p);
      var head := Emit(cs[0], p);
      var tail := Outputs(cs[1..], p);
      forall k | 0 <= k < |cs| && (cs[k].ToConvert? || cs[k].Error?)
        ensures cs[k].ToConvert? ==> Convert(cs[k].n, p) in Outputs(cs, p)
        ensures cs[k].Error? ==> Failure(cs[k].message) in Outputs(cs, p)
      {
        if k > 0 {
          assert cs[k] == cs[1..][k - 1];
        }
      }
      forall k | 0 <= k < |Outputs(cs, p)|
        ensures Outputs(cs, p)[k].Convert? ==>
          Outputs(cs, p)[k].behavior == p && ToConvert(Outputs(cs, p)[k].value) in cs
        ensures Outputs(cs, p)[k].Failure? ==> Error(Outputs(cs, p)[k].message) in cs
      {
        if k >= |head| {
          assert Outputs(cs, p)[k] == tail[k - |head|];
          assert forall c :: c in cs[1..] ==> c in cs;
        }
      }
    }
  }
}
