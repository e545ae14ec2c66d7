/** The command-line front end: each argument is classified as a number
    to convert, an error, a request for help or an "and" option, and the
    last "and" option applies to every number. */
module ProcessInput {
  import opened Outcomes
  import opened Iterators
  import opened ConversionToWords

  /** One command-line argument, classified. */
  datatype InputComponent =
    | ToConvert(n: U64)
    | Error(message: string)
    | Help
    | AndOption(behavior: AndBehavior)

  /** One line of the eventual output: a number with the policy it is to be
      spelled with, or an error message. */
  datatype OutputComponent =
    | Convert(value: U64, behavior: AndBehavior)
    | Failure(message: string)

  /** The parsed command line. `outputComponents` is `Err` with a usage hint
      when no argument follows the program name. */
  datatype Config = Config(outputComponents: Outcome<seq<OutputComponent>>, help: bool, progName: string)

  /** ASCII lower-casing of one character. */
  function LowerChar(c: char): (d: char)
    ensures 'A' <= c <= 'Z' ==> 'a' <= d <= 'z' && d as int - c as int == 32
    ensures !('A' <= c <= 'Z') ==> d == c
  {
    if 'A' <= c <= 'Z' then (c as int + 32) as char else c
  }

  /** `to_lowercase`, on ASCII. */
  function Lower(s: string): (r: string)
    ensures |r| == |s| && forall k :: 0 <= k < |s| ==> r[k] == LowerChar(s[k])
  {
    seq(|s|, k requires 0 <= k < |s| => LowerChar(s[k]))
  }

  predicate IsAsciiDigit(c: char) {
    '0' <= c <= '9'
  }

  /** The value of a digit character. */
  function DigitValue(c: char): (v: nat)
    requires IsAsciiDigit(c)
    ensures v <= 9
  {
    c as int - '0' as int
  }

  /** The value of a string of decimal digits, most significant first. */
  function DecimalValue(ds: string): nat
    requires forall k :: 0 <= k < |ds| ==> IsAsciiDigit(ds[k])
  {
    if ds == [] then 0
    else DecimalValue(ds[..|ds| - 1]) * 10 + DigitValue(ds[|ds| - 1])
  }

  /** `str::parse::<u64>` on a non-empty string of digits: it fails only
      when the value does not fit in 64 bits. */
  function ParseU64(ds: string): (r: Outcome<U64>)
    requires |ds| > 0 && forall k :: 0 <= k < |ds| ==> IsAsciiDigit(ds[k])
    ensures r.Ok? <==> DecimalValue(ds) < U64_LIMIT
    ensures r.Ok? ==> r.value == DecimalValue(ds)
  {
    var v := DecimalValue(ds);
    if v < U64_LIMIT then Ok(v) else Err("number too large to fit in target type")
  }

  /** The text of an "and" policy on the command line. */
  function Token(b: AndBehavior): (t: string)
    ensures |t| >= 3 && Lower(t) == t
  {
    match b
    case None => "none"
    case LastGroup => "last"
    case OnlyUnderThousand => "below1k"
    case All => "all"
  }

  /** Whether the lower-cased argument takes the option branch. */
  predicate IsOption(cleaned: string)
    ensures IsOption(cleaned) <==> |cleaned| >= 3 && cleaned[0] == '-' && cleaned[1] == '-'
  {
    |cleaned| > 2 && cleaned[..2] == "--"
  }

  /** The option branch of `parse_single_input`, on the lower-cased
      argument. Slicing `cleaned[2..6]` panics when it is shorter than six
      characters and not "--help". */
  function ParseOption(cleaned: string): (r: Outcome<InputComponent>)
    requires IsOption(cleaned)
    ensures !r.Err? && (r.Ok? ==> !r.value.ToConvert?)
    ensures r.Panic? <==> cleaned[2..] != "help" && |cleaned| < 6
    ensures r == Ok(Help) <==> cleaned == "--help"
    ensures forall b :: r == Ok(AndOption(b)) <==> cleaned == "--and=" + Token(b)
    ensures r.Ok? && r.value.Error? <==>
      |cleaned| >= 6 && cleaned != "--help" && forall b :: cleaned != "--and=" + Token(b)
  {
    assert cleaned == cleaned[..2] + cleaned[2..];
    if cleaned[2..] == "help" then Ok(Help)
    else if |cleaned| < 6 then Panic("byte index 6 is out of range")
    else
      assert cleaned == cleaned[..2] + cleaned[2..6] + cleaned[6..];
      if cleaned[2..6] == "and=" then
        var k := cleaned[6..];
        if k == "none" then Ok(AndOption(None))
        else if k == "last" then Ok(AndOption(LastGroup))
        else if k == "below1k" then Ok(AndOption(OnlyUnderThousand))
        else if k == "all" then Ok(AndOption(All))
        else Ok(Error("Invalid \"and\" option: " + k))
      else Ok(Error("Invalid option " + cleaned))
  }

  /** The number branch of `parse_single_input`: the ASCII digits of the
      argument, parsed as a `u64`; the messages quote the original text. */
  function ParseNumber(text: string, cleaned: string): (r: InputComponent)
    ensures r.ToConvert? || r.Error?
    ensures Filter(cleaned, IsAsciiDigit) == [] ==> r == Error("Invalid input: " + text)
    ensures Filter(cleaned, IsAsciiDigit) != [] ==>
      var v := DecimalValue(Filter(cleaned, IsAsciiDigit));
      r == if v < U64_LIMIT then ToConvert(v) else Error("Too big: " + text)
  {
    var nText := Filter(cleaned, IsAsciiDigit);
    if nText == [] then Error("Invalid input: " + text)
    else
      match ParseU64(nText)
      case Ok(x) => ToConvert(x)
      case _ => Error("Too big: " + text)
  }

  /** `InputComponent::parse_single_input`: only a short malformed option
      makes it fail. */
  function ParseSingleInput(text: string): (r: Outcome<InputComponent>)
    ensures !r.Err?
    ensures r.Panic? <==>
      IsOption(Lower(text)) && Lower(text)[2..] != "help" && |text| < 6
  {
    var cleaned := Lower(text);
    if IsOption(cleaned) then ParseOption(cleaned) else Ok(ParseNumber(text, cleaned))
  }

  /** The policy in force after the components `cs`: that of the last "and"
      option, or `All` if there is none. */
  function FinalPolicy(cs: seq<InputComponent>): AndBehavior {
    if cs == [] then All
    else match cs[|cs| - 1]
      case AndOption(b) => b
      case _ => FinalPolicy(cs[..|cs| - 1])
  }

  /** Extending a prefix by one component: an "and" option replaces the
      policy, anything else keeps it. */
  lemma FinalPolicyStep(cs: seq<InputComponent>, i: nat)
    requires i < |cs|
    ensures FinalPolicy(cs[..i + 1]) ==
      if cs[i].AndOption? then cs[i].behavior else FinalPolicy(cs[..i])
  {
    assert cs[..i + 1][..i] == cs[..i];
  }

  /** The output of one component under policy `p`: the closure that maps
      it to an `Option<OutputComponent>`, as a sequence of length at most 1. */
  function Emit(c: InputComponent, p: AndBehavior): (r: seq<OutputComponent>)
    ensures |r| <= 1
    ensures |r| == 1 <==> c.ToConvert? || c.Error?
    ensures forall k :: 0 <= k < |r| ==>
      (r[k].Convert? ==> c == ToConvert(r[k].value) && r[k].behavior == p) &&
      (r[k].Failure? ==> c == Error(r[k].message))
  {
    match c
    case ToConvert(n) => [Convert(n, p)]
    case Error(m) => [Failure(m)]
    case _ => []
  }

  /** The numbers and errors of `cs`, in order, each number with policy `p`. */
  function Outputs(cs: seq<InputComponent>, p: AndBehavior): (r: seq<OutputComponent>)
    ensures |r| <= |cs|
    ensures forall k :: 0 <= k < |r| ==> r[k].Convert? ==> r[k].behavior == p
  {
    if cs == [] then [] else Emit(cs[0], p) + Outputs(cs[1..], p)
  }

  /** The message for a command line with nothing after the program name:
      a fixed opening, the program's name and the word "help". */
  function NoArguments(progName: string): (m: string)
    ensures |m| == |HINT_OPENING| + |progName| + 5
    ensures m[..|HINT_OPENING|] == HINT_OPENING
    ensures m[|HINT_OPENING|..|m| - 5] == progName
    ensures m[|m| - 5..] == " help"
  {
    HINT_OPENING + progName + " help"
  }

  const HINT_OPENING: string := "No arguments. Try this:\n$ "

  /** The loop of `Config::parse` over the classified arguments: help is
      requested if any argument asks for it, and the policy is the final one. */
  method Classify(cs: seq<InputComponent>) returns (help: bool, andBehavior: AndBehavior)
    ensures help <==> exists k :: 0 <= k < |cs| && cs[k].Help?
    ensures andBehavior == FinalPolicy(cs)
  {
    help := false;
    andBehavior := All;
    var i := 0;
    while i < |cs|
      invariant 0 <= i <= |cs|
      invariant help <==> exists k :: 0 <= k < i && cs[k].Help?
      invariant andBehavior == FinalPolicy(cs[..i])
    {
      FinalPolicyStep(cs, i);
      ghost var seen := exists k :: 0 <= k < i && cs[k].Help?;
      assert (exists k :: 0 <= k < i + 1 && cs[k].Help?) <==> seen || cs[i].Help?;
      match cs[i] {
        case Help => help := true;
        case AndOption(b) => andBehavior := b;
        case _ =>
      }
      i := i + 1;
    }
    assert cs[..|cs|] == cs;
  }

  /** Classifying the arguments after the program name fails exactly when
      one of them panics. */
  lemma ParseAllOk(args: seq<string>)
    requires |args| >= 1
    ensures !CollectMap(args[1..], ParseSingleInput).Err?
    ensures CollectMap(args[1..], ParseSingleInput).Ok? <==>
      forall k :: 1 <= k < |args| ==> !ParseSingleInput(args[k]).Panic?
  {
    var rest := args[1..];
    assert forall k :: 1 <= k < |args| ==> args[k] == rest[k - 1];
  }

  /** `Config::parse`. An empty argument vector panics at `args[0]`; a
      panicking argument panics the whole parse. */
  method Parse(args: seq<string>) returns (r: Outcome<Config>)
    ensures !r.Err?
    ensures |args| == 0 ==> r.Panic?
    ensures |args| == 1 ==> r == Ok(Config(Err(NoArguments(args[0])), false, args[0]))
    ensures |args| >= 2 ==>
      (r.Panic? <==> exists k :: 1 <= k < |args| && ParseSingleInput(args[k]).Panic?)
    ensures |args| >= 2 && r.Ok? ==>
      CollectMap(args[1..], ParseSingleInput).Ok? &&
      var cs := CollectMap(args[1..], ParseSingleInput).value;
      r.value == Config(Ok(Outputs(cs, FinalPolicy(cs))),
                        exists k :: 0 <= k < |cs| && cs[k].Help?,
                        args[0])
  {
    if |args| == 0 {
      return Panic("index out of bounds: the len is 0 but the index is 0");
    }
    var progName := args[0];
    if |args| < 2 {
      return Ok(Config(Err(NoArguments(progName)), false, progName));
    }
    var parsed := CollectMap(args[1..], ParseSingleInput);
    ParseAllOk(args);
    if !parsed.Ok? {
      return Panic(parsed.msg);
    }
    var cs := parsed.value;
    var help, andBehavior := Classify(cs);
    r := Ok(Config(Ok(Outputs(cs, andBehavior)), help, progName));
  }
}
