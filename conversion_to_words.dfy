/** The numeral-to-words engine: digits, values under one hundred, values
    under one thousand (with the "and" policy), and the grouping of a 64-bit
    value by powers of one thousand. */
module ConversionToWords {
  import opened Outcomes
  import opened Text
  import opened Iterators

  /** The values of Rust's `u64`. */
  const U64_LIMIT: nat := 0x1_0000_0000_0000_0000
  type U64 = x: nat | x < 0x1_0000_0000_0000_0000

  const AND_STR: string := " and "

  /** Where the word "and" goes between a group's hundreds and the rest. */
  datatype AndBehavior = None | LastGroup | OnlyUnderThousand | All

  /** The separator between the hundreds of group `group` (0 = units) and
      its last two digits, when the whole number is `value`. */
  function InsertAnd(b: AndBehavior, group: nat, value: nat): (sep: string)
    ensures sep == AND_STR || sep == " "
    ensures sep == AND_STR <==>
      b == All || (b == LastGroup && group == 0) || (b == OnlyUnderThousand && value <= 999)
  {
    match b
    case None => " "
    case LastGroup => if group == 0 then AND_STR else " "
    case OnlyUnderThousand => if value <= 999 then AND_STR else " "
    case All => AND_STR
  }

  function SingleDigit(x: nat): (r: Outcome<string>)
    ensures r.Ok? <==> x <= 9
    ensures x > 9 ==> r == Err("Value over 9.")
  {
    match x
    case 0 => Ok("zero")
    case 1 => Ok("one")
    case 2 => Ok("two")
    case 3 => Ok("three")
    case 4 => Ok("four")
    case 5 => Ok("five")
    case 6 => Ok("six")
    case 7 => Ok("seven")
    case 8 => Ok("eight")
    case 9 => Ok("nine")
    case _ => Err("Value over 9.")
  }

  /** `under_100` exactly as written: the arm for multiples of ten is not
      limited to values under 100, so for 100, 110, ... the `.expect` on
      `single_digit(x / 10)` fails and the call panics instead of returning
      the error of the last arm. */
  function Under100AsWritten(x: nat): (r: Outcome<string>)
    ensures x <= 99 ==> r.Ok?
    ensures x > 99 ==> !r.Ok?
  {
    if x <= 9 then SingleDigit(x)
    else if x == 10 then Ok("ten")
    else if x == 11 then Ok("eleven")
    else if x == 12 then Ok("twelve")
    else if x == 13 then Ok("thirteen")
    else if x == 15 then Ok("fifteen")
    else if x == 18 then Ok("eighteen")
    else if x == 14 || x == 16 || x == 17 || x == 19 then
      Cat(Expect(SingleDigit(x % 10), "under 10"), Ok("teen"))
    else if x == 20 then Ok("twenty")
    else if x == 30 then Ok("thirty")
    else if x == 40 then Ok("forty")
    else if x == 50 then Ok("fifty")
    else if x == 80 then Ok("eighty")
    else if x % 10 == 0 then Cat(Expect(SingleDigit(x / 10), "under 10"), Ok("ty"))
    else if 21 <= x <= 99 then
      Cat(Cat(Expect(Under100AsWritten(x - x % 10), "under 100"), Ok("-")),
          Expect(SingleDigit(x % 10), "under 10"))
    else Err("Value over 99")
  }

  /** `under_100` with the multiples-of-ten arm limited to values under 100,
      so that every value over 99 reaches the error arm. */
  function Under100(x: nat): (r: Outcome<string>)
    ensures r.Ok? <==> x <= 99
    ensures x > 99 ==> r == Err("Value over 99")
  {
    if x <= 9 then SingleDigit(x)
    else if x == 10 then Ok("ten")
    else if x == 11 then Ok("eleven")
    else if x == 12 then Ok("twelve")
    else if x == 13 then Ok("thirteen")
    else if x == 15 then Ok("fifteen")
    else if x == 18 then Ok("eighteen")
    else if x == 14 || x == 16 || x == 17 || x == 19 then
      Cat(Expect(SingleDigit(x % 10), "under 10"), Ok("teen"))
    else if x == 20 then Ok("twenty")
    else if x == 30 then Ok("thirty")
    else if x == 40 then Ok("forty")
    else if x == 50 then Ok("fifty")
    else if x == 80 then Ok("eighty")
    else if x % 10 == 0 && x <= 99 then Cat(Expect(SingleDigit(x / 10), "under 10"), Ok("ty"))
    else if 21 <= x <= 99 then
      Cat(Cat(Expect(Under100(x - x % 10), "under 100"), Ok("-")),
          Expect(SingleDigit(x % 10), "under 10"))
    else Err("Value over 99")
  }

  /** A value under one thousand in group `group` of the number `full`. */
  function Under1000(x: nat, group: nat, b: AndBehavior, full: nat): (r: Outcome<string>)
    ensures r.Ok? <==> x <= 999
    ensures x > 999 ==> r == Err("Value over 999.")
  {
    if x <= 99 then Under100(x)
    else if 100 <= x <= 900 && x % 100 == 0 then
      Cat(Expect(SingleDigit(x / 100), "under 10"), Ok("-hundred"))
    else if x < 1000 then
      Cat(Cat(Expect(Under1000(x - x % 100, group, b, full), "under 1000"),
              Ok(InsertAnd(b, group, full))),
          Expect(Under100(x % 100), "under 100"))
    else Err("Value over 999.")
  }

  /** `under_1000` as written, on top of `under_100` as written. */
  function Under1000AsWritten(x: nat, group: nat, b: AndBehavior, full: nat): (r: Outcome<string>)
    ensures r.Ok? <==> x <= 999
  {
    if x <= 99 then Under100AsWritten(x)
    else if 100 <= x <= 900 && x % 100 == 0 then
      Cat(Expect(SingleDigit(x / 100), "under 10"), Ok("-hundred"))
    else if x < 1000 then
      Cat(Cat(Expect(Under1000AsWritten(x - x % 100, group, b, full), "under 1000"),
              Ok(InsertAnd(b, group, full))),
          Expect(Under100AsWritten(x % 100), "under 100"))
    else Err("Value over 999.")
  }

  /** The magnitude suffix of each group, indexed by group. */
  const POWERS_THOUSAND: seq<string> :=
    ["", " thousand", " million", " billion", " trillion", " quadrillion", " quintillion"]

  /** `u64::pow`. */
  function Pow(base: nat, e: nat): (r: nat)
    ensures base > 0 ==> r > 0
  {
    if e == 0 then 1 else base * Pow(base, e - 1)
  }

  /** One item of the iterator in `to_word`: the group's value, its index
      (0 = units, 6 = quintillions) and the whole number. */
  datatype GroupItem = GroupItem(value: nat, index: nat, full: nat)

  /** `(0..7).map(|y| ((x / 10^(3 * (6 - y))) % 1000, 6 - y, x))`. */
  function Groups(x: nat): (gs: seq<GroupItem>)
    ensures |gs| == 7
    ensures forall k :: 0 <= k < 7 ==> gs[k].value < 1000 && gs[k].index == 6 - k
  {
    seq(7, y requires 0 <= y < 7 => GroupItem((x / Pow(10, 3 * (6 - y))) % 1000, 6 - y, x))
  }

  /** The closure of `.map(|(a, b, x)| ...)`: the group in words followed by
      its magnitude suffix. As in `format!`, the words are produced (and
      their `.expect` checked) before the suffix is looked up. */
  function RenderGroup(g: GroupItem, b: AndBehavior): (r: Outcome<string>)
    ensures r.Ok? <==> g.value < 1000 && g.index < 7
  {
    var words := Expect(Under1000(g.value, g.index, b, g.full), "under 1000");
    if !words.Ok? then words
    else if g.index < |POWERS_THOUSAND| then Ok(words.value + POWERS_THOUSAND[g.index])
    else Panic("index out of bounds")
  }

  /** The groups `RenderGroup` can spell. */
  predicate Renderable(g: GroupItem) {
    g.value < 1000 && g.index < 7
  }

  /** The closure of `.filter(|(a, _, _)| *a != 0)`. */
  function NonZero(g: GroupItem): bool {
    g.value != 0
  }

  /** The closure of `.map(...)`, for policy `b`. */
  function Render(b: AndBehavior): GroupItem -> Outcome<string> {
    g => RenderGroup(g, b)
  }

  /** `to_word`: never fails, and zero is "zero". */
  function ToWord(x: U64, b: AndBehavior): (r: Outcome<string>)
    ensures r.Ok?
    ensures x == 0 ==> r.value == "zero"
  {
    if x == 0 then Expect(SingleDigit(0), "under 10")
    else
      FilterKeeps(Groups(x), NonZero, Renderable);
      match CollectMap(Filter(Groups(x), NonZero), Render(b))
      case Ok(ps) => Ok(Join(ps, ", "))
      case Err(e) => Err(e)
      case Panic(e) => Panic(e)
  }
}
