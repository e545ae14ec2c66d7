# numbers_into_words in Dafny

This project models the core of `numbers_into_words`. That library spells an
unsigned 64-bit integer as English words, for example "two thousand,
eight-hundred and fifty-nine". A policy decides where the word "and" goes.
It also has a small command-line front end that reads numbers and
`--and=` options.

The converter is pure code, so it is modelled as functions:

- `ConversionToWords` holds `insert_and`, `single_digit`, `under_100`,
  `under_1000`, `POWERS_THOUSAND` and `to_word`.
- `to_word`'s iterator chain is written out as Dafny functions: the seven
  group items (`Groups`), the zero filter (`Iterators.Filter` with `NonZero`),
  the render-and-collect step (`Iterators.CollectMap` with `Render`) and the
  join with ", " (`Text.Join`).

Rust's `Result` is modelled as `Outcomes.Outcome`:

- `Ok` and `Err` are the two `Result` variants.
- `Panic` stands for an `.expect` on an error, an out-of-range index or an
  out-of-range slice.

Each converter function is tied to an independent reference, a spelling
written straight from tables of English number names (`Spelling`):
`Spelling.Under100Spelled` and `Spelling.Under1000Spelled` prove that
`under_100` and `under_1000` agree with it. For `to_word` there are two
references:

- A recursive base-1000 grouping over that spelling (`Grouping`).
  `Grouping.ToWordSpelled` proves that `to_word` equals it on every
  64-bit value and every policy.
- A well-formedness predicate on the text (`Text.Tidy`), established by
  `Layout.ToWordLayout`.

`DocExamples` derives four of the documented examples of `to_word` from
these theorems.

`ProcessInput` models `InputComponent::parse_single_input` as a function and
`Config::parse` as a method:

- The classification loop over the components is a `while` loop with
  invariants (`Classify`).
- It is proved against the specification functions `FinalPolicy` and
  `Outputs`.
- `InputLaws` states what these promise.

## Model

| member | source | states |
|---|---|---|
| ConversionToWords.InsertAnd | src/lib.rs:133-143 | the separator is " and " exactly when the policy is `All`, or `LastGroup` in group 0, or `OnlyUnderThousand` with a whole number of at most 999; otherwise it is a single space |
| ConversionToWords.SingleDigit | src/lib.rs:146-160 | succeeds exactly on 0..9; above 9 the result is the error "Value over 9." |
| ConversionToWords.Under100AsWritten | src/lib.rs:162-185 | the code as written succeeds on 0..99 and never succeeds above 99 (it errs or panics) |
| ConversionToWords.Under100 | src/lib.rs:162-185 | the corrected `under_100` succeeds exactly on 0..99; above 99 it is the error "Value over 99" |
| ConversionToWords.Under1000 | src/lib.rs:187-207 | built on the corrected `under_100`: succeeds exactly on 0..999, under every policy, group and whole number; above 999 it is the error "Value over 999." |
| ConversionToWords.Under1000AsWritten | src/lib.rs:187-207 | `under_1000` as written, on top of `under_100` as written, also succeeds exactly on 0..999 |
| ConversionToWords.Pow | src/lib.rs:272 | `u64::pow` on unbounded integers: a power of a positive base is positive (`Grouping.NoPowOverflow` shows the powers used fit in 64 bits) |
| ConversionToWords.Groups | src/lib.rs:271-272 | the iterator yields seven items; each value is below 1000, and item k has group index 6 - k |
| ConversionToWords.RenderGroup | src/lib.rs:274-279 | rendering a group item succeeds exactly when its value is below 1000 and its index is inside `POWERS_THOUSAND` |
| ConversionToWords.ToWord | src/lib.rs:267-283 | `to_word` never fails, and 0 is "zero" |
| Outcomes.Expect | src/lib.rs:171 | `.expect` never yields an error: it keeps a success and its value, and turns an error into a panic with its message |
| Outcomes.Cat | src/lib.rs:199-204 | `format!` over arguments that may fail succeeds exactly when both do, with the two texts concatenated; the left argument is evaluated first, so its failure is the one reported |
| Iterators.Filter | src/lib.rs:273 | the filter keeps only elements its predicate accepts and never lengthens the sequence (`Iterators.FilterMembers` gives the rest) |
| Iterators.CollectMap | src/lib.rs:274-281 | mapping and collecting succeeds exactly when every element's result does, with one value per element in order; an error result comes from some element's error |
| Text.Join | src/lib.rs:282 | `join` gives "" for no parts; otherwise it starts with the first part and its length is the parts' total plus one separator between each two neighbours |
| Spelling.SingleDigitSpelled | src/lib.rs:146-160 | each digit is its English name |
| Spelling.TeenSpelled | src/lib.rs:165-171 | ten to nineteen are their English names, including the fourteen, sixteen, seventeen and nineteen built as digit + "teen" |
| Spelling.TySpelled | src/lib.rs:172-177 | every multiple of ten from 20 to 90 is the English tens name, including those built as digit + "ty" |
| Spelling.CompoundSpelled | src/lib.rs:178-182 | a value from 21 to 99 that is not a multiple of ten is the tens name, a hyphen and the units name |
| Spelling.Under100Spelled | src/lib.rs:162-185 | every value under 100 is spelled as the English reference spells it |
| Spelling.HundredSpelled | src/lib.rs:195-198 | an exact hundred is "<digit>-hundred" |
| Spelling.HundredAndRestSpelled | src/lib.rs:199-204 | any other value from 100 to 999 is its hundreds, then the policy's separator for this group and number, then the reference spelling of the last two digits |
| Spelling.Under1000Spelled | src/lib.rs:187-207 | every value under 1000 is spelled as the reference spells it, with the separator `insert_and` gives |
| ConversionLaws.Under100Compound | src/lib.rs:178-182 | for tens digit 2..9 and units digit 1..9, `under_100` gives the spelling of the tens, a hyphen and the spelling of the units |
| ConversionLaws.Under100Teen | src/lib.rs:171 | 14, 16, 17 and 19 are the units digit's name followed by "teen" |
| ConversionLaws.Under100Ty | src/lib.rs:177 | 60, 70 and 90 are the tens digit's name followed by "ty" |
| ConversionLaws.Under1000Hundreds | src/lib.rs:187-207 | h hundreds and rest r: for r = 0 it is "<h>-hundred"; otherwise it is that, then `insert_and`, then `under_100(r)` |
| ConversionLaws.Under1000PositionFree | src/lib.rs:133-143 | under `None` and `All`, a group's text depends on neither its index nor the whole number |
| ConversionLaws.SingleGroup | src/lib.rs:267-283 | a positive value below 1000 is one group, with suffix "" and the separator its policy gives group 0 |
| ConversionLaws.PolicyAgreementUnder1000 | src/lib.rs:133-143 | below 1000, `LastGroup`, `OnlyUnderThousand` and `All` give the same text, with " and " after the hundreds; `None` puts a space there |
| ConversionLaws.PolicyFreeUnder100 | src/lib.rs:267-283 | below 100 all four policies give the same text, the English name |
| ConversionLaws.Under100AsWrittenPanicsAt100 | src/lib.rs:177 | the code as written panics at 100 instead of returning "Value over 99" |
| ConversionLaws.Under100AsWrittenOver99 | src/lib.rs:177-183 | above 99, the code as written panics exactly on multiples of ten; on every other value it returns the intended error |
| ConversionLaws.Under100AsWrittenAgrees | src/lib.rs:162-185 | on 0..99 the code as written and the corrected version agree |
| ConversionLaws.Under1000AsWrittenAgrees | src/lib.rs:187-207 | `under_1000` as written, on `under_100` as written, equals `Under1000` on every input, so building the model on the corrected `under_100` changes no output of `under_1000` or `to_word` |
| Grouping.SevenDigitsSuffice | src/lib.rs:271-272 | the seven base-1000 groups rebuild every 64-bit value, so no group is lost |
| Grouping.GroupsAreDigits | src/lib.rs:271-272 | item k of the iterator is base-1000 digit 6 - k of x, with index 6 - k and the whole number |
| Grouping.NoPowOverflow | src/lib.rs:272 | every power of ten used (at most 10^18) fits in a `u64` |
| Grouping.RenderIsGroupPiece | src/lib.rs:274-279 | the map closure renders each non-zero group as the reference piece: its words followed by its magnitude suffix |
| Grouping.ToWordSpelled | src/lib.rs:267-283 | for every 64-bit value and every policy, `to_word` equals the reference spelling |
| Grouping.ToWordPieces | src/lib.rs:270-282 | for x > 0, the result is the ", "-join of the pieces of the non-zero groups, most significant first |
| Layout.ToWordLayout | src/lib.rs:267-283 | the text is tidy: non-empty, it starts and ends with a small letter and has no double space; it is "zero" exactly when x = 0; for x > 0 it has one comma fewer than there are non-zero groups |
| Iterators.FilterMembers | src/lib.rs:273 | the filter adapter keeps exactly the elements its predicate accepts: each kept element comes from the input, and each accepted one is kept |
| DocExamples.Example731All | src/lib.rs:125-128 | `to_word(731, All)` is "seven-hundred and thirty-one" |
| DocExamples.Example731None | src/lib.rs:48-51 | `to_word(731, None)` is "seven-hundred thirty-one" |
| DocExamples.Example2859None | src/lib.rs:44-47 | `to_word(2_859, None)` is "two thousand, eight-hundred fifty-nine" |
| DocExamples.Example350000430LastGroup | src/lib.rs:66-69 | `to_word(350_000_430, LastGroup)` is "three-hundred fifty million, four-hundred and thirty": the empty thousands group is skipped and "and" appears only in the units group |
| Layout.SomeNonzeroDigit | src/lib.rs:273 | a positive value has at least one non-zero group, so the joined list is never empty |
| ProcessInput.IsOption | src/lib.rs:1006 | an argument takes the option branch exactly when it has at least three characters and starts with two dashes |
| ProcessInput.Token | src/lib.rs:1011-1014 | every policy's token has at least three characters and is already lower-case, so it survives the lower-casing of the argument |
| ProcessInput.Emit | src/lib.rs:928-936 | each component gives at most one output, exactly when it is a number or an error; a number keeps its value and gets the given policy, an error keeps its message |
| ProcessInput.Outputs | src/lib.rs:926-937 | there are never more outputs than components, and every number carries the given policy (`InputLaws.OutputsFaithful` gives the rest) |
| ProcessInput.NoArguments | src/lib.rs:900-902 | the hint is a fixed opening, then the program's name, then " help" |
| ProcessInput.Lower | src/lib.rs:1005 | lower-casing keeps the length and maps each capital ASCII letter to its small letter |
| ProcessInput.ParseU64 | src/lib.rs:1028-1031 | parsing a non-empty string of digits succeeds exactly when its value is below 2^64, with that value |
| ProcessInput.ParseOption | src/lib.rs:1006-1019 | the option branch never yields a number; it panics exactly when the text after "--" is not "help" and the argument is shorter than six characters; it yields `Help` exactly for "--help", `AndOption(b)` exactly for "--and=" followed by b's token, and an error for every other option of six or more characters |
| ProcessInput.ParseNumber | src/lib.rs:1020-1033 | the number branch yields "Invalid input" when there is no ASCII digit; otherwise it yields the value of the digits when it is below 2^64, and "Too big" otherwise |
| ProcessInput.ParseSingleInput | src/lib.rs:1004-1034 | classification never returns an error value; it panics exactly on a short malformed option |
| ProcessInput.FinalPolicyStep | src/lib.rs:915-925 | an "and" option sets the policy to its own; any other component leaves it unchanged |
| ProcessInput.Classify | src/lib.rs:909-925 | the loop's `help` is true exactly when some component is `Help`; `and_behavior` is the policy of the last "and" option, or `All` |
| ProcessInput.ParseAllOk | src/lib.rs:911-914 | classifying the arguments fails exactly when one argument panics |
| ProcessInput.Parse | src/lib.rs:896-944 | no arguments at all panics; a lone program name gives the "No arguments" hint; otherwise the parse panics exactly when an argument does, and else yields the outputs of the components under the final policy, the help flag and the program name |
| InputLaws.DecimalRoundTrip | src/lib.rs:1028 | reading a decimal digit string gives back the number it was written from |
| InputLaws.LowerKeepsDigits | src/lib.rs:1005-1024 | lower-casing does not change which digits an argument has |
| InputLaws.NumberRoundTrip | src/lib.rs:1020-1033 | a number's decimal text classifies as that number when it is below 2^64, and as "Too big: <text>" otherwise |
| InputLaws.ConvertedFromDigits | src/lib.rs:1020-1029 | a converted value always comes from a non-option argument with some digit, and is the value of its digits alone |
| InputLaws.DigitsConverted | src/lib.rs:1020-1029 | a non-option argument whose digits are below 2^64 converts to the value of its digits, whatever other characters surround them (as in "92,582,349") |
| InputLaws.NoDigitsInvalid | src/lib.rs:1025-1026 | a non-option argument with no digit is "Invalid input: <text>" |
| InputLaws.DigitsTooBig | src/lib.rs:1028-1030 | a non-option argument whose digits reach 2^64 is "Too big: <text>" |
| InputLaws.OptionsIgnoreCase | src/lib.rs:1005-1019 | two options that lower-case alike classify alike |
| InputLaws.AndOptionRoundTrip | src/lib.rs:1009-1014 | "--and=" followed by each policy's token selects that policy |
| InputLaws.HelpOption | src/lib.rs:1007-1008 | "--help", in any case, asks for help |
| InputLaws.BareHelpIsInvalid | src/lib.rs:898-903 | the hint for an empty command line suggests "help", but a bare "help" is classified as invalid input |
| InputLaws.DefaultPolicy | src/lib.rs:910 | with no "and" option, the policy is `All` |
| InputLaws.LastOptionWins | src/lib.rs:915-925 | the last "and" option wins, whatever comes before it |
| InputLaws.OutputsAppend | src/lib.rs:926-937 | the outputs of a concatenation are the concatenated outputs |
| InputLaws.OutputsFaithful | src/lib.rs:926-937 | every number and every error message reaches the output, each number with the final policy, and nothing else does |

## Left out

- `Config::process`, `help_text`, `example_session`, `COPYRIGHT_INFO` and `src/main.rs` are not part of this model. They format output and do I/O on top of the modelled parts.
- The `#[cfg(test)]` module and most documentation examples are not restated one by one; `DocExamples` derives four of them. The others follow from `Grouping.ToWordSpelled` once the reference spelling is evaluated, and that evaluation is not written out.
- ProcessInput.Lower: covers ASCII only. Rust's Unicode `to_lowercase` can change the length of a string. It also makes byte-index slicing fail inside a multi-byte character. Neither is modelled.
- ProcessInput.ParseU64: models `str::parse::<u64>` only on a non-empty string of ASCII digits, the only input it receives here.
- Panic payloads are simplified to short messages, and `Err` messages of `parse::<u64>` are not relied upon.
- ProcessInput.Parse: a Rust panic is modelled as a `Panic` result rather than as unwinding.

On out-of-range input, `single_digit` and `under_1000` return `Err` ("Value over 9.", "Value over 999."). `under_100` returns `Err("Value over 99")` above 99 except on multiples of ten, where it panics (see Findings). The model follows the code.

`Under1000`, and so `ToWord`, is built on the corrected `Under100`. `Under1000AsWritten` is built on `Under100AsWritten`, and `ConversionLaws.Under1000AsWrittenAgrees` proves the two equal on every input.

Panics in the model:

- `to_word` never panics: `ConversionToWords.ToWord` ensures its result is `Ok`.
- The only helper that panics instead of returning `Err` is `under_100`, on multiples of ten above 99 (see Findings).
- The parser panics on an empty argument vector (`args[0]`) and on a "--" option of three to five characters other than "--help" (the slice `cleaned[2..6]`).
- The index into `POWERS_THOUSAND` is modelled with its panic, although no input of `to_word` reaches it.

The usage line and the "No arguments" hint both offer a bare `help`, but only `--help` asks for help. A bare `help` is classified as "Invalid input: help" (`InputLaws.BareHelpIsInvalid`). It is not listed as a finding, because the intended fix is not evident: either the hint should say `--help`, or the parser should accept `help`.

## Findings

| source | as written | input that shows it | evidently intended | confidence | as-written member | corrected member |
|---|---|---|---|---|---|---|
| src/lib.rs:177 | the guard `x if x % 10 == 0` comes before the error arm and has no upper bound, so `under_100` calls `single_digit(x / 10).expect(...)` on a multiple of ten above 99 and panics | `under_100(100)` panics with "under 10" | every value over 99 returns `Err("Value over 99")` | not executed | ConversionToWords.Under100AsWritten (ConversionLaws.Under100AsWrittenPanicsAt100, ConversionLaws.Under100AsWrittenOver99) | ConversionToWords.Under100 (its ensures, ConversionLaws.Under100AsWrittenAgrees and ConversionLaws.Under1000AsWrittenAgrees) |

The defect cannot be reached from `to_word`. `under_100` is private, and every caller passes it a value below 100. `ConversionLaws.Under100AsWrittenAgrees` proves that the two versions agree there, and `ConversionLaws.Under1000AsWrittenAgrees` that `under_1000` is the same on either.
