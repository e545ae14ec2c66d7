/** What a call into the converter does: Rust's `Result` (Ok / Err) plus the
    abort of the current call (a panic) that an `.expect` on an `Err`, an
    out-of-bounds array index or an out-of-range string slice causes. */
module Outcomes {

  datatype Outcome<T> = Ok(value: T) | Err(msg: string) | Panic(msg: string)

  /** `r.expect(msg)`: an `Err` becomes a panic carrying `msg`; anything else
      passes through unchanged. */
  function Expect<T>(r: Outcome<T>, msg: string): (e: Outcome<T>)
    ensures !e.Err?
    ensures e.Ok? <==> r.Ok?
    ensures e.Ok? ==> e.value == r.value
    ensures r.Err? ==> e == Panic(msg)
  {
    match r
    case Err(_) => Panic(msg)
    case _ => r
  }

  /** `format!("{}{}", a, b)` over two arguments that may have failed: the
      left argument is evaluated first, so its failure is the one reported. */
  function Cat(a: Outcome<string>, b: Outcome<string>): (c: Outcome<string>)
    ensures c.Ok? <==> a.Ok? && b.Ok?
    ensures c.Ok? ==> c.value == a.value + b.value
    ensures !a.Ok? ==> c == a
    ensures a.Ok? && !b.Ok? ==> c == b
  {
    if !a.Ok? then a
    else if !b.Ok? then b
    else Ok(a.value + b.value)
  }
}
