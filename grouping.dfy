/** The magnitude grouper against a reference: the groups `to_word` extracts
    are the base-1000 digits of the number, and its output equals a spelling
    that peels off one group at a time, least significant first. */
module Grouping {
  import opened Outcomes
  import opened Text
  import opened ConversionToWords
  import opened Spelling
  import opened Iterators

  /** A positive multiple of `d` is at least `d`. */
  lemma MulAtLeast(d: int, k: int)
    requires d > 0 && k >= 1
    ensures d * k >= d
  {
  }

  lemma DivModUnique(x: int, d: int, q: int, r: int)
    requires d > 0 && 0 <= r < d && x == d * q + r
    ensures x / d == q && x % d == r
  {
    var q0, r0 := x / d, x % d;
    assert x == d * q0 + r0 && 0 <= r0 < d;
    assert d * (q - q0) == r0 - r by {
      assert d * (q - q0) == d * q - d * q0;
    }
    if q > q0 {
      MulAtLeast(d, q - q0);
    } else if q < q0 {
      MulAtLeast(d, q0 - q);
    }
  }

  /** Dividing by `a` and then by `m` is dividing by `a * m`. */
  lemma DivDiv(x: nat, a: nat, m: nat)
    requires a > 0 && m > 0
    ensures x / a / m == x / (a * m)
  {
    DivModSplit(x, a, m);
  }

  /** The remainder by `a * m` splits into the remainders by `a` and `m`. */
  lemma ModSplit(x: nat, a: nat, m: nat)
    requires a > 0 && m > 0
    ensures x % (a * m) == x % a + (x / a % m) * a
  {
    DivModSplit(x, a, m);
  }

  lemma DivModSplit(x: nat, a: nat, m: nat)
    requires a > 0 && m > 0
    ensures x / a / m == x / (a * m)
    ensures x % (a * m) == x % a + (x / a % m) * a
  {
    var q, r := x / a, x % a;
    var q2, r2 := q / m, q % m;
    assert x == a * q + r;
    assert q == m * q2 + r2;
    assert x == (a * m) * q2 + (a * r2 + r) by {
      assert a * q == a * (m * q2) + a * r2;
    }
    assert a * r2 <= a * (m - 1);
    DivModUnique(x, a * m, q2, a * r2 + r);
  }

  lemma {:induction false} PowThousand(i: nat)
    ensures Pow(10, 3 * i) == Pow(1000, i)
  {
    if i > 0 {
      PowThousand(i - 1);
      calc {
        Pow(10, 3 * i);
        10 * Pow(10, 3 * i - 1);
        10 * (10 * Pow(10, 3 * i - 2));
        10 * (10 * (10 * Pow(10, 3 * (i - 1))));
        1000 * Pow(1000, i - 1);
      }
    }
  }

  /** Digit `i` of `x` in base 1000. */
  function Digit(x: nat, i: nat): nat {
    x / Pow(1000, i) % 1000
  }

  /** The value of digits 0 .. n-1 of `x`. */
  function DigitSum(x: nat, n: nat): nat {
    if n == 0 then 0 else Digit(x, n - 1) * Pow(1000, n - 1) + DigitSum(x, n - 1)
  }

  lemma {:induction false} DigitSumIsRemainder(x: nat, n: nat)
    ensures DigitSum(x, n) == x % Pow(1000, n)
  {
    if n > 0 {
      DigitSumIsRemainder(x, n - 1);
      ModSplit(x, Pow(1000, n - 1), 1000);
    }
  }

  /** The seven digits rebuild every 64-bit value: grouping loses nothing. */
  lemma SevenDigitsSuffice(x: U64)
    ensures DigitSum(x, 7) == x
  {
    DigitSumIsRemainder(x, 7);
    assert Pow(1000, 7) == 1_000_000_000_000_000_000_000;
  }

  /** The items of `to_word`'s iterator are the base-1000 digits of `x`,
      most significant first, with their indices. */
  lemma GroupsAreDigits(x: nat)
    ensures forall k :: 0 <= k < 7 ==> Groups(x)[k] == GroupItem(Digit(x, 6 - k), 6 - k, x)
  {
    forall k | 0 <= k < 7 ensures Groups(x)[k] == GroupItem(Digit(x, 6 - k), 6 - k, x) {
      PowThousand(6 - k);
    }
  }

  /** Every exponent in `to_word` is at most 18, and 10^18 fits in a `u64`,
      so no `pow` overflows. */
  lemma NoPowOverflow(y: nat)
    requires y < 7
    ensures Pow(10, 3 * (6 - y)) < U64_LIMIT
  {
    PowThousand(6 - y);
    PowMonotone(1000, 6 - y, 6);
    assert Pow(1000, 6) == 1_000_000_000_000_000_000;
  }

  lemma {:induction false} PowMonotone(base: nat, i: nat, j: nat)
    requires base > 0 && i <= j
    ensures Pow(base, i) <= Pow(base, j)
  {
    if i < j {
      PowMonotone(base, i, j - 1);
    }
  }

  /** How one non-zero group is spelled: its value and its index in, its
      text out. */
  type PieceFn = (nat, nat) -> string

  /** The reference grouping. `y` holds the groups of a number from index
      `i` up: the lowest of them is `y % 1000`; the more significant ones are
      spelled first, and a zero group contributes nothing. */
  function SpellFrom(y: nat, i: nat, piece: PieceFn): seq<string>
    requires i <= 7 && y < Pow(1000, 7 - i)
    decreases y
  {
    if y == 0 then []
    else SpellFrom(y / 1000, i + 1, piece) + (if y % 1000 == 0 then [] else [piece(y % 1000, i)])
  }

  /** The English text of group value `d` at index `i` of `x`, suffix
      included. */
  function GroupPiece(b: AndBehavior, x: nat): PieceFn {
    (d: nat, i: nat) =>
      if d < 1000 && i < 7 then Below1000(d, InsertAnd(b, i, x)) + POWERS_THOUSAND[i] else ""
  }

  /** The reference spelling of a 64-bit value. */
  function Spelled(x: U64, b: AndBehavior): string {
    assert Pow(1000, 7) == 1_000_000_000_000_000_000_000;
    if x == 0 then "zero" else Join(SpellFrom(x, 0, GroupPiece(b, x)), ", ")
  }

  /** The piece for digit `i` of `x`, if that digit is non-zero. */
  function PieceAt(x: nat, i: nat, piece: PieceFn): seq<string> {
    if Digit(x, i) == 0 then [] else [piece(Digit(x, i), i)]
  }

  /** The pieces for digits n-1 down to 0 of `x`. */
  function LowPieces(x: nat, n: nat, piece: PieceFn): seq<string> {
    if n == 0 then [] else PieceAt(x, n - 1, piece) + LowPieces(x, n - 1, piece)
  }

  lemma {:induction false} HighPart(x: U64, i: nat)
    requires i <= 7
    ensures x / Pow(1000, i) < Pow(1000, 7 - i)
  {
    if i == 0 {
      assert Pow(1000, 7) == 1_000_000_000_000_000_000_000;
    } else {
      HighPart(x, i - 1);
      DivDiv(x, Pow(1000, i - 1), 1000);
    }
  }

  /** The reference pieces of the groups of `x` from index `i` up. */
  function HighPieces(x: U64, i: nat, piece: PieceFn): seq<string>
    requires i <= 7
  {
    HighPart(x, i);
    SpellFrom(x / Pow(1000, i), i, piece)
  }

  /** Dividing by 1000^(i+1) is dividing by 1000^i, then by 1000. */
  lemma PeelDigit(x: nat, i: nat)
    ensures x / Pow(1000, i + 1) == x / Pow(1000, i) / 1000
    ensures Digit(x, i) == x / Pow(1000, i) % 1000
  {
    assert Pow(1000, i + 1) == Pow(1000, i) * 1000;
    DivDiv(x, Pow(1000, i), 1000);
  }

  lemma Peel(x: U64, i: nat, piece: PieceFn)
    requires i < 7
    ensures HighPieces(x, i, piece) == HighPieces(x, i + 1, piece) + PieceAt(x, i, piece)
  {
    var y := x / Pow(1000, i);
    var z := x / Pow(1000, i + 1);
    HighPart(x, i);
    HighPart(x, i + 1);
    PeelDigit(x, i);
    assert z == y / 1000 && z < Pow(1000, 7 - (i + 1));
    SpellStep(y, i, piece);
  }

  /** One step of `SpellFrom`, including the case y == 0. */
  lemma SpellStep(y: nat, i: nat, piece: PieceFn)
    requires i < 7 && y < Pow(1000, 7 - i) && y / 1000 < Pow(1000, 7 - (i + 1))
    ensures SpellFrom(y, i, piece) ==
      SpellFrom(y / 1000, i + 1, piece) + (if y % 1000 == 0 then [] else [piece(y % 1000, i)])
  {
  }

  lemma {:induction false} SplitAt(x: U64, n: nat, piece: PieceFn)
    requires n <= 7
    ensures HighPieces(x, 0, piece) == HighPieces(x, n, piece) + LowPieces(x, n, piece)
  {
    if n > 0 {
      SplitAt(x, n - 1, piece);
      Peel(x, n - 1, piece);
    }
  }

  /** Peeling groups off least significant first yields the pieces of the
      non-zero digits, most significant first. */
  lemma SpellFromIsLowPieces(x: U64, piece: PieceFn)
    ensures HighPieces(x, 0, piece) == LowPieces(x, 7, piece)
  {
    SplitAt(x, 7, piece);
    HighPart(x, 7);
  }

  /** Filtering and collecting the items for digits n-1 down to 0 of `x`
      yields the pieces of their non-zero digits, most significant first, for
      any closure that renders a group as `piece` does. */
  lemma {:induction false} CollectedIsLowPieces(x: nat, n: nat, gs: seq<GroupItem>, f: GroupItem -> Outcome<string>, piece: PieceFn)
    requires |gs| == n
    requires forall k :: 0 <= k < n ==> gs[k] == GroupItem(Digit(x, n - 1 - k), n - 1 - k, x)
    requires forall g: GroupItem :: g.full == x && 0 < g.value < 1000 && g.index < 7 ==>
      f(g) == Ok(piece(g.value, g.index))
    requires n <= 7
    ensures CollectMap(Filter(gs, NonZero), f) == Ok(LowPieces(x, n, piece))
  {
    if n > 0 {
      var g := gs[0];
      var rest := gs[1..];
      assert forall k :: 0 <= k < n - 1 ==> rest[k] == gs[k + 1];
      CollectedIsLowPieces(x, n - 1, rest, f, piece);
      FilterCons(gs, NonZero);
      if Digit(x, n - 1) != 0 {
        CollectCons(g, Filter(rest, NonZero), f, piece(Digit(x, n - 1), n - 1), LowPieces(x, n - 1, piece));
      } else {
        assert Filter(gs, NonZero) == Filter(rest, NonZero);
        assert LowPieces(x, n, piece) == LowPieces(x, n - 1, piece);
      }
    }
  }

  /** The `.map` closure renders every group of `x` as the reference does. */
  lemma RenderIsGroupPiece(x: nat, b: AndBehavior, g: GroupItem)
    requires g.full == x && 0 < g.value < 1000 && g.index < 7
    ensures Render(b)(g) == Ok(GroupPiece(b, x)(g.value, g.index))
  {
    Under1000Spelled(g.value, g.index, b, x);
  }

  lemma RenderIsGroupPieces(x: nat, b: AndBehavior)
    ensures forall g: GroupItem | g.full == x && 0 < g.value < 1000 && g.index < 7 ::
      Render(b)(g) == Ok(GroupPiece(b, x)(g.value, g.index))
  {
    forall g: GroupItem | g.full == x && 0 < g.value < 1000 && g.index < 7
      ensures Render(b)(g) == Ok(GroupPiece(b, x)(g.value, g.index))
    {
      RenderIsGroupPiece(x, b, g);
    }
  }

  /** `to_word` equals the reference spelling on every 64-bit value and
      policy. */
  lemma ToWordSpelled(x: U64, b: AndBehavior)
    ensures ToWord(x, b) == Ok(Spelled(x, b))
  {
    if x > 0 {
      RenderIsGroupPieces(x, b);
      GroupsAreDigits(x);
      CollectedIsLowPieces(x, 7, Groups(x), Render(b), GroupPiece(b, x));
      SpellFromIsLowPieces(x, GroupPiece(b, x));
      assert x / Pow(1000, 0) == x;
    }
  }

  /** For a positive value, `to_word` is the ", "-join of the pieces of the
      non-zero groups, most significant first. */
  lemma ToWordPieces(x: U64, b: AndBehavior)
    requires x > 0
    ensures ToWord(x, b) == Ok(Join(LowPieces(x, 7, GroupPiece(b, x)), ", "))
  {
    ToWordSpelled(x, b);
    SpellFromIsLowPieces(x, GroupPiece(b, x));
    assert x / Pow(1000, 0) == x;
  }
}
