/** The shape of `to_word`'s output: tidy spacing, "zero" only for zero,
    and one comma between consecutive non-zero groups. */
module Layout {
  import opened Outcomes
  import opened Text
  import opened ConversionToWords
  import opened Spelling
  import opened SpellingLayout
  import opened Grouping

  /** The number of non-zero digits among digits 0 .. n-1 of `x`. */
  function NonzeroDigits(x: nat, n: nat): nat {
    if n == 0 then 0 else (if Digit(x, n - 1) == 0 then 0 else 1) + NonzeroDigits(x, n - 1)
  }

  /** With no non-zero digit below `n`, the digits below `n` sum to zero. */
  lemma {:induction false} NoNonzeroDigit(x: nat, n: nat)
    requires NonzeroDigits(x, n) == 0
    ensures DigitSum(x, n) == 0
  {
    if n > 0 {
      NoNonzeroDigit(x, n - 1);
    }
  }

  /** Every positive 64-bit value has a non-zero group. */
  lemma SomeNonzeroDigit(x: U64)
    requires x > 0
    ensures NonzeroDigits(x, 7) >= 1
  {
    SevenDigitsSuffice(x);
    if NonzeroDigits(x, 7) == 0 {
      NoNonzeroDigit(x, 7);
    }
  }

  /** If every non-zero group is spelled as a good piece, `LowPieces` holds
      one good piece per non-zero digit. */
  lemma {:induction false} LowPiecesGood(x: nat, n: nat, piece: PieceFn)
    requires n <= 7
    requires forall d: nat, i: nat :: 0 < d < 1000 && i < 7 ==> GoodPiece(piece(d, i))
    ensures |LowPieces(x, n, piece)| == NonzeroDigits(x, n)
    ensures forall k :: 0 <= k < |LowPieces(x, n, piece)| ==> GoodPiece(LowPieces(x, n, piece)[k])
  {
    if n > 0 {
      LowPiecesGood(x, n - 1, piece);
      var head := PieceAt(x, n - 1, piece);
      var tail := LowPieces(x, n - 1, piece);
      assert LowPieces(x, n, piece) == head + tail;
      assert forall k :: 0 <= k < |head| ==> GoodPiece(head[k]);
    }
  }

  /** Every non-zero group of `x` is spelled as a good piece. */
  lemma GroupPieceGood(b: AndBehavior, x: nat)
    ensures forall d: nat, i: nat :: 0 < d < 1000 && i < 7 ==> GoodPiece(GroupPiece(b, x)(d, i))
  {
    forall d: nat, i: nat | 0 < d < 1000 && i < 7
      ensures GoodPiece(GroupPiece(b, x)(d, i))
    {
      Below1000Good(d, InsertAnd(b, i, x));
      SuffixedGood(Below1000(d, InsertAnd(b, i, x)), i);
    }
  }

  /** Joining good pieces with ", " gives a tidy string with exactly one
      comma between consecutive pieces, starting as the first piece does. */
  lemma {:induction false} JoinGood(ps: seq<string>)
    requires |ps| > 0
    requires forall k :: 0 <= k < |ps| ==> GoodPiece(ps[k])
    ensures Tidy(Join(ps, ", "))
    ensures Count(Join(ps, ", "), ',') == |ps| - 1
    ensures Join(ps, ", ")[0] == ps[0][0]
  {
    LacksCount(ps[0], ',');
    if |ps| > 1 {
      var rest := Join(ps[1..], ", ");
      JoinGood(ps[1..]);
      assert Count(", ", ',') == 1;
      Glue(ps[0], ", ", rest, ',');
      assert Join(ps, ", ") == ps[0] + ", " + rest;
    }
  }

  /** The output of `to_word` is tidy; it is "zero" exactly for zero; and
      for a positive value it has one comma fewer than non-zero groups. */
  lemma ToWordLayout(x: U64, b: AndBehavior)
    ensures Tidy(ToWord(x, b).value)
    ensures ToWord(x, b).value == "zero" <==> x == 0
    ensures x > 0 ==> Count(ToWord(x, b).value, ',') + 1 == NonzeroDigits(x, 7)
  {
    if x == 0 {
      assert Tidy("zero");
    } else {
      var ps := LowPieces(x, 7, GroupPiece(b, x));
      ToWordPieces(x, b);
      GroupPieceGood(b, x);
      LowPiecesGood(x, 7, GroupPiece(b, x));
      SomeNonzeroDigit(x);
      JoinGood(ps);
      assert "zero"[0] == 'z';
    }
  }
}
