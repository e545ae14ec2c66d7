/** Strings as sequences of characters: joining, counting and the layout
    predicates the rendered numerals satisfy. */
module Text {

  predicate IsLetter(c: char) {
    'a' <= c <= 'z'
  }

  /** The total length of `parts`. */
  function TotalLength(parts: seq<string>): nat {
    if parts == [] then 0 else |parts[0]| + TotalLength(parts[1..])
  }

  /** `parts.join(sep)` on a vector of strings: the parts in order, with one
      separator between each two neighbours and none at either end. */
  function Join(parts: seq<string>, sep: string): (r: string)
    ensures parts == [] ==> r == ""
    ensures parts != [] ==> |r| == TotalLength(parts) + (|parts| - 1) * |sep|
    ensures parts != [] ==> r[..|parts[0]|] == parts[0]
  {
    if |parts| == 0 then ""
    else if |parts| == 1 then parts[0]
    else parts[0] + sep + Join(parts[1..], sep)
  }

  /** The number of occurrences of `c` in `s`. */
  function Count(s: string, c: char): nat {
    if s == [] then 0 else (if s[0] == c then 1 else 0) + Count(s[1..], c)
  }

  /** `c` does not occur in `s`. */
  predicate Lacks(s: string, c: char) {
    forall i :: 0 <= i < |s| ==> s[i] != c
  }

  predicate NoDoubleSpace(s: string) {
    forall i :: 0 <= i < |s| - 1 ==> !(s[i] == ' ' && s[i + 1] == ' ')
  }

  /** Non-empty, and the first and last characters are letters: no leading or
      trailing space, hyphen or comma. */
  predicate LetterEnds(s: string) {
    |s| > 0 && IsLetter(s[0]) && IsLetter(s[|s| - 1])
  }

  predicate Tidy(s: string) {
    LetterEnds(s) && NoDoubleSpace(s)
  }

  lemma {:induction false} CountAppend(a: string, b: string, c: char)
    ensures Count(a + b, c) == Count(a, c) + Count(b, c)
  {
    if a == [] {
      assert a + b == b;
    } else {
      assert (a + b)[1..] == a[1..] + b;
      CountAppend(a[1..], b, c);
    }
  }

  lemma {:induction false} LacksCount(s: string, c: char)
    requires Lacks(s, c)
    ensures Count(s, c) == 0
  {
    if s != [] {
      assert Lacks(s[1..], c) by {
        forall i | 0 <= i < |s| - 1 ensures s[1..][i] != c {
          assert s[1..][i] == s[i + 1];
        }
      }
      LacksCount(s[1..], c);
    }
  }

  /** Gluing two tidy pieces with a separator that has no double space gives
      a tidy piece whose count of any character is the sum of the counts. */
  lemma Glue(a: string, sep: string, b: string, c: char)
    requires Tidy(a) && Tidy(b) && NoDoubleSpace(sep)
    ensures Tidy(a + sep + b)
    ensures Count(a + sep + b, c) == Count(a, c) + Count(sep, c) + Count(b, c)
    ensures Lacks(a, c) && Lacks(sep, c) && Lacks(b, c) ==> Lacks(a + sep + b, c)
  {
    var s := a + sep + b;
    forall i | 0 <= i < |s| - 1
      ensures !(s[i] == ' ' && s[i + 1] == ' ')
    {
      if i + 1 < |a| {
        assert s[i] == a[i] && s[i + 1] == a[i + 1];
      } else if i + 1 == |a| {
        assert s[i] == a[|a| - 1];
      } else if i + 1 < |a| + |sep| {
        assert s[i] == sep[i - |a|] && s[i + 1] == sep[i + 1 - |a|];
      } else if i + 1 == |a| + |sep| {
        assert s[i + 1] == b[0];
      } else {
        assert s[i] == b[i - |a| - |sep|] && s[i + 1] == b[i + 1 - |a| - |sep|];
      }
    }
    CountAppend(a + sep, b, c);
    CountAppend(a, sep, c);
  }
}
