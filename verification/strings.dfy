/** Text operations of the .NET base library that the backend relies on,
    restated over Dafny's `string`, a sequence of Unicode scalar values
    (not of UTF-16 code units, as a .NET string is), plus the splitting and
    joining that proofs about the full name use. */
module Strings {

  /** `char.IsWhiteSpace`: the Unicode separator characters plus the C0
      controls TAB through CR and NEL. */
  predicate IsWhiteSpace(c: char) {
    || '\U{0009}' <= c <= '\U{000D}'
    || c == ' '
    || c == '\U{0085}'
    || c == '\U{00A0}'
    || c == '\U{1680}'
    || '\U{2000}' <= c <= '\U{200A}'
    || c == '\U{2028}'
    || c == '\U{2029}'
    || c == '\U{202F}'
    || c == '\U{205F}'
    || c == '\U{3000}'
  }

  /** `string.TrimEnd()`: drops the longest run of white space at the end. */
  function TrimEnd(s: string): (r: string)
    ensures r <= s
    ensures |r| == 0 || !IsWhiteSpace(r[|r| - 1])
    ensures forall i :: |r| <= i < |s| ==> IsWhiteSpace(s[i])
  {
    if |s| > 0 && IsWhiteSpace(s[|s| - 1]) then TrimEnd(s[..|s| - 1]) else s
  }

  /** `s` has `pattern` at position 0, compared ordinally. */
  predicate StartsWith(s: string, pattern: string) {
    |pattern| <= |s| && s[..|pattern|] == pattern
  }

  /** `pattern` occurs somewhere in `s`. */
  predicate Contains(s: string, pattern: string) {
    exists i :: 0 <= i <= |s| && StartsWith(s[i..], pattern)
  }

  /** `s.Replace(pattern, "")`: scans left to right and deletes every
      non-overlapping occurrence of `pattern` (ordinal comparison). The
      library throws for an empty `pattern`, hence the precondition. */
  function RemoveAll(s: string, pattern: string): (r: string)
    requires |pattern| > 0
    ensures |r| <= |s|
    decreases |s|
  {
    if |s| == 0 then []
    else if StartsWith(s, pattern) then RemoveAll(s[|pattern|..], pattern)
    else [s[0]] + RemoveAll(s[1..], pattern)
  }

  /** Text without an occurrence of `pattern` is left as it is. */
  lemma {:induction false} RemoveAllWithoutOccurrence(s: string, pattern: string)
    requires |pattern| > 0
    requires !Contains(s, pattern)
    ensures RemoveAll(s, pattern) == s
    decreases |s|
  {
    if |s| > 0 {
      assert s[0..] == s;
      assert !Contains(s[1..], pattern) by {
        forall i | 0 <= i <= |s[1..]|
          ensures !StartsWith(s[1..][i..], pattern)
        {
          assert s[1..][i..] == s[i + 1..];
        }
      }
      RemoveAllWithoutOccurrence(s[1..], pattern);
      assert [s[0]] + s[1..] == s;
    }
  }

  /** Where the deletions happen: the text before the leftmost occurrence is
      kept as it is, that occurrence is deleted, and the scan resumes right
      after it. */
  lemma RemoveAllAtFirstOccurrence(s: string, pattern: string, i: nat)
    requires |pattern| > 0
    requires i <= |s| && StartsWith(s[i..], pattern)
    requires forall j {:trigger StartsWith(s[j..], pattern)} :: 0 <= j < i ==> !StartsWith(s[j..], pattern)
    ensures i + |pattern| <= |s|
    ensures RemoveAll(s, pattern) == s[..i] + RemoveAll(s[i + |pattern|..], pattern)
  {
    RemoveAllBetween(s, pattern, 0, i);
    assert s[0..] == s;
    assert s[0..i] == s[..i];
  }

  /** The scan from position `k` up to the leftmost occurrence at `i`. */
  lemma {:induction false} RemoveAllBetween(s: string, pattern: string, k: nat, i: nat)
    requires |pattern| > 0
    requires k <= i <= |s| && StartsWith(s[i..], pattern)
    requires forall j {:trigger StartsWith(s[j..], pattern)} :: k <= j < i ==> !StartsWith(s[j..], pattern)
    ensures i + |pattern| <= |s|
    ensures RemoveAll(s[k..], pattern) == s[k..i] + RemoveAll(s[i + |pattern|..], pattern)
    decreases i - k
  {
    if k == i {
      assert s[k..i] == [];
      assert s[i..][|pattern|..] == s[i + |pattern|..];
      RemoveAllOfEqual(s[i..][|pattern|..], s[i + |pattern|..], pattern);
    } else {
      assert !StartsWith(s[k..], pattern);
      RemoveAllKeepsNonMatch(s[k..], pattern);
      assert s[k..][1..] == s[k + 1..];
      RemoveAllBetween(s, pattern, k + 1, i);
      assert [s[k]] + s[k + 1..i] == s[k..i];
      KeptCharThenPrefix(RemoveAll(s[k..], pattern), RemoveAll(s[k + 1..], pattern), s[k], s[k + 1..i],
                         RemoveAll(s[i + |pattern|..], pattern), s[k..i]);
    }
  }

  lemma RemoveAllKeepsNonMatch(s: string, pattern: string)
    requires |pattern| > 0 && |s| > 0 && !StartsWith(s, pattern)
    ensures RemoveAll(s, pattern) == [s[0]] + RemoveAll(s[1..], pattern)
  {
  }

  /** A kept first character followed by the kept prefix of the rest is the
      kept prefix of the whole: the equation chain of the inductive step. */
  lemma KeptCharThenPrefix(x: string, y: string, c: char, a: string, r: string, prefix: string)
    requires x == [c] + y && y == a + r && [c] + a == prefix
    ensures x == prefix + r
  {
  }

  lemma RemoveAllOfEqual(a: string, b: string, pattern: string)
    requires |pattern| > 0 && a == b
    ensures RemoveAll(a, pattern) == RemoveAll(b, pattern)
  {
  }

  /** Every deletion removes a whole occurrence: the length shrinks by a
      multiple of the pattern's length. */
  lemma {:induction false} RemoveAllDeletesWholeOccurrences(s: string, pattern: string)
    requires |pattern| > 0
    ensures exists k: nat :: |s| - |RemoveAll(s, pattern)| == k * |pattern|
    decreases |s|
  {
    if |s| == 0 {
      assert |s| - |RemoveAll(s, pattern)| == 0 * |pattern|;
    } else if StartsWith(s, pattern) {
      RemoveAllDeletesWholeOccurrences(s[|pattern|..], pattern);
      var k: nat :| |s[|pattern|..]| - |RemoveAll(s[|pattern|..], pattern)| == k * |pattern|;
      assert |s| - |RemoveAll(s, pattern)| == (k + 1) * |pattern|;
    } else {
      RemoveAllDeletesWholeOccurrences(s[1..], pattern);
      var k: nat :| |s[1..]| - |RemoveAll(s[1..], pattern)| == k * |pattern|;
      assert |s| - |RemoveAll(s, pattern)| == k * |pattern|;
    }
  }

  /** A separator that does not occur in `pattern` is never consumed by
      `RemoveAll`, so the deletion works independently on both sides of it. */
  lemma {:induction false} RemoveAllAroundSeparator(a: string, c: char, b: string, pattern: string)
    requires |pattern| > 0
    requires c !in pattern
    ensures RemoveAll(a + [c] + b, pattern) == RemoveAll(a, pattern) + [c] + RemoveAll(b, pattern)
    decreases |a|
  {
    var s := a + [c] + b;
    if |a| == 0 {
      RemoveAllAtSeparator(c, b, pattern);
      assert s == [c] + b;
    } else if StartsWith(s, pattern) {
      MatchStaysLeftOfSeparator(a, c, b, pattern);
      RemoveAllAroundSeparator(a[|pattern|..], c, b, pattern);
    } else {
      NoMatchOnLeft(a, c, b, pattern);
      RemoveAllAroundSeparator(a[1..], c, b, pattern);
    }
  }

  lemma RemoveAllAtSeparator(c: char, b: string, pattern: string)
    requires |pattern| > 0
    requires c !in pattern
    ensures RemoveAll([c] + b, pattern) == [c] + RemoveAll(b, pattern)
  {
    var s := [c] + b;
    assert s[0] == c && pattern[0] != c;
    assert s[1..] == b;
  }

  lemma MatchStaysLeftOfSeparator(a: string, c: char, b: string, pattern: string)
    requires |pattern| > 0
    requires c !in pattern
    requires StartsWith(a + [c] + b, pattern)
    ensures StartsWith(a, pattern)
    ensures (a + [c] + b)[|pattern|..] == a[|pattern|..] + [c] + b
  {
    var s := a + [c] + b;
    assert s[|a|] == c;
    assert forall i :: 0 <= i < |pattern| ==> pattern[i] == s[i];
    assert |pattern| <= |a|;
    assert a[..|pattern|] == s[..|pattern|];
  }

  lemma NoMatchOnLeft(a: string, c: char, b: string, pattern: string)
    requires |pattern| > 0 && |a| > 0
    requires !StartsWith(a + [c] + b, pattern)
    ensures !StartsWith(a, pattern)
    ensures (a + [c] + b)[0] == a[0]
    ensures (a + [c] + b)[1..] == a[1..] + [c] + b
  {
    var s := a + [c] + b;
    if |pattern| <= |a| {
      assert s[..|pattern|] == a[..|pattern|];
    }
  }

  /** `s.Split(separator)`: the pieces between separators, empty pieces kept. */
  function Split(s: string, separator: char): (pieces: seq<string>)
    ensures |pieces| >= 1
  {
    if |s| == 0 then [[]]
    else if s[0] == separator then [[]] + Split(s[1..], separator)
    else
      var rest := Split(s[1..], separator);
      [[s[0]] + rest[0]] + rest[1..]
  }

  /** `string.Join(separator, pieces)`. */
  function Join(pieces: seq<string>, separator: char): string
    requires |pieces| >= 1
  {
    if |pieces| == 1 then pieces[0]
    else pieces[0] + [separator] + Join(pieces[1..], separator)
  }

  /** Splitting a piece without the separator, followed by more text, yields
      that piece first. */
  lemma {:induction false} SplitAfterPiece(piece: string, separator: char, rest: string)
    requires separator !in piece
    ensures Split(piece + [separator] + rest, separator) == [piece] + Split(rest, separator)
    decreases |piece|
  {
    if |piece| == 0 {
      assert piece + [separator] + rest == [separator] + rest;
      assert ([separator] + rest)[1..] == rest;
    } else {
      var s := piece + [separator] + rest;
      assert s[1..] == piece[1..] + [separator] + rest;
      SplitAfterPiece(piece[1..], separator, rest);
      assert [piece[0]] + piece[1..] == piece;
    }
  }

  /** A piece without the separator splits to itself. */
  lemma {:induction false} SplitWithoutSeparator(piece: string, separator: char)
    requires separator !in piece
    ensures Split(piece, separator) == [piece]
    decreases |piece|
  {
    if |piece| > 0 {
      SplitWithoutSeparator(piece[1..], separator);
      assert [piece[0]] + piece[1..] == piece;
    }
  }

  /** Joining pieces that do not contain the separator and splitting again
      gives the pieces back. */
  lemma {:induction false} SplitJoin(pieces: seq<string>, separator: char)
    requires |pieces| >= 1
    requires forall i :: 0 <= i < |pieces| ==> separator !in pieces[i]
    ensures Split(Join(pieces, separator), separator) == pieces
    decreases |pieces|
  {
    if |pieces| == 1 {
      SplitWithoutSeparator(pieces[0], separator);
    } else {
      SplitJoin(pieces[1..], separator);
      SplitAfterPiece(pieces[0], separator, Join(pieces[1..], separator));
      assert [pieces[0]] + pieces[1..] == pieces;
    }
  }

  predicate IsDigit(c: char) {
    '0' <= c <= '9'
  }

  function DigitChar(d: nat): (c: char)
    requires d < 10
    ensures IsDigit(c)
  {
    ('0' as int + d) as char
  }

  function DigitValue(c: char): (d: nat)
    requires IsDigit(c)
    ensures d < 10
  {
    c as int - '0' as int
  }

  /** The decimal digits of `n`, most significant first, without leading zeros. */
  function NatToDigits(n: nat): (r: string)
    ensures |r| >= 1
    ensures forall i :: 0 <= i < |r| ==> IsDigit(r[i])
    ensures |r| > 1 ==> r[0] != '0'
  {
    if n < 10 then [DigitChar(n)] else NatToDigits(n / 10) + [DigitChar(n % 10)]
  }

  /** `long.ToString()` with the invariant culture's minus sign. */
  function IntToString(n: int): (r: string)
    ensures |r| >= 1
  {
    if n < 0 then "-" + NatToDigits(-n) else NatToDigits(n)
  }

  /** Reads back a run of decimal digits. */
  function DigitsToNat(s: string): nat
    requires forall i :: 0 <= i < |s| ==> IsDigit(s[i])
  {
    if |s| == 0 then 0 else DigitsToNat(s[..|s| - 1]) * 10 + DigitValue(s[|s| - 1])
  }

  /** Text shaped like a rendered integer: an optional minus sign, then digits. */
  predicate IsNumberText(s: string) {
    && |s| >= 1
    && (s[0] == '-' || IsDigit(s[0]))
    && (forall i :: 1 <= i < |s| ==> IsDigit(s[i]))
  }

  /** Reads back an optionally negative decimal number. */
  function StringToInt(s: string): int
    requires IsNumberText(s)
  {
    if s[0] == '-' then -(DigitsToNat(s[1..]) as int) else DigitsToNat(s)
  }

  lemma {:induction false} DigitsRoundTrip(n: nat)
    ensures DigitsToNat(NatToDigits(n)) == n
  {
    var r := NatToDigits(n);
    if n >= 10 {
      var q, d := n / 10, n % 10;
      DigitsRoundTrip(q);
      assert r == NatToDigits(q) + [DigitChar(d)];
      assert r[..|r| - 1] == NatToDigits(q);
      assert DigitValue(r[|r| - 1]) == d;
      assert n == q * 10 + d;
    } else {
      assert r == [DigitChar(n)];
      assert r[..0] == [];
    }
  }

  /** The rendering of an integer is read back as the same integer. */
  lemma IntToStringRoundTrip(n: int)
    ensures IsNumberText(IntToString(n))
    ensures StringToInt(IntToString(n)) == n
  {
    var s := IntToString(n);
    if n < 0 {
      var digits := NatToDigits(-n);
      assert s == ['-'] + digits;
      assert s[1..] == digits;
      forall i | 1 <= i < |s| ensures IsDigit(s[i]) {
        assert s[i] == digits[i - 1];
      }
      DigitsRoundTrip(-n);
    } else {
      DigitsRoundTrip(n);
    }
  }
}
