/**
 * The JavaScript string operations the lyrics pipeline relies on, written
 * out: `String.prototype.split` with a non-empty separator, `Array.join`,
 * `trim` and its whitespace set (shared with the regular-expression class
 * `\s`), the digit class `\d`, and the decimal rendering of a number in a
 * template literal.
 */
module Text {

  /** The line separator the lyrics and the service reply are split on. */
  const Newline: string := "\n"

  /** ECMAScript WhiteSpace and LineTerminator code points: what `trim` removes and `\s` matches. */
  const WhitespaceChars: set<char> := {
    '\t', '\n', '\U{0B}', '\U{0C}', '\r', ' ', '\U{A0}', '\U{1680}',
    '\U{2000}', '\U{2001}', '\U{2002}', '\U{2003}', '\U{2004}', '\U{2005}',
    '\U{2006}', '\U{2007}', '\U{2008}', '\U{2009}', '\U{200A}',
    '\U{2028}', '\U{2029}', '\U{202F}', '\U{205F}', '\U{3000}', '\U{FEFF}'
  }

  predicate IsWhitespace(c: char) {
    c in WhitespaceChars
  }

  /** The class `\d`: ASCII digits only. */
  predicate IsDigit(c: char) {
    '0' <= c <= '9'
  }

  // ---------------------------------------------------------------------
  // Occurrences, split and join
  // ---------------------------------------------------------------------

  predicate OccursAt(s: string, sep: string, i: nat)
    requires i + |sep| <= |s|
  {
    s[i..i + |sep|] == sep
  }

  /** `s.includes(sep)` */
  predicate Contains(s: string, sep: string) {
    exists i: nat :: i + |sep| <= |s| && OccursAt(s, sep, i)
  }

  /**
   * `s.split(sep)` for a non-empty separator: scanning left to right, every
   * occurrence that does not overlap an earlier cut is a cut; the pieces
   * between the cuts are the result, so there is always at least one.
   */
  function Split(s: string, sep: string): (r: seq<string>)
    requires |sep| > 0
    ensures |r| >= 1
    decreases |s|
  {
    if |s| < |sep| then [s]
    else if s[..|sep|] == sep then [""] + Split(s[|sep|..], sep)
    else
      var rest := Split(s[1..], sep);
      [[s[0]] + rest[0]] + rest[1..]
  }

  /** The first piece of a split is a prefix of the string. */
  lemma {:induction false} SplitFirstPrefix(s: string, sep: string)
    requires |sep| > 0
    ensures Split(s, sep)[0] <= s
    decreases |s|
  {
    if |s| >= |sep| && s[..|sep|] != sep {
      SplitFirstPrefix(s[1..], sep);
      assert s == [s[0]] + s[1..];
    }
  }

  /** No piece of a split contains the separator: every occurrence was a cut. */
  lemma {:induction false} SplitPiecesFree(s: string, sep: string)
    requires |sep| > 0
    ensures forall j :: 0 <= j < |Split(s, sep)| ==> !Contains(Split(s, sep)[j], sep)
    decreases |s|
  {
    if |s| < |sep| {
    } else if s[..|sep|] == sep {
      SplitPiecesFree(s[|sep|..], sep);
    } else {
      var rest := Split(s[1..], sep);
      SplitPiecesFree(s[1..], sep);
      SplitFirstPrefix(s[1..], sep);
      FirstPieceFree(s, sep, rest[0]);
    }
  }

  /** A first piece that starts with s[0], where no cut is made, is free of the separator when the rest of it is. */
  lemma FirstPieceFree(s: string, sep: string, tail: string)
    requires |sep| > 0 && |s| >= |sep| && s[..|sep|] != sep
    requires tail <= s[1..] && !Contains(tail, sep)
    ensures !Contains([s[0]] + tail, sep)
  {
    var piece := [s[0]] + tail;
    forall i: nat | i + |sep| <= |piece|
      ensures !OccursAt(piece, sep, i)
    {
      if i == 0 {
        assert piece[..|sep|] == s[..|sep|];
      } else {
        assert piece[i..i + |sep|] == tail[i - 1..i - 1 + |sep|];
        assert !OccursAt(tail, sep, i - 1);
      }
    }
  }

  /** `parts.join(sep)`: the first part, then each further part after one separator. */
  function Join(parts: seq<string>, sep: string): (r: string)
    decreases |parts|
  {
    if |parts| == 0 then ""
    else if |parts| == 1 then parts[0]
    else parts[0] + sep + Join(parts[1..], sep)
  }

  /** Joining the pieces of a split gives back the original string. */
  lemma {:induction false} JoinSplit(s: string, sep: string)
    requires |sep| > 0
    ensures Join(Split(s, sep), sep) == s
    decreases |s|
  {
    if |s| < |sep| {
    } else if s[..|sep|] == sep {
      var t := s[|sep|..];
      JoinSplit(t, sep);
      JoinAfterEmpty(Split(t, sep), sep);
      assert s == sep + t;
    } else {
      var t := s[1..];
      JoinSplit(t, sep);
      JoinExtendFirst(s[0], Split(t, sep), sep);
      assert s == [s[0]] + t;
    }
  }

  lemma JoinAfterEmpty(rest: seq<string>, sep: string)
    requires |rest| >= 1
    ensures Join([""] + rest, sep) == sep + Join(rest, sep)
  {
    assert ([""] + rest)[1..] == rest;
  }

  lemma JoinExtendFirst(c: char, rest: seq<string>, sep: string)
    requires |rest| >= 1
    ensures Join([[c] + rest[0]] + rest[1..], sep) == [c] + Join(rest, sep)
  {
    var r := [[c] + rest[0]] + rest[1..];
    if |rest| > 1 {
      assert r[1..] == rest[1..];
    }
  }

  /** Appending one element to the joined list adds it after one separator. */
  lemma {:induction false} JoinSnoc(parts: seq<string>, last: string, sep: string)
    ensures Join(parts + [last], sep) == if |parts| == 0 then last else Join(parts, sep) + sep + last
    decreases |parts|
  {
    if |parts| == 0 {
      assert parts + [last] == [last];
    } else if |parts| == 1 {
      assert (parts + [last])[1..] == [last];
    } else {
      assert (parts + [last])[1..] == parts[1..] + [last];
      JoinSnoc(parts[1..], last, sep);
    }
  }

  /** A string without any occurrence of the separator splits into itself. */
  lemma {:induction false} SplitWithoutSeparator(s: string, sep: string)
    requires |sep| > 0
    requires !Contains(s, sep)
    ensures Split(s, sep) == [s]
    decreases |s|
  {
    if |s| < |sep| {
    } else {
      assert !OccursAt(s, sep, 0);
      assert !Contains(s[1..], sep) by {
        forall i: nat | i + |sep| <= |s[1..]|
          ensures !OccursAt(s[1..], sep, i)
        {
          assert s[1..][i..i + |sep|] == s[i + 1..i + 1 + |sep|];
          assert !OccursAt(s, sep, i + 1);
        }
      }
      SplitWithoutSeparator(s[1..], sep);
      assert s == [s[0]] + s[1..];
    }
  }

  /** A piece free of a one-character separator, followed by it, is cut off as the first piece. */
  lemma {:induction false} SplitAfterPiece(piece: string, rest: string, c: char)
    requires c !in piece
    ensures Split(piece + [c] + rest, [c]) == [piece] + Split(rest, [c])
    decreases |piece|
  {
    var s := piece + [c] + rest;
    if |piece| == 0 {
      assert s[..1] == [c];
      assert s[1..] == rest;
    } else {
      assert s[..1] != [c] by { assert s[0] == piece[0]; }
      assert s[1..] == piece[1..] + [c] + rest;
      SplitAfterPiece(piece[1..], rest, c);
      assert piece == [piece[0]] + piece[1..];
    }
  }

  /** Splitting on a one-character separator undoes a join whose parts do not contain it. */
  lemma {:induction false} SplitJoin(parts: seq<string>, c: char)
    requires |parts| >= 1
    requires forall i :: 0 <= i < |parts| ==> c !in parts[i]
    ensures Split(Join(parts, [c]), [c]) == parts
    decreases |parts|
  {
    if |parts| == 1 {
      forall i: nat | i + 1 <= |parts[0]|
        ensures !OccursAt(parts[0], [c], i)
      {
        assert parts[0][i..i + 1] == [parts[0][i]];
      }
      SplitWithoutSeparator(parts[0], [c]);
    } else {
      SplitJoin(parts[1..], c);
      assert Join(parts, [c]) == parts[0] + [c] + Join(parts[1..], [c]);
      SplitAfterPiece(parts[0], Join(parts[1..], [c]), c);
      assert parts == [parts[0]] + parts[1..];
    }
  }

  /** A string without a newline is one line. */
  lemma NoNewlineSplit(s: string)
    requires '\n' !in s
    ensures Split(s, Newline) == [s]
  {
    assert Newline == ['\n'];
    SplitJoin([s], '\n');
  }

  // ---------------------------------------------------------------------
  // trim
  // ---------------------------------------------------------------------

  /** Drops leading whitespace: what is removed is all whitespace, what is kept does not start with it. */
  function TrimStart(s: string): (r: string)
    ensures |r| <= |s| && r == s[|s| - |r|..]
    ensures forall i :: 0 <= i < |s| - |r| ==> IsWhitespace(s[i])
    ensures r == [] || !IsWhitespace(r[0])
    decreases |s|
  {
    if |s| > 0 && IsWhitespace(s[0]) then
      var r := TrimStart(s[1..]);
      assert s[1..][|s| - 1 - |r|..] == s[|s| - |r|..];
      r
    else s
  }

  /** Drops trailing whitespace: what is removed is all whitespace, what is kept does not end with it. */
  function TrimEnd(s: string): (r: string)
    ensures |r| <= |s| && r == s[..|r|]
    ensures forall i :: |r| <= i < |s| ==> IsWhitespace(s[i])
    ensures r == [] || !IsWhitespace(r[|r| - 1])
    decreases |s|
  {
    if |s| > 0 && IsWhitespace(s[|s| - 1]) then TrimEnd(s[..|s| - 1]) else s
  }

  /** `s.trim()` */
  function Trim(s: string): string {
    TrimEnd(TrimStart(s))
  }

  /** A string with no whitespace at either end. */
  predicate IsTrimmed(s: string) {
    s == [] || (!IsWhitespace(s[0]) && !IsWhitespace(s[|s| - 1]))
  }

  /** Every character is whitespace (the empty string included). */
  predicate IsBlank(s: string) {
    forall i :: 0 <= i < |s| ==> IsWhitespace(s[i])
  }

  /** `trim` yields a trimmed string and leaves a trimmed one alone. */
  lemma TrimIsTrimmed(s: string)
    ensures IsTrimmed(Trim(s))
    ensures IsTrimmed(s) ==> Trim(s) == s
  {
    var t := TrimStart(s);
    var r := TrimEnd(t);
    if r != [] {
      assert r[0] == t[0];
    }
    if IsTrimmed(s) && s != [] {
      assert t == s;
    }
  }

  /** `trim` empties exactly the blank strings: this is the truth test `line.trim()` of a filter. */
  lemma TrimEmptyIffBlank(s: string)
    ensures Trim(s) == [] <==> IsBlank(s)
  {
    var t := TrimStart(s);
    if Trim(s) == [] {
      forall i | 0 <= i < |s| ensures IsWhitespace(s[i]) {
        if i >= |s| - |t| {
          assert s[i] == t[i - (|s| - |t|)];
        }
      }
    }
    if IsBlank(s) {
      TrimStartOfBlank(s);
    }
  }

  /** `trimStart` removes the whole of a blank string. */
  lemma {:induction false} TrimStartOfBlank(s: string)
    requires IsBlank(s)
    ensures TrimStart(s) == []
    decreases |s|
  {
    if |s| > 0 {
      assert IsWhitespace(s[0]);
      TrimStartOfBlank(s[1..]);
    }
  }

  /** `trimStart` removes a blank prefix and stops at the first character that is not whitespace. */
  lemma {:induction false} TrimStartAfterBlank(w: string, rest: string)
    requires IsBlank(w)
    requires rest == [] || !IsWhitespace(rest[0])
    ensures TrimStart(w + rest) == rest
    decreases |w|
  {
    if |w| > 0 {
      assert (w + rest)[0] == w[0];
      assert (w + rest)[1..] == w[1..] + rest;
      TrimStartAfterBlank(w[1..], rest);
    } else {
      assert w + rest == rest;
    }
  }

  /** Every piece of a blank string is blank. */
  lemma {:induction false} SplitBlank(s: string, sep: string)
    requires |sep| > 0 && IsBlank(s)
    ensures forall j :: 0 <= j < |Split(s, sep)| ==> IsBlank(Split(s, sep)[j])
    decreases |s|
  {
    if |s| < |sep| {
    } else if s[..|sep|] == sep {
      SplitBlank(s[|sep|..], sep);
    } else {
      SplitBlank(s[1..], sep);
    }
  }

  /** Blank parts joined with a blank separator give a blank string. */
  lemma {:induction false} JoinBlank(parts: seq<string>, sep: string)
    requires IsBlank(sep)
    requires forall j :: 0 <= j < |parts| ==> IsBlank(parts[j])
    ensures IsBlank(Join(parts, sep))
    decreases |parts|
  {
    if |parts| > 1 {
      JoinBlank(parts[1..], sep);
    }
  }

  // ---------------------------------------------------------------------
  // Decimal numbers
  // ---------------------------------------------------------------------

  function DigitChar(d: nat): (c: char)
    requires d < 10
    ensures IsDigit(c) && c as int - '0' as int == d
  {
    ('0' as int + d) as char
  }

  /** The decimal rendering of a natural number in a template literal: digits only, no leading zero. */
  function NatToString(n: nat): (r: string)
    ensures |r| >= 1
    ensures forall i :: 0 <= i < |r| ==> IsDigit(r[i])
    ensures r[0] == '0' ==> n == 0
    decreases n
  {
    if n < 10 then [DigitChar(n)] else NatToString(n / 10) + [DigitChar(n % 10)]
  }

  function DigitValue(c: char): (d: nat)
    requires IsDigit(c)
    ensures d < 10
  {
    c as int - '0' as int
  }

  /** The number a string of digits denotes. */
  function DecimalValue(s: string): nat
    requires forall i :: 0 <= i < |s| ==> IsDigit(s[i])
    decreases |s|
  {
    if |s| == 0 then 0 else DecimalValue(s[..|s| - 1]) * 10 + DigitValue(s[|s| - 1])
  }

  /** Reading the rendering back gives the number. */
  lemma {:induction false} DecimalRoundTrip(n: nat)
    ensures DecimalValue(NatToString(n)) == n
    decreases n
  {
    var r := NatToString(n);
    if n >= 10 {
      DecimalRoundTrip(n / 10);
      assert r[..|r| - 1] == NatToString(n / 10);
    }
  }

  /** Drops the leading run of digits: what is removed is all digits, what is kept does not start with one. */
  function SkipDigits(s: string): (r: string)
    ensures |r| <= |s| && r == s[|s| - |r|..]
    ensures forall i :: 0 <= i < |s| - |r| ==> IsDigit(s[i])
    ensures r == [] || !IsDigit(r[0])
    decreases |s|
  {
    if |s| > 0 && IsDigit(s[0]) then SkipDigits(s[1..]) else s
  }

  /** Digits followed by something that is not a digit: the run skipped is exactly the digits. */
  lemma {:induction false} SkipDigitsPrefix(digits: string, rest: string)
    requires forall i :: 0 <= i < |digits| ==> IsDigit(digits[i])
    requires rest == [] || !IsDigit(rest[0])
    ensures SkipDigits(digits + rest) == rest
    decreases |digits|
  {
    if |digits| > 0 {
      assert (digits + rest)[1..] == digits[1..] + rest;
      SkipDigitsPrefix(digits[1..], rest);
    } else {
      assert digits + rest == rest;
    }
  }
}
