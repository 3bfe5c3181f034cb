/**
 * The language-model path of `splitLyricsWithGemini`: the service's reply
 * is cut into lines, blank lines are dropped, one leading enumeration
 * (`^\d+[.)\-]?\s*`) is stripped from each line and the line is trimmed;
 * the result is used only when it has exactly N parts. Otherwise, and
 * whenever the service is known to be down or the call fails, the
 * deterministic partition of the Fallback module is used.
 *
 * The service itself is not modelled: its reply is an input, `None` when
 * the call threw.
 */
module Gemini {
  import opened Wrappers
  import opened Text
  import opened Fallback

  /** The result of the start-up probe of the service: '테스트중', '성공' or '실패'. */
  datatype ApiStatus = Testing | Succeeded | Failed

  /** Why the deterministic partition was used instead of the reply. */
  datatype FallbackReason =
    | Unavailable    // the start-up probe failed
    | CallFailed     // the request threw
    | CountMismatch  // the reply did not have exactly N parts

  /** The slides and where they came from. */
  datatype Partition =
    | FromService(parts: seq<string>)
    | FromFallback(parts: seq<string>, reason: FallbackReason)

  // ---------------------------------------------------------------------
  // Parsing the reply
  // ---------------------------------------------------------------------

  /** The characters the optional `[.)\-]` of the enumeration pattern accepts. */
  predicate IsEnumerationMark(c: char) {
    c == '.' || c == ')' || c == '-'
  }

  /**
   * Replacing the pattern `^\d+[.)\-]?\s*` with nothing: a line starting with a digit loses
   * its digits, then at most one of `.`, `)` and `-`, then the whitespace
   * that follows; any other line is left alone.
   */
  function StripEnumeration(s: string): (r: string)
    ensures |r| <= |s| && r == s[|s| - |r|..]
    ensures s == [] || !IsDigit(s[0]) ==> r == s
    ensures s != [] && IsDigit(s[0]) ==> |r| < |s| && (r == [] || !IsWhitespace(r[0]))
  {
    if |s| > 0 && IsDigit(s[0]) then
      var afterDigits := SkipDigits(s);
      var afterMark :=
        if |afterDigits| > 0 && IsEnumerationMark(afterDigits[0]) then afterDigits[1..] else afterDigits;
      TrimStart(afterMark)
    else
      s
  }

  /** One kept line of the reply after the enumeration is stripped and the line trimmed. */
  function CleanPart(line: string): (part: string)
    ensures IsTrimmed(part)
  {
    TrimIsTrimmed(StripEnumeration(line));
    Trim(StripEnumeration(line))
  }

  /** `text.split('\n').filter(line => line.trim()).map(part => part.replace(…).trim())` */
  function ParseResponse(text: string): (parts: seq<string>)
    ensures |parts| == |KeepNonBlank(Split(text, Newline))|
    ensures forall j :: 0 <= j < |parts| ==> IsTrimmed(parts[j])
  {
    var kept := KeepNonBlank(Split(text, Newline));
    seq(|kept|, j requires 0 <= j < |kept| => CleanPart(kept[j]))
  }

  /** A trimmed line that does not start with a digit is taken as it is. */
  lemma CleanPlainLine(line: string)
    requires IsTrimmed(line)
    requires line == [] || !IsDigit(line[0])
    ensures CleanPart(line) == line
  {
    TrimIsTrimmed(line);
  }

  /** `k. ` in front of a trimmed part is removed again, whatever the part starts with. */
  lemma CleanNumberedLine(k: nat, part: string)
    requires IsTrimmed(part)
    ensures CleanPart(NatToString(k) + ". " + part) == part
  {
    var digits := NatToString(k);
    var tail := ". " + part;
    assert digits + ". " + part == digits + tail;
    StripNumbered(digits, tail, part);
    TrimIsTrimmed(part);
  }

  /**
   * The whole of what `^\d+[.)\-]?\s*` matches is removed: a digit run, an
   * optional mark, then a whitespace run, up to the first character of
   * `rest` that is not whitespace. Without mark and whitespace, `rest` must
   * not continue the digit run or supply the mark itself.
   */
  lemma EnumerationIsStripped(digits: string, mark: string, space: string, rest: string)
    requires |digits| >= 1 && forall i :: 0 <= i < |digits| ==> IsDigit(digits[i])
    requires mark == [] || (|mark| == 1 && IsEnumerationMark(mark[0]))
    requires IsBlank(space)
    requires rest == [] || !IsWhitespace(rest[0])
    requires mark == [] && space == [] && rest != [] ==> !IsDigit(rest[0]) && !IsEnumerationMark(rest[0])
    ensures StripEnumeration(digits + mark + space + rest) == rest
  {
    var line := digits + mark + space + rest;
    var tail := mark + space + rest;
    assert line == digits + tail;
    assert IsDigit(line[0]) by { assert line[0] == digits[0]; }
    var afterMark := space + rest;
    if mark != [] {
      assert tail[0] == mark[0] && tail[1..] == afterMark;
      SkipDigitsPrefix(digits, tail);
    } else {
      assert tail == afterMark;
      assert afterMark == [] || (!IsDigit(afterMark[0]) && !IsEnumerationMark(afterMark[0])) by {
        if space != [] { assert afterMark[0] == space[0]; }
      }
      SkipDigitsPrefix(digits, tail);
    }
    TrimStartAfterBlank(space, rest);
  }

  /** `k. ` in the form the prompt asks for: the special case with mark `.` and one space. */
  lemma StripNumbered(digits: string, tail: string, part: string)
    requires |digits| >= 1 && forall i :: 0 <= i < |digits| ==> IsDigit(digits[i])
    requires IsTrimmed(part) && tail == ". " + part
    ensures StripEnumeration(digits + tail) == part
  {
    assert digits + tail == digits + "." + " " + part;
    EnumerationIsStripped(digits, ".", " ", part);
  }

  // ---------------------------------------------------------------------
  // Replies and what the parser makes of them
  // ---------------------------------------------------------------------

  /** A part that fits on one line of a reply and passes the parser unchanged when unnumbered. */
  predicate IsReplyPart(part: string) {
    part != [] && IsTrimmed(part) && '\n' !in part && !IsDigit(part[0])
  }

  /** The reply the prompt asks for: one part per line, no numbers. */
  function PlainReply(parts: seq<string>): string {
    Join(parts, Newline)
  }

  /** A numbered reply, "1. first\n2. second…", as the service often writes despite the prompt. */
  function NumberedReply(parts: seq<string>): string {
    Join(Numbered(parts, 1), Newline)
  }

  function Numbered(parts: seq<string>, first: nat): (lines: seq<string>)
    ensures |lines| == |parts|
    decreases |parts|
  {
    if |parts| == 0 then []
    else [NatToString(first) + ". " + parts[0]] + Numbered(parts[1..], first + 1)
  }

  lemma {:induction false} NumberedAt(parts: seq<string>, first: nat, j: nat)
    requires j < |parts|
    ensures Numbered(parts, first)[j] == NatToString(first + j) + ". " + parts[j]
    decreases j
  {
    if j > 0 {
      NumberedAt(parts[1..], first + 1, j - 1);
    }
  }

  /** Parsing a reply whose lines all have content cleans each line and keeps them all. */
  lemma ParseAllKept(lines: seq<string>)
    requires |lines| >= 1
    requires forall j :: 0 <= j < |lines| ==> HasContent(lines[j]) && '\n' !in lines[j]
    ensures var parts := ParseResponse(Join(lines, Newline));
      |parts| == |lines| && forall j :: 0 <= j < |lines| ==> parts[j] == CleanPart(lines[j])
  {
    SplitJoin(lines, '\n');
    KeepAllWithContent(lines);
  }

  /** A reply written as the prompt asks is read back part for part. */
  lemma PlainReplyRoundTrip(parts: seq<string>)
    requires |parts| >= 1
    requires forall j :: 0 <= j < |parts| ==> IsReplyPart(parts[j])
    ensures ParseResponse(PlainReply(parts)) == parts
  {
    forall j | 0 <= j < |parts|
      ensures HasContent(parts[j])
    {
      SolidStartHasContent(parts[j]);
    }
    ParseAllKept(parts);
    forall j | 0 <= j < |parts|
      ensures ParseResponse(PlainReply(parts))[j] == parts[j]
    {
      CleanPlainLine(parts[j]);
    }
  }

  /** A numbered reply is read back part for part: the numbers are stripped, nothing else is lost. */
  lemma NumberedReplyRoundTrip(parts: seq<string>)
    requires |parts| >= 1
    requires forall j :: 0 <= j < |parts| ==> IsTrimmed(parts[j]) && '\n' !in parts[j]
    ensures ParseResponse(NumberedReply(parts)) == parts
  {
    var lines := Numbered(parts, 1);
    forall j | 0 <= j < |lines|
      ensures HasContent(lines[j]) && '\n' !in lines[j] && CleanPart(lines[j]) == parts[j]
    {
      NumberedAt(parts, 1, j);
      NumberedLineClean(1 + j, parts[j], lines[j]);
    }
    ParseAllKept(lines);
    CleanedAll(ParseResponse(NumberedReply(parts)), lines, parts);
  }

  /** Two lists that agree entry by entry are equal; stated over plain lists so the solver does not unfold the parser here. */
  lemma CleanedAll(parsed: seq<string>, lines: seq<string>, parts: seq<string>)
    requires |parsed| == |lines| == |parts|
    requires forall j :: 0 <= j < |lines| ==> parsed[j] == CleanPart(lines[j])
    requires forall j :: 0 <= j < |lines| ==> CleanPart(lines[j]) == parts[j]
    ensures parsed == parts
  {
  }

  /** One numbered line has content, stays on one line and is cleaned back to its part. */
  lemma NumberedLineClean(k: nat, part: string, line: string)
    requires IsTrimmed(part) && '\n' !in part
    requires line == NatToString(k) + ". " + part
    ensures HasContent(line) && '\n' !in line && CleanPart(line) == part
  {
    var digits := NatToString(k);
    assert line[0] == digits[0];
    SolidStartHasContent(line);
    assert '\n' !in line by {
      forall i | 0 <= i < |line|
        ensures line[i] != '\n'
      {
        if i >= |digits| + 2 {
          assert line[i] == part[i - |digits| - 2];
        } else if i >= |digits| {
          assert line[i] == ". "[i - |digits|];
        } else {
          assert line[i] == digits[i];
        }
      }
    }
    CleanNumberedLine(k, part);
  }

  /** A line holding only a number and a mark passes the blank-line filter and becomes an empty part. */
  lemma NumberOnlyLineGivesEmptyPart(k: nat)
    ensures ParseResponse(NatToString(k) + ".") == [""]
  {
    var digits := NatToString(k);
    var line := digits + ".";
    assert KeepNonBlank(Split(line, Newline)) == [line] by {
      NumberOnlyLineKept(digits, line);
    }
    assert CleanPart(line) == "" by {
      NumberOnlyLineCleaned(digits, line);
    }
    assert ParseResponse(line) == [CleanPart(line)];
  }

  lemma NumberOnlyLineKept(digits: string, line: string)
    requires |digits| >= 1 && forall i :: 0 <= i < |digits| ==> IsDigit(digits[i])
    requires line == digits + "."
    ensures KeepNonBlank(Split(line, Newline)) == [line]
  {
    assert '\n' !in line by {
      forall i | 0 <= i < |line|
        ensures line[i] != '\n'
      {
        if i < |digits| {
          assert line[i] == digits[i];
        }
      }
    }
    NoNewlineSplit(line);
    assert line[0] == digits[0];
    SolidStartHasContent(line);
    KeepAllWithContent([line]);
  }

  lemma NumberOnlyLineCleaned(digits: string, line: string)
    requires |digits| >= 1 && forall i :: 0 <= i < |digits| ==> IsDigit(digits[i])
    requires line == digits + "."
    ensures CleanPart(line) == ""
  {
    assert line[0] == digits[0];
    SkipDigitsPrefix(digits, ".");
    assert "."[1..] == "";
  }

  /** Digits and a space before a trimmed part are stripped, even when they belong to the lyrics. */
  lemma NumberBeforePartIsStripped(digits: string, part: string)
    requires |digits| >= 1 && forall i :: 0 <= i < |digits| ==> IsDigit(digits[i])
    requires IsTrimmed(part)
    ensures CleanPart(digits + " " + part) == part
  {
    assert digits + " " + part == digits + "" + " " + part;
    EnumerationIsStripped(digits, "", " ", part);
    TrimIsTrimmed(part);
  }

  /** A lyric part that starts with a number loses it: "99 Luftballons" is read as "Luftballons". */
  lemma LeadingNumberIsStripped(line: string, part: string)
    requires line == "99 Luftballons" && part == "Luftballons"
    ensures CleanPart(line) == part
  {
    assert IsTrimmed(part) by {
      assert part[0] == 'L' && part[|part| - 1] == 's';
    }
    assert line == "99" + " " + part;
    NumberBeforePartIsStripped("99", part);
  }

  // ---------------------------------------------------------------------
  // The count gate
  // ---------------------------------------------------------------------

  /**
   * What `splitLyricsWithGemini(lyrics)` returns with N slides requested:
   * the parsed reply when the service is not known to be down, the call
   * succeeded and the reply has exactly N parts; the deterministic
   * partition otherwise. Either way there are exactly N slides.
   */
  function PartitionLyrics(lyrics: string, n: nat, status: ApiStatus, reply: Option<string>): (p: Partition)
    requires 1 <= n
    ensures |p.parts| == n
    ensures p.FromService? <==> status != Failed && reply.Some? && |ParseResponse(reply.value)| == n
    ensures p.FromService? ==> p.parts == ParseResponse(reply.value)
    ensures p.FromFallback? ==> p.parts == FallbackSplit(lyrics, n)
    ensures p.FromFallback? ==>
      p.reason == (if status == Failed then Unavailable else if reply.None? then CallFailed else CountMismatch)
  {
    if status == Failed then
      FromFallback(FallbackSplit(lyrics, n), Unavailable)
    else
      match reply
      case None => FromFallback(FallbackSplit(lyrics, n), CallFailed)
      case Some(text) =>
        var parts := ParseResponse(text);
        if |parts| != n then FromFallback(FallbackSplit(lyrics, n), CountMismatch)
        else FromService(parts)
  }

  /** A reply in the format the prompt asks for, with N parts, is used as it is. */
  lemma HonouringReplyIsUsed(lyrics: string, status: ApiStatus, parts: seq<string>)
    requires status != Failed && |parts| >= 1
    requires forall j :: 0 <= j < |parts| ==> IsReplyPart(parts[j])
    ensures PartitionLyrics(lyrics, |parts|, status, Some(PlainReply(parts))) == FromService(parts)
  {
    PlainReplyRoundTrip(parts);
  }

  /** A reply with one part too many is rejected and the deterministic partition used. */
  lemma ExtraPartFallsBack(lyrics: string, status: ApiStatus, parts: seq<string>)
    requires status != Failed && |parts| >= 2
    requires forall j :: 0 <= j < |parts| ==> IsReplyPart(parts[j])
    ensures PartitionLyrics(lyrics, |parts| - 1, status, Some(PlainReply(parts)))
      == FromFallback(FallbackSplit(lyrics, |parts| - 1), CountMismatch)
  {
    PlainReplyRoundTrip(parts);
  }

  /** `splitLyricsWithGemini(lyrics)` with the service's answer given as `reply`. */
  method SplitLyricsWithGemini(lyrics: string, n: nat, status: ApiStatus, reply: Option<string>)
    returns (parts: seq<string>)
    requires 1 <= n
    ensures parts == PartitionLyrics(lyrics, n, status, reply).parts
    ensures |parts| == n
  {
    if status == Failed {
      parts := FallbackSplitLyrics(lyrics, n);
      return;
    }
    match reply {
      case None =>
        parts := FallbackSplitLyrics(lyrics, n);
      case Some(text) =>
        parts := ParseResponse(text);
        if |parts| != n {
          parts := FallbackSplitLyrics(lyrics, n);
        }
    }
  }
}
