/**
 * The Marp document `generatePPT` builds: a fixed front matter with the
 * style sheet, a title slide carrying the title and the artist verbatim,
 * then one slide per lyric part, numbered from 1, each closed by a slide
 * break. The method AssembleMarp appends the slides one by one as the
 * source's `forEach` does and is proved to build MarpDocument.
 */
module Marp {
  import opened Wrappers
  import opened Text

  /** The front matter and style sheet, up to where the title is interpolated. */
  const FrontMatter: string :=
    "---\n" +
    "marp: true\n" +
    "theme: default\n" +
    "paginate: false\n" +
    "size: 16:9\n" +
    "style: |\n" +
    "  .lyrics {\n" +
    "    position: absolute;\n" +
    "    bottom: 50px;\n" +
    "    left: 0;\n" +
    "    right: 0;\n" +
    "    text-align: center;\n" +
    "    font-size: 36px;\n" +
    "    font-weight: bold;\n" +
    "    color: #333;\n" +
    "  }\n" +
    "  .slide-number {\n" +
    "    position: absolute;\n" +
    "    bottom: 20px;\n" +
    "    right: 20px;\n" +
    "    font-size: 14px;\n" +
    "    color: #888;\n" +
    "  }\n" +
    "  section {\n" +
    "    background-color:;\n" +
    "    display: flex;\n" +
    "    justify-content: center;\n" +
    "    align-items: center;\n" +
    "  }\n" +
    "---\n" +
    "\n" +
    "<!-- _class: lead -->\n" +
    "# "

  /** Between the title and the artist on the title slide. */
  const ArtistLead: string := "\n## "

  /** What closes every slide. */
  const SlideBreak: string := "\n\n---\n\n"

  /** Opens a lyric slide, before its number. */
  const NumberOpen: string := "<div class=\"slide-number\">"

  /** Between the slide number and the lyric part. */
  const LyricsOpen: string := "</div>\n<div class=\"lyrics\">"

  /** Closes a lyric slide, after the lyric part. */
  const LyricsClose: string := "</div>" + SlideBreak

  /** The initial value of `marpCode`: front matter and title slide. */
  function Header(title: string, artist: string): string {
    FrontMatter + title + ArtistLead + artist + SlideBreak
  }

  /** The text one iteration of the `forEach` appends for the part with slide number `num`. */
  function SlideBlock(num: nat, part: string): string {
    NumberOpen + NatToString(num) + LyricsOpen + part + LyricsClose
  }

  /** The slides for `parts`, the first of them numbered `first`. */
  function Blocks(parts: seq<string>, first: nat): string
    decreases |parts|
  {
    if |parts| == 0 then ""
    else Blocks(parts[..|parts| - 1], first) + SlideBlock(first + |parts| - 1, parts[|parts| - 1])
  }

  /** The whole generated document. */
  function MarpDocument(title: string, artist: string, parts: seq<string>): string {
    Header(title, artist) + Blocks(parts, 1)
  }

  // ---------------------------------------------------------------------
  // Reading a slide back
  // ---------------------------------------------------------------------

  /** What a lyric slide carries. */
  datatype SlideContent = SlideContent(number: nat, lyrics: string)

  /**
   * Reads a lyric slide: the opening tag, a run of digits, the tag between
   * number and lyrics, the lyrics, and the closing tag with the slide break.
   */
  function ReadSlideBlock(block: string): (r: Option<SlideContent>)
    ensures r.Some? ==> |r.value.lyrics| < |block|
  {
    if |block| >= |NumberOpen| && block[..|NumberOpen|] == NumberOpen then
      var afterOpen := block[|NumberOpen|..];
      var rest := SkipDigits(afterOpen);
      var digits := afterOpen[..|afterOpen| - |rest|];
      if |digits| >= 1 && |rest| >= |LyricsOpen| + |LyricsClose|
        && rest[..|LyricsOpen|] == LyricsOpen && rest[|rest| - |LyricsClose|..] == LyricsClose
      then
        Some(SlideContent(DecimalValue(digits), rest[|LyricsOpen|..|rest| - |LyricsClose|]))
      else None
    else None
  }

  /** Every slide reads back as its number and its lyric part, whatever the part holds. */
  lemma SlideBlockRoundTrip(num: nat, part: string)
    ensures ReadSlideBlock(SlideBlock(num, part)) == Some(SlideContent(num, part))
  {
    var digits := NatToString(num);
    var tail := LyricsOpen + part + LyricsClose;
    assert SlideBlock(num, part) == NumberOpen + (digits + tail) by {
      Reassociate(NumberOpen, digits, LyricsOpen, part, LyricsClose);
    }
    assert !IsDigit(tail[0]) by {
      assert tail[0] == LyricsOpen[0];
    }
    SkipDigitsPrefix(digits, tail);
    DecimalRoundTrip(num);
    ReadSteps(SlideBlock(num, part), digits, part, tail);
  }

  lemma Reassociate(a: string, b: string, c: string, d: string, e: string)
    ensures a + b + c + d + e == a + (b + (c + d + e))
  {
  }

  lemma ReadSteps(block: string, digits: string, part: string, tail: string)
    requires |digits| >= 1 && forall i :: 0 <= i < |digits| ==> IsDigit(digits[i])
    requires tail == LyricsOpen + part + LyricsClose
    requires block == NumberOpen + (digits + tail)
    requires SkipDigits(digits + tail) == tail
    ensures ReadSlideBlock(block) == Some(SlideContent(DecimalValue(digits), part))
  {
    Pieces(block, NumberOpen, digits + tail);
    Pieces(digits + tail, digits, tail);
    Framed(tail, LyricsOpen, part, LyricsClose);
  }

  /** The two pieces of a concatenation are its prefix and suffix. */
  lemma Pieces(s: string, a: string, b: string)
    requires s == a + b
    ensures |s| >= |a| && s[..|a|] == a && s[|a|..] == b
  {
  }

  /** The middle of `a + m + c`, between the lengths of a and c, is m. */
  lemma Framed(s: string, a: string, m: string, c: string)
    requires s == a + m + c
    ensures |s| >= |a| + |c| && s[..|a|] == a && s[|s| - |c|..] == c && s[|a|..|s| - |c|] == m
  {
  }

  // ---------------------------------------------------------------------
  // The shape of the document
  // ---------------------------------------------------------------------

  /** The slides of two lists one after the other are the slides of their concatenation, numbered on. */
  lemma {:induction false} BlocksAppend(p: seq<string>, q: seq<string>, first: nat)
    ensures Blocks(p + q, first) == Blocks(p, first) + Blocks(q, first + |p|)
    decreases |q|
  {
    if |q| == 0 {
      assert p + q == p;
    } else {
      var q' := q[..|q| - 1];
      assert (p + q)[..|p + q| - 1] == p + q';
      BlocksAppend(p, q', first);
    }
  }

  lemma BlocksOne(part: string, first: nat)
    ensures Blocks([part], first) == SlideBlock(first, part)
  {
    assert [part][..0] == [];
  }

  /**
   * The document is the header followed by one slide per part in order:
   * the slide for part k comes after the slides of the parts before it,
   * carries the number k + 1 and the part verbatim, and ends with the
   * slide break.
   */
  lemma DocumentSlideAt(title: string, artist: string, parts: seq<string>, k: nat)
    requires k < |parts|
    ensures MarpDocument(title, artist, parts)
      == Header(title, artist) + Blocks(parts[..k], 1) + SlideBlock(k + 1, parts[k]) + Blocks(parts[k + 1..], k + 2)
    ensures ReadSlideBlock(SlideBlock(k + 1, parts[k])) == Some(SlideContent(k + 1, parts[k]))
  {
    BlocksSlideAt(parts, k);
    Prepend(Header(title, artist), Blocks(parts[..k], 1), SlideBlock(k + 1, parts[k]), Blocks(parts[k + 1..], k + 2));
    SlideBlockRoundTrip(k + 1, parts[k]);
  }

  lemma BlocksSlideAt(parts: seq<string>, k: nat)
    requires k < |parts|
    ensures Blocks(parts, 1) == Blocks(parts[..k], 1) + SlideBlock(k + 1, parts[k]) + Blocks(parts[k + 1..], k + 2)
  {
    var before, after := parts[..k], parts[k + 1..];
    var rest := [parts[k]] + after;
    SplitAround(parts, k);
    BlocksAppend(before, rest, 1);
    BlocksAppend([parts[k]], after, k + 1);
    BlocksOne(parts[k], k + 1);
    Regroup(Blocks(parts, 1), Blocks(before, 1), Blocks(rest, k + 1), SlideBlock(k + 1, parts[k]), Blocks(after, k + 2));
  }

  lemma SplitAround(parts: seq<string>, k: nat)
    requires k < |parts|
    ensures parts == parts[..k] + ([parts[k]] + parts[k + 1..]) && |parts[..k]| == k
  {
  }

  lemma Regroup(whole: string, pre: string, rest: string, one: string, post: string)
    requires whole == pre + rest && rest == one + post
    ensures whole == pre + one + post
  {
  }

  lemma Prepend(h: string, a: string, b: string, c: string)
    ensures h + (a + b + c) == h + a + b + c
  {
  }

  lemma AppendAfter(h: string, a: string, b: string)
    ensures h + a + b == h + (a + b)
  {
  }

  /** The document for no parts is the header alone; the title slide ends with the slide break. */
  lemma HeaderAlone(title: string, artist: string)
    ensures MarpDocument(title, artist, []) == Header(title, artist)
    ensures Header(title, artist)[..|FrontMatter|] == FrontMatter
    ensures Header(title, artist)[|FrontMatter|..|FrontMatter| + |title|] == title
    ensures Header(title, artist)[|FrontMatter| + |title|..|FrontMatter| + |title| + |ArtistLead|] == ArtistLead
    ensures Header(title, artist)[|FrontMatter| + |title| + |ArtistLead|..|Header(title, artist)| - |SlideBreak|] == artist
    ensures Header(title, artist)[|Header(title, artist)| - |SlideBreak|..] == SlideBreak
  {
    var h := Header(title, artist);
    assert h == FrontMatter + title + (ArtistLead + artist + SlideBreak);
    assert h == FrontMatter + title + ArtistLead + artist + SlideBreak;
    Framed(h, FrontMatter + title, ArtistLead, artist + SlideBreak);
    Framed(h, FrontMatter + title + ArtistLead, artist, SlideBreak);
  }

  /** `marpCode` after the `forEach`: the header, then one slide appended per part. */
  method AssembleMarp(title: string, artist: string, parts: seq<string>) returns (code: string)
    ensures code == MarpDocument(title, artist, parts)
  {
    code := Header(title, artist);
    for i := 0 to |parts|
      invariant code == Header(title, artist) + Blocks(parts[..i], 1)
    {
      assert parts[..i + 1][..i] == parts[..i];
      AppendAfter(Header(title, artist), Blocks(parts[..i], 1), SlideBlock(i + 1, parts[i]));
      code := code + SlideBlock(i + 1, parts[i]);
    }
    assert parts[..|parts|] == parts;
  }
}
