/**
 * The deterministic lyric partitioner used when the language-model service
 * cannot be used: the non-blank lines of the lyrics are dealt out to N
 * slides in proportion (line i of K goes to slide floor(i*N/K), lines that
 * share a slide joined with " / "), and a repair pass then fills every
 * slide left empty, either with the last " / "-segment of the slide before
 * it or with the placeholder "...".
 *
 * The functions below specify the two loops round by round; the method
 * FallbackSplitLyrics runs them on an array and is proved to compute
 * FallbackSplit. The lemmas state what the partition guarantees.
 */
module Fallback {
  import opened Text

  /** What joins two lines that share a slide, and what the repair pass splits on. */
  const Separator: string := " / "

  /** What fills a slide that gets no text. */
  const Placeholder: string := "..."

  /** The truth test `line.trim()` of the line filter. */
  predicate HasContent(line: string) {
    Trim(line) != []
  }

  /** Keeps, in order, the strings that have content. */
  function KeepNonBlank(xs: seq<string>): (r: seq<string>)
    ensures |r| <= |xs|
    ensures forall j :: 0 <= j < |r| ==> HasContent(r[j]) && r[j] in xs
    ensures forall x :: x in xs && HasContent(x) ==> x in r
    decreases |xs|
  {
    if |xs| == 0 then []
    else (if HasContent(xs[0]) then [xs[0]] else []) + KeepNonBlank(xs[1..])
  }

  lemma {:induction false} KeepNoneWhenAllBlank(xs: seq<string>)
    requires forall j :: 0 <= j < |xs| ==> !HasContent(xs[j])
    ensures KeepNonBlank(xs) == []
    decreases |xs|
  {
    if |xs| > 0 {
      KeepNoneWhenAllBlank(xs[1..]);
    }
  }

  lemma {:induction false} KeepAllWithContent(xs: seq<string>)
    requires forall j :: 0 <= j < |xs| ==> HasContent(xs[j])
    ensures KeepNonBlank(xs) == xs
    decreases |xs|
  {
    if |xs| > 0 {
      KeepAllWithContent(xs[1..]);
      assert xs == [xs[0]] + xs[1..];
    }
  }

  /**
   * The filter works line by line: filtering a concatenation filters each half
   * and keeps them in order. With the two lemmas above on one-line lists this
   * fixes the result completely, repeated lines included.
   */
  lemma {:induction false} KeepNonBlankAppend(xs: seq<string>, ys: seq<string>)
    ensures KeepNonBlank(xs + ys) == KeepNonBlank(xs) + KeepNonBlank(ys)
    decreases |xs|
  {
    if |xs| > 0 {
      var head := if HasContent(xs[0]) then [xs[0]] else [];
      assert (xs + ys)[0] == xs[0];
      assert (xs + ys)[1..] == xs[1..] + ys;
      assert KeepNonBlank(xs + ys) == head + KeepNonBlank(xs[1..] + ys);
      assert KeepNonBlank(xs) == head + KeepNonBlank(xs[1..]);
      KeepNonBlankAppend(xs[1..], ys);
      ConcatAssociates(head, KeepNonBlank(xs[1..]), KeepNonBlank(ys));
    } else {
      assert xs + ys == ys;
    }
  }

  /** Regrouping a concatenation, stated over plain sequences so that it costs the caller nothing. */
  lemma ConcatAssociates(a: seq<string>, b: seq<string>, c: seq<string>)
    ensures a + (b + c) == a + b + c
  {
  }

  /** A string that starts with a character other than whitespace passes the line filter. */
  lemma SolidStartHasContent(s: string)
    requires |s| > 0 && !IsWhitespace(s[0])
    ensures HasContent(s)
  {
    assert TrimStart(s) == s;
  }

  /** `lyrics.split('\n').filter(line => line.trim())`: the kept lines are not trimmed. */
  function NonBlankLines(lyrics: string): (lines: seq<string>)
    ensures forall j :: 0 <= j < |lines| ==> HasContent(lines[j]) && lines[j] != []
  {
    KeepNonBlank(Split(lyrics, Newline))
  }

  // ---------------------------------------------------------------------
  // Bucketing
  // ---------------------------------------------------------------------

  /** `Math.floor((i * totalParts) / lines.length)`: the slide line i goes to. */
  function Target(i: nat, n: nat, k: nat): (b: nat)
    requires i < k && 1 <= n
    ensures b < n
    ensures i == 0 ==> b == 0
  {
    QuotientBelow(i * n, k, n);
    i * n / k
  }

  // Facts about Euclidean division by a positive divisor.

  lemma MulMonotone(x: int, y: int, k: nat)
    requires x <= y
    ensures x * k <= y * k
  {
    assert y * k - x * k == (y - x) * k;
  }

  lemma MulSucc(x: int, k: int)
    ensures (x + 1) * k == x * k + k
  {
  }

  lemma DivBounds(a: nat, k: nat)
    requires 0 < k
    ensures a / k * k <= a < a / k * k + k
  {
  }

  lemma QuotientBelow(a: nat, k: nat, n: nat)
    requires 0 < k && a < k * n
    ensures a / k < n
  {
    DivBounds(a, k);
    if a / k >= n {
      MulMonotone(n, a / k, k);
    }
  }

  lemma QuotientMonotone(a: nat, b: nat, k: nat)
    requires a <= b && 0 < k
    ensures a / k <= b / k
  {
    DivBounds(a, k);
    DivBounds(b, k);
    if a / k > b / k {
      MulMonotone(b / k + 1, a / k, k);
    }
  }

  lemma QuotientExact(a: nat, k: nat, q: nat)
    requires 0 < k && q * k <= a < q * k + k
    ensures a / k == q
  {
    DivBounds(a, k);
    var d := a / k;
    if d < q {
      MulMonotone(d + 1, q, k);
    } else if d > q {
      MulMonotone(q + 1, d, k);
    }
  }

  /** Bucket indices never decrease as the line index grows. */
  lemma TargetMonotone(i: nat, j: nat, n: nat, k: nat)
    requires i <= j < k && 1 <= n
    ensures Target(i, n, k) <= Target(j, n, k)
  {
    MulMonotone(i, j, n);
    QuotientMonotone(i * n, j * n, k);
  }

  /** With at least as many slides as lines, distinct lines go to distinct slides. */
  lemma TargetInjective(i: nat, j: nat, n: nat, k: nat)
    requires i < j < k && k <= n
    ensures Target(i, n, k) < Target(j, n, k)
  {
    MulMonotone(i + 1, j, n);
    MulSucc(i, n);
    var q := i * n / k;
    DivBounds(i * n, k);
    MulSucc(q, k);
    QuotientExact(i * n + k, k, q + 1);
    QuotientMonotone(i * n + k, j * n, k);
  }

  /** With at most as many slides as lines, every slide is the target of some line. */
  lemma TargetOnto(b: nat, n: nat, k: nat)
    requires 1 <= n <= k && b < n
    ensures exists i :: 0 <= i < k && Target(i, n, k) == b
  {
    var i := (b * k + n - 1) / n;
    DivBounds(b * k + n - 1, n);
    MulSucc(b, k);
    if i >= k {
      MulMonotone(k, i, n);
      MulMonotone(b + 1, n, k);
      assert false;
    }
    QuotientExact(i * n, k, b);
    assert Target(i, n, k) == b;
  }

  /** One round of the bucketing loop: line goes into bucket t, after a " / " if the bucket is not empty. */
  function Place(buckets: seq<string>, t: nat, line: string): (r: seq<string>)
    requires t < |buckets|
    ensures |r| == |buckets|
    ensures forall j :: 0 <= j < |buckets| && j != t ==> r[j] == buckets[j]
  {
    buckets[t := if buckets[t] != "" then buckets[t] + Separator + line else line]
  }

  /** The buckets after the first k rounds of the bucketing loop. */
  function Fill(lines: seq<string>, n: nat, k: nat): (buckets: seq<string>)
    requires 1 <= n && k <= |lines|
    ensures |buckets| == n
    decreases k
  {
    if k == 0 then seq(n, _ => "")
    else Place(Fill(lines, n, k - 1), Target(k - 1, n, |lines|), lines[k - 1])
  }

  /** The lines among the first k that the loop sends to bucket b, in order. */
  function Assigned(lines: seq<string>, n: nat, k: nat, b: nat): (r: seq<string>)
    requires 1 <= n && k <= |lines|
    ensures forall j :: 0 <= j < |r| ==> r[j] in lines[..k]
    decreases k
  {
    if k == 0 then []
    else Assigned(lines, n, k - 1, b) + (if Target(k - 1, n, |lines|) == b then [lines[k - 1]] else [])
  }

  lemma JoinNonEmpty(parts: seq<string>, sep: string)
    requires |parts| >= 1 && parts[0] != ""
    ensures Join(parts, sep) != ""
  {
    if |parts| > 1 {
      assert |Join(parts, sep)| >= |parts[0]|;
    }
  }

  /** How one bucketing round changes bucket b. */
  lemma FillStep(lines: seq<string>, n: nat, k: nat, b: nat)
    requires 1 <= n && 1 <= k <= |lines| && b < n
    ensures var before := Fill(lines, n, k - 1)[b];
      Fill(lines, n, k)[b] ==
        if Target(k - 1, n, |lines|) != b then before
        else if before != "" then before + Separator + lines[k - 1]
        else lines[k - 1]
  {
  }

  /** Each bucket is the " / "-join of exactly the lines assigned to it, in their original order. */
  lemma {:induction false} FillBucket(lines: seq<string>, n: nat, k: nat, b: nat)
    requires 1 <= n && k <= |lines| && b < n
    requires forall j :: 0 <= j < |lines| ==> lines[j] != ""
    ensures Fill(lines, n, k)[b] == Join(Assigned(lines, n, k, b), Separator)
    decreases k
  {
    if k > 0 {
      FillBucket(lines, n, k - 1, b);
      FillStep(lines, n, k, b);
      var prev := Assigned(lines, n, k - 1, b);
      if Target(k - 1, n, |lines|) == b {
        assert Assigned(lines, n, k, b) == prev + [lines[k - 1]];
        JoinSnoc(prev, lines[k - 1], Separator);
        if |prev| > 0 {
          assert prev[0] in lines;
          JoinNonEmpty(prev, Separator);
        }
      } else {
        assert Assigned(lines, n, k, b) == prev;
      }
    }
  }

  /** A bucket that has received a line is never empty again. */
  lemma {:induction false} FillHit(lines: seq<string>, n: nat, k: nat, i: nat)
    requires 1 <= n && i < k <= |lines|
    requires forall j :: 0 <= j < |lines| ==> lines[j] != ""
    ensures Fill(lines, n, k)[Target(i, n, |lines|)] != ""
    decreases k
  {
    if i < k - 1 {
      FillHit(lines, n, k - 1, i);
    }
  }

  /** Line 0 goes to bucket 0, so after the bucketing loop bucket 0 is not empty. */
  lemma FirstBucketFilled(lines: seq<string>, n: nat)
    requires 1 <= n && 1 <= |lines|
    requires forall j :: 0 <= j < |lines| ==> lines[j] != ""
    ensures Fill(lines, n, |lines|)[0] != ""
  {
    FillHit(lines, n, |lines|, 0);
  }

  /** Buckets beyond the target of the last line placed are still empty. */
  lemma {:induction false} FillLaterEmpty(lines: seq<string>, n: nat, k: nat, b: nat)
    requires 1 <= n && k <= |lines| && b < n
    requires k == 0 || Target(k - 1, n, |lines|) < b
    ensures Fill(lines, n, k)[b] == ""
    decreases k
  {
    if k > 1 {
      TargetMonotone(k - 2, k - 1, n, |lines|);
      FillLaterEmpty(lines, n, k - 1, b);
    }
  }

  /** With at least as many slides as lines, each line sits alone in its own bucket and the other buckets are empty. */
  lemma {:induction false} FillWide(lines: seq<string>, n: nat, k: nat)
    requires 1 <= |lines| <= n && k <= |lines|
    ensures forall i :: 0 <= i < k ==> Fill(lines, n, k)[Target(i, n, |lines|)] == lines[i]
    ensures forall b :: 0 <= b < n && (forall i :: 0 <= i < k ==> Target(i, n, |lines|) != b) ==> Fill(lines, n, k)[b] == ""
    decreases k
  {
    if k > 0 {
      FillWide(lines, n, k - 1);
      var t := Target(k - 1, n, |lines|);
      forall i | 0 <= i < k - 1
        ensures Target(i, n, |lines|) != t
      {
        TargetInjective(i, k - 1, n, |lines|);
      }
    }
  }

  // ---------------------------------------------------------------------
  // Repair
  // ---------------------------------------------------------------------

  /**
   * One round of the repair loop, at bucket i: an empty bucket takes the
   * last " / "-segment of a non-empty bucket before it when that bucket has
   * more than one segment, and the placeholder otherwise.
   */
  function RepairAt(buckets: seq<string>, i: nat): (r: seq<string>)
    requires i < |buckets|
    ensures |r| == |buckets|
    ensures forall j :: 0 <= j < |buckets| && j != i && j != i - 1 ==> r[j] == buckets[j]
    ensures buckets[i] != "" ==> r == buckets
  {
    if buckets[i] != "" then buckets
    else if i >= 1 && buckets[i - 1] != "" then
      var parts := Split(buckets[i - 1], Separator);
      if |parts| > 1 then buckets[i := parts[|parts| - 1]][i - 1 := Join(parts[..|parts| - 1], Separator)]
      else buckets[i := Placeholder]
    else buckets[i := Placeholder]
  }

  /** The buckets after the first m rounds of the repair loop. */
  function Repair(buckets: seq<string>, m: nat): (r: seq<string>)
    requires m <= |buckets|
    ensures |r| == |buckets|
    decreases m
  {
    if m == 0 then buckets else RepairAt(Repair(buckets, m - 1), m - 1)
  }

  /** Whether round i of the repair loop borrows from the bucket before it: that bucket is not empty and has more than one " / "-segment. */
  predicate Borrows(buckets: seq<string>, i: nat)
    requires i < |buckets|
  {
    buckets[i] == "" && i >= 1 && buckets[i - 1] != "" && |Split(buckets[i - 1], Separator)| > 1
  }

  /**
   * A repair round touches only bucket i and the one before it. A filled
   * bucket is left alone. An empty bucket borrows exactly when the bucket
   * before it is filled and has more than one " / "-segment: it then takes
   * the last segment, which holds no " / ", and the two buckets joined again
   * give the earlier bucket back. Otherwise it gets the placeholder.
   */
  lemma RepairAtKeepsText(buckets: seq<string>, i: nat)
    requires i < |buckets|
    ensures |RepairAt(buckets, i)| == |buckets|
    ensures forall j :: 0 <= j < |buckets| && j != i && j != i - 1 ==> RepairAt(buckets, i)[j] == buckets[j]
    ensures buckets[i] != "" ==> RepairAt(buckets, i) == buckets
    ensures buckets[i] == "" && !Borrows(buckets, i) ==> RepairAt(buckets, i) == buckets[i := Placeholder]
    ensures Borrows(buckets, i) ==>
      var parts := Split(buckets[i - 1], Separator);
      var r := RepairAt(buckets, i);
      r[i] == parts[|parts| - 1] && !Contains(r[i], Separator) &&
      r[i - 1] + Separator + r[i] == buckets[i - 1]
  {
    if Borrows(buckets, i) {
      var parts := Split(buckets[i - 1], Separator);
      JoinSplit(buckets[i - 1], Separator);
      SplitPiecesFree(buckets[i - 1], Separator);
      JoinSnoc(parts[..|parts| - 1], parts[|parts| - 1], Separator);
      assert parts[..|parts| - 1] + [parts[|parts| - 1]] == parts;
    }
  }

  /** The repair loop leaves buckets that are all non-empty untouched. */
  lemma {:induction false} RepairFull(buckets: seq<string>, m: nat)
    requires m <= |buckets|
    requires forall j :: 0 <= j < |buckets| ==> buckets[j] != ""
    ensures Repair(buckets, m) == buckets
    decreases m
  {
    if m > 0 {
      RepairFull(buckets, m - 1);
    }
  }

  lemma PlaceholderHasNoSeparator()
    ensures !Contains(Placeholder, Separator)
  {
    assert Placeholder[0..3][0] != Separator[0];
  }

  /** When no bucket contains " / ", the repair loop never borrows: it puts the placeholder in every empty bucket it passes. */
  lemma {:induction false} RepairWithoutSeparator(buckets: seq<string>, m: nat)
    requires m <= |buckets|
    requires forall j :: 0 <= j < |buckets| ==> !Contains(buckets[j], Separator)
    ensures forall j :: 0 <= j < |buckets| ==>
      Repair(buckets, m)[j] == if j < m && buckets[j] == "" then Placeholder else buckets[j]
    decreases m
  {
    if m > 0 {
      RepairWithoutSeparator(buckets, m - 1);
      var r := Repair(buckets, m - 1);
      var i := m - 1;
      if buckets[i] == "" && i >= 1 && r[i - 1] != "" {
        if buckets[i - 1] == "" {
          PlaceholderHasNoSeparator();
        }
        SplitWithoutSeparator(r[i - 1], Separator);
      }
    }
  }

  // ---------------------------------------------------------------------
  // The whole partition
  // ---------------------------------------------------------------------

  /** The partition of already filtered lines into n slides. */
  function FallbackFromLines(lines: seq<string>, n: nat): (slides: seq<string>)
    requires 1 <= n
    ensures |slides| == n
  {
    if |lines| == 0 then seq(n, _ => Placeholder)
    else Repair(Fill(lines, n, |lines|), n)
  }

  /** `fallbackSplitLyrics(lyrics)` with `formData.numberOfSlides == n`: always exactly n slides. */
  function FallbackSplit(lyrics: string, n: nat): (slides: seq<string>)
    requires 1 <= n
    ensures |slides| == n
  {
    FallbackFromLines(NonBlankLines(lyrics), n)
  }

  // ---------------------------------------------------------------------
  // What the partition guarantees
  // ---------------------------------------------------------------------

  /** The non-empty buckets, in order. */
  function Present(buckets: seq<string>): (r: seq<string>)
    ensures |r| <= |buckets|
    ensures forall j :: 0 <= j < |r| ==> r[j] != ""
    decreases |buckets|
  {
    if |buckets| == 0 then []
    else
      var last := buckets[|buckets| - 1];
      Present(buckets[..|buckets| - 1]) + (if last == "" then [] else [last])
  }

  lemma PresentSnoc(pre: seq<string>, x: string)
    ensures Present(pre + [x]) == Present(pre) + (if x == "" then [] else [x])
  {
    assert (pre + [x])[..|pre|] == pre;
  }

  lemma {:induction false} PresentFull(buckets: seq<string>)
    requires forall j :: 0 <= j < |buckets| ==> buckets[j] != ""
    ensures Present(buckets) == buckets
    decreases |buckets|
  {
    if |buckets| > 0 {
      PresentFull(buckets[..|buckets| - 1]);
    }
  }

  lemma {:induction false} PresentEmptyTail(buckets: seq<string>, m: nat)
    requires m <= |buckets|
    requires forall j :: m <= j < |buckets| ==> buckets[j] == ""
    ensures Present(buckets) == Present(buckets[..m])
    decreases |buckets| - m
  {
    if |buckets| > m {
      var init := buckets[..|buckets| - 1];
      PresentEmptyTail(init, m);
      assert init[..m] == buckets[..m];
    } else {
      assert buckets[..m] == buckets;
    }
  }

  /** Before and after round k, the buckets beyond the one it writes are empty. */
  lemma FillTailEmpty(lines: seq<string>, n: nat, k: nat, b: nat)
    requires 1 <= n && 1 <= k <= |lines|
    requires Target(k - 1, n, |lines|) < b < n
    ensures Fill(lines, n, k - 1)[b] == "" && Fill(lines, n, k)[b] == ""
  {
    if k > 1 {
      TargetMonotone(k - 2, k - 1, n, |lines|);
    }
    FillLaterEmpty(lines, n, k - 1, b);
    FillStep(lines, n, k, b);
  }

  /** The non-empty buckets of a list whose entries after index t are all empty. */
  lemma PresentUpTo(buckets: seq<string>, t: nat)
    requires t < |buckets|
    requires forall j :: t < j < |buckets| ==> buckets[j] == ""
    ensures Present(buckets) == Present(buckets[..t]) + (if buckets[t] == "" then [] else [buckets[t]])
  {
    PresentEmptyTail(buckets, t + 1);
    PrefixSnoc(buckets, t);
    PresentSnoc(buckets[..t], buckets[t]);
  }

  /** The prefix up to t + 1, stated apart from `Present` so that the caller's proof stays small. */
  lemma PrefixSnoc(buckets: seq<string>, t: nat)
    requires t < |buckets|
    ensures buckets[..t + 1] == buckets[..t] + [buckets[t]]
  {
  }

  /** A line put in a new bucket extends the joined text by one separator and the line. */
  lemma JoinAppendNew(kept: seq<string>, line: string, done: seq<string>)
    requires |kept| > 0 ==> kept[0] != ""
    requires |done| > 0 ==> done[0] != ""
    requires Join(kept, Separator) == Join(done, Separator)
    ensures Join(kept + [line], Separator) == Join(done + [line], Separator)
  {
    JoinSnoc(done, line, Separator);
    JoinSnoc(kept, line, Separator);
    if |done| > 0 {
      JoinNonEmpty(done, Separator);
    }
    if |kept| > 0 {
      JoinNonEmpty(kept, Separator);
    }
  }

  /** A line appended to the last bucket extends the joined text by one separator and the line. */
  lemma JoinAppendToLast(kept: seq<string>, last: string, line: string, done: seq<string>)
    requires last != ""
    requires Join(kept + [last], Separator) == Join(done, Separator)
    ensures Join(kept + [last + Separator + line], Separator) == Join(done + [line], Separator)
  {
    JoinSnoc(done, line, Separator);
    JoinSnoc(kept, last, Separator);
    JoinSnoc(kept, last + Separator + line, Separator);
  }

  /** The line placed in bucket t is the last non-empty bucket after the round. */
  lemma PresentAfterPlace(before: seq<string>, t: nat, line: string)
    requires t < |before| && line != ""
    requires forall j :: t < j < |before| ==> before[j] == ""
    ensures Present(Place(before, t, line)) == Present(before[..t]) + [Place(before, t, line)[t]]
  {
    var after := Place(before, t, line);
    PresentUpTo(after, t);
    assert after[..t] == before[..t];
  }

  /** One bucketing round on buckets whose entries after t are empty appends the line to the joined text. */
  lemma PlaceKeepsText(before: seq<string>, t: nat, line: string, done: seq<string>)
    requires t < |before| && line != ""
    requires forall j :: t < j < |before| ==> before[j] == ""
    requires |done| > 0 ==> done[0] != ""
    requires Join(Present(before), Separator) == Join(done, Separator)
    ensures Join(Present(Place(before, t, line)), Separator) == Join(done + [line], Separator)
  {
    PresentAfterPlace(before, t, line);
    PresentUpTo(before, t);
    var kept := Present(before[..t]);
    if before[t] == "" {
      assert Present(before) == kept;
      JoinAppendNew(kept, line, done);
    } else {
      JoinAppendToLast(kept, before[t], line, done);
    }
  }

  /**
   * Reading the non-empty buckets in order and joining them with " / "
   * gives the first k lines joined with " / ": the bucketing loop loses
   * nothing and keeps the order of the lines.
   */
  lemma {:induction false} FillKeepsText(lines: seq<string>, n: nat, k: nat)
    requires 1 <= n && k <= |lines|
    requires forall j :: 0 <= j < |lines| ==> lines[j] != ""
    ensures Join(Present(Fill(lines, n, k)), Separator) == Join(lines[..k], Separator)
    decreases k
  {
    if k > 0 {
      var i := k - 1;
      FillKeepsText(lines, n, i);
      var before := Fill(lines, n, i);
      var t := Target(i, n, |lines|);
      FillTailAllEmpty(lines, n, k, before);
      var done := lines[..i];
      assert |done| > 0 ==> done[0] != "";
      PlaceKeepsText(before, t, lines[i], done);
      assert lines[..k] == done + [lines[i]];
    } else {
      var empty := Fill(lines, n, 0);
      PresentEmptyTail(empty, 0);
      assert empty[..0] == [];
    }
  }

  lemma FillTailAllEmpty(lines: seq<string>, n: nat, k: nat, before: seq<string>)
    requires 1 <= n && 1 <= k <= |lines|
    requires before == Fill(lines, n, k - 1)
    ensures forall j :: Target(k - 1, n, |lines|) < j < |before| ==> before[j] == ""
  {
    forall j | Target(k - 1, n, |lines|) < j < |before|
      ensures before[j] == ""
    {
      FillTailEmpty(lines, n, k, j);
    }
  }

  /**
   * With at most as many slides as lines, the bucketing loop leaves no slide
   * empty, so the repair loop changes nothing; joining the slides with
   * " / " gives the lines joined with " / ": order kept, nothing lost.
   */
  lemma NarrowKeepsText(lyrics: string, n: nat)
    requires 1 <= n <= |NonBlankLines(lyrics)|
    ensures var lines := NonBlankLines(lyrics);
      FallbackSplit(lyrics, n) == Fill(lines, n, |lines|)
    ensures forall b :: 0 <= b < n ==> FallbackSplit(lyrics, n)[b] != ""
    ensures Join(FallbackSplit(lyrics, n), Separator) == Join(NonBlankLines(lyrics), Separator)
  {
    var lines := NonBlankLines(lyrics);
    var filled := Fill(lines, n, |lines|);
    forall b | 0 <= b < n
      ensures filled[b] != ""
    {
      TargetOnto(b, n, |lines|);
      var i :| 0 <= i < |lines| && Target(i, n, |lines|) == b;
      FillHit(lines, n, |lines|, i);
    }
    RepairFull(filled, n);
    PresentFull(filled);
    FillKeepsText(lines, n, |lines|);
    assert lines[..|lines|] == lines;
  }

  /** With exactly as many slides as lines, bucket i gets line i. */
  lemma EqualCountFill(lines: seq<string>)
    requires 1 <= |lines|
    ensures Fill(lines, |lines|, |lines|) == lines
  {
    var n := |lines|;
    FillWide(lines, n, n);
    forall i | 0 <= i < n
      ensures Fill(lines, n, n)[i] == lines[i]
    {
      QuotientExact(i * n, n, i);
      assert Target(i, n, n) == i;
    }
  }

  /** With exactly as many slides as lines, slide i is line i. */
  lemma EqualCountKeepsLines(lyrics: string, n: nat)
    requires 1 <= n == |NonBlankLines(lyrics)|
    ensures FallbackSplit(lyrics, n) == NonBlankLines(lyrics)
  {
    var lines := NonBlankLines(lyrics);
    EqualCountFill(lines);
    RepairFull(lines, n);
  }

  /**
   * When no line contains " / ", the repair loop never borrows: every slide
   * the bucketing loop filled is kept as it is, every empty one becomes the
   * placeholder, and so no slide is empty.
   */
  lemma NoSeparatorNoBorrow(lyrics: string, n: nat)
    requires 1 <= n
    requires forall j :: 0 <= j < |NonBlankLines(lyrics)| ==> !Contains(NonBlankLines(lyrics)[j], Separator)
    ensures forall b :: 0 <= b < n ==> FallbackSplit(lyrics, n)[b] != ""
    ensures var lines := NonBlankLines(lyrics);
      |lines| >= 1 ==>
        forall b :: 0 <= b < n ==>
          FallbackSplit(lyrics, n)[b] ==
            if Fill(lines, n, |lines|)[b] == "" then Placeholder else Fill(lines, n, |lines|)[b]
  {
    var lines := NonBlankLines(lyrics);
    if |lines| == 0 {
    } else if n <= |lines| {
      NarrowKeepsText(lyrics, n);
    } else {
      WideNoSeparator(lines, n);
    }
  }

  /** With more slides than lines and no " / " in any line, every empty bucket gets the placeholder and the rest are kept. */
  lemma WideNoSeparator(lines: seq<string>, n: nat)
    requires 1 <= |lines| < n
    requires forall j :: 0 <= j < |lines| ==> !Contains(lines[j], Separator)
    ensures var filled := Fill(lines, n, |lines|);
      forall b :: 0 <= b < n ==>
        FallbackFromLines(lines, n)[b] == if filled[b] == "" then Placeholder else filled[b]
  {
    var filled := Fill(lines, n, |lines|);
    FillWide(lines, n, |lines|);
    forall b | 0 <= b < n
      ensures !Contains(filled[b], Separator)
    {
      if filled[b] != "" {
        var i :| 0 <= i < |lines| && Target(i, n, |lines|) == b;
      }
    }
    RepairWithoutSeparator(filled, n);
  }

  /** The lyrics have no line with content exactly when they are all whitespace. */
  lemma NoLinesIffBlank(lyrics: string)
    ensures NonBlankLines(lyrics) == [] <==> IsBlank(lyrics)
  {
    var pieces := Split(lyrics, Newline);
    if IsBlank(lyrics) {
      SplitBlank(lyrics, Newline);
      forall j | 0 <= j < |pieces|
        ensures !HasContent(pieces[j])
      {
        TrimEmptyIffBlank(pieces[j]);
      }
      KeepNoneWhenAllBlank(pieces);
    }
    if NonBlankLines(lyrics) == [] {
      forall j | 0 <= j < |pieces|
        ensures IsBlank(pieces[j])
      {
        assert pieces[j] in pieces;
        TrimEmptyIffBlank(pieces[j]);
      }
      assert IsBlank(Newline) by {
        assert Newline[0] == '\n';
      }
      JoinBlank(pieces, Newline);
      JoinSplit(lyrics, Newline);
      assert IsBlank(Join(pieces, Newline));
    }
  }

  /** Lyrics that are all whitespace give n placeholder slides. */
  lemma BlankLyricsGivePlaceholders(lyrics: string, n: nat)
    requires 1 <= n && IsBlank(lyrics)
    ensures forall b :: 0 <= b < n ==> FallbackSplit(lyrics, n)[b] == Placeholder
  {
    NoLinesIffBlank(lyrics);
    assert NonBlankLines(lyrics) == [];
  }

  /** Four lines on two slides: two lines per slide, in order. */
  lemma ExampleFourLinesTwoSlides()
    ensures FallbackFromLines(["a", "b", "c", "d"], 2) == ["a / b", "c / d"]
  {
    var lines := ["a", "b", "c", "d"];
    assert Target(1, 2, 4) == 0 && Target(2, 2, 4) == 1 && Target(3, 2, 4) == 1;
    assert "a" + Separator + "b" == "a / b";
    assert "c" + Separator + "d" == "c / d";
    assert Fill(lines, 2, 1) == ["a", ""];
    assert Fill(lines, 2, 2) == ["a / b", ""];
    assert Fill(lines, 2, 3) == ["a / b", "c"];
    assert Fill(lines, 2, 4) == ["a / b", "c / d"];
    RepairFull(["a / b", "c / d"], 2);
  }

  /** Two lines on four slides: each line on its own slide, the gaps filled with the placeholder. */
  lemma ExampleTwoLinesFourSlides()
    ensures FallbackFromLines(["a", "b"], 4) == ["a", "...", "b", "..."]
  {
    var lines := ["a", "b"];
    assert Target(1, 4, 2) == 2;
    assert Fill(lines, 4, 1) == ["a", "", "", ""];
    var filled := ["a", "", "b", ""];
    assert Fill(lines, 4, 2) == filled;
    assert Repair(filled, 1) == filled;
    assert Split("a", Separator) == ["a"];
    assert Repair(filled, 2) == ["a", "...", "b", ""];
    assert Repair(filled, 3) == ["a", "...", "b", ""];
    assert Split("b", Separator) == ["b"];
    assert Repair(filled, 4) == ["a", "...", "b", "..."];
  }

  /** The line "abc / " splits on " / " into "abc" and an empty last segment. */
  lemma SplitTrailingSeparator()
    ensures Split("abc / ", Separator) == ["abc", ""]
  {
    assert Split("", Separator) == [""];
    assert " / "[..3] == Separator && " / "[3..] == "";
    assert Split(" / ", Separator) == ["", ""];
    assert "c / "[..3] != Separator && "c / "[1..] == " / " && "c / "[0] == 'c';
    assert ['c'] + "" == "c";
    assert Split("c / ", Separator) == ["c", ""];
    assert "bc / "[..3] != Separator && "bc / "[1..] == "c / " && "bc / "[0] == 'b';
    assert ['b'] + "c" == "bc";
    assert Split("bc / ", Separator) == ["bc", ""];
    assert "abc / "[..3] != Separator && "abc / "[1..] == "bc / " && "abc / "[0] == 'a';
    assert ['a'] + "bc" == "abc";
  }

  /** A line ending in " / " lets the repair loop borrow an empty segment, so a slide stays empty. */
  lemma SeparatorAtLineEndLeavesEmptySlide()
    ensures FallbackFromLines(["abc / "], 2) == ["abc", ""]
  {
    var filled := ["abc / ", ""];
    assert Fill(["abc / "], 2, 1) == filled;
    assert Repair(filled, 1) == filled;
    SplitTrailingSeparator();
    assert Join(["abc"], Separator) == "abc";
  }

  /** A line starting with " / " lets the repair loop borrow its last segment and empty the slide it borrows from. */
  lemma SeparatorAtLineStartEmptiesEarlierSlide()
    ensures FallbackFromLines([" / x"], 2) == ["", "x"]
  {
    var filled := [" / x", ""];
    assert Fill([" / x"], 2, 1) == filled;
    assert Repair(filled, 1) == filled;
    assert " / x"[..3] == Separator && " / x"[3..] == "x";
    assert Split("x", Separator) == ["x"];
    assert Split(" / x", Separator) == ["", "x"];
    assert Join([""], Separator) == "";
  }

  /** The lyrics "abc / " on two slides: the second slide borrows the empty segment after " / " and stays empty. */
  lemma SeparatorAtLyricsEndLeavesEmptySlide()
    ensures FallbackSplit("abc / ", 2) == ["abc", ""]
  {
    var lyrics := "abc / ";
    assert NonBlankLines(lyrics) == [lyrics] by {
      assert '\n' !in lyrics;
      NoNewlineSplit(lyrics);
      SolidStartHasContent(lyrics);
      KeepAllWithContent([lyrics]);
    }
    SeparatorAtLineEndLeavesEmptySlide();
  }

  /** `fallbackSplitLyrics(lyrics)` with `formData.numberOfSlides == n`, on an array as the source does. */
  method FallbackSplitLyrics(lyrics: string, n: nat) returns (slides: seq<string>)
    requires 1 <= n
    ensures slides == FallbackSplit(lyrics, n)
  {
    var lines := NonBlankLines(lyrics);
    var result := new string[n](_ => "");
    if |lines| == 0 {
      return seq(n, _ => Placeholder);
    }
    DistributeLines(result, lines);
    RepairEmptySlides(result);
    slides := result[..];
  }

  /** The first loop: every line is appended to the bucket its index maps to. */
  method DistributeLines(result: array<string>, lines: seq<string>)
    requires 1 <= result.Length && 1 <= |lines|
    requires forall j :: 0 <= j < result.Length ==> result[j] == ""
    modifies result
    ensures result[..] == Fill(lines, result.Length, |lines|)
  {
    var n, k := result.Length, |lines|;
    assert result[..] == Fill(lines, n, 0);
    for i := 0 to k
      invariant result[..] == Fill(lines, n, i)
    {
      var targetIndex := i * n / k;
      assert targetIndex == Target(i, n, k);
      if result[targetIndex] != "" {
        result[targetIndex] := result[targetIndex] + Separator + lines[i];
      } else {
        result[targetIndex] := lines[i];
      }
    }
  }

  /** The second loop: every empty slide borrows from the one before it or takes the placeholder. */
  method RepairEmptySlides(result: array<string>)
    modifies result
    ensures result[..] == Repair(old(result[..]), result.Length)
  {
    for i := 0 to result.Length
      invariant result[..] == Repair(old(result[..]), i)
    {
      if result[i] == "" {
        var prevIndex := i - 1;
        if prevIndex >= 0 && result[prevIndex] != "" {
          var parts := Split(result[prevIndex], Separator);
          if |parts| > 1 {
            result[i] := parts[|parts| - 1];
            result[prevIndex] := Join(parts[..|parts| - 1], Separator);
          } else {
            result[i] := Placeholder;
          }
        } else {
          result[i] := Placeholder;
        }
      }
    }
  }
}
