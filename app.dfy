/**
 * The form of the lyrics-to-slides page: its fields, the change handler
 * that clamps the slide count, the test that enables the generate button,
 * and `generatePPT`, which partitions the lyrics and assembles the Marp
 * document.
 */
module App {
  import opened Wrappers
  import opened Text
  import opened Fallback
  import opened Gemini
  import opened Marp

  /** The smallest and largest slide counts the form accepts. */
  const MinSlides: int := 1
  const MaxSlides: int := 50

  /** The form state `formData`. */
  datatype FormData = FormData(title: string, artist: string, lyrics: string, numberOfSlides: int)

  /** The form as the page first shows it. */
  const InitialForm: FormData := FormData("", "", "", 25)

  /** One change event: the field it comes from and its value, the slide count already read as a number. */
  datatype Edit =
    | SetTitle(title: string)
    | SetArtist(artist: string)
    | SetLyrics(lyrics: string)
    | SetNumberOfSlides(number: int)

  /** A slide count the form can hold. */
  predicate ValidSlideCount(n: int) {
    MinSlides <= n <= MaxSlides
  }

  /** `Math.max(1, Math.min(50, v))` */
  function ClampSlides(v: int): (r: int)
    ensures ValidSlideCount(r)
    ensures ValidSlideCount(v) ==> r == v
    ensures v < MinSlides ==> r == MinSlides
    ensures v > MaxSlides ==> r == MaxSlides
  {
    var capped := if v < MaxSlides then v else MaxSlides;
    if capped > MinSlides then capped else MinSlides
  }

  /** `handleInputChange`: the named field takes the new value, the slide count clamped; the others stay. */
  function HandleInputChange(form: FormData, edit: Edit): (r: FormData)
    ensures edit.SetTitle? ==> r == form.(title := edit.title)
    ensures edit.SetArtist? ==> r == form.(artist := edit.artist)
    ensures edit.SetLyrics? ==> r == form.(lyrics := edit.lyrics)
    ensures edit.SetNumberOfSlides? ==>
      r == form.(numberOfSlides := ClampSlides(edit.number)) && ValidSlideCount(r.numberOfSlides)
  {
    match edit
    case SetTitle(t) => form.(title := t)
    case SetArtist(a) => form.(artist := a)
    case SetLyrics(l) => form.(lyrics := l)
    case SetNumberOfSlides(v) => form.(numberOfSlides := ClampSlides(v))
  }

  /** The form after a sequence of change events. */
  function ApplyEdits(form: FormData, edits: seq<Edit>): FormData
    decreases |edits|
  {
    if |edits| == 0 then form
    else ApplyEdits(HandleInputChange(form, edits[0]), edits[1..])
  }

  /** Whatever the user types, the slide count stays between 1 and 50. */
  lemma {:induction false} EditsKeepSlideCountValid(form: FormData, edits: seq<Edit>)
    requires ValidSlideCount(form.numberOfSlides)
    ensures ValidSlideCount(ApplyEdits(form, edits).numberOfSlides)
    decreases |edits|
  {
    if |edits| > 0 {
      EditsKeepSlideCountValid(HandleInputChange(form, edits[0]), edits[1..]);
    }
  }

  /** Every form the page can reach has a valid slide count. */
  lemma ReachableFormsAreValid(edits: seq<Edit>)
    ensures ValidSlideCount(ApplyEdits(InitialForm, edits).numberOfSlides)
  {
    EditsKeepSlideCountValid(InitialForm, edits);
  }

  /** The generate button is enabled: no generation running, and title and lyrics not empty. */
  function CanGenerate(isGenerating: bool, form: FormData): (enabled: bool)
    ensures enabled ==> !isGenerating && form.title != [] && form.lyrics != []
    ensures !isGenerating && form.title != [] && form.lyrics != [] ==> enabled
  {
    !(isGenerating || form.title == [] || form.lyrics == [])
  }

  /**
   * Lyrics that are only whitespace do not disable the button; whenever the
   * deterministic partition is then used, every slide is the placeholder.
   */
  lemma WhitespaceLyricsGeneratePlaceholders(form: FormData, status: ApiStatus, reply: Option<string>)
    requires form.title != [] && form.lyrics != [] && IsBlank(form.lyrics)
    requires ValidSlideCount(form.numberOfSlides)
    ensures CanGenerate(false, form)
    ensures var p := PartitionLyrics(form.lyrics, form.numberOfSlides, status, reply);
      p.FromFallback? ==> forall b :: 0 <= b < |p.parts| ==> p.parts[b] == Placeholder
  {
    BlankLyricsGivePlaceholders(form.lyrics, form.numberOfSlides);
  }

  /**
   * `generatePPT`: the document for the form's title, artist and partitioned
   * lyrics, and the number of slides announced to the user (the lyric
   * slides and the title slide).
   */
  method GeneratePpt(form: FormData, status: ApiStatus, reply: Option<string>)
    returns (code: string, slideCount: int)
    requires ValidSlideCount(form.numberOfSlides)
    ensures code == MarpDocument(form.title, form.artist,
      PartitionLyrics(form.lyrics, form.numberOfSlides, status, reply).parts)
    ensures slideCount == form.numberOfSlides + 1
  {
    var splitLyrics := SplitLyricsWithGemini(form.lyrics, form.numberOfSlides, status, reply);
    code := AssembleMarp(form.title, form.artist, splitLyrics);
    slideCount := |splitLyrics| + 1;
  }
}
