/** The language detector: picks the ISO 639-1 code of a text or of a whole
    document, falling back to English when the text is too short or the
    statistical detector gives up. The detector itself (the `langdetect`
    package) is a parameter. */
module LanguageDetector {
  import opened Wrappers
  import opened Text

  /** What the statistical detector answers: a language code, or the exception
      it raises when it cannot decide. */
  datatype Detection = Detected(code: string) | Failed

  type Detector = string -> Detection

  /** The language reported whenever detection is not attempted or fails. */
  const Fallback: string := "en"

  /** Texts whose stripped length is below this are not given to the detector. */
  const MinDetectLength: nat := 10

  /** How many leading pages, and how many leading characters of each, make up
      the sample a document's language is detected on. */
  const SamplePages: nat := 5
  const SampleChars: nat := 1000

  /** `detect_language`: the detector's answer when the stripped text has at least
      ten characters and the detector succeeds, English otherwise. */
  function DetectLanguage(text: string, detect: Detector): (lang: string)
    ensures lang == Fallback || (|Strip(text)| >= MinDetectLength && detect(text) == Detected(lang))
  {
    if text == [] || |Strip(text)| < MinDetectLength then Fallback
    else match detect(text)
      case Detected(code) => code
      case Failed => Fallback
  }

  /** Which of the two answers `detect_language` gives, in both directions: the
      detector's code exactly when the text is long enough and detection succeeds. */
  lemma DetectLanguageCases(text: string, detect: Detector)
    ensures |Strip(text)| >= MinDetectLength && detect(text).Detected? ==>
      DetectLanguage(text, detect) == detect(text).code
    ensures |Strip(text)| < MinDetectLength || detect(text) == Failed ==>
      DetectLanguage(text, detect) == Fallback
  {
    if |Strip(text)| >= MinDetectLength {
      assert text != [];
    }
  }

  /** A short text never reaches the detector: any two detectors agree on it. */
  lemma ShortTextIgnoresDetector(text: string, d1: Detector, d2: Detector)
    requires |text| < MinDetectLength
    ensures DetectLanguage(text, d1) == DetectLanguage(text, d2) == Fallback
  {
  }

  /** A text holding only white space is reported as English, whatever its length. */
  lemma BlankTextIsFallback(text: string, detect: Detector)
    requires IsBlank(text)
    ensures DetectLanguage(text, detect) == Fallback
  {
    StripEmptyIffBlank(text);
  }

  /** The sample one page contributes: the first thousand characters of its text
      (an empty text when the page has none) and a separating space. */
  function PageSample(text: Option<string>): (r: string)
    ensures |r| <= SampleChars + 1
    ensures |r| >= 1 && r[|r| - 1] == ' '
    ensures text.Some? ==> r[..|r| - 1] <= text.value
    ensures text.Some? && |text.value| >= SampleChars ==> |r| == SampleChars + 1
    ensures text.Some? && |text.value| < SampleChars ==> r == text.value + " "
    ensures text.None? ==> r == " "
  {
    var t := if text.Some? then text.value else "";
    (if |t| <= SampleChars then t else t[..SampleChars]) + " "
  }

  /** The samples of the given pages, concatenated in page order. Each page adds at
      least its separator and at most a thousand and one characters. */
  function SampleOf(pages: seq<Option<string>>): (r: string)
    ensures |pages| <= |r| <= (SampleChars + 1) * |pages|
  {
    if pages == [] then ""
    else SampleOf(pages[..|pages| - 1]) + PageSample(pages[|pages| - 1])
  }

  function Min(a: nat, b: nat): nat {
    if a <= b then a else b
  }

  /** The text a document's language is detected on: the samples of its first
      five pages. It has one separator per sampled page and never exceeds five pages
      of a thousand characters and a space each. */
  function Sample(pages: seq<Option<string>>): (r: string)
    ensures Min(SamplePages, |pages|) <= |r| <= SamplePages * (SampleChars + 1)
  {
    SampleOf(pages[..Min(SamplePages, |pages|)])
  }

  /** `detect_document_language`: English for a document without pages, otherwise
      the language of the sample. A page is `None` when it has no "text" entry. */
  method DetectDocumentLanguage(pages: seq<Option<string>>, detect: Detector) returns (lang: string)
    ensures lang == DetectLanguage(Sample(pages), detect)
    ensures pages == [] ==> lang == Fallback
  {
    if pages == [] {
      return Fallback;
    }
    var n := Min(SamplePages, |pages|);
    var sample := "";
    var i := 0;
    while i < n
      invariant 0 <= i <= n
      invariant sample == SampleOf(pages[..i])
    {
      assert pages[..i + 1][..i] == pages[..i];
      sample := sample + PageSample(pages[i]);
      i := i + 1;
    }
    assert pages[..n] == pages[..Min(SamplePages, |pages|)];
    lang := DetectLanguage(sample, detect);
  }

  /** Pages after the fifth have no influence on the detected language. */
  lemma LaterPagesIgnored(pages: seq<Option<string>>, more: seq<Option<string>>, detect: Detector)
    requires |pages| >= SamplePages
    ensures DetectLanguage(Sample(pages + more), detect) == DetectLanguage(Sample(pages), detect)
  {
    assert (pages + more)[..SamplePages] == pages[..SamplePages];
  }

  /** When every sampled page is blank or missing, so is the sample. */
  lemma {:induction false} SampleOfBlank(pages: seq<Option<string>>)
    requires forall i :: 0 <= i < |pages| && pages[i].Some? ==> IsBlank(pages[i].value)
    ensures IsBlank(SampleOf(pages))
  {
    if pages != [] {
      SampleOfBlank(pages[..|pages| - 1]);
      var last := PageSample(pages[|pages| - 1]);
      assert forall j :: 0 <= j < |last| - 1 ==> last[j] == pages[|pages| - 1].value[j];
    }
  }

  /** A document whose first five pages hold only white space is reported as
      English, whatever the detector would say. */
  lemma BlankDocumentIsFallback(pages: seq<Option<string>>, detect: Detector)
    requires forall i :: 0 <= i < |pages| && i < SamplePages && pages[i].Some? ==> IsBlank(pages[i].value)
    ensures DetectLanguage(Sample(pages), detect) == Fallback
  {
    var sampled := pages[..Min(SamplePages, |pages|)];
    assert forall i :: 0 <= i < |sampled| ==> sampled[i] == pages[i];
    SampleOfBlank(sampled);
    BlankTextIsFallback(Sample(pages), detect);
  }
}
