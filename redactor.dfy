/** The redactor: extracts the text pages, detects the document language, asks the
    PII detector about every page, locates each finding's value in the document,
    keeps the hits on the page the finding came from, and either applies the
    redactions or copies the input unchanged. */
module Redactor {
  import opened Wrappers
  import opened Text
  import opened Grouping
  import opened DocumentAccess
  import opened PdfProcessor
  import opened LanguageDetector
  import opened PiiDetector

  /** The statistics `redact_pdf` returns. The early return for a document without
      text carries only the first two entries; the others are then `None`. */
  datatype Stats = Stats(redactedItems: nat, pagesProcessed: nat,
                         language: Option<string>, piiTypesFound: Option<seq<string>>)

  /** The statistics of a document that has no page with text. */
  const NoText: Stats := Stats(0, 0, None, None)

  // ---------------------------------------------------------------------------
  // Collecting redactions item by item

  type Step<!X> = X -> Result<seq<Redaction>, Error>

  /** Runs `step` on each item in order and concatenates the redactions; the first
      failure (a `KeyError` in the source) ends the run. */
  function Collect<X>(xs: seq<X>, step: Step<X>): Result<seq<Redaction>, Error>
  {
    if xs == [] then Success([])
    else
      var prev := Collect(xs[..|xs| - 1], step);
      if prev.Failure? then prev
      else
        var next := step(xs[|xs| - 1]);
        if next.Failure? then Failure(next.error) else Success(prev.value + next.value)
  }

  /** Collecting over two runs of items: the first failure wins, and otherwise the
      redactions are concatenated. */
  lemma {:induction false} CollectConcat<X>(a: seq<X>, b: seq<X>, step: Step<X>)
    ensures Collect(a + b, step) ==
      if Collect(a, step).Failure? then Collect(a, step)
      else if Collect(b, step).Failure? then Collect(b, step)
      else Success(Collect(a, step).value + Collect(b, step).value)
  {
    if b == [] {
      assert a + b == a;
      assert Collect(a, step).Success? ==> Collect(a, step).value + [] == Collect(a, step).value;
    } else {
      var front := b[..|b| - 1];
      CollectConcat(a, front, step);
      assert (a + b)[..|a + b| - 1] == a + front;
      assert (a + b)[|a + b| - 1] == b[|b| - 1];
      var ra := Collect(a, step);
      var rf := Collect(front, step);
      var next := step(b[|b| - 1]);
      assert ra.Success? && rf.Success? && next.Success? ==>
        ra.value + rf.value + next.value == ra.value + (rf.value + next.value);
    }
  }

  /** Once a prefix of the items fails, the whole run fails with the same error. */
  lemma CollectPrefixFailure<X>(xs: seq<X>, k: nat, step: Step<X>)
    requires k <= |xs| && Collect(xs[..k], step).Failure?
    ensures Collect(xs, step) == Collect(xs[..k], step)
  {
    CollectConcat(xs[..k], xs[k..], step);
    assert xs[..k] + xs[k..] == xs;
  }

  /** A run succeeds exactly when every item succeeds, and then holds exactly the
      redactions of the items. */
  lemma {:induction false} CollectShape<X>(xs: seq<X>, step: Step<X>)
    ensures Collect(xs, step).Success? <==> forall i :: 0 <= i < |xs| ==> step(xs[i]).Success?
    ensures Collect(xs, step).Success? ==>
      forall r :: r in Collect(xs, step).value <==> exists i :: 0 <= i < |xs| && r in step(xs[i]).value
  {
    if xs != [] {
      var front := xs[..|xs| - 1];
      var x := xs[|xs| - 1];
      CollectShape(front, step);
      assert forall i :: 0 <= i < |front| ==> front[i] == xs[i];
      if Collect(xs, step).Success? {
        var all := Collect(xs, step).value;
        assert all == Collect(front, step).value + step(x).value;
        forall r | r in all ensures exists i :: 0 <= i < |xs| && r in step(xs[i]).value {
          if r in step(x).value {
            assert r in step(xs[|xs| - 1]).value;
          } else {
            var i :| 0 <= i < |front| && r in step(front[i]).value;
            assert r in step(xs[i]).value;
          }
        }
        forall r, i | 0 <= i < |xs| && r in step(xs[i]).value ensures r in all {
          if i < |front| {
            assert r in step(front[i]).value;
          }
        }
      } else {
        assert !step(x).Success? || exists i :: 0 <= i < |front| && !step(front[i]).Success?;
      }
    }
  }

  /** Where a redaction of a successful run comes from: the item and the position
      in that item's redactions. */
  lemma {:induction false} CollectSource<X>(xs: seq<X>, step: Step<X>, j: nat) returns (i: nat, k: nat)
    requires Collect(xs, step).Success? && j < |Collect(xs, step).value|
    ensures i < |xs| && step(xs[i]).Success? && k < |step(xs[i]).value|
    ensures step(xs[i]).value[k] == Collect(xs, step).value[j]
  {
    var front := xs[..|xs| - 1];
    var prev := Collect(front, step);
    if j < |prev.value| {
      i, k := CollectSource(front, step, j);
      assert front[i] == xs[i];
    } else {
      i, k := |xs| - 1, j - |prev.value|;
    }
  }

  // ---------------------------------------------------------------------------
  // One finding

  /** The redaction records for the hits of one finding on page `p`. */
  function Label(p: nat, hits: seq<TextInstance>, value: string, piiType: string): (rs: seq<Redaction>)
    ensures |rs| == |hits|
    ensures forall i :: 0 <= i < |hits| ==> rs[i] == Redaction(p, hits[i].rect, value, piiType)
  {
    if hits == [] then []
    else Label(p, hits[..|hits| - 1], value, piiType) + [Redaction(p, hits[|hits| - 1].rect, value, piiType)]
  }

  /** The redactions one finding of page `p` yields: its "value" is looked up (a
      `KeyError` when absent), searched for in the whole document, and every hit on
      page `p` becomes a redaction carrying the finding's "type", which is looked up
      only when there is such a hit. */
  function FindingRedactions(p: nat, f: Finding, pageCount: nat, search: Searcher): Result<seq<Redaction>, Error>
  {
    if f.value.None? then Failure(MissingKey("value"))
    else
      var hits := InstancesOn(AllInstances(pageCount, search, f.value.value), p);
      if hits == [] then Success([])
      else if f.piiType.None? then Failure(MissingKey("type"))
      else Success(Label(p, hits, f.value.value, f.piiType.value))
  }

  /** The body of the loop over the instances of one finding's value. */
  method CoverFinding(p: nat, f: Finding, opening: Result<PdfFile, Error>, search: Searcher)
    returns (r: Result<seq<Redaction>, Error>)
    requires opening.Success?
    ensures r == FindingRedactions(p, f, |opening.value.pages|, search)
  {
    if f.value.None? {
      return Failure(MissingKey("value"));
    }
    var value := f.value.value;
    var found := FindTextInstances(opening, search, value);
    var instances := found.value;
    var out: seq<Redaction> := [];
    var k := 0;
    while k < |instances|
      invariant 0 <= k <= |instances|
      invariant f.piiType.None? ==> InstancesOn(instances[..k], p) == [] && out == []
      invariant f.piiType.Some? ==> out == Label(p, InstancesOn(instances[..k], p), value, f.piiType.value)
    {
      InstancesOnStep(instances, k, p);
      if instances[k].pageNum == p {
        if f.piiType.None? {
          InstancesOnPrefix(instances, k + 1, p);
          return Failure(MissingKey("type"));
        }
        LabelStep(p, InstancesOn(instances[..k], p), instances[k], value, f.piiType.value);
        out := out + [Redaction(p, instances[k].rect, value, f.piiType.value)];
      }
      k := k + 1;
    }
    assert instances[..k] == instances;
    return Success(out);
  }

  lemma InstancesOnStep(instances: seq<TextInstance>, k: nat, p: nat)
    requires k < |instances|
    ensures InstancesOn(instances[..k + 1], p)
      == InstancesOn(instances[..k], p) + (if instances[k].pageNum == p then [instances[k]] else [])
  {
    assert instances[..k + 1][..k] == instances[..k];
  }

  lemma InstancesOnPrefix(instances: seq<TextInstance>, k: nat, p: nat)
    requires k <= |instances| && InstancesOn(instances[..k], p) != []
    ensures InstancesOn(instances, p) != []
  {
    InstancesOnConcat(instances[..k], instances[k..], p);
    assert instances[..k] + instances[k..] == instances;
  }

  lemma LabelStep(p: nat, hits: seq<TextInstance>, hit: TextInstance, value: string, piiType: string)
    ensures Label(p, hits + [hit], value, piiType) == Label(p, hits, value, piiType) + [Redaction(p, hit.rect, value, piiType)]
  {
    assert (hits + [hit])[..|hits|] == hits;
  }

  /** When one finding fails, and with what error: a missing "value" always fails; a
      missing "type" fails exactly when the value has a hit on the finding's page. */
  lemma FindingOutcome(p: nat, f: Finding, pageCount: nat, search: Searcher)
    ensures FindingRedactions(p, f, pageCount, search).Failure? <==>
      f.value.None? || (f.piiType.None? && p < pageCount && search(p, f.value.value) != [])
    ensures f.value.None? ==> FindingRedactions(p, f, pageCount, search) == Failure(MissingKey("value"))
    ensures f.value.Some? && FindingRedactions(p, f, pageCount, search).Failure? ==>
      FindingRedactions(p, f, pageCount, search) == Failure(MissingKey("type"))
  {
    if f.value.Some? {
      InstancesOnPage(pageCount, search, f.value.value, p);
    }
  }

  /** A complete finding on a page of the document yields one redaction per hit of its
      value on that page, in search order, each carrying the finding's value and type;
      on any other page it yields none. */
  lemma FindingHits(p: nat, value: string, piiType: string, pageCount: nat, search: Searcher)
    ensures var r := FindingRedactions(p, Finding(Some(piiType), Some(value)), pageCount, search);
      && r.Success?
      && |r.value| == (if p < pageCount then |search(p, value)| else 0)
      && (forall i :: 0 <= i < |r.value| ==> r.value[i] == Redaction(p, search(p, value)[i], value, piiType))
  {
    InstancesOnPage(pageCount, search, value, p);
  }

  // ---------------------------------------------------------------------------
  // One page

  function FindingStep(p: nat, pageCount: nat, search: Searcher): Step<Finding> {
    (f: Finding) => FindingRedactions(p, f, pageCount, search)
  }

  /** The redactions for the findings of page `p`, in order. */
  function FindingsRedactions(p: nat, findings: seq<Finding>, pageCount: nat, search: Searcher): Result<seq<Redaction>, Error>
  {
    Collect(findings, FindingStep(p, pageCount, search))
  }

  /** The loop over one page's findings. */
  method CoverFindings(p: nat, findings: seq<Finding>, opening: Result<PdfFile, Error>, search: Searcher)
    returns (r: Result<seq<Redaction>, Error>)
    requires opening.Success?
    ensures r == FindingsRedactions(p, findings, |opening.value.pages|, search)
  {
    var step := FindingStep(p, |opening.value.pages|, search);
    var all: seq<Redaction> := [];
    var k := 0;
    while k < |findings|
      invariant 0 <= k <= |findings|
      invariant Collect(findings[..k], step) == Success(all)
    {
      assert findings[..k + 1][..k] == findings[..k];
      var one := CoverFinding(p, findings[k], opening, search);
      if one.Failure? {
        CollectPrefixFailure(findings, k + 1, step);
        return Failure(one.error);
      }
      all := all + one.value;
      k := k + 1;
    }
    assert findings[..k] == findings;
    return Success(all);
  }

  /** Every redaction of a page lies on that page, within the document, over a hit
      of its own text. */
  lemma FindingsCover(p: nat, findings: seq<Finding>, pageCount: nat, search: Searcher)
    requires FindingsRedactions(p, findings, pageCount, search).Success?
    ensures forall r :: r in FindingsRedactions(p, findings, pageCount, search).value ==>
      r.pageNum == p && p < pageCount && r.rect in search(p, r.text)
  {
    var step := FindingStep(p, pageCount, search);
    CollectShape(findings, step);
    forall r | r in FindingsRedactions(p, findings, pageCount, search).value
      ensures r.pageNum == p && p < pageCount && r.rect in search(p, r.text)
    {
      var i :| 0 <= i < |findings| && r in step(findings[i]).value;
      var f := findings[i];
      FindingOutcome(p, f, pageCount, search);
      FindingHits(p, f.value.value, f.piiType.value, pageCount, search);
      var k :| 0 <= k < |step(f).value| && step(f).value[k] == r;
    }
  }

  /** Findings are not deduplicated: a list of findings given twice yields every
      redaction twice. */
  lemma FindingsRepeated(p: nat, findings: seq<Finding>, pageCount: nat, search: Searcher)
    requires FindingsRedactions(p, findings, pageCount, search).Success?
    ensures FindingsRedactions(p, findings + findings, pageCount, search)
      == Success(FindingsRedactions(p, findings, pageCount, search).value
                 + FindingsRedactions(p, findings, pageCount, search).value)
  {
    CollectConcat(findings, findings, FindingStep(p, pageCount, search));
  }

  // ---------------------------------------------------------------------------
  // The whole document

  function PageStep(language: string, classify: Classifier, pageCount: nat, search: Searcher): Step<PageText> {
    (page: PageText) => FindingsRedactions(page.pageNum, DetectPii(page.text, language, classify), pageCount, search)
  }

  /** The body of the loop over the text pages: the page's findings, then their
      redactions. */
  method PageRedactions(page: PageText, language: string, opening: Result<PdfFile, Error>,
                        search: Searcher, classify: Classifier)
    returns (r: Result<seq<Redaction>, Error>)
    requires opening.Success?
    ensures r == PageStep(language, classify, |opening.value.pages|, search)(page)
  {
    var findings := DetectPii(page.text, language, classify);
    r := CoverFindings(page.pageNum, findings, opening, search);
  }

  /** The redactions for all text pages, page by page. */
  function PagesRedactions(pages: seq<PageText>, language: string, classify: Classifier,
                           pageCount: nat, search: Searcher): Result<seq<Redaction>, Error>
  {
    Collect(pages, PageStep(language, classify, pageCount, search))
  }

  /** Every redaction of the document lies on one of the text pages, within the
      document, over a hit of its own text. */
  lemma PagesCover(pages: seq<PageText>, language: string, classify: Classifier,
                   pageCount: nat, search: Searcher)
    requires PagesRedactions(pages, language, classify, pageCount, search).Success?
    ensures var all := PagesRedactions(pages, language, classify, pageCount, search).value;
      && InRange(all, pageCount)
      && (forall j :: 0 <= j < |all| ==>
            all[j].rect in search(all[j].pageNum, all[j].text)
            && exists i :: 0 <= i < |pages| && pages[i].pageNum == all[j].pageNum)
  {
    var step := PageStep(language, classify, pageCount, search);
    var all := PagesRedactions(pages, language, classify, pageCount, search).value;
    forall j | 0 <= j < |all|
      ensures all[j].pageNum < pageCount && all[j].rect in search(all[j].pageNum, all[j].text)
      ensures exists i :: 0 <= i < |pages| && pages[i].pageNum == all[j].pageNum
    {
      var i, k := CollectSource(pages, step, j);
      var findings := DetectPii(pages[i].text, language, classify);
      FindingsCover(pages[i].pageNum, findings, pageCount, search);
      assert step(pages[i]).value[k] in FindingsRedactions(pages[i].pageNum, findings, pageCount, search).value;
    }
  }

  /** The page texts handed to the language detector. */
  function TextsOf(pages: seq<PageText>): seq<Option<string>> {
    seq(|pages|, i requires 0 <= i < |pages| => Some(pages[i].text))
  }

  /** The key the types of the redactions are collected by. */
  function TypeOf(r: Redaction): Option<string> {
    Some(r.piiType)
  }

  /** `list(set(r["type"] for r in all_redactions))`, in order of first appearance:
      the types of the redactions, each once, and none exactly when there are no
      redactions. */
  function PiiTypes(rs: seq<Redaction>): (types: seq<string>)
    ensures Distinct(types)
    ensures forall t :: t in types <==> exists j :: 0 <= j < |rs| && rs[j].piiType == t
    ensures types == [] <==> rs == []
  {
    KeyOrderExactly(rs, TypeOf);
    forall t ensures t in KeyOrder(rs, TypeOf) <==> exists j :: 0 <= j < |rs| && rs[j].piiType == t {
      assert (exists j :: 0 <= j < |rs| && rs[j].piiType == t) <==> (exists j :: 0 <= j < |rs| && TypeOf(rs[j]) == Some(t));
    }
    assert rs != [] ==> rs[0].piiType in KeyOrder(rs, TypeOf);
    KeyOrder(rs, TypeOf)
  }

  /** What one run of `redact_pdf` returns and which files it writes. */
  datatype Run = Run(result: Result<Stats, Error>, writes: seq<(string, FileContent)>)

  /** The run of `redact_pdf` on an input whose opening yields `opening`. An error
      raised along the way ends the run with nothing written. */
  function RedactionRun(inputPath: string, outputPath: string, opening: Result<PdfFile, Error>,
                        search: Searcher, detect: Detector, classify: Classifier): (run: Run)
    ensures run.result.Failure? ==> run.writes == []
    ensures run.writes == [] || (|run.writes| == 1 && run.writes[0].0 == outputPath)
    ensures run.result.Success? && run.result.value.language.Some? ==> run.writes != []
  {
    if opening.Failure? then Run(Failure(opening.error), [])
    else
      var pageCount := |opening.value.pages|;
      var pages := TextPages(opening.value.pages);
      if pages == [] then Run(Success(NoText), [])
      else
        var language := DetectLanguage(Sample(TextsOf(pages)), detect);
        var found := PagesRedactions(pages, language, classify, pageCount, search);
        if found.Failure? then Run(Failure(found.error), [])
        else
          var all := found.value;
          var output := if all != [] then SavedDocument(inputPath, RedactionOps(all)) else CopyResult(inputPath, outputPath);
          var types := if all != [] then PiiTypes(all) else [];
          Run(Success(Stats(|all|, |pages|, Some(language), Some(types))), [(outputPath, output)])
  }

  /** The loop over the text pages. */
  method CoverPages(pages: seq<PageText>, language: string, opening: Result<PdfFile, Error>,
                    search: Searcher, classify: Classifier)
    returns (r: Result<seq<Redaction>, Error>)
    requires opening.Success?
    ensures r == PagesRedactions(pages, language, classify, |opening.value.pages|, search)
  {
    var step := PageStep(language, classify, |opening.value.pages|, search);
    var all: seq<Redaction> := [];
    var i := 0;
    while i < |pages|
      invariant 0 <= i <= |pages|
      invariant Collect(pages[..i], step) == Success(all)
    {
      assert pages[..i + 1][..i] == pages[..i];
      var one := PageRedactions(pages[i], language, opening, search, classify);
      if one.Failure? {
        CollectPrefixFailure(pages, i + 1, step);
        return Failure(one.error);
      }
      all := all + one.value;
      i := i + 1;
    }
    assert pages[..i] == pages;
    return Success(all);
  }

  /** `redact_pdf`. */
  method RedactPdf(inputPath: string, outputPath: string, opening: Result<PdfFile, Error>,
                   search: Searcher, detect: Detector, classify: Classifier, fs: FileSystem)
    returns (r: Result<Stats, Error>)
    modifies fs
    ensures r == RedactionRun(inputPath, outputPath, opening, search, detect, classify).result
    ensures fs.written == old(fs.written) + RedactionRun(inputPath, outputPath, opening, search, detect, classify).writes
  {
    var extracted := ExtractText(opening);
    if extracted.Failure? {
      return Failure(extracted.error);
    }
    var pages := extracted.value;
    if pages == [] {
      return Success(NoText);
    }
    var language := DetectDocumentLanguage(TextsOf(pages), detect);
    var pageCount := |opening.value.pages|;
    var found := CoverPages(pages, language, opening, search, classify);
    if found.Failure? {
      return Failure(found.error);
    }
    var all := found.value;
    if all != [] {
      PagesCover(pages, language, classify, pageCount, search);
      var applied := ApplyRedactions(inputPath, opening, outputPath, all, fs);
      assert applied.Pass?;
    } else {
      fs.CopyFile(inputPath, outputPath);
    }
    var types := if all != [] then PiiTypes(all) else [];
    return Success(Stats(|all|, |pages|, Some(language), Some(types)));
  }

  // ---------------------------------------------------------------------------
  // Properties of a run

  /** A document whose pages all hold only white space ends the run early with no
      language, no types and no output; and only such a document does. */
  lemma EarlyReturnIffNoText(inputPath: string, outputPath: string, pdf: PdfFile,
                             search: Searcher, detect: Detector, classify: Classifier)
    ensures RedactionRun(inputPath, outputPath, Success(pdf), search, detect, classify) == Run(Success(NoText), [])
      <==> forall i :: 0 <= i < |pdf.pages| ==> IsBlank(pdf.pages[i].text)
  {
    var pages := TextPages(pdf.pages);
    TextPagesBelow(pdf.pages);
    forall i | 0 <= i < |pdf.pages| ensures !IsBlank(pdf.pages[i].text) <==> Extracted(pages, i) {
      TextPagesKeepNonBlank(pdf.pages, i);
    }
    assert pages != [] ==> Extracted(pages, pages[0].pageNum);
  }

  /** A run that fails writes nothing; a run that gets past the early return writes
      exactly one file, the output, which is the redacted document when there is
      something to redact and a copy of the input otherwise (an empty file when the
      output path is the input path). */
  lemma RunWrites(inputPath: string, outputPath: string, opening: Result<PdfFile, Error>,
                  search: Searcher, detect: Detector, classify: Classifier)
    ensures var run := RedactionRun(inputPath, outputPath, opening, search, detect, classify);
      && (run.result.Failure? ==> run.writes == [])
      && (run.result.Success? && run.result.value.language.Some? ==>
            |run.writes| == 1 && run.writes[0].0 == outputPath
            && (run.result.value.redactedItems > 0 <==> run.writes[0].1.SavedDocument?)
            && (run.result.value.redactedItems == 0 <==> run.writes[0].1 == CopyResult(inputPath, outputPath)))
      && (run.result.Success? && run.result.value.language.None? ==> run.writes == [])
  {
  }

  /** A model call that always raises yields no findings on any page, so the page
      loop collects nothing and cannot fail. */
  lemma {:induction false} RaisingModelFindsNothing(pages: seq<PageText>, language: string, classify: Classifier,
                                                    pageCount: nat, search: Searcher)
    requires forall p :: classify(p) == Raised
    ensures PagesRedactions(pages, language, classify, pageCount, search) == Success([])
  {
    if pages != [] {
      var front := pages[..|pages| - 1];
      RaisingModelFindsNothing(front, language, classify, pageCount, search);
      var last := pages[|pages| - 1];
      assert DetectPii(last.text, language, classify) == [];
      assert FindingsRedactions(last.pageNum, [], pageCount, search) == Success([]);
      var step := PageStep(language, classify, pageCount, search);
      assert step(last) == Success([]);
      var none: seq<Redaction> := [];
      assert Collect(front, step) == Success(none);
      assert front == pages[..|pages| - 1];
      assert Collect(pages, step) == Success(none + none);
      assert none + none == none;
      assert PagesRedactions(pages, language, classify, pageCount, search) == Collect(pages, step);
    }
  }

  /** Writing the output over the input loses the document: on a document with text
      and a model call that always raises, nothing is found, the run reports success,
      and the byte copy leaves the input truncated to nothing. */
  lemma CopyOntoInputEmptiesIt(path: string, pdf: PdfFile, search: Searcher, detect: Detector,
                               classify: Classifier)
    requires exists i :: 0 <= i < |pdf.pages| && !IsBlank(pdf.pages[i].text)
    requires forall p :: classify(p) == Raised
    ensures var run := RedactionRun(path, path, Success(pdf), search, detect, classify);
      && run.result.Success? && run.result.value.language.Some?
      && run.result.value.redactedItems == 0
      && run.writes == [(path, Emptied)]
  {
    EarlyReturnIffNoText(path, path, pdf, search, detect, classify);
    var pages := TextPages(pdf.pages);
    var language := DetectLanguage(Sample(TextsOf(pages)), detect);
    RaisingModelFindsNothing(pages, language, classify, |pdf.pages|, search);
  }

  /** The statistics of a run that gets past the early return: the pages processed
      are the extracted pages, between one and all of the document's pages; the items
      redacted are the redactions collected; the types found are distinct and empty
      exactly when nothing was redacted. */
  lemma RunStats(inputPath: string, outputPath: string, pdf: PdfFile,
                 search: Searcher, detect: Detector, classify: Classifier)
    ensures var run := RedactionRun(inputPath, outputPath, Success(pdf), search, detect, classify);
      run.result.Success? && run.result.value.language.Some? ==>
        var stats := run.result.value;
        var pages := TextPages(pdf.pages);
        var found := PagesRedactions(pages, stats.language.value, classify, |pdf.pages|, search);
        && stats.pagesProcessed == |pages|
        && 1 <= stats.pagesProcessed <= |pdf.pages|
        && found.Success?
        && stats.redactedItems == |found.value|
        && stats.piiTypesFound.Some?
        && Distinct(stats.piiTypesFound.value)
        && (stats.piiTypesFound.value == [] <==> stats.redactedItems == 0)
  {
  }

  /** When something is found, the run writes once: the input with every redaction
      found marked and applied; and the statistics count exactly those redactions. */
  lemma RunOutput(inputPath: string, outputPath: string, pdf: PdfFile,
                  search: Searcher, detect: Detector, classify: Classifier)
    requires TextPages(pdf.pages) != []
    ensures var pages := TextPages(pdf.pages);
      var language := DetectLanguage(Sample(TextsOf(pages)), detect);
      var found := PagesRedactions(pages, language, classify, |pdf.pages|, search);
      var run := RedactionRun(inputPath, outputPath, Success(pdf), search, detect, classify);
      found.Success? && found.value != [] ==>
        && run.writes == [(outputPath, SavedDocument(inputPath, RedactionOps(found.value)))]
        && run.result == Success(Stats(|found.value|, |pages|, Some(language), Some(PiiTypes(found.value))))
  {
  }

  /** Every redaction a run finds lies on a page of the document that has text, and
      its rectangle is one the search returned for its text on that page. */
  lemma RunFindsOnlyPageText(pdf: PdfFile, search: Searcher, detect: Detector, classify: Classifier)
    ensures var pages := TextPages(pdf.pages);
      var language := DetectLanguage(Sample(TextsOf(pages)), detect);
      var found := PagesRedactions(pages, language, classify, |pdf.pages|, search);
      found.Success? ==>
        && InRange(found.value, |pdf.pages|)
        && (forall j :: 0 <= j < |found.value| ==>
              found.value[j].rect in search(found.value[j].pageNum, found.value[j].text)
              && !IsBlank(pdf.pages[found.value[j].pageNum].text))
  {
    var pages := TextPages(pdf.pages);
    var language := DetectLanguage(Sample(TextsOf(pages)), detect);
    var found := PagesRedactions(pages, language, classify, |pdf.pages|, search);
    if found.Success? {
      PagesCover(pages, language, classify, |pdf.pages|, search);
      TextPagesAreTaggedPages(pdf.pages);
    }
  }
}
