# pdf-pii-redactor, modelled in Dafny

pdf-pii-redactor removes personally identifiable information (PII) from PDF
documents. The redactor does the following, in order:

- extracts the text of every page that holds more than white space;
- detects the document's language from a sample of the first pages;
- asks a language model (the PII detector) for the PII on each page;
- searches the document for each finding's value, keeping only the hits on the
  finding's own page;
- marks and applies one redaction per hit, page by page, and saves the result.

When there is nothing to redact, it copies the input instead. It then reports
statistics about the run. Helper functions check that a file is a PDF and group
findings by type. A small web front end decides which uploads it accepts and
how stored files are named.

The model has these modules:

- `Wrappers`: Option, Result and Outcome. Outcome is a call that returns
  nothing or raises.
- `Text`: Python's `strip()`, ASCII `lower()` and `endswith`.
- `Grouping`: the hand-written "dict of lists" loop. Python dicts keep insertion
  order, so a group is a key order plus a map.
- `DocumentAccess`: what the core uses from PyMuPDF and the file system.
  - An opened document is the text and size of its pages.
  - `search_for` is an oracle that returns rectangles.
  - `PdfDocument` is a class whose methods record each redaction annotation and
    each per-page application.
  - `FileSystem` is a class that records every file written.
- `PdfProcessor`: `extract_text`, `find_text_instances` and `apply_redactions`.
- `LanguageDetector`: `detect_language` and `detect_document_language`. The
  statistical detector is a parameter.
- `PiiDetector`: the guard of `detect_pii`, its fallbacks and the prompt. The
  model behind the API is a parameter.
- `Redactor`: `redact_pdf`. The method is proved equal to the specification
  function `RedactionRun`, and the run's properties are lemmas about that
  function.
- `Utils`: `validate_pdf` and `group_by_type`.
- `Web`: `allowed_file`, the upload form's checks, the stored file names and the
  download name.

I/O, PyMuPDF, the OpenAI API and `langdetect` are parameters of the model:

- Opening the input is one value `opening: Result<PdfFile, Error>`.
- Search is a function `Searcher` from a page index and a needle to rectangles.
- The language detector is a function `Detector` from text to a detection or a
  failure.
- The PII model is a function `Classifier` from a prompt to a parsed reply: an
  exception, a non-object, or an object with or without `"pii"`.

Exceptions that propagate become the `Error` datatype:

- `OpenFailed` is a failed `fitz.open`.
- `PageOutOfRange` is an `IndexError` from `doc[page_num]`.
- `MissingKey` is a `KeyError` on `pii["value"]` or `pii["type"]`.

## Behaviour worth knowing

- **No text.** When no page has text, `redact_pdf` returns
  `{"redacted_items": 0, "pages_processed": 0}` at once and writes nothing
  (pdf_pii_redactor/redactor.py:59-61). That result has no `language` or
  `pii_types_found` entry. `Redactor.EarlyReturnIffNoText` states this.
- **No deduplication.** A finding listed twice yields its redactions twice
  (`Redactor.FindingsRepeated`).
- **Search scope.** Each finding's value is searched on every page, and only the
  hits on the finding's own page are kept (pdf_pii_redactor/redactor.py:82-86).
  `PdfProcessor.InstancesOnPage` proves this gives exactly the search results of
  that one page.
- **Sample separator.** A space follows every sampled page, the last one included
  (pdf_pii_redactor/language_detector.py:68).
- **Types found.** `pii_types_found` holds the types of the redactions made,
  spelled as the model returned them (pdf_pii_redactor/redactor.py:113). A
  redaction exists only for a hit on the finding's own page
  (pdf_pii_redactor/redactor.py:84-96), so a finding whose value has no hit there
  adds no type. No fixed list of type tags is enforced (`Redactor.PiiTypes`,
  `Redactor.RunStats`).
- **Missing keys.** A finding without `"value"` raises `KeyError` in `redact_pdf`.
  So does one without `"type"` that has a hit on its page. The run then ends with
  the error and writes nothing.
- **Output over input.** Nothing stops the output path from being the input path.
  When nothing is found, `redact_pdf` then opens that path for writing, which
  truncates it, before reading it; the document is lost and the run still reports
  success (pdf_pii_redactor/redactor.py:105-106,
  `Redactor.CopyOntoInputEmptiesIt`). Saving a redacted document over its own
  input goes through PyMuPDF instead, whose errors are not modelled.
- **Checked name and stored name.** The upload form applies `allowed_file` to the
  name as posted (pdf_pii_redactor/web.py:64), but `validate_pdf` checks the file
  stored under the name `secure_filename` produced (pdf_pii_redactor/web.py:66-75).
  The posted name `_.pdf` passes; `secure_filename` turns it into `pdf`, the file is
  stored as `{id}_pdf`, and a genuine PDF is reported as invalid
  (`Web.CheckedNameIsNotStoredName`).

## Model

| member | source | states |
|---|---|---|
| Text.TrimStart | pdf_pii_redactor/language_detector.py:36 | the result is a suffix of the input that starts with a non-white-space character, and everything dropped is white space |
| Text.TrimEnd | pdf_pii_redactor/language_detector.py:36 | the result is a prefix of the input that ends with a non-white-space character, and everything dropped is white space |
| Text.Strip | pdf_pii_redactor/language_detector.py:36 | the result is no longer than the input, and when it is not empty it begins and ends with a non-white-space character |
| Text.TrimStartDropsBlank | pdf_pii_redactor/language_detector.py:36 | what `lstrip()` drops is all white space |
| Text.TrimEndDropsBlank | pdf_pii_redactor/language_detector.py:36 | what `rstrip()` drops is all white space |
| Text.StripIsMiddle | pdf_pii_redactor/language_detector.py:36 | `strip()` returns the slice of the input between a blank front and a blank back |
| Text.StripEmptyIffBlank | pdf_pii_redactor/pdf_processor.py:47 | `strip()` yields the empty string exactly when every character is white space |
| Text.HasContent | pdf_pii_redactor/pdf_processor.py:47 | the truth value of `text.strip()` is true exactly when the text is not blank |
| Text.LowerChar | pdf_pii_redactor/web.py:44 | an ASCII capital becomes the letter 32 code points on, its lower-case form; every other character is unchanged |
| Text.LowerConcat | pdf_pii_redactor/web.py:44 | lower-casing a concatenation lower-cases each part on its own |
| Grouping.GroupBy | pdf_pii_redactor/pdf_processor.py:76-81 | the loop's dict has as keys exactly the distinct keys in first-appearance order, and under each key exactly that key's items in input order |
| Grouping.MembersOutsideKeyOrder | pdf_pii_redactor/pdf_processor.py:79-81 | a key that never got a dict entry has no items |
| Grouping.MembersHaveKey | pdf_pii_redactor/utils.py:60-65 | every item in a group comes from the input and has that group's key |
| Grouping.KeyOrderDistinct | pdf_pii_redactor/pdf_processor.py:79-80 | each key is inserted into the dict once |
| Grouping.KeyOrderHasKeys | pdf_pii_redactor/pdf_processor.py:77-80 | the dict's keys are exactly the keys some item has |
| Grouping.KeyOrderHasGroups | pdf_pii_redactor/pdf_processor.py:79-81 | a key is in the dict exactly when its list is non-empty |
| Grouping.KeyOrderExactly | pdf_pii_redactor/utils.py:60-65 | keys are distinct, are exactly the keys of the items, and each has a non-empty list |
| Grouping.GroupsPartition | pdf_pii_redactor/pdf_processor.py:76-81 | the group sizes add up to the number of keyed items, so the groups partition them |
| DocumentAccess.CopyResult | pdf_pii_redactor/redactor.py:105-106 | opening the output for writing truncates it before the input is read, so a copy onto the input's own path leaves an empty file; any other target receives the input's bytes |
| DocumentAccess.FileSystem.CopyFile | pdf_pii_redactor/redactor.py:105-106 | the output path receives what the byte copy leaves there: the input's bytes, or nothing when it is the input itself; nothing else is written |
| DocumentAccess.PdfDocument.Open | pdf_pii_redactor/pdf_processor.py:73 | a freshly opened document has the file's page count and no mutations |
| DocumentAccess.PdfDocument.AddRedactAnnot | pdf_pii_redactor/pdf_processor.py:96 | marking a rectangle on an existing page appends exactly that mark |
| DocumentAccess.PdfDocument.ApplyRedactions | pdf_pii_redactor/pdf_processor.py:99 | applying an existing page's redactions appends exactly that application |
| DocumentAccess.PdfDocument.Save | pdf_pii_redactor/pdf_processor.py:105 | saving writes the source together with all mutations made so far to the given path |
| PdfProcessor.ExtractText | pdf_pii_redactor/pdf_processor.py:30-60 | an open failure propagates; otherwise the result is the non-blank pages, tagged with their index |
| PdfProcessor.TextPages | pdf_pii_redactor/pdf_processor.py:45-53 | no more pages are extracted than the document has |
| PdfProcessor.TextPagesStep | pdf_pii_redactor/pdf_processor.py:45-53 | scanning one more page adds it exactly when it is not blank |
| PdfProcessor.TextPagesAreTaggedPages | pdf_pii_redactor/pdf_processor.py:45-53 | every extracted page is an unchanged, non-blank document page at its own index; indices strictly increase, so there are no more extracted pages than pages |
| PdfProcessor.TextPagesBelow | pdf_pii_redactor/pdf_processor.py:45-49 | every extracted page number is below the page count |
| PdfProcessor.TextPagesKeepNonBlank | pdf_pii_redactor/pdf_processor.py:45-53 | a page is extracted exactly when its text is not blank |
| PdfProcessor.FindTextInstances | pdf_pii_redactor/pdf_processor.py:114-150 | an open failure propagates; otherwise the result is every page's hits, page after page, each tagged with its page and the searched text |
| PdfProcessor.AllInstances | pdf_pii_redactor/pdf_processor.py:130-141 | one instance per search hit, summed over the pages |
| PdfProcessor.InstancesOnConcat | pdf_pii_redactor/redactor.py:85-86 | filtering hits by page distributes over concatenation |
| PdfProcessor.InstancesOnTagged | pdf_pii_redactor/redactor.py:85-86 | the hits of one page survive the filter for that page and none other |
| PdfProcessor.InstancesOnPage | pdf_pii_redactor/redactor.py:82-86 | searching every page and keeping page `p`'s hits gives exactly page `p`'s own search results, in order; none for a page beyond the document |
| PdfProcessor.AllInstancesShape | pdf_pii_redactor/pdf_processor.py:130-141 | there are as many instances as hits summed over the pages; each names an existing page and the needle, and pages come in document order |
| PdfProcessor.InRangeByPages | pdf_pii_redactor/pdf_processor.py:84-85 | every redaction names an existing page exactly when every dict key does |
| PdfProcessor.RedactPage | pdf_pii_redactor/pdf_processor.py:85-99 | one page's mutations are its group's rectangles marked in order, then a single application |
| PdfProcessor.RedactGroups | pdf_pii_redactor/pdf_processor.py:84-99 | the loop over the dict either reaches the end, with exactly the planned mutations made and every page in range, or stops at a dict key beyond the document |
| PdfProcessor.ApplyRedactions | pdf_pii_redactor/pdf_processor.py:62-112 | an open failure propagates. The call succeeds exactly when every redaction's page exists, and then writes the document with the planned mutations. Otherwise it raises for a missing page that has redactions and writes nothing |
| PdfProcessor.OpsFiltersConcat | pdf_pii_redactor/pdf_processor.py:84-99 | the applied pages and the mark count of concatenated mutations combine part by part |
| PdfProcessor.MarkedRectsConcat | pdf_pii_redactor/pdf_processor.py:88-96 | the marks on one page of concatenated mutations are those of each part, in order |
| PdfProcessor.MarksShape | pdf_pii_redactor/pdf_processor.py:88-96 | one page's marks are one per group member, on that page, with the member's rectangle and no application |
| PdfProcessor.PlannedOpsApplied | pdf_pii_redactor/pdf_processor.py:84-99 | each page of the dict order is applied once, in that order |
| PdfProcessor.PlannedOpsPages | pdf_pii_redactor/pdf_processor.py:84-99 | no mutation touches a page outside the dict order |
| PdfProcessor.PlannedOpsMarked | pdf_pii_redactor/pdf_processor.py:84-99 | with distinct pages, each listed page has exactly its group's rectangles marked and any other page none |
| PdfProcessor.PlannedOpsCount | pdf_pii_redactor/pdf_processor.py:84-99 | one mark is made per member of each group |
| PdfProcessor.MarksBeforeApplyAppend | pdf_pii_redactor/pdf_processor.py:87-99 | appending a new page's marks and its application keeps every mark before its page's single application |
| PdfProcessor.PlannedOpsMarkBeforeApply | pdf_pii_redactor/pdf_processor.py:87-99 | on every page, all marks precede the page's single application |
| PdfProcessor.KeyedByPageIsAll | pdf_pii_redactor/pdf_processor.py:77-81 | every redaction is filed under its page |
| PdfProcessor.RedactionOpsPages | pdf_pii_redactor/pdf_processor.py:76-99 | the pages applied are the redactions' pages in first-appearance order, each once; every mutation is on a page some redaction names |
| PdfProcessor.RedactionOpsMarks | pdf_pii_redactor/pdf_processor.py:76-99 | every page gets exactly its redactions' rectangles in input order, all before its application, one mark per redaction |
| LanguageDetector.DetectLanguage | pdf_pii_redactor/language_detector.py:25-48 | the answer is English, or the detector's answer on a text whose stripped length is at least ten |
| LanguageDetector.DetectLanguageCases | pdf_pii_redactor/language_detector.py:35-48 | the detector's code is returned exactly when the text is long enough and detection succeeds; English when the text is short or the detector raises |
| LanguageDetector.ShortTextIgnoresDetector | pdf_pii_redactor/language_detector.py:36-38 | a text under ten characters gets English whatever the detector |
| LanguageDetector.BlankTextIsFallback | pdf_pii_redactor/language_detector.py:36-38 | an all-white-space text gets English whatever its length |
| LanguageDetector.PageSample | pdf_pii_redactor/language_detector.py:66-68 | a page contributes at most its first thousand characters, followed by one space; a page without text contributes just the space |
| LanguageDetector.DetectDocumentLanguage | pdf_pii_redactor/language_detector.py:50-70 | the result is the language of the first five pages' samples, and English for no pages |
| LanguageDetector.SampleOf | pdf_pii_redactor/language_detector.py:65-68 | each sampled page adds between 1 and 1001 characters |
| LanguageDetector.Sample | pdf_pii_redactor/language_detector.py:64-68 | the sample has at least one character per sampled page (at most five pages) and at most 5005 characters |
| LanguageDetector.LaterPagesIgnored | pdf_pii_redactor/language_detector.py:65 | pages after the fifth do not change the detected language |
| LanguageDetector.SampleOfBlank | pdf_pii_redactor/language_detector.py:64-68 | blank or missing page texts give a blank sample |
| LanguageDetector.BlankDocumentIsFallback | pdf_pii_redactor/language_detector.py:64-70 | a document whose first five pages are blank gets English whatever the detector |
| PiiDetector.CreatePrompt | pdf_pii_redactor/pii_detector.py:84-132 | the user message is the fixed lead followed by the text verbatim; the system message embeds the language between its fixed parts |
| PiiDetector.CreatePromptInjective | pdf_pii_redactor/pii_detector.py:111-127 | the prompt determines the text and the language |
| PiiDetector.DetectPii | pdf_pii_redactor/pii_detector.py:42-82 | the result is empty, or is the model's "pii" list for a text whose stripped length is at least five |
| PiiDetector.DetectPiiCases | pdf_pii_redactor/pii_detector.py:53-82 | the "pii" list is returned exactly when the text is long enough and the reply is an object holding it; an empty list when the text is short, the call raised, the reply was not an object or had no "pii" |
| PiiDetector.ShortTextNotSent | pdf_pii_redactor/pii_detector.py:53-54 | a text under five characters yields nothing whatever the model |
| PiiDetector.BlankTextNotSent | pdf_pii_redactor/pii_detector.py:53-54 | an all-white-space text yields nothing |
| Redactor.CollectConcat | pdf_pii_redactor/redactor.py:70-96 | accumulating over two runs of items: the first failure wins, otherwise the redactions are concatenated |
| Redactor.CollectPrefixFailure | pdf_pii_redactor/redactor.py:70-96 | a `KeyError` raised while processing some item ends the whole loop with that error |
| Redactor.CollectShape | pdf_pii_redactor/redactor.py:70-96 | the accumulation succeeds exactly when every item does, and then holds exactly the items' redactions |
| Redactor.CollectSource | pdf_pii_redactor/redactor.py:70-96 | every accumulated redaction comes from a specific item and position |
| Redactor.Label | pdf_pii_redactor/redactor.py:85-96 | one record per hit, in order, on the page, with the hit's rectangle and the finding's value and type |
| Redactor.CoverFinding | pdf_pii_redactor/redactor.py:78-96 | the hit loop for one finding yields exactly that finding's redactions or its `KeyError` |
| Redactor.InstancesOnStep | pdf_pii_redactor/redactor.py:85-86 | one more instance survives the page filter exactly when it is on the page |
| Redactor.InstancesOnPrefix | pdf_pii_redactor/redactor.py:85-94 | a same-page hit found early is still a same-page hit of the whole search |
| Redactor.LabelStep | pdf_pii_redactor/redactor.py:87-96 | one more hit appends one more record |
| Redactor.FindingOutcome | pdf_pii_redactor/redactor.py:78-96 | a finding fails exactly when its "value" is missing, or its "type" is missing and the value has a hit on its page; the error names the missing key |
| Redactor.FindingHits | pdf_pii_redactor/redactor.py:82-96 | a complete finding yields one redaction per hit of its value on its page, in search order, carrying its value and type; none when no hit |
| Redactor.CoverFindings | pdf_pii_redactor/redactor.py:78-96 | the finding loop of one page yields the concatenated redactions of its findings, or the first `KeyError` |
| Redactor.FindingsCover | pdf_pii_redactor/redactor.py:78-96 | every redaction of a page lies on that page, within the document, over a hit of its own text |
| Redactor.FindingsRepeated | pdf_pii_redactor/redactor.py:78-96 | findings are not deduplicated: a repeated list yields its redactions twice |
| Redactor.PageRedactions | pdf_pii_redactor/redactor.py:70-96 | a page's redactions are those of the findings the detector returns for its text |
| Redactor.PagesCover | pdf_pii_redactor/redactor.py:70-96 | every redaction of the document names an existing page that has text, over a hit of its own text |
| Redactor.PiiTypes | pdf_pii_redactor/redactor.py:113 | the types reported are distinct, are exactly the redactions' types, and are empty exactly when there are no redactions |
| Redactor.CoverPages | pdf_pii_redactor/redactor.py:70-96 | the page loop accumulates every page's redactions in page order, or stops at the first `KeyError` |
| Redactor.RedactionRun | pdf_pii_redactor/redactor.py:43-116 | a failed run writes nothing; a run writes at most one file, the output; a run that got past the early return always writes it |
| Redactor.RedactPdf | pdf_pii_redactor/redactor.py:43-116 | the result and the files written are exactly those of `RedactionRun`: early return, apply-or-copy, statistics |
| Redactor.EarlyReturnIffNoText | pdf_pii_redactor/redactor.py:57-61 | the run returns zero statistics and writes nothing exactly when every page is blank |
| Redactor.RunWrites | pdf_pii_redactor/redactor.py:99-106 | a failed run writes nothing; a run past the early return writes only the output: the redacted document when something was redacted, the byte copy's result otherwise |
| Redactor.RaisingModelFindsNothing | pdf_pii_redactor/redactor.py:70-96 | when every model call raises, the page loop collects no redaction and does not fail |
| Redactor.CopyOntoInputEmptiesIt | pdf_pii_redactor/redactor.py:99-116 | with the output path equal to the input path, a document with text where nothing is found is reported as a success with zero redactions, while the file is left empty |
| Redactor.RunStats | pdf_pii_redactor/redactor.py:109-114 | past the early return, `pages_processed` is the number of extracted pages (between one and all pages), `redacted_items` is the number of redactions the page loop collected, and the types are distinct and empty exactly when nothing was redacted |
| Redactor.RunOutput | pdf_pii_redactor/redactor.py:98-114 | when something is redacted, `apply_redactions` receives the whole list once, and the statistics count it |
| Redactor.RunFindsOnlyPageText | pdf_pii_redactor/redactor.py:70-96 | every redaction a run collects names an existing, non-blank page and covers a search hit of its own text there |
| Utils.Header | pdf_pii_redactor/utils.py:37 | the header is a prefix of at most five bytes, exactly five when the file has them |
| Utils.ValidatePdf | pdf_pii_redactor/utils.py:12-45 | a path is accepted exactly when it exists, is a file, ends in `.pdf` in any case, can be read and starts with `%PDF-` |
| Utils.ValidatePdfExamples | pdf_pii_redactor/utils.py:30-40 | `X.PDF` with the header passes; a file of four header bytes fails |
| Utils.GroupByType | pdf_pii_redactor/utils.py:48-67 | the dict holds exactly the non-empty types in first-appearance order, each with its findings in input order |
| Utils.TypeKey | pdf_pii_redactor/utils.py:61-62 | (no contract of its own) a finding is grouped under `t` exactly when its type is `t` and `t` is not empty, as `Utils.TypeGroupsShape` states |
| Utils.TypeGroupsShape | pdf_pii_redactor/utils.py:58-67 | the keys are exactly the distinct non-empty types, each group holds only findings of its type, and the sizes add up to the typed findings |
| Utils.KeyedByType | pdf_pii_redactor/utils.py:60-65 | the number of grouped findings is the number with a non-empty type |
| Web.LastDot | pdf_pii_redactor/web.py:44 | the position found holds a dot and no dot follows it; none means the name has no dot |
| Web.AllowedFile | pdf_pii_redactor/web.py:42-44 | (no contract of its own) `Web.AllowedFileIffPdfSuffix` proves it accepts exactly the names ending in `.pdf` in any case |
| Web.AllowedFileHasPdfSuffix | pdf_pii_redactor/web.py:42-44 | an accepted name ends in `.pdf` in any case |
| Web.PdfSuffixIsAllowed | pdf_pii_redactor/web.py:42-44 | a name ending in `.pdf` in any case is accepted |
| Web.AllowedFileIffPdfSuffix | pdf_pii_redactor/web.py:42-44 | `allowed_file` accepts exactly the names ending in `.pdf` in any case |
| Web.AllowedFileExamples | pdf_pii_redactor/web.py:36-44 | `report.PDF` and `a.b.pdf` are accepted; `report` and `report.pdf.exe` are rejected |
| Web.FirstUnderscore | pdf_pii_redactor/web.py:142 | the position found holds `_` and none precedes it; none means the name has no `_` |
| Web.FirstUnderscoreAfter | pdf_pii_redactor/web.py:142 | in `a_b` with `a` free of underscores, the first `_` is the one after `a` |
| Web.DownloadName | pdf_pii_redactor/web.py:142 | when defined, the download name is a suffix of the stored name, preceded by `_` and shorter by at least two characters |
| Web.DownloadNameRoundTrip | pdf_pii_redactor/web.py:142 | `split("_", 2)[2]` of `{id}_redacted_{name}` is `name`, even when `name` holds underscores, for an id without `_` |
| Web.DownloadNameNeedsPlainId | pdf_pii_redactor/web.py:142 | with an underscore in the id, the download name becomes `redacted_{name}` |
| Web.RedactedNameInjective | pdf_pii_redactor/web.py:67-69 | distinct uploads (underscore-free ids) never share a redacted file name |
| Web.UploadNameInjective | pdf_pii_redactor/web.py:67-68 | distinct uploads never share an input file name |
| Web.RedactedNameNotUploadName | pdf_pii_redactor/web.py:67-69 | a redacted file name equals an input file name only when that input was itself named `redacted_{name}`, so one upload's two names always differ |
| Web.UploadName | pdf_pii_redactor/web.py:68 | (no contract of its own) `Web.UploadNameInjective` and `Web.StoredNamesKeepExtension` state its properties |
| Web.RedactedName | pdf_pii_redactor/web.py:69 | (no contract of its own) `Web.RedactedNameInjective`, `Web.DownloadNameRoundTrip` and `Web.StoredNamesKeepExtension` state its properties |
| Web.PdfSuffixAfterUnderscore | pdf_pii_redactor/web.py:68-69 | after a prefix ending in `_`, a name ends in `.pdf` (any case) exactly when it did before |
| Web.StoredNamesKeepExtension | pdf_pii_redactor/web.py:68-69 | both stored names end in `.pdf` in any case exactly when the cleaned-up name does |
| Web.HandleUpload | pdf_pii_redactor/web.py:60-78 | an empty name is "no selection"; a name `allowed_file` refuses is "not allowed" (the `else` at line 104); an upload is accepted exactly when the posted and the cleaned-up name both pass `allowed_file` and the stored file holds a PDF, and is then stored under `{id}_{name}` with output `{id}_redacted_{name}` |
| Web.AcceptedUploadRoundTrip | pdf_pii_redactor/web.py:64-93 | an accepted upload's input and output names differ, and the output downloads under the cleaned-up name, for an identifier without `_` |
| Web.CheckedNameIsNotStoredName | pdf_pii_redactor/web.py:64-78 | the posted name `_.pdf` passes `allowed_file`, yet with `secure_filename` giving `pdf` a genuine PDF is reported invalid |

## Left out

- PyMuPDF itself is left out: text extraction, glyph geometry, `search_for`
  matching, redaction rendering and `close`. A page is its text and size, search is
  an oracle, and rectangles are carried along without being inspected.
- Errors from PyMuPDF other than a failed open are left out: a failing search,
  annotation, application or save. Logging an error before re-raising it is not
  modelled either; the error itself propagates.
- Every re-open of the input returns the same value. The model uses one
  `opening` for `extract_text`, each `find_text_instances` call and
  `apply_redactions`, and treats the oracles as deterministic functions.
- Reading the input for the byte copy is assumed to succeed. The copy is
  recorded as `CopyOf(input)`, or as `Emptied` when the output path is the input
  path. Paths are compared as strings: two spellings of one file (a relative and
  an absolute path, a link) count as different files.
- DocumentAccess.FileSystem.CopyFile: opening or writing the output for the byte
  copy (pdf_pii_redactor/redactor.py:105-106) is assumed to succeed; an `OSError`
  there, which would end `redact_pdf` with that error, is not modelled.
- The OpenAI call, its parameters, `json.loads` and the API-key setup are left
  out. The reply is abstracted to raised / not an object / object with an
  optional "pii" list.
- Redactor.FindingOutcome: a "pii" element that is not a JSON object makes
  `pii["value"]` raise `TypeError` (pdf_pii_redactor/redactor.py:79). The
  `Finding` type only has optional string fields, so this case is not modelled.
- LanguageDetector.DetectLanguage: only `LangDetectException` is caught
  (pdf_pii_redactor/language_detector.py:46). Any other exception from `detect`
  would propagate out of `redact_pdf`; `Detection` has only a code or a failure,
  so this case is not modelled.
- PiiDetector.DetectPii: a "pii" entry that is not a list is not modelled. Nor is
  a "type" or "value" that is not a string; both are taken to be strings when
  present.
- PiiDetector.CreatePrompt: the fixed prompt wording is abbreviated. Only its
  structure is modelled: the lead, then the language, then the trail, and the
  user lead followed by the text.
- The `pii_types` list that `PIIDetector` keeps is left out, because nothing
  reads it.
- Text.Lower: only ASCII letters are lower-cased. Python's full Unicode
  `lower()` is not modelled.
- Redactor.PiiTypes: Python's `set` iteration order is unspecified. The model
  lists the types in order of first appearance; only membership and uniqueness
  are claimed.
- Flask plumbing is left out: routes, `flash`/`redirect`, `send_file`, the
  temporary folder, the cleanup after a request and the error-path deletions.
- `secure_filename` and `uuid4` are left out. `Web.HandleUpload` takes the
  sanitiser as a function parameter and the identifier as a value. Where a lemma
  needs it, the identifier is assumed free of `_`, which a UUID string is.
- The command-line entry point (main.py), setup.py, logging, `tqdm` progress
  bars and the verbosity flags are left out.
- Floating-point coordinates and page sizes are modelled as `real` and are
  never computed with.
