/** The pure parts of the web front end: which uploads are accepted, how the
    uploaded and redacted files are named in the upload folder, and how the name
    offered for download is recovered from the stored name. */
module Web {
  import opened Wrappers
  import opened Text
  import opened Utils

  /** The accepted extensions, compared after lower-casing. */
  const AllowedExtensions: set<string> := {"pdf"}

  /** The position of the last `.` in `s`, if any. */
  function LastDot(s: string): (d: Option<nat>)
    ensures d.Some? ==> d.value < |s| && s[d.value] == '.' && forall j :: d.value < j < |s| ==> s[j] != '.'
    ensures d.None? ==> forall j :: 0 <= j < |s| ==> s[j] != '.'
  {
    if s == [] then None
    else if s[|s| - 1] == '.' then Some(|s| - 1)
    else LastDot(s[..|s| - 1])
  }

  /** `filename.rsplit(".", 1)[1]` when the name contains a dot. */
  function Extension(filename: string): Option<string>
  {
    match LastDot(filename)
    case None => None
    case Some(d) => Some(filename[d + 1..])
  }

  /** `allowed_file`: the name has a dot, and what follows the last one is `pdf` in
      any case. `AllowedFileIffPdfSuffix` below restates this as a suffix test. */
  predicate AllowedFile(filename: string)
  {
    Extension(filename).Some? && Lower(Extension(filename).value) in AllowedExtensions
  }

  /** After a prefix ending in `_`, a name keeps its `.pdf` suffix and gains none:
      the `_` cannot stand in for any character of `.pdf`. */
  lemma PdfSuffixAfterUnderscore(p: string, name: string)
    requires p != [] && p[|p| - 1] == '_'
    ensures EndsWith(Lower(p + name), ".pdf") <==> EndsWith(Lower(name), ".pdf")
  {
    var low := Lower(p + name);
    LowerConcat(p, name);
    var n := |name|;
    if n >= 4 {
      assert low[|low| - 4..] == Lower(name)[n - 4..];
    } else {
      var u := |low| - n - 1;
      assert low[u] == '_';
    }
  }

  /** Only a dot lower-cases to a dot. */
  lemma LowerCharDot(c: char)
    ensures LowerChar(c) == '.' <==> c == '.'
  {
  }

  lemma AllowedFileHasPdfSuffix(filename: string)
    requires AllowedFile(filename)
    ensures EndsWith(Lower(filename), ".pdf")
  {
    var n := |filename|;
    var d := LastDot(filename).value;
    var ext := filename[d + 1..];
    assert Lower(ext) == "pdf";
    assert d == n - 4;
    var low := Lower(filename);
    assert low[n - 4] == LowerChar('.') == '.';
    assert low[n - 3] == Lower(ext)[0] && low[n - 2] == Lower(ext)[1] && low[n - 1] == Lower(ext)[2];
    assert low[n - 4..] == ".pdf";
  }

  lemma PdfSuffixIsAllowed(filename: string)
    requires EndsWith(Lower(filename), ".pdf")
    ensures AllowedFile(filename)
  {
    var n := |filename|;
    var low := Lower(filename);
    assert low[n - 4] == '.' && low[n - 3] == 'p' && low[n - 2] == 'd' && low[n - 1] == 'f';
    LowerCharDot(filename[n - 4]);
    LowerCharDot(filename[n - 3]);
    LowerCharDot(filename[n - 2]);
    LowerCharDot(filename[n - 1]);
    var d := LastDot(filename).value;
    assert d == n - 4;
    var ext := filename[d + 1..];
    assert Lower(ext)[0] == low[n - 3] && Lower(ext)[1] == low[n - 2] && Lower(ext)[2] == low[n - 1];
    assert Lower(ext) == "pdf";
  }

  /** `allowed_file` accepts exactly the names that end in `.pdf` in any case, which
      is the extension check `validate_pdf` makes. */
  lemma AllowedFileIffPdfSuffix(filename: string)
    ensures AllowedFile(filename) <==> EndsWith(Lower(filename), ".pdf")
  {
    if AllowedFile(filename) {
      AllowedFileHasPdfSuffix(filename);
    }
    if EndsWith(Lower(filename), ".pdf") {
      PdfSuffixIsAllowed(filename);
    }
  }

  /** Names `allowed_file` accepts and rejects. */
  lemma AllowedFileExamples()
    ensures AllowedFile("report.PDF") && AllowedFile("a.b.pdf")
    ensures !AllowedFile("report") && !AllowedFile("report.pdf.exe")
  {
    assert Lower("report.PDF")[6..] == ".pdf";
    PdfSuffixIsAllowed("report.PDF");
    assert Lower("a.b.pdf")[3..] == ".pdf";
    PdfSuffixIsAllowed("a.b.pdf");
    assert LastDot("report") == None;
    var exe := "report.pdf.exe";
    assert exe[10] == '.' && exe[11] == 'e' && exe[12] == 'x' && exe[13] == 'e';
    assert LastDot(exe) == Some(10);
    assert Lower(exe[11..])[0] == 'e';
  }

  /** The stored name of an upload: `{id}_{name}`. */
  function UploadName(id: string, name: string): string {
    id + "_" + name
  }

  /** The stored name of its redacted copy: `{id}_redacted_{name}`. */
  function RedactedName(id: string, name: string): string {
    id + "_redacted_" + name
  }

  /** Whatever the identifier, both stored names end in `.pdf` (in any case) exactly
      when the name does. */
  lemma StoredNamesKeepExtension(id: string, name: string)
    ensures EndsWith(Lower(UploadName(id, name)), ".pdf") <==> EndsWith(Lower(name), ".pdf")
    ensures EndsWith(Lower(RedactedName(id, name)), ".pdf") <==> EndsWith(Lower(name), ".pdf")
  {
    PdfSuffixAfterUnderscore(id + "_", name);
    PdfSuffixAfterUnderscore(id + "_redacted_", name);
    assert RedactedName(id, name) == (id + "_redacted_") + name;
  }

  /** The position of the first `_` in `s`, if any. */
  function FirstUnderscore(s: string): (u: Option<nat>)
    ensures u.Some? ==> u.value < |s| && s[u.value] == '_' && forall j :: 0 <= j < u.value ==> s[j] != '_'
    ensures u.None? ==> forall j :: 0 <= j < |s| ==> s[j] != '_'
  {
    if s == [] then None
    else if s[0] == '_' then Some(0)
    else match FirstUnderscore(s[1..])
      case None => None
      case Some(u) => Some(u + 1)
  }

  /** `filename.split("_", 2)[2]`: what follows the second underscore; `None` where
      the split has fewer than three parts and the indexing raises. */
  function DownloadName(filename: string): (r: Option<string>)
    ensures r.Some? ==> |r.value| + 2 <= |filename| && r.value == filename[|filename| - |r.value|..]
                        && filename[|filename| - |r.value| - 1] == '_'
  {
    match FirstUnderscore(filename)
    case None => None
    case Some(a) =>
      match FirstUnderscore(filename[a + 1..])
      case None => None
      case Some(b) => Some(filename[a + 1 + b + 1..])
  }

  /** The first underscore of `a + "_" + b`, when `a` has none, is the one added. */
  lemma FirstUnderscoreAfter(a: string, b: string)
    requires forall j :: 0 <= j < |a| ==> a[j] != '_'
    ensures FirstUnderscore(a + "_" + b) == Some(|a|)
  {
    var s := a + "_" + b;
    var u := FirstUnderscore(s);
    assert s[|a|] == '_';
    assert u.Some?;
    assert forall j :: 0 <= j < |a| ==> s[j] == a[j];
  }

  /** The download name of a redacted copy is the name the user uploaded, whatever
      underscores that name holds, provided the identifier holds none (a UUID does
      not). */
  lemma DownloadNameRoundTrip(id: string, name: string)
    requires forall j :: 0 <= j < |id| ==> id[j] != '_'
    ensures DownloadName(RedactedName(id, name)) == Some(name)
  {
    var s := RedactedName(id, name);
    FirstUnderscoreAfter(id, "redacted_" + name);
    assert s == id + "_" + ("redacted_" + name);
    var rest := s[|id| + 1..];
    assert rest == "redacted" + "_" + name;
    FirstUnderscoreAfter("redacted", name);
    assert s[|id| + 1 + 8 + 1..] == name;
  }

  /** An identifier with one underscore breaks the round trip: the download name then
      starts with `redacted_`. */
  lemma DownloadNameNeedsPlainId(a: string, b: string, name: string)
    requires forall j :: 0 <= j < |a| ==> a[j] != '_'
    requires forall j :: 0 <= j < |b| ==> b[j] != '_'
    ensures DownloadName(RedactedName(a + "_" + b, name)) == Some("redacted_" + name)
  {
    var tail := "redacted_" + name;
    var rest := b + "_" + tail;
    var s := a + "_" + rest;
    assert RedactedName(a + "_" + b, name) == s;
    FirstUnderscoreAfter(a, rest);
    assert s[|a| + 1..] == rest;
    FirstUnderscoreAfter(b, tail);
    assert rest[|b| + 1..] == tail;
    assert s[|a| + 1 + |b| + 1..] == tail;
  }


  /** Uploads with underscore-free identifiers never share a stored name unless both
      the identifier and the name agree. */
  lemma RedactedNameInjective(id1: string, n1: string, id2: string, n2: string)
    requires forall j :: 0 <= j < |id1| ==> id1[j] != '_'
    requires forall j :: 0 <= j < |id2| ==> id2[j] != '_'
    requires RedactedName(id1, n1) == RedactedName(id2, n2)
    ensures id1 == id2 && n1 == n2
  {
    var s := RedactedName(id1, n1);
    assert s == id1 + "_" + ("redacted_" + n1);
    assert s == id2 + "_" + ("redacted_" + n2);
    FirstUnderscoreAfter(id1, "redacted_" + n1);
    FirstUnderscoreAfter(id2, "redacted_" + n2);
    assert |id1| == |id2|;
    assert id1 == s[..|id1|] == id2;
    assert n1 == s[|id1| + 10..] == n2;
  }

  lemma UploadNameInjective(id1: string, n1: string, id2: string, n2: string)
    requires forall j :: 0 <= j < |id1| ==> id1[j] != '_'
    requires forall j :: 0 <= j < |id2| ==> id2[j] != '_'
    requires UploadName(id1, n1) == UploadName(id2, n2)
    ensures id1 == id2 && n1 == n2
  {
    FirstUnderscoreAfter(id1, n1);
    FirstUnderscoreAfter(id2, n2);
    assert id1 == UploadName(id1, n1)[..|id1|];
    assert n1 == UploadName(id1, n1)[|id1| + 1..];
  }

  /** A redacted copy never overwrites the stored input of an upload. */
  lemma RedactedNameNotUploadName(id1: string, n1: string, id2: string, n2: string)
    requires forall j :: 0 <= j < |id1| ==> id1[j] != '_'
    requires forall j :: 0 <= j < |id2| ==> id2[j] != '_'
    ensures RedactedName(id1, n1) != UploadName(id2, n2) || n2 == "redacted_" + n1
  {
    if RedactedName(id1, n1) == UploadName(id2, n2) {
      FirstUnderscoreAfter(id1, "redacted_" + n1);
      FirstUnderscoreAfter(id2, n2);
      assert RedactedName(id1, n1) == id1 + "_" + ("redacted_" + n1);
      assert |id1| == |id2|;
      assert n2 == UploadName(id2, n2)[|id2| + 1..];
      assert "redacted_" + n1 == RedactedName(id1, n1)[|id1| + 1..];
    }
  }

  /** The bytes stored for an upload make `validate_pdf` accept a path with the
      right extension: the path names an existing regular file that can be read and
      starts with `%PDF-`. */
  predicate HoldsPdf(file: FileFacts) {
    file.present && file.isFile && file.contents.Some? && PdfMagic <= file.contents.value
  }

  /** How the upload form answers a posted file. */
  datatype UploadDecision =
    | NoSelection                             // the file name is empty
    | NotAllowed                              // `allowed_file` refuses the name
    | InvalidPdf                              // the stored file fails `validate_pdf`
    | Accepted(input: string, output: string) // the stored input and the redacted output

  /** The checks of the upload form, in order: an empty file name, `allowed_file` on
      the name as posted, then `validate_pdf` on the file stored under the cleaned-up
      name. `clean` is `secure_filename`, `id` the generated identifier and `stored`
      what the file system says about the saved upload. */
  function HandleUpload(posted: string, clean: string -> string, id: string, stored: FileFacts): (d: UploadDecision)
    ensures d == NoSelection <==> posted == ""
    ensures d == NotAllowed <==> posted != "" && !AllowedFile(posted)
    ensures d.Accepted? <==> AllowedFile(posted) && AllowedFile(clean(posted)) && HoldsPdf(stored)
    ensures d.Accepted? ==> d.input == UploadName(id, clean(posted)) && d.output == RedactedName(id, clean(posted))
  {
    AllowedFileIffPdfSuffix(clean(posted));
    StoredNamesKeepExtension(id, clean(posted));
    if posted == "" then NoSelection
    else if !AllowedFile(posted) then NotAllowed
    else
      var name := clean(posted);
      if !ValidatePdf(UploadName(id, name), stored) then InvalidPdf
      else Accepted(UploadName(id, name), RedactedName(id, name))
  }

  /** An accepted upload's two stored names differ, and the redacted one downloads
      under the cleaned-up name, provided the identifier has no `_` (a UUID has none). */
  lemma AcceptedUploadRoundTrip(posted: string, clean: string -> string, id: string, stored: FileFacts)
    requires forall j :: 0 <= j < |id| ==> id[j] != '_'
    requires HandleUpload(posted, clean, id, stored).Accepted?
    ensures var d := HandleUpload(posted, clean, id, stored);
      d.input != d.output && DownloadName(d.output) == Some(clean(posted))
  {
    var name := clean(posted);
    DownloadNameRoundTrip(id, name);
    RedactedNameNotUploadName(id, name, id, name);
  }

  /** `allowed_file` looks at the name as posted, not at the name the file is stored
      under. `secure_filename("_.pdf")` is `pdf`: the posted name passes, the stored
      name `{id}_pdf` has no `.pdf` extension, and a genuine PDF is reported invalid. */
  lemma CheckedNameIsNotStoredName(id: string, stored: FileFacts)
    requires HoldsPdf(stored)
    ensures AllowedFile("_.pdf")
    ensures HandleUpload("_.pdf", (s: string) => if s == "_.pdf" then "pdf" else s, id, stored) == InvalidPdf
  {
    var posted := "_.pdf";
    assert Lower(posted)[1..] == ".pdf";
    PdfSuffixIsAllowed(posted);
  }
}
