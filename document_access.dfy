/** What the core needs from PyMuPDF and from the file system, and nothing more:
    an opened document is its pages' text and size; `search_for` is an oracle that
    returns hit rectangles; the document object records the redaction annotations
    and per-page applications made on it; the file system records what is written. */
module DocumentAccess {
  import opened Wrappers

  /** A rectangle PyMuPDF reports for a hit. Its coordinates are carried along,
      never inspected. */
  datatype Rect = Rect(x0: real, y0: real, x1: real, y1: real)

  /** One page of an opened document: what `page.get_text()` returns and the page size. */
  datatype SourcePage = SourcePage(text: string, width: real, height: real)

  /** The document `fitz.open(path)` yields. */
  datatype PdfFile = PdfFile(pages: seq<SourcePage>)

  /** `doc[i].search_for(needle)`: the rectangles where `needle` occurs on page `i`,
      in the order PyMuPDF returns them. */
  type Searcher = (nat, string) -> seq<Rect>

  /** The exceptions that propagate out of the core: `fitz.open` failing, indexing a
      page the document does not have (IndexError), and a finding without a key the
      redactor reads (KeyError). */
  datatype Error = OpenFailed | PageOutOfRange(page: nat) | MissingKey(key: string)

  /** A mutation of an opened document: `add_redact_annot` on a page, or
      `apply_redactions` on a page. */
  datatype DocOp = Mark(page: nat, rect: Rect) | ApplyPage(page: nat)

  /** What a write puts at a path: a byte-for-byte copy of another file, nothing at
      all, or a document opened from `source` and saved after the given mutations. */
  datatype FileContent = CopyOf(source: string) | Emptied | SavedDocument(source: string, ops: seq<DocOp>)

  /** What `with open(source, "rb") as src, open(target, "wb") as dst:
      dst.write(src.read())` leaves at `target`. Opening the target for writing
      truncates it before anything is read, so a copy onto the same path leaves an
      empty file; otherwise the target receives the source's bytes. */
  function CopyResult(source: string, target: string): (c: FileContent)
    ensures c == Emptied <==> source == target
    ensures c != Emptied ==> c == CopyOf(source)
  {
    if source == target then Emptied else CopyOf(source)
  }

  /** The files written during a run, in order. */
  class FileSystem {
    var written: seq<(string, FileContent)>

    constructor ()
      ensures written == []
    {
      written := [];
    }

    /** The byte copy of `redact_pdf`; a copy onto the source itself empties it. */
    method CopyFile(source: string, target: string)
      modifies this
      ensures written == old(written) + [(target, CopyResult(source, target))]
    {
      written := written + [(target, CopyResult(source, target))];
    }
  }

  /** A document opened with `fitz.open`, with the mutations made on it so far. */
  class PdfDocument {
    const source: string
    const pageCount: nat
    var ops: seq<DocOp>

    constructor Open(source: string, file: PdfFile)
      ensures this.source == source && pageCount == |file.pages| && ops == []
    {
      this.source := source;
      pageCount := |file.pages|;
      ops := [];
    }

    /** `doc[page].add_redact_annot(rect, text=" ")`. */
    method AddRedactAnnot(page: nat, rect: Rect)
      requires page < pageCount
      modifies this
      ensures ops == old(ops) + [Mark(page, rect)]
    {
      ops := ops + [Mark(page, rect)];
    }

    /** `doc[page].apply_redactions()`. */
    method ApplyRedactions(page: nat)
      requires page < pageCount
      modifies this
      ensures ops == old(ops) + [ApplyPage(page)]
    {
      ops := ops + [ApplyPage(page)];
    }

    /** `doc.save(path)`. */
    method Save(fs: FileSystem, path: string)
      modifies fs
      ensures fs.written == old(fs.written) + [(path, SavedDocument(source, ops))]
    {
      fs.written := fs.written + [(path, SavedDocument(source, ops))];
    }
  }
}
