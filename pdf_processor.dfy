/** The PDF side of the redactor: text extraction, hit search and applying redactions,
    over the document model of DocumentAccess. */
module PdfProcessor {
  import opened Wrappers
  import opened Text
  import opened Grouping
  import opened DocumentAccess

  /** One entry of `extract_text`'s result. */
  datatype PageText = PageText(pageNum: nat, text: string, width: real, height: real)

  /** One entry of `find_text_instances`'s result. */
  datatype TextInstance = TextInstance(pageNum: nat, rect: Rect, text: string)

  /** One redaction record, as the redactor builds it and `apply_redactions` reads it. */
  datatype Redaction = Redaction(pageNum: nat, rect: Rect, text: string, piiType: string)

  // ---------------------------------------------------------------------------
  // extract_text

  /** The pages `extract_text` keeps: those whose text is not all white space (a
      non-empty `text.strip()`), each tagged with its index in the document. */
  function TextPages(pages: seq<SourcePage>): (r: seq<PageText>)
    ensures |r| <= |pages|
  {
    if pages == [] then []
    else
      var last := pages[|pages| - 1];
      TextPages(pages[..|pages| - 1])
      + (if !IsBlank(last.text) then [PageText(|pages| - 1, last.text, last.width, last.height)] else [])
  }

  method ExtractText(opening: Result<PdfFile, Error>) returns (r: Result<seq<PageText>, Error>)
    ensures opening.Failure? ==> r == Failure(opening.error)
    ensures opening.Success? ==> r == Success(TextPages(opening.value.pages))
  {
    if opening.Failure? {
      return Failure(opening.error);
    }
    var doc := opening.value.pages;
    var pages: seq<PageText> := [];
    var pageNum := 0;
    while pageNum < |doc|
      invariant 0 <= pageNum <= |doc|
      invariant pages == TextPages(doc[..pageNum])
    {
      var page := doc[pageNum];
      TextPagesStep(doc, pageNum);
      if HasContent(page.text) {
        pages := pages + [PageText(pageNum, page.text, page.width, page.height)];
      }
      pageNum := pageNum + 1;
    }
    assert doc[..pageNum] == doc;
    return Success(pages);
  }

  /** Extending the scanned prefix by one page adds that page exactly when it is not blank. */
  lemma TextPagesStep(doc: seq<SourcePage>, k: nat)
    requires k < |doc|
    ensures TextPages(doc[..k + 1]) == TextPages(doc[..k])
      + (if !IsBlank(doc[k].text) then [PageText(k, doc[k].text, doc[k].width, doc[k].height)] else [])
  {
    assert doc[..k + 1][..k] == doc[..k];
  }

  /** Every extracted page is a non-blank page of the document, carried over unchanged
      and tagged with its own index; the indices strictly increase, so there are no
      more extracted pages than document pages. */
  lemma {:induction false} TextPagesAreTaggedPages(pages: seq<SourcePage>)
    ensures var r := TextPages(pages);
      && |r| <= |pages|
      && (forall j :: 0 <= j < |r| ==>
            && r[j].pageNum < |pages|
            && r[j].text == pages[r[j].pageNum].text
            && r[j].width == pages[r[j].pageNum].width
            && r[j].height == pages[r[j].pageNum].height
            && !IsBlank(r[j].text))
      && (forall a, b :: 0 <= a < b < |r| ==> r[a].pageNum < r[b].pageNum)
  {
    if pages != [] {
      var init := pages[..|pages| - 1];
      TextPagesAreTaggedPages(init);
      var r := TextPages(pages);
      forall j | 0 <= j < |r|
        ensures r[j].pageNum < |pages| && r[j] == PageText(r[j].pageNum, pages[r[j].pageNum].text,
                  pages[r[j].pageNum].width, pages[r[j].pageNum].height)
      {
        if j < |TextPages(init)| {
          assert pages[r[j].pageNum] == init[r[j].pageNum];
        }
      }
    }
  }

  lemma {:induction false} TextPagesBelow(pages: seq<SourcePage>)
    ensures forall j :: 0 <= j < |TextPages(pages)| ==> TextPages(pages)[j].pageNum < |pages|
  {
    if pages != [] {
      TextPagesBelow(pages[..|pages| - 1]);
    }
  }

  /** Page `i` of the document is among the extracted pages `r`. */
  predicate Extracted(r: seq<PageText>, i: nat) {
    exists j :: 0 <= j < |r| && r[j].pageNum == i
  }

  /** A document page is extracted exactly when its text is not blank. */
  lemma {:induction false} TextPagesKeepNonBlank(pages: seq<SourcePage>, i: nat)
    requires i < |pages|
    ensures !IsBlank(pages[i].text) <==> Extracted(TextPages(pages), i)
  {
    var n := |pages|;
    var init := pages[..n - 1];
    var last := pages[n - 1];
    var r0 := TextPages(init);
    var r := TextPages(pages);
    var extra := if !IsBlank(last.text) then [PageText(n - 1, last.text, last.width, last.height)] else [];
    assert r == r0 + extra;
    TextPagesBelow(init);
    if i < n - 1 {
      TextPagesKeepNonBlank(init, i);
      assert init[i] == pages[i];
      if Extracted(r, i) {
        var j :| 0 <= j < |r| && r[j].pageNum == i;
        assert j < |r0| && r0[j] == r[j];
      }
      if Extracted(r0, i) {
        var j :| 0 <= j < |r0| && r0[j].pageNum == i;
        assert r[j] == r0[j];
      }
    } else {
      if Extracted(r, i) {
        var j :| 0 <= j < |r| && r[j].pageNum == i;
        assert j >= |r0|;
      }
      if extra != [] {
        assert r[|r| - 1].pageNum == i;
      }
    }
  }

  // ---------------------------------------------------------------------------
  // find_text_instances

  /** The hits of one page, each tagged with the page index and the searched text. */
  function Tagged(pageNum: nat, rects: seq<Rect>, needle: string): (r: seq<TextInstance>)
  {
    seq(|rects|, i requires 0 <= i < |rects| => TextInstance(pageNum, rects[i], needle))
  }

  /** The hits of `needle` on the first `pageCount` pages, page after page. */
  function AllInstances(pageCount: nat, search: Searcher, needle: string): (r: seq<TextInstance>)
    ensures |r| == HitCount(pageCount, search, needle)
  {
    if pageCount == 0 then []
    else AllInstances(pageCount - 1, search, needle) + Tagged(pageCount - 1, search(pageCount - 1, needle), needle)
  }

  method FindTextInstances(opening: Result<PdfFile, Error>, search: Searcher, needle: string)
    returns (r: Result<seq<TextInstance>, Error>)
    ensures opening.Failure? ==> r == Failure(opening.error)
    ensures opening.Success? ==> r == Success(AllInstances(|opening.value.pages|, search, needle))
  {
    if opening.Failure? {
      return Failure(opening.error);
    }
    var pageCount := |opening.value.pages|;
    var instances: seq<TextInstance> := [];
    var pageNum := 0;
    while pageNum < pageCount
      invariant 0 <= pageNum <= pageCount
      invariant instances == AllInstances(pageNum, search, needle)
    {
      var rects := search(pageNum, needle);
      var k := 0;
      while k < |rects|
        invariant 0 <= k <= |rects|
        invariant instances == AllInstances(pageNum, search, needle) + Tagged(pageNum, rects[..k], needle)
      {
        assert Tagged(pageNum, rects[..k + 1], needle) == Tagged(pageNum, rects[..k], needle) + [TextInstance(pageNum, rects[k], needle)];
        instances := instances + [TextInstance(pageNum, rects[k], needle)];
        k := k + 1;
      }
      assert rects[..k] == rects;
      pageNum := pageNum + 1;
    }
    return Success(instances);
  }

  /** The hits on page `p`, in order. */
  function InstancesOn(instances: seq<TextInstance>, p: nat): seq<TextInstance>
  {
    if instances == [] then []
    else
      InstancesOn(instances[..|instances| - 1], p)
      + (if instances[|instances| - 1].pageNum == p then [instances[|instances| - 1]] else [])
  }

  lemma {:induction false} InstancesOnConcat(a: seq<TextInstance>, b: seq<TextInstance>, p: nat)
    ensures InstancesOn(a + b, p) == InstancesOn(a, p) + InstancesOn(b, p)
  {
    if b != [] {
      InstancesOnConcat(a, b[..|b| - 1], p);
      assert (a + b)[..|a + b| - 1] == a + b[..|b| - 1];
    } else {
      assert a + b == a;
    }
  }

  lemma {:induction false} InstancesOnTagged(q: nat, rects: seq<Rect>, needle: string, p: nat)
    ensures InstancesOn(Tagged(q, rects, needle), p) == if p == q then Tagged(q, rects, needle) else []
  {
    if rects != [] {
      InstancesOnTagged(q, rects[..|rects| - 1], needle, p);
      assert Tagged(q, rects, needle)[..|rects| - 1] == Tagged(q, rects[..|rects| - 1], needle);
    }
  }

  /** Although the search covers every page, the hits it reports on page `p` are
      exactly that page's own search results, in search order; a page beyond the
      document has none. */
  lemma {:induction false} InstancesOnPage(pageCount: nat, search: Searcher, needle: string, p: nat)
    ensures InstancesOn(AllInstances(pageCount, search, needle), p)
            == if p < pageCount then Tagged(p, search(p, needle), needle) else []
  {
    if pageCount > 0 {
      var q := pageCount - 1;
      InstancesOnPage(q, search, needle, p);
      InstancesOnConcat(AllInstances(q, search, needle), Tagged(q, search(q, needle), needle), p);
      InstancesOnTagged(q, search(q, needle), needle, p);
    }
  }

  /** The number of hits of `needle` on the first `pageCount` pages. */
  function HitCount(pageCount: nat, search: Searcher, needle: string): nat
  {
    if pageCount == 0 then 0 else HitCount(pageCount - 1, search, needle) + |search(pageCount - 1, needle)|
  }

  /** As many instances as hits summed over the pages; each names an existing page and
      the searched text, and pages come in document order. */
  lemma {:induction false} AllInstancesShape(pageCount: nat, search: Searcher, needle: string)
    ensures var r := AllInstances(pageCount, search, needle);
      && |r| == HitCount(pageCount, search, needle)
      && (forall i :: 0 <= i < |r| ==> r[i].pageNum < pageCount && r[i].text == needle)
      && (forall a, b :: 0 <= a < b < |r| ==> r[a].pageNum <= r[b].pageNum)
  {
    if pageCount > 0 {
      AllInstancesShape(pageCount - 1, search, needle);
    }
  }

  // ---------------------------------------------------------------------------
  // apply_redactions

  /** The dict key `apply_redactions` files a redaction under: its page. */
  function PageOf(r: Redaction): Option<nat> {
    Some(r.pageNum)
  }

  /** The pages that have redactions, in order of first appearance. */
  function PageOrder(rs: seq<Redaction>): seq<nat> {
    KeyOrder(rs, PageOf)
  }

  /** The redactions of page `p`, in input order. */
  function OnPage(rs: seq<Redaction>, p: nat): seq<Redaction> {
    Members(rs, PageOf, p)
  }

  /** One `add_redact_annot` per redaction of a page's group. */
  function Marks(p: nat, group: seq<Redaction>): seq<DocOp> {
    if group == [] then []
    else Marks(p, group[..|group| - 1]) + [Mark(p, group[|group| - 1].rect)]
  }

  /** The mutations made for the pages in `order`: each page marks all its rectangles
      and then applies them once. */
  function PlannedOps(order: seq<nat>, rs: seq<Redaction>): seq<DocOp>
  {
    if order == [] then []
    else
      var p := order[|order| - 1];
      PlannedOps(order[..|order| - 1], rs) + Marks(p, OnPage(rs, p)) + [ApplyPage(p)]
  }

  /** The mutations `apply_redactions` makes on the document before saving it. */
  function RedactionOps(rs: seq<Redaction>): seq<DocOp> {
    PlannedOps(PageOrder(rs), rs)
  }

  /** Every redaction names a page the document has. */
  predicate InRange(rs: seq<Redaction>, pageCount: nat) {
    forall i :: 0 <= i < |rs| ==> rs[i].pageNum < pageCount
  }

  /** The redactions all lie within the document exactly when their pages do. */
  lemma InRangeByPages(rs: seq<Redaction>, pageCount: nat)
    ensures InRange(rs, pageCount) <==> forall p :: p in PageOrder(rs) ==> p < pageCount
  {
    KeyOrderHasKeys(rs, PageOf);
    if InRange(rs, pageCount) {
      forall p | p in PageOrder(rs) ensures p < pageCount {
        var j :| 0 <= j < |rs| && PageOf(rs[j]) == Some(p);
      }
    }
    if forall p :: p in PageOrder(rs) ==> p < pageCount {
      forall j | 0 <= j < |rs| ensures rs[j].pageNum < pageCount {
        assert PageOf(rs[j]) == Some(rs[j].pageNum);
      }
    }
  }

  /** The body of the per-page loop: mark every rectangle of the page's group, then
      apply them all at once. */
  method RedactPage(doc: PdfDocument, p: nat, group: seq<Redaction>)
    requires p < doc.pageCount
    modifies doc
    ensures doc.ops == old(doc.ops) + Marks(p, group) + [ApplyPage(p)]
  {
    var k := 0;
    while k < |group|
      invariant 0 <= k <= |group|
      invariant doc.ops == old(doc.ops) + Marks(p, group[..k])
    {
      assert group[..k + 1][..k] == group[..k];
      doc.AddRedactAnnot(p, group[k].rect);
      k := k + 1;
    }
    assert group[..k] == group;
    doc.ApplyRedactions(p);
  }

  /** The loop over the groups, in the dict's order; it stops at the first page the
      document does not have, which `doc[page_num]` reports with an IndexError. */
  method RedactGroups(doc: PdfDocument, groups: Groups<nat, Redaction>, rs: seq<Redaction>)
    returns (missing: Option<nat>)
    requires groups.order == PageOrder(rs)
    requires forall k :: k in groups.order ==> k in groups.members && groups.members[k] == OnPage(rs, k)
    requires doc.ops == []
    modifies doc
    ensures missing.None? ==> doc.ops == RedactionOps(rs) && forall p :: p in PageOrder(rs) ==> p < doc.pageCount
    ensures missing.Some? ==> missing.value in PageOrder(rs) && missing.value >= doc.pageCount
  {
    var i := 0;
    while i < |groups.order|
      invariant 0 <= i <= |groups.order|
      invariant doc.ops == PlannedOps(groups.order[..i], rs)
      invariant forall j :: 0 <= j < i ==> groups.order[j] < doc.pageCount
    {
      var p := groups.order[i];
      if p >= doc.pageCount {
        return Some(p);
      }
      PlannedOpsStep(groups.order, i, rs);
      RedactPage(doc, p, groups.members[p]);
      i := i + 1;
    }
    assert groups.order[..i] == groups.order;
    return None;
  }

  lemma PlannedOpsStep(order: seq<nat>, i: nat, rs: seq<Redaction>)
    requires i < |order|
    ensures PlannedOps(order[..i + 1], rs)
      == PlannedOps(order[..i], rs) + Marks(order[i], OnPage(rs, order[i])) + [ApplyPage(order[i])]
  {
    assert order[..i + 1][..i] == order[..i];
  }

  /** Opens `source`, groups the redactions by page, marks and applies them page by
      page, and saves to `outputPath`. Any failure propagates and leaves nothing written. */
  method ApplyRedactions(source: string, opening: Result<PdfFile, Error>, outputPath: string,
                         redactions: seq<Redaction>, fs: FileSystem)
    returns (r: Outcome<Error>)
    modifies fs
    ensures opening.Failure? ==> r == Fail(opening.error)
    ensures opening.Success? ==> (r.Pass? <==> InRange(redactions, |opening.value.pages|))
    ensures opening.Success? && r.Fail? ==>
              r.error.PageOutOfRange? && r.error.page >= |opening.value.pages| && r.error.page in PageOrder(redactions)
    ensures r.Pass? ==> fs.written == old(fs.written) + [(outputPath, SavedDocument(source, RedactionOps(redactions)))]
    ensures r.Fail? ==> fs.written == old(fs.written)
  {
    if opening.Failure? {
      return Fail(opening.error);
    }
    var groups: Groups<nat, Redaction> := GroupBy(redactions, PageOf);
    var doc := new PdfDocument.Open(source, opening.value);
    var missing := RedactGroups(doc, groups, redactions);
    InRangeByPages(redactions, doc.pageCount);
    if missing.Some? {
      return Fail(PageOutOfRange(missing.value));
    }
    doc.Save(fs, outputPath);
    return Pass;
  }

  // ---------------------------------------------------------------------------
  // What the mutations of apply_redactions look like

  /** The pages `apply_redactions` is called on, in order. */
  function AppliedPages(ops: seq<DocOp>): seq<nat>
  {
    if ops == [] then []
    else AppliedPages(ops[..|ops| - 1]) + (if ops[|ops| - 1].ApplyPage? then [ops[|ops| - 1].page] else [])
  }

  /** The rectangles marked on page `p`, in order. */
  function MarkedRects(ops: seq<DocOp>, p: nat): seq<Rect>
  {
    if ops == [] then []
    else MarkedRects(ops[..|ops| - 1], p) + (if ops[|ops| - 1].Mark? && ops[|ops| - 1].page == p then [ops[|ops| - 1].rect] else [])
  }

  /** The number of rectangles marked, on any page. */
  function MarkCount(ops: seq<DocOp>): nat
  {
    if ops == [] then 0
    else MarkCount(ops[..|ops| - 1]) + (if ops[|ops| - 1].Mark? then 1 else 0)
  }

  /** The rectangles of a group of redactions, in order. */
  function Rects(group: seq<Redaction>): seq<Rect>
  {
    if group == [] then [] else Rects(group[..|group| - 1]) + [group[|group| - 1].rect]
  }

  /** The pages applied and the number of marks of a concatenation are those of each
      part combined. */
  lemma {:induction false} OpsFiltersConcat(a: seq<DocOp>, b: seq<DocOp>)
    ensures AppliedPages(a + b) == AppliedPages(a) + AppliedPages(b)
    ensures MarkCount(a + b) == MarkCount(a) + MarkCount(b)
  {
    if b == [] {
      assert a + b == a;
    } else {
      OpsFiltersConcat(a, b[..|b| - 1]);
      assert (a + b)[..|a + b| - 1] == a + b[..|b| - 1];
    }
  }

  /** The marks on one page of a concatenation are those of each part, in order. */
  lemma {:induction false} MarkedRectsConcat(a: seq<DocOp>, b: seq<DocOp>, p: nat)
    ensures MarkedRects(a + b, p) == MarkedRects(a, p) + MarkedRects(b, p)
  {
    if b == [] {
      assert a + b == a;
    } else {
      MarkedRectsConcat(a, b[..|b| - 1], p);
      assert (a + b)[..|a + b| - 1] == a + b[..|b| - 1];
    }
  }

  lemma {:induction false} MarksShape(p: nat, group: seq<Redaction>)
    ensures |Marks(p, group)| == |group|
    ensures forall i :: 0 <= i < |group| ==> Marks(p, group)[i] == Mark(p, group[i].rect)
    ensures AppliedPages(Marks(p, group)) == []
    ensures forall q :: MarkedRects(Marks(p, group), q) == if q == p then Rects(group) else []
    ensures MarkCount(Marks(p, group)) == |group|
  {
    if group != [] {
      var init := group[..|group| - 1];
      var last := [Mark(p, group[|group| - 1].rect)];
      MarksShape(p, init);
      OpsFiltersConcat(Marks(p, init), last);
      forall q ensures MarkedRects(Marks(p, group), q) == if q == p then Rects(group) else [] {
        MarkedRectsConcat(Marks(p, init), last, q);
      }
    }
  }

  /** The mutations apply each page of the order once, in that order. */
  lemma {:induction false} PlannedOpsApplied(order: seq<nat>, rs: seq<Redaction>)
    ensures AppliedPages(PlannedOps(order, rs)) == order
  {
    if order != [] {
      var front := order[..|order| - 1];
      var p := order[|order| - 1];
      PlannedOpsApplied(front, rs);
      MarksShape(p, OnPage(rs, p));
      OpsFiltersConcat(PlannedOps(front, rs), Marks(p, OnPage(rs, p)));
      OpsFiltersConcat(PlannedOps(front, rs) + Marks(p, OnPage(rs, p)), [ApplyPage(p)]);
    }
  }

  /** The mutations touch no page outside the order. */
  lemma {:induction false} PlannedOpsPages(order: seq<nat>, rs: seq<Redaction>)
    ensures forall i :: 0 <= i < |PlannedOps(order, rs)| ==> PlannedOps(order, rs)[i].page in order
  {
    if order != [] {
      var front := order[..|order| - 1];
      var p := order[|order| - 1];
      PlannedOpsPages(front, rs);
      MarksShape(p, OnPage(rs, p));
      var before := PlannedOps(front, rs);
      var marks := Marks(p, OnPage(rs, p));
      var ops := PlannedOps(order, rs);
      assert ops == before + marks + [ApplyPage(p)];
      forall i | 0 <= i < |ops| ensures ops[i].page in order {
        if i < |before| {
          assert ops[i] == before[i];
          assert before[i].page in front;
        } else if i < |before| + |marks| {
          assert ops[i] == marks[i - |before|];
        }
      }
    }
  }

  /** For distinct pages, each page of the order has exactly the rectangles of its
      group marked, and any other page none. */
  lemma {:induction false} PlannedOpsMarked(order: seq<nat>, rs: seq<Redaction>, q: nat)
    requires Distinct(order)
    ensures MarkedRects(PlannedOps(order, rs), q) == if q in order then Rects(OnPage(rs, q)) else []
  {
    if order != [] {
      var front := order[..|order| - 1];
      var p := order[|order| - 1];
      assert Distinct(front);
      assert p !in front;
      var marks := Marks(p, OnPage(rs, p));
      PlannedOpsMarked(front, rs, q);
      MarksShape(p, OnPage(rs, p));
      MarkedRectsConcat(PlannedOps(front, rs), marks, q);
      MarkedRectsConcat(PlannedOps(front, rs) + marks, [ApplyPage(p)], q);
      assert MarkedRects([ApplyPage(p)], q) == [];
      assert q in order <==> q in front || q == p;
    }
  }

  /** One rectangle is marked per member of each group in the order. */
  lemma {:induction false} PlannedOpsCount(order: seq<nat>, rs: seq<Redaction>)
    ensures MarkCount(PlannedOps(order, rs)) == TotalSize(order, rs, PageOf)
  {
    if order != [] {
      var front := order[..|order| - 1];
      var p := order[|order| - 1];
      PlannedOpsCount(front, rs);
      MarksShape(p, OnPage(rs, p));
      OpsFiltersConcat(PlannedOps(front, rs), Marks(p, OnPage(rs, p)));
      OpsFiltersConcat(PlannedOps(front, rs) + Marks(p, OnPage(rs, p)), [ApplyPage(p)]);
    }
  }

  /** On each page every mark comes before the page's application, and the page is
      applied only there. */
  predicate MarksBeforeApply(ops: seq<DocOp>) {
    forall a, b :: 0 <= a < |ops| && 0 <= b < |ops| && ops[b] == ApplyPage(ops[a].page) ==>
      (ops[a].Mark? ==> a < b) && (ops[a].ApplyPage? ==> a == b)
  }

  /** Appending a page's marks and its application to mutations that never touch the
      page keeps every mark before its page's application. */
  lemma MarksBeforeApplyAppend(before: seq<DocOp>, p: nat, marks: seq<DocOp>)
    requires MarksBeforeApply(before)
    requires forall i :: 0 <= i < |before| ==> before[i].page != p
    requires forall i :: 0 <= i < |marks| ==> marks[i].Mark? && marks[i].page == p
    ensures MarksBeforeApply(before + marks + [ApplyPage(p)])
  {
    var ops := before + marks + [ApplyPage(p)];
    assert forall i :: 0 <= i < |before| ==> ops[i] == before[i];
    assert forall i :: |before| <= i < |before| + |marks| ==> ops[i] == marks[i - |before|];
    assert ops[|ops| - 1] == ApplyPage(p);
  }

  lemma {:induction false} PlannedOpsMarkBeforeApply(order: seq<nat>, rs: seq<Redaction>)
    requires Distinct(order)
    ensures MarksBeforeApply(PlannedOps(order, rs))
  {
    if order != [] {
      var front := order[..|order| - 1];
      var p := order[|order| - 1];
      assert Distinct(front);
      assert p !in front;
      PlannedOpsMarkBeforeApply(front, rs);
      PlannedOpsPages(front, rs);
      MarksShape(p, OnPage(rs, p));
      MarksBeforeApplyAppend(PlannedOps(front, rs), p, Marks(p, OnPage(rs, p)));
    }
  }

  lemma {:induction false} KeyedByPageIsAll(rs: seq<Redaction>)
    ensures Keyed(rs, PageOf) == rs
  {
    if rs != [] {
      KeyedByPageIsAll(rs[..|rs| - 1]);
    }
  }

  /** Which pages `apply_redactions` works on: the pages of the redactions, in order of
      first appearance, each applied exactly once; a page without redactions is never
      touched. */
  lemma RedactionOpsPages(rs: seq<Redaction>)
    ensures var ops := RedactionOps(rs);
      && AppliedPages(ops) == PageOrder(rs)
      && Distinct(AppliedPages(ops))
      && (forall i :: 0 <= i < |ops| ==> exists j :: 0 <= j < |rs| && rs[j].pageNum == ops[i].page)
  {
    var order := PageOrder(rs);
    KeyOrderDistinct(rs, PageOf);
    KeyOrderHasKeys(rs, PageOf);
    PlannedOpsApplied(order, rs);
    PlannedOpsPages(order, rs);
    var ops := RedactionOps(rs);
    forall i | 0 <= i < |ops| ensures exists j :: 0 <= j < |rs| && rs[j].pageNum == ops[i].page {
      assert ops[i].page in order;
      var j :| 0 <= j < |rs| && PageOf(rs[j]) == Some(ops[i].page);
    }
  }

  /** What `apply_redactions` marks: on each page the rectangles of its redactions, in
      input order, all before the page's application; one rectangle per redaction. */
  lemma RedactionOpsMarks(rs: seq<Redaction>)
    ensures var ops := RedactionOps(rs);
      && (forall p :: MarkedRects(ops, p) == Rects(OnPage(rs, p)))
      && MarksBeforeApply(ops)
      && MarkCount(ops) == |rs|
  {
    var order := PageOrder(rs);
    KeyOrderDistinct(rs, PageOf);
    forall p ensures MarkedRects(RedactionOps(rs), p) == Rects(OnPage(rs, p)) {
      PlannedOpsMarked(order, rs, p);
      if p !in order {
        MembersOutsideKeyOrder(rs, PageOf, p);
      }
    }
    PlannedOpsMarkBeforeApply(order, rs);
    PlannedOpsCount(order, rs);
    GroupsPartition(rs, PageOf);
    KeyedByPageIsAll(rs);
  }
}
