/** The helper functions of the tool: checking that a path names a readable PDF
    file, and grouping findings by their type. */
module Utils {
  import opened Wrappers
  import opened Text
  import opened Grouping
  import opened PiiDetector

  newtype byte = b: int | 0 <= b < 256

  /** What the file system says about a path: whether it exists, whether it is a
      regular file, and its bytes (`None` when opening or reading it raises). */
  datatype FileFacts = FileFacts(present: bool, isFile: bool, contents: Option<seq<byte>>)

  /** The five bytes every PDF starts with: `%PDF-`. */
  const PdfMagic: seq<byte> := [0x25, 0x50, 0x44, 0x46, 0x2D]

  /** `f.read(5)`: at most the first five bytes. */
  function Header(contents: seq<byte>): (h: seq<byte>)
    ensures |h| <= 5 && h <= contents
    ensures |contents| >= 5 ==> |h| == 5
  {
    if |contents| <= 5 then contents else contents[..5]
  }

  /** `validate_pdf`: the path exists, is a regular file, ends in `.pdf` in any case,
      can be read, and starts with the PDF header. */
  function ValidatePdf(path: string, file: FileFacts): (ok: bool)
    ensures ok <==> file.present && file.isFile && EndsWith(Lower(path), ".pdf")
                    && file.contents.Some? && PdfMagic <= file.contents.value
  {
    if !file.present then false
    else if !file.isFile then false
    else if !EndsWith(Lower(path), ".pdf") then false
    else if file.contents.None? then false
    else Header(file.contents.value) == PdfMagic
  }

  /** The extension check alone decides nothing about the contents: a file named
      `X.PDF` whose bytes start with the header passes, one named `x.pdf` holding only
      the first four header bytes does not. */
  lemma ValidatePdfExamples(body: seq<byte>)
    ensures ValidatePdf("X.PDF", FileFacts(true, true, Some(PdfMagic + body)))
    ensures !ValidatePdf("x.pdf", FileFacts(true, true, Some([0x25, 0x50, 0x44, 0x46])))
  {
    assert Lower("X.PDF") == "x.pdf";
    assert PdfMagic <= PdfMagic + body;
  }

  /** `pii.get("type")` as a grouping key: a finding whose type is missing or empty
      (falsy) is skipped. */
  function TypeKey(f: Finding): Option<string> {
    if f.piiType.Some? && f.piiType.value != "" then f.piiType else None
  }

  /** `group_by_type`. */
  method GroupByType(findings: seq<Finding>) returns (g: Groups<string, Finding>)
    ensures g.order == KeyOrder(findings, TypeKey)
    ensures forall t :: t in g.members <==> t in g.order
    ensures forall t :: t in g.members ==> g.members[t] == Members(findings, TypeKey, t)
  {
    g := GroupBy(findings, TypeKey);
  }

  /** The groups of `group_by_type`: one per non-empty type that occurs, in order of
      first appearance; each holds only findings of its type, and together they hold
      every finding with a non-empty type and no other. */
  lemma TypeGroupsShape(findings: seq<Finding>)
    ensures Distinct(KeyOrder(findings, TypeKey))
    ensures forall t :: t in KeyOrder(findings, TypeKey) <==>
      t != "" && exists i :: 0 <= i < |findings| && findings[i].piiType == Some(t)
    ensures forall t, f :: f in Members(findings, TypeKey, t) ==> f in findings && f.piiType == Some(t)
    ensures TotalSize(KeyOrder(findings, TypeKey), findings, TypeKey) == |Keyed(findings, TypeKey)|
  {
    KeyOrderExactly(findings, TypeKey);
    GroupsPartition(findings, TypeKey);
    forall t ensures t in KeyOrder(findings, TypeKey) <==>
      t != "" && exists i :: 0 <= i < |findings| && findings[i].piiType == Some(t)
    {
      if t != "" {
        assert forall i :: 0 <= i < |findings| ==> (findings[i].piiType == Some(t) <==> TypeKey(findings[i]) == Some(t));
      }
    }
    forall t ensures forall f :: f in Members(findings, TypeKey, t) ==> f in findings && f.piiType == Some(t) {
      MembersHaveKey(findings, TypeKey, t);
    }
  }

  /** The number of findings `group_by_type` keeps: those with a non-empty type. */
  lemma {:induction false} KeyedByType(findings: seq<Finding>)
    ensures |Keyed(findings, TypeKey)| == |set i | 0 <= i < |findings| && TypeKey(findings[i]).Some?|
  {
    if findings != [] {
      var n := |findings| - 1;
      KeyedByType(findings[..n]);
      var before := set i | 0 <= i < n && TypeKey(findings[..n][i]).Some?;
      var now := set i | 0 <= i < |findings| && TypeKey(findings[i]).Some?;
      assert before == set i | 0 <= i < n && TypeKey(findings[i]).Some?;
      if TypeKey(findings[n]).Some? {
        assert now == before + {n};
      } else {
        assert now == before;
      }
    }
  }
}
