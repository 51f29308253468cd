/** extract_pdf_annotations: walk the pages in order and keep, in stored
    order, every highlight and text note as a record with a 1-based page
    number and defaults for absent fields. */
module Extraction {
  import opened Optional
  import opened PdfObjects

  /** The two annotation subtypes that are kept. */
  const Highlight := "/Highlight"
  const TextNote := "/Text"

  /** A page as the extractor sees it: None when the page has no /Annots
      entry, otherwise its annotation dictionaries in stored order, already
      resolved. */
  type Page = Option<seq<AnnotDict>>

  /** One extracted annotation record (the dictionary built at lines 30-37). */
  datatype Annotation = Annotation(
    page: int,
    kind: string,
    contents: string,
    author: PdfValue,
    creationDate: PdfValue,
    rect: PdfValue)

  /** The /Subtype of an annotation as a Python string, if it has one. */
  function Subtype(a: AnnotDict): Option<string> {
    if "/Subtype" in a then AsString(a["/Subtype"]) else None
  }

  /** The filter: the subtype is one of the two kept names. */
  predicate Kept(a: AnnotDict) {
    Subtype(a) == Some(Highlight) || Subtype(a) == Some(TextNote)
  }

  /** An annotation is kept exactly when it has a /Subtype that is a name or
      a text string and reads /Highlight or /Text; numbers and arrays never
      compare equal to a string, and an absent /Subtype is None. */
  lemma KeptMeaning(a: AnnotDict)
    ensures Kept(a) <==>
      ("/Subtype" in a && (a["/Subtype"].Name? || a["/Subtype"].Str?)
       && ToStr(a["/Subtype"]) in {Highlight, TextNote})
  {
  }

  /** The record built for a kept annotation on page pageNo. */
  function Record(pageNo: int, a: AnnotDict): (r: Annotation)
    requires Kept(a)
    ensures r.page == pageNo
    ensures r.kind == Highlight || r.kind == TextNote
  {
    Annotation(
      pageNo,
      Subtype(a).value,
      ToStr(Get(a, "/Contents", Str(""))),
      Get(a, "/T", Str("")),
      Get(a, "/CreationDate", Str("")),
      Get(a, "/Rect", Arr([])))
  }

  /** Field by field: the kind is the subtype itself; absent /Contents,
      /T and /CreationDate become the empty string and an absent /Rect the
      empty array; present fields pass through, contents as its str(). */
  lemma RecordFields(pageNo: int, a: AnnotDict)
    requires Kept(a)
    ensures Some(Record(pageNo, a).kind) == Subtype(a)
    ensures "/Contents" !in a ==> Record(pageNo, a).contents == ""
    ensures "/Contents" in a && AsString(a["/Contents"]).Some? ==>
      Record(pageNo, a).contents == AsString(a["/Contents"]).value
    ensures "/Contents" in a ==> Record(pageNo, a).contents == ToStr(a["/Contents"])
    ensures "/T" !in a ==> Record(pageNo, a).author == Str("")
    ensures "/CreationDate" !in a ==> Record(pageNo, a).creationDate == Str("")
    ensures "/Rect" !in a ==> Record(pageNo, a).rect == Arr([])
    ensures "/T" in a ==> Record(pageNo, a).author == a["/T"]
    ensures "/CreationDate" in a ==> Record(pageNo, a).creationDate == a["/CreationDate"]
    ensures "/Rect" in a ==> Record(pageNo, a).rect == a["/Rect"]
  {
  }

  /** The records one annotation contributes: one if kept, none otherwise. */
  function Contribution(pageNo: int, a: AnnotDict): seq<Annotation> {
    if Kept(a) then [Record(pageNo, a)] else []
  }

  /** The annotation list of a page; a page without /Annots has none. */
  function Annots(page: Page): seq<AnnotDict> {
    match page
    case None => []
    case Some(annots) => annots
  }

  /** The records of one page, in stored order: each carries the page's
      number and a kept kind. */
  function PageRecords(pageNo: int, annots: seq<AnnotDict>): (r: seq<Annotation>)
    ensures forall i :: 0 <= i < |r| ==> r[i].page == pageNo && r[i].kind in {Highlight, TextNote}
    decreases |annots|
  {
    if |annots| == 0 then []
    else PageRecords(pageNo, annots[..|annots| - 1]) + Contribution(pageNo, annots[|annots| - 1])
  }

  /** The records of a whole document: page by page, numbering pages from 1,
      so every page number lies in 1..|pages|. */
  function Extract(pages: seq<Page>): (r: seq<Annotation>)
    ensures forall i :: 0 <= i < |r| ==> 1 <= r[i].page <= |pages| && r[i].kind in {Highlight, TextNote}
    decreases |pages|
  {
    if |pages| == 0 then []
    else Extract(pages[..|pages| - 1]) + PageRecords(|pages|, Annots(pages[|pages| - 1]))
  }

  /** The extraction loop of the source: a growing list, appended to inside
      a loop over the annotations of each page. */
  method ExtractPdfAnnotations(pages: seq<Page>) returns (annotations: seq<Annotation>)
    ensures annotations == Extract(pages)
  {
    annotations := [];
    var pageNum := 0;
    while pageNum < |pages|
      invariant 0 <= pageNum <= |pages|
      invariant annotations == Extract(pages[..pageNum])
    {
      var page := pages[pageNum];
      if page.Some? {
        var annots := page.value;
        var j := 0;
        while j < |annots|
          invariant 0 <= j <= |annots|
          invariant annotations == Extract(pages[..pageNum]) + PageRecords(pageNum + 1, annots[..j])
        {
          var annotObj := annots[j];
          var subtype := Subtype(annotObj);
          if subtype == Some(Highlight) || subtype == Some(TextNote) {
            var annotation := Record(pageNum + 1, annotObj);
            annotations := annotations + [annotation];
          }
          assert annots[..j + 1][..j] == annots[..j];
          j := j + 1;
        }
        assert annots[..j] == annots;
      }
      assert pages[..pageNum + 1][..pageNum] == pages[..pageNum];
      pageNum := pageNum + 1;
    }
    assert pages[..pageNum] == pages;
  }

  // ---------------------------------------------------------------------
  // What every record satisfies

  /** Page numbers never decrease along the result: records come out page
      by page. */
  lemma {:induction false} ExtractPagesOrdered(pages: seq<Page>)
    ensures forall i, j :: 0 <= i < j < |Extract(pages)| ==>
      Extract(pages)[i].page <= Extract(pages)[j].page
  {
    if |pages| > 0 {
      ExtractPagesOrdered(pages[..|pages| - 1]);
    }
  }

  // ---------------------------------------------------------------------
  // Exactly the kept annotations come out

  lemma {:induction false} PageRecordsMembership(pageNo: int, annots: seq<AnnotDict>, rec: Annotation)
    ensures rec in PageRecords(pageNo, annots) <==>
      exists k :: 0 <= k < |annots| && Kept(annots[k]) && rec == Record(pageNo, annots[k])
  {
    if |annots| > 0 {
      var init := annots[..|annots| - 1];
      PageRecordsMembership(pageNo, init, rec);
      if exists k :: 0 <= k < |init| && Kept(init[k]) && rec == Record(pageNo, init[k]) {
        var k :| 0 <= k < |init| && Kept(init[k]) && rec == Record(pageNo, init[k]);
        assert annots[k] == init[k];
      }
      if exists k :: 0 <= k < |annots| && Kept(annots[k]) && rec == Record(pageNo, annots[k]) {
        var k :| 0 <= k < |annots| && Kept(annots[k]) && rec == Record(pageNo, annots[k]);
        if k < |init| {
          assert init[k] == annots[k];
        }
      }
    }
  }

  /** Annotation `k` of page index `p` is kept and yields `rec`. */
  predicate Source(pages: seq<Page>, p: int, k: int, rec: Annotation) {
    0 <= p < |pages| && 0 <= k < |Annots(pages[p])|
    && Kept(Annots(pages[p])[k]) && rec == Record(p + 1, Annots(pages[p])[k])
  }

  /** A record is extracted if and only if it is the record of a kept
      annotation: nothing is invented and nothing kept is lost. */
  lemma {:induction false} ExtractMembership(pages: seq<Page>, rec: Annotation)
    ensures rec in Extract(pages) <==> exists p, k :: Source(pages, p, k, rec)
  {
    if |pages| > 0 {
      var init := pages[..|pages| - 1];
      var last := Annots(pages[|pages| - 1]);
      assert Extract(pages) == Extract(init) + PageRecords(|pages|, last);
      ExtractMembership(init, rec);
      PageRecordsMembership(|pages|, last, rec);
      if exists p, k :: Source(init, p, k, rec) {
        var p, k :| Source(init, p, k, rec);
        assert pages[p] == init[p];
        assert Source(pages, p, k, rec);
      }
      if exists k :: 0 <= k < |last| && Kept(last[k]) && rec == Record(|pages|, last[k]) {
        var k :| 0 <= k < |last| && Kept(last[k]) && rec == Record(|pages|, last[k]);
        assert Source(pages, |pages| - 1, k, rec);
      }
      if exists p, k :: Source(pages, p, k, rec) {
        var p, k :| Source(pages, p, k, rec);
        if p < |init| {
          assert init[p] == pages[p];
          assert Source(init, p, k, rec);
        }
      }
    }
  }

  // ---------------------------------------------------------------------
  // How many records come out

  /** The number of kept annotations in a list, counted front to back. */
  function KeptCount(annots: seq<AnnotDict>): nat {
    if |annots| == 0 then 0 else (if Kept(annots[0]) then 1 else 0) + KeptCount(annots[1..])
  }

  /** The number of kept annotations in a document, counted front to back. */
  function DocumentKeptCount(pages: seq<Page>): nat {
    if |pages| == 0 then 0 else KeptCount(Annots(pages[0])) + DocumentKeptCount(pages[1..])
  }

  lemma {:induction false} KeptCountAppend(annots: seq<AnnotDict>, a: AnnotDict)
    ensures KeptCount(annots + [a]) == KeptCount(annots) + (if Kept(a) then 1 else 0)
  {
    if |annots| > 0 {
      assert (annots + [a])[1..] == annots[1..] + [a];
      KeptCountAppend(annots[1..], a);
    } else {
      assert (annots + [a])[1..] == [];
    }
  }

  lemma {:induction false} DocumentKeptCountAppend(pages: seq<Page>, page: Page)
    ensures DocumentKeptCount(pages + [page]) == DocumentKeptCount(pages) + KeptCount(Annots(page))
  {
    if |pages| > 0 {
      assert (pages + [page])[1..] == pages[1..] + [page];
      DocumentKeptCountAppend(pages[1..], page);
    } else {
      assert (pages + [page])[1..] == [];
    }
  }

  lemma {:induction false} PageRecordsLength(pageNo: int, annots: seq<AnnotDict>)
    ensures |PageRecords(pageNo, annots)| == KeptCount(annots)
  {
    if |annots| > 0 {
      var init := annots[..|annots| - 1];
      PageRecordsLength(pageNo, init);
      KeptCountAppend(init, annots[|annots| - 1]);
      assert init + [annots[|annots| - 1]] == annots;
    }
  }

  /** One record per kept annotation: no deduplication, nothing dropped. */
  lemma {:induction false} ExtractLength(pages: seq<Page>)
    ensures |Extract(pages)| == DocumentKeptCount(pages)
  {
    if |pages| > 0 {
      var init := pages[..|pages| - 1];
      ExtractLength(init);
      PageRecordsLength(|pages|, Annots(pages[|pages| - 1]));
      DocumentKeptCountAppend(init, pages[|pages| - 1]);
      assert init + [pages[|pages| - 1]] == pages;
    }
  }

  /** A document without a single kept annotation gives the empty list, and
      only such a document does. */
  lemma {:induction false} EmptyIffNothingKept(pages: seq<Page>)
    ensures Extract(pages) == [] <==> DocumentKeptCount(pages) == 0
  {
    ExtractLength(pages);
  }

  // ---------------------------------------------------------------------
  // Order: page by page, and stored order within a page

  /** The records of rs that carry page number n, in order. */
  function OnPage(rs: seq<Annotation>, n: int): seq<Annotation> {
    if |rs| == 0 then []
    else (if rs[0].page == n then [rs[0]] else []) + OnPage(rs[1..], n)
  }

  lemma {:induction false} OnPageConcat(a: seq<Annotation>, b: seq<Annotation>, n: int)
    ensures OnPage(a + b, n) == OnPage(a, n) + OnPage(b, n)
  {
    if |a| > 0 {
      assert (a + b)[0] == a[0] && (a + b)[1..] == a[1..] + b;
      OnPageConcat(a[1..], b, n);
    } else {
      assert a + b == b;
    }
  }

  lemma {:induction false} OnPageAll(rs: seq<Annotation>, n: int)
    requires forall i :: 0 <= i < |rs| ==> rs[i].page == n
    ensures OnPage(rs, n) == rs
  {
    if |rs| > 0 {
      OnPageAll(rs[1..], n);
    }
  }

  lemma {:induction false} OnPageNone(rs: seq<Annotation>, n: int)
    requires forall i :: 0 <= i < |rs| ==> rs[i].page != n
    ensures OnPage(rs, n) == []
  {
    if |rs| > 0 {
      OnPageNone(rs[1..], n);
    }
  }

  /** The records carrying page number p + 1 are exactly page p's kept
      annotations in their stored order; with ExtractPagesOrdered (pages never
      decrease) this fixes the order of the whole result. A page without
      /Annots contributes nothing. */
  lemma {:induction false} ExtractPageOrder(pages: seq<Page>, p: nat)
    requires p < |pages|
    ensures OnPage(Extract(pages), p + 1) == PageRecords(p + 1, Annots(pages[p]))
    ensures pages[p].None? ==> OnPage(Extract(pages), p + 1) == []
  {
    var init := pages[..|pages| - 1];
    var last := PageRecords(|pages|, Annots(pages[|pages| - 1]));
    assert Extract(pages) == Extract(init) + last;
    OnPageConcat(Extract(init), last, p + 1);
    if p == |pages| - 1 {
      ExtractPagesOrdered(init);
      OnPageNone(Extract(init), p + 1);
      OnPageAll(last, p + 1);
    } else {
      ExtractPageOrder(init, p);
      assert init[p] == pages[p];
      OnPageNone(last, p + 1);
    }
    if pages[p].None? {
      assert PageRecords(p + 1, Annots(pages[p])) == [];
    }
  }
}
