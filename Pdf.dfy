/**
 * The PDF side of the search: `read_pdf` turns a document into one text per
 * page, and `search_pdfs` runs `find_occurrences` on every page of every
 * document, collecting one hit per snippet with the file name and the page
 * number (counted from 1).
 */
module Pdf {
  import opened Wrappers
  import opened Text
  import opened OccurrenceSearch
  import opened Seqs

  /**
   * What `page.extract_text()` did for one page: it returned a text or
   * `None`, or it raised. The PDF reader itself is not part of this model.
   */
  datatype PageExtraction = Extracted(text: Option<string>) | Failed

  /** The text `read_pdf` keeps for a page: `extract_text() or ""`, and "" when extraction raised. */
  function PageText(e: PageExtraction): (t: string)
    ensures t == "" <== (e.Failed? || e.text.None?)
    ensures e.Extracted? && e.text.Some? ==> t == e.text.value
  {
    match e
    case Failed => ""
    case Extracted(None) => ""
    case Extracted(Some(s)) => s
  }

  /** What `read_pdf` returns: the page count and the text of each page. */
  datatype PdfDoc = PdfDoc(nPages: nat, pagesText: seq<string>)

  /** The page texts of a document, one per page, in page order. */
  function PageTexts(pages: seq<PageExtraction>): (ts: seq<string>)
    ensures |ts| == |pages|
  {
    seq(|pages|, i requires 0 <= i < |pages| => PageText(pages[i]))
  }

  /**
   * `read_pdf`: one text per page, in page order; a page whose extraction
   * fails contributes "" and the loop goes on; the page count is the number
   * of texts collected.
   */
  method ReadPdf(pages: seq<PageExtraction>) returns (doc: PdfDoc)
    ensures doc == PdfDoc(|pages|, PageTexts(pages))
    ensures doc.nPages == |doc.pagesText|
  {
    var pagesText: seq<string> := [];
    for i := 0 to |pages|
      invariant |pagesText| == i
      invariant forall j :: 0 <= j < i ==> pagesText[j] == PageText(pages[j])
    {
      var t := PageText(pages[i]);
      pagesText := pagesText + [t];
    }
    doc := PdfDoc(|pagesText|, pagesText);
  }

  /** A page whose extraction fails, or yields no text, reads as "" in the document. */
  lemma FailedPageIsEmpty(pages: seq<PageExtraction>, i: nat)
    requires i < |pages| && (pages[i].Failed? || pages[i].text.None?)
    ensures PageTexts(pages)[i] == ""
  {
  }

  // ---------------------------------------------------------------------------
  // search_pdfs
  // ---------------------------------------------------------------------------

  /** The context window `search_pdfs` asks `find_occurrences` for. */
  const PdfWindow: nat := 90

  /** One result record of `search_pdfs`: file name, page number (from 1) and snippet. */
  datatype PdfHit = PdfHit(fichier: string, page: nat, extrait: string)

  /** The snippets of every page of a document, in page order. */
  function PageSnippets(texts: seq<string>, query: string): (ss: seq<seq<string>>)
    ensures |ss| == |texts|
  {
    seq(|texts|, i requires 0 <= i < |texts| => Occurrences(texts[i], query, PdfWindow))
  }

  /** The hits of one page: one per snippet, in snippet order. */
  function PageHits(fname: string, page: nat, snippets: seq<string>): (hs: seq<PdfHit>)
    ensures |hs| == |snippets|
  {
    seq(|snippets|, k requires 0 <= k < |snippets| => PdfHit(fname, page, snippets[k]))
  }

  /** The hits of one document, page after page; `snips[i]` holds the snippets of page `i + 1`. */
  function DocHits(fname: string, snips: seq<seq<string>>): seq<PdfHit>
  {
    if snips == [] then []
    else DocHits(fname, snips[..|snips| - 1]) + PageHits(fname, |snips|, snips[|snips| - 1])
  }

  /** The hits of one named document for `query`. */
  function NamedDocHits(entry: (string, PdfDoc), query: string): seq<PdfHit> {
    DocHits(entry.0, PageSnippets(entry.1.pagesText, query))
  }

  /** The hits of each document, in document order. */
  function DocHitLists(docs: seq<(string, PdfDoc)>, query: string): (hss: seq<seq<PdfHit>>)
    ensures |hss| == |docs|
  {
    seq(|docs|, d requires 0 <= d < |docs| => NamedDocHits(docs[d], query))
  }

  /** The hits of a list of documents, document after document. */
  function AllHits(docs: seq<(string, PdfDoc)>, query: string): seq<PdfHit> {
    Flatten(DocHitLists(docs, query))
  }

  /** What `search_pdfs` returns: nothing for the empty query, otherwise every hit. */
  function PdfHits(docs: seq<(string, PdfDoc)>, query: string): (hs: seq<PdfHit>)
    ensures forall h :: h in hs ==>
      exists d :: 0 <= d < |docs| && h.fichier == docs[d].0 && 1 <= h.page <= |docs[d].1.pagesText|
  {
    AllHitsFromDocs(docs, query);
    if query == "" then [] else AllHits(docs, query)
  }

  /** `for snip in snippets: results.append(...)`: the page's hits go after what was there. */
  method AppendPageHits(results: seq<PdfHit>, fname: string, page: nat, snippets: seq<string>)
    returns (r: seq<PdfHit>)
    ensures r == results + PageHits(fname, page, snippets)
  {
    r := results;
    for k := 0 to |snippets|
      invariant r == results + PageHits(fname, page, snippets[..k])
    {
      assert PageHits(fname, page, snippets[..k + 1])
        == PageHits(fname, page, snippets[..k]) + [PdfHit(fname, page, snippets[k])];
      r := r + [PdfHit(fname, page, snippets[k])];
    }
    assert snippets[..|snippets|] == snippets;
  }

  /** The page loop of `search_pdfs` for one document: its hits go after what was there. */
  method AppendDocHits(results: seq<PdfHit>, fname: string, doc: PdfDoc, query: string)
    returns (r: seq<PdfHit>)
    ensures r == results + DocHits(fname, PageSnippets(doc.pagesText, query))
  {
    ghost var all := PageSnippets(doc.pagesText, query);
    r := results;
    for i := 0 to |doc.pagesText|
      invariant r == results + DocHits(fname, all[..i])
    {
      var snippets := FindOccurrences(doc.pagesText[i], query, PdfWindow);
      ghost var before := r;
      r := AppendPageHits(r, fname, i + 1, snippets);
      assert r == results + DocHits(fname, all[..i + 1]) by {
        assert snippets == all[i];
        DocHitsExtend(results, before, fname, all, i, snippets);
      }
    }
    assert all[..|doc.pagesText|] == all;
  }

  /** Appending the hits of page `i + 1` to the hits of the first `i` pages gives the hits of the first `i + 1`. */
  lemma DocHitsExtend(results: seq<PdfHit>, r: seq<PdfHit>, fname: string, snips: seq<seq<string>>, i: nat,
                      snippets: seq<string>)
    requires i < |snips| && snippets == snips[i] && r == results + DocHits(fname, snips[..i])
    ensures r + PageHits(fname, i + 1, snippets) == results + DocHits(fname, snips[..i + 1])
  {
    DocHitsStep(fname, snips, i);
  }

  /** The hits of the first `i + 1` pages are those of the first `i` pages, then those of page `i + 1`. */
  lemma DocHitsStep(fname: string, snips: seq<seq<string>>, i: nat)
    requires i < |snips|
    ensures DocHits(fname, snips[..i + 1]) == DocHits(fname, snips[..i]) + PageHits(fname, i + 1, snips[i])
  {
    assert snips[..i + 1][..i] == snips[..i];
  }

  /**
   * `search_pdfs`: nothing for the empty query; otherwise, document after
   * document and page after page, one hit per snippet of `find_occurrences`
   * with a window of 90 characters.
   */
  method SearchPdfs(pdfList: seq<(string, PdfDoc)>, query: string) returns (results: seq<PdfHit>)
    ensures results == PdfHits(pdfList, query)
    ensures query == "" ==> results == []
  {
    results := [];
    if query == "" {
      return;
    }
    ghost var lists := DocHitLists(pdfList, query);
    for d := 0 to |pdfList|
      invariant results == Flatten(lists[..d])
    {
      var (fname, doc) := pdfList[d];
      FlattenStep(lists, d);
      results := AppendDocHits(results, fname, doc, query);
    }
    assert lists[..|pdfList|] == lists;
  }

  // ---------------------------------------------------------------------------
  // Properties of the hits
  // ---------------------------------------------------------------------------

  /**
   * The hits of a document: each carries the file name and a page number in
   * `1..n` (n pages), and its snippet is one of that page's snippets.
   */
  lemma {:induction false} DocHitsWithin(fname: string, snips: seq<seq<string>>)
    ensures forall h :: h in DocHits(fname, snips) ==>
      h.fichier == fname && 1 <= h.page <= |snips| && h.extrait in snips[h.page - 1]
    decreases |snips|
  {
    if snips != [] {
      var n := |snips|;
      var init := snips[..n - 1];
      DocHitsWithin(fname, init);
      var back := PageHits(fname, n, snips[n - 1]);
      assert DocHits(fname, snips) == DocHits(fname, init) + back;
      forall h | h in DocHits(fname, snips)
        ensures h.fichier == fname && 1 <= h.page <= n && h.extrait in snips[h.page - 1]
      {
        if h in DocHits(fname, init) {
          assert snips[h.page - 1] == init[h.page - 1];
        } else {
          assert h in back;
          var k :| 0 <= k < |back| && back[k] == h;
        }
      }
    }
  }

  /** The hits of each page of a document, page `i + 1` at index `i`. */
  function PageHitLists(fname: string, snips: seq<seq<string>>): (hss: seq<seq<PdfHit>>)
    ensures |hss| == |snips|
  {
    seq(|snips|, i requires 0 <= i < |snips| => PageHits(fname, i + 1, snips[i]))
  }

  /** The hits of a document are the hits of its pages, one page after the other. */
  lemma {:induction false} DocHitsFlat(fname: string, snips: seq<seq<string>>)
    ensures DocHits(fname, snips) == Flatten(PageHitLists(fname, snips))
    decreases |snips|
  {
    if snips != [] {
      var n := |snips|;
      var lists := PageHitLists(fname, snips);
      DocHitsFlat(fname, snips[..n - 1]);
      assert lists[..n - 1] == PageHitLists(fname, snips[..n - 1]);
      assert lists[n - 1] == PageHits(fname, n, snips[n - 1]);
    }
  }

  /** Page numbers never decrease along `hs`. */
  predicate PagesOrdered(hs: seq<PdfHit>) {
    forall i, j :: 0 <= i < j < |hs| ==> hs[i].page <= hs[j].page
  }

  /** Page numbers never decrease along the hits of a document. */
  lemma {:induction false} DocHitsOrdered(fname: string, snips: seq<seq<string>>)
    ensures PagesOrdered(DocHits(fname, snips))
    decreases |snips|
  {
    if snips != [] {
      var n := |snips|;
      var init := snips[..n - 1];
      DocHitsOrdered(fname, init);
      DocHitsWithin(fname, init);
      var front := DocHits(fname, init);
      var back := PageHits(fname, n, snips[n - 1]);
      var hs := front + back;
      assert DocHits(fname, snips) == hs;
      forall i, j | 0 <= i < j < |hs|
        ensures hs[i].page <= hs[j].page
      {
        if j < |front| {
          assert hs[i] == front[i] && hs[j] == front[j];
          assert front[i].page <= front[j].page;
        } else if i < |front| {
          assert hs[i] == front[i] && front[i] in front;
          assert hs[i].page <= n - 1;
          assert hs[j] == back[j - |front|];
          assert hs[j].page == n;
        } else {
          assert hs[i] == back[i - |front|] && hs[j] == back[j - |front|];
          assert hs[i].page == n && hs[j].page == n;
        }
      }
    }
  }

  /** Every snippet of every page of a document appears as a hit, with that page's number. */
  lemma {:induction false} DocHitsComplete(fname: string, snips: seq<seq<string>>)
    ensures forall p, k :: 0 <= p < |snips| && 0 <= k < |snips[p]| ==>
      PdfHit(fname, p + 1, snips[p][k]) in DocHits(fname, snips)
    decreases |snips|
  {
    if snips != [] {
      var n := |snips|;
      var init := snips[..n - 1];
      DocHitsComplete(fname, init);
      var front := DocHits(fname, init);
      var back := PageHits(fname, n, snips[n - 1]);
      var hs := front + back;
      assert DocHits(fname, snips) == hs;
      forall p, k | 0 <= p < n && 0 <= k < |snips[p]|
        ensures PdfHit(fname, p + 1, snips[p][k]) in hs
      {
        if p < n - 1 {
          assert snips[p] == init[p];
          assert PdfHit(fname, p + 1, init[p][k]) in front;
        } else {
          assert hs[|front| + k] == back[k];
        }
      }
    }
  }

  /** Hits come document by document: the hits of two lists of documents are the hits of each, in order. */
  lemma AllHitsAppend(a: seq<(string, PdfDoc)>, b: seq<(string, PdfDoc)>, query: string)
    ensures AllHits(a + b, query) == AllHits(a, query) + AllHits(b, query)
  {
    DocHitListsAppend(a, b, query);
    FlattenAppend(DocHitLists(a, query), DocHitLists(b, query));
  }

  /** The hit lists of two lists of documents are those of each, in order. */
  lemma DocHitListsAppend(a: seq<(string, PdfDoc)>, b: seq<(string, PdfDoc)>, query: string)
    ensures DocHitLists(a + b, query) == DocHitLists(a, query) + DocHitLists(b, query)
  {
    var all := DocHitLists(a + b, query);
    var both := DocHitLists(a, query) + DocHitLists(b, query);
    forall d | 0 <= d < |all|
      ensures all[d] == both[d]
    {
      if d < |a| {
        assert (a + b)[d] == a[d];
      } else {
        assert (a + b)[d] == b[d - |a|];
      }
    }
  }

  /** Every hit names one of the documents and a page within that document's pages. */
  lemma AllHitsFromDocs(docs: seq<(string, PdfDoc)>, query: string)
    ensures forall h :: h in AllHits(docs, query) ==>
      exists d :: 0 <= d < |docs| && h.fichier == docs[d].0 && 1 <= h.page <= |docs[d].1.pagesText|
  {
    var lists := DocHitLists(docs, query);
    FlattenMembers(lists);
    forall h | h in AllHits(docs, query)
      ensures exists d :: 0 <= d < |docs| && h.fichier == docs[d].0 && 1 <= h.page <= |docs[d].1.pagesText|
    {
      var d :| 0 <= d < |lists| && h in lists[d];
      DocHitsWithin(docs[d].0, PageSnippets(docs[d].1.pagesText, query));
    }
  }

  /** A page with no snippet yields no hit: no hit of the document carries its page number. */
  lemma EmptyPageNoHits(fname: string, snips: seq<seq<string>>, p: nat)
    requires p < |snips| && snips[p] == []
    ensures forall h :: h in DocHits(fname, snips) ==> h.page != p + 1
  {
    DocHitsWithin(fname, snips);
  }

  /** An empty page text has no snippet. */
  lemma EmptyTextNoSnippets(texts: seq<string>, query: string, p: nat)
    requires p < |texts| && texts[p] == ""
    ensures PageSnippets(texts, query)[p] == []
  {
    EmptyTextNoOccurrence(query, PdfWindow);
  }

  /** A page whose extraction failed yields no hit: no hit of the document carries its page number. */
  lemma FailedPageNoHits(fname: string, pages: seq<PageExtraction>, query: string, i: nat)
    requires i < |pages| && (pages[i].Failed? || pages[i].text.None?)
    ensures forall h :: h in DocHits(fname, PageSnippets(PageTexts(pages), query)) ==> h.page != i + 1
  {
    FailedPageIsEmpty(pages, i);
    EmptyTextNoSnippets(PageTexts(pages), query, i);
    EmptyPageNoHits(fname, PageSnippets(PageTexts(pages), query), i);
  }

  /** A document whose pages all have no snippet yields no hit. */
  lemma {:induction false} NoSnippetNoDocHits(fname: string, snips: seq<seq<string>>)
    requires forall p :: 0 <= p < |snips| ==> snips[p] == []
    ensures DocHits(fname, snips) == []
    decreases |snips|
  {
    if snips != [] {
      NoSnippetNoDocHits(fname, snips[..|snips| - 1]);
    }
  }

  /**
   * A query that normalizes to "" (say, only spaces) gets past the
   * `if not query` guard but finds nothing in any page.
   */
  lemma BlankQueryNoPdfHits(docs: seq<(string, PdfDoc)>, query: string)
    requires Normalize(Some(query)) == ""
    ensures PdfHits(docs, query) == []
  {
    if query != "" {
      var lists := DocHitLists(docs, query);
      forall d | 0 <= d < |docs|
        ensures lists[d] == []
      {
        var snips := PageSnippets(docs[d].1.pagesText, query);
        forall p | 0 <= p < |snips|
          ensures snips[p] == []
        {
          BlankQueryNoOccurrence(docs[d].1.pagesText[p], query, PdfWindow);
        }
        NoSnippetNoDocHits(docs[d].0, snips);
      }
      FlattenEmpty(lists);
    }
  }
}
