/**
 * The script around the search: the upload loop, which reads each uploaded
 * file as a PDF or as a table and collects the documents and the non-empty
 * tables, and the three searches run for the name and CIN queries.
 */
module App {
  import opened Wrappers
  import opened Text
  import opened Seqs
  import opened Pdf
  import opened Tabular
  import opened Matching

  /**
   * An uploaded file: its name, what the PDF reader extracts from each page
   * when it is read as a PDF, and what the pandas reader gives when it is
   * read as a table. Only the one its name selects is used.
   */
  datatype Upload = Upload(name: string, pages: seq<PageExtraction>, parsed: ParseOutcome)

  /** A parsed table is rectangular. */
  predicate WellFormed(u: Upload) {
    u.parsed.Parsed? ==> Rectangular(u.parsed.frame)
  }

  predicate AllWellFormed(uploads: seq<Upload>) {
    forall i :: 0 <= i < |uploads| ==> WellFormed(uploads[i])
  }

  /** `up.name.lower().endswith(".pdf")`. */
  predicate IsPdfName(name: string) {
    EndsWith(Lower(name), ".pdf")
  }

  /**
   * What the upload loop leaves: the documents `pdf_docs` and the tables
   * `tables`, or `Aborted` when `load_tabular` raised and the script stopped.
   */
  datatype Ingested = Ingested(pdfDocs: seq<(string, PdfDoc)>, tables: seq<seq<Record>>) | Aborted

  /** `df.assign(source=up.name)`: every record gets the file name as its source. */
  function WithSource(records: seq<Record>, name: string): (rs: seq<Record>)
    ensures |rs| == |records|
  {
    seq(|records|, i requires 0 <= i < |records| => records[i].(source := name))
  }

  /** After `assign`, every record's source is the given name. */
  lemma WithSourceSets(records: seq<Record>, name: string)
    ensures forall r :: r in WithSource(records, name) ==> r.source == name
  {
  }

  /** What the loop body makes of one upload: a document read by `read_pdf`, or the outcome of `load_tabular`. */
  datatype FileOutcome = PdfRead(doc: PdfDoc) | TableLoaded(load: LoadOutcome)

  /** The reader the lower-cased file name selects, and what it gives. */
  function Outcome(u: Upload): (o: FileOutcome)
    requires WellFormed(u)
    ensures o.PdfRead? <==> IsPdfName(u.name)
    ensures o.PdfRead? ==> o.doc.nPages == |o.doc.pagesText| == |u.pages|
  {
    if IsPdfName(u.name) then PdfRead(PdfDoc(|u.pages|, PageTexts(u.pages)))
    else TableLoaded(LoadTabular(u.name, u.parsed))
  }

  /** The uploads, each as its name and what the loop body makes of it. */
  function Files(uploads: seq<Upload>): (fs: seq<(string, FileOutcome)>)
    requires AllWellFormed(uploads)
    ensures |fs| == |uploads|
  {
    seq(|uploads|, i requires 0 <= i < |uploads| => (uploads[i].name, Outcome(uploads[i])))
  }

  /** One turn of the upload loop. */
  function IngestStep(acc: Ingested, file: (string, FileOutcome)): (r: Ingested)
    ensures acc.Aborted? ==> r.Aborted?
    ensures r.Ingested? ==> |r.pdfDocs| + |r.tables| <= |acc.pdfDocs| + |acc.tables| + 1
  {
    if acc.Aborted? then Aborted
    else match file.1
      case PdfRead(doc) => Ingested(acc.pdfDocs + [(file.0, doc)], acc.tables)
      case TableLoaded(Raised) => Aborted
      case TableLoaded(Loaded(rs)) =>
        if rs == [] then acc else Ingested(acc.pdfDocs, acc.tables + [WithSource(rs, file.0)])
  }

  /** Every collected table has a record: `if not df.empty`. */
  predicate NoEmptyTable(tables: seq<seq<Record>>) {
    forall t :: t in tables ==> t != []
  }

  /** The whole upload loop, over the files in upload order. */
  function IngestAll(files: seq<(string, FileOutcome)>): (r: Ingested)
    ensures r.Ingested? ==> |r.pdfDocs| + |r.tables| <= |files|
  {
    if files == [] then Ingested([], [])
    else IngestStep(IngestAll(files[..|files| - 1]), files[|files| - 1])
  }

  /** The loop never keeps an empty table. */
  lemma {:induction false} IngestKeepsNoEmptyTable(files: seq<(string, FileOutcome)>)
    ensures IngestAll(files).Ingested? ==> NoEmptyTable(IngestAll(files).tables)
    decreases |files|
  {
    if files != [] {
      IngestKeepsNoEmptyTable(files[..|files| - 1]);
    }
  }

  /** Once `load_tabular` has raised, the rest of the uploads change nothing. */
  lemma {:induction false} AbortedStays(files: seq<(string, FileOutcome)>, i: nat)
    requires i <= |files| && IngestAll(files[..i]).Aborted?
    ensures IngestAll(files).Aborted?
    decreases |files| - i
  {
    if i == |files| {
      assert files[..i] == files;
    } else {
      assert files[..i + 1][..i] == files[..i];
      AbortedStays(files, i + 1);
    }
  }

  /**
   * The upload loop: a file whose lower-cased name ends with ".pdf" is read
   * with `read_pdf`; any other goes through `load_tabular`, and its table is
   * kept, with its file name as source, when it is not empty.
   */
  method Ingest(uploads: seq<Upload>) returns (out: Ingested)
    requires AllWellFormed(uploads)
    ensures out == IngestAll(Files(uploads))
  {
    ghost var files := Files(uploads);
    var pdfDocs: seq<(string, PdfDoc)> := [];
    var tables: seq<seq<Record>> := [];
    for i := 0 to |uploads|
      invariant IngestAll(files[..i]) == Ingested(pdfDocs, tables)
    {
      var up := uploads[i];
      assert files[..i + 1][..i] == files[..i];
      assert IngestAll(files[..i + 1]) == IngestStep(Ingested(pdfDocs, tables), files[i]);
      assert files[i] == (up.name, Outcome(up));
      if IsPdfName(up.name) {
        var doc := ReadPdf(up.pages);
        pdfDocs := pdfDocs + [(up.name, doc)];
      } else {
        var df := LoadTabular(up.name, up.parsed);
        if df.Raised? {
          AbortedStays(files, i + 1);
          return Aborted;
        }
        if df.records != [] {
          tables := tables + [WithSource(df.records, up.name)];
        }
      }
    }
    assert files[..|uploads|] == files;
    out := Ingested(pdfDocs, tables);
  }

  // ---------------------------------------------------------------------------
  // Reference definitions of what the loop collects
  // ---------------------------------------------------------------------------

  /** Some upload made `load_tabular` raise. */
  predicate Raises(files: seq<(string, FileOutcome)>) {
    exists i :: 0 <= i < |files| && files[i].1 == TableLoaded(Raised)
  }

  /** The documents read from the PDF uploads, with their file names, in upload order. */
  function PdfEntries(files: seq<(string, FileOutcome)>): seq<(string, PdfDoc)> {
    if files == [] then []
    else
      var f := files[|files| - 1];
      PdfEntries(files[..|files| - 1]) + (if f.1.PdfRead? then [(f.0, f.1.doc)] else [])
  }

  /** The non-empty tables of the other uploads, each with its file name as source, in upload order. */
  function TableEntries(files: seq<(string, FileOutcome)>): seq<seq<Record>> {
    if files == [] then []
    else
      var f := files[|files| - 1];
      TableEntries(files[..|files| - 1])
        + (if f.1.TableLoaded? && f.1.load.Loaded? && f.1.load.records != [] then [WithSource(f.1.load.records, f.0)] else [])
  }

  /** `assign(source=up.name)` changes nothing: `load_tabular` already set the source to the file name. */
  lemma AssignKeepsRecords(name: string, parsed: ParseOutcome)
    requires parsed.Parsed? ==> Rectangular(parsed.frame)
    requires LoadTabular(name, parsed).Loaded?
    ensures WithSource(LoadTabular(name, parsed).records, name) == LoadTabular(name, parsed).records
  {
    var rs := LoadTabular(name, parsed).records;
    forall i | 0 <= i < |rs|
      ensures WithSource(rs, name)[i] == rs[i]
    {
      assert rs[i] in rs;
    }
  }

  /** Some upload raises exactly when an earlier one does or the last one does. */
  lemma RaisesStep(files: seq<(string, FileOutcome)>)
    requires files != []
    ensures Raises(files) <==> Raises(files[..|files| - 1]) || files[|files| - 1].1 == TableLoaded(Raised)
  {
    var n := |files|;
    var init := files[..n - 1];
    if Raises(init) {
      var i :| 0 <= i < n - 1 && init[i].1 == TableLoaded(Raised);
      assert files[i] == init[i];
    }
    if Raises(files) {
      var i :| 0 <= i < n && files[i].1 == TableLoaded(Raised);
      if i < n - 1 {
        assert files[i] == init[i];
      }
    }
  }

  /** The upload loop stops exactly when some upload makes `load_tabular` raise. */
  lemma {:induction false} IngestAborts(files: seq<(string, FileOutcome)>)
    ensures IngestAll(files).Aborted? <==> Raises(files)
    decreases |files|
  {
    if files != [] {
      RaisesStep(files);
      IngestAborts(files[..|files| - 1]);
    }
  }

  /**
   * When no upload raises, the loop collects every PDF upload's document and
   * every non-empty table, in upload order.
   */
  lemma {:induction false} IngestCollects(files: seq<(string, FileOutcome)>)
    requires !Raises(files)
    ensures IngestAll(files) == Ingested(PdfEntries(files), TableEntries(files))
    decreases |files|
  {
    if files != [] {
      RaisesStep(files);
      IngestCollects(files[..|files| - 1]);
    }
  }

  /** A non-PDF upload whose extension is not recognised, or whose parsing failed, is skipped. */
  lemma SkippedUpload(uploads: seq<Upload>, u: Upload)
    requires AllWellFormed(uploads) && WellFormed(u) && !IsPdfName(u.name)
    requires FormatOf(u.name) == Unrecognised || u.parsed.ParseError?
    ensures AllWellFormed(uploads + [u])
    ensures IngestAll(Files(uploads + [u])) == IngestAll(Files(uploads))
  {
    var files := Files(uploads + [u]);
    assert files[..|uploads|] == Files(uploads);
    assert files[|uploads|].1 == TableLoaded(Loaded([]));
  }

  /** Entry `e` is the document read from upload `i`, a PDF, with its file name. */
  predicate PdfOf(files: seq<(string, FileOutcome)>, i: int, e: (string, PdfDoc)) {
    0 <= i < |files| && files[i].1 == PdfRead(e.1) && files[i].0 == e.0
  }

  /** Every collected document comes from a PDF upload. */
  lemma {:induction false} PdfEntriesFrom(files: seq<(string, FileOutcome)>)
    ensures forall e :: e in PdfEntries(files) ==> exists i :: PdfOf(files, i, e)
    decreases |files|
  {
    if files != [] {
      var n := |files|;
      var init := files[..n - 1];
      PdfEntriesFrom(init);
      forall e | e in PdfEntries(files)
        ensures exists i :: PdfOf(files, i, e)
      {
        if e in PdfEntries(init) {
          var i :| PdfOf(init, i, e);
          assert files[i] == init[i];
          assert PdfOf(files, i, e);
        } else {
          assert PdfOf(files, n - 1, e);
        }
      }
    }
  }

  /** Record `r` carries, as its source, the name of upload `i`, whose table was loaded. */
  predicate SourcedFrom(files: seq<(string, FileOutcome)>, i: int, r: Record) {
    0 <= i < |files| && files[i].1.TableLoaded? && files[i].1.load.Loaded? && r.source == files[i].0
  }

  /** Every collected record carries the name of the upload whose table held it. */
  lemma {:induction false} TableEntriesFrom(files: seq<(string, FileOutcome)>)
    ensures forall r :: r in Flatten(TableEntries(files)) ==> exists i :: SourcedFrom(files, i, r)
    decreases |files|
  {
    if files != [] {
      var n := |files|;
      var init := files[..n - 1];
      var f := files[n - 1];
      TableEntriesFrom(init);
      var added := if f.1.TableLoaded? && f.1.load.Loaded? && f.1.load.records != [] then [WithSource(f.1.load.records, f.0)] else [];
      assert TableEntries(files) == TableEntries(init) + added;
      FlattenAppend(TableEntries(init), added);
      forall r | r in Flatten(TableEntries(files))
        ensures exists i :: SourcedFrom(files, i, r)
      {
        if r in Flatten(TableEntries(init)) {
          var i :| SourcedFrom(init, i, r);
          assert files[i] == init[i];
          assert SourcedFrom(files, i, r);
        } else {
          assert Flatten(added) == added[0];
          WithSourceSets(f.1.load.records, f.0);
          assert SourcedFrom(files, n - 1, r);
        }
      }
    }
  }

  // ---------------------------------------------------------------------------
  // The queries
  // ---------------------------------------------------------------------------

  /** `tab_hits`, `pdf_hits_name` and `pdf_hits_cin`. */
  datatype Results = Results(tabHits: seq<Hit>, pdfHitsName: seq<PdfHit>, pdfHitsCin: seq<PdfHit>)

  /**
   * The three searches: the tables, concatenated, against both queries;
   * the documents against the name query and, separately, against the CIN
   * query, each only when that query is given.
   */
  method RunQuery(pdfDocs: seq<(string, PdfDoc)>, tables: seq<seq<Record>>, nameQ: string, cinQ: string,
                  thr: int, ratio: (string, string) -> real) returns (res: Results)
    ensures res.tabHits == SearchTabular(Flatten(tables), nameQ, cinQ, thr, ratio)
    ensures res.pdfHitsName == PdfHits(pdfDocs, nameQ)
    ensures res.pdfHitsCin == PdfHits(pdfDocs, cinQ)
  {
    var tabHits := SearchTabular(Flatten(tables), nameQ, cinQ, thr, ratio);
    var byName: seq<PdfHit> := [];
    if nameQ != "" {
      byName := SearchPdfs(pdfDocs, nameQ);
    }
    var byCin: seq<PdfHit> := [];
    if cinQ != "" {
      byCin := SearchPdfs(pdfDocs, cinQ);
    }
    res := Results(tabHits, byName, byCin);
  }

  /** The uploads of the files an entry or a record points to: the file at position `i` is upload `i`. */
  lemma FileOf(uploads: seq<Upload>, i: nat)
    requires AllWellFormed(uploads) && i < |uploads|
    ensures Files(uploads)[i].0 == uploads[i].name
    ensures Files(uploads)[i].1.PdfRead? <==> IsPdfName(uploads[i].name)
    ensures Files(uploads)[i].1.PdfRead? ==> Files(uploads)[i].1.doc.nPages == |uploads[i].pages|
  {
  }

  /** Every tabular hit comes from an uploaded non-PDF file and carries that file's name as its source. */
  lemma TabularHitsFromUploads(uploads: seq<Upload>, nameQ: string, cinQ: string, thr: int,
                               ratio: (string, string) -> real)
    requires AllWellFormed(uploads) && IngestAll(Files(uploads)).Ingested?
    ensures forall h :: h in SearchTabular(Flatten(IngestAll(Files(uploads)).tables), nameQ, cinQ, thr, ratio) ==>
      exists i :: 0 <= i < |uploads| && !IsPdfName(uploads[i].name) && h.record.source == uploads[i].name
  {
    var files := Files(uploads);
    IngestAborts(files);
    IngestCollects(files);
    SearchTabularSubset(Flatten(TableEntries(files)), nameQ, cinQ, thr, ratio);
    TableEntriesFrom(files);
    forall h | h in SearchTabular(Flatten(TableEntries(files)), nameQ, cinQ, thr, ratio)
      ensures exists i :: 0 <= i < |uploads| && !IsPdfName(uploads[i].name) && h.record.source == uploads[i].name
    {
      var i :| SourcedFrom(files, i, h.record);
      FileOf(uploads, i);
    }
  }

  /** Every PDF hit names an uploaded PDF file and a page of it, counted from 1. */
  lemma PdfHitsFromUploads(uploads: seq<Upload>, query: string)
    requires AllWellFormed(uploads) && IngestAll(Files(uploads)).Ingested?
    ensures forall h :: h in PdfHits(IngestAll(Files(uploads)).pdfDocs, query) ==>
      exists i :: (0 <= i < |uploads| && IsPdfName(uploads[i].name) && h.fichier == uploads[i].name
        && 1 <= h.page <= |uploads[i].pages|)
  {
    var files := Files(uploads);
    IngestAborts(files);
    IngestCollects(files);
    var docs := PdfEntries(files);
    AllHitsFromDocs(docs, query);
    PdfEntriesFrom(files);
    forall h | h in PdfHits(docs, query)
      ensures exists i :: (0 <= i < |uploads| && IsPdfName(uploads[i].name) && h.fichier == uploads[i].name
        && 1 <= h.page <= |uploads[i].pages|)
    {
      var d :| 0 <= d < |docs| && h.fichier == docs[d].0 && 1 <= h.page <= |docs[d].1.pagesText|;
      assert docs[d] in docs;
      var i :| PdfOf(files, i, docs[d]);
      FileOf(uploads, i);
    }
  }
}
