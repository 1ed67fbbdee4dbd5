// Page extraction: _scan_pages_for_code_parallel and _extract_related_tasks_to_pdf of
// worker/redsea_toolkit.py, and the sequential scan in worker/handlers.py.
module Extraction {
  import opened Common
  import opened PageRuns

  // A page as the scans see it: the text of the page, whether it is white space, the
  // codes that TASK_PATTERN finds in it, and whether its upper-cased text holds an index
  // marker. Reading an unreadable page raises.
  datatype PageFacts = PageFacts(readable: bool, text: string, blank: bool, codes: seq<string>, marked: bool)

  type Page = p: PageFacts | (p.text == "" ==> p.blank) && (p.blank ==> p.codes == [] && !p.marked)
    witness PageFacts(true, "", true, [], false)

  // _is_index_page: a marker, and more than ten codes.
  predicate IsIndexPage(page: Page) {
    page.text != "" && page.marked && |page.codes| > 10
  }

  predicate Wanted(page: Page, code: string) {
    page.readable && Contains(page.text, code) && !IsIndexPage(page)
  }

  // The plain meaning of an extraction: keep the wanted pages.
  function Filter(doc: seq<Page>, code: string): seq<Page> {
    if doc == [] then []
    else
      var front, last := Filter(doc[..|doc| - 1], code), doc[|doc| - 1];
      if Wanted(last, code) then front + [last] else front
  }

  function Matches(doc: seq<Page>, code: string): seq<int> {
    if doc == [] then []
    else
      var n := |doc| - 1;
      if Wanted(doc[n], code) then Matches(doc[..n], code) + [n] else Matches(doc[..n], code)
  }

  predicate InDocument(pages: seq<int>, doc: seq<Page>) {
    forall i | 0 <= i < |pages| :: 0 <= pages[i] < |doc|
  }

  function Pick(doc: seq<Page>, pages: seq<int>): seq<Page>
    requires InDocument(pages, doc)
  {
    seq(|pages|, i requires 0 <= i < |pages| => doc[pages[i]])
  }

  lemma {:induction false} MatchesAreTheWanted(doc: seq<Page>, code: string)
    ensures Ascending(Matches(doc, code)) && InDocument(Matches(doc, code), doc)
    ensures forall k :: k in Matches(doc, code) <==> 0 <= k < |doc| && Wanted(doc[k], code)
    ensures Pick(doc, Matches(doc, code)) == Filter(doc, code)
    decreases |doc|
  {
    if doc != [] {
      var front := doc[..|doc| - 1];
      MatchesAreTheWanted(front, code);
      assert forall i | 0 <= i < |Matches(front, code)| :: 0 <= Matches(front, code)[i] < |front|;
      assert Pick(doc, Matches(front, code)) == Pick(front, Matches(front, code));
      if Wanted(doc[|front|], code) {
        assert Pick(doc, Matches(doc, code)) == Pick(doc, Matches(front, code)) + [doc[|front|]];
      }
    }
  }

  lemma {:induction false} FilterHolds(doc: seq<Page>, code: string, page: Page)
    ensures page in Filter(doc, code) <==> page in doc && Wanted(page, code)
    decreases |doc|
  {
    if doc != [] {
      assert doc == doc[..|doc| - 1] + [doc[|doc| - 1]];
      FilterHolds(doc[..|doc| - 1], code, page);
    }
  }

  // What is extracted: the pages whose text can be read and holds the code, but for index
  // pages, which have a marker and at least eleven codes.
  lemma ExtractedPagesHoldTheCode(doc: seq<Page>, code: string, page: Page)
    ensures page in Filter(doc, code) <==>
              && page in doc && page.readable && Contains(page.text, code)
              && (page.marked ==> |page.codes| <= 10)
  {
    FilterHolds(doc, code, page);
  }

  // -------------------------------------------------------- the parallel scan

  // The order in which the page futures complete: every page number once.
  ghost predicate CompletionOrder(order: seq<nat>, n: nat) {
    && (forall i, j | 0 <= i < j < |order| :: order[i] != order[j])
    && forall k :: k in order <==> 0 <= k < n
  }

  // What check_page gives: the page number, or None.
  function CheckPage(doc: seq<Page>, code: string, pn: nat): Option<int>
    requires pn < |doc|
  {
    if Wanted(doc[pn], code) then Some(pn) else None
  }

  // How the thread pool fares: its futures complete in some order, or it raises.
  datatype Pool = Completes(order: seq<nat>) | PoolRaises

  ghost predicate PoolFor(pool: Pool, n: nat) {
    pool.Completes? ==> CompletionOrder(pool.order, n)
  }

  method ScanWithThreads(doc: seq<Page>, code: string, order: seq<nat>) returns (results: seq<int>)
    requires CompletionOrder(order, |doc|)
    ensures results == Matches(doc, code)
  {
    results := [];
    for i := 0 to |order|
      invariant forall k :: k in results <==> 0 <= k < |doc| && k in order[..i] && Wanted(doc[k], code)
    {
      assert order[..i + 1] == order[..i] + [order[i]];
      assert order[i] in order;
      var found := CheckPage(doc, code, order[i]);
      if found.Some? {
        results := results + [found.value];
      }
    }
    assert order[..|order|] == order;
    // results.sort(): the numbers are distinct, so sorting is sorting the set.
    var unsorted := results;
    results := SortedSet(unsorted);
    SortedSetIsAscending(unsorted);
    MatchesAreTheWanted(doc, code);
    AscendingIsUnique(results, Matches(doc, code));
  }

  predicate AllReadable(doc: seq<Page>) {
    forall k | 0 <= k < |doc| :: doc[k].readable
  }

  // The fallback when the pool raises: page by page, skipping what cannot be read.
  method ScanWithoutThreads(doc: seq<Page>, code: string) returns (matches: seq<int>)
    ensures matches == Matches(doc, code)
  {
    matches := [];
    for i := 0 to |doc|
      invariant matches == Matches(doc[..i], code)
    {
      assert doc[..i + 1][..i] == doc[..i];
      if doc[i].readable && Contains(doc[i].text, code) && !IsIndexPage(doc[i]) {
        matches := matches + [i];
      }
    }
    assert doc[..|doc|] == doc;
  }

  // _scan_pages_for_code_parallel.
  method ScanParallel(doc: seq<Page>, code: string, pool: Pool) returns (results: seq<int>)
    requires PoolFor(pool, |doc|)
    ensures results == Matches(doc, code)
  {
    match pool
    case Completes(order) => results := ScanWithThreads(doc, code, order);
    case PoolRaises => results := ScanWithoutThreads(doc, code);
  }

  // The worker's scan, which one unreadable page aborts.
  method ScanSequential(doc: seq<Page>, code: string) returns (result: Option<seq<int>>)
    ensures result == if AllReadable(doc) then Some(Matches(doc, code)) else None
  {
    var pages: seq<int> := [];
    for pn := 0 to |doc|
      invariant forall k | 0 <= k < pn :: doc[k].readable
      invariant pages == Matches(doc[..pn], code)
    {
      assert doc[..pn + 1][..pn] == doc[..pn];
      if !doc[pn].readable {
        return None;
      }
      var isIndex := doc[pn].marked && |doc[pn].codes| > 10;
      if Contains(doc[pn].text, code) && !isIndex {
        pages := pages + [pn];
      }
    }
    assert doc[..|doc|] == doc;
    return Some(pages);
  }

  // ------------------------------------------------------------ runs to ranges

  lemma RunIsARange(doc: seq<Page>, run: seq<int>)
    requires Consecutive(run) && InDocument(run, doc)
    ensures 0 <= run[0] <= Last(run) < |doc| && doc[run[0]..Last(run) + 1] == Pick(doc, run)
  {
    assert Last(run) == run[0] + |run| - 1;
    forall i | 0 <= i < |run| ensures doc[run[0]..Last(run) + 1][i] == Pick(doc, run)[i] {
      assert run[i] == run[0] + i;
    }
  }

  lemma PickAppend(doc: seq<Page>, a: seq<int>, b: seq<int>)
    requires InDocument(a, doc) && InDocument(b, doc)
    ensures InDocument(a + b, doc) && Pick(doc, a + b) == Pick(doc, a) + Pick(doc, b)
  {
  }

  lemma InDocumentSplit(doc: seq<Page>, a: seq<int>, b: seq<int>)
    requires InDocument(a + b, doc)
    ensures InDocument(a, doc) && InDocument(b, doc)
  {
    assert forall i | 0 <= i < |a| :: a[i] == (a + b)[i];
    forall i | 0 <= i < |b| ensures 0 <= b[i] < |doc| {
      assert b[i] == (a + b)[|a| + i];
    }
  }

  lemma {:induction false} ConcatInDocument(runs: seq<seq<int>>, doc: seq<Page>)
    requires InDocument(Concat(runs), doc)
    ensures forall i | 0 <= i < |runs| :: InDocument(runs[i], doc)
    decreases |runs|
  {
    if runs != [] {
      InDocumentSplit(doc, Concat(runs[..|runs| - 1]), runs[|runs| - 1]);
      ConcatInDocument(runs[..|runs| - 1], doc);
    }
  }

  lemma InsertedRun(doc: seq<Page>, runs: seq<seq<int>>, i: nat)
    requires i < |runs| && Consecutive(runs[i]) && InDocument(runs[i], doc) && InDocument(Concat(runs[..i]), doc)
    ensures 0 <= runs[i][0] <= Last(runs[i]) < |doc| && InDocument(Concat(runs[..i + 1]), doc)
    ensures Pick(doc, Concat(runs[..i])) + doc[runs[i][0]..Last(runs[i]) + 1] == Pick(doc, Concat(runs[..i + 1]))
  {
    assert runs[..i + 1] == runs[..i] + [runs[i]];
    ConcatSplit(runs[..i], runs[i]);
    RunIsARange(doc, runs[i]);
    PickAppend(doc, Concat(runs[..i]), runs[i]);
  }

  lemma MatchRuns(doc: seq<Page>, pages: seq<int>)
    requires Ascending(pages) && InDocument(pages, doc)
    ensures SortedSet(pages) == pages && Concat(Runs(pages)) == pages
    ensures forall i | 0 <= i < |Runs(pages)| :: Consecutive(Runs(pages)[i]) && InDocument(Runs(pages)[i], doc)
  {
    SortedSetIsAscending(pages);
    AscendingIsUnique(SortedSet(pages), pages);
    RunsAreSeparated(pages);
    ConcatInDocument(Runs(pages), doc);
  }

  // One output file: out.insert_pdf(doc, run[0], run[-1]) for every run.
  method InsertRuns(doc: seq<Page>, pages: seq<int>) returns (out: seq<Page>)
    requires Ascending(pages) && InDocument(pages, doc)
    ensures out == Pick(doc, pages)
  {
    MatchRuns(doc, pages);
    var runs := GroupContiguous(pages);
    out := [];
    for i := 0 to |runs|
      invariant InDocument(Concat(runs[..i]), doc) && out == Pick(doc, Concat(runs[..i]))
    {
      InsertedRun(doc, runs, i);
      out := out + doc[runs[i][0]..Last(runs[i]) + 1];
    }
    assert runs[..|runs|] == runs;
  }

  // The whole pipeline, however the pool fares, is the filter.
  method ExtractPages(doc: seq<Page>, code: string, pool: Pool) returns (out: seq<Page>)
    requires PoolFor(pool, |doc|)
    ensures out == Filter(doc, code)
  {
    var matches := ScanParallel(doc, code, pool);
    MatchesAreTheWanted(doc, code);
    out := InsertRuns(doc, matches);
  }

  function BaseName(code: string): string {
    seq(|code|, i requires 0 <= i < |code| => if code[i] == '/' then '_' else code[i])
  }

  function FileName(code: string): string {
    BaseName(code) + "_related.pdf"
  }

  // One file per code that has pages, in the order of the codes.
  function Files(doc: seq<Page>, codes: seq<string>): seq<(string, seq<Page>)> {
    if codes == [] then []
    else
      var front, last := Files(doc, codes[..|codes| - 1]), codes[|codes| - 1];
      if Filter(doc, last) == [] then front else front + [(FileName(last), Filter(doc, last))]
  }

  // _extract_related_tasks_to_pdf; each code's scan has a thread pool of its own.
  method ExtractRelated(doc: seq<Page>, codes: seq<string>, pools: seq<Pool>)
    returns (saved: seq<(string, seq<Page>)>)
    requires |pools| == |codes| && forall i | 0 <= i < |pools| :: PoolFor(pools[i], |doc|)
    ensures saved == Files(doc, codes)
  {
    saved := [];
    for i := 0 to |codes|
      invariant saved == Files(doc, codes[..i])
    {
      assert codes[..i + 1][..i] == codes[..i];
      var matches := ScanParallel(doc, codes[i], pools[i]);
      MatchesAreTheWanted(doc, codes[i]);
      if matches != [] {
        var out := InsertRuns(doc, matches);
        saved := saved + [(FileName(codes[i]), out)];
      }
    }
    assert codes[..|codes|] == codes;
  }

  // The files hold, for each code with pages, the filtered document under the code's name
  // with its slashes replaced, and nothing else.
  lemma {:induction false} FilesAreTheFilteredDocuments(doc: seq<Page>, codes: seq<string>, f: (string, seq<Page>))
    ensures f in Files(doc, codes) <==>
              exists c :: c in codes && Filter(doc, c) != [] && f == (BaseName(c) + "_related.pdf", Filter(doc, c))
    decreases |codes|
  {
    if codes != [] {
      var front, last := codes[..|codes| - 1], codes[|codes| - 1];
      assert codes == front + [last];
      FilesAreTheFilteredDocuments(doc, front, f);
      if c :| c in codes && Filter(doc, c) != [] && f == (BaseName(c) + "_related.pdf", Filter(doc, c)) {
        assert c in front || c == last;
      }
    }
  }

  lemma BaseNamesHaveNoSlash(code: string)
    ensures |BaseName(code)| == |code|
    ensures forall i | 0 <= i < |code| :: BaseName(code)[i] == if code[i] == '/' then '_' else code[i]
  {
  }
}
