// TcmIndexer of worker/redsea_toolkit.py: the page index of a folder of PDFs, built
// from futures that finish in any order, and its query for the longest run.
module TcmIndex {
  import opened Common
  import opened PageRuns

  type Code = string

  // What TASK_PATTERN.findall gives on each page; a document that cannot be opened
  // or whose scan raises yields nothing.
  datatype Document =
    | Unreadable
    | Readable(pages: seq<seq<Code>>)

  datatype Pdf = Pdf(path: string, doc: Document)

  // [first, last] of a run.
  type Range = (int, int)
  type Mapping = map<Code, seq<Range>>
  datatype Entry = Entry(path: string, mapping: Mapping)

  // ------------------------------------------------------------ one document

  function CodesOf(pages: seq<seq<Code>>): set<Code> {
    set page, code | page in pages && code in page :: code
  }

  // The pages that carry the code, in order.
  function HitPages(pages: seq<seq<Code>>, code: Code): seq<int> {
    if pages == [] then []
    else
      var n := |pages| - 1;
      if code in pages[n] then HitPages(pages[..n], code) + [n] else HitPages(pages[..n], code)
  }

  function Ends(runs: seq<seq<int>>): seq<Range>
    requires forall i | 0 <= i < |runs| :: runs[i] != []
  {
    seq(|runs|, i requires 0 <= i < |runs| => (runs[i][0], Last(runs[i])))
  }

  lemma {:induction false} HitPagesAreTheHits(pages: seq<seq<Code>>, code: Code)
    ensures Ascending(HitPages(pages, code))
    ensures forall k :: k in HitPages(pages, code) <==> 0 <= k < |pages| && code in pages[k]
    decreases |pages|
  {
    if pages != [] {
      var front := HitPages(pages[..|pages| - 1], code);
      HitPagesAreTheHits(pages[..|pages| - 1], code);
      forall i | 0 <= i < |front| ensures front[i] < |pages| - 1 {
        var k := front[i];
        assert k in front;
      }
    }
  }

  lemma RunsAreNonEmpty(s: seq<int>)
    requires Ascending(s)
    ensures forall i | 0 <= i < |Runs(s)| :: Runs(s)[i] != []
  {
    RunsAreSeparated(s);
    assert forall i | 0 <= i < |Runs(s)| :: Consecutive(Runs(s)[i]);
  }

  function Ranges(pages: seq<seq<Code>>, code: Code): seq<Range> {
    HitPagesAreTheHits(pages, code);
    RunsAreNonEmpty(HitPages(pages, code));
    Ends(Runs(HitPages(pages, code)))
  }

  // The mapping of one document: every code of it, with its runs.
  function MappingOf(doc: Document): Mapping {
    if doc.Unreadable? then map[]
    else map code | code in CodesOf(doc.pages) :: Ranges(doc.pages, code)
  }

  // [a, b] is a block of consecutive pages that all carry the code.
  ghost predicate Block(doc: Document, code: Code, a: int, b: int) {
    && doc.Readable? && 0 <= a <= b < |doc.pages|
    && forall k | a <= k <= b :: code in doc.pages[k]
  }

  ghost predicate Maximal(doc: Document, code: Code, a: int, b: int) {
    && Block(doc, code, a, b)
    && !(a > 0 && code in doc.pages[a - 1])
    && !(b + 1 < |doc.pages| && code in doc.pages[b + 1])
  }

  // The stored ranges of a code are exactly its maximal blocks in the document.
  lemma RangesAreTheMaximalBlocks(doc: Document, code: Code, a: int, b: int)
    requires doc.Readable?
    ensures (a, b) in Ranges(doc.pages, code) <==> Maximal(doc, code, a, b)
  {
    var hits := HitPages(doc.pages, code);
    HitPagesAreTheHits(doc.pages, code);
    RunsAreNonEmpty(hits);
    RunsAreTheMaximalBlocks(hits, a, b);
    assert forall k :: k in Elements(hits) <==> 0 <= k < |doc.pages| && code in doc.pages[k];
    if Maximal(doc, code, a, b) {
      assert MaximalBlock(Elements(hits), a, b);
      var i :| 0 <= i < |Runs(hits)| && IsRun(Runs(hits), i, a, b);
      assert Ranges(doc.pages, code)[i] == (a, b);
    }
    if (a, b) in Ranges(doc.pages, code) {
      var i :| 0 <= i < |Runs(hits)| && Ranges(doc.pages, code)[i] == (a, b);
      assert IsRun(Runs(hits), i, a, b);
      assert MaximalBlock(Elements(hits), a, b);
      assert a in Elements(hits) && b in Elements(hits);
    }
  }

  // Every block lies inside a maximal one.
  lemma GrowBlock(doc: Document, code: Code, a: int, b: int) returns (c: int, d: int)
    requires Block(doc, code, a, b)
    ensures Maximal(doc, code, c, d) && c <= a && b <= d
    decreases a + |doc.pages| - b
  {
    if a > 0 && code in doc.pages[a - 1] {
      c, d := GrowBlock(doc, code, a - 1, b);
    } else if b + 1 < |doc.pages| && code in doc.pages[b + 1] {
      c, d := GrowBlock(doc, code, a, b + 1);
    } else {
      c, d := a, b;
    }
  }

  // ---------------------------------------------------- scan_single_pdf, as loops

  function Seen(hits: map<Code, seq<int>>, code: Code): seq<int> {
    if code in hits then hits[code] else []
  }

  predicate SameMembers(a: seq<int>, b: seq<int>) {
    (forall k | k in a :: k in b) && (forall k | k in b :: k in a)
  }

  // The recorded pages of every code, as a set, are its hits so far.
  ghost predicate Records(hits: map<Code, seq<int>>, pages: seq<seq<Code>>) {
    && (forall code :: SameMembers(Seen(hits, code), HitPages(pages, code)))
    && (forall code | code in hits :: hits[code] != [])
  }

  // The hits when the first codes of one more page are in.
  function HitsSoFar(pages: seq<seq<Code>>, part: seq<Code>, code: Code): seq<int> {
    if code in part then HitPages(pages, code) + [|pages|] else HitPages(pages, code)
  }

  lemma HitPagesNext(pages: seq<seq<Code>>, page: seq<Code>, code: Code)
    ensures HitPages(pages + [page], code) == HitsSoFar(pages, page, code)
  {
    assert (pages + [page])[..|pages|] == pages;
  }

  lemma OneMoreCode(stored: seq<int>, pages: seq<seq<Code>>, part: seq<Code>, code: Code)
    requires SameMembers(stored, HitsSoFar(pages, part, code))
    ensures SameMembers(stored + [|pages|], HitsSoFar(pages, part + [code], code))
  {
  }

  method RecordPage(hits: map<Code, seq<int>>, pages: seq<seq<Code>>, page: seq<Code>)
    returns (after: map<Code, seq<int>>)
    requires Records(hits, pages)
    ensures Records(after, pages + [page])
  {
    after := hits;
    for i := 0 to |page|
      invariant forall code :: SameMembers(Seen(after, code), HitsSoFar(pages, page[..i], code))
      invariant forall code | code in after :: after[code] != []
    {
      ghost var before := after;
      after := after[page[i] := Seen(after, page[i]) + [|pages|]];
      OneMoreCode(Seen(before, page[i]), pages, page[..i], page[i]);
      assert page[..i + 1] == page[..i] + [page[i]];
      forall code ensures SameMembers(Seen(after, code), HitsSoFar(pages, page[..i + 1], code)) {
        assert SameMembers(Seen(before, code), HitsSoFar(pages, page[..i], code));
      }
    }
    assert page[..|page|] == page;
    forall code ensures SameMembers(Seen(after, code), HitPages(pages + [page], code)) {
      HitPagesNext(pages, page, code);
    }
  }

  lemma CodesHaveHits(pages: seq<seq<Code>>, code: Code)
    ensures code in CodesOf(pages) <==> HitPages(pages, code) != []
  {
    HitPagesAreTheHits(pages, code);
    if HitPages(pages, code) != [] {
      var k := HitPages(pages, code)[0];
      assert k in HitPages(pages, code) && pages[k] in pages;
    }
    if code in CodesOf(pages) {
      var page :| page in pages && code in page;
      var k :| 0 <= k < |pages| && pages[k] == page;
      assert k in HitPages(pages, code);
    }
  }

  lemma RecordedCodes(hits: map<Code, seq<int>>, pages: seq<seq<Code>>)
    requires Records(hits, pages)
    ensures hits.Keys == CodesOf(pages)
  {
    forall code ensures code in hits <==> code in CodesOf(pages) {
      CodesHaveHits(pages, code);
      SameMembersSameEmptiness(Seen(hits, code), HitPages(pages, code));
    }
  }

  method ScanSinglePdf(doc: Document) returns (mapping: Mapping)
    ensures mapping == MappingOf(doc)
  {
    if doc.Unreadable? {
      return map[];
    }
    var hits: map<Code, seq<int>> := map[];
    for i := 0 to |doc.pages|
      invariant Records(hits, doc.pages[..i])
    {
      assert doc.pages[..i + 1] == doc.pages[..i] + [doc.pages[i]];
      hits := RecordPage(hits, doc.pages[..i], doc.pages[i]);
    }
    assert doc.pages[..|doc.pages|] == doc.pages;
    RecordedCodes(hits, doc.pages);
    mapping := map[];
    var rest := hits.Keys;
    while rest != {}
      invariant rest <= hits.Keys
      invariant mapping.Keys == hits.Keys - rest
      invariant forall code | code in mapping :: mapping[code] == Ranges(doc.pages, code)
      decreases |rest|
    {
      var code :| code in rest;
      var runs := GroupContiguous(hits[code]);
      SortedSetIsAscending(hits[code]);
      HitPagesAreTheHits(doc.pages, code);
      assert SameMembers(Seen(hits, code), HitPages(doc.pages, code));
      AscendingIsUnique(SortedSet(hits[code]), HitPages(doc.pages, code));
      RunsAreNonEmpty(HitPages(doc.pages, code));
      mapping := mapping[code := Ends(runs)];
      rest := rest - {code};
    }
  }

  // ---------------------------------------------------------------- the folder

  ghost predicate DistinctPaths(pdfs: seq<Pdf>) {
    forall i, j | 0 <= i < j < |pdfs| :: pdfs[i].path != pdfs[j].path
  }

  // Every document once, in the order in which the futures complete.
  ghost predicate CompletionOrder(order: seq<Pdf>, folder: seq<Pdf>) {
    DistinctPaths(order) && forall p :: p in order <==> p in folder
  }

  predicate HasCodes(p: Pdf) {
    MappingOf(p.doc) != map[]
  }

  function EntryOf(p: Pdf): Entry {
    Entry(p.path, MappingOf(p.doc))
  }

  // The index after these completions: a dictionary, in insertion order.
  function IndexOf(order: seq<Pdf>): seq<Entry> {
    if order == [] then []
    else
      var before, p := IndexOf(order[..|order| - 1]), order[|order| - 1];
      if HasCodes(p) then before + [EntryOf(p)] else before
  }

  // The dictionary that a sequential search of the folder gives.
  ghost function FolderIndex(folder: seq<Pdf>): set<Entry> {
    set p | p in folder && HasCodes(p) :: EntryOf(p)
  }

  ghost predicate DistinctKeys(index: seq<Entry>) {
    forall i, j | 0 <= i < j < |index| :: index[i].path != index[j].path
  }

  lemma {:induction false} IndexHoldsTheOrder(order: seq<Pdf>)
    ensures Elements(IndexOf(order)) == FolderIndex(order)
    decreases |order|
  {
    if order != [] {
      var front, last := order[..|order| - 1], order[|order| - 1];
      assert order == front + [last];
      IndexHoldsTheOrder(front);
      if HasCodes(last) {
        assert FolderIndex(order) == FolderIndex(front) + {EntryOf(last)};
      } else {
        assert FolderIndex(order) == FolderIndex(front);
      }
    }
  }

  lemma {:induction false} IndexKeysAreDistinct(order: seq<Pdf>)
    requires DistinctPaths(order)
    ensures DistinctKeys(IndexOf(order))
    decreases |order|
  {
    if order != [] {
      var front, last := order[..|order| - 1], order[|order| - 1];
      IndexKeysAreDistinct(front);
      IndexHoldsTheOrder(front);
      var before := IndexOf(front);
      forall i | 0 <= i < |before| ensures before[i].path != last.path {
        assert before[i] in Elements(before);
        var p :| p in front && EntryOf(p) == before[i];
      }
    }
  }

  // Whatever the order in which the futures finish, the index is the same dictionary.
  lemma IndexIgnoresTheOrder(order: seq<Pdf>, folder: seq<Pdf>)
    requires CompletionOrder(order, folder)
    ensures Elements(IndexOf(order)) == FolderIndex(folder)
    ensures DistinctKeys(IndexOf(order)) && forall e | e in IndexOf(order) :: e.mapping != map[]
  {
    IndexHoldsTheOrder(order);
    IndexKeysAreDistinct(order);
    assert FolderIndex(order) == FolderIndex(folder);
    forall e | e in IndexOf(order) ensures e.mapping != map[] {
      assert e in Elements(IndexOf(order));
    }
  }

  // ------------------------------------------------------------------ the query

  function Length(r: Range): int {
    r.1 - r.0 + 1
  }

  // sorted(ranges, key=(-length, start))[0].
  function Longest(ranges: seq<Range>): (best: Range)
    requires ranges != []
    ensures best in ranges
    ensures forall r | r in ranges :: Length(r) < Length(best) || (Length(r) == Length(best) && best.0 <= r.0)
  {
    var last := ranges[|ranges| - 1];
    if |ranges| == 1 then last
    else
      var front := ranges[..|ranges| - 1];
      assert ranges == front + [last];
      var best := Longest(front);
      if Length(last) > Length(best) || (Length(last) == Length(best) && last.0 < best.0) then last else best
  }

  type Occurrence = Option<(string, Range)>

  function SizeOf(found: Occurrence): int {
    if found.None? then 0 else Length(found.value.1)
  }

  // What the answer means in terms of the stored ranges.
  ghost predicate Best(index: seq<Entry>, code: Code, found: Occurrence) {
    && (forall e, r | e in index && code in e.mapping && r in e.mapping[code] :: Length(r) <= SizeOf(found))
    && (found.Some? ==> exists e | e in index ::
          e.path == found.value.0 && code in e.mapping && found.value.1 in e.mapping[code] && Length(found.value.1) > 0)
  }

  // Ties: the first entry that has so long a run, and its earliest run.
  ghost predicate FirstBestAt(index: seq<Entry>, code: Code, found: Occurrence, i: int) {
    && found.Some? && 0 <= i < |index| && index[i].path == found.value.0
    && code in index[i].mapping && found.value.1 in index[i].mapping[code]
    && (forall j, r | 0 <= j < i && code in index[j].mapping && r in index[j].mapping[code] ::
          Length(r) < SizeOf(found))
    && (forall r | r in index[i].mapping[code] && Length(r) == SizeOf(found) :: found.value.1.0 <= r.0)
  }

  ghost predicate FirstBest(index: seq<Entry>, code: Code, found: Occurrence) {
    found.Some? ==> exists i :: FirstBestAt(index, code, found, i)
  }

  lemma FirstBestNext(index: seq<Entry>, e: Entry, code: Code, found: Occurrence)
    requires FirstBest(index, code, found)
    ensures FirstBest(index + [e], code, found)
  {
    if found.Some? {
      var i :| FirstBestAt(index, code, found, i);
      assert FirstBestAt(index + [e], code, found, i);
    }
  }

  lemma LongerRunTakesOver(index: seq<Entry>, e: Entry, code: Code, found: Occurrence, r: Range)
    requires Best(index, code, found) && code in e.mapping && e.mapping[code] != []
    requires r == Longest(e.mapping[code]) && Length(r) > SizeOf(found)
    ensures FirstBest(index + [e], code, Some((e.path, r)))
  {
    assert forall j | 0 <= j < |index| :: (index + [e])[j] in index;
    assert FirstBestAt(index + [e], code, Some((e.path, r)), |index|);
  }

  // What the answer means in terms of the documents: nothing exactly when no page
  // carries the code, and otherwise a maximal run as long as any block of pages.
  ghost predicate Answers(folder: seq<Pdf>, code: Code, found: Occurrence) {
    && (found.None? <==> forall p | p in folder && p.doc.Readable? :: code !in CodesOf(p.doc.pages))
    && (found.Some? ==> exists p | p in folder ::
          p.path == found.value.0 && Maximal(p.doc, code, found.value.1.0, found.value.1.1))
    && (forall p, a, b | p in folder && Block(p.doc, code, a, b) :: b - a + 1 <= SizeOf(found))
  }

  lemma BlocksAreInTheIndex(folder: seq<Pdf>, index: seq<Entry>, p: Pdf, code: Code, a: int, b: int) returns (r: Range)
    requires Elements(index) == FolderIndex(folder) && p in folder && Block(p.doc, code, a, b)
    ensures EntryOf(p) in index && code in EntryOf(p).mapping && r in EntryOf(p).mapping[code]
    ensures b - a + 1 <= Length(r)
  {
    var c, d := GrowBlock(p.doc, code, a, b);
    RangesAreTheMaximalBlocks(p.doc, code, c, d);
    assert p.doc.pages[a] in p.doc.pages;
    assert code in MappingOf(p.doc);
    assert EntryOf(p) in FolderIndex(folder);
    r := (c, d);
  }

  lemma CodePagesAreBlocks(p: Pdf, code: Code) returns (k: int)
    requires p.doc.Readable? && code in CodesOf(p.doc.pages)
    ensures Block(p.doc, code, k, k)
  {
    var page :| page in p.doc.pages && code in page;
    k :| 0 <= k < |p.doc.pages| && p.doc.pages[k] == page;
  }

  lemma StoredRangesAreMaximal(folder: seq<Pdf>, index: seq<Entry>, e: Entry, code: Code, r: Range) returns (p: Pdf)
    requires Elements(index) == FolderIndex(folder) && e in index && code in e.mapping && r in e.mapping[code]
    ensures p in folder && p.path == e.path && Maximal(p.doc, code, r.0, r.1)
  {
    assert e in Elements(index);
    p :| p in folder && HasCodes(p) && EntryOf(p) == e;
    RangesAreTheMaximalBlocks(p.doc, code, r.0, r.1);
  }

  // The stored answer is the answer of a direct search of the folder.
  lemma BestAnswersTheFolder(folder: seq<Pdf>, index: seq<Entry>, code: Code, found: Occurrence)
    requires Elements(index) == FolderIndex(folder) && Best(index, code, found)
    ensures Answers(folder, code, found)
  {
    forall p, a, b | p in folder && Block(p.doc, code, a, b) ensures b - a + 1 <= SizeOf(found) {
      var r := BlocksAreInTheIndex(folder, index, p, code, a, b);
      assert r in EntryOf(p).mapping[code];
    }
    if found.Some? {
      var e :| e in index && e.path == found.value.0 && code in e.mapping && found.value.1 in e.mapping[code];
      var p := StoredRangesAreMaximal(folder, index, e, code, found.value.1);
      assert p.doc.pages[found.value.1.0] in p.doc.pages;
      assert code in CodesOf(p.doc.pages);
    } else {
      forall p | p in folder && p.doc.Readable? ensures code !in CodesOf(p.doc.pages) {
        if code in CodesOf(p.doc.pages) {
          var k := CodePagesAreBlocks(p, code);
          var r := BlocksAreInTheIndex(folder, index, p, code, k, k);
        }
      }
    }
  }

  // The length of the answer does not depend on the order.
  lemma AnswersAgreeOnLength(folder: seq<Pdf>, code: Code, f: Occurrence, g: Occurrence)
    requires Answers(folder, code, f) && Answers(folder, code, g)
    ensures SizeOf(f) == SizeOf(g)
  {
    if f.Some? {
      var p :| p in folder && p.path == f.value.0 && Maximal(p.doc, code, f.value.1.0, f.value.1.1);
      assert SizeOf(f) <= SizeOf(g);
    }
    if g.Some? {
      var p :| p in folder && p.path == g.value.0 && Maximal(p.doc, code, g.value.1.0, g.value.1.1);
      assert SizeOf(g) <= SizeOf(f);
    }
  }

  class TcmIndexer {
    const folder: seq<Pdf>
    var index: seq<Entry>
    var stopRequested: bool

    constructor (folder: seq<Pdf>)
      ensures this.folder == folder && index == [] && !stopRequested
    {
      this.folder := folder;
      index := [];
      stopRequested := false;
    }

    // build_index over one completion order. Another thread may set the stop flag while
    // it runs, after `stopAt` completions are handled; the flag is looked at before each
    // of them and before the index is saved. `saved` tells whether the cache is written.
    method BuildIndex(order: seq<Pdf>, stopAt: Option<nat>) returns (saved: bool)
      requires CompletionOrder(order, folder)
      modifies this
      ensures index == IndexOf(if stopAt.Some? && stopAt.value < |order| then order[..stopAt.value] else order)
      ensures stopRequested <==> stopAt.Some?
      ensures saved <==> order != [] && stopAt.None?
      ensures stopAt.None? || stopAt.value >= |order| ==> Elements(index) == FolderIndex(folder) && DistinctKeys(index)
    {
      stopRequested := false;
      index := [];
      saved := false;
      for i := 0 to |order|
        invariant !saved && (stopAt.Some? ==> i <= stopAt.value)
        invariant index == IndexOf(order[..i])
      {
        stopRequested := stopAt == Some(i);
        if stopRequested {
          return;
        }
        assert order[..i + 1][..i] == order[..i];
        var mapping := ScanSinglePdf(order[i].doc);
        if mapping != map[] {
          index := index + [Entry(order[i].path, mapping)];
        }
      }
      assert order[..|order|] == order;
      IndexIgnoresTheOrder(order, folder);
      stopRequested := stopAt.Some?;
      saved := order != [] && !stopRequested;
    }

    // find_best_occurrence_for_task: a strictly longer run replaces the best so far.
    method FindBestOccurrence(code: Code) returns (found: Occurrence)
      requires forall e, r | e in index && code in e.mapping && r in e.mapping[code] :: Length(r) > 0
      ensures Best(index, code, found) && FirstBest(index, code, found)
    {
      found := None;
      for i := 0 to |index|
        invariant Best(index[..i], code, found) && FirstBest(index[..i], code, found)
      {
        var e := index[i];
        assert index[..i + 1] == index[..i] + [e];
        FirstBestNext(index[..i], e, code, found);
        if code in e.mapping && e.mapping[code] != [] {
          var r := Longest(e.mapping[code]);
          if Length(r) > SizeOf(found) {
            LongerRunTakesOver(index[..i], e, code, found, r);
            found := Some((e.path, r));
          }
        }
      }
      assert index[..|index|] == index;
    }

    // Building and asking, against a direct search of the folder.
    method BuildAndFind(order: seq<Pdf>, code: Code) returns (found: Occurrence)
      requires CompletionOrder(order, folder)
      modifies this
      ensures Answers(folder, code, found)
    {
      var saved := BuildIndex(order, None);
      forall e, r | e in index && code in e.mapping && r in e.mapping[code] ensures Length(r) > 0 {
        var p := StoredRangesAreMaximal(folder, index, e, code, r);
      }
      found := FindBestOccurrence(code);
      BestAnswersTheFolder(folder, index, code, found);
    }
  }
}
