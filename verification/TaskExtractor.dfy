// The task extractor after its document is chosen: task_extractor of worker/handlers.py
// and _run_extract of worker/redsea_toolkit.py, which it mirrors. Both look for related
// codes first, then extract one file for each, or fall back to the code alone.
module TaskExtractor {
  import opened Common
  import opened Extraction
  import opened Ordering
  import opened PageRuns
  import opened Subtasks

  // ----------------------------------------------------------- codes in text order

  predicate Increasing(codes: seq<string>) {
    forall i, j | 0 <= i < j < |codes| :: TextLess(codes[i], codes[j])
  }

  function InsertCode(x: string, codes: seq<string>): seq<string> {
    if codes == [] || TextLess(x, codes[0]) then [x] + codes
    else if x == codes[0] then codes
    else [codes[0]] + InsertCode(x, codes[1..])
  }

  // sorted(set(codes)).
  function SortedCodes(codes: seq<string>): seq<string> {
    if codes == [] then [] else InsertCode(codes[|codes| - 1], SortedCodes(codes[..|codes| - 1]))
  }

  lemma {:induction false} InsertCodeHolds(x: string, codes: seq<string>, y: string)
    ensures y in InsertCode(x, codes) <==> y in codes || y == x
    decreases |codes|
  {
    if codes != [] {
      assert codes == [codes[0]] + codes[1..];
      InsertCodeHolds(x, codes[1..], y);
    }
  }

  lemma {:induction false} InsertCodeKeepsOrder(x: string, codes: seq<string>)
    requires Increasing(codes)
    ensures Increasing(InsertCode(x, codes))
    decreases |codes|
  {
    TextsAreOrdered();
    if codes == [] {
    } else if TextLess(x, codes[0]) {
      forall j | 0 <= j < |codes| ensures TextLess(x, codes[j]) {
        assert j > 0 ==> TextLess(codes[0], codes[j]);
      }
    } else if x != codes[0] {
      var tail := InsertCode(x, codes[1..]);
      InsertCodeKeepsOrder(x, codes[1..]);
      forall j | 0 <= j < |tail| ensures TextLess(codes[0], tail[j]) {
        InsertCodeHolds(x, codes[1..], tail[j]);
      }
    }
  }

  lemma {:induction false} SortedCodesAreTheCodes(codes: seq<string>)
    ensures Increasing(SortedCodes(codes)) && Elements(SortedCodes(codes)) == Elements(codes)
    decreases |codes|
  {
    if codes != [] {
      var front, last := codes[..|codes| - 1], codes[|codes| - 1];
      assert codes == front + [last];
      SortedCodesAreTheCodes(front);
      InsertCodeKeepsOrder(last, SortedCodes(front));
      forall y ensures y in SortedCodes(codes) <==> y in codes {
        InsertCodeHolds(last, SortedCodes(front), y);
        assert y in Elements(front) <==> y in Elements(SortedCodes(front));
      }
    }
  }

  // ----------------------------------------------------------- the related codes

  // The codes that OCR reads off a page without text.
  type Ocr = Page -> seq<string>

  function CodesOn(page: Page, ocr: Ocr): seq<string> {
    if page.blank then ocr(page) else page.codes
  }

  function Kin(found: seq<string>, code: string, prefix: string): seq<string> {
    if found == [] then []
    else
      var front, last := Kin(found[..|found| - 1], code, prefix), found[|found| - 1];
      if prefix <= last && last != code then front + [last] else front
  }

  function KinIn(doc: seq<Page>, code: string, prefix: string, ocr: Ocr): seq<string> {
    if doc == [] then []
    else KinIn(doc[..|doc| - 1], code, prefix, ocr) + Kin(CodesOn(doc[|doc| - 1], ocr), code, prefix)
  }

  // The related codes of a document, in order; none for a code that is not three-part.
  function RelatedCodes(doc: seq<Page>, code: string, digit: Digits, ocr: Ocr): seq<string> {
    match Family(code, digit)
    case None => []
    case Some(prefix) => SortedCodes(KinIn(doc, code, prefix, ocr))
  }

  predicate IsKin(code: string, prefix: string, c: string) {
    prefix <= c && c != code
  }

  lemma {:induction false} KinAreTheOthers(found: seq<string>, code: string, prefix: string, c: string)
    ensures c in Kin(found, code, prefix) <==> c in found && IsKin(code, prefix, c)
    decreases |found|
  {
    if found != [] {
      assert found == found[..|found| - 1] + [found[|found| - 1]];
      KinAreTheOthers(found[..|found| - 1], code, prefix, c);
    }
  }

  ghost predicate Somewhere(doc: seq<Page>, ocr: Ocr, c: string) {
    exists i | 0 <= i < |doc| :: if doc[i].blank then c in ocr(doc[i]) else c in doc[i].codes
  }

  lemma SomewhereNext(doc: seq<Page>, ocr: Ocr, c: string)
    requires doc != []
    ensures Somewhere(doc, ocr, c) <==> Somewhere(doc[..|doc| - 1], ocr, c) || c in CodesOn(doc[|doc| - 1], ocr)
  {
    var front := doc[..|doc| - 1];
    if Somewhere(front, ocr, c) {
      var i :| 0 <= i < |front| && c in CodesOn(front[i], ocr);
      assert doc[i] == front[i];
    }
    if Somewhere(doc, ocr, c) {
      var i :| 0 <= i < |doc| && c in CodesOn(doc[i], ocr);
      assert i < |front| ==> front[i] == doc[i];
    }
  }

  lemma {:induction false} KinAreSomewhere(doc: seq<Page>, code: string, prefix: string, ocr: Ocr, c: string)
    ensures c in KinIn(doc, code, prefix, ocr) <==> Somewhere(doc, ocr, c) && IsKin(code, prefix, c)
    decreases |doc|
  {
    if doc != [] {
      var n := |doc| - 1;
      KinAreSomewhere(doc[..n], code, prefix, ocr, c);
      KinAreTheOthers(CodesOn(doc[n], ocr), code, prefix, c);
      SomewhereNext(doc, ocr, c);
    }
  }

  // The related codes are the other codes of the family that stand on some page, each
  // once and in order.
  lemma RelatedCodesAreTheFamily(doc: seq<Page>, code: string, digit: Digits, ocr: Ocr, c: string)
    requires Family(code, digit).Some?
    ensures Increasing(RelatedCodes(doc, code, digit, ocr))
    ensures c in RelatedCodes(doc, code, digit, ocr) <==>
              Somewhere(doc, ocr, c) && IsKin(code, Family(code, digit).value, c)
  {
    var prefix := Family(code, digit).value;
    SortedCodesAreTheCodes(KinIn(doc, code, prefix, ocr));
    KinAreSomewhere(doc, code, prefix, ocr, c);
    var related := RelatedCodes(doc, code, digit, ocr);
    assert c in Elements(related) <==> c in Elements(KinIn(doc, code, prefix, ocr));
  }

  method KinOf(codes: seq<string>, code: string, prefix: string) returns (kin: seq<string>)
    ensures kin == Kin(codes, code, prefix)
  {
    kin := [];
    for i := 0 to |codes|
      invariant kin == Kin(codes[..i], code, prefix)
    {
      assert codes[..i + 1][..i] == codes[..i];
      if prefix <= codes[i] && codes[i] != code {
        kin := kin + [codes[i]];
      }
    }
    assert codes[..|codes|] == codes;
  }

  lemma KinNext(doc: seq<Page>, code: string, prefix: string, ocr: Ocr, pn: nat)
    requires pn < |doc|
    ensures KinIn(doc[..pn + 1], code, prefix, ocr)
         == KinIn(doc[..pn], code, prefix, ocr) + Kin(CodesOn(doc[pn], ocr), code, prefix)
  {
    assert doc[..pn + 1][..pn] == doc[..pn];
  }

  // The scan for related codes, in both versions; None where reading a page raises.
  method FindRelated(doc: seq<Page>, code: string, digit: Digits, ocr: Ocr) returns (related: Option<seq<string>>)
    ensures related == if Family(code, digit).Some? && !AllReadable(doc) then None
                       else Some(RelatedCodes(doc, code, digit, ocr))
  {
    var family := Family(code, digit);
    if family.None? {
      return Some([]);
    }
    var found: seq<string> := [];
    for pn := 0 to |doc|
      invariant forall k | 0 <= k < pn :: doc[k].readable
      invariant found == KinIn(doc[..pn], code, family.value, ocr)
    {
      if !doc[pn].readable {
        return None;
      }
      KinNext(doc, code, family.value, ocr, pn);
      var kin := KinOf(CodesOn(doc[pn], ocr), code, family.value);
      found := found + kin;
    }
    assert doc[..|doc|] == doc;
    related := Some(SortedCodes(found));
  }

  // ------------------------------------------------------------------ the outcomes

  type Pdf = (string, seq<Page>)

  datatype Outcome =
    | RelatedFiles(files: seq<Pdf>)
    | BaseFiles(files: seq<Pdf>)
    | NoPages
    | Failed

  function Pdfs(outcome: Outcome): seq<Pdf> {
    if outcome.RelatedFiles? || outcome.BaseFiles? then outcome.files else []
  }

  // The options of the desktop version: drop the first page, and one file or one a page.
  datatype Options = Options(skipFirst: bool, combine: bool)

  function Kept(pages: seq<int>, options: Options): seq<int> {
    if options.skipFirst && pages != [] then pages[1..] else pages
  }

  function PageFile(doc: seq<Page>, code: string, pages: seq<int>, i: nat): Pdf
    requires i < |pages| && InDocument(pages, doc)
  {
    (BaseName(code) + "_p" + Decimal(pages[i] + 1) + "_" + Decimal(i + 1) + ".pdf", [doc[pages[i]]])
  }

  function BaseExtract(doc: seq<Page>, code: string, pages: seq<int>, combine: bool): seq<Pdf>
    requires InDocument(pages, doc)
  {
    if combine then [(BaseName(code) + "_extracted.pdf", Pick(doc, pages))]
    else seq(|pages|, i requires 0 <= i < |pages| => PageFile(doc, code, pages, i))
  }

  function DesktopBase(doc: seq<Page>, code: string, options: Options): Outcome {
    MatchesAreTheWanted(doc, code);
    var kept := Kept(Matches(doc, code), options);
    if kept == [] then NoPages else BaseFiles(BaseExtract(doc, code, kept, options.combine))
  }

  // The desktop version: a page that cannot be read ends the related scan, and with it
  // the extraction, but is skipped everywhere else.
  function Desktop(doc: seq<Page>, code: string, digit: Digits, ocr: Ocr, options: Options): Outcome {
    var related := RelatedCodes(doc, code, digit, ocr);
    if Family(code, digit).Some? && !AllReadable(doc) then Failed
    else if related != [] && Files(doc, [code] + related) != [] then RelatedFiles(Files(doc, [code] + related))
    else DesktopBase(doc, code, options)
  }

  // The worker: it forgets the related codes when their scan fails, and then meets the
  // same page in the scan for the code itself.
  function Worker(doc: seq<Page>, code: string, digit: Digits, ocr: Ocr): Outcome {
    var related := RelatedCodes(doc, code, digit, ocr);
    if !AllReadable(doc) then Failed
    else if related != [] && Files(doc, [code] + related) != [] then RelatedFiles(Files(doc, [code] + related))
    else if Filter(doc, code) == [] then NoPages
    else BaseFiles([(BaseName(code) + "_extracted.pdf", Filter(doc, code))])
  }

  // ------------------------------------------------------------- the desktop version

  // One file for every page.
  method OneFileAPage(doc: seq<Page>, code: string, pages: seq<int>) returns (files: seq<Pdf>)
    requires InDocument(pages, doc)
    ensures files == BaseExtract(doc, code, pages, false)
  {
    files := [];
    for i := 0 to |pages|
      invariant files == BaseExtract(doc, code, pages, false)[..i]
    {
      files := files + [PageFile(doc, code, pages, i)];
    }
  }

  // The code alone.
  method ExtractBase(doc: seq<Page>, code: string, options: Options, pool: Pool) returns (outcome: Outcome)
    requires PoolFor(pool, |doc|)
    ensures outcome == DesktopBase(doc, code, options)
  {
    MatchesAreTheWanted(doc, code);
    var matches := ScanParallel(doc, code, pool);
    if options.skipFirst && matches != [] {
      matches := matches[1..];
    }
    if matches == [] {
      return NoPages;
    }
    if options.combine {
      var out := InsertRuns(doc, matches);
      return BaseFiles([(BaseName(code) + "_extracted.pdf", out)]);
    }
    var files := OneFileAPage(doc, code, matches);
    outcome := BaseFiles(files);
  }

  // _run_extract; every scan has a thread pool of its own.
  method RunExtract(doc: seq<Page>, code: string, digit: Digits, ocr: Ocr, options: Options,
                    pools: string -> Pool, last: Pool) returns (outcome: Outcome)
    requires PoolFor(last, |doc|) && forall c :: PoolFor(pools(c), |doc|)
    ensures outcome == Desktop(doc, code, digit, ocr, options)
  {
    var related := FindRelated(doc, code, digit, ocr);
    if related.None? {
      return Failed;
    }
    if related.value != [] {
      var codes := [code] + related.value;
      var saved := ExtractRelated(doc, codes, seq(|codes|, i requires 0 <= i < |codes| => pools(codes[i])));
      if saved != [] {
        return RelatedFiles(saved);
      }
    }
    outcome := ExtractBase(doc, code, options, last);
  }

  // --------------------------------------------------------------------- the worker

  // The worker's loop over the codes, which an exception leaves with what it has so far:
  // nothing, since the first scan reads every page.
  method ExtractInWorker(doc: seq<Page>, codes: seq<string>) returns (saved: seq<Pdf>)
    ensures saved == if AllReadable(doc) then Files(doc, codes) else []
  {
    saved := [];
    for i := 0 to |codes|
      invariant saved == if AllReadable(doc) then Files(doc, codes[..i]) else []
    {
      assert codes[..i + 1][..i] == codes[..i];
      var pages := ScanSequential(doc, codes[i]);
      if pages.None? {
        return;
      }
      MatchesAreTheWanted(doc, codes[i]);
      if pages.value != [] {
        var out := InsertRuns(doc, pages.value);
        saved := saved + [(FileName(codes[i]), out)];
      }
    }
    assert codes[..|codes|] == codes;
  }

  // task_extractor from the related scan on.
  method ExtractTask(doc: seq<Page>, code: string, digit: Digits, ocr: Ocr) returns (outcome: Outcome)
    ensures outcome == Worker(doc, code, digit, ocr)
    // A non-empty list of related codes means that every page could be read.
    ensures outcome.RelatedFiles? ==>
              AllReadable(doc) && outcome.files == Files(doc, [code] + RelatedCodes(doc, code, digit, ocr))
  {
    MatchesAreTheWanted(doc, code);
    var related := FindRelated(doc, code, digit, ocr);
    if related.Some? && related.value != [] {
      var saved := ExtractInWorker(doc, [code] + related.value);
      if saved != [] {
        return RelatedFiles(saved);
      }
    }
    var pages := ScanSequential(doc, code);
    if pages.None? {
      return Failed;
    }
    if pages.value == [] {
      return NoPages;
    }
    var out := InsertRuns(doc, pages.value);
    outcome := BaseFiles([(BaseName(code) + "_extracted.pdf", out)]);
  }

  // The desktop's options: the first page found is left out on demand, and the pages come
  // in one file, or one a page under its number.
  lemma TheOptionsDoWhatTheySay(doc: seq<Page>, code: string, options: Options)
    ensures var pages := Filter(doc, code);
            var wanted := if options.skipFirst && pages != [] then pages[1..] else pages;
            var matches := Matches(doc, code);
            var numbers := if options.skipFirst && matches != [] then matches[1..] else matches;
            var outcome := DesktopBase(doc, code, options);
            && |numbers| == |wanted|
            && (outcome == NoPages <==> wanted == [])
            && (wanted != [] ==>
                  && outcome.BaseFiles?
                  && (options.combine ==> outcome.files == [(BaseName(code) + "_extracted.pdf", wanted)])
                  && (!options.combine ==>
                        && |outcome.files| == |wanted|
                        && forall i | 0 <= i < |wanted| ::
                             && numbers[i] >= 0 && outcome.files[i].1 == [wanted[i]]
                             && outcome.files[i].0 ==
                                  BaseName(code) + "_p" + Decimal(numbers[i] + 1) + "_" + Decimal(i + 1) + ".pdf"))
  {
    MatchesAreTheWanted(doc, code);
    var matches := Matches(doc, code);
    var kept := Kept(matches, options);
    assert matches != [] ==> Pick(doc, matches[1..]) == Pick(doc, matches)[1..];
  }

  // ------------------------------------------------------------------ the comparison

  ghost predicate SomeWanted(doc: seq<Page>, code: string) {
    exists k | 0 <= k < |doc| :: Wanted(doc[k], code)
  }

  lemma WantedPagesMatch(doc: seq<Page>, code: string)
    ensures Matches(doc, code) != [] <==> SomeWanted(doc, code)
  {
    MatchesAreTheWanted(doc, code);
    if Matches(doc, code) != [] {
      var k := Matches(doc, code)[0];
      assert k in Matches(doc, code);
    }
  }

  // The code's own file is for documents in which no related code stands on some page,
  // or none of the codes on a wanted one.
  lemma RelatedCodesComeFirst(doc: seq<Page>, code: string, digit: Digits, ocr: Ocr, options: Options)
    requires AllReadable(doc)
    ensures var codes := [code] + RelatedCodes(doc, code, digit, ocr);
            var desktop, worker := Desktop(doc, code, digit, ocr, options), Worker(doc, code, digit, ocr);
            && (desktop.RelatedFiles? <==> |codes| > 1 && exists c :: c in codes && SomeWanted(doc, c))
            && (worker.RelatedFiles? <==> desktop.RelatedFiles?)
            && (desktop.RelatedFiles? ==> desktop == worker)
            && (!desktop.RelatedFiles? ==> desktop == DesktopBase(doc, code, options))
            && (!desktop.RelatedFiles? ==> worker == DesktopBase(doc, code, Options(false, true)))
  {
    var codes := [code] + RelatedCodes(doc, code, digit, ocr);
    if c :| c in codes && SomeWanted(doc, c) {
      WantedPagesMatch(doc, c);
      MatchesAreTheWanted(doc, c);
      FilesAreTheFilteredDocuments(doc, codes, (BaseName(c) + "_related.pdf", Filter(doc, c)));
    }
    if Files(doc, codes) != [] {
      FilesAreTheFilteredDocuments(doc, codes, Files(doc, codes)[0]);
      var c :| c in codes && Filter(doc, c) != [];
      WantedPagesMatch(doc, c);
      MatchesAreTheWanted(doc, c);
    }
    MatchesAreTheWanted(doc, code);
  }

  // The two versions write the same files, with the desktop's plain options, unless the
  // code is not three-part, some page cannot be read, and another page is wanted.
  lemma VersionsAgreeExactly(doc: seq<Page>, code: string, digit: Digits, ocr: Ocr)
    ensures Pdfs(Worker(doc, code, digit, ocr)) == Pdfs(Desktop(doc, code, digit, ocr, Options(false, true))) <==>
              Family(code, digit).Some? || AllReadable(doc) || !SomeWanted(doc, code)
  {
    WantedPagesMatch(doc, code);
    MatchesAreTheWanted(doc, code);
    if Family(code, digit).None? && !AllReadable(doc) && SomeWanted(doc, code) {
      var desktop := Desktop(doc, code, digit, ocr, Options(false, true));
      assert desktop == BaseFiles(BaseExtract(doc, code, Matches(doc, code), true));
      assert |desktop.files| == 1;
    }
  }

  const DECIMAL: Digits := c => '0' <= c <= '9'
  const FOUR_PART := "27-054-00-01"
  const UNREADABLE: Page := PageFacts(false, "", true, [], false)
  const CARD: Page := PageFacts(true, FOUR_PART, false, [FOUR_PART], false)

  // A four-part code whose card follows a page that cannot be read: the desktop extracts
  // the card, the worker nothing.
  lemma AFourPartCodeCanLoseItsPages(ocr: Ocr)
    ensures FourPart(FOUR_PART, 3, DECIMAL)
    ensures Worker([UNREADABLE, CARD], FOUR_PART, DECIMAL, ocr) == Failed
    ensures Desktop([UNREADABLE, CARD], FOUR_PART, DECIMAL, ocr, Options(false, true))
         == BaseFiles([(BaseName(FOUR_PART) + "_extracted.pdf", [CARD])])
  {
    var front: seq<Page>, doc: seq<Page> := [UNREADABLE], [UNREADABLE, CARD];
    assert !doc[0].readable && Family(FOUR_PART, DECIMAL).None?;
    assert OccursAt(FOUR_PART, FOUR_PART, 0);
    assert front[..0] == [] && Filter(front, FOUR_PART) == [];
    assert doc[..|doc| - 1] == front && Filter(doc, FOUR_PART) == [CARD];
    MatchesAreTheWanted(doc, FOUR_PART);
    assert Matches(doc, FOUR_PART) != [];
  }
}
