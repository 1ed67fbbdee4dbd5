// The three streaming loops of backend/storage.py: store_upload,
// persist_output_artifact and _read_file_stream. Each reads a byte string in pieces
// and must end up knowing the whole string.
module Storage {
  import opened Common
  import opened Utf8

  type Bytes = seq<Byte>

  // A piece of a stream: an empty read means the end.
  type Chunk = c: Bytes | c != [] witness [0]

  const CHUNK_SIZE: nat := 1048576
  const MAGIC_PREFIX_LENGTH := 16

  // ------------------------------------------------------------------- digests

  // A hash as its object keeps it: a state folded over the bytes, and a rendering.
  datatype Hasher<!H> = Hasher(init: H, absorb: (H, Byte) -> H, hex: H -> string)

  function Absorb<H>(h: Hasher<H>, state: H, s: Bytes): H
    decreases |s|
  {
    if s == [] then state else Absorb(h, h.absorb(state, s[0]), s[1..])
  }

  lemma {:induction false} AbsorbAppend<H>(h: Hasher<H>, state: H, a: Bytes, b: Bytes)
    ensures Absorb(h, state, a + b) == Absorb(h, Absorb(h, state, a), b)
    decreases |a|
  {
    if a == [] {
      assert a + b == b;
    } else {
      assert (a + b)[1..] == a[1..] + b;
      AbsorbAppend(h, h.absorb(state, a[0]), a[1..], b);
    }
  }

  lemma AbsorbOne<H>(h: Hasher<H>, state: H, b: Byte)
    ensures Absorb(h, state, []) == state && Absorb(h, state, [b]) == h.absorb(state, b)
  {
    assert [b][1..] == [];
  }

  function Digest<H>(h: Hasher<H>, s: Bytes): string {
    h.hex(Absorb(h, h.init, s))
  }

  // The digest of a whole is that of its pieces, absorbed one after the other.
  lemma DigestsArePieced<H>(h: Hasher<H>, a: Bytes, b: Bytes)
    ensures Digest(h, a + b) == h.hex(Absorb(h, Absorb(h, h.init, a), b))
  {
    AbsorbAppend(h, h.init, a, b);
  }

  function First(s: Bytes): Bytes {
    if |s| <= MAGIC_PREFIX_LENGTH then s else s[..MAGIC_PREFIX_LENGTH]
  }

  // ------------------------------------------------------------ artifact types

  datatype Kind = Pdf | Excel | Csv | Docx | Image | Other

  datatype ArtifactType = ArtifactType(kind: Kind, mime: string, declared: set<string>, magic: seq<Bytes>, isText: bool)

  const XLSX := "application/vnd.openxmlformats-officedocument.spreadsheetml.sheet"
  const XLS := "application/vnd.ms-excel"
  const DOC := "application/msword"
  const DOCX := "application/vnd.openxmlformats-officedocument.wordprocessingml.document"
  const OLE_MAGIC: seq<Bytes> := [[0xD0, 0xCF, 0x11, 0xE0, 0xA1, 0xB1, 0x1A, 0xE1]]
  const ZIP_MAGIC: seq<Bytes> := [[0x50, 0x4B, 0x03, 0x04], [0x50, 0x4B, 0x05, 0x06], [0x50, 0x4B, 0x07, 0x08]]
  const PDF_MAGIC: seq<Bytes> := [[0x25, 0x50, 0x44, 0x46, 0x2D]]
  const PNG_MAGIC: seq<Bytes> := [[0x89, 0x50, 0x4E, 0x47, 0x0D, 0x0A, 0x1A, 0x0A]]
  const JPEG_MAGIC: seq<Bytes> := [[0xFF, 0xD8, 0xFF]]

  function TypeOf(extension: string): Option<ArtifactType> {
    if extension == ".pdf" then Some(ArtifactType(Pdf, "application/pdf", {"application/pdf"}, PDF_MAGIC, false))
    else if extension == ".xlsx" then Some(ArtifactType(Excel, XLSX, {XLSX}, ZIP_MAGIC, false))
    else if extension == ".xls" then Some(ArtifactType(Excel, XLS, {XLS}, OLE_MAGIC, false))
    else if extension == ".csv" then
      Some(ArtifactType(Csv, "text/csv", {"text/csv", "application/csv", "text/plain"}, [], true))
    else if extension == ".docx" then Some(ArtifactType(Docx, DOCX, {DOCX}, ZIP_MAGIC, false))
    else if extension == ".doc" then Some(ArtifactType(Docx, DOC, {DOC}, OLE_MAGIC, false))
    else if extension == ".png" then Some(ArtifactType(Image, "image/png", {"image/png"}, PNG_MAGIC, false))
    else if extension in {".jpg", ".jpeg"} then
      Some(ArtifactType(Image, "image/jpeg", {"image/jpeg"}, JPEG_MAGIC, false))
    else None
  }

  // validate_upload_type, on the extension and the normalised MIME claim.
  function UploadType(extension: string, mime: string): Option<ArtifactType> {
    var t := TypeOf(extension);
    if t.Some? && mime in t.value.declared then t else None
  }

  predicate StartsWithMagic(t: ArtifactType, first: Bytes) {
    exists i | 0 <= i < |t.magic| :: t.magic[i] <= first
  }

  // _classify_bytes; `guess` is what the platform's MIME table says of the name.
  function Classify(extension: string, guess: Option<string>, first: Bytes, textValid: bool): (Kind, string) {
    var t := TypeOf(extension);
    if t.Some? && (if t.value.isText then textValid else StartsWithMagic(t.value, first)) then
      (t.value.kind, t.value.mime)
    else (Other, if guess.Some? then guess.value else "application/octet-stream")
  }

  // ----------------------------------------------------------- running knowledge

  function Join(chunks: seq<Chunk>): Bytes {
    if chunks == [] then [] else Join(chunks[..|chunks| - 1]) + chunks[|chunks| - 1]
  }

  function Extended(first: Bytes, chunk: Bytes): Bytes {
    if |first| >= MAGIC_PREFIX_LENGTH then first
    else if |chunk| <= MAGIC_PREFIX_LENGTH - |first| then first + chunk
    else first + chunk[..MAGIC_PREFIX_LENGTH - |first|]
  }

  lemma FirstExtends(s: Bytes, chunk: Bytes)
    ensures Extended(First(s), chunk) == First(s + chunk)
  {
  }

  // The decoder stands where the automaton stands after s.
  ghost predicate Decoding(decoder: IncrementalDecoder, s: Bytes)
    reads decoder
  {
    Run(Start, decoder.buffer) == Run(Start, s)
  }

  // ------------------------------------------------------------------ the disk

  datatype Error = Unsupported | TooLarge | Conflict | NotFound | Interrupted

  datatype Stored = Stored(path: string, name: string, kind: Kind, mime: string, size: nat, sha256: string)

  // What describe_artifact says of a file's content under a display name.
  datatype Facts = Facts(size: nat, sha256: string, first: Bytes, textValid: bool)

  ghost function FactsOf<H>(h: Hasher<H>, s: Bytes): Facts {
    Facts(|s|, Digest(h, s), First(s), ValidUtf8(s))
  }

  // Whether the content passes its type's check.
  ghost predicate Acceptable(t: ArtifactType, s: Bytes) {
    if t.isText then ValidUtf8(s) else StartsWithMagic(t, First(s))
  }

  // The description of a file with this content under a display name.
  ghost function Described<H>(h: Hasher<H>, path: string, name: string, extension: string, guess: Option<string>,
                              content: Bytes): Stored
  {
    var (kind, mime) := Classify(extension, guess, First(content), ValidUtf8(content));
    Stored(path, name, kind, mime, |content|, Digest(h, content))
  }

  // ------------------------------------------------ the table, on whole contents

  const EXTENSIONS := {".pdf", ".xlsx", ".xls", ".csv", ".docx", ".doc", ".png", ".jpg", ".jpeg"}

  predicate Begins(s: Bytes, prefix: Bytes) {
    |s| >= |prefix| && s[..|prefix|] == prefix
  }

  predicate IsZip(s: Bytes) {
    Begins(s, [0x50, 0x4B, 3, 4]) || Begins(s, [0x50, 0x4B, 5, 6]) || Begins(s, [0x50, 0x4B, 7, 8])
  }

  // What a content has to be to pass as a file with this extension: it begins with
  // "%PDF-", with a ZIP, OLE, PNG or JPEG signature, or is UTF-8 text.
  ghost predicate Passes(extension: string, s: Bytes) {
    if extension == ".pdf" then Begins(s, [0x25, 0x50, 0x44, 0x46, 0x2D])
    else if extension in {".xlsx", ".docx"} then IsZip(s)
    else if extension in {".xls", ".doc"} then Begins(s, [0xD0, 0xCF, 0x11, 0xE0, 0xA1, 0xB1, 0x1A, 0xE1])
    else if extension == ".png" then Begins(s, [0x89, 0x50, 0x4E, 0x47, 0x0D, 0x0A, 0x1A, 0x0A])
    else if extension in {".jpg", ".jpeg"} then Begins(s, [0xFF, 0xD8, 0xFF])
    else extension == ".csv" && ValidUtf8(s)
  }

  // The kind and MIME type that such a file is reported with.
  function Reported(extension: string): (Kind, string) {
    if extension == ".pdf" then (Pdf, "application/pdf")
    else if extension == ".xlsx" then (Excel, "application/vnd.openxmlformats-officedocument.spreadsheetml.sheet")
    else if extension == ".xls" then (Excel, "application/vnd.ms-excel")
    else if extension == ".csv" then (Csv, "text/csv")
    else if extension == ".docx" then
      (Docx, "application/vnd.openxmlformats-officedocument.wordprocessingml.document")
    else if extension == ".doc" then (Docx, "application/msword")
    else if extension == ".png" then (Image, "image/png")
    else if extension in {".jpg", ".jpeg"} then (Image, "image/jpeg")
    else (Other, "")
  }

  // The claims that may come with an upload: the reported type, and for a CSV file two more.
  function Claims(extension: string): set<string> {
    if extension == ".csv" then {"text/csv", "application/csv", "text/plain"}
    else if extension in EXTENSIONS then {Reported(extension).1} else {}
  }

  lemma SignaturesReachIntoTheFirstBytes(prefix: Bytes, s: Bytes)
    requires |prefix| <= 16
    ensures prefix <= First(s) <==> Begins(s, prefix)
  {
  }

  lemma SignaturesAreRead(extension: string, s: Bytes)
    requires TypeOf(extension).Some? && !TypeOf(extension).value.isText
    ensures StartsWithMagic(TypeOf(extension).value, First(s)) <==> Passes(extension, s)
  {
    var magic := TypeOf(extension).value.magic;
    assert |magic| <= 3 && forall i | 0 <= i < |magic| :: |magic[i]| <= 16;
    forall i | 0 <= i < |magic| ensures magic[i] <= First(s) <==> Begins(s, magic[i]) {
      SignaturesReachIntoTheFirstBytes(magic[i], s);
    }
    assert StartsWithMagic(TypeOf(extension).value, First(s)) <==> exists i | 0 <= i < |magic| :: Begins(s, magic[i]);
    if extension in {".xlsx", ".docx"} {
      assert magic[0] == [0x50, 0x4B, 3, 4] && magic[1] == [0x50, 0x4B, 5, 6] && magic[2] == [0x50, 0x4B, 7, 8];
    }
  }

  lemma TypesAreTheTable(extension: string, mime: string)
    ensures TypeOf(extension).Some? <==> extension in EXTENSIONS
    ensures UploadType(extension, mime).Some? <==> mime in Claims(extension)
    ensures TypeOf(extension).Some? ==>
              && (TypeOf(extension).value.kind, TypeOf(extension).value.mime) == Reported(extension)
              && (TypeOf(extension).value.isText <==> extension == ".csv")
  {
  }

  // A content passes its type's check exactly when it bears the signature, or is text.
  lemma AcceptableContentsPass(extension: string, s: Bytes)
    requires TypeOf(extension).Some?
    ensures Acceptable(TypeOf(extension).value, s) <==> Passes(extension, s)
  {
    TypesAreTheTable(extension, "");
    if !TypeOf(extension).value.isText {
      SignaturesAreRead(extension, s);
    }
  }

  // A stored file is described by its extension's kind and type exactly when its content
  // passes, and as something else otherwise.
  lemma DescriptionsFollowTheContent<H>(h: Hasher<H>, path: string, name: string, extension: string,
                                        guess: Option<string>, s: Bytes)
    ensures var d := Described(h, path, name, extension, guess, s);
            && d.path == path && d.name == name && d.size == |s| && d.sha256 == Digest(h, s)
            && (d.kind, d.mime) ==
                 if Passes(extension, s) then Reported(extension)
                 else (Other, if guess.Some? then guess.value else "application/octet-stream")
  {
    TypesAreTheTable(extension, "");
    if TypeOf(extension).Some? {
      AcceptableContentsPass(extension, s);
    }
  }

  // The chunk whose arrival takes the size over the limit.
  ghost predicate CrossesAt(chunks: seq<Chunk>, max: int, i: nat) {
    i < |chunks| && |Join(chunks[..i + 1])| > max && (i > 0 ==> |Join(chunks[..i])| <= max)
  }

  lemma {:induction false} JoinPrefix(chunks: seq<Chunk>, i: nat)
    requires i <= |chunks|
    ensures Join(chunks[..i]) <= Join(chunks)
    decreases |chunks|
  {
    if i == |chunks| {
      assert chunks[..i] == chunks;
    } else {
      JoinPrefix(chunks[..|chunks| - 1], i);
      assert chunks[..|chunks| - 1][..i] == chunks[..i];
    }
  }

  lemma JoinNext(chunks: seq<Chunk>, i: nat)
    requires i < |chunks|
    ensures Join(chunks[..i + 1]) == Join(chunks[..i]) + chunks[i]
  {
    assert chunks[..i + 1][..i] == chunks[..i];
  }

  // Oversize, in terms of the whole: some chunk crosses exactly when there is one and
  // the whole is too long; and at most one chunk does.
  lemma {:induction false} SomeChunkCrosses(chunks: seq<Chunk>, max: int) returns (i: nat)
    requires chunks != [] && |Join(chunks)| > max
    ensures CrossesAt(chunks, max, i)
    decreases |chunks|
  {
    var n := |chunks| - 1;
    if n == 0 || |Join(chunks[..n])| <= max {
      i := n;
      assert chunks[..n + 1] == chunks;
    } else {
      i := SomeChunkCrosses(chunks[..n], max);
      assert chunks[..n][..i + 1] == chunks[..i + 1] && chunks[..n][..i] == chunks[..i];
    }
  }

  lemma JoinGrows(chunks: seq<Chunk>, i: nat, j: nat)
    requires i <= j <= |chunks|
    ensures Join(chunks[..i]) <= Join(chunks[..j])
  {
    JoinPrefix(chunks[..j], i);
    assert chunks[..j][..i] == chunks[..i];
  }

  lemma OneChunkCrosses(chunks: seq<Chunk>, max: int, i: nat, j: nat)
    requires CrossesAt(chunks, max, i) && CrossesAt(chunks, max, j)
    ensures i == j && |Join(chunks)| > max
  {
    JoinPrefix(chunks, i + 1);
    if i < j {
      JoinGrows(chunks, i + 1, j);
    } else if j < i {
      JoinGrows(chunks, j + 1, i);
    }
  }

  // Text that has already failed when the first n chunks are in.
  ghost predicate DeadBy(t: ArtifactType, chunks: seq<Chunk>, n: nat)
    requires n <= |chunks|
  {
    t.isText && Run(Start, Join(chunks[..n])) == Fail
  }

  // The report that this cut of the stream gets: too large, before the text has failed.
  ghost predicate CutIsTooLarge(t: ArtifactType, chunks: seq<Chunk>, max: int) {
    exists i :: CrossesAt(chunks, max, i) && !DeadBy(t, chunks, i)
  }

  lemma FailureOfPrefix(a: Bytes, b: Bytes)
    requires a <= b && Run(Start, a) == Fail
    ensures Run(Start, b) == Fail && !ValidUtf8(b)
  {
    assert b == a + b[|a|..];
    FailureIsForever(a, b[|a|..]);
  }

  lemma DeadStaysDead(t: ArtifactType, chunks: seq<Chunk>, n: nat, m: nat)
    requires n <= m <= |chunks| && DeadBy(t, chunks, n)
    ensures DeadBy(t, chunks, m) && !Acceptable(t, Join(chunks))
  {
    JoinGrows(chunks, n, m);
    JoinPrefix(chunks, n);
    FailureOfPrefix(Join(chunks[..n]), Join(chunks[..m]));
    FailureOfPrefix(Join(chunks[..n]), Join(chunks));
  }

  lemma NoCrossing(chunks: seq<Chunk>, max: int)
    requires chunks == [] || |Join(chunks)| <= max
    ensures forall i :: !CrossesAt(chunks, max, i)
  {
    if i: nat :| CrossesAt(chunks, max, i) {
      OneChunkCrosses(chunks, max, i, i);
    }
  }

  // A chunk that kills the text before anything crosses: nothing else is reported.
  lemma DeadAt(t: ArtifactType, chunks: seq<Chunk>, i: nat, max: int)
    requires i < |chunks| && DeadBy(t, chunks, i + 1) && |Join(chunks[..i + 1])| <= max
    ensures DeadBy(t, chunks, |chunks|) && !Acceptable(t, Join(chunks))
    ensures forall j :: CrossesAt(chunks, max, j) ==> DeadBy(t, chunks, j)
  {
    DeadStaysDead(t, chunks, i + 1, |chunks|);
    forall j: nat | CrossesAt(chunks, max, j) ensures DeadBy(t, chunks, j) {
      if j <= i {
        JoinGrows(chunks, j + 1, i + 1);
      }
      DeadStaysDead(t, chunks, i + 1, j);
    }
  }

  lemma OversizeBinariesAreTooLarge(t: ArtifactType, chunks: seq<Chunk>, max: int)
    requires !t.isText && chunks != [] && |Join(chunks)| > max
    ensures CutIsTooLarge(t, chunks, max)
  {
    var i := SomeChunkCrosses(chunks, max);
    assert !DeadBy(t, chunks, i);
  }

  // Which of two faults is reported does depend on the cut: the same two bytes are
  // too large in one piece, and bad text in two.
  lemma TheReportedFaultDependsOnTheCut(t: ArtifactType)
    requires t.isText
    ensures Join([[0xFF, 0x41]]) == Join([[0xFF], [0x41]])
    ensures CutIsTooLarge(t, [[0xFF, 0x41]], 1) && !CutIsTooLarge(t, [[0xFF], [0x41]], 1)
  {
    var one: seq<Chunk>, two: seq<Chunk> := [[0xFF, 0x41]], [[0xFF], [0x41]];
    JoinNext(one, 0);
    JoinNext(two, 0);
    JoinNext(two, 1);
    assert one[..0] == [] && two[..0] == [] && one[..1] == one && two[..2] == two;
    assert CrossesAt(one, 1, 0) && !DeadBy(t, one, 0);
    var bad: Bytes := [0xFF];
    assert Join(two[..1]) == bad && Step(Start, 0xFF) == Fail;
    assert Run(Start, bad) == Run(Fail, bad[1..]);
    FailIsFinal(bad[1..]);
  }

  // The part of a stream that is within the limit.
  function Within(s: Bytes, max: int): Bytes {
    if max <= 0 then [] else if |s| <= max then s else s[..max]
  }

  // Oversize is reported for every cut of an oversize stream when the part within the
  // limit has not failed: the chunks before the crossing lie in that part.
  lemma LivePartsAreTooLarge(t: ArtifactType, chunks: seq<Chunk>, max: int)
    requires chunks != [] && |Join(chunks)| > max
    requires t.isText ==> Run(Start, Within(Join(chunks), max)) != Fail
    ensures CutIsTooLarge(t, chunks, max)
  {
    var i := SomeChunkCrosses(chunks, max);
    JoinPrefix(chunks, i);
    if DeadBy(t, chunks, i) {
      FailureOfPrefix(Join(chunks[..i]), Within(Join(chunks), max));
    }
  }

  lemma OnePieceIsTooLarge(t: ArtifactType, s: Bytes, max: int)
    requires s != [] && |s| > max
    ensures Join([s]) == s && CutIsTooLarge(t, [s], max)
  {
    var chunks: seq<Chunk> := [s];
    JoinNext(chunks, 0);
    assert chunks[..1] == chunks && chunks[..0] == [];
    assert CrossesAt(chunks, max, 0) && !DeadBy(t, chunks, 0);
  }

  // The cut at the limit itself, when the text has failed by then.
  lemma CutAtTheLimitIsBadText(t: ArtifactType, s: Bytes, max: nat)
    requires t.isText && 0 < max < |s| && Run(Start, s[..max]) == Fail
    ensures Join([s[..max], s[max..]]) == s && !CutIsTooLarge(t, [s[..max], s[max..]], max)
  {
    var chunks: seq<Chunk> := [s[..max], s[max..]];
    JoinNext(chunks, 0);
    JoinNext(chunks, 1);
    assert chunks[..0] == [] && chunks[..2] == chunks;
    assert Join(chunks[..1]) == s[..max] && Join(chunks) == s[..max] + s[max..] == s;
    forall i: nat | CrossesAt(chunks, max, i) ensures DeadBy(t, chunks, i) {
      assert i == 1;
    }
  }

  // Every cut of s gets the same report.
  ghost predicate OneReport(t: ArtifactType, s: Bytes, max: int) {
    forall a, b | Join(a) == s && Join(b) == s :: CutIsTooLarge(t, a, max) == CutIsTooLarge(t, b, max)
  }

  // The report depends on the whole string only, exactly when that string fits, is no
  // text, or has not failed as text within the limit.
  lemma TheReportIgnoresTheCutExactly(t: ArtifactType, s: Bytes, max: int)
    ensures OneReport(t, s, max) <==> |s| <= max || !t.isText || Run(Start, Within(s, max)) != Fail
  {
    if s == [] || |s| <= max {
      forall chunks | Join(chunks) == s ensures !CutIsTooLarge(t, chunks, max) {
        if chunks != [] {
          JoinGrows(chunks, 1, |chunks|);
          assert chunks[..|chunks|] == chunks;
          JoinNext(chunks, 0);
        }
        NoCrossing(chunks, max);
      }
    } else if !t.isText || Run(Start, Within(s, max)) != Fail {
      forall chunks | Join(chunks) == s ensures CutIsTooLarge(t, chunks, max) {
        LivePartsAreTooLarge(t, chunks, max);
      }
    } else {
      OnePieceIsTooLarge(t, s, max);
      CutAtTheLimitIsBadText(t, s, max);
    }
  }

  // The sticky flag: valid so far with the decoder in step, or dead for good.
  ghost predicate Sticky(decoder: IncrementalDecoder, s: Bytes, textValid: bool)
    reads decoder
  {
    if textValid then Decoding(decoder, s) && Run(Start, s) != Fail else Run(Start, s) == Fail
  }

  // What one more piece of a file does to everything that is tracked.
  lemma PieceOf<H>(h: Hasher<H>, content: Bytes, pos: nat, next: nat)
    requires pos <= next <= |content|
    ensures content[..next] == content[..pos] + content[pos..next]
    ensures Absorb(h, h.init, content[..next]) == Absorb(h, Absorb(h, h.init, content[..pos]), content[pos..next])
    ensures First(content[..next]) == Extended(First(content[..pos]), content[pos..next])
    ensures Run(Start, content[..next]) == Run(Run(Start, content[..pos]), content[pos..next])
    ensures Run(Start, content[..pos]) == Fail ==> Run(Start, content[..next]) == Fail
  {
    assert content[..next] == content[..pos] + content[pos..next];
    AbsorbAppend(h, h.init, content[..pos], content[pos..next]);
    FirstExtends(content[..pos], content[pos..next]);
    RunAppend(Start, content[..pos], content[pos..next]);
    FailIsFinal(content[pos..next]);
  }

  class Disk {
    var files: map<string, Bytes>

    constructor (files: map<string, Bytes>)
      ensures this.files == files
    {
      this.files := files;
    }

    method Append(path: string, chunk: Bytes)
      requires path in files
      modifies this
      ensures files == old(files)[path := old(files)[path] + chunk]
    {
      files := files[path := files[path] + chunk];
    }

    method Unlink(path: string)
      modifies this
      ensures files == old(files) - {path}
    {
      files := files - {path};
    }

    // The loop of store_upload over the target it has just created. `broken` is a
    // stream that raises once these chunks are delivered.
    method Receive<H>(h: Hasher<H>, t: ArtifactType, chunks: seq<Chunk>, broken: bool, target: string, max: int)
      returns (failure: Option<Error>, size: nat, state: H, first: Bytes)
      requires target in files && files[target] == []
      modifies this
      ensures target in files && files == old(files)[target := files[target]]
      ensures failure.None? ==>
                && files[target] == Join(chunks) && size == |Join(chunks)|
                && state == Absorb(h, h.init, Join(chunks)) && first == First(Join(chunks))
      ensures failure.None? <==>
                && !broken && (chunks == [] || |Join(chunks)| <= max)
                && (t.isText ==> ValidUtf8(Join(chunks)))
      ensures failure == Some(TooLarge) <==> CutIsTooLarge(t, chunks, max)
      ensures failure == Some(Interrupted) <==>
                broken && (chunks == [] || |Join(chunks)| <= max) && !DeadBy(t, chunks, |chunks|)
      ensures failure.Some? ==> failure.value in {TooLarge, Interrupted, Unsupported}
    {
      size, state, first, failure := 0, h.init, [], None;
      var decoder := new IncrementalDecoder();
      for i := 0 to |chunks|
        invariant fresh(decoder)
        invariant files == old(files)[target := Join(chunks[..i])] && size == |Join(chunks[..i])|
        invariant state == Absorb(h, h.init, Join(chunks[..i])) && first == First(Join(chunks[..i]))
        invariant t.isText ==> Decoding(decoder, Join(chunks[..i]))
        invariant i > 0 ==> size <= max
        invariant !DeadBy(t, chunks, i)
      {
        var chunk := chunks[i];
        JoinNext(chunks, i);
        size := size + |chunk|;
        if size > max {
          assert CrossesAt(chunks, max, i);
          OneChunkCrosses(chunks, max, i, i);
          return Some(TooLarge), size, state, first;
        }
        FirstExtends(Join(chunks[..i]), chunk);
        first := Extended(first, chunk);
        AbsorbAppend(h, h.init, Join(chunks[..i]), chunk);
        state := Absorb(h, state, chunk);
        Append(target, chunk);
        if t.isText {
          RunAppend(Start, Join(chunks[..i]), chunk);
          var ok := decoder.Decode(chunk, false);
          if !ok {
            DeadAt(t, chunks, i, max);
            return Some(Unsupported), size, state, first;
          }
        }
      }
      assert chunks[..|chunks|] == chunks;
      NoCrossing(chunks, max);
      if broken {
        return Some(Interrupted), size, state, first;
      }
      if t.isText {
        AutomatonIsTheGrammar(Join(chunks));
        var ok := decoder.Decode([], true);
        if !ok {
          failure := Some(Unsupported);
        }
      }
    }

    // store_upload: accepts exactly the whole string that is within the limit and of
    // its type, however it was cut up, and leaves the disk as it was otherwise.
    method StoreUpload<H>(h: Hasher<H>, extension: string, mime: string, name: string, chunks: seq<Chunk>, broken: bool,
                          target: string, max: int) returns (result: Result<Stored, Error>)
      modifies this
      ensures var t, whole := UploadType(extension, mime), Join(chunks);
              && (result.Ok? <==> t.Some? && target !in old(files) && !broken
                                  && (chunks == [] || |whole| <= max) && Acceptable(t.value, whole))
              && (result.Ok? ==>
                    result.value == Stored(target, name, t.value.kind, t.value.mime, |whole|, Digest(h, whole)))
      ensures result.Ok? <==>
                && mime in Claims(extension) && target !in old(files) && !broken
                && (chunks == [] || |Join(chunks)| <= max) && Passes(extension, Join(chunks))
      ensures result.Ok? ==> (result.value.kind, result.value.mime) == Reported(extension)
      ensures result.Ok? ==> files == old(files)[target := Join(chunks)]
      ensures result.Err? ==> files == old(files)
      ensures result == Err(Conflict) <==> UploadType(extension, mime).Some? && target in old(files)
      ensures result == Err(TooLarge) <==>
                && UploadType(extension, mime).Some? && target !in old(files)
                && CutIsTooLarge(UploadType(extension, mime).value, chunks, max)
    {
      var t := UploadType(extension, mime);
      TypesAreTheTable(extension, mime);
      if t.None? {
        return Err(Unsupported);
      }
      AcceptableContentsPass(extension, Join(chunks));
      if target in files {
        return Err(Conflict);
      }
      files := files[target := []];
      var failure, size, state, first := Receive(h, t.value, chunks, broken, target, max);
      if failure.Some? {
        Unlink(target);
        assert files == old(files);
        return Err(failure.value);
      }
      if !t.value.isText && !StartsWithMagic(t.value, first) {
        Unlink(target);
        assert files == old(files);
        NoCrossing(chunks, max);
        return Err(Unsupported);
      }
      result := Ok(Stored(target, name, t.value.kind, t.value.mime, size, h.hex(state)));
    }

    // _read_file_stream: the decoder keeps being fed after an error, and the sticky
    // flag still ends up as the validity of the whole content.
    method ReadFileStream<H>(h: Hasher<H>, path: string) returns (facts: Facts)
      requires path in files
      ensures facts == FactsOf(h, files[path])
    {
      var content := files[path];
      var size, state, first, textValid := 0, h.init, [], true;
      var decoder := new IncrementalDecoder();
      var pos := 0;
      while pos < |content|
        invariant fresh(decoder) && pos <= |content|
        invariant size == pos && state == Absorb(h, h.init, content[..pos]) && first == First(content[..pos])
        invariant Sticky(decoder, content[..pos], textValid)
        decreases |content| - pos
      {
        var next := if pos + CHUNK_SIZE < |content| then pos + CHUNK_SIZE else |content|;
        var chunk := content[pos..next];
        PieceOf(h, content, pos, next);
        size := size + |chunk|;
        state := Absorb(h, state, chunk);
        first := Extended(first, chunk);
        var ok := decoder.Decode(chunk, false);
        if !ok {
          textValid := false;
        }
        pos := next;
      }
      assert content[..pos] == content;
      AutomatonIsTheGrammar(content);
      if textValid {
        textValid := decoder.Decode([], true);
      }
      facts := Facts(size, h.hex(state), first, textValid);
    }

    // describe_artifact, under the display name whose extension and MIME guess these are.
    method DescribeArtifact<H>(h: Hasher<H>, path: string, name: string, extension: string, guess: Option<string>)
      returns (artifact: Stored)
      requires path in files
      ensures artifact == Described(h, path, name, extension, guess, files[path])
    {
      var facts := ReadFileStream(h, path);
      var (kind, mime) := Classify(extension, guess, facts.first, facts.textValid);
      artifact := Stored(path, name, kind, mime, facts.size, facts.sha256);
    }

    // persist_output_artifact: one more file with the source's bytes, described as
    // describe_artifact will describe it; any failure leaves the disk as it was.
    // `faultAt` is the chunk whose copying raises, if there is such a chunk.
    method PersistOutput<H>(h: Hasher<H>, source: string, target: string, name: string, extension: string,
                            guess: Option<string>, faultAt: Option<nat>) returns (result: Result<Stored, Error>)
      modifies this
      ensures result == Err(NotFound) <==> source !in old(files)
      ensures result == Err(Conflict) <==> source in old(files) && target in old(files)
      ensures result == Err(Interrupted) <==>
                && source in old(files) && target !in old(files)
                && faultAt.Some? && faultAt.value * CHUNK_SIZE < |old(files)[source]|
      ensures result.Err? ==> result.error in {NotFound, Conflict, Interrupted}
      ensures result.Ok? ==>
                && source in old(files) && target !in old(files)
                && files == old(files)[target := old(files)[source]]
                && result.value == Described(h, target, name, extension, guess, old(files)[source])
      ensures result.Err? ==> files == old(files)
    {
      if source !in files {
        return Err(NotFound);
      }
      if target in files {
        return Err(Conflict);
      }
      var content := files[source];
      files := files[target := []];
      var size, state, first, textValid := 0, h.init, [], true;
      var decoder := new IncrementalDecoder();
      var pos, turn := 0, 0;
      while pos < |content|
        invariant fresh(decoder) && pos <= |content|
        invariant files == old(files)[target := content[..pos]]
        invariant pos == if turn * CHUNK_SIZE < |content| then turn * CHUNK_SIZE else |content|
        invariant faultAt.Some? ==> turn <= faultAt.value
        invariant size == pos && state == Absorb(h, h.init, content[..pos]) && first == First(content[..pos])
        invariant Sticky(decoder, content[..pos], textValid)
        decreases |content| - pos
      {
        if faultAt == Some(turn) {
          Unlink(target);
          assert files == old(files);
          return Err(Interrupted);
        }
        var next := if pos + CHUNK_SIZE < |content| then pos + CHUNK_SIZE else |content|;
        var chunk := content[pos..next];
        PieceOf(h, content, pos, next);
        size := size + |chunk|;
        state := Absorb(h, state, chunk);
        first := Extended(first, chunk);
        var ok := decoder.Decode(chunk, false);
        if !ok {
          textValid := false;
        }
        Append(target, chunk);
        pos, turn := next, turn + 1;
      }
      assert content[..pos] == content;
      AutomatonIsTheGrammar(content);
      if textValid {
        textValid := decoder.Decode([], true);
      }
      var (kind, mime) := Classify(extension, guess, first, textValid);
      result := Ok(Stored(target, name, kind, mime, size, h.hex(state)));
    }
  }
}
