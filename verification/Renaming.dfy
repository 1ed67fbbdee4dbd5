// The two renaming loops of worker/redsea_toolkit.py: the header de-duplication of
// _mm_load_excel_ignoring_names, and unique_path.
module Renaming {
  import opened Common

  // ---------------------------------------------------------------- headers

  // A header cell: nothing, or its text after str() and strip().
  type Cell = Option<string>

  function Suffix(idx: nat): string {
    "_" + Decimal(idx + 1)
  }

  // The name a column asks for.
  function Asked(cell: Cell, idx: nat): string {
    if cell.None? || cell.value == "" then "Column" + Decimal(idx + 1) else cell.value
  }

  function Times(s: string, k: nat): string {
    if k == 0 then "" else Times(s, k - 1) + s
  }

  function WithSuffixes(cell: Cell, idx: nat, k: nat): string {
    Asked(cell, idx) + Times(Suffix(idx), k)
  }

  // The name a column gets: what it asks for, under the fewest suffixes that no
  // earlier column has taken.
  ghost predicate Named(name: string, cell: Cell, idx: nat, taken: set<string>) {
    exists k: nat :: name == WithSuffixes(cell, idx, k) && name !in taken
        && forall j: nat | j < k :: WithSuffixes(cell, idx, j) in taken
  }

  function AtLeast(used: set<string>, n: nat): set<string> {
    set u | u in used && |u| >= n
  }

  lemma Smaller(a: set<string>, b: set<string>, x: string)
    requires a <= b - {x} && x in b
    ensures |a| < |b|
  {
    assert b == (b - {x}) + {x};
    assert b - {x} == a + (b - {x} - a);
  }

  // One column. Candidates grow and the used names are finite, so the loop ends.
  method NameColumn(cell: Cell, idx: nat, used: set<string>) returns (name: string)
    ensures Named(name, cell, idx, used) && name != ""
  {
    name := Asked(cell, idx);
    ghost var k: nat := 0;
    while name in used
      invariant name == WithSuffixes(cell, idx, k) && name != ""
      invariant forall j: nat | j < k :: WithSuffixes(cell, idx, j) in used
      decreases |AtLeast(used, |name|)|
    {
      ghost var before := name;
      name := name + Suffix(idx);
      assert name == WithSuffixes(cell, idx, k + 1) by {
        assert Times(Suffix(idx), k + 1) == Times(Suffix(idx), k) + Suffix(idx);
      }
      assert AtLeast(used, |name|) <= AtLeast(used, |before|) - {before};
      Smaller(AtLeast(used, |name|), AtLeast(used, |before|), before);
      k := k + 1;
    }
  }

  // Every header so far is the first free name of its column.
  ghost predicate AllNamed(headers: seq<string>, row: seq<Cell>) {
    && |headers| <= |row|
    && forall i | 0 <= i < |headers| :: headers[i] != "" && Named(headers[i], row[i], i, Elements(headers[..i]))
  }

  lemma NamedNext(headers: seq<string>, row: seq<Cell>, name: string)
    requires AllNamed(headers, row) && |headers| < |row|
    requires name != "" && Named(name, row[|headers|], |headers|, Elements(headers))
    ensures AllNamed(headers + [name], row)
  {
    var more := headers + [name];
    forall i | 0 <= i < |more| ensures more[i] != "" && Named(more[i], row[i], i, Elements(more[..i])) {
      assert more[..i] == headers[..i];
      assert i == |headers| ==> headers[..i] == headers;
    }
  }

  lemma NamedAreDistinct(headers: seq<string>, row: seq<Cell>)
    requires AllNamed(headers, row)
    ensures Distinct(headers)
  {
    forall i, j | 0 <= i < j < |headers| ensures headers[i] != headers[j] {
      assert headers[i] == headers[..j][i];
      assert headers[i] in Elements(headers[..j]);
    }
  }

  // The header row: one distinct, non-empty name per column, each the first free one.
  method NameColumns(row: seq<Cell>) returns (headers: seq<string>)
    ensures |headers| == |row| && AllNamed(headers, row) && Distinct(headers)
  {
    headers := [];
    var used: set<string> := {};
    for idx := 0 to |row|
      invariant |headers| == idx && used == Elements(headers) && AllNamed(headers, row)
    {
      var name := NameColumn(row[idx], idx, used);
      NamedNext(headers, row, name);
      headers := headers + [name];
      used := used + {name};
    }
    NamedAreDistinct(headers, row);
  }

  // A row of distinct, non-empty cells keeps its own names.
  lemma {:induction false} DistinctCellsKeepTheirNames(row: seq<Cell>, headers: seq<string>)
    requires |headers| == |row| && AllNamed(headers, row)
    requires forall i | 0 <= i < |row| :: row[i].Some? && row[i].value != ""
    requires forall i, j | 0 <= i < j < |row| :: row[i] != row[j]
    ensures forall i | 0 <= i < |row| :: headers[i] == row[i].value
    decreases |row|
  {
    if row != [] {
      var n := |row| - 1;
      assert forall i | 0 <= i < n :: headers[..n][..i] == headers[..i];
      DistinctCellsKeepTheirNames(row[..n], headers[..n]);
      var k: nat :| headers[n] == WithSuffixes(row[n], n, k) && headers[n] !in Elements(headers[..n])
        && forall j: nat | j < k :: WithSuffixes(row[n], n, j) in Elements(headers[..n]);
      assert WithSuffixes(row[n], n, 0) == row[n].value;
      assert forall i | 0 <= i < n :: headers[..n][i] == row[i].value;
      assert row[n].value !in Elements(headers[..n]);
    }
  }

  // --------------------------------------------------------------- unique_path

  // The candidates in the order they are tried: the path, then base(1)ext, base(2)ext, ...
  function Candidate(base: string, ext: string, n: nat): string {
    if n == 0 then base + ext else base + "(" + Decimal(n) + ")" + ext
  }

  lemma CandidatesAreDistinct(base: string, ext: string, m: nat, n: nat)
    requires Candidate(base, ext, m) == Candidate(base, ext, n)
    ensures m == n
  {
    var c := Candidate(base, ext, m);
    if m == 0 || n == 0 {
      assert |c| == |base| + |ext|;
    } else {
      assert c[|base| + 1..|c| - |ext| - 1] == Decimal(m);
      assert c[|base| + 1..|c| - |ext| - 1] == Decimal(n);
      DecimalIsInjective(m, n);
    }
  }

  function Tried(base: string, ext: string, n: nat): set<string> {
    set i | 0 <= i < n :: Candidate(base, ext, i)
  }

  lemma {:induction false} TriedAreMany(base: string, ext: string, n: nat)
    ensures |Tried(base, ext, n)| == n
  {
    if n > 0 {
      TriedAreMany(base, ext, n - 1);
      var last := Candidate(base, ext, n - 1);
      assert Tried(base, ext, n) == Tried(base, ext, n - 1) + {last};
      if last in Tried(base, ext, n - 1) {
        var i :| 0 <= i < n - 1 && Candidate(base, ext, i) == last;
        CandidatesAreDistinct(base, ext, i, n - 1);
      }
    }
  }

  lemma SubsetIsNoLarger(a: set<string>, b: set<string>)
    requires a <= b
    ensures |a| <= |b|
  {
    assert b == a + (b - a);
  }

  // unique_path, on os.path.splitext(path): the first unused candidate, within one
  // probe more than there are files.
  method UniquePath(base: string, ext: string, files: set<string>) returns (fresh_: string, ghost probes: nat)
    ensures fresh_ !in files
    ensures 1 <= probes <= |files| + 1 && fresh_ == Candidate(base, ext, probes - 1)
    ensures forall i: nat | i < probes - 1 :: Candidate(base, ext, i) in files
  {
    fresh_ := base + ext;
    var n := 1;
    while fresh_ in files
      invariant n >= 1 && fresh_ == Candidate(base, ext, n - 1)
      invariant Tried(base, ext, n - 1) <= files
      decreases |files| + 1 - n
    {
      assert Tried(base, ext, n) == Tried(base, ext, n - 1) + {fresh_};
      TriedAreMany(base, ext, n);
      SubsetIsNoLarger(Tried(base, ext, n), files);
      fresh_ := base + "(" + Decimal(n) + ")" + ext;
      n := n + 1;
    }
    probes := n;
    TriedAreMany(base, ext, n - 1);
    SubsetIsNoLarger(Tried(base, ext, n - 1), files);
    forall i: nat | i < probes - 1 ensures Candidate(base, ext, i) in files {
      assert Candidate(base, ext, i) in Tried(base, ext, n - 1);
    }
  }

  // ------------------------------------------------------- the names themselves

  lemma NamedInFront(headers: seq<string>, row: seq<Cell>)
    requires row != [] && |headers| == |row| && AllNamed(headers, row)
    ensures AllNamed(headers[..|row| - 1], row[..|row| - 1])
  {
    assert forall i | 0 <= i < |row| - 1 :: headers[..|row| - 1][..i] == headers[..i];
  }

  lemma OneNameIsDetermined(a: string, b: string, cell: Cell, idx: nat, taken: set<string>)
    requires Named(a, cell, idx, taken) && Named(b, cell, idx, taken)
    ensures a == b
  {
    var j: nat :| a == WithSuffixes(cell, idx, j) && a !in taken
      && forall i: nat | i < j :: WithSuffixes(cell, idx, i) in taken;
    var k: nat :| b == WithSuffixes(cell, idx, k) && b !in taken
      && forall i: nat | i < k :: WithSuffixes(cell, idx, i) in taken;
    assert j == k;
  }

  // The name of a column is determined by the names before it, and so is the whole row.
  lemma {:induction false} NamesAreDetermined(row: seq<Cell>, a: seq<string>, b: seq<string>)
    requires |a| == |row| && |b| == |row| && AllNamed(a, row) && AllNamed(b, row)
    ensures a == b
    decreases |row|
  {
    if row != [] {
      var n := |row| - 1;
      NamedInFront(a, row);
      NamedInFront(b, row);
      NamesAreDetermined(row[..n], a[..n], b[..n]);
      OneNameIsDetermined(a[n], b[n], row[n], n, Elements(a[..n]));
      assert a == a[..n] + [a[n]] && b == b[..n] + [b[n]];
    }
  }

  // A repeated name gets its column's number, and an empty cell a name of its own.
  lemma ARowOfThree(headers: seq<string>)
    requires |headers| == 3 && AllNamed(headers, [Some("A"), Some("A"), None])
    ensures headers == ["A", "A_2", "Column3"]
  {
    var row, names := [Some("A"), Some("A"), None], ["A", "A_2", "Column3"];
    assert Decimal(2) == "2" && Decimal(3) == "3";
    assert Times(Suffix(1), 0) == "" && Times(Suffix(1), 1) == Times(Suffix(1), 0) + Suffix(1) == "_2";
    assert WithSuffixes(row[0], 0, 0) == "A" && WithSuffixes(row[1], 1, 0) == "A";
    assert WithSuffixes(row[1], 1, 1) == "A_2" && WithSuffixes(row[2], 2, 0) == "Column3";
    assert names[..0] == [] && names[..1] == ["A"] && names[..2] == ["A", "A_2"];
    assert Named(names[0], row[0], 0, Elements(names[..0]));
    assert Named(names[1], row[1], 1, Elements(names[..1]));
    assert Named(names[2], row[2], 2, Elements(names[..2]));
    NamesAreDetermined(row, headers, names);
  }

  // unique_path tries the path itself, and then a number in brackets before the suffix.
  lemma ThreeCandidates()
    ensures Candidate("report", ".pdf", 0) == "report.pdf"
    ensures Candidate("report", ".pdf", 1) == "report(1).pdf" && Candidate("report", ".pdf", 2) == "report(2).pdf"
  {
    assert Decimal(1) == "1" && Decimal(2) == "2";
  }
}
