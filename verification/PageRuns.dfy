// group_contiguous of worker/redsea_toolkit.py: page numbers into maximal runs.
module PageRuns {
  import opened Common

  predicate Ascending(s: seq<int>) {
    forall i, j | 0 <= i < j < |s| :: s[i] < s[j]
  }

  // ------------------------------------------------------- sorted(set(pages))

  function Insert(x: int, s: seq<int>): seq<int> {
    if s == [] || x < s[0] then [x] + s
    else if x == s[0] then s
    else [s[0]] + Insert(x, s[1..])
  }

  function SortedSet(pages: seq<int>): seq<int> {
    if pages == [] then [] else Insert(pages[|pages| - 1], SortedSet(pages[..|pages| - 1]))
  }

  lemma TailMembers(s: seq<int>, y: int)
    requires Ascending(s) && s != []
    ensures y in s[1..] <==> y in s && y != s[0]
    ensures y in s ==> s[0] <= y
  {
    assert s == [s[0]] + s[1..];
    if y in s[1..] {
      var i :| 0 <= i < |s[1..]| && s[1..][i] == y;
      assert y == s[i + 1];
    }
  }

  lemma {:induction false} InsertKeepsOrder(x: int, s: seq<int>)
    requires Ascending(s)
    ensures Ascending(Insert(x, s))
    ensures forall y :: y in Insert(x, s) <==> y == x || y in s
  {
    if s != [] && x > s[0] {
      var tail := Insert(x, s[1..]);
      InsertKeepsOrder(x, s[1..]);
      assert s == [s[0]] + s[1..];
      forall k | 0 <= k < |tail| ensures s[0] < tail[k] {
        var y := tail[k];
        assert y in tail;
        TailMembers(s, y);
      }
    }
  }

  lemma {:induction false} SortedSetIsAscending(pages: seq<int>)
    ensures Ascending(SortedSet(pages))
    ensures forall y :: y in SortedSet(pages) <==> y in pages
    decreases |pages|
  {
    if pages != [] {
      var front := pages[..|pages| - 1];
      assert pages == front + [pages[|pages| - 1]];
      SortedSetIsAscending(front);
      InsertKeepsOrder(pages[|pages| - 1], SortedSet(front));
    }
  }

  lemma SameMembersSameEmptiness(a: seq<int>, b: seq<int>)
    requires forall y :: y in a <==> y in b
    ensures a == [] <==> b == []
  {
    if a != [] {
      var x := a[0];
      assert x in a;
    }
    if b != [] {
      var y := b[0];
      assert y in b;
    }
  }

  // An ascending sequence is determined by its elements.
  lemma {:induction false} AscendingIsUnique(a: seq<int>, b: seq<int>)
    requires Ascending(a) && Ascending(b) && forall y :: y in a <==> y in b
    ensures a == b
    decreases |a|
  {
    SameMembersSameEmptiness(a, b);
    if a != [] {
      var x := a[0];
      assert x in a && x in b;
      var y := b[0];
      assert y in b && y in a;
      TailMembers(b, a[0]);
      TailMembers(a, b[0]);
      forall y ensures y in a[1..] <==> y in b[1..] {
        TailMembers(a, y);
        TailMembers(b, y);
      }
      AscendingIsUnique(a[1..], b[1..]);
    }
  }

  // --------------------------------------------------------------------- runs

  function Runs(s: seq<int>): (runs: seq<seq<int>>)
    ensures s != [] <==> runs != []
  {
    if s == [] then []
    else
      var n := |s| - 1;
      var front := Runs(s[..n]);
      if n > 0 && s[n] == s[n - 1] + 1 then front[..|front| - 1] + [front[|front| - 1] + [s[n]]]
      else front + [[s[n]]]
  }

  function Concat<T>(parts: seq<seq<T>>): seq<T> {
    if parts == [] then [] else Concat(parts[..|parts| - 1]) + parts[|parts| - 1]
  }

  function Last(run: seq<int>): int
    requires run != []
  {
    run[|run| - 1]
  }

  predicate Consecutive(run: seq<int>) {
    run != [] && forall k | 0 <= k < |run| :: run[k] == run[0] + k
  }

  predicate Separated(runs: seq<seq<int>>) {
    && (forall i | 0 <= i < |runs| :: Consecutive(runs[i]))
    && (forall i, j | 0 <= i < j < |runs| :: Last(runs[i]) + 1 < runs[j][0])
  }

  lemma ConcatSplit<T>(parts: seq<seq<T>>, part: seq<T>)
    ensures Concat(parts + [part]) == Concat(parts) + part
  {
    assert (parts + [part])[..|parts|] == parts;
  }

  // Runs of s, as a statement that survives one more page.
  predicate RunsOf(runs: seq<seq<int>>, s: seq<int>) {
    && Concat(runs) == s && Separated(runs)
    && (s == [] <==> runs == [])
    && (s != [] ==> Last(runs[|runs| - 1]) == s[|s| - 1])
  }

  lemma OpenRun(runs: seq<seq<int>>, s: seq<int>, x: int)
    requires RunsOf(runs, s) && (s == [] || s[|s| - 1] + 1 < x)
    ensures RunsOf(runs + [[x]], s + [x])
  {
    ConcatSplit(runs, [x]);
    forall i | 0 <= i < |runs| ensures Last(runs[i]) + 1 < x {
      assert i < |runs| - 1 ==> Last(runs[i]) + 1 < runs[|runs| - 1][0] <= Last(runs[|runs| - 1]);
    }
  }

  lemma ExtendRun(init: seq<seq<int>>, last: seq<int>, s: seq<int>, x: int)
    requires RunsOf(init + [last], s) && s != [] && x == s[|s| - 1] + 1
    ensures RunsOf(init + [last + [x]], s + [x])
  {
    var runs, more := init + [last], init + [last + [x]];
    ConcatSplit(init, last);
    ConcatSplit(init, last + [x]);
    assert Concat(init) + (last + [x]) == (Concat(init) + last) + [x];
    assert runs[|init|] == last && Consecutive(last);
    forall i | 0 <= i < |more| ensures Consecutive(more[i]) {
      assert i < |init| ==> more[i] == runs[i];
    }
    forall i, j | 0 <= i < j < |more| ensures Last(more[i]) + 1 < more[j][0] {
      assert more[i] == runs[i] && more[j][0] == runs[j][0];
    }
  }

  lemma {:induction false} RunsAreSeparated(s: seq<int>)
    requires Ascending(s)
    ensures RunsOf(Runs(s), s)
    decreases |s|
  {
    if s != [] {
      var n := |s| - 1;
      var front := Runs(s[..n]);
      RunsAreSeparated(s[..n]);
      assert s == s[..n] + [s[n]];
      if n > 0 && s[n] == s[n - 1] + 1 {
        var init, last := front[..|front| - 1], front[|front| - 1];
        assert front == init + [last];
        ExtendRun(init, last, s[..n], s[n]);
      } else {
        OpenRun(front, s[..n], s[n]);
      }
    }
  }

  // ------------------------------------------------------------ maximal blocks

  // [a, b] is a block of consecutive members that cannot be extended either way.
  ghost predicate MaximalBlock(members: set<int>, a: int, b: int) {
    && a <= b
    && (forall k | a <= k <= b :: k in members)
    && a - 1 !in members && b + 1 !in members
  }

  ghost predicate IsRun(runs: seq<seq<int>>, i: int, a: int, b: int) {
    0 <= i < |runs| && runs[i] != [] && runs[i][0] == a && Last(runs[i]) == b
  }

  lemma {:induction false} ConcatMembers<T>(parts: seq<seq<T>>, x: T)
    ensures x in Concat(parts) <==> exists i | 0 <= i < |parts| :: x in parts[i]
    decreases |parts|
  {
    if parts != [] {
      var front := parts[..|parts| - 1];
      ConcatMembers(front, x);
      if x in Concat(front) {
        var i :| 0 <= i < |front| && x in front[i];
        assert x in parts[i];
      }
      if i :| 0 <= i < |parts| && x in parts[i] {
        assert i < |front| ==> x in front[i];
      }
    }
  }

  ghost predicate InSome(runs: seq<seq<int>>, x: int) {
    exists i | 0 <= i < |runs| :: x in runs[i]
  }

  // The runs hold exactly the members.
  ghost predicate Covers(runs: seq<seq<int>>, members: set<int>) {
    forall x :: x in members <==> InSome(runs, x)
  }

  // A page in some run is in this one, or not next to it either.
  lemma OutsideIsApart(runs: seq<seq<int>>, i: int, x: int)
    requires Separated(runs) && 0 <= i < |runs| && InSome(runs, x)
    ensures runs[i] != [] && (x < runs[i][0] - 1 || runs[i][0] <= x <= Last(runs[i]) || Last(runs[i]) + 1 < x)
  {
    var j :| 0 <= j < |runs| && x in runs[j];
    assert Consecutive(runs[i]) && Consecutive(runs[j]);
    if j < i {
      assert Last(runs[j]) + 1 < runs[i][0];
    } else if i < j {
      assert Last(runs[i]) + 1 < runs[j][0];
    }
  }

  lemma RunsAreMaximal(runs: seq<seq<int>>, members: set<int>, i: int)
    requires Separated(runs) && Covers(runs, members) && 0 <= i < |runs|
    ensures runs[i] != [] && MaximalBlock(members, runs[i][0], Last(runs[i]))
  {
    var run := runs[i];
    assert Consecutive(run);
    var a, b := run[0], Last(run);
    forall k | a <= k <= b ensures k in members {
      assert run[k - a] == k;
      assert InSome(runs, k);
    }
    if InSome(runs, a - 1) {
      OutsideIsApart(runs, i, a - 1);
    }
    if InSome(runs, b + 1) {
      OutsideIsApart(runs, i, b + 1);
    }
  }

  // Two maximal blocks that meet are the same block.
  lemma MeetingBlocksCoincide(members: set<int>, a: int, b: int, c: int, d: int)
    requires MaximalBlock(members, a, b) && MaximalBlock(members, c, d) && c <= a <= d
    ensures a == c && b == d
  {
    assert c < a ==> a - 1 in members;
    assert d < b ==> d + 1 in members;
    assert b < d ==> b + 1 in members;
  }

  lemma RunsCover(s: seq<int>)
    requires Ascending(s)
    ensures Covers(Runs(s), Elements(s)) && Separated(Runs(s))
  {
    RunsAreSeparated(s);
    forall x ensures x in Elements(s) <==> InSome(Runs(s), x) {
      ConcatMembers(Runs(s), x);
    }
  }

  ghost predicate HasRun(runs: seq<seq<int>>, a: int, b: int) {
    exists i | 0 <= i < |runs| :: IsRun(runs, i, a, b)
  }

  lemma BlockIsARun(runs: seq<seq<int>>, members: set<int>, a: int, b: int)
    requires Separated(runs) && Covers(runs, members) && MaximalBlock(members, a, b)
    ensures HasRun(runs, a, b)
  {
    assert InSome(runs, a);
    var i :| 0 <= i < |runs| && a in runs[i];
    RunsAreMaximal(runs, members, i);
    assert Consecutive(runs[i]);
    MeetingBlocksCoincide(members, a, b, runs[i][0], Last(runs[i]));
    assert IsRun(runs, i, a, b);
  }

  // The runs are the maximal blocks of the page set: all of them and nothing else.
  lemma RunsAreTheMaximalBlocks(s: seq<int>, a: int, b: int)
    requires Ascending(s)
    ensures HasRun(Runs(s), a, b) <==> MaximalBlock(Elements(s), a, b)
  {
    RunsCover(s);
    if MaximalBlock(Elements(s), a, b) {
      BlockIsARun(Runs(s), Elements(s), a, b);
    } else if HasRun(Runs(s), a, b) {
      var i :| 0 <= i < |Runs(s)| && IsRun(Runs(s), i, a, b);
      RunsAreMaximal(Runs(s), Elements(s), i);
    }
  }

  // The loop of group_contiguous.
  method GroupContiguous(pages: seq<int>) returns (runs: seq<seq<int>>)
    ensures runs == Runs(SortedSet(pages))
  {
    if pages == [] {
      return [];
    }
    var sorted := SortedSet(pages);
    SortedSetIsAscending(pages);
    var first := pages[0];
    assert first in pages && first in sorted;
    runs := [];
    var cur := [sorted[0]];
    assert sorted[..1][..0] == [];
    for i := 1 to |sorted|
      invariant runs + [cur] == Runs(sorted[..i])
    {
      assert sorted[..i + 1][..i] == sorted[..i];
      if sorted[i] == sorted[i - 1] + 1 {
        cur := cur + [sorted[i]];
      } else {
        runs := runs + [cur];
        cur := [sorted[i]];
      }
    }
    assert sorted[..|sorted|] == sorted;
    runs := runs + [cur];
  }
}
