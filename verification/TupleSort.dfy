// Sorting tuples with a name in them that may be missing, as schema_parity.py does when
// it reports a difference: Python raises when it has to compare None with a text.
module TupleSort {
  import opened Common
  import opened Ordering

  // A tuple: the components before the name, the name, and those after it.
  datatype Named<B, A> = Named(before: B, name: Option<string>, after: A)

  // The tuple order x < y, by the first unequal components; None where it raises.
  function Compare<B(==), A>(lessB: (B, B) -> bool, lessA: (A, A) -> bool, x: Named<B, A>, y: Named<B, A>)
    : Option<bool>
  {
    if x.before != y.before then Some(lessB(x.before, y.before))
    else if x.name == y.name then Some(lessA(x.after, y.after))
    else if x.name.Some? && y.name.Some? then Some(TextLess(x.name.value, y.name.value))
    else None
  }

  // A missing name beside a text, under the same components.
  predicate Clash<B(==), A(==)>(keys: set<Named<B, A>>) {
    exists x, y | x in keys && y in keys :: x.before == y.before && x.name.None? && y.name.Some?
  }

  // The neighbours of a sort's result have been found in order.
  ghost predicate Sorted<B, A>(lessB: (B, B) -> bool, lessA: (A, A) -> bool, s: seq<Named<B, A>>) {
    forall i | 0 <= i < |s| - 1 :: Compare(lessB, lessA, s[i], s[i + 1]) == Some(true)
  }

  // The order is defined on all the members exactly when none clash: without a clash,
  // no sort can raise.
  lemma OrderIsDefinedExactly<B, A>(lessB: (B, B) -> bool, lessA: (A, A) -> bool, keys: set<Named<B, A>>)
    ensures !Clash(keys) <==> forall x, y | x in keys && y in keys :: Compare(lessB, lessA, x, y).Some?
  {
    if Clash(keys) {
      var x, y :| x in keys && y in keys && x.before == y.before && x.name.None? && y.name.Some?;
      assert Compare(lessB, lessA, x, y).None?;
    }
  }

  lemma {:induction false} NeighboursNeverMix<B(!new), A(!new)>(lessB: (B, B) -> bool, lessA: (A, A) -> bool,
                                                               s: seq<Named<B, A>>, i: nat, j: nat)
    requires StrictTotal(lessB) && Sorted(lessB, lessA, s) && i <= j < |s|
    ensures lessB(s[i].before, s[j].before) || s[i].before == s[j].before
    ensures s[i].before == s[j].before ==> (s[i].name.Some? <==> s[j].name.Some?)
    decreases j
  {
    if i < j {
      NeighboursNeverMix(lessB, lessA, s, i, j - 1);
      assert Compare(lessB, lessA, s[j - 1], s[(j - 1) + 1]) == Some(true);
    }
  }

  // With a clash no sequence of the members has all its neighbours in order: no sort
  // can finish.
  lemma NoSortFinishes<B(!new), A(!new)>(lessB: (B, B) -> bool, lessA: (A, A) -> bool, s: seq<Named<B, A>>)
    requires StrictTotal(lessB) && Clash(Elements(s))
    ensures !Sorted(lessB, lessA, s)
  {
    var x, y :| x in s && y in s && x.before == y.before && x.name.None? && y.name.Some?;
    var i :| 0 <= i < |s| && s[i] == x;
    var j :| 0 <= j < |s| && s[j] == y;
    if Sorted(lessB, lessA, s) {
      NeighboursNeverMix(lessB, lessA, s, if i < j then i else j, if i < j then j else i);
    }
  }

  lemma OtherWayRound<B(!new), A(!new)>(lessB: (B, B) -> bool, lessA: (A, A) -> bool,
                                        x: Named<B, A>, y: Named<B, A>)
    requires StrictTotal(lessB) && StrictTotal(lessA) && x != y && Compare(lessB, lessA, x, y) == Some(false)
    ensures Compare(lessB, lessA, y, x) == Some(true)
  {
    TextsAreOrdered();
  }

  // One insertion into a sorted list, which compares until it finds the place.
  method InsertInto<B(!new, ==), A(!new, ==)>(lessB: (B, B) -> bool, lessA: (A, A) -> bool,
                                              x: Named<B, A>, s: seq<Named<B, A>>)
    returns (r: Option<seq<Named<B, A>>>)
    requires StrictTotal(lessB) && StrictTotal(lessA) && Sorted(lessB, lessA, s) && x !in s
    ensures r.None? ==> exists y | y in s :: Compare(lessB, lessA, y, x).None?
    ensures r.Some? ==> Sorted(lessB, lessA, r.value) && Elements(r.value) == Elements(s) + {x}
  {
    var i := 0;
    while i < |s|
      invariant i <= |s|
      invariant i > 0 ==> Compare(lessB, lessA, s[i - 1], x) == Some(true)
    {
      var smaller := Compare(lessB, lessA, s[i], x);
      if smaller.None? {
        return None;
      }
      if !smaller.value {
        OtherWayRound(lessB, lessA, s[i], x);
        break;
      }
      i := i + 1;
    }
    var t := s[..i] + [x] + s[i..];
    forall k | 0 <= k < |t| - 1 ensures Compare(lessB, lessA, t[k], t[k + 1]) == Some(true) {
      assert k + 1 < i ==> t[k] == s[k] && t[k + 1] == s[k + 1];
      assert k > i ==> t[k] == s[k - 1] && t[k + 1] == s[(k - 1) + 1];
    }
    assert s == s[..i] + s[i..];
    r := Some(t);
  }

  // sorted(keys), by one of the sorts: the members in order, or an exception exactly when two of them clash.
  method Sort<B(!new, ==), A(!new, ==)>(lessB: (B, B) -> bool, lessA: (A, A) -> bool, keys: set<Named<B, A>>)
    returns (r: Option<seq<Named<B, A>>>)
    requires StrictTotal(lessB) && StrictTotal(lessA)
    ensures r.None? <==> Clash(keys)
    ensures r.Some? ==> Sorted(lessB, lessA, r.value) && Elements(r.value) == keys
  {
    var s: seq<Named<B, A>> := [];
    var rest := keys;
    while rest != {}
      invariant rest <= keys && Elements(s) == keys - rest && Sorted(lessB, lessA, s)
      decreases |rest|
    {
      var x :| x in rest;
      assert x !in Elements(s);
      r := InsertInto(lessB, lessA, x, s);
      if r.None? {
        OrderIsDefinedExactly(lessB, lessA, keys);
        assert forall y | y in s :: y in Elements(s);
        return;
      }
      s := r.value;
      rest := rest - {x};
    }
    if Clash(keys) {
      NoSortFinishes(lessB, lessA, s);
    }
    r := Some(s);
  }
}
