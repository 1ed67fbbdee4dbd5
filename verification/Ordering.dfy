// The orders that sorted() uses on texts, tuples and sequences: total, and built from
// each other lexicographically.
module Ordering {

  // A strict total order.
  ghost predicate StrictTotal<T(!new)>(less: (T, T) -> bool) {
    && (forall x :: !less(x, x))
    && (forall x, y :: less(x, y) || x == y || less(y, x))
    && (forall x, y, z :: less(x, y) && less(y, z) ==> less(x, z))
  }

  // Sequences compare by their first unequal elements, a prefix before a longer one.
  predicate Precedes<T(==)>(less: (T, T) -> bool, a: seq<T>, b: seq<T>) {
    && b != []
    && (a == [] || less(a[0], b[0]) || (a[0] == b[0] && Precedes(less, a[1..], b[1..])))
  }

  lemma {:induction false} PrecedesIsTotal<T(!new)>(less: (T, T) -> bool, a: seq<T>, b: seq<T>)
    requires StrictTotal(less)
    ensures !Precedes(less, a, a)
    ensures Precedes(less, a, b) || a == b || Precedes(less, b, a)
    decreases |a|
  {
    if a != [] {
      PrecedesIsTotal(less, a[1..], if b == [] then b else b[1..]);
      if b != [] && a[0] == b[0] && a[1..] == b[1..] {
        assert a == [a[0]] + a[1..] == b;
      }
    }
  }

  lemma {:induction false} PrecedesIsTransitive<T(!new)>(less: (T, T) -> bool, a: seq<T>, b: seq<T>, c: seq<T>)
    requires StrictTotal(less) && Precedes(less, a, b) && Precedes(less, b, c)
    ensures Precedes(less, a, c)
    decreases |a|
  {
    if a != [] && a[0] == b[0] && b[0] == c[0] {
      PrecedesIsTransitive(less, a[1..], b[1..], c[1..]);
    }
  }

  predicate CharLess(a: char, b: char) {
    a < b
  }

  // a < b on strings.
  predicate TextLess(a: string, b: string) {
    Precedes(CharLess, a, b)
  }

  // a < b on tuples of strings.
  predicate TextsLess(a: seq<string>, b: seq<string>) {
    Precedes(TextLess, a, b)
  }

  lemma TextsAreOrdered()
    ensures StrictTotal(TextLess)
  {
    assert StrictTotal(CharLess);
    forall x, y: string ensures !TextLess(x, x) && (TextLess(x, y) || x == y || TextLess(y, x)) {
      PrecedesIsTotal(CharLess, x, y);
    }
    forall x, y, z: string | TextLess(x, y) && TextLess(y, z) ensures TextLess(x, z) {
      PrecedesIsTransitive(CharLess, x, y, z);
    }
  }

  lemma TextTuplesAreOrdered()
    ensures StrictTotal(TextsLess)
  {
    TextsAreOrdered();
    forall x, y: seq<string> ensures !TextsLess(x, x) && (TextsLess(x, y) || x == y || TextsLess(y, x)) {
      PrecedesIsTotal(TextLess, x, y);
    }
    forall x, y, z: seq<string> | TextsLess(x, y) && TextsLess(y, z) ensures TextsLess(x, z) {
      PrecedesIsTransitive(TextLess, x, y, z);
    }
  }

  // Texts compare as a dictionary has them: by the first character in which they differ,
  // and a text before the longer ones it begins.
  lemma {:induction false} TheFirstDifferenceDecides(p: string, x: string, y: string)
    ensures x == "" ==> (TextLess(p + x, p + y) <==> y != "")
    ensures y == "" ==> !TextLess(p + x, p + y)
    ensures x != "" && y != "" && x[0] != y[0] ==> (TextLess(p + x, p + y) <==> x[0] < y[0])
    decreases |p|
  {
    if p == "" {
      assert p + x == x && p + y == y;
    } else {
      assert (p + x)[1..] == p[1..] + x && (p + y)[1..] == p[1..] + y;
      TheFirstDifferenceDecides(p[1..], x, y);
    }
  }
}
