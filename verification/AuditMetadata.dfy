// The audit sanitiser of backend/rbac/permissions.py: what an audit row keeps of
// the keyword arguments it was given.
module AuditMetadata {
  import opened Common

  // The Python values that reach the sanitiser. `Rendered` stands for any other
  // object, which is kept as its str().
  datatype Value =
    | Null
    | Text(text: string)
    | Number(n: int)
    | EnumMember(name: string)
    | Instant(iso: string)
    | Rendered(str: string)
    | Items(items: seq<Value>)
    | Mapping(fields: map<string, Value>)

  const SENSITIVE_PARTS := ["password", "passwd", "hash", "token", "secret"]

  // Case folding, on the ASCII range.
  function Lower(c: char): char {
    if 'A' <= c <= 'Z' then ((c as int) + 32) as char else c
  }

  function Folded(key: string): string {
    seq(|key|, i requires 0 <= i < |key| => Lower(key[i]))
  }

  predicate Sensitive(key: string) {
    exists i | 0 <= i < |SENSITIVE_PARTS| :: Contains(Folded(key), SENSITIVE_PARTS[i])
  }

  function Safe(value: Value): Value
    decreases value
  {
    match value
    case Mapping(fields) => Mapping(map k | k in fields && !Sensitive(k) :: Safe(fields[k]))
    case Items(items) => Items(seq(|items|, i requires 0 <= i < |items| => Safe(items[i])))
    case EnumMember(name) => Text(name)
    case Instant(iso) => Text(iso)
    case Rendered(str) => Text(str)
    case _ => value
  }

  // No sensitive key survives at any depth.
  predicate Clean(value: Value)
    decreases value
  {
    match value
    case Mapping(fields) => forall k | k in fields :: !Sensitive(k) && Clean(fields[k])
    case Items(items) => forall i | 0 <= i < |items| :: Clean(items[i])
    case _ => true
  }

  lemma {:induction false} SafeIsClean(value: Value)
    ensures Clean(Safe(value))
    decreases value
  {
    match value
    case Mapping(fields) =>
      forall k | k in fields && !Sensitive(k) ensures Clean(Safe(fields[k])) {
        SafeIsClean(fields[k]);
      }
    case Items(items) =>
      forall i | 0 <= i < |items| ensures Clean(Safe(items[i])) {
        SafeIsClean(items[i]);
      }
    case _ =>
  }

  lemma {:induction false} SafeIsIdempotent(value: Value)
    ensures Safe(Safe(value)) == Safe(value)
    decreases value
  {
    match value
    case Mapping(fields) =>
      forall k | k in fields && !Sensitive(k) ensures Safe(Safe(fields[k])) == Safe(fields[k]) {
        SafeIsIdempotent(fields[k]);
      }
      assert Safe(Safe(value)).fields == Safe(value).fields;
    case Items(items) =>
      forall i | 0 <= i < |items| ensures Safe(Safe(items[i])) == Safe(items[i]) {
        SafeIsIdempotent(items[i]);
      }
      assert Safe(Safe(value)).items == Safe(value).items;
    case _ =>
  }

  lemma OccurrenceShares(s: string, part: string, i: int, at: nat)
    requires OccursAt(s, part, i) && at < |part|
    ensures s[i + at] == part[at]
  {
    assert s[i..i + |part|][at] == s[i + at];
  }

  // Every sensitive part holds one of the letters p, h, k, c; a key with none of
  // them is always kept.
  lemma PlainKeysAreKept(key: string)
    requires forall i | 0 <= i < |key| :: Lower(key[i]) !in {'p', 'h', 'k', 'c'}
    ensures !Sensitive(key)
  {
    var folded := Folded(key);
    assert forall i | 0 <= i < |folded| :: folded[i] !in {'p', 'h', 'k', 'c'};
    if Sensitive(key) {
      var p :| 0 <= p < |SENSITIVE_PARTS| && Contains(folded, SENSITIVE_PARTS[p]);
      var i :| 0 <= i <= |folded| && OccursAt(folded, SENSITIVE_PARTS[p], i);
      OccurrenceShares(folded, SENSITIVE_PARTS[p], i, if p <= 2 then 0 else 2);
    }
  }

  lemma FoldedAppend(a: string, b: string)
    ensures Folded(a + b) == Folded(a) + Folded(b)
  {
  }

  // s spells the lower-case word, in any mixture of cases.
  predicate Spells(s: string, word: string) {
    && |s| == |word|
    && forall i | 0 <= i < |s| ::
         'a' <= word[i] <= 'z' && (s[i] == word[i] || s[i] as int + 32 == word[i] as int)
  }

  lemma SpellingsFold(s: string, word: string)
    requires Spells(s, word)
    ensures Folded(s) == word
  {
    forall i | 0 <= i < |s| ensures Lower(s[i]) == word[i] {
      assert s[i] == word[i] || 'A' <= s[i] <= 'Z';
    }
  }

  // A key that holds a sensitive part anywhere, in any mixture of cases, is dropped.
  lemma SensitiveKeysAreDropped(a: string, part: string, b: string, word: string)
    requires word in {"password", "passwd", "hash", "token", "secret"} && Spells(part, word)
    ensures Sensitive(a + part + b)
  {
    SpellingsFold(part, word);
    FoldedAppend(a + part, b);
    FoldedAppend(a, part);
    assert Folded(a + part + b)[|a|..|a| + |part|] == word;
    var i := if word == "password" then 0 else if word == "passwd" then 1 else if word == "hash" then 2
             else if word == "token" then 3 else 4;
    assert SENSITIVE_PARTS[i] == word;
    assert OccursAt(Folded(a + part + b), SENSITIVE_PARTS[i], |a|);
  }

  // What stands for a plain value: itself, or its text.
  lemma PlainValuesAreRendered(text: string, n: int, items: seq<Value>)
    ensures forall value | value in {Text(text), EnumMember(text), Instant(text), Rendered(text)} ::
              Safe(value) == Text(text)
    ensures forall value | value in {Null, Number(n)} :: Safe(value) == value
    ensures Safe(Items(items)).Items? && |Safe(Items(items)).items| == |items|
    ensures forall i | 0 <= i < |items| :: Safe(Items(items)).items[i] == Safe(items[i])
  {
  }

  // What a sanitised mapping holds: the other keys, each with its own value sanitised.
  lemma OtherFieldsAreKept(fields: map<string, Value>, key: string)
    ensures Safe(Mapping(fields)).Mapping?
    ensures key in Safe(Mapping(fields)).fields <==> key in fields && !Sensitive(key)
    ensures key in fields && !Sensitive(key) ==> Safe(Mapping(fields)).fields[key] == Safe(fields[key])
  {
  }
}
