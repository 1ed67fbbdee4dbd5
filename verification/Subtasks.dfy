// Task families: find_related_subtasks of worker/redsea_toolkit.py and the one
// round of expansion that cmp_tcm of worker/handlers.py makes with it.
module Subtasks {
  import opened Common
  import opened TcmIndex

  // Which characters \d accepts: any class without the hyphen and the newline.
  type Digits = char -> bool

  predicate DigitClass(digit: Digits) {
    !digit('-') && !digit('\n')
  }

  // dd-dd or dd-ddd, closed by a hyphen: the middle field has k digits.
  predicate Head(code: string, k: nat, digit: Digits) {
    && k + 4 <= |code|
    && digit(code[0]) && digit(code[1]) && code[2] == '-'
    && (forall i | 3 <= i < 3 + k :: digit(code[i]))
    && code[3 + k] == '-'
  }

  predicate TwoDigits(code: string, at: nat, digit: Digits) {
    at + 2 <= |code| && digit(code[at]) && digit(code[at + 1])
  }

  // ^(\d{2}-\d{2,3})-\d{2}$, where $ also matches before a final newline.
  predicate ThreePart(code: string, k: nat, digit: Digits) {
    && Head(code, k, digit) && TwoDigits(code, k + 4, digit)
    && (|code| == k + 6 || (|code| == k + 7 && code[k + 6] == '\n'))
  }

  // \d{2}-\d{2,3}-\d{2}-\d{2}.
  predicate FourPart(code: string, k: nat, digit: Digits) {
    && Head(code, k, digit) && TwoDigits(code, k + 4, digit)
    && |code| == k + 9 && code[k + 6] == '-' && TwoDigits(code, k + 7, digit)
  }

  // The prefix that a code's subtasks share: group 1 and a hyphen.
  function Family(code: string, digit: Digits): Option<string> {
    if ThreePart(code, 2, digit) then Some(code[..6])
    else if ThreePart(code, 3, digit) then Some(code[..7])
    else None
  }

  function Related(codes: set<string>, task: string, digit: Digits): set<string> {
    match Family(task, digit)
    case None => {}
    case Some(prefix) => set c | c in codes && prefix <= c
  }

  function Expand(codes: set<string>, tasks: set<string>, digit: Digits): set<string> {
    tasks + set t, c | t in tasks && c in Related(codes, t, digit) :: c
  }

  predicate AllDigits(s: string, digit: Digits) {
    forall i | 0 <= i < |s| :: digit(s[i])
  }

  // dd-dd-dd or dd-ddd-dd, by its fields.
  predicate Fields(a: string, b: string, c: string, digit: Digits) {
    && |a| == 2 && 2 <= |b| <= 3 && |c| == 2
    && AllDigits(a, digit) && AllDigits(b, digit) && AllDigits(c, digit)
  }

  lemma HeadOfFields(a: string, b: string, rest: string, digit: Digits)
    requires DigitClass(digit) && |a| == 2 && 2 <= |b| <= 3 && AllDigits(a, digit) && AllDigits(b, digit)
    ensures var code := a + "-" + b + "-" + rest;
            Head(code, |b|, digit) && code[..|b| + 4] == a + "-" + b + "-" && (|b| == 3 ==> !Head(code, 2, digit))
  {
    var code := a + "-" + b + "-" + rest;
    assert code[0] == a[0] && code[1] == a[1] && code[2] == '-';
    assert forall i | 3 <= i < 3 + |b| :: code[i] == b[i - 3];
    assert code[3 + |b|] == '-';
  }

  // A three-part code has a family, which is its first two fields; with the final
  // newline that $ allows, too.
  lemma ThreePartCodesHaveAFamily(a: string, b: string, c: string, digit: Digits)
    requires DigitClass(digit) && Fields(a, b, c, digit)
    ensures Family(a + "-" + b + "-" + c, digit) == Some(a + "-" + b + "-")
    ensures Family(a + "-" + b + "-" + c + "\n", digit) == Some(a + "-" + b + "-")
  {
    HeadOfFields(a, b, c, digit);
    HeadOfFields(a, b, c + "\n", digit);
    assert a + "-" + b + "-" + c + "\n" == a + "-" + b + "-" + (c + "\n");
    var code, line := a + "-" + b + "-" + c, a + "-" + b + "-" + c + "\n";
    assert code[|b| + 4] == c[0] && code[|b| + 5] == c[1];
    assert line[|b| + 4] == c[0] && line[|b| + 5] == c[1] && line[|b| + 6] == '\n';
  }

  // And nothing else has one.
  lemma OnlyThreePartCodesHaveAFamily(code: string, digit: Digits)
    requires Family(code, digit).Some?
    ensures exists a, b, c :: Fields(a, b, c, digit)
              && code in {a + "-" + b + "-" + c, a + "-" + b + "-" + c + "\n"}
  {
    var k := if ThreePart(code, 2, digit) then 2 else 3;
    var a, b, c := code[..2], code[3..3 + k], code[k + 4..k + 6];
    assert Fields(a, b, c, digit);
    assert code[..k + 6] == a + "-" + b + "-" + c;
    if |code| == k + 6 {
      assert code == code[..k + 6];
    } else {
      assert code == code[..k + 6] + "\n";
    }
  }

  lemma FamilyIsAHead(code: string, digit: Digits)
    requires Family(code, digit).Some?
    ensures exists k | 2 <= k <= 3 :: Head(code, k, digit) && Family(code, digit).value == code[..k + 4]
  {
    if ThreePart(code, 2, digit) {
      assert Head(code, 2, digit) && Family(code, digit).value == code[..2 + 4];
    } else {
      assert Head(code, 3, digit) && Family(code, digit).value == code[..3 + 4];
    }
  }

  // The subtasks of a three-part code are the indexed codes that begin with its first two
  // fields, and one round adds exactly the subtasks of the given tasks.
  lemma SubtasksBeginWithTheFields(codes: set<string>, a: string, b: string, c: string, digit: Digits, x: string)
    requires DigitClass(digit) && Fields(a, b, c, digit)
    ensures x in Related(codes, a + "-" + b + "-" + c, digit) <==> x in codes && a + "-" + b + "-" <= x
  {
    ThreePartCodesHaveAFamily(a, b, c, digit);
  }

  lemma OneRoundAddsTheSubtasks(codes: set<string>, tasks: set<string>, digit: Digits, x: string)
    ensures x in Expand(codes, tasks, digit) <==>
              x in tasks || exists t :: t in tasks && x in Related(codes, t, digit)
  {
  }

  // A head is read off a code in one way only, so no prefix of two or three middle
  // digits captures a code of another family.
  lemma HeadsAreUnambiguous(a: string, j: nat, b: string, k: nat, digit: Digits)
    requires DigitClass(digit) && Head(a, j, digit) && Head(b, k, digit) && a[..j + 4] <= b
    ensures j == k && a[..j + 4] == b[..k + 4]
  {
    assert forall i | 0 <= i < j + 4 :: a[i] == b[i];
    // The first hyphen after the third character closes the middle field.
    assert forall i | 3 <= i < 3 + j :: b[i] != '-';
    assert forall i | 3 <= i < 3 + k :: b[i] != '-';
    assert b[3 + j] == '-' && b[3 + k] == '-';
  }

  // A code of either shape belongs to a family exactly when its own head is that family.
  lemma FamiliesDoNotCapture(task: string, code: string, k: nat, digit: Digits)
    requires DigitClass(digit) && Family(task, digit).Some? && Head(code, k, digit)
    ensures Family(task, digit).value <= code <==> Family(task, digit).value == code[..k + 4]
  {
    FamilyIsAHead(task, digit);
    var j :| 2 <= j <= 3 && Head(task, j, digit) && Family(task, digit).value == task[..j + 4];
    if task[..j + 4] <= code {
      HeadsAreUnambiguous(task, j, code, k, digit);
    }
  }

  lemma FourPartCodesExpandToNothing(codes: set<string>, code: string, k: nat, digit: Digits)
    requires DigitClass(digit) && FourPart(code, k, digit)
    ensures Related(codes, code, digit) == {}
  {
    assert code[3 + k] == '-' && code[k + 6] == '-';
    if ThreePart(code, 2, digit) || ThreePart(code, 3, digit) {
      var j := if ThreePart(code, 2, digit) then 2 else 3;
      HeadsAreUnambiguous(code, j, code, k, digit);
    }
  }

  lemma SubtasksShareTheFamily(task: string, code: string, digit: Digits)
    requires DigitClass(digit) && Family(task, digit).Some? && Family(task, digit).value <= code
    requires Family(code, digit).Some?
    ensures Family(code, digit) == Family(task, digit)
  {
    FamilyIsAHead(code, digit);
    var k :| 2 <= k <= 3 && Head(code, k, digit) && Family(code, digit).value == code[..k + 4];
    FamiliesDoNotCapture(task, code, k, digit);
  }

  // One round is a fixpoint, for every index and every set of tasks.
  lemma OneRoundIsEnough(codes: set<string>, tasks: set<string>, digit: Digits)
    requires DigitClass(digit)
    ensures Expand(codes, Expand(codes, tasks, digit), digit) == Expand(codes, tasks, digit)
  {
    var once := Expand(codes, tasks, digit);
    forall t, c | t in once && c in Related(codes, t, digit) ensures c in once {
      if t !in tasks {
        var parent :| parent in tasks && t in Related(codes, parent, digit);
        SubtasksShareTheFamily(parent, t, digit);
        assert c in Related(codes, parent, digit);
      }
    }
  }

  // -------------------------------------------------------------- the loops

  function IndexedCodes(index: seq<Entry>): set<string> {
    set e, code | e in index && code in e.mapping :: code
  }

  method FindRelatedSubtasks(index: seq<Entry>, task: string, digit: Digits) returns (related: set<string>)
    ensures related == Related(IndexedCodes(index), task, digit)
  {
    related := {};
    var family := Family(task, digit);
    if family.None? {
      return;
    }
    for i := 0 to |index|
      invariant related == Related(IndexedCodes(index[..i]), task, digit)
    {
      assert index[..i + 1] == index[..i] + [index[i]];
      related := related + set code | code in index[i].mapping && family.value <= code;
    }
    assert index[..|index|] == index;
  }

  method ExpandTasks(index: seq<Entry>, tasks: set<string>, digit: Digits) returns (expanded: set<string>)
    requires DigitClass(digit)
    ensures expanded == Expand(IndexedCodes(index), tasks, digit)
    ensures forall t | t in expanded :: Related(IndexedCodes(index), t, digit) <= expanded
  {
    expanded := tasks;
    var rest := tasks;
    while rest != {}
      invariant rest <= tasks
      invariant expanded == tasks + set t, c | t in tasks - rest && c in Related(IndexedCodes(index), t, digit) :: c
      decreases |rest|
    {
      var task :| task in rest;
      var subtasks := FindRelatedSubtasks(index, task, digit);
      expanded := expanded + subtasks;
      rest := rest - {task};
    }
    OneRoundIsEnough(IndexedCodes(index), tasks, digit);
    forall t | t in expanded ensures Related(IndexedCodes(index), t, digit) <= expanded {
      assert Related(IndexedCodes(index), t, digit) <= Expand(IndexedCodes(index), expanded, digit);
    }
  }
}
