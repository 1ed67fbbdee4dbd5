// UTF-8 as the grammar of section 4 of RFC 3629, as a byte automaton, and as the
// incremental decoder that the storage loops feed chunk by chunk.
module Utf8 {

  type Byte = b: int | 0 <= b < 256

  // -------------------------------------------------------------- the grammar

  predicate Tail(b: Byte) {
    0x80 <= b <= 0xBF
  }

  predicate Utf8Char(c: seq<Byte>) {
    || (|c| == 1 && c[0] <= 0x7F)
    || (|c| == 2 && 0xC2 <= c[0] <= 0xDF && Tail(c[1]))
    || (|c| == 3 && Tail(c[2]) && (
          || (c[0] == 0xE0 && 0xA0 <= c[1] <= 0xBF)
          || (0xE1 <= c[0] <= 0xEC && Tail(c[1]))
          || (c[0] == 0xED && 0x80 <= c[1] <= 0x9F)
          || (0xEE <= c[0] <= 0xEF && Tail(c[1]))))
    || (|c| == 4 && Tail(c[2]) && Tail(c[3]) && (
          || (c[0] == 0xF0 && 0x90 <= c[1] <= 0xBF)
          || (0xF1 <= c[0] <= 0xF3 && Tail(c[1]))
          || (c[0] == 0xF4 && 0x80 <= c[1] <= 0x8F)))
  }

  // UTF8-octets = *( UTF8-char ).
  ghost predicate ValidUtf8(s: seq<Byte>) {
    s == [] || exists n | 1 <= n <= |s| && n <= 4 :: Utf8Char(s[..n]) && ValidUtf8(s[n..])
  }

  // ------------------------------------------------------------ the automaton

  datatype Scan = Start | Tail1 | Tail2 | Tail3 | AfterE0 | AfterED | AfterF0 | AfterF4 | Fail

  function Step(st: Scan, b: Byte): Scan {
    match st
    case Start =>
      if b <= 0x7F then Start
      else if 0xC2 <= b <= 0xDF then Tail1
      else if b == 0xE0 then AfterE0
      else if b == 0xED then AfterED
      else if 0xE1 <= b <= 0xEF then Tail2
      else if b == 0xF0 then AfterF0
      else if 0xF1 <= b <= 0xF3 then Tail3
      else if b == 0xF4 then AfterF4
      else Fail
    case Tail1 => if Tail(b) then Start else Fail
    case Tail2 => if Tail(b) then Tail1 else Fail
    case Tail3 => if Tail(b) then Tail2 else Fail
    case AfterE0 => if 0xA0 <= b <= 0xBF then Tail1 else Fail
    case AfterED => if 0x80 <= b <= 0x9F then Tail1 else Fail
    case AfterF0 => if 0x90 <= b <= 0xBF then Tail2 else Fail
    case AfterF4 => if 0x80 <= b <= 0x8F then Tail2 else Fail
    case Fail => Fail
  }

  function Run(st: Scan, s: seq<Byte>): Scan
    decreases |s|
  {
    if s == [] then st else Run(Step(st, s[0]), s[1..])
  }

  lemma {:induction false} RunAppend(st: Scan, a: seq<Byte>, b: seq<Byte>)
    ensures Run(st, a + b) == Run(Run(st, a), b)
    decreases |a|
  {
    if a == [] {
      assert a + b == b;
    } else {
      RunAppend(Step(st, a[0]), a[1..], b);
      assert (a + b)[1..] == a[1..] + b;
    }
  }

  lemma {:induction false} FailIsFinal(s: seq<Byte>)
    ensures Run(Fail, s) == Fail
    decreases |s|
  {
    if s != [] {
      FailIsFinal(s[1..]);
    }
  }

  lemma RunOfChar(c: seq<Byte>)
    requires Utf8Char(c)
    ensures Run(Start, c) == Start
  {
    var a := Step(Start, c[0]);
    if |c| > 1 {
      var b := Step(a, c[1]);
      assert Run(a, c[1..]) == Run(b, c[1..][1..]);
      if |c| > 2 {
        var d := Step(b, c[2]);
        assert c[1..][1..] == c[2..];
        assert Run(b, c[2..]) == Run(d, c[2..][1..]);
        if |c| > 3 {
          assert c[2..][1..] == c[3..];
          assert Run(d, c[3..]) == Run(Step(d, c[3]), c[3..][1..]);
        }
      }
    }
  }

  // How many bytes a first byte announces.
  function Width(b: Byte): nat {
    if b <= 0x7F then 1 else if b <= 0xDF then 2 else if b <= 0xEF then 3 else 4
  }

  lemma FirstChar(s: seq<Byte>)
    requires s != [] && Run(Start, s) == Start
    ensures Width(s[0]) <= |s| && Utf8Char(s[..Width(s[0])])
  {
    var a := Step(Start, s[0]);
    FailIsFinal(s[1..]);
    if a != Start {
      assert Run(Start, s) == Run(a, s[1..]);
      assert |s| > 1;
      var b := Step(a, s[1]);
      FailIsFinal(s[2..]);
      assert s[1..][1..] == s[2..];
      assert Run(a, s[1..]) == Run(b, s[2..]);
      if b != Start {
        assert |s| > 2;
        var c := Step(b, s[2]);
        FailIsFinal(s[3..]);
        assert s[2..][1..] == s[3..];
        assert Run(b, s[2..]) == Run(c, s[3..]);
        if c != Start {
          assert |s| > 3;
          FailIsFinal(s[4..]);
          assert s[3..][1..] == s[4..];
          assert Run(c, s[3..]) == Run(Step(c, s[3]), s[4..]);
        }
      }
    }
  }

  // One character is consumed exactly as the grammar consumes it.
  lemma RunPastChar(s: seq<Byte>, n: nat)
    requires n <= |s| && Utf8Char(s[..n])
    ensures Run(Start, s) == Run(Start, s[n..])
  {
    assert s == s[..n] + s[n..];
    RunOfChar(s[..n]);
    RunAppend(Start, s[..n], s[n..]);
  }

  lemma {:induction false} AcceptedIsValid(s: seq<Byte>)
    requires Run(Start, s) == Start
    ensures ValidUtf8(s)
    decreases |s|
  {
    if s != [] {
      FirstChar(s);
      var n := Width(s[0]);
      RunPastChar(s, n);
      AcceptedIsValid(s[n..]);
      assert Utf8Char(s[..n]) && ValidUtf8(s[n..]);
    }
  }

  lemma {:induction false} ValidIsAccepted(s: seq<Byte>)
    requires ValidUtf8(s)
    ensures Run(Start, s) == Start
    decreases |s|
  {
    if s != [] {
      var n :| 1 <= n <= |s| && n <= 4 && Utf8Char(s[..n]) && ValidUtf8(s[n..]);
      RunPastChar(s, n);
      ValidIsAccepted(s[n..]);
    }
  }

  // The automaton accepts exactly the grammar.
  lemma AutomatonIsTheGrammar(s: seq<Byte>)
    ensures Run(Start, s) == Start <==> ValidUtf8(s)
  {
    if Run(Start, s) == Start {
      AcceptedIsValid(s);
    }
    if ValidUtf8(s) {
      ValidIsAccepted(s);
    }
  }

  lemma FailureIsForever(a: seq<Byte>, b: seq<Byte>)
    requires Run(Start, a) == Fail
    ensures Run(Start, a + b) == Fail && !ValidUtf8(a + b)
  {
    RunAppend(Start, a, b);
    FailIsFinal(b);
    AutomatonIsTheGrammar(a + b);
  }

  // --------------------------------------------------- what the grammar stands for

  // 10xxxxxx with the six lowest bits of n.
  function Continuation(n: int): Byte {
    0x80 + n % 0x40
  }

  // The encoding of one character, as section 3 of RFC 3629 lays out its bits.
  function Encode(c: char): (e: seq<Byte>) {
    var n := c as int;
    var q := n / 0x40;
    var r := q / 0x40;
    if n < 0x80 then [n]
    else if n < 0x800 then [0xC0 + q, Continuation(n)]
    else if n < 0x10000 then [0xE0 + r, Continuation(q), Continuation(n)]
    else [0xF0 + r / 0x40, Continuation(r), Continuation(q), Continuation(n)]
  }

  // The bits of a continuation byte after those of n.
  function Shifted(n: int, b: Byte): int {
    n * 0x40 + (b as int - 0x80)
  }

  // The number that the bits of a grammatical character make up.
  function Value(c: seq<Byte>): int
    requires Utf8Char(c)
  {
    if |c| == 1 then c[0] as int
    else if |c| == 2 then Shifted(c[0] as int - 0xC0, c[1])
    else if |c| == 3 then Shifted(Shifted(c[0] as int - 0xE0, c[1]), c[2])
    else Shifted(Shifted(Shifted(c[0] as int - 0xF0, c[1]), c[2]), c[3])
  }

  lemma ShiftsBack(n: int)
    requires n >= 0
    ensures Shifted(n / 0x40, Continuation(n)) == n
  {
  }

  lemma ShiftsForth(n: int, b: Byte)
    requires n >= 0 && Tail(b)
    ensures Shifted(n, b) / 0x40 == n && Continuation(Shifted(n, b)) == b
  {
  }

  lemma EncodingsAreGrammatical(c: char)
    ensures Utf8Char(Encode(c)) && Value(Encode(c)) == c as int
  {
    var n := c as int;
    ShiftsBack(n);
    ShiftsBack(n / 0x40);
    ShiftsBack(n / 0x40 / 0x40);
  }

  predicate Scalar(n: int) {
    0 <= n < 0xD800 || 0xE000 <= n < 0x11_0000
  }

  lemma GrammaticalCharsAreEncodings(c: seq<Byte>)
    requires Utf8Char(c)
    ensures Scalar(Value(c)) && Encode(Value(c) as char) == c
  {
    if |c| == 2 {
      ShiftsForth(c[0] as int - 0xC0, c[1]);
    } else if |c| == 3 {
      ShiftsForth(c[0] as int - 0xE0, c[1]);
      ShiftsForth(Shifted(c[0] as int - 0xE0, c[1]), c[2]);
    } else if |c| == 4 {
      ShiftsForth(c[0] as int - 0xF0, c[1]);
      ShiftsForth(Shifted(c[0] as int - 0xF0, c[1]), c[2]);
      ShiftsForth(Shifted(Shifted(c[0] as int - 0xF0, c[1]), c[2]), c[3]);
    }
  }

  // UTF8-char is exactly the set of encodings, and no two characters share one.
  lemma TheGrammarIsTheEncoding(c: seq<Byte>)
    ensures Utf8Char(c) <==> exists ch: char :: Encode(ch) == c
    ensures forall a: char, b: char :: Encode(a) == c && Encode(b) == c ==> a == b
  {
    if Utf8Char(c) {
      GrammaticalCharsAreEncodings(c);
      assert Encode(Value(c) as char) == c;
    }
    forall ch: char | Encode(ch) == c ensures Utf8Char(c) && Value(c) == ch as int {
      EncodingsAreGrammatical(ch);
    }
  }

  // s.encode("utf-8").
  function EncodeText(s: string): seq<Byte> {
    if s == "" then [] else EncodeText(s[..|s| - 1]) + Encode(s[|s| - 1])
  }

  lemma {:induction false} EncodedTextIsValid(s: string)
    ensures ValidUtf8(EncodeText(s))
    decreases |s|
  {
    if s != "" {
      var front, last := EncodeText(s[..|s| - 1]), Encode(s[|s| - 1]);
      EncodedTextIsValid(s[..|s| - 1]);
      ValidIsAccepted(front);
      EncodingsAreGrammatical(s[|s| - 1]);
      RunOfChar(last);
      RunAppend(Start, front, last);
      AcceptedIsValid(front + last);
    }
  }

  // ------------------------------------------------- the incremental decoder

  // The bytes after the last complete character, given those pending before s.
  function PendingFrom(st: Scan, pending: seq<Byte>, s: seq<Byte>): seq<Byte>
    decreases |s|
  {
    if s == [] then pending
    else
      var next := Step(st, s[0]);
      if next == Start then PendingFrom(Start, [], s[1..]) else PendingFrom(next, pending + [s[0]], s[1..])
  }

  lemma {:induction false} PendingHoldsTheState(st: Scan, pending: seq<Byte>, s: seq<Byte>)
    requires Run(Start, pending) == st
    ensures Run(Start, PendingFrom(st, pending, s)) == Run(st, s)
    decreases |s|
  {
    if s != [] {
      var next := Step(st, s[0]);
      RunAppend(Start, pending, [s[0]]);
      assert Run(st, [s[0]]) == Run(next, [s[0]][1..]) == next;
      if next == Start {
        PendingHoldsTheState(Start, [], s[1..]);
      } else {
        PendingHoldsTheState(next, pending + [s[0]], s[1..]);
      }
    }
  }

  // codecs.getincrementaldecoder("utf-8")("strict"): keeps an unfinished character
  // for the next call, and raises without touching its buffer.
  class IncrementalDecoder {
    var buffer: seq<Byte>

    constructor ()
      ensures buffer == []
    {
      buffer := [];
    }

    method Decode(chunk: seq<Byte>, final: bool) returns (ok: bool)
      modifies this
      ensures ok <==> var end := Run(Run(Start, old(buffer)), chunk); end != Fail && (final ==> end == Start)
      ensures ok ==> Run(Start, buffer) == Run(Run(Start, old(buffer)), chunk)
      ensures !ok ==> buffer == old(buffer)
    {
      var data := buffer + chunk;
      RunAppend(Start, buffer, chunk);
      var end := Run(Start, data);
      ok := end != Fail && (final ==> end == Start);
      if ok {
        PendingHoldsTheState(Start, [], data);
        buffer := PendingFrom(Start, [], data);
      }
    }
  }
}
