/** What the scanning helpers of the parser do, in byte values: 9 is TAB, 10 LF, 12 FF, 13 CR, 32 SPACE,
    45 '-' and 58 ':'. */
module Octets {
  import opened Bytes
  import opened Machines
  import opened Segments

  predicate Blanks(s: Bytes) { forall b :: b in s ==> b in {9, 10, 12, 13, 32} }

  /** Trimming takes off exactly the whitespace at both ends. */
  lemma TrimIs(s: Bytes) returns (a: Bytes, b: Bytes)
    ensures s == a + TrimAscii(s) + b && Blanks(a) && Blanks(b)
    ensures var r := TrimAscii(s); r != [] ==> r[0] !in {9, 10, 12, 13, 32} && r[|r| - 1] !in {9, 10, 12, 13, 32}
  {
    hide TrimStart, TrimEnd;
    var front := TrimStart(s);
    var r := TrimEnd(front);
    a := StartDropped(s);
    b := EndDropped(front);
    assert a + (r + b) == a + r + b;
    if r != [] { assert front[0] == r[0]; }
  }

  lemma {:induction false} StartDropped(s: Bytes) returns (a: Bytes)
    ensures s == a + TrimStart(s) && Blanks(a)
    decreases |s|
  {
    a := [];
    if s != [] && IsWhitespace(s[0]) {
      var rest := StartDropped(s[1..]);
      a := [s[0]] + rest;
    }
  }

  lemma {:induction false} EndDropped(s: Bytes) returns (b: Bytes)
    ensures s == TrimEnd(s) + b && Blanks(b)
    decreases |s|
  {
    b := [];
    if s != [] && IsWhitespace(s[|s| - 1]) {
      var rest := EndDropped(s[..|s| - 1]);
      b := rest + [s[|s| - 1]];
      assert TrimEnd(s) + (rest + [s[|s| - 1]]) == TrimEnd(s) + rest + [s[|s| - 1]];
    }
  }

  /** Names lose exactly their trailing spaces. */
  lemma {:induction false} StripIs(s: Bytes)
    ensures var r := StripSpaces(s);
      && r <= s
      && (forall k :: |r| <= k < |s| ==> s[k] == 32)
      && (r != [] ==> r[|r| - 1] != 32)
    decreases |s|
  {
    if s != [] && s[|s| - 1] == SPACE { StripIs(s[..|s| - 1]); }
  }

  /** A header line is split at its first colon, and ignored exactly if it has none. */
  lemma LineHeaderIs(line: Bytes)
    ensures LineHeader(line) == [] <==> 58 !in line
    ensures forall i :: 0 <= i < |line| && line[i] == 58 && 58 !in line[..i] ==>
      LineHeader(line) == [(StripSpaces(line[..i]), TrimAscii(line[i + 1..]))]
  {
    hide StripSpaces, TrimAscii;
    forall i: nat ensures At(line, [COLON], i) <==> i < |line| && line[i] == 58 {
      if i < |line| { assert line[i..i + 1] == [line[i]]; }
    }
    forall i | 0 <= i < |line| && line[i] == 58 && 58 !in line[..i]
      ensures LineHeader(line) == [(StripSpaces(line[..i]), TrimAscii(line[i + 1..]))]
    {
      assert forall k :: 0 <= k < i ==> line[k] == line[..i][k];
      FindIs(line, [COLON], i);
    }
  }

  predicate Padding(s: Bytes) { forall b :: b in s ==> b in {9, 32} }

  lemma PaddingIs(s: Bytes)
    ensures AllPadding(s) <==> Padding(s)
  {
    if Padding(s) { assert forall k :: 0 <= k < |s| ==> s[k] in s; }
  }

  /** What follows a boundary token: "--" closes, padding and CRLF open, padding and a bare LF do not,
      and on the beginnings of these more input is needed. */
  lemma SuffixIs(tail: Bytes)
    ensures DelimiterSuffix(tail).Close? <==> |tail| >= 2 && tail[0] == 45 && tail[1] == 45
    ensures forall n: nat :: DelimiterSuffix(tail) == Open(n) <==> OpensAt(tail, n)
    ensures DelimiterSuffix(tail).Incomplete? <==>
      (tail == [45] || Padding(tail) || (tail != [] && tail[|tail| - 1] == 13 && Padding(tail[..|tail| - 1])))
    ensures DelimiterSuffix(tail).BareLineFeed? <==> exists n :: 0 <= n < |tail| && Padding(tail[..n]) && tail[n] == 10
  {
    hide PaddingLength;
    UndecidedIff(tail);
    PaddingIs(tail);
    if tail != [] { PaddingIs(tail[..|tail| - 1]); }
    forall n: nat ensures DelimiterSuffix(tail) == Open(n) <==> OpensAt(tail, n) { OpenIs(tail, n); }
    forall n | 0 <= n < |tail| && tail[n] !in {9, 32} ensures Padding(tail[..n]) ==> PaddingLength(tail) == n {
      PaddingIs(tail[..n]);
      if Padding(tail[..n]) { PaddingStops(tail, n); }
    }
    var n := PaddingLength(tail);
    assert Padding(tail[..n]) by { PaddingIs(tail[..n]); }
  }

  predicate OpensAt(tail: Bytes, n: nat) {
    2 <= n <= |tail| && Padding(tail[..n - 2]) && tail[n - 2] == 13 && tail[n - 1] == 10
  }

  lemma OpenIs(tail: Bytes, n: nat)
    ensures DelimiterSuffix(tail) == Open(n) <==> OpensAt(tail, n)
  {
    hide PaddingLength;
    if OpensAt(tail, n) {
      PaddingIs(tail[..n - 2]);
      PaddingStops(tail, n - 2);
      assert tail[n - 2..][..2] == [13, 10];
      if n > 2 { assert tail[..n - 2][0] == tail[0]; }
    }
    if DelimiterSuffix(tail) == Open(n) {
      PaddingIs(tail[..PaddingLength(tail)]);
      assert tail[n - 2..][0] == 13 && tail[n - 2..][1] == 10;
    }
  }

  /** The line break in front of a boundary: CRLF, or a bare LF, or a bare CR. */
  lemma BodyEndIs(buffer: Bytes, i: nat)
    requires i <= |buffer|
    ensures BodyDataEnd(buffer, i) ==
      if i >= 2 && buffer[i - 2] == 13 && buffer[i - 1] == 10 then i - 2
      else if i >= 1 && buffer[i - 1] in {10, 13} then i - 1
      else i
  {
  }
}
