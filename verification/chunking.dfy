/** Bytes that arrive later never change what the parser makes of the bytes it has. */
module Chunking {
  import opened Bytes
  import opened Machines
  import opened Events

  /** `second`, taken after `earlier` was emitted, does what `direct` does at once. */
  predicate Resumes(direct: Step, earlier: seq<Event>, second: Step) {
    match direct
    case Progress(m, e) => second.Progress? && second.machine == m && Same(e, earlier + second.events)
    case Wait(m, e) => second.Wait? && second.machine == m && Same(e, earlier + second.events)
    case Reject(_, error) => second.Reject? && second.error == error
  }

  /** `s` is a step from `m`; this is what it says about the same step with `more` bytes buffered. */
  predicate Extends(c: Config, s: Step, direct: Step, more: Bytes)
  {
    match s
    case Progress(next, e) => direct == Progress(Receive(next, more), e)
    case Wait(next, e) => Resumes(direct, e, StepOnce(c, Receive(next, more)))
    case Reject(_, _) => true
  }

  lemma ResumesSelf(s: Step)
    ensures Resumes(s, [], s)
  {
    if !s.Reject? { assert [] + s.events == s.events; }
  }

  lemma {:induction false} PaddingAppend(tail: Bytes, more: Bytes)
    ensures PaddingLength(tail) < |tail| ==> PaddingLength(tail + more) == PaddingLength(tail)
  {
    if tail != [] && IsPadding(tail[0]) {
      assert (tail + more)[1..] == tail[1..] + more;
      PaddingAppend(tail[1..], more);
    }
  }

  /** A decided delimiter suffix stays as it is. */
  lemma SuffixStable(tail: Bytes, more: Bytes)
    requires !DelimiterSuffix(tail).Incomplete?
    ensures DelimiterSuffix(tail + more) == DelimiterSuffix(tail)
  {
    if DASHES <= tail || tail[0] == DASH {
    } else {
      var n := PaddingLength(tail);
      var ending := tail[n..];
      PaddingAppend(tail, more);
      assert (tail + more)[n..] == ending + more;
      assert ending != [] && ending != [CR];
      if CRLF <= ending {
        assert (ending + more)[..2] == CRLF;
      } else if |ending| >= 2 {
        assert (ending + more)[..2] == ending[..2];
      }
    }
  }

  lemma EnterExtends(m: Machine, tail: Bytes, more: Bytes)
    requires !DelimiterSuffix(tail).Incomplete?
    ensures !DelimiterSuffix(tail + more).Incomplete?
    ensures Enter(Receive(m, more), tail + more) == Receive(Enter(m, tail), more)
  {
    hide DelimiterSuffix;
    SuffixStable(tail, more);
    if DelimiterSuffix(tail).Open? {
      OpenFits(tail);
      var n := DelimiterSuffix(tail).length;
      assert (tail + more)[n..] == tail[n..] + more;
    }
  }

  lemma EnterBuffer(m: Machine, b: Bytes, tail: Bytes)
    requires !DelimiterSuffix(tail).Incomplete?
    ensures Enter(m.(buffer := b), tail) == Enter(m, tail)
  {
  }

  lemma TokenHasNoBreak(c: Config, s: Bytes, i: nat, j: nat)
    requires c.Valid() && At(s, c.token, i) && j < |s| && (s[j] == CR || s[j] == LF)
    ensures j < i || i + |c.token| <= j
  {
    if i <= j < i + |c.token| {
      AtByte(s, c.token, i, j - i);
    }
  }

  // ----- raw boundaries

  lemma RawBoundaryExtends(c: Config, m: Machine, i: nat, more: Bytes)
    requires c.Valid() && At(m.buffer, c.token, i)
    ensures At(Receive(m, more).buffer, c.token, i)
    ensures var s := StepRawBoundary(c, m, i);
      var direct := StepRawBoundary(c, Receive(m, more), i);
      && (s.Progress? ==> direct == Progress(Receive(s.machine, more), s.events))
      && (s.Wait? ==>
        && At(Receive(s.machine, more).buffer, c.token, 0)
        && s.events == []
        && direct == StepRawBoundary(c, Receive(s.machine, more), 0))
  {
    hide DelimiterSuffix, Enter;
    AtAppend(m.buffer, more, c.token, i);
    var tail := m.buffer[i + |c.token|..];
    assert (m.buffer + more)[i + |c.token|..] == tail + more;
    if !DelimiterSuffix(tail).Incomplete? {
      EnterExtends(m, tail, more);
    } else {
      var waiting := Receive(m.(buffer := m.buffer[i..]), more);
      assert waiting.buffer == (m.buffer + more)[i..];
      AtDrop(m.buffer + more, c.token, i, 0);
      assert waiting.buffer[|c.token|..] == tail + more;
      if !DelimiterSuffix(tail + more).Incomplete? {
        EnterBuffer(Receive(m, more), waiting.buffer, tail + more);
      }
    }
  }

  // ----- Preamble

  lemma PreambleExtends(c: Config, m: Machine, more: Bytes)
    requires c.Valid() && m.state.Preamble?
    ensures Extends(c, StepPreamble(c, m), StepPreamble(c, Receive(m, more)), more)
  {
    hide StepPreamble, Find, Extends;
    if Find(m.buffer, c.token).Some? {
      PreambleExtendsAtToken(c, m, more, Find(m.buffer, c.token).value);
    } else {
      PreambleExtendsOpen(c, m, more);
    }
  }

  lemma PreambleExtendsAtToken(c: Config, m: Machine, more: Bytes, i: nat)
    requires c.Valid() && m.state.Preamble? && Find(m.buffer, c.token) == Some(i)
    ensures Extends(c, StepPreamble(c, m), StepPreamble(c, Receive(m, more)), more)
  {
    hide DelimiterSuffix, Enter, Find, AppendEvents, At, PrefixTooLong;
    var big := Receive(m, more);
    var s := StepPreamble(c, m);
    FindAppend(m.buffer, more, c.token);
    FindFits(m.buffer, c.token);
    var tail := m.buffer[i + |c.token|..];
    assert big.buffer[i + |c.token|..] == tail + more;
    if !DelimiterSuffix(tail).Incomplete? {
      EnterExtends(m, tail, more);
    } else if s.Wait? {
      PreambleTrimmed(c, big, i);
      assert Receive(s.machine, more) == big.(buffer := big.buffer[i..]);
      ResumesSelf(StepPreamble(c, big));
    }
  }

  lemma PreambleExtendsOpen(c: Config, m: Machine, more: Bytes)
    requires c.Valid() && m.state.Preamble? && Find(m.buffer, c.token).None?
    ensures Extends(c, StepPreamble(c, m), StepPreamble(c, Receive(m, more)), more)
  {
    hide DelimiterSuffix, Enter, Find, AppendEvents, At;
    var big := Receive(m, more);
    var s := StepPreamble(c, m);
    FindAppend(m.buffer, more, c.token);
    if |m.buffer| > |c.token| + 1 {
      var d := |m.buffer| - |c.token| - 1;
      assert Receive(s.machine, more) == big.(buffer := big.buffer[d..]);
      forall k | 0 <= k < d ensures !At(big.buffer, c.token, k) {
        AtAppend(m.buffer, more, c.token, k);
      }
      PreambleTrimmed(c, big, d);
    }
    ResumesSelf(StepPreamble(c, big));
  }

  /** Text before the first possible boundary plays no part in the preamble. */
  lemma PreambleTrimmed(c: Config, m: Machine, d: nat)
    requires c.Valid() && d <= |m.buffer|
    requires forall k :: 0 <= k < d ==> !At(m.buffer, c.token, k)
    requires Find(m.buffer, c.token).Some? || |m.buffer| - d >= |c.token| + 1
    ensures var t := StepPreamble(c, m.(buffer := m.buffer[d..]));
      var s := StepPreamble(c, m);
      if s.Reject? then t.Reject? && t.error == s.error else t == s
  {
    hide DelimiterSuffix, Enter, Find;
    FindDrop(m.buffer, c.token, d);
    var trimmed := m.(buffer := m.buffer[d..]);
    match Find(m.buffer, c.token)
    case Some(i) =>
      var tail := m.buffer[i + |c.token|..];
      assert trimmed.buffer[i - d + |c.token|..] == tail;
      assert trimmed.buffer[i - d..] == m.buffer[i..];
      if !DelimiterSuffix(tail).Incomplete? {
        EnterBuffer(m, trimmed.buffer, tail);
      }
    case None =>
      var n := |m.buffer| - |c.token| - 1;
      assert trimmed.buffer[n - d..] == m.buffer[n..];
  }

  // ----- Discard and End

  /** A blank line that only later bytes complete cannot precede a token that is already there. */
  lemma BlankAfterToken(c: Config, buffer: Bytes, more: Bytes)
    requires c.Valid()
    requires Find(buffer, c.token).Some? && Find(buffer, BLANK).None? && Find(buffer + more, BLANK).Some?
    ensures Find(buffer + more, BLANK).value >= Find(buffer, c.token).value
  {
    FindAppend(buffer, more, BLANK);
  }

  /** A token that only later bytes complete cannot precede a line break that is already there. */
  lemma TokenAfterBreak(c: Config, buffer: Bytes, more: Bytes, t: Bytes)
    requires c.Valid() && (t == CRLF || t == BLANK)
    requires Find(buffer, c.token).None? && Find(buffer, t).Some? && Find(buffer + more, c.token).Some?
    ensures Find(buffer, t).value < Find(buffer + more, c.token).value
  {
    var i, j := Find(buffer + more, c.token).value, Find(buffer, t).value;
    FindAppend(buffer, more, c.token);
    AtByte(buffer, t, j, 0);
    assert (buffer + more)[j] == CR;
    TokenHasNoBreak(c, buffer + more, i, j);
  }

  lemma TokenIsNotBreak(c: Config, buffer: Bytes, t: Bytes)
    requires c.Valid() && (t == CRLF || t == BLANK)
    requires At(buffer, c.token, 0) && Find(buffer, t).Some?
    ensures Find(buffer, t).value != 0
  {
    AtByte(buffer, t, Find(buffer, t).value, 0);
    if Find(buffer, t).value == 0 {
      TokenHasNoBreak(c, buffer, 0, 0);
    }
  }

  lemma FindAtStart(c: Config, buffer: Bytes)
    requires At(buffer, c.token, 0)
    ensures Find(buffer, c.token) == Some(0)
  {
    FindIs(buffer, c.token, 0);
  }

  lemma RawSegmentExtends(c: Config, m: Machine, more: Bytes)
    requires c.Valid() && (m.state.Discard? || m.state.End?)
    ensures Extends(c, StepRawSegment(c, m), StepRawSegment(c, Receive(m, more)), more)
  {
    hide DelimiterSuffix, Enter, Find, AppendEvents, StepRawBoundary;
    var big := Receive(m, more);
    var boundary, blank := Find(m.buffer, c.token), Find(m.buffer, BLANK);
    FindAppend(m.buffer, more, c.token);
    FindAppend(m.buffer, more, BLANK);
    if blank.Some? && (boundary.None? || blank.value < boundary.value) {
      if boundary.None? && Find(big.buffer, c.token).Some? { TokenAfterBreak(c, m.buffer, more, BLANK); }
    } else if boundary.Some? {
      if blank.None? && Find(big.buffer, BLANK).Some? { BlankAfterToken(c, m.buffer, more); }
      var s := StepRawBoundary(c, m, boundary.value);
      RawBoundaryExtends(c, m, boundary.value, more);
      assert StepRawSegment(c, m) == s;
      assert StepRawSegment(c, big) == StepRawBoundary(c, big, boundary.value);
      if s.Wait? {
        RawBoundaryState(c, m, boundary.value);
        var small := Receive(s.machine, more);
        FindAtStart(c, small.buffer);
        if Find(small.buffer, BLANK).Some? { TokenIsNotBreak(c, small.buffer, BLANK); }
        assert StepOnce(c, small) == StepRawBoundary(c, small, 0);
        ResumesSelf(StepRawSegment(c, big));
      }
    } else {
      ResumesSelf(StepRawSegment(c, big));
    }
  }

  lemma RawBoundaryState(c: Config, m: Machine, i: nat)
    requires At(m.buffer, c.token, i)
    ensures var s := StepRawBoundary(c, m, i);
      s.Wait? ==> s.machine == m.(buffer := m.buffer[i..])
    ensures !StepRawBoundary(c, m, i).Reject?
  {
  }

  // ----- Header

  lemma HeaderExtends(c: Config, m: Machine, more: Bytes)
    requires c.Valid() && m.state.Header?
    ensures Extends(c, StepHeader(c, m), StepHeader(c, Receive(m, more)), more)
  {
    hide DelimiterSuffix, Enter, Find, AppendEvents, StepRawBoundary, LineHeader, HeaderRetained;
    var big := Receive(m, more);
    var boundary, line := Find(m.buffer, c.token), Find(m.buffer, CRLF);
    FindAppend(m.buffer, more, c.token);
    FindAppend(m.buffer, more, CRLF);
    if boundary.Some? && (line.None? || boundary.value < line.value) {
      var i := boundary.value;
      if !StepHeader(c, m).Reject? {
        var cleared := m.(headers := [], headerSize := 0);
        var s := StepRawBoundary(c, cleared, i);
        assert StepHeader(c, m) == s;
        RawBoundaryExtends(c, cleared, i, more);
        assert StepHeader(c, big) == StepRawBoundary(c, Receive(cleared, more), i);
        if s.Wait? {
          RawBoundaryState(c, cleared, i);
          var small := Receive(s.machine, more);
          FindAtStart(c, small.buffer);
          if Find(small.buffer, CRLF).Some? { TokenIsNotBreak(c, small.buffer, CRLF); }
          assert small.(headers := [], headerSize := 0) == small;
          assert StepOnce(c, small) == StepRawBoundary(c, small, 0);
          ResumesSelf(StepHeader(c, big));
        }
      }
    } else if line.Some? {
      var i := line.value;
      if boundary.None? && Find(big.buffer, c.token).Some? { TokenAfterBreak(c, m.buffer, more, CRLF); }
      assert big.buffer[..i] == m.buffer[..i];
      assert big.buffer[i + 2..] == m.buffer[i + 2..] + more;
      AtAppend(m.buffer, more, CRLF, i);
      assert StepHeader(c, big) == StepHeaderLine(c, big, i);
    } else {
      ResumesSelf(StepHeader(c, big));
    }
  }

  // ----- Body

  lemma DataEventsJoin(begun: seq<Event>, a: Bytes, b: Bytes, rest: seq<Event>)
    ensures Same(begun + DataEvents(a + b) + rest, (begun + DataEvents(a)) + (DataEvents(b) + rest))
  {
    if a == [] {
      assert a + b == b;
      assert (begun + []) + (DataEvents(b) + rest) == begun + DataEvents(b) + rest;
    } else if b == [] {
      assert a + b == a;
      assert (begun + DataEvents(a)) + ([] + rest) == begun + DataEvents(a) + rest;
    } else {
      TwoDataJoin(a, b);
      SamePrefix(begun, [Data(a + b)], [Data(a), Data(b)]);
      SameConcat(begun + [Data(a + b)], begun + [Data(a), Data(b)], rest, rest);
      assert (begun + [Data(a), Data(b)]) + rest == (begun + [Data(a)]) + ([Data(b)] + rest);
    }
  }

  lemma TwoDataJoin(a: Bytes, b: Bytes)
    ensures Same([Data(a + b)], [Data(a), Data(b)])
  {
    var two := [Data(a), Data(b)];
    assert two[..1] == [Data(a)];
    assert [Data(a)][..0] == [];
    assert AppendEvents([], [Data(a)]) == [Data(a)];
    assert [Data(a + b)][..0] == [];
  }

  /** Emitting `d` body bytes early, before any possible boundary, only splits the data. */
  lemma BodyTrimmed(c: Config, m: Machine, begun: seq<Event>, d: nat)
    requires c.Valid() && d <= |m.buffer|
    requires forall k :: 0 <= k < d ==> !At(m.buffer, c.token, k)
    requires match Find(m.buffer, c.token)
      case Some(i) => d <= BodyDataEnd(m.buffer, i) && BodyDataEnd(m.buffer[d..], i - d) == BodyDataEnd(m.buffer, i) - d
      case None => |m.buffer| - d >= |c.token| + 1
    ensures Resumes(StepOpenBody(c, m, begun), begun + DataEvents(m.buffer[..d]),
      StepOpenBody(c, m.(buffer := m.buffer[d..]), []))
  {
    hide *;
    if Find(m.buffer, c.token).Some? {
      BodyTrimmedAtToken(c, m, begun, d, Find(m.buffer, c.token).value);
    } else {
      BodyTrimmedOpen(c, m, begun, d);
    }
  }

  lemma BodyTrimmedAtToken(c: Config, m: Machine, begun: seq<Event>, d: nat, i: nat)
    requires c.Valid() && d <= |m.buffer|
    requires forall k :: 0 <= k < d ==> !At(m.buffer, c.token, k)
    requires Find(m.buffer, c.token) == Some(i)
    requires d <= BodyDataEnd(m.buffer, i) && BodyDataEnd(m.buffer[d..], i - d) == BodyDataEnd(m.buffer, i) - d
    ensures Resumes(StepOpenBody(c, m, begun), begun + DataEvents(m.buffer[..d]),
      StepOpenBody(c, m.(buffer := m.buffer[d..]), []))
  {
    hide DelimiterSuffix, Enter, Find, AppendEvents, BodyDataEnd, DataEvents, Coalesce;
    FindDrop(m.buffer, c.token, d);
    var trimmed := m.(buffer := m.buffer[d..]);
    var early := m.buffer[..d];
    var tail := m.buffer[i + |c.token|..];
    var end := BodyDataEnd(m.buffer, i);
    assert trimmed.buffer[i - d + |c.token|..] == tail;
    assert trimmed.buffer[end - d..] == m.buffer[end..];
    var late := trimmed.buffer[..end - d];
    assert m.buffer[..end] == early + late;
    LateData(begun, early, late);
    if !DelimiterSuffix(tail).Incomplete? { EnterBuffer(m, trimmed.buffer, tail); }
  }

  lemma BodyTrimmedOpen(c: Config, m: Machine, begun: seq<Event>, d: nat)
    requires c.Valid() && d <= |m.buffer|
    requires Find(m.buffer, c.token).None? && |m.buffer| - d >= |c.token| + 1
    ensures Resumes(StepOpenBody(c, m, begun), begun + DataEvents(m.buffer[..d]),
      StepOpenBody(c, m.(buffer := m.buffer[d..]), []))
  {
    hide StepOpenBody, Find, AppendEvents, DataEvents, Coalesce;
    FindDrop(m.buffer, c.token, d);
    var n := |m.buffer| - |c.token| - 1;
    var trimmed := m.(buffer := m.buffer[d..]);
    var early := m.buffer[..d];
    var late := trimmed.buffer[..n - d];
    assert m.buffer[..n] == early + late;
    assert trimmed.buffer[n - d..] == m.buffer[n..];
    OpenBodyNoToken(c, m, begun);
    OpenBodyNoToken(c, trimmed, []);
    LateData(begun, early, late);
  }

  lemma OpenBodyNoToken(c: Config, m: Machine, begun: seq<Event>)
    requires c.Valid() && Find(m.buffer, c.token).None? && |m.buffer| >= |c.token| + 1
    ensures var n := |m.buffer| - |c.token| - 1;
      StepOpenBody(c, m, begun) == Wait(m.(buffer := m.buffer[n..]), begun + DataEvents(m.buffer[..n]))
  {
    hide Find;
    if |m.buffer| == |c.token| + 1 {
      assert m.buffer[0..] == m.buffer;
      assert begun + [] == begun;
    }
  }

  lemma LateData(begun: seq<Event>, early: Bytes, late: Bytes)
    ensures Same(begun + DataEvents(early + late) + [EndPart], (begun + DataEvents(early)) + ([] + DataEvents(late) + [EndPart]))
    ensures Same(begun + DataEvents(early + late), (begun + DataEvents(early)) + ([] + DataEvents(late)))
  {
    hide AppendEvents, DataEvents;
    DataEventsJoin(begun, early, late, [EndPart]);
    DataEventsJoin(begun, early, late, []);
    assert [] + DataEvents(late) == DataEvents(late) + [] == DataEvents(late);
    assert begun + DataEvents(early + late) + [] == begun + DataEvents(early + late);
  }

  /** The line break a waiting body keeps in front of a token is stripped to nothing. */
  lemma StrippedBreak(buffer: Bytes, i: nat)
    requires i <= |buffer|
    ensures var end := BodyDataEnd(buffer, i); BodyDataEnd(buffer[end..], i - end) == 0
  {
  }

  lemma BodyDataEndDrop(buffer: Bytes, d: nat, i: nat)
    requires d + 2 <= i <= |buffer|
    ensures BodyDataEnd(buffer[d..], i - d) == BodyDataEnd(buffer, i) - d
  {
  }

  lemma BodyDataEndAppend(buffer: Bytes, more: Bytes, i: nat)
    requires i <= |buffer|
    ensures BodyDataEnd(buffer + more, i) == BodyDataEnd(buffer, i)
  {
  }

  lemma OpenBodyExtendsAtToken(c: Config, m: Machine, begun: seq<Event>, more: Bytes)
    requires c.Valid() && m.state.Body? && !m.pending && Find(m.buffer, c.token).Some?
    ensures Extends(c, StepOpenBody(c, m, begun), StepOpenBody(c, Receive(m, more), begun), more)
  {
    hide DelimiterSuffix, Enter, Find, AppendEvents, BodyDataEnd, DataEvents, StepOnce;
    var big := Receive(m, more);
    var s := StepOpenBody(c, m, begun);
    FindAppend(m.buffer, more, c.token);
    var i := Find(m.buffer, c.token).value;
    var tail := m.buffer[i + |c.token|..];
    var end := BodyDataEnd(m.buffer, i);
    BodyDataEndAppend(m.buffer, more, i);
    assert big.buffer[i + |c.token|..] == tail + more;
    assert big.buffer[..end] == m.buffer[..end];
    if !DelimiterSuffix(tail).Incomplete? {
      EnterExtends(m, tail, more);
    } else if s.Wait? {
      StrippedBreak(big.buffer, i);
      BodyTrimmed(c, big, begun, end);
      OpenBodyResumes(c, s.machine, big, end, more);
    }
  }

  /** Without a token, all but the last bytes are emitted; no token starts among the emitted ones. */
  lemma OpenBodyExtendsLong(c: Config, m: Machine, begun: seq<Event>, more: Bytes)
    requires c.Valid() && m.state.Body? && !m.pending && Find(m.buffer, c.token).None? && |m.buffer| > |c.token| + 1
    ensures Extends(c, StepOpenBody(c, m, begun), StepOpenBody(c, Receive(m, more), begun), more)
  {
    hide DelimiterSuffix, Enter, Find, AppendEvents, Coalesce, BodyDataEnd, DataEvents, StepOnce, StepOpenBody;
    var big := Receive(m, more);
    var d := |m.buffer| - |c.token| - 1;
    FindAppend(m.buffer, more, c.token);
    forall k | 0 <= k < d ensures !At(big.buffer, c.token, k) {
      AtAppend(m.buffer, more, c.token, k);
    }
    var boundary := Find(big.buffer, c.token);
    if boundary.Some? { BodyDataEndDrop(big.buffer, d, boundary.value); }
    OpenBodyNoToken(c, m, begun);
    BodyTrimmed(c, big, begun, d);
    assert big.buffer[..d] == m.buffer[..d];
    OpenBodyResumes(c, m.(buffer := m.buffer[d..]), big, d, more);
  }

  lemma OpenBodyExtends(c: Config, m: Machine, begun: seq<Event>, more: Bytes)
    requires c.Valid() && m.state.Body? && !m.pending
    ensures Extends(c, StepOpenBody(c, m, begun), StepOpenBody(c, Receive(m, more), begun), more)
  {
    hide DelimiterSuffix, Enter, Find, AppendEvents, Coalesce, BodyDataEnd, DataEvents, StepOnce;
    if Find(m.buffer, c.token).Some? {
      OpenBodyExtendsAtToken(c, m, begun, more);
    } else if |m.buffer| > |c.token| + 1 {
      OpenBodyExtendsLong(c, m, begun, more);
    } else {
      OpenBodyBegun(c, Receive(m, more), begun);
      OpenBodyResumes(c, m, Receive(m, more), 0, more);
    }
  }

  lemma OpenBodyResumes(c: Config, next: Machine, big: Machine, d: nat, more: Bytes)
    requires d <= |big.buffer| && Receive(next, more).buffer == big.buffer[d..]
    requires Receive(next, more) == big.(buffer := Receive(next, more).buffer)
    requires big.state.Body? && !big.pending
    ensures StepOnce(c, Receive(next, more)) == StepOpenBody(c, big.(buffer := big.buffer[d..]), [])
  {
  }

  lemma OpenBodyBegun(c: Config, m: Machine, begun: seq<Event>)
    ensures Resumes(StepOpenBody(c, m, begun), begun, StepOpenBody(c, m, []))
  {
    hide DelimiterSuffix, Enter, Find, AppendEvents, BodyDataEnd, DataEvents;
    var token := Find(m.buffer, c.token);
    if token.Some? {
      var data := DataEvents(m.buffer[..BodyDataEnd(m.buffer, token.value)]);
      assert begun + data + [EndPart] == begun + ([] + data + [EndPart]);
      assert begun + data == begun + ([] + data);
    } else if |m.buffer| > |c.token| + 1 {
      var data := DataEvents(m.buffer[..|m.buffer| - |c.token| - 1]);
      assert begun + data == begun + ([] + data);
    } else {
      assert begun + [] == begun;
    }
  }

  lemma BodyExtends(c: Config, m: Machine, more: Bytes)
    requires c.Valid() && m.state.Body?
    ensures Extends(c, StepBody(c, m), StepBody(c, Receive(m, more)), more)
  {
    hide DelimiterSuffix, Enter, Find, AppendEvents, StepRawBoundary, StepOpenBody;
    var big := Receive(m, more);
    if !m.pending {
      OpenBodyExtends(c, m, [], more);
    } else if |m.buffer| < |c.token| && m.buffer <= c.token {
      ResumesSelf(StepBody(c, big));
    } else {
      var released := m.(headers := [], headerSize := 0, pending := false);
      if c.token <= m.buffer {
        var discard := released.(state := Discard);
        assert At(m.buffer, c.token, 0);
        RawBoundaryExtends(c, discard, 0, more);
        var s := StepRawBoundary(c, discard, 0);
        if s.Wait? {
          RawBoundaryState(c, discard, 0);
          var small := Receive(s.machine, more);
          FindAtStart(c, small.buffer);
          if Find(small.buffer, BLANK).Some? { TokenIsNotBreak(c, small.buffer, BLANK); }
          assert StepOnce(c, small) == StepRawBoundary(c, small, 0);
          ResumesSelf(StepBody(c, big));
        }
      } else {
        NotTokenExtends(c, m.buffer, more);
        OpenBodyExtends(c, released, [Begin(m.headers)], more);
      }
    }
  }

  lemma NotTokenExtends(c: Config, buffer: Bytes, more: Bytes)
    requires !(c.token <= buffer) && !(|buffer| < |c.token| && buffer <= c.token)
    ensures !(c.token <= buffer + more) && !(|buffer + more| < |c.token| && buffer + more <= c.token)
  {
  }

  // ----- every state, the loop and whole calls

  lemma StepExtends(c: Config, m: Machine, more: Bytes)
    requires c.Valid()
    ensures Extends(c, StepOnce(c, m), StepOnce(c, Receive(m, more)), more)
  {
    hide StepPreamble, StepHeader, StepBody, StepRawSegment, Extends;
    match m.state
    case Preamble => PreambleExtends(c, m, more);
    case Header => HeaderExtends(c, m, more);
    case Body => BodyExtends(c, m, more);
    case _ => RawSegmentExtends(c, m, more);
  }

  /** Both calls succeed or both fail with the same error; on success the machines are equal and
      the events agree once adjacent data is joined. */
  predicate Agrees(direct: Outcome, split: Outcome) {
    match direct
    case Done(m, e) => split.Done? && split.machine == m && Same(e, split.events)
    case Rejected(_, error) => split.Rejected? && split.error == error
  }

  lemma AgreesAfter(a: Outcome, b: Outcome, earlier: seq<Event>)
    requires Agrees(a, b)
    ensures Agrees(a.After(earlier), b.After(earlier))
  {
    if a.Done? { SamePrefix(earlier, a.events, b.events); }
  }

  lemma AfterTwice(o: Outcome, a: seq<Event>, b: seq<Event>)
    ensures o.After(b).After(a) == o.After(a + b)
  {
    if o.Done? { assert a + (b + o.events) == (a + b) + o.events; }
  }

  lemma {:induction false} RunExtends(c: Config, m: Machine, more: Bytes)
    requires c.Valid()
    ensures var first := Run(c, m);
      first.Done? ==> Agrees(Run(c, Receive(m, more)), Run(c, Receive(first.machine, more)).After(first.events))
    decreases Measure(m)
  {
    hide StepOnce, AppendEvents, Measure;
    StepDecreases(c, m);
    StepExtends(c, m, more);
    match StepOnce(c, m)
    case Progress(next, e) =>
      RunExtends(c, next, more);
      var first := Run(c, next);
      if first.Done? {
        var second := Run(c, Receive(first.machine, more));
        AgreesAfter(Run(c, Receive(next, more)), second.After(first.events), e);
        AfterTwice(second, e, first.events);
      }
    case Wait(next, e) =>
      StepResumes(c, Receive(m, more), e, Receive(next, more));
    case Reject(_, _) =>
  }

  lemma StepResumes(c: Config, direct: Machine, e: seq<Event>, second: Machine)
    requires c.Valid() && Resumes(StepOnce(c, direct), e, StepOnce(c, second))
    ensures Agrees(Run(c, direct), Run(c, second).After(e))
  {
    hide StepOnce, AppendEvents, Measure;
    match StepOnce(c, direct)
    case Progress(next, e1) =>
      var tail := Run(c, next);
      var e2 := StepOnce(c, second).events;
      AfterTwice(tail, e, e2);
      if tail.Done? { SameConcat(e1, e + e2, tail.events, tail.events); }
    case Wait(next, e1) =>
    case Reject(_, _) =>
  }

  /** Chunk invariance: after a first chunk that was accepted, the second chunk ends in the same
      machine, the same events and the same error as both chunks fed at once. */
  lemma FeedSplit(c: Config, m: Machine, a: Bytes, b: Bytes)
    requires c.Valid()
    ensures var first := Feed(c, m, a);
      first.Done? ==> Agrees(Feed(c, m, a + b), Feed(c, first.machine, b).After(first.events))
  {
    hide Run, AppendEvents;
    var first := Feed(c, m, a);
    if first.Done? {
      RunKeeps(c, Receive(m, a));
      RunExtends(c, Receive(m, a), b);
      assert m.buffer + (a + b) == (m.buffer + a) + b;
      assert Receive(Receive(m, a), b) == Receive(m, a + b);
    }
  }

  /** The fields that no handler touches. */
  predicate Keeps(m: Machine, next: Machine) { next.size == m.size && next.eof == m.eof }

  lemma RawBoundaryKeeps(c: Config, m: Machine, i: nat)
    requires At(m.buffer, c.token, i)
    ensures Keeps(m, StepRawBoundary(c, m, i).machine)
  {
    hide DelimiterSuffix;
  }

  lemma OpenBodyKeeps(c: Config, m: Machine, begun: seq<Event>)
    ensures Keeps(m, StepOpenBody(c, m, begun).machine)
  {
    hide DelimiterSuffix, Find, BodyDataEnd, DataEvents;
  }

  lemma PreambleKeeps(c: Config, m: Machine)
    ensures Keeps(m, StepPreamble(c, m).machine)
  {
    hide DelimiterSuffix, Find;
  }

  lemma StepKeeps(c: Config, m: Machine)
    requires c.Valid()
    ensures Keeps(m, StepOnce(c, m).machine)
  {
    hide Find, DelimiterSuffix, LineHeader, StepRawBoundary, StepOpenBody, HeaderRetained, StepPreamble;
    var boundary := Find(m.buffer, c.token);
    match m.state
    case Preamble => PreambleKeeps(c, m);
    case Header =>
      if boundary.Some? { RawBoundaryKeeps(c, m.(headers := [], headerSize := 0), boundary.value); }
    case Body =>
      var released := m.(headers := [], headerSize := 0, pending := false);
      if c.token <= m.buffer {
        assert At(m.buffer, c.token, 0);
        RawBoundaryKeeps(c, released.(state := Discard), 0);
      }
      OpenBodyKeeps(c, released, [Begin(m.headers)]);
      OpenBodyKeeps(c, m, []);
    case _ =>
      if boundary.Some? { RawBoundaryKeeps(c, m, boundary.value); }
  }

  lemma {:induction false} RunKeeps(c: Config, m: Machine)
    requires c.Valid()
    ensures Keeps(m, Run(c, m).machine)
    decreases Measure(m)
  {
    hide StepOnce, Measure;
    StepDecreases(c, m);
    StepKeeps(c, m);
    if StepOnce(c, m).Progress? { RunKeeps(c, StepOnce(c, m).machine); }
  }

  // ----- any number of chunks

  lemma {:induction false} FeedAllSnoc(c: Config, m: Machine, chunks: seq<Bytes>, last: Bytes)
    requires c.Valid()
    ensures var first := FeedAll(c, m, chunks);
      FeedAll(c, m, chunks + [last]) == if first.Done? then Feed(c, first.machine, last).After(first.events) else first
    decreases |chunks|
  {
    hide Feed;
    if chunks == [] {
      var o := Feed(c, m, last);
      assert ([last])[1..] == [] && [] + [last] == [last];
      if o.Done? { assert o.events + [] == o.events && [] + o.events == o.events; }
    } else {
      var o := Feed(c, m, chunks[0]);
      assert (chunks + [last])[1..] == chunks[1..] + [last];
      if o.Done? {
        FeedAllSnoc(c, o.machine, chunks[1..], last);
        var rest := FeedAll(c, o.machine, chunks[1..]);
        if rest.Done? { AfterTwice(Feed(c, rest.machine, last), o.events, rest.events); }
      }
    }
  }

  lemma FreshFeedsNothing(c: Config)
    requires c.Valid()
    ensures Feed(c, FRESH, []) == Done(FRESH, [])
  {
    assert FRESH.buffer + [] == [];
    assert Receive(FRESH, []) == FRESH;
    FindNone([], c.token);
  }

  /** The last of several chunks, the earlier ones having been accepted, ends as one big chunk does:
      same machine and same events, or the same error. */
  lemma {:induction false} OneShot(c: Config, chunks: seq<Bytes>)
    requires c.Valid()
    requires chunks == [] || FeedAll(c, FRESH, chunks[..|chunks| - 1]).Done?
    ensures Agrees(Feed(c, FRESH, Concat(chunks)), FeedAll(c, FRESH, chunks))
    decreases |chunks|
  {
    hide Feed, AppendEvents;
    if chunks == [] {
      FreshFeedsNothing(c);
    } else {
      var n := |chunks| - 1;
      var front, last := chunks[..n], chunks[n];
      assert chunks == front + [last];
      FeedAllSnoc(c, FRESH, front, last);
      if front != [] { FrontAccepted(c, front); }
      OneShot(c, front);
      OneMore(c, front, last);
    }
  }

  lemma FrontAccepted(c: Config, chunks: seq<Bytes>)
    requires c.Valid() && chunks != [] && FeedAll(c, FRESH, chunks).Done?
    ensures FeedAll(c, FRESH, chunks[..|chunks| - 1]).Done?
  {
    hide Feed, FeedAll;
    var n := |chunks| - 1;
    assert chunks == chunks[..n] + [chunks[n]];
    FeedAllSnoc(c, FRESH, chunks[..n], chunks[n]);
  }

  lemma OneMore(c: Config, front: seq<Bytes>, last: Bytes)
    requires c.Valid() && FeedAll(c, FRESH, front).Done?
    requires Agrees(Feed(c, FRESH, Concat(front)), FeedAll(c, FRESH, front))
    ensures Agrees(Feed(c, FRESH, Concat(front) + last), FeedAll(c, FRESH, front + [last]))
  {
    hide Feed, FeedAll, AppendEvents, Concat;
    FeedAllSnoc(c, FRESH, front, last);
    var split, whole := FeedAll(c, FRESH, front), Feed(c, FRESH, Concat(front));
    FeedSplit(c, FRESH, Concat(front), last);
    AgreesChange(Feed(c, whole.machine, last), whole.events, split.events);
  }

  lemma AgreesChange(o: Outcome, a: seq<Event>, b: seq<Event>)
    requires Same(a, b)
    ensures Agrees(o.After(a), o.After(b))
  {
    hide AppendEvents;
    if o.Done? { SameConcat(a, b, o.events, o.events); }
  }

  /** A chunking is accepted exactly when every prefix that ends at a chunk boundary is accepted in
      one call. Cutting finer can therefore only reject more. */
  lemma {:induction false} AcceptedIffPrefixes(c: Config, chunks: seq<Bytes>)
    requires c.Valid()
    ensures FeedAll(c, FRESH, chunks).Done?
      <==> forall k :: 0 <= k <= |chunks| ==> Feed(c, FRESH, Concat(chunks[..k])).Done?
    decreases |chunks|
  {
    hide Feed, AppendEvents, Concat;
    assert chunks[..|chunks|] == chunks;
    if chunks == [] {
      OneShot(c, chunks);
    } else {
      var n := |chunks| - 1;
      var front := chunks[..n];
      assert chunks == front + [chunks[n]];
      AcceptedIffPrefixes(c, front);
      FeedAllSnoc(c, FRESH, front, chunks[n]);
      assert forall k :: 0 <= k <= n ==> front[..k] == chunks[..k];
      if FeedAll(c, FRESH, front).Done? { OneShot(c, chunks); }
    }
  }

  /** What is rejected in one call is rejected however it is cut. */
  lemma OneShotRejectionIsFinal(c: Config, chunks: seq<Bytes>)
    requires c.Valid() && Feed(c, FRESH, Concat(chunks)).Rejected?
    ensures FeedAll(c, FRESH, chunks).Rejected?
  {
    hide Feed, Concat;
    AcceptedIffPrefixes(c, chunks);
    assert chunks[..|chunks|] == chunks;
  }
}
