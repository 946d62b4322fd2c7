/** When a rejection is final: more input can take back exactly the rejections that are not due to a
    header block. */
module Rejection {
  import opened Bytes
  import opened Machines
  import opened Chunking
  import opened Segments
  import opened Refinement
  import opened Verdicts
  import opened Messages

  // ----- rejections in the Header state

  /** Whatever arrives later, a line break or token that closes the current header line starts at
      or after the bytes already charged to it. */
  lemma UnclaimedStays(c: Config, buffer: Bytes, more: Bytes)
    requires c.Valid() && Find(buffer, c.token).None? && Find(buffer, CRLF).None?
    ensures var unclaimed := |buffer| - HeaderRetained(c, buffer);
      var big := buffer + more;
      && (Find(big, c.token).Some? ==> Find(big, c.token).value >= unclaimed)
      && (Find(big, CRLF).Some? ==> Find(big, CRLF).value >= unclaimed)
      && |big| - HeaderRetained(c, big) >= unclaimed
  {
    hide Find, PartialSuffixLength;
    var big := buffer + more;
    FindAppend(buffer, more, c.token);
    FindAppend(buffer, more, CRLF);
    if Find(big, c.token).Some? { TokenInEnd(c, buffer, more, Find(big, c.token).value); }
    if Find(big, CRLF).Some? {
      var j := Find(big, CRLF).value;
      AtByte(big, CRLF, j, 0);
      BreakAtEnd(c, buffer, more, j);
    }
    RetainedAtEnd(c, buffer, more);
  }

  /** No byte is spared for nothing: there is more input with which a line break or token starts right
      behind the charged bytes. */
  lemma RetainedTight(c: Config, buffer: Bytes) returns (more: Bytes)
    requires c.Valid() && Find(buffer, c.token).None? && Find(buffer, CRLF).None?
    ensures var unclaimed := |buffer| - HeaderRetained(c, buffer);
      Find(buffer + more, c.token) == Some(unclaimed) || Find(buffer + more, CRLF) == Some(unclaimed)
  {
    hide Find, PartialSuffixLength;
    var i := |buffer| - HeaderRetained(c, buffer);
    if buffer != [] && buffer[|buffer| - 1] == CR {
      more := [LF];
      UnclaimedStays(c, buffer, more);
      hide HeaderRetained;
      assert (buffer + more)[i..i + 2] == CRLF;
      FirstHere(buffer + more, CRLF, i);
    } else {
      var r := PartialSuffixLength(buffer, c.token);
      PartialSuffixIs(c, buffer);
      more := c.token[r..];
      UnclaimedStays(c, buffer, more);
      hide HeaderRetained;
      TokenCompleted(buffer, c.token, r);
      FirstHere(buffer + more, c.token, i);
    }
  }

  lemma TokenCompleted(buffer: Bytes, token: Bytes, r: nat)
    requires r <= |buffer| && r <= |token| && buffer[|buffer| - r..] <= token
    ensures At(buffer + token[r..], token, |buffer| - r)
  {
    var i := |buffer| - r;
    assert buffer[i..] == token[..r];
    assert (buffer + token[r..])[i..] == buffer[i..] + token[r..];
  }

  /** An occurrence that nothing precedes. */
  lemma FirstHere(s: Bytes, t: Bytes, i: nat)
    requires At(s, t, i) && (Find(s, t).Some? ==> Find(s, t).value >= i)
    ensures Find(s, t) == Some(i)
  {
  }

  lemma TokenInEnd(c: Config, buffer: Bytes, more: Bytes, i: nat)
    requires c.Valid() && At(buffer + more, c.token, i) && i + |c.token| > |buffer|
    ensures i >= |buffer| - HeaderRetained(c, buffer)
  {
    hide PartialSuffixLength;
    if i < |buffer| {
      var n := |buffer| - i;
      assert buffer[i..] == (buffer + more)[i..i + |c.token|][..n] == c.token[..n];
      SuffixRetained(c, buffer, n);
    }
  }

  lemma SuffixRetained(c: Config, buffer: Bytes, n: nat)
    requires c.Valid() && EndsWithPrefix(buffer, c.token, n)
    ensures n <= HeaderRetained(c, buffer)
  {
    var end := buffer[|buffer| - n..];
    assert end[n - 1] == buffer[|buffer| - 1] && end[n - 1] == c.token[n - 1];
    assert c.token[n - 1] in c.token;
  }

  lemma BreakAtEnd(c: Config, buffer: Bytes, more: Bytes, j: nat)
    requires c.Valid() && j + 2 <= |buffer + more| && j + 2 > |buffer| && (buffer + more)[j] == CR
    ensures j >= |buffer| - HeaderRetained(c, buffer)
  {
    hide PartialSuffixLength;
  }

  lemma RetainedAtEnd(c: Config, buffer: Bytes, more: Bytes)
    requires c.Valid()
    ensures |buffer + more| - HeaderRetained(c, buffer + more) >= |buffer| - HeaderRetained(c, buffer)
  {
    hide PartialSuffixLength;
    var big := buffer + more;
    var r := HeaderRetained(c, big);
    if more == [] {
      assert big == buffer;
    } else if r > |more| && big[|big| - 1] != CR {
      var n := r - |more|;
      assert EndsWithPrefix(big, c.token, r) by { PartialSuffixIs(c, big); }
      assert buffer[|buffer| - n..] == big[|big| - r..][..n] == c.token[..n];
      SuffixRetained(c, buffer, n);
    }
  }

  lemma PartialSuffixIs(c: Config, buffer: Bytes)
    ensures var r := PartialSuffixLength(buffer, c.token); r == 0 || EndsWithPrefix(buffer, c.token, r)
  {
  }

  /** A header line or block that is too long stays too long. */
  lemma HeaderRejectionIsFinal(c: Config, m: Machine, more: Bytes)
    requires c.Valid() && m.state.Header? && StepHeader(c, m).Reject?
    ensures StepHeader(c, Receive(m, more)).Reject?
  {
    hide Find, StepRawBoundary, LineHeader, HeaderRetained;
    var big := Receive(m, more);
    var boundary, line := Find(m.buffer, c.token), Find(m.buffer, CRLF);
    FindAppend(m.buffer, more, c.token);
    FindAppend(m.buffer, more, CRLF);
    if boundary.Some? && (line.None? || boundary.value < line.value) {
      RawBoundaryState(c, m.(headers := [], headerSize := 0), boundary.value);
    } else if line.Some? {
      if boundary.None? && Find(big.buffer, c.token).Some? { TokenAfterBreak(c, m.buffer, more, CRLF); }
      assert big.buffer[..line.value] == m.buffer[..line.value];
    } else {
      UnclaimedStays(c, m.buffer, more);
    }
  }

  lemma {:induction false} RunRejectionIsFinal(c: Config, m: Machine, more: Bytes)
    requires c.Valid() && Run(c, m).Rejected? && Run(c, m).machine.state.Header?
    ensures Run(c, Receive(m, more)).Rejected?
    decreases Measure(m)
  {
    hide StepOnce, Measure, StepHeader;
    StepDecreases(c, m);
    StepExtends(c, m, more);
    var s := StepOnce(c, m);
    if s.Progress? {
      RunRejectionIsFinal(c, s.machine, more);
    } else {
      RejectState(c, m);
      HeaderStep(c, m);
      HeaderStep(c, Receive(m, more));
      HeaderRejectionIsFinal(c, m, more);
    }
  }

  lemma HeaderStep(c: Config, m: Machine)
    requires m.state.Header?
    ensures StepOnce(c, m) == StepHeader(c, m)
  {
  }

  lemma RejectState(c: Config, m: Machine)
    requires c.Valid()
    ensures var s := StepOnce(c, m); s.Reject? ==> s.machine.state == m.state && HeaderLimit(s.error)
  {
    hide Find, DelimiterSuffix, StepRawBoundary, LineHeader, HeaderRetained, BodyDataEnd, DataEvents, StepOpenBody;
    var boundary := Find(m.buffer, c.token);
    match m.state
    case Preamble =>
    case Header => if boundary.Some? { RawBoundaryState(c, m.(headers := [], headerSize := 0), boundary.value); }
    case Body =>
      var released := m.(headers := [], headerSize := 0, pending := false);
      if c.token <= m.buffer {
        assert At(m.buffer, c.token, 0);
        RawBoundaryState(c, released.(state := Discard), 0);
      }
      OpenBodyReject(c, released, [Begin(m.headers)]);
      OpenBodyReject(c, m, []);
    case _ => if boundary.Some? { RawBoundaryState(c, m, boundary.value); }
  }

  lemma OpenBodyReject(c: Config, m: Machine, begun: seq<Event>)
    ensures var s := StepOpenBody(c, m, begun); s.Reject? ==> s == Reject(m, HeaderTotal)
  {
    hide Find, DelimiterSuffix, BodyDataEnd, DataEvents;
  }

  // ----- the last piece of a stream

  lemma {:induction false} CutAppend(c: Config, s: Bytes, more: Bytes)
    requires c.Valid()
    ensures var pieces := Cut(s, c.token);
      var n := |pieces| - 1;
      && Find(pieces[n], c.token).None?
      && Cut(s + more, c.token) == pieces[..n] + Cut(pieces[n] + more, c.token)
    decreases |s|
  {
    hide Find, Cut;
    FindAppend(s, more, c.token);
    match Find(s, c.token)
    case None =>
      CutNone(c, s);
      assert [s][..0] == [] && [] + Cut(s + more, c.token) == Cut(s + more, c.token);
    case Some(i) =>
      var tail := s[i + |c.token|..];
      CutAppend(c, tail, more);
      CutAt(c, s, i);
      CutAt(c, s + more, i);
      assert (s + more)[i + |c.token|..] == tail + more && (s + more)[..i] == s[..i];
      var pieces, later := Cut(s, c.token), Cut(tail, c.token);
      assert pieces == [s[..i]] + later;
      assert pieces[..|pieces| - 1] == [s[..i]] + later[..|later| - 1];
  }

  /** Pieces that are closed by a token. */
  predicate FrontFits(c: Config, front: seq<Bytes>) {
    forall k :: 0 <= k < |front| ==> PieceFits(c, ForFeeding, front[k], false)
  }

  function BeforeLast(before: Before, front: seq<Bytes>): Before {
    if front == [] then before else BeforeToken(front[|front| - 1])
  }

  lemma {:induction false} LimitsSplit(c: Config, d: Demand, before: Before, front: seq<Bytes>, rest: seq<Bytes>)
    requires rest != [] && !d.ForEnding?
    ensures LimitsFit(c, d, before, front + rest) <==>
      FrontFits(c, front) && LimitsFit(c, d, BeforeLast(before, front), rest)
    decreases |front|
  {
    hide RoomFor, RestCost, RestRetained, Undecided, BeforeToken;
    if front == [] {
      assert front + rest == rest;
    } else {
      var pieces := front + rest;
      assert pieces[0] == front[0] && pieces[1..] == front[1..] + rest;
      LimitsSplit(c, d, BeforeToken(front[0]), front[1..], rest);
      assert forall k :: 1 <= k < |front| ==> front[k] == front[1..][k - 1];
    }
  }

  /** A last piece that is refused, but not for its header block, is longer than the total limit and
      is no header block. */
  lemma RefusedTail(c: Config, before: Before, p: Bytes)
    requires LimitsFit(c, ForHeaders, before, [p]) && !LimitsFit(c, ForFeeding, before, [p])
    ensures !Fits(c, |p|) && !Opened(p) && Find(p, BLANK).None?
    ensures Undecided(p) ==> (before.LineBreak? || before.BodyText?) && !([DASH] <= p)
  {
    hide Find, RoomFor, RestCost, RestRetained;
    var one := [p];
    assert one[0] == p && |one| == 1;
    if Undecided(p) {
      UndecidedIsPlain(p);
      if Opened(p) { BoundaryLineOpens(p, p); UndecidedIff(p); }
    }
  }

  lemma UndecidedIsPlain(p: Bytes)
    requires Undecided(p)
    ensures Find(p, BLANK).None?
  {
    hide Find;
    if Find(p, BLANK).Some? {
      var k := Find(p, BLANK).value;
      AtByte(p, BLANK, k, 1);
      LateByte(p, k + 1);
    }
  }

  // ----- the shortest input that takes a rejection back

  /** What completes a token at the end of `p`. */
  function Completion(c: Config, p: Bytes): Bytes
    requires c.Valid()
  {
    PartialIs(c, p);
    c.token[PartialSuffixLength(p, c.token)..]
  }

  lemma CutClosed(c: Config, v: Bytes, n: nat)
    requires c.Valid() && Find(v, c.token) == Some(n) && |v| == n + |c.token|
    ensures Cut(v, c.token) == [v[..n], []]
  {
    hide Find, Cut;
    CutAt(c, v, n);
    NothingHasNoToken(c);
    CutNone(c, []);
    assert v[n + |c.token|..] == [];
  }

  lemma CompletesToken(c: Config, p: Bytes)
    requires c.Valid() && Find(p, c.token).None?
    ensures var n := |p| - PartialSuffixLength(p, c.token);
      Cut(p + Completion(c, p), c.token) == [p[..n], []]
  {
    hide *;
    CompletedAt(c, p);
    var n := |p| - PartialSuffixLength(p, c.token);
    var v := p + Completion(c, p);
    CutClosed(c, v, n);
    assert v[..n] == p[..n];
  }

  lemma CompletedAt(c: Config, p: Bytes)
    requires c.Valid() && Find(p, c.token).None?
    ensures Find(p + Completion(c, p), c.token) == Some(|p| - PartialSuffixLength(p, c.token))
    ensures |p + Completion(c, p)| == |p| - PartialSuffixLength(p, c.token) + |c.token|
  {
    hide Find, PartialSuffixLength;
    PartialIs(c, p);
    var r := PartialSuffixLength(p, c.token);
    var n := |p| - r;
    var v := p + Completion(c, p);
    assert p[n..] == c.token[..r];
    assert v == p[..n] + c.token;
    forall k | 0 <= k < n ensures !At(v, c.token, k) {
      if At(v, c.token, k) { TokenNearEnd(c, p, Completion(c, p), k); }
    }
    assert v[n..n + |c.token|] == c.token;
    FindIs(v, c.token, n);
  }

  /** A token that is only complete with `more` starts in the end of `p` that could grow into one. */
  lemma TokenNearEnd(c: Config, p: Bytes, more: Bytes, k: nat)
    requires c.Valid() && Find(p, c.token).None? && At(p + more, c.token, k)
    ensures k >= |p| - PartialSuffixLength(p, c.token)
  {
    hide Find, PartialSuffixLength;
    PartialIs(c, p);
    if k + |c.token| <= |p| {
      AtAppend(p, more, c.token, k);
    } else if k < |p| {
      var n := |p| - k;
      assert p[k..] == (p + more)[k..k + |c.token|][..n] == c.token[..n];
      assert EndsWithPrefix(p, c.token, n);
    }
  }

  lemma TooShortForToken(c: Config, p: Bytes, more: Bytes)
    requires c.Valid() && Find(p, c.token).None? && |more| < |Completion(c, p)|
    ensures Cut(p + more, c.token) == [p + more]
  {
    hide Find, PartialSuffixLength;
    forall k: nat | At(p + more, c.token, k) ensures false { TokenNearEnd(c, p, more, k); }
    FindNone(p + more, c.token);
    CutNone(c, p + more);
  }

  /** Closed by a token, text that is no header block is not charged. */
  lemma CompletionFits(c: Config, before: Before, p: Bytes)
    requires c.Valid() && Find(p, c.token).None? && !Opened(p) && Find(p, BLANK).None?
    ensures LimitsFit(c, ForFeeding, before, Cut(p + Completion(c, p), c.token))
  {
    hide Find, Cut, PartialSuffixLength, Completion;
    PartialIs(c, p);
    CompletesToken(c, p);
    var x := p[..|p| - PartialSuffixLength(p, c.token)];
    if Opened(x) { StillOpened(x, p); }
    FindAppend(x, p[|x|..], BLANK);
    assert x + p[|x|..] == p;
    PlainThenToken(c, ForFeeding, before, x);
  }

  /** Text that is no header block, between two tokens at the end of a stream. */
  lemma PlainThenToken(c: Config, d: Demand, before: Before, x: Bytes)
    requires !Opened(x) && Find(x, BLANK).None?
    ensures LimitsFit(c, d, before, [x, []])
  {
    hide Find;
    var pieces := [x, []];
    assert pieces[1..] == [[]];
    assert Undecided([]);
  }

  lemma StillOpened(x: Bytes, p: Bytes)
    requires x <= p && Opened(x)
    ensures Opened(p) && PaddingLength(p) == PaddingLength(x)
  {
    var n := PaddingLength(x);
    assert x[n..][0] == CR && x[n..][1] == LF;
    assert p[n] == CR && p[..n] == x[..n];
    assert forall k :: 0 <= k < n ==> p[..n][k] == x[k];
    PaddingStops(p, n);
    assert p[n..][..2] == CRLF;
  }

  /** A refused tail stays refused until a token is complete. */
  lemma StillRefused(c: Config, before: Before, p: Bytes, more: Bytes)
    requires c.Valid() && Find(p, c.token).None? && |more| < |Completion(c, p)|
    requires LimitsFit(c, ForHeaders, before, [p]) && !LimitsFit(c, ForFeeding, before, [p])
    ensures !LimitsFit(c, ForFeeding, before, Cut(p + more, c.token))
  {
    hide Find, Cut, Completion, LimitsFit, PieceFits, TailFits, Opened, Undecided;
    RefusedTail(c, before, p);
    TooShortForToken(c, p, more);
    var v := p + more;
    FindAppend(p, more, BLANK);
    if Undecided(v) {
      UndecidedPrefix(p, more);
      RefusedUndecided(c, before, v);
    } else {
      RefusedPiece(c, p, more);
      RefusedDecided(c, before, v);
    }
  }

  lemma UndecidedPrefix(p: Bytes, more: Bytes)
    requires Undecided(p + more)
    ensures Undecided(p)
  {
    hide Undecided;
    UndecidedIff(p);
    UndecidedIff(p + more);
    if !DelimiterSuffix(p).Incomplete? { SuffixStable(p, more); }
  }

  lemma RefusedUndecided(c: Config, before: Before, v: Bytes)
    requires Undecided(v) && (before.LineBreak? || before.BodyText?) && !([DASH] <= v) && !Fits(c, |v|)
    ensures !LimitsFit(c, ForFeeding, before, [v])
  {
    hide Undecided;
  }

  lemma RefusedDecided(c: Config, before: Before, v: Bytes)
    requires !Undecided(v) && !PieceFits(c, ForFeeding, v, true)
    ensures !LimitsFit(c, ForFeeding, before, [v])
  {
    hide Undecided, PieceFits;
  }

  lemma RefusedPiece(c: Config, p: Bytes, more: Bytes)
    requires !Fits(c, |p|) && !Opened(p) && Find(p, BLANK).None?
    ensures !PieceFits(c, ForFeeding, p + more, true)
  {
    hide Find, RoomFor, HeaderRetained;
    var v := p + more;
    var n := PaddingLength(v);
    if Opened(v) {
      if n + 2 <= |p| { OpenedPrefix(p, v); }
    } else if Find(v, BLANK).Some? {
      FindAppend(p, more, BLANK);
      BreakOpens(v);
      CostAsBlock(v);
    }
  }

  lemma OpenedPrefix(p: Bytes, v: Bytes)
    requires p <= v && Opened(v) && PaddingLength(v) + 2 <= |p|
    ensures Opened(p)
  {
    var n := PaddingLength(v);
    assert v[n..][0] == CR && v[n..][1] == LF;
    assert p[n] == CR && p[n + 1] == LF && p[..n] == v[..n];
    assert forall k :: 0 <= k < n ==> p[..n][k] == v[k];
    PaddingStops(p, n);
    assert p[n..][..2] == CRLF;
  }

  lemma BreakOpens(v: Bytes)
    ensures CRLF <= v ==> Opened(v)
  {
    if CRLF <= v {
      assert v[0] == CR && v[..0] == [];
      PaddingStops(v, 0);
    }
  }

  // ----- main results

  function LastPiece(c: Config, s: Bytes): Bytes
    requires c.Valid()
  {
    var pieces := Cut(s, c.token);
    pieces[|pieces| - 1]
  }

  /** The bytes that take back a rejection of `s`, if any do. */
  function Recovery(c: Config, s: Bytes): Bytes
    requires c.Valid()
  {
    Completion(c, LastPiece(c, s))
  }

  /** Refused, but not for a header block: only the last piece is too long. */
  lemma RefusedAtEnd(c: Config, s: Bytes)
    requires c.Valid() && StreamFits(c, ForHeaders, s) && !StreamFits(c, ForFeeding, s)
    ensures var pieces := Cut(s, c.token);
      var n := |pieces| - 1;
      var front := pieces[1..n];
      var before := BeforeLast(LineBreak, front);
      && |pieces| > 1 && FrontFits(c, front)
      && LimitsFit(c, ForHeaders, before, [pieces[n]]) && !LimitsFit(c, ForFeeding, before, [pieces[n]])
  {
    hide Find, Cut, LimitsFit, FrontFits;
    var pieces := Cut(s, c.token);
    var n := |pieces| - 1;
    assert pieces[1..] == pieces[1..n] + [pieces[n]];
    LimitsSplit(c, ForHeaders, LineBreak, pieces[1..n], [pieces[n]]);
    LimitsSplit(c, ForFeeding, LineBreak, pieces[1..n], [pieces[n]]);
  }

  /** The longer stream fits exactly if what its last piece has become does. */
  lemma LongerFitsIff(c: Config, s: Bytes, more: Bytes)
    requires c.Valid() && StreamFits(c, ForHeaders, s) && !StreamFits(c, ForFeeding, s)
    ensures var front := Cut(s, c.token)[1..|Cut(s, c.token)| - 1];
      StreamFits(c, ForFeeding, s + more) <==>
        LimitsFit(c, ForFeeding, BeforeLast(LineBreak, front), Cut(LastPiece(c, s) + more, c.token))
  {
    hide Find, Cut, LimitsFit, FrontFits;
    RefusedAtEnd(c, s);
    CutAppend(c, s, more);
    var pieces := Cut(s, c.token);
    var n := |pieces| - 1;
    var later := Cut(pieces[n] + more, c.token);
    assert Cut(s + more, c.token)[1..] == pieces[1..n] + later;
    LimitsSplit(c, ForFeeding, LineBreak, pieces[1..n], later);
  }

  /** A rejected stream is rejected with all bytes that may follow it exactly if one of its header
      blocks is, or if the bytes that complete a token no longer fit the size limit; nothing shorter
      than these bytes takes the rejection back. */
  lemma StreamFinalIff(c: Config, s: Bytes)
    requires c.Valid() && !FitsExactly(c, s)
    ensures (forall more :: !FitsExactly(c, s + more)) <==>
      (!StreamFits(c, ForHeaders, s) || !SizeFits(c, |s| + |Recovery(c, s)|))
    ensures StreamFits(c, ForHeaders, s) && SizeFits(c, |s| + |Recovery(c, s)|) ==> FitsExactly(c, s + Recovery(c, s))
    ensures forall more :: |more| < |Recovery(c, s)| ==> !FitsExactly(c, s + more)
  {
    hide Find, Cut, LimitsFit, StreamFits, Completion;
    if !StreamFits(c, ForHeaders, s) {
      forall more ensures !FitsExactly(c, s + more) { HeadersStayRefused(c, s, more); }
    } else if SizeFits(c, |s|) {
      RefusedAtEnd(c, s);
      var p := LastPiece(c, s);
      var before := BeforeLast(LineBreak, Cut(s, c.token)[1..|Cut(s, c.token)| - 1]);
      CutAppend(c, s, []);
      RefusedTail(c, before, p);
      CompletionFits(c, before, p);
      LongerFitsIff(c, s, Recovery(c, s));
      forall more ensures |more| < |Recovery(c, s)| ==> !FitsExactly(c, s + more) {
        LongerFitsIff(c, s, more);
        if |more| < |Recovery(c, s)| { StillRefused(c, before, p, more); }
      }
    }
  }

  lemma HeadersStayRefused(c: Config, s: Bytes, more: Bytes)
    requires c.Valid() && !StreamFits(c, ForHeaders, s)
    ensures !FitsExactly(c, s + more)
  {
    hide Run, StreamFits;
    FreshRun(c, ForHeaders, s);
    FreshRun(c, ForFeeding, s + more);
    RunRejectionIsFinal(c, Receive(FRESH, s), more);
    assert [] + (s + more) == ([] + s) + more;
    assert Receive(Receive(FRESH, s), more) == Receive(FRESH, s + more);
  }

  /** A rejected call, after any accepted chunks, is rejected for every longer input exactly if a
      header block of the stream is refused, or if the size limit leaves no room to complete a token;
      otherwise the bytes that complete it, and nothing shorter, make the longer call succeed. */
  lemma RejectionFinalIff(c: Config, chunks: seq<Bytes>, a: Bytes)
    requires c.Valid() && FeedAll(c, FRESH, chunks).Done?
    requires Feed(c, FeedAll(c, FRESH, chunks).machine, a).Rejected?
    ensures var m, s := FeedAll(c, FRESH, chunks).machine, Concat(chunks) + a;
      && ((forall more :: Feed(c, m, a + more).Rejected?) <==>
        (!StreamFits(c, ForHeaders, s) || !SizeFits(c, |s| + |Recovery(c, s)|)))
      && (StreamFits(c, ForHeaders, s) && SizeFits(c, |s| + |Recovery(c, s)|) ==> Feed(c, m, a + Recovery(c, s)).Done?)
      && (forall more :: |more| < |Recovery(c, s)| ==> Feed(c, m, a + more).Rejected?)
  {
    hide Feed, FeedAll, Concat, FitsExactly, StreamFits, Recovery;
    var m, s := FeedAll(c, FRESH, chunks).machine, Concat(chunks) + a;
    assert a + [] == a && s + [] == s;
    forall more ensures Feed(c, m, a + more).Done? <==> FitsExactly(c, s + more) {
      LastCallIff(c, chunks, a + more);
      assert Concat(chunks) + (a + more) == s + more;
    }
    assert Feed(c, m, a + []).Rejected?;
    StreamFinalIff(c, s);
  }

  /** The verdict of a call after accepted chunks is the one of the whole stream. */
  lemma LastCallIff(c: Config, chunks: seq<Bytes>, a: Bytes)
    requires c.Valid() && FeedAll(c, FRESH, chunks).Done?
    ensures Feed(c, FeedAll(c, FRESH, chunks).machine, a).Done? <==> FitsExactly(c, Concat(chunks) + a)
  {
    hide Feed, FeedAll, Concat, FitsExactly;
    if chunks != [] { FrontAccepted(c, chunks); }
    OneShot(c, chunks);
    FeedSplit(c, FRESH, Concat(chunks), a);
    FeedIff(c, Concat(chunks) + a);
  }

  lemma {:induction false} RunError(c: Config, m: Machine)
    requires c.Valid()
    ensures var o := Run(c, m); o.Rejected? ==> HeaderLimit(o.error)
    decreases Measure(m)
  {
    hide StepOnce, Measure;
    StepDecreases(c, m);
    RejectState(c, m);
    if StepOnce(c, m).Progress? { RunError(c, StepOnce(c, m).machine); }
  }

  /** Without a size limit every feed error is one of the three header limits. */
  lemma {:induction false} FeedAllError(c: Config, m: Machine, chunks: seq<Bytes>)
    requires c.Valid() && c.maxSize.None? && !m.eof
    ensures var o := FeedAll(c, m, chunks); o.Rejected? ==> HeaderLimit(o.error)
    decreases |chunks|
  {
    hide Run;
    if chunks != [] {
      RunError(c, Receive(m, chunks[0]));
      RunKeeps(c, Receive(m, chunks[0]));
      var first := Feed(c, m, chunks[0]);
      if first.Done? { FeedAllError(c, first.machine, chunks[1..]); }
    }
  }

  // ----- equal chunks against one call

  /** The stream in chunks of `k` bytes, the last one possibly shorter. */
  function Slices(s: Bytes, k: nat): seq<Bytes>
    requires k > 0
    decreases |s|
  {
    if s == [] then [] else if |s| < k then [s] else [s[..k]] + Slices(s[k..], k)
  }

  lemma {:induction false} SlicesJoin(s: Bytes, k: nat)
    requires k > 0
    ensures Concat(Slices(s, k)) == s
    decreases |s|
  {
    hide Concat;
    if |s| >= k {
      SlicesJoin(s[k..], k);
      ConcatFirst(Slices(s, k));
      assert Slices(s, k)[1..] == Slices(s[k..], k);
    } else if s == [] {
      ConcatNothing();
    } else {
      ConcatOne(s);
    }
  }

  lemma ConcatOne(s: Bytes)
    ensures Concat([s]) == s
  {
    assert [s][..0] == [] && [] + s == s;
  }

  lemma Times(j: nat, k: nat)
    requires j > 0
    ensures j * k == (j - 1) * k + k
  {
  }

  /** The first `j` chunks are the first `n` bytes. */
  lemma {:induction false} SlicesPrefix(s: Bytes, k: nat, j: nat, n: nat)
    requires k > 0 && n == j * k && n <= |s|
    ensures j <= |Slices(s, k)| && Concat(Slices(s, k)[..j]) == s[..n]
    decreases j
  {
    hide Concat;
    var slices := Slices(s, k);
    if j == 0 {
      assert slices[..0] == [] && Concat([]) == [] by { ConcatNothing(); }
    } else {
      Times(j, k);
      SlicesPrefix(s[k..], k, j - 1, n - k);
      assert slices[..j][1..] == Slices(s[k..], k)[..j - 1];
      ConcatFirst(slices[..j]);
      assert s[..k] + s[k..][..n - k] == s[..n];
    }
  }

  lemma ConcatNothing()
    ensures Concat([]) == []
  {
  }

  function Spaces(n: nat): Bytes { seq(n, _ => SPACE) }

  lemma SpacesPad(n: nat)
    ensures AllPadding(Spaces(n)) && Undecided(Spaces(n)) && !([DASH] <= Spaces(n)) && |Spaces(n)| == n
    ensures !Opened(Spaces(n)) && Find(Spaces(n), BLANK).None?
  {
    hide Find;
    assert AllPadding(Spaces(n));
    if n > 0 { assert Spaces(n)[0] == SPACE; }
    PaddingAll(Spaces(n));
    UndecidedIsPlain(Spaces(n));
  }

  lemma PaddedCut(c: Config, n: nat)
    requires c.Valid()
    ensures Cut(c.token + Spaces(n), c.token) == [[], Spaces(n)]
    ensures Cut(c.token + Spaces(n) + c.token, c.token) == [[], Spaces(n), []]
  {
    hide Find, Cut, Undecided;
    SpacesPad(n);
    var tail := Spaces(n) + c.token;
    TokenFirstCut(c, Spaces(n));
    UndecidedHasNoToken(c, Spaces(n));
    assert c.token + Spaces(n) + c.token == c.token + tail;
    TokenFirstCut(c, tail);
    assert tail[n..n + |c.token|] == c.token;
    assert forall k :: 0 <= k < n ==> tail[k] == SPACE;
    NoTokenStarts(c, tail, n);
    FindIs(tail, c.token, n);
    CutAt(c, tail, n);
    assert tail[..n] == Spaces(n) && tail[n + |c.token|..] == [];
    NothingHasNoToken(c);
    CutNone(c, []);
  }

  /** Padding between two tokens: too long as the end of a stream, free once a token follows it. */
  lemma PaddingCharged(c: Config, n: nat)
    requires c.Valid() && !Fits(c, n)
    ensures !StreamFits(c, ForFeeding, c.token + Spaces(n))
    ensures StreamFits(c, ForFeeding, c.token + Spaces(n) + c.token)
    ensures StreamFits(c, ForEnding, c.token + Spaces(n) + c.token)
    ensures !MessageCloses(c.token, c.token + Spaces(n) + c.token)
  {
    hide Find, Cut, BlockFits;
    SpacesPad(n);
    PaddedCut(c, n);
    var short: seq<Bytes>, long: seq<Bytes> := [[], Spaces(n)], [[], Spaces(n), []];
    PlainThenToken(c, ForFeeding, LineBreak, Spaces(n));
    PlainThenToken(c, ForEnding, LineBreak, Spaces(n));
    assert short[1..] == [Spaces(n)];
    assert long[1..] == [Spaces(n), []] && long[1..][1..] == [[]] && long[2..] == [[]];
    assert Undecided([]);
    if n > 0 { assert !(DASHES <= Spaces(n) + DASHES) by { assert (Spaces(n) + DASHES)[0] == SPACE; } }
  }

  /** Equal chunks can really be rejected where one call is accepted: for every total limit and every
      chunk size, the stream of a token, more padding than the limit and a second token. */
  lemma FinerCanReject(c: Config, k: nat)
    requires c.Valid() && c.maxTotal.Some? && k > 0
    requires SizeFits(c, |c.token + Spaces(c.maxTotal.value + k) + c.token|)
    ensures var s := c.token + Spaces(c.maxTotal.value + k) + c.token;
      && Concat(Slices(s, k)) == s
      && ParseChunks(c, Slices(s, k)).terminal.FeedError?
      && ParseChunks(c, [s]).terminal == FinishError
  {
    hide FeedAll, FeedEof, Concat, Slices, Spaces, StreamFits, ParseFrom, MessageCloses, MessageEvents,
      FinalMessageEvents;
    var t := c.maxTotal.value;
    var s := c.token + Spaces(t + k) + c.token;
    SlicesJoin(s, k);
    PaddingCharged(c, t + k);
    var chunks := Slices(s, k);
    var j := (|c.token| + t) / k + 1;
    CutsInside(c, k, t, j);
    AcceptedIff(c, chunks);
    ParseIsFeedAll(c, FRESH, chunks, []);
    OneCall(c, s);
  }

  lemma OneCall(c: Config, s: Bytes)
    requires c.Valid() && FitsExactly(c, s) && StreamFits(c, ForEnding, s) && !MessageCloses(c.token, s)
    ensures ParseChunks(c, [s]).terminal == FinishError
  {
    hide Feed, FeedAll, FeedEof, StreamFits, ParseFrom, MessageCloses, MessageEvents, FinalMessageEvents;
    FeedIff(c, s);
    FeedOnce(c, s);
    assert Concat([s]) == s by { assert [s][..0] == [] && [] + s == s; }
    EofIff(c, [s]);
    ParseIsFeedAll(c, FRESH, [s], []);
    ParseMeans(c, [s]);
  }

  /** Some chunk ends inside the padding, behind more of it than the limit allows. */
  lemma CutsInside(c: Config, k: nat, t: nat, j: nat)
    requires c.Valid() && c.maxTotal == Some(t) && k > 0 && j == (|c.token| + t) / k + 1
    ensures var s := c.token + Spaces(t + k) + c.token;
      j <= |Slices(s, k)| && !FitsExactly(c, Concat(Slices(s, k)[..j]))
  {
    hide Slices, Concat, StreamFits;
    var s := c.token + Spaces(t + k) + c.token;
    var a := |c.token| + t;
    assert j * k == a / k * k + k;
    assert a / k * k + a % k == a;
    SpacesPad(t + k);
    SlicesPrefix(s, k, j, j * k);
    var n := j * k - |c.token|;
    SpacesPad(n);
    assert s[..j * k] == c.token + Spaces(n);
    PaddingCharged(c, n);
  }

  // ----- one call and any chunking, compared as the fuzz target does

  /** Two rejections are compared by whether a header limit was exceeded, all else by equality. */
  predicate EndAlike(p: Parsed, q: Parsed) {
    if p.terminal.FeedError? && q.terminal.FeedError? then HeaderLimit(p.terminal.error) == HeaderLimit(q.terminal.error)
    else p == q
  }

  /** Wherever a chunk ends within the size limit, the stream so far fits the header limits. */
  predicate HeadersFirst(c: Config, chunks: seq<Bytes>)
    requires c.Valid()
  {
    forall k :: 0 <= k <= |chunks| ==> FitsWithin(c, Concat(chunks[..k]))
  }

  predicate FitsWithin(c: Config, s: Bytes)
    requires c.Valid()
  {
    SizeFits(c, |s|) ==> StreamFits(c, ForFeeding, s)
  }

  lemma OneCallError(c: Config, s: Bytes)
    requires c.Valid()
    ensures var o := Feed(c, FRESH, s);
      o.Rejected? ==> if SizeFits(c, |s|) then HeaderLimit(o.error) else o.error == SizeExceeded
  {
    hide Run;
    RunError(c, Receive(FRESH, s));
  }

  /** Which kind of limit rejects a chunking. */
  lemma {:induction false} ChunkError(c: Config, chunks: seq<Bytes>)
    requires c.Valid() && FeedAll(c, FRESH, chunks).Rejected?
    ensures var o := FeedAll(c, FRESH, chunks);
      if HeadersFirst(c, chunks) then o.error == SizeExceeded else HeaderLimit(o.error)
    decreases |chunks|
  {
    hide Feed, FeedAll, Concat, StreamFits, SizeFits;
    NothingRejected(c);
    var n := |chunks| - 1;
    var front, s := chunks[..n], Concat(chunks);
    assert chunks == front + [chunks[n]] && chunks[..n + 1] == chunks;
    FeedAllSnoc(c, FRESH, front, chunks[n]);
    AcceptedIff(c, front);
    assert forall k :: 0 <= k <= n ==> front[..k] == chunks[..k];
    if FeedAll(c, FRESH, front).Done? {
      OneShot(c, chunks);
      OneCallError(c, s);
      FeedIff(c, s);
    } else {
      ChunkError(c, front);
      var k :| 0 <= k <= n && !FitsExactly(c, Concat(front[..k]));
      if SizeFits(c, |s|) { SizeGrows(c, chunks, k); }
    }
  }

  lemma NothingRejected(c: Config)
    requires c.Valid()
    ensures FeedAll(c, FRESH, []).Done?
  {
  }

  lemma SizeGrows(c: Config, chunks: seq<Bytes>, k: nat)
    requires k <= |chunks| && SizeFits(c, |Concat(chunks)|)
    ensures SizeFits(c, |Concat(chunks[..k])|)
  {
    hide Concat;
    ConcatPrefix(chunks, k);
  }

  /** The exact condition under which one call and a chunking end alike: the whole stream is rejected
      for a header limit, or the chunks never end where a header limit is exceeded. */
  lemma EndAlikeIff(c: Config, chunks: seq<Bytes>)
    requires c.Valid()
    ensures var s := Concat(chunks);
      EndAlike(ParseChunks(c, [s]), ParseChunks(c, chunks)) <==>
        ((SizeFits(c, |s|) && !StreamFits(c, ForFeeding, s)) || HeadersFirst(c, chunks))
  {
    hide Feed, FeedAll, FeedEof, Concat, StreamFits, SizeFits, ParseFrom;
    var s := Concat(chunks);
    ParseIsFeedAll(c, FRESH, chunks, []);
    ParseIsFeedAll(c, FRESH, [s], []);
    FeedOnce(c, s);
    FeedIff(c, s);
    OneCallError(c, s);
    AcceptedIff(c, chunks);
    assert chunks[..|chunks|] == chunks;
    if FeedAll(c, FRESH, chunks).Rejected? {
      ChunkError(c, chunks);
      if SizeFits(c, |s|) {
        var k :| 0 <= k <= |chunks| && !FitsExactly(c, Concat(chunks[..k]));
        SizeGrows(c, chunks, k);
      }
    } else {
      ParseChunkingFree(c, chunks);
    }
  }
}
