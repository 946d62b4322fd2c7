/** The total header limit alone decides what is rejected, and it bounds what is buffered. */
module Limits {
  import opened Bytes
  import opened Machines
  import opened Chunking
  import opened Segments
  import opened Refinement
  import opened Verdicts
  import opened Messages
  import opened Events
  import opened Rejection

  /** The adapter's other two limits are no stricter than its total limit, `d`'s are looser still. */
  predicate Subsumes(c: Config, d: Config) {
    && c.Valid()
    && d.token == c.token && d.maxSize == c.maxSize && d.maxTotal == c.maxTotal
    && c.maxTotal.Some? && c.maxTotal.value >= 2
    && (c.maxTotal.value - 2) / 3 <= c.maxHeaderCount <= d.maxHeaderCount
    && c.maxTotal.value <= c.maxHeaderSize <= d.maxHeaderSize
  }

  /** The header block being read is known to end in a blank line before any token. */
  predicate BlankAhead(c: Config, buffer: Bytes)
    requires c.Valid()
  {
    Find(CRLF + Cut(buffer, c.token)[0], BLANK).Some?
  }

  /** Between calls, every collected header has cost at least three bytes and the boundary line two. */
  predicate Paid(c: Config, m: Machine) {
    && (m.headers != [] ==> m.state.Header? || (m.state.Body? && m.pending))
    && (m.state.Header? ==> m.headerSize >= 2 + 3 * |m.headers| || (m.headers == [] && c.token <= m.buffer))
  }

  /** Inside a run, a block reached from a stray segment has paid no boundary line, but its blank
      line is already buffered. */
  predicate Costed(c: Config, m: Machine)
    requires c.Valid()
  {
    || Paid(c, m)
    || (m.state.Header? && m.headerSize >= 3 * |m.headers| && BlankAhead(c, m.buffer))
  }

  predicate KeepsCost(c: Config, s: Step)
    requires c.Valid()
  {
    match s
    case Progress(next, _) => Costed(c, next)
    case Wait(next, _) => Paid(c, next)
    case Reject(_, _) => true
  }

  lemma EnterPaid(c: Config, m: Machine, tail: Bytes)
    requires !DelimiterSuffix(tail).Incomplete? && m.headers == []
    ensures Paid(c, Enter(m, tail))
  {
    hide PaddingLength;
  }

  lemma RawBoundaryPaid(c: Config, m: Machine, i: nat)
    requires c.Valid() && At(m.buffer, c.token, i) && m.headers == []
    ensures var s := StepRawBoundary(c, m, i); !s.Reject? ==> Paid(c, s.machine)
  {
    hide DelimiterSuffix, Enter;
    var tail := m.buffer[i + |c.token|..];
    if !DelimiterSuffix(tail).Incomplete? {
      EnterPaid(c, m, tail);
    } else {
      assert m.buffer[i..][..|c.token|] == m.buffer[i..i + |c.token|];
    }
  }

  lemma OpenBodyPaid(c: Config, m: Machine, begun: seq<Event>)
    requires c.Valid() && m.state.Body? && m.headers == []
    ensures var s := StepOpenBody(c, m, begun); !s.Reject? ==> Paid(c, s.machine)
  {
    hide DelimiterSuffix, Enter, Find, BodyDataEnd, DataEvents;
    var found := Find(m.buffer, c.token);
    if found.Some? {
      var tail := m.buffer[found.value + |c.token|..];
      if !DelimiterSuffix(tail).Incomplete? { EnterPaid(c, m, tail); }
    }
  }

  /** A text that begins with a token has no header block at all. */
  lemma TokenFirst(c: Config, buffer: Bytes)
    requires c.Valid() && c.token <= buffer
    ensures Find(buffer, c.token) == Some(0) && (Find(buffer, CRLF).None? || Find(buffer, CRLF).value > 0)
    ensures !BlankAhead(c, buffer)
  {
    hide Find;
    FindAtStart(c, buffer);
    CutAt(c, buffer, 0);
    if Find(buffer, CRLF).Some? { TokenIsNotBreak(c, buffer, CRLF); }
    EmptyBlock();
    NoBreakIsStray([], []);
    assert Cut(buffer, c.token)[0] == [];
  }

  /** With a blank line ahead there is a header line to take, and after it still a blank line ahead
      unless it was the blank line itself. */
  lemma BlankLineAhead(c: Config, buffer: Bytes)
    requires c.Valid() && BlankAhead(c, buffer)
    ensures var line, boundary := Find(buffer, CRLF), Find(buffer, c.token);
      && line.Some?
      && (boundary.None? || line.value < boundary.value)
      && (line.value > 0 ==> BlankAhead(c, buffer[line.value + 2..]))
  {
    hide Find, Cut, HeaderLines;
    var piece := Cut(buffer, c.token)[0];
    var boundary := Find(buffer, c.token);
    if OneLine(piece) { NoBreakIsStray([], piece); }
    PieceOf(c, buffer);
    assert buffer[..|piece|] == piece;
    FindTake(buffer, CRLF, |piece|);
    var i := Find(buffer, CRLF).value;
    if i > 0 {
      HeaderLineCut(c, buffer, i);
      var rest := Cut(buffer[i + 2..], c.token)[0];
      HeaderSegmentLine([], buffer[..i], rest);
    }
  }

  lemma HeaderCost(c: Config, m: Machine)
    requires c.Valid() && m.state.Header? && Costed(c, m)
    ensures KeepsCost(c, StepHeader(c, m))
  {
    hide Find, StepRawBoundary, LineHeader, HeaderRetained, BlankAhead;
    var boundary, line := Find(m.buffer, c.token), Find(m.buffer, CRLF);
    if c.token <= m.buffer { TokenFirst(c, m.buffer); }
    if BlankAhead(c, m.buffer) { BlankLineAhead(c, m.buffer); }
    if boundary.Some? { RawBoundaryPaid(c, m.(headers := [], headerSize := 0), boundary.value); }
  }

  lemma RawSegmentCost(c: Config, m: Machine)
    requires c.Valid() && (m.state.Discard? || m.state.End?) && m.headers == []
    ensures KeepsCost(c, StepRawSegment(c, m))
  {
    hide Find, StepRawBoundary, Cut;
    var boundary, blank := Find(m.buffer, c.token), Find(m.buffer, BLANK);
    BlankWithinPiece(c, m.buffer);
    var piece := Cut(m.buffer, c.token)[0];
    if Find(piece, BLANK).Some? {
      var i := Find(piece, BLANK).value;
      AtDrop(CRLF + piece, BLANK, 2, i);
      assert (CRLF + piece)[2..] == piece;
    }
    if boundary.Some? { RawBoundaryPaid(c, m, boundary.value); }
  }

  lemma StepCost(c: Config, m: Machine)
    requires c.Valid() && Costed(c, m)
    ensures KeepsCost(c, StepOnce(c, m))
  {
    hide Find, DelimiterSuffix, Enter, StepHeader, StepRawSegment, StepRawBoundary, StepOpenBody, BlankAhead;
    match m.state
    case Preamble =>
      var found := Find(m.buffer, c.token);
      if found.Some? {
        var tail := m.buffer[found.value + |c.token|..];
        if !DelimiterSuffix(tail).Incomplete? { EnterPaid(c, m, tail); }
      }
    case Header => HeaderCost(c, m);
    case Body =>
      var released := m.(headers := [], headerSize := 0, pending := false);
      if m.pending {
        if c.token <= m.buffer {
          assert At(m.buffer, c.token, 0);
          RawBoundaryPaid(c, released.(state := Discard), 0);
        }
        OpenBodyPaid(c, released, [Begin(m.headers)]);
      } else {
        OpenBodyPaid(c, m, []);
      }
    case _ => RawSegmentCost(c, m);
  }

  /** A block that has used up the total limit before its blank line is rejected in this very run. */
  lemma Doomed(c: Config, m: Machine)
    requires c.Valid() && c.maxTotal.Some? && m.state.Header?
    requires m.headerSize + 2 > c.maxTotal.value && BlankAhead(c, m.buffer)
    ensures Run(c, m).Rejected?
  {
    hide Find, LineHeader, BlankAhead, StepRawBoundary, HeaderRetained, Measure;
    BlankLineAhead(c, m.buffer);
    StepDecreases(c, m);
  }

  predicate SameVerdict(c: Config, d: Config, m: Machine)
    requires Subsumes(c, d)
  {
    var s, t := StepOnce(c, m), StepOnce(d, m);
    s == t || (s.Reject? && (t.Reject? || Run(d, m).Rejected?))
  }

  lemma HeaderVerdict(c: Config, d: Config, m: Machine)
    requires Subsumes(c, d) && m.state.Header? && Costed(c, m)
    ensures SameVerdict(c, d, m)
  {
    hide Find, LineHeader, BlankAhead, StepRawBoundary, HeaderRetained, Run;
    var boundary, line := Find(m.buffer, c.token), Find(m.buffer, CRLF);
    if c.token <= m.buffer { TokenFirst(c, m.buffer); }
    if BlankAhead(c, m.buffer) { BlankLineAhead(c, m.buffer); }
    if boundary.Some? {
      var cleared := m.(headers := [], headerSize := 0);
      RawBoundaryState(c, cleared, boundary.value);
      RawBoundaryConfig(c, d, cleared, boundary.value);
    }
    RetainedConfig(c, d, m.buffer);
    var s, t := StepHeader(c, m), StepHeader(d, m);
    if s.Reject? && t.Progress? { CountVerdict(c, d, m, line.value); }
  }

  /** The count limit only fires on blocks that the total limit rejects a moment later. */
  lemma CountVerdict(c: Config, d: Config, m: Machine, i: nat)
    requires Subsumes(c, d) && m.state.Header? && Costed(c, m)
    requires Find(m.buffer, CRLF) == Some(i) && i > 0
    requires Find(m.buffer, c.token).None? || i <= Find(m.buffer, c.token).value
    requires StepHeaderLine(c, m, i).Reject? && StepHeaderLine(d, m, i).Progress?
    requires StepOnce(d, m) == StepHeaderLine(d, m, i) && !(c.token <= m.buffer)
    ensures Run(d, m).Rejected?
  {
    hide Find, LineHeader, BlankAhead, StepOnce, Measure;
    var next := StepHeaderLine(d, m, i).machine;
    assert |m.headers| == c.maxHeaderCount;
    assert m.headerSize + i + 2 <= c.maxTotal.value;
    assert BlankAhead(c, m.buffer);
    BlankLineAhead(c, m.buffer);
    assert BlankAhead(d, next.buffer) by { BlankConfig(c, d, next.buffer); }
    StepDecreases(d, m);
    Doomed(d, next);
  }

  lemma BlankConfig(c: Config, d: Config, buffer: Bytes)
    requires c.Valid() && d.token == c.token && BlankAhead(c, buffer)
    ensures BlankAhead(d, buffer)
  {
  }

  lemma RawBoundaryConfig(c: Config, d: Config, m: Machine, i: nat)
    requires d.token == c.token && At(m.buffer, c.token, i)
    ensures StepRawBoundary(d, m, i) == StepRawBoundary(c, m, i)
  {
    hide DelimiterSuffix, Enter;
  }

  lemma RetainedConfig(c: Config, d: Config, buffer: Bytes)
    requires d.token == c.token
    ensures HeaderRetained(c, buffer) == HeaderRetained(d, buffer)
  {
  }

  lemma OpenBodyConfig(c: Config, d: Config, m: Machine, begun: seq<Event>)
    requires d.token == c.token && d.maxTotal == c.maxTotal
    ensures StepOpenBody(d, m, begun) == StepOpenBody(c, m, begun)
  {
    hide Find, DelimiterSuffix, BodyDataEnd, DataEvents, Enter;
  }

  lemma OtherVerdict(c: Config, d: Config, m: Machine)
    requires Subsumes(c, d) && !m.state.Header?
    ensures StepOnce(c, m) == StepOnce(d, m)
  {
    hide Find, DelimiterSuffix, Enter, StepRawBoundary, StepOpenBody;
    var found := Find(m.buffer, c.token);
    match m.state
    case Preamble =>
    case Body =>
      var released := m.(headers := [], headerSize := 0, pending := false);
      if c.token <= m.buffer {
        assert At(m.buffer, c.token, 0);
        RawBoundaryConfig(c, d, released.(state := Discard), 0);
      }
      OpenBodyConfig(c, d, released, [Begin(m.headers)]);
      OpenBodyConfig(c, d, m, []);
    case Discard => if found.Some? { RawBoundaryConfig(c, d, m, found.value); }
    case End => if found.Some? { RawBoundaryConfig(c, d, m, found.value); }
  }

  /** The same outcome, up to which header limit a rejection names. */
  predicate SameOutcome(a: Outcome, b: Outcome) {
    a == b || (a.Rejected? && b.Rejected? && HeaderLimit(a.error) && HeaderLimit(b.error))
  }

  lemma {:induction false} RunVerdict(c: Config, d: Config, m: Machine)
    requires Subsumes(c, d) && Costed(c, m)
    ensures SameOutcome(Run(c, m), Run(d, m))
    ensures Run(c, m).Done? ==> Paid(c, Run(c, m).machine)
    decreases Measure(m)
  {
    hide StepOnce, Measure, Costed, Paid;
    StepDecreases(c, m);
    StepDecreases(d, m);
    StepCost(c, m);
    RunError(c, m);
    RunError(d, m);
    if m.state.Header? { HeaderVerdict(c, d, m); } else { OtherVerdict(c, d, m); }
    var s := StepOnce(c, m);
    if s.Progress? { RunVerdict(c, d, s.machine); }
  }

  lemma PaidReceives(c: Config, m: Machine, data: Bytes)
    requires Paid(c, m)
    ensures Paid(c, Receive(m, data))
  {
    if c.token <= m.buffer { assert (m.buffer + data)[..|c.token|] == m.buffer[..|c.token|]; }
  }

  /** Limit subsumption: with the adapter's count and line limits, every chunking of every stream is
      accepted or rejected exactly as under the total limit alone, and accepted with the same result. */
  lemma {:induction false} TotalLimitDecides(c: Config, d: Config, m: Machine, chunks: seq<Bytes>)
    requires Subsumes(c, d) && Paid(c, m)
    ensures SameOutcome(FeedAll(c, m, chunks), FeedAll(d, m, chunks))
    decreases |chunks|
  {
    hide Run, Paid;
    if chunks != [] {
      PaidReceives(c, m, chunks[0]);
      RunVerdict(c, d, Receive(m, chunks[0]));
      var first := Feed(c, m, chunks[0]);
      if first.Done? { TotalLimitDecides(c, d, first.machine, chunks[1..]); }
    }
  }

  lemma FreshIsPaid(c: Config)
    ensures Paid(c, FRESH)
  {
  }

  // ----- whole messages

  predicate SameParse(p: Parsed, q: Parsed) {
    && p.events == q.events
    && (p.terminal == q.terminal
      || (p.terminal.FeedError? && q.terminal.FeedError?
        && HeaderLimit(p.terminal.error) && HeaderLimit(q.terminal.error)))
  }

  lemma ConcludeConfig(c: Config, d: Config, m: Machine, output: seq<Event>)
    requires c.Valid() && d.Valid() && d.token == c.token && d.maxTotal == c.maxTotal
    ensures Conclude(c, m, output) == Conclude(d, m, output)
  {
    hide Find, DelimiterSuffix, AppendEvents, BodyDataEnd, DataEvents;
  }

  lemma {:induction false} ParseVerdict(c: Config, d: Config, m: Machine, chunks: seq<Bytes>, output: seq<Event>)
    requires Subsumes(c, d) && Paid(c, m)
    ensures SameParse(ParseFrom(c, m, chunks, output), ParseFrom(d, m, chunks, output))
    decreases |chunks|
  {
    hide Run, Paid, Conclude, AppendEvents;
    if chunks == [] {
      ConcludeConfig(c, d, m, output);
    } else {
      PaidReceives(c, m, chunks[0]);
      RunVerdict(c, d, Receive(m, chunks[0]));
      var first := Feed(c, m, chunks[0]);
      if first.Done? { ParseVerdict(c, d, first.machine, chunks[1..], AppendEvents(output, first.events)); }
    }
  }

  /** Whole messages: the driver returns the same events and the same verdict as under the total limit
      alone, for every chunking, up to which header limit a rejected feed names. */
  lemma TotalLimitParses(c: Config, d: Config, chunks: seq<Bytes>)
    requires Subsumes(c, d)
    ensures SameParse(ParseChunks(c, chunks), ParseChunks(d, chunks))
  {
    hide ParseFrom;
    FreshIsPaid(c);
    ParseVerdict(c, d, FRESH, chunks, []);
  }

  // ----- which limit fires first

  /** The smallest header lines that are kept. */
  function Colons(n: nat): Bytes {
    if n == 0 then [] else [COLON] + CRLF + Colons(n - 1)
  }

  lemma {:induction false} ColonsBlock(n: nat)
    ensures DASH !in Colons(n) + CRLF
    ensures n > 0 ==> Find(Colons(n) + CRLF, BLANK).Some?
  {
    hide Find;
    if n > 0 {
      var s := Colons(n) + CRLF;
      assert s == ([COLON] + CRLF) + (Colons(n - 1) + CRLF);
      ColonsBlock(n - 1);
      if n == 1 {
        assert s[1..5] == BLANK;
        assert At(s, BLANK, 1);
      } else {
        AtDrop(s, BLANK, 3, Find(Colons(n - 1) + CRLF, BLANK).value);
        assert s[3..] == Colons(n - 1) + CRLF;
      }
    }
  }

  lemma NoDashNoToken(c: Config, s: Bytes)
    requires c.Valid() && DASH !in s
    ensures Find(s, c.token).None?
  {
    TokenStartsWithDash(c);
    if Find(s, c.token).Some? { AtHead(s, c.token, Find(s, c.token).value); }
  }

  lemma ColonHeader()
    ensures LineHeader([COLON]) == [([], [])] && OneLine([COLON])
  {
    assert [COLON][0..1] == [COLON];
    FindIs([COLON], [COLON], 0);
  }

  lemma {:induction false} ColonsRun(c: Config, m: Machine, k: nat)
    requires c.Valid() && c.maxTotal.Some? && c.maxTotal.value >= 2 && c.maxHeaderSize > 0
    requires c.maxHeaderCount == (c.maxTotal.value - 2) / 3
    requires m.state.Header? && m.headerSize == 3 * |m.headers| && |m.headers| + k == c.maxHeaderCount + 1 && k > 0
    requires m.buffer == Colons(k) + CRLF
    ensures var o := Run(c, m);
      o.Rejected? && o.error == if c.maxTotal.value % 3 == 2 then HeaderTotal else HeaderCount
    decreases k
  {
    hide Find, LineHeader, Measure, StepRawBoundary, HeaderRetained;
    var rest := Colons(k - 1) + CRLF;
    assert m.buffer == [COLON] + CRLF + rest;
    ColonsBlock(k);
    NoDashNoToken(c, m.buffer);
    ColonHeader();
    FirstBreak([COLON], rest);
    assert m.buffer[..1] == [COLON] && m.buffer[3..] == rest;
    StepDecreases(c, m);
    if k > 1 { ColonsRun(c, StepOnce(c, m).machine, k - 1); }
  }

  lemma ColonsEnter(c: Config, m: Machine, block: Bytes)
    requires c.Valid() && m.state.Preamble? && m.buffer == c.token + block
    requires block != [] && block[0] == COLON && DASH !in block && Find(block, BLANK).Some?
    ensures StepOnce(c, m) == Progress(m.(state := Discard, buffer := block), [])
    ensures StepOnce(c, m.(state := Discard, buffer := block))
      == Progress(m.(state := Header, headers := [], headerSize := 0, buffer := block), [])
  {
    hide Find;
    assert m.buffer[0..|c.token|] == c.token && m.buffer[0 + |c.token|..] == block;
    FindAtStart(c, m.buffer);
    PaddingStops(block, 0);
    NoDashNoToken(c, block);
  }

  /** Under the adapter's limits the count limit can fire although the total limit is not exceeded yet:
      on the smallest header lines of a stray segment, exactly if the total limit is not 2 modulo 3. */
  lemma CountFirstIff(c: Config)
    requires c.Valid() && Subsumes(c, c) && c.maxHeaderCount == (c.maxTotal.value - 2) / 3
    requires SizeFits(c, |c.token + (Colons(c.maxHeaderCount + 1) + CRLF)|)
    ensures var o := Feed(c, FRESH, c.token + (Colons(c.maxHeaderCount + 1) + CRLF));
      o.Rejected? && (o.error == HeaderCount <==> c.maxTotal.value % 3 != 2)
  {
    hide Find, StepOnce, Measure;
    var k := c.maxHeaderCount + 1;
    var block := Colons(k) + CRLF;
    ColonsBlock(k);
    var m := Receive(FRESH, c.token + block);
    assert [] + (c.token + block) == c.token + block;
    ColonsEnter(c, m, block);
    var stray := m.(state := Discard, buffer := block);
    StepDecreases(c, m);
    StepDecreases(c, stray);
    var header := m.(state := Header, headers := [], headerSize := 0, buffer := block);
    ColonsRun(c, header, k);
    assert Run(c, stray) == Run(c, header).After([]);
    assert Run(c, m) == Run(c, stray).After([]);
  }

  lemma OtherReject(c: Config, m: Machine)
    requires c.Valid() && !m.state.Header?
    ensures var s := StepOnce(c, m); s.Reject? ==> s.error == HeaderTotal
  {
    hide Find, DelimiterSuffix, StepRawBoundary, StepOpenBody, Enter;
    var boundary := Find(m.buffer, c.token);
    match m.state
    case Preamble =>
    case Body =>
      var released := m.(headers := [], headerSize := 0, pending := false);
      if c.token <= m.buffer {
        assert At(m.buffer, c.token, 0);
        RawBoundaryState(c, released.(state := Discard), 0);
      }
      OpenBodyReject(c, released, [Begin(m.headers)]);
      OpenBodyReject(c, m, []);
    case Discard => if boundary.Some? { RawBoundaryState(c, m, boundary.value); }
    case End => if boundary.Some? { RawBoundaryState(c, m, boundary.value); }
  }

  /** The collected headers alone leave no room for another line when the count limit is reached. */
  lemma TotalFiresFirst(c: Config, m: Machine)
    requires c.Valid() && CountMeetsTotal(c) && m.state.Header? && Costed(c, m)
    ensures var s := StepHeader(c, m); s.Reject? ==> s.error != HeaderCount
  {
    hide Find, LineHeader, BlankAhead, StepRawBoundary, HeaderRetained;
    var boundary := Find(m.buffer, c.token);
    if c.token <= m.buffer { TokenFirst(c, m.buffer); }
    if boundary.Some? { RawBoundaryState(c, m.(headers := [], headerSize := 0), boundary.value); }
  }

  /** The adapter's count limit, with a total limit that leaves nothing over. */
  predicate CountMeetsTotal(c: Config) {
    c.maxTotal.Some? && c.maxTotal.value % 3 == 2 && c.maxHeaderCount == (c.maxTotal.value - 2) / 3
  }

  lemma {:induction false} RunNeverCounts(c: Config, m: Machine)
    requires c.Valid() && CountMeetsTotal(c) && Costed(c, m)
    ensures var o := Run(c, m); if o.Done? then Paid(c, o.machine) else o.error != HeaderCount
    decreases Measure(m)
  {
    hide StepOnce, Measure, Costed, Paid, CountMeetsTotal;
    StepDecreases(c, m);
    StepCost(c, m);
    if m.state.Header? {
      TotalFiresFirst(c, m);
      HeaderStep(c, m);
    } else {
      OtherReject(c, m);
    }
    if StepOnce(c, m).Progress? { RunNeverCounts(c, StepOnce(c, m).machine); }
  }

  lemma {:induction false} NeverCounts(c: Config, m: Machine, chunks: seq<Bytes>)
    requires c.Valid() && CountMeetsTotal(c) && Paid(c, m)
    ensures var o := FeedAll(c, m, chunks); o.Rejected? ==> o.error != HeaderCount
    decreases |chunks|
  {
    hide Run, Paid, CountMeetsTotal;
    if chunks != [] {
      PaidReceives(c, m, chunks[0]);
      PaidIsCosted(c, Receive(m, chunks[0]));
      RunNeverCounts(c, Receive(m, chunks[0]));
      var first := Feed(c, m, chunks[0]);
      if first.Done? { NeverCounts(c, first.machine, chunks[1..]); }
    }
  }

  lemma PaidIsCosted(c: Config, m: Machine)
    requires c.Valid() && Paid(c, m)
    ensures Costed(c, m)
  {
  }

  ghost predicate CountFires(c: Config)
    requires c.Valid()
  {
    exists chunks :: FeedAll(c, FRESH, chunks).Rejected? && FeedAll(c, FRESH, chunks).error == HeaderCount
  }

  /** Under the adapter's limits some stream, cut in some way, is rejected for its header count exactly
      if the total limit is not 2 modulo 3, given room for the smallest such stream. */
  lemma CountFiresIff(c: Config)
    requires Subsumes(c, c) && c.maxHeaderCount == (c.maxTotal.value - 2) / 3
    ensures c.maxTotal.value % 3 == 2 ==> !CountFires(c)
    ensures SizeFits(c, |c.token + (Colons(c.maxHeaderCount + 1) + CRLF)|) ==>
      (CountFires(c) <==> c.maxTotal.value % 3 != 2)
  {
    hide Feed, FeedAll, Colons;
    if c.maxTotal.value % 3 == 2 {
      FreshIsPaid(c);
      forall chunks | FeedAll(c, FRESH, chunks).Rejected? ensures FeedAll(c, FRESH, chunks).error != HeaderCount {
        NeverCounts(c, FRESH, chunks);
      }
    } else {
      var s := c.token + (Colons(c.maxHeaderCount + 1) + CRLF);
      if SizeFits(c, |s|) {
        CountFirstIff(c);
        FeedOnce(c, s);
        assert FeedAll(c, FRESH, [s]).Rejected?;
      }
    }
  }
}
