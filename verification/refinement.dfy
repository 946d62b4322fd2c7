/** The state machine computes the segment specification. */
module Refinement {
  import opened Bytes
  import opened Machines
  import opened Events
  import opened Segments
  import Chunking

  // ----- cutting inside a buffer

  lemma CutAt(c: Config, s: Bytes, i: nat)
    requires c.Valid() && Find(s, c.token) == Some(i)
    ensures Cut(s, c.token) == [s[..i]] + Cut(s[i + |c.token|..], c.token)
    ensures Cut(s, c.token)[0] == s[..i]
    ensures Cut(s, c.token)[1..] == Cut(s[i + |c.token|..], c.token)
  {
  }

  lemma CutNone(c: Config, s: Bytes)
    requires c.Valid() && Find(s, c.token) == None
    ensures Cut(s, c.token) == [s]
  {
  }

  lemma TokenFirstCut(c: Config, rest: Bytes)
    requires c.Valid()
    ensures Cut(c.token + rest, c.token)[0] == [] && Cut(c.token + rest, c.token)[1..] == Cut(rest, c.token)
  {
    hide Find;
    var s := c.token + rest;
    assert s[0..|c.token|] == c.token && s[0 + |c.token|..] == rest;
    Chunking.FindAtStart(c, s);
    CutAt(c, s, 0);
  }

  lemma NothingHasNoToken(c: Config)
    requires c.Valid()
    ensures Find([], c.token).None?
  {
    FindNone([], c.token);
  }

  /** A prefix in which no token starts stays whole in the first piece. */
  lemma CutDrop(c: Config, s: Bytes, n: nat)
    requires c.Valid() && n <= |s|
    requires forall k :: 0 <= k < n ==> !At(s, c.token, k)
    ensures var a, b := Cut(s, c.token), Cut(s[n..], c.token);
      a[0] == s[..n] + b[0] && a[1..] == b[1..]
  {
    hide Find, Cut, At, IsFirst;
    FindDrop(s, c.token, n);
    if Find(s[n..], c.token).Some? {
      CutDropAt(c, s, n, Find(s[n..], c.token).value);
    } else {
      CutNone(c, s);
      CutNone(c, s[n..]);
      assert s == s[..n] + s[n..];
    }
  }

  lemma CutDropAt(c: Config, s: Bytes, n: nat, i: nat)
    requires c.Valid() && n <= |s| && Find(s[n..], c.token) == Some(i) && Find(s, c.token) == Some(n + i)
    ensures var a, b := Cut(s, c.token), Cut(s[n..], c.token);
      a[0] == s[..n] + b[0] && a[1..] == b[1..]
  {
    hide Find, Cut, At, IsFirst;
    FindFits(s[n..], c.token);
    CutAt(c, s, n + i);
    CutAt(c, s[n..], i);
    assert s[..n + i] == s[..n] + s[n..][..i];
    assert s[n..][i + |c.token|..] == s[n + i + |c.token|..];
  }

  /** Bytes that are not a dash start no token. */
  lemma NoTokenStarts(c: Config, s: Bytes, n: nat)
    requires c.Valid() && n <= |s|
    requires forall k :: 0 <= k < n ==> s[k] != DASH
    ensures forall k :: 0 <= k < n ==> !At(s, c.token, k)
  {
    forall k | 0 <= k < n ensures !At(s, c.token, k) {
      AtHead(s, c.token, k);
    }
  }

  lemma TokenStartsWithDash(c: Config)
    requires c.Valid()
    ensures c.token[0] == DASH && c.token[1] == DASH
  {
    assert c.token[0] == DASHES[0] && c.token[1] == DASHES[1];
  }

  lemma UndecidedHasNoToken(c: Config, tail: Bytes)
    requires c.Valid() && Undecided(tail)
    ensures Find(tail, c.token) == None && Cut(tail, c.token) == [tail]
  {
    hide Find;
    TokenStartsWithDash(c);
    forall k: nat | At(tail, c.token, k) ensures false {
      AtByte(tail, c.token, k, 0);
      AtByte(tail, c.token, k, 1);
    }
  }

  // ----- header lines

  predicate OneLine(line: Bytes) { Find(line, CRLF).None? }

  /** A line break right after a line is the first one, unless the text is that line alone. */
  lemma FirstBreak(line: Bytes, rest: Bytes)
    requires OneLine(line)
    ensures Find(line + CRLF + rest, CRLF) == Some(|line|)
  {
    var s := line + CRLF + rest;
    assert s[|line|] == CR && s[|line| + 1] == LF;
    assert s[|line|..|line| + 2] == CRLF;
    forall k | 0 <= k < |line| ensures !At(s, CRLF, k) {
      if At(s, CRLF, k) {
        AtByte(s, CRLF, k, 1);
        assert k + 2 <= |line|;
        assert s == line + (CRLF + rest);
        AtAppend(line, CRLF + rest, CRLF, k);
      }
    }
    FindIs(s, CRLF, |line|);
  }

  /** The blank line after a header line is looked for from that line's own break on. */
  lemma BlankAfterLine(line: Bytes, rest: Bytes)
    requires OneLine(line)
    ensures Find(line + CRLF + rest, BLANK) == Shift(Find(CRLF + rest, BLANK), |line|)
  {
    var s := line + CRLF + rest;
    FirstBreak(line, rest);
    forall k | 0 <= k < |line| ensures !At(s, BLANK, k) {
      if At(s, BLANK, k) {
        AtByte(s, BLANK, k, 0);
        AtByte(s, BLANK, k, 1);
        assert s[k..k + 2] == CRLF;
        assert At(s, CRLF, k);
      }
    }
    FindDrop(s, BLANK, |line|);
    assert s[|line|..] == CRLF + rest;
  }

  lemma HeaderLinesStep(line: Bytes, rest: Bytes)
    requires OneLine(line)
    ensures HeaderLines(line + CRLF + rest) == LineHeader(line) + HeaderLines(rest)
  {
    hide Find, LineHeader;
    var s := line + CRLF + rest;
    FirstBreak(line, rest);
    assert s[..|line|] == line && s[|line| + 2..] == rest;
  }

  lemma NoHeaderWithoutColon(line: Bytes)
    requires COLON !in line
    ensures LineHeader(line) == []
  {
    if Find(line, [COLON]).Some? {
      AtByte(line, [COLON], Find(line, [COLON]).value, 0);
    }
  }

  /** The segment that a Header state is reading: `headers` are collected, `piece` is still ahead. */
  function HeaderSegment(headers: Headers, piece: Bytes): Segment {
    match Find(CRLF + piece, BLANK)
    case Some(i) => Part(headers + HeaderLines((CRLF + piece)[..i]), (CRLF + piece)[i + 4..])
    case None => Stray
  }

  lemma EmptyBlock()
    ensures HeaderLines([]) == [] && OneLine([])
  {
    FindNone([], CRLF);
    NoHeaderWithoutColon([]);
  }

  lemma HeaderSegmentBlank(headers: Headers, rest: Bytes)
    ensures HeaderSegment(headers, CRLF + rest) == Part(headers, rest)
  {
    hide Find, HeaderLines;
    var s := CRLF + (CRLF + rest);
    assert s[0..4] == BLANK;
    assert At(s, BLANK, 0);
    FindIs(s, BLANK, 0);
    assert s[..0] == [] && s[4..] == rest;
    EmptyBlock();
    assert headers + [] == headers;
  }

  /** Where the blank line is, seen from before and from after a header line. */
  lemma BlankAfterHeaderLine(line: Bytes, rest: Bytes)
    requires line != [] && OneLine(line)
    ensures Find(CRLF + (line + CRLF + rest), BLANK) == Shift(Find(CRLF + rest, BLANK), |line| + 2)
  {
    hide Find;
    NoBlankAtStart(line + CRLF + rest, line);
    BlankAfterLine(line, rest);
  }

  lemma HeaderSegmentLine(headers: Headers, line: Bytes, rest: Bytes)
    requires line != [] && OneLine(line)
    ensures HeaderSegment(headers, line + CRLF + rest) == HeaderSegment(headers + LineHeader(line), rest)
  {
    hide Find, HeaderLines, LineHeader;
    var s := CRLF + (line + CRLF + rest);
    BlankAfterHeaderLine(line, rest);
    var b := Find(CRLF + rest, BLANK);
    if b.Some? {
      FindFits(CRLF + rest, BLANK);
      assert s[|line| + 2 + b.value + 4..] == (CRLF + rest)[b.value + 4..];
      BlockAfterLine(line, rest, b.value);
      HeadersAssoc(headers, line, HeaderLines((CRLF + rest)[..b.value]));
    }
  }

  /** The header block up to its blank line, with and without its first line. */
  lemma BlockAfterLine(line: Bytes, rest: Bytes, i: nat)
    requires line != [] && OneLine(line) && At(CRLF + rest, BLANK, i)
    ensures var s := CRLF + (line + CRLF + rest);
      HeaderLines(s[..|line| + 2 + i]) == LineHeader(line) + HeaderLines((CRLF + rest)[..i])
  {
    hide Find, HeaderLines, LineHeader;
    var s := CRLF + (line + CRLF + rest);
    EmptyBlock();
    NoHeaderWithoutColon([]);
    if i == 0 {
      assert s[..|line| + 2] == [] + CRLF + line && (CRLF + rest)[..0] == [];
      HeaderLinesStep([], line);
      OneLineBlock(line);
    } else {
      NotInsideBreak(rest, i);
      var inner := rest[..i - 2];
      assert (CRLF + rest)[..i] == [] + CRLF + inner;
      assert s[..|line| + 2 + i] == [] + CRLF + (line + CRLF + inner);
      HeaderLinesStep([], line + CRLF + inner);
      HeaderLinesStep(line, inner);
      HeaderLinesStep([], inner);
    }
  }

  lemma HeadersAssoc(headers: Headers, line: Bytes, more: Headers)
    ensures headers + (LineHeader(line) + more) == (headers + LineHeader(line)) + more
  {
  }

  lemma OneLineBlock(line: Bytes)
    requires OneLine(line)
    ensures HeaderLines(line) == LineHeader(line)
  {
  }

  lemma NotInsideBreak(rest: Bytes, i: nat)
    requires At(CRLF + rest, BLANK, i) && i > 0
    ensures i >= 2
  {
    AtByte(CRLF + rest, BLANK, i, 0);
  }

  lemma NoBlankAtStart(text: Bytes, line: Bytes)
    requires line != [] && OneLine(line) && line + CRLF <= text
    ensures Find(CRLF + text, BLANK) == Shift(Find(text, BLANK), 2)
  {
    var s := CRLF + text;
    if At(s, BLANK, 0) {
      AtByte(s, BLANK, 0, 2);
      AtByte(s, BLANK, 0, 3);
      assert text[0] == CR && text[1] == LF;
      assert (line + CRLF)[0] == line[0] && (line + CRLF)[1] == text[1];
      if |line| > 1 {
        assert line[0..2] == CRLF;
        assert At(line, CRLF, 0);
      }
    }
    AtHead(s, BLANK, 1);
    FindDrop(s, BLANK, 2);
    assert s[2..] == text;
  }

  // ----- the meaning of a machine in the middle of a one-call run

  /** What is still to be announced: by feeding, and once the input has ended. */
  datatype Meaning = Meaning(events: seq<Event>, final: seq<Event>, closes: bool, atToken: bool) {
    function After(earlier: seq<Event>): Meaning { Meaning(earlier + events, earlier + final, closes, atToken) }
  }

  function MeaningFrom(token: Bytes, seg: Segment, later: seq<Bytes>): Meaning {
    Meaning(EventsFrom(token, seg, later), FinalEventsFrom(seg, later), ClosesFrom(seg, later), EndsAtTokenFrom(seg, later))
  }

  function MessageMeaning(token: Bytes, s: Bytes): Meaning
    requires token != []
  {
    Meaning(MessageEvents(token, s), FinalMessageEvents(token, s), MessageCloses(token, s), MessageEndsAtToken(token, s))
  }

  function ClassifyFirst(pieces: seq<Bytes>): Segment
    requires pieces != []
  {
    Classify(pieces[0], |pieces| > 1)
  }

  /** The segment that `m` is reading when `piece` is all of it that is still buffered. */
  function Reading(m: Machine, pieces: seq<Bytes>): Segment
    requires pieces != []
  {
    match m.state
    case Header => HeaderSegment(m.headers, pieces[0])
    case Body => Part(m.headers, pieces[0])
    case _ => ClassifyFirst(pieces)
  }

  function MeaningOf(c: Config, m: Machine): Meaning
    requires c.Valid()
  {
    if m.state.Preamble? then MessageMeaning(c.token, m.buffer)
    else
      var pieces := Cut(m.buffer, c.token);
      MeaningFrom(c.token, Reading(m, pieces), pieces[1..])
  }

  /** Holds of every machine between the handler calls of one run. */
  predicate Reads(m: Machine) {
    && !m.eof
    && (m.pending <==> m.state.Body?)
    && (m.headers != [] ==> m.state.Header? || m.state.Body?)
    && (m.state.Discard? || m.state.End? ==>
      !Undecided(m.buffer) && !(CRLF <= m.buffer) && (m.state.End? <==> DASHES <= m.buffer))
  }

  /** One handler call announces its share of the meaning and leaves the rest. */
  predicate Refines(c: Config, m: Machine, s: Step)
    requires c.Valid()
  {
    match s
    case Progress(next, e) => Reads(next) && MeaningOf(c, m) == MeaningOf(c, next).After(e)
    case Wait(next, e) => MeaningOf(c, m).events == e && Ends(c, next, e, MeaningOf(c, m))
    case Reject(_, _) => true
  }

  /** Ending the input in `m`, after the events `e`, completes the meaning `w`. */
  predicate Ends(c: Config, m: Machine, e: seq<Event>, w: Meaning)
    requires c.Valid()
  {
    var o := FeedEof(c, m);
    && (o.Done? ==> Same(w.final, e + o.events) && (Finished(o.machine) <==> w.closes))
    && (o.Done? ==> ((m.state.Body? && Finished(o.machine)) <==> w.atToken))
    && (w.closes && (c.maxTotal == Some(0) ==> !w.atToken) ==> o.Done?)
  }

  lemma CutSingle(c: Config, tail: Bytes)
    requires c.Valid()
    ensures |Cut(tail, c.token)| == 1 ==> Cut(tail, c.token) == [tail]
  {
    if Find(tail, c.token).Some? { CutAt(c, tail, Find(tail, c.token).value); }
  }

  lemma ClosedMeaning(c: Config, seg: Segment, tail: Bytes)
    requires c.Valid() && !Undecided(tail)
    ensures var pieces := Cut(tail, c.token);
      MeaningFrom(c.token, seg, pieces) == MeaningFrom(c.token, ClassifyFirst(pieces), pieces[1..]).After(ClosedEvents(seg))
  {
    hide Cut, Classify, ClosedEvents, TruncatedEvents;
    CutSingle(c, tail);
  }

  lemma UndecidedMeaning(c: Config, seg: Segment, tail: Bytes)
    requires c.Valid() && Undecided(tail)
    ensures MeaningFrom(c.token, seg, Cut(tail, c.token)) == Meaning(
      TruncatedEvents(seg),
      if seg.Part? && seg.body != [] then ClosedEvents(seg) else [],
      seg.Closing? || (seg.Part? && seg.body != [] && tail == []),
      seg.Part? && seg.body != [] && tail == [])
  {
    hide Cut, Classify, ClosedEvents, TruncatedEvents;
    UndecidedHasNoToken(c, tail);
  }

  /** Whether a boundary is a closing one can be read off its piece. */
  lemma ClosingPiece(c: Config, tail: Bytes)
    requires c.Valid()
    ensures var pieces := Cut(tail, c.token);
      DASHES <= tail <==> DASHES <= (if |pieces| > 1 then pieces[0] + DASHES else pieces[0])
  {
    hide Find;
    CutSingle(c, tail);
    if Find(tail, c.token).Some? {
      var i := Find(tail, c.token).value;
      CutAt(c, tail, i);
      TokenStartsWithDash(c);
      AtByte(tail, c.token, i, 0);
      AtByte(tail, c.token, i, 1);
      var s := tail[..i] + DASHES;
      assert s[0] == tail[0] && s[1] == tail[1];
      assert DASHES <= tail <==> tail[0] == DASH && tail[1] == DASH;
      assert DASHES <= s <==> s[0] == DASH && s[1] == DASH;
    }
  }

  lemma OpenSuffix(tail: Bytes)
    requires DelimiterSuffix(tail).Open?
    ensures var n := DelimiterSuffix(tail).length;
      && 2 <= n <= |tail|
      && tail[..n] == tail[..n - 2] + CRLF
      && AllPadding(tail[..n - 2])
  {
    var k := PaddingLength(tail);
    assert tail[k..][..2] == CRLF;
    assert tail[..k + 2] == tail[..k] + tail[k..][..2];
  }

  lemma PaddingIsOneLine(line: Bytes)
    requires AllPadding(line)
    ensures OneLine(line) && LineHeader(line) == []
  {
    forall k: nat | At(line, CRLF, k) ensures false { AtByte(line, CRLF, k, 0); }
    NoHeaderWithoutColon(line);
  }

  /** Boundary padding and the line break after it add nothing to the segment's header block. */
  lemma ClassifyAfterPadding(padding: Bytes, piece: Bytes, followed: bool)
    requires AllPadding(padding)
    ensures Classify(padding + CRLF + piece, followed) == HeaderSegment([], piece)
  {
    hide Find, HeaderLines, LineHeader;
    var s := padding + CRLF + piece;
    PaddingIsOneLine(padding);
    BlankAfterLine(padding, piece);
    assert !(DASHES <= s) && !(DASHES <= s + DASHES) by {
      assert s[0] != DASH && (s + DASHES)[0] == s[0];
    }
    var b := Find(CRLF + piece, BLANK);
    if b.Some? {
      var v := (CRLF + piece)[..b.value];
      assert s[|padding| + b.value + 4..] == (CRLF + piece)[b.value + 4..];
      if b.value == 0 {
        assert v == [] && s[..|padding|] == padding;
        EmptyBlock();
        OneLineBlock(padding);
      } else {
        NotInsideBreak(piece, b.value);
        var inner := piece[..b.value - 2];
        assert v == [] + CRLF + inner;
        assert s[..|padding| + b.value] == padding + CRLF + inner;
        HeaderLinesStep(padding, inner);
        EmptyBlock();
        HeaderLinesStep([], inner);
        NoHeaderWithoutColon([]);
      }
      assert [] + HeaderLines(v) == HeaderLines(v);
    }
  }

  /** A segment that does not begin with a line break reads the same with one put in front. */
  lemma ClassifyAsHeaders(piece: Bytes, followed: bool)
    requires !(CRLF <= piece) && Find(piece, BLANK).Some?
    ensures Classify(piece, followed) == HeaderSegment([], piece)
  {
    hide Find, HeaderLines, LineHeader;
    var s := CRLF + piece;
    if At(s, BLANK, 0) {
      AtByte(s, BLANK, 0, 2);
      AtByte(s, BLANK, 0, 3);
    }
    AtHead(s, BLANK, 1);
    FindDrop(s, BLANK, 2);
    assert s[2..] == piece;
    var i := Find(piece, BLANK).value;
    FindFits(piece, BLANK);
    assert s[i + 2 + 4..] == piece[i + 4..];
    assert s[..i + 2] == [] + CRLF + piece[..i];
    EmptyBlock();
    NoHeaderWithoutColon([]);
    HeaderLinesStep([], piece[..i]);
    assert [] + HeaderLines(piece[..i]) == HeaderLines(piece[..i]);
    assert [] + HeaderLines(s[..i + 2]) == HeaderLines(s[..i + 2]);
  }

  /** Entering the segment after a decided token keeps its meaning. */
  lemma EnterMeaning(c: Config, m: Machine, tail: Bytes)
    requires c.Valid() && !Undecided(tail) && m.headers == [] && !m.pending && !m.eof
    ensures !DelimiterSuffix(tail).Incomplete?
    ensures Reads(Enter(m, tail))
    ensures var pieces := Cut(tail, c.token);
      MeaningOf(c, Enter(m, tail)) == MeaningFrom(c.token, ClassifyFirst(pieces), pieces[1..])
  {
    UndecidedIff(tail);
    if DelimiterSuffix(tail).Open? {
      EnterOpenMeaning(c, m, tail);
    } else {
      EnterOther(m, tail);
    }
  }

  /** The boundary line of an open boundary is the first line of its piece. */
  lemma OpenCut(c: Config, tail: Bytes)
    requires c.Valid() && DelimiterSuffix(tail).Open?
    ensures var n := DelimiterSuffix(tail).length;
      && 2 <= n <= |tail| && AllPadding(tail[..n - 2])
      && var pieces, rest := Cut(tail, c.token), Cut(tail[n..], c.token);
      pieces[0] == tail[..n - 2] + CRLF + rest[0] && pieces[1..] == rest[1..] && |pieces| == |rest|
  {
    hide Find, Cut, DelimiterSuffix;
    var n := DelimiterSuffix(tail).length;
    OpenSuffix(tail);
    assert forall k :: 0 <= k < n ==> tail[..n][k] == tail[k];
    assert forall k :: 0 <= k < n - 2 ==> tail[..n - 2][k] == tail[k];
    NoTokenStarts(c, tail, n);
    CutDrop(c, tail, n);
    assert |Cut(tail, c.token)[1..]| == |Cut(tail[n..], c.token)[1..]|;
  }

  lemma EnterOpenMeaning(c: Config, m: Machine, tail: Bytes)
    requires c.Valid() && DelimiterSuffix(tail).Open? && m.headers == [] && !m.pending && !m.eof
    ensures Reads(Enter(m, tail))
    ensures var pieces := Cut(tail, c.token);
      MeaningOf(c, Enter(m, tail)) == MeaningFrom(c.token, ClassifyFirst(pieces), pieces[1..])
  {
    hide Find, Cut, DelimiterSuffix, MeaningFrom, Classify, HeaderSegment;
    var n := DelimiterSuffix(tail).length;
    OpenCut(c, tail);
    var padding := tail[..n - 2];
    var pieces, rest := Cut(tail, c.token), Cut(tail[n..], c.token);
    ClassifyAfterPadding(padding, rest[0], |pieces| > 1);
  }

  lemma BreakIsOpen(tail: Bytes)
    requires CRLF <= tail
    ensures DelimiterSuffix(tail).Open?
  {
    PaddingStops(tail, 0);
    assert tail[0..] == tail;
  }

  lemma EnterOther(m: Machine, tail: Bytes)
    requires !DelimiterSuffix(tail).Incomplete? && !DelimiterSuffix(tail).Open? && !Undecided(tail)
    requires m.headers == [] && !m.pending && !m.eof
    ensures var next := Enter(m, tail);
      Reads(next) && next.buffer == tail && (next.state.Discard? || next.state.End?)
  {
    if CRLF <= tail { BreakIsOpen(tail); }
  }

  lemma NothingMore()
    ensures var none: seq<Event> := []; none + none == none
  {
  }

  // ----- one handler call

  lemma NoBlockOpen(c: Config, m: Machine)
    ensures m.state.End? ==> EofHeaderSize(c, m) == None
  {
  }

  /** A segment without body bytes is closed by the token at `i`; `seg` is that segment. */
  lemma RawBoundaryRefines(c: Config, m: Machine, i: nat, seg: Segment)
    requires c.Valid() && At(m.buffer, c.token, i) && m.headers == [] && !m.pending && !m.eof
    requires m.state.Header? || m.state.Discard? || m.state.End?
    requires (seg.Part? ==> seg.body == []) && (seg.Closing? <==> m.state.End?)
    ensures var w := MeaningFrom(c.token, seg, Cut(m.buffer[i + |c.token|..], c.token));
      match StepRawBoundary(c, m, i)
      case Progress(next, e) => Reads(next) && w == MeaningOf(c, next).After(e)
      case Wait(next, e) => w.events == e && Ends(c, next, e, w)
      case Reject(_, _) => false
  {
    hide Cut, DelimiterSuffix, Enter, Classify, MeaningOf, Reads, MeaningFrom, EofHeaderSize, Find;
    var tail := m.buffer[i + |c.token|..];
    UndecidedIff(tail);
    if Undecided(tail) {
      UndecidedMeaning(c, seg, tail);
      NothingMore();
      NoBlockOpen(c, m.(eof := true, buffer := m.buffer[i..]));
    } else {
      ClosedMeaning(c, seg, tail);
      EnterMeaning(c, m, tail);
    }
  }

  lemma PreambleRefines(c: Config, m: Machine)
    requires c.Valid() && Reads(m) && m.state.Preamble?
    ensures Refines(c, m, StepPreamble(c, m))
  {
    hide Cut, DelimiterSuffix, Enter, Classify, MeaningFrom, EofHeaderSize, Find, EventsFrom, FinalEventsFrom,
      ClosesFrom, EndsAtTokenFrom;
    CutSingle(c, m.buffer);
    match Find(m.buffer, c.token)
    case Some(i) =>
      var tail := m.buffer[i + |c.token|..];
      CutAt(c, m.buffer, i);
      UndecidedIff(tail);
      if Undecided(tail) {
        UndecidedHasNoToken(c, tail);
        NothingMore();
      } else {
        EnterMeaning(c, m, tail);
        EnteredMeaning(c, m, tail);
      }
    case None =>
      CutNone(c, m.buffer);
      NothingMore();
  }

  lemma EnteredMeaning(c: Config, m: Machine, tail: Bytes)
    requires c.Valid() && !Undecided(tail) && Find(m.buffer, c.token).Some?
    requires tail == m.buffer[Find(m.buffer, c.token).value + |c.token|..]
    ensures var pieces := Cut(tail, c.token);
      MessageMeaning(c.token, m.buffer) == MeaningFrom(c.token, ClassifyFirst(pieces), pieces[1..]).After([])
  {
    hide Cut, Classify, Find, EventsFrom, FinalEventsFrom, ClosesFrom, EndsAtTokenFrom;
    CutAt(c, m.buffer, Find(m.buffer, c.token).value);
    var pieces, all := Cut(tail, c.token), Cut(m.buffer, c.token);
    CutSingle(c, tail);
    assert all == [all[0]] + pieces;
    assert all[2..] == pieces[1..];
    var w := MeaningFrom(c.token, ClassifyFirst(pieces), pieces[1..]);
    assert [] + w.events == w.events && [] + w.final == w.final;
  }

  lemma BlankBeforeToken(c: Config, buffer: Bytes, blank: nat, boundary: nat)
    requires c.Valid() && At(buffer, BLANK, blank) && At(buffer, c.token, boundary) && blank < boundary
    ensures blank + 4 <= boundary
  {
    AtByte(buffer, BLANK, blank, 1);
    AtByte(buffer, BLANK, blank, 2);
    AtByte(buffer, BLANK, blank, 3);
    Chunking.TokenHasNoBreak(c, buffer, boundary, blank + 1);
    Chunking.TokenHasNoBreak(c, buffer, boundary, blank + 2);
    Chunking.TokenHasNoBreak(c, buffer, boundary, blank + 3);
  }

  lemma BlankWithinPiece(c: Config, buffer: Bytes)
    requires c.Valid()
    ensures var boundary, blank := Find(buffer, c.token), Find(buffer, BLANK);
      var piece := Cut(buffer, c.token)[0];
      Find(piece, BLANK) == if blank.Some? && (boundary.None? || blank.value < boundary.value) then blank else None
  {
    hide Find;
    var boundary, blank := Find(buffer, c.token), Find(buffer, BLANK);
    if boundary.Some? {
      CutAt(c, buffer, boundary.value);
      FindTake(buffer, BLANK, boundary.value);
      if blank.Some? && blank.value < boundary.value { BlankBeforeToken(c, buffer, blank.value, boundary.value); }
    } else {
      CutNone(c, buffer);
    }
  }

  lemma NotBreakFirst(c: Config, buffer: Bytes)
    requires c.Valid() && !(CRLF <= buffer)
    ensures !(CRLF <= Cut(buffer, c.token)[0])
  {
    hide Find;
    if Find(buffer, c.token).Some? {
      CutAt(c, buffer, Find(buffer, c.token).value);
    } else {
      CutNone(c, buffer);
    }
  }

  lemma RawSegmentRefines(c: Config, m: Machine)
    requires c.Valid() && Reads(m) && (m.state.Discard? || m.state.End?)
    ensures Refines(c, m, StepRawSegment(c, m))
  {
    hide Cut, DelimiterSuffix, Enter, StepRawBoundary, EofHeaderSize, Find, EventsFrom, FinalEventsFrom,
      ClosesFrom, EndsAtTokenFrom, HeaderSegment, HeaderLines;
    var boundary := Find(m.buffer, c.token);
    var pieces := Cut(m.buffer, c.token);
    BlankWithinPiece(c, m.buffer);
    NotBreakFirst(c, m.buffer);
    ClosingPiece(c, m.buffer);
    var s := StepRawSegment(c, m);
    if Find(pieces[0], BLANK).Some? {
      ClassifyAsHeaders(pieces[0], |pieces| > 1);
      var w := MeaningOf(c, s.machine);
      assert [] + w.events == w.events && [] + w.final == w.final;
    } else if boundary.Some? {
      CutAt(c, m.buffer, boundary.value);
      RawBoundaryRefines(c, m, boundary.value, ClassifyFirst(pieces));
    } else {
      CutNone(c, m.buffer);
      assert pieces[1..] == [];
      RawSegmentEnds(c, m, ClassifyFirst(pieces));
    }
  }

  lemma RawSegmentEnds(c: Config, m: Machine, seg: Segment)
    requires c.Valid() && Reads(m) && (m.state.Discard? || m.state.End?)
    requires !seg.Part? && (seg.Closing? <==> m.state.End?)
    ensures MeaningFrom(c.token, seg, []).events == [] && Ends(c, m, [], MeaningFrom(c.token, seg, []))
  {
    hide EofHeaderSize, Find, DelimiterSuffix;
    NothingMore();
    NoBlockOpen(c, m.(eof := true));
  }

  lemma HeaderRefines(c: Config, m: Machine)
    requires c.Valid() && Reads(m) && m.state.Header?
    ensures Refines(c, m, StepHeader(c, m))
  {
    hide Cut, DelimiterSuffix, Enter, StepRawBoundary, EofHeaderSize, Find, MeaningFrom, HeaderSegment,
      LineHeader, StepHeaderLine, HeaderRetained;
    var boundary, line := Find(m.buffer, c.token), Find(m.buffer, CRLF);
    var s := StepHeader(c, m);
    if boundary.Some? && (line.None? || boundary.value < line.value) {
      var i := boundary.value;
      CutAt(c, m.buffer, i);
      LineWithinPiece(c, m.buffer);
      NoBreakIsStray(m.headers, m.buffer[..i]);
      RawBoundaryRefines(c, m.(headers := [], headerSize := 0), i, Stray);
    } else if line.Some? {
      HeaderLineRefines(c, m, line.value);
    } else {
      CutNone(c, m.buffer);
      assert Cut(m.buffer, c.token)[1..] == [];
      NoBreakIsStray(m.headers, m.buffer);
      HeaderEnds(c, m);
    }
  }

  lemma LineWithinPiece(c: Config, buffer: Bytes)
    requires c.Valid() && Find(buffer, c.token).Some?
    requires Find(buffer, CRLF).None? || Find(buffer, c.token).value < Find(buffer, CRLF).value
    ensures OneLine(buffer[..Find(buffer, c.token).value])
  {
    hide Find;
    FindTake(buffer, CRLF, Find(buffer, c.token).value);
  }

  lemma BreakInBlank(piece: Bytes, k: nat)
    requires At(CRLF + piece, BLANK, k)
    ensures At(piece, CRLF, k)
  {
    var s := CRLF + piece;
    AtByte(s, BLANK, k, 2);
    AtByte(s, BLANK, k, 3);
    assert s[k + 2] == piece[k] && s[k + 3] == piece[k + 1];
    assert piece[k..k + 2] == CRLF;
  }

  lemma NoBreakIsStray(headers: Headers, piece: Bytes)
    requires OneLine(piece)
    ensures HeaderSegment(headers, piece) == Stray
  {
    hide Find;
    var s := CRLF + piece;
    forall k: nat | At(s, BLANK, k) ensures false { BreakInBlank(piece, k); }
  }

  lemma HeaderEnds(c: Config, m: Machine)
    requires c.Valid() && Reads(m) && m.state.Header?
    ensures MeaningFrom(c.token, Stray, []).events == [] && Ends(c, m, [], MeaningFrom(c.token, Stray, []))
  {
    hide EofHeaderSize, Find, DelimiterSuffix;
    NothingMore();
  }

  lemma NoTokenHere(c: Config, s: Bytes, k: nat)
    requires c.Valid() && k < |s| && s[k] != DASH
    ensures !At(s, c.token, k)
  {
    TokenStartsWithDash(c);
    AtHead(s, c.token, k);
  }

  /** Taking a header line off the buffer takes it off the first piece. */
  lemma HeaderLineCut(c: Config, buffer: Bytes, i: nat)
    requires c.Valid() && Find(buffer, CRLF) == Some(i)
    requires Find(buffer, c.token).None? || i <= Find(buffer, c.token).value
    ensures OneLine(buffer[..i])
    ensures Cut(buffer, c.token)[0] == buffer[..i] + CRLF + Cut(buffer[i + 2..], c.token)[0]
    ensures Cut(buffer, c.token)[1..] == Cut(buffer[i + 2..], c.token)[1..]
  {
    hide Find, Cut;
    FindTake(buffer, CRLF, i);
    AtByte(buffer, CRLF, i, 0);
    AtByte(buffer, CRLF, i, 1);
    NoTokenHere(c, buffer, i);
    NoTokenHere(c, buffer, i + 1);
    CutDrop(c, buffer, i + 2);
    assert buffer[..i + 2] == buffer[..i] + CRLF;
  }

  lemma HeaderLineRefines(c: Config, m: Machine, i: nat)
    requires c.Valid() && Reads(m) && m.state.Header?
    requires Find(m.buffer, CRLF) == Some(i)
    requires Find(m.buffer, c.token).None? || i <= Find(m.buffer, c.token).value
    ensures Refines(c, m, StepHeaderLine(c, m, i))
  {
    hide Cut, DelimiterSuffix, EofHeaderSize, Find, MeaningFrom, HeaderSegment, LineHeader;
    var b := m.buffer;
    var line := b[..i];
    HeaderLineCut(c, b, i);
    var pieces, rest := Cut(b, c.token), Cut(b[i + 2..], c.token);
    var s := StepHeaderLine(c, m, i);
    if s.Progress? {
      var w := MeaningOf(c, s.machine);
      MeaningAfterNothing(w);
      if i == 0 {
        assert line + CRLF + rest[0] == CRLF + rest[0];
        HeaderSegmentBlank(m.headers, rest[0]);
      } else {
        HeaderSegmentLine(m.headers, line, rest[0]);
      }
    }
  }

  lemma MeaningAfterNothing(w: Meaning)
    ensures w.After([]) == w
  {
    assert [] + w.events == w.events && [] + w.final == w.final;
  }

  // ----- bodies

  lemma BodyRefines(c: Config, m: Machine)
    requires c.Valid() && Reads(m) && m.state.Body?
    ensures Refines(c, m, StepBody(c, m))
  {
    hide Cut, DelimiterSuffix, Enter, StepRawBoundary, EofHeaderSize, Find, MeaningFrom, StepOpenBody;
    var released := m.(headers := [], headerSize := 0, pending := false);
    if |m.buffer| < |c.token| && m.buffer <= c.token {
      NoRoomForToken(c, m.buffer);
      assert Cut(m.buffer, c.token)[1..] == [];
      PendingEnds(c, m);
    } else if c.token <= m.buffer {
      Chunking.FindAtStart(c, m.buffer);
      CutAt(c, m.buffer, 0);
      RawBoundaryRefines(c, released.(state := Discard), 0, Part(m.headers, []));
    } else {
      OpenBodyRefines(c, released, m.headers);
    }
  }

  lemma NoRoomForToken(c: Config, buffer: Bytes)
    requires c.Valid() && |buffer| < |c.token|
    ensures Cut(buffer, c.token) == [buffer] && Find(buffer, c.token) == None
  {
    FindNone(buffer, c.token);
    CutNone(c, buffer);
  }

  lemma PendingEnds(c: Config, m: Machine)
    requires c.Valid() && Reads(m) && m.state.Body? && |m.buffer| < |c.token| && m.buffer <= c.token
    ensures MeaningFrom(c.token, Part(m.headers, m.buffer), []).events == []
    ensures Ends(c, m, [], MeaningFrom(c.token, Part(m.headers, m.buffer), []))
  {
    hide EofHeaderSize, Find, DelimiterSuffix, DataEvents;
    NoRoomForToken(c, m.buffer);
    var o := FeedEof(c, m);
    assert o.Done? ==> [] + o.events == o.events;
  }

  /** A body whose headers are announced now; its first byte is buffered and is no token's start. */
  lemma OpenBodyRefines(c: Config, m: Machine, headers: Headers)
    requires c.Valid() && m.state.Body? && !m.pending && m.headers == [] && !m.eof
    requires !(c.token <= m.buffer) && !(|m.buffer| < |c.token| && m.buffer <= c.token)
    ensures Refines(c, m.(headers := headers, pending := true), StepOpenBody(c, m, [Begin(headers)]))
  {
    hide Cut, DelimiterSuffix, Enter, EofHeaderSize, Find, MeaningFrom, BodyDataEnd, StepOpenBody;
    if Find(m.buffer, c.token).Some? {
      OpenBodyAtToken(c, m, headers, Find(m.buffer, c.token).value);
    } else {
      CutNone(c, m.buffer);
      assert Cut(m.buffer, c.token)[1..] == [];
      OpenBodyEnds(c, m, headers);
    }
  }

  lemma OpenBodyAtToken(c: Config, m: Machine, headers: Headers, i: nat)
    requires c.Valid() && m.state.Body? && !m.pending && m.headers == [] && !m.eof
    requires !(c.token <= m.buffer) && Find(m.buffer, c.token) == Some(i)
    ensures Refines(c, m.(headers := headers, pending := true), StepOpenBody(c, m, [Begin(headers)]))
  {
    hide Cut, DelimiterSuffix, Enter, EofHeaderSize, Find, MeaningFrom, BodyDataEnd, StripBreak, Reads, FeedEof;
    var tail := m.buffer[i + |c.token|..];
    var body := m.buffer[..i];
    var seg := Part(headers, body);
    CutAt(c, m.buffer, i);
    StripBreakIs(m.buffer, i);
    UndecidedIff(tail);
    assert body != [];
    if Undecided(tail) {
      UndecidedMeaning(c, seg, tail);
      TruncatedEnds(c, m, i, [Begin(headers)] + DataEvents(StripBreak(body)));
    } else {
      ClosedMeaning(c, seg, tail);
      EnterMeaning(c, m, tail);
    }
  }

  lemma ExactTokenFits(c: Config, m: Machine, i: nat)
    requires c.Valid() && m.state.Body? && Find(m.buffer, c.token) == Some(i) && m.buffer[i + |c.token|..] == []
    ensures var size := EofHeaderSize(c, m.(eof := true, buffer := m.buffer[BodyDataEnd(m.buffer, i)..]));
      size == None || size == Some(0)
  {
    hide Find, DelimiterSuffix, BodyDataEnd;
    var kept := m.buffer[BodyDataEnd(m.buffer, i)..];
    assert |kept| <= 2 + |c.token|;
  }

  /** At EOF the kept line break and token end the part without another byte of data. */
  lemma TruncatedEnds(c: Config, m: Machine, i: nat, e: seq<Event>)
    requires c.Valid() && m.state.Body? && !m.pending && !m.eof && Find(m.buffer, c.token) == Some(i)
    requires Undecided(m.buffer[i + |c.token|..])
    ensures var o := FeedEof(c, m.(buffer := m.buffer[BodyDataEnd(m.buffer, i)..]));
      && (o.Done? ==> o.events == [EndPart] && (Finished(o.machine) <==> m.buffer[i + |c.token|..] == []))
      && (m.buffer[i + |c.token|..] == [] && c.maxTotal != Some(0) ==> o.Done?)
  {
    hide DelimiterSuffix, EofHeaderSize, Find, BodyDataEnd;
    if m.buffer[i + |c.token|..] == [] { ExactTokenFits(c, m, i); }
    var end := BodyDataEnd(m.buffer, i);
    var kept := m.buffer[end..];
    Chunking.StrippedBreak(m.buffer, i);
    FindDrop(m.buffer, c.token, end);
    assert kept[i - end + |c.token|..] == m.buffer[i + |c.token|..];
    UndecidedIff(m.buffer[i + |c.token|..]);
    assert kept[..0] == [];
    assert ([] + []) + [EndPart] == [EndPart];
  }

  lemma OpenBodyEnds(c: Config, m: Machine, headers: Headers)
    requires c.Valid() && m.state.Body? && !m.pending && m.headers == [] && !m.eof
    requires Find(m.buffer, c.token) == None && !(|m.buffer| < |c.token| && m.buffer <= c.token)
    ensures match StepOpenBody(c, m, [Begin(headers)])
      case Wait(next, e) =>
        var w := MeaningFrom(c.token, Part(headers, m.buffer), []);
        w.events == e && Ends(c, next, e, w)
      case _ => false
  {
    hide DelimiterSuffix, EofHeaderSize, Find, DataEvents, AppendEvents;
    var begun := [Begin(headers)];
    var b := m.buffer;
    if |b| > |c.token| + 1 {
      var n := |b| - |c.token| - 1;
      FindDrop(b, c.token, n);
      assert b == b[..n] + b[n..];
      Chunking.DataEventsJoin(begun, b[..n], b[n..], []);
      FlushEnds(c, m.(buffer := b[n..]));
      assert begun + DataEvents(b) + [] == begun + DataEvents(b);
      assert DataEvents(b[n..]) + [] == DataEvents(b[n..]);
    } else {
      FlushEnds(c, m);
      assert begun + [] == begun;
    }
  }

  lemma FlushEnds(c: Config, m: Machine)
    requires c.Valid() && m.state.Body? && !m.pending && !m.eof && Find(m.buffer, c.token) == None
    ensures var o := FeedEof(c, m); o.Done? ==> o.events == DataEvents(m.buffer) && !Finished(o.machine)
  {
    hide DelimiterSuffix, EofHeaderSize, Find, DataEvents;
    var d := DataEvents(m.buffer);
    assert [] + d == d;
  }

  // ----- whole runs and whole messages

  lemma StepRefines(c: Config, m: Machine)
    requires c.Valid() && Reads(m)
    ensures Refines(c, m, StepOnce(c, m))
  {
    hide StepPreamble, StepHeader, StepBody, StepRawSegment, Refines;
    match m.state
    case Preamble => PreambleRefines(c, m);
    case Header => HeaderRefines(c, m);
    case Body => BodyRefines(c, m);
    case _ => RawSegmentRefines(c, m);
  }

  lemma EndsAfter(c: Config, m: Machine, e: seq<Event>, w: Meaning, earlier: seq<Event>)
    requires c.Valid() && Ends(c, m, e, w)
    ensures Ends(c, m, earlier + e, w.After(earlier))
  {
    hide FeedEof, AppendEvents;
    var o := FeedEof(c, m);
    if o.Done? {
      SamePrefix(earlier, w.final, e + o.events);
      assert earlier + (e + o.events) == (earlier + e) + o.events;
    }
  }

  lemma {:induction false} RunRefines(c: Config, m: Machine)
    requires c.Valid() && Reads(m)
    ensures var o := Run(c, m);
      o.Done? ==> MeaningOf(c, m).events == o.events && Ends(c, o.machine, o.events, MeaningOf(c, m))
    decreases Measure(m)
  {
    hide StepOnce, MeaningOf, Reads, Ends, Measure;
    StepDecreases(c, m);
    StepRefines(c, m);
    match StepOnce(c, m)
    case Progress(next, e) =>
      RunRefines(c, next);
      var o := Run(c, next);
      if o.Done? { EndsAfter(c, o.machine, o.events, MeaningOf(c, next), e); }
    case Wait(_, _) =>
    case Reject(_, _) =>
  }

  lemma FeedRefines(c: Config, s: Bytes)
    requires c.Valid()
    ensures var o := Feed(c, FRESH, s);
      o.Done? ==> o.events == MessageEvents(c.token, s) && Ends(c, o.machine, o.events, MessageMeaning(c.token, s))
  {
    hide Run, MessageEvents, FinalMessageEvents, MessageCloses, MessageEndsAtToken, Ends;
    assert [] + s == s;
    RunRefines(c, Receive(FRESH, s));
  }
}
