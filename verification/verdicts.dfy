/** The parser's verdicts read off the stream: a call is accepted exactly if the pieces of the stream
    fit the limits, and so is the end of the input. */
module Verdicts {
  import opened Bytes
  import opened Machines
  import opened Chunking
  import opened Segments
  import opened Refinement

  // ----- the limits, on the pieces of a stream

  predicate SizeFits(c: Config, n: nat) { c.maxSize.None? || n <= c.maxSize.value }

  predicate Fits(c: Config, n: nat) { c.maxTotal.None? || n <= c.maxTotal.value }

  /** At EOF the total limit must not even be reached. */
  predicate Below(c: Config, n: nat) { c.maxTotal.None? || n < c.maxTotal.value }

  /** What is asked of a stream: that feeding it is accepted, that its header blocks are, or that
      ending the input behind it is. */
  datatype Demand = ForFeeding | ForHeaders | ForEnding

  /** What a token follows: a line break that begins the stream or ends a body, a body that ends
      otherwise, a header block cut short, or a segment without a body. */
  datatype Before = LineBreak | BodyText | HeaderBlock | RawText

  /** Bytes of a header block, behind the line break in front of it: through its blank line, or all of it. */
  function RestCost(piece: Bytes): nat {
    match Find(CRLF + piece, BLANK)
    case Some(i) => i + 2
    case None => |piece|
  }

  function RestRetained(c: Config, piece: Bytes, open: bool): (n: nat)
    ensures n <= RestCost(piece)
  {
    if open && Find(CRLF + piece, BLANK).None? then HeaderRetained(c, piece) else 0
  }

  /** Header lines within the line limit and not too many of them, with `n` headers collected before.
      A line that is still open is charged without what a line break or token may claim. */
  predicate RoomFor(c: Config, n: nat, piece: Bytes, open: bool)
    decreases |piece|
  {
    match Find(piece, CRLF)
    case None => |piece| - (if open then HeaderRetained(c, piece) else 0) <= c.maxHeaderSize
    case Some(i) =>
      i == 0 || (
        && i <= c.maxHeaderSize
        && (LineHeader(piece[..i]) == [] || n != c.maxHeaderCount)
        && RoomFor(c, n + |LineHeader(piece[..i])|, piece[i + 2..], open))
  }

  /** A header block with `size` bytes and `n` headers charged before `piece`. */
  predicate BlockFits(c: Config, d: Demand, size: nat, n: nat, piece: Bytes, open: bool) {
    if d.ForEnding? then open && Find(CRLF + piece, BLANK).None? ==> Below(c, size + |piece|)
    else Fits(c, size + RestCost(piece) - RestRetained(c, piece, open)) && RoomFor(c, n, piece, open)
  }

  /** The piece begins with the rest of an open boundary line. */
  predicate Opened(piece: Bytes) { CRLF <= piece[PaddingLength(piece)..] }

  /** A piece behind a token. It is a header block if its boundary line is open or if it has a blank
      line; other text is charged only while it is the last piece. */
  predicate PieceFits(c: Config, d: Demand, piece: Bytes, open: bool) {
    if Opened(piece) then
      var n := PaddingLength(piece) + 2;
      BlockFits(c, d, n, 0, piece[n..], open)
    else if Find(piece, BLANK).Some? then BlockFits(c, d, 0, 0, piece, open)
    else d.ForFeeding? && open ==> Fits(c, |piece|)
  }

  function BeforeOf(seg: Segment, block: bool): Before {
    if seg.Part? && seg.body != [] then
      if |seg.body| >= 2 && seg.body[|seg.body| - 2..] == CRLF then LineBreak else BodyText
    else if !seg.Part? && block then HeaderBlock
    else RawText
  }

  /** What a token behind `piece` follows. */
  function BeforeToken(piece: Bytes): Before { BeforeOf(Classify(piece, true), Opened(piece)) }

  /** An undecided end of the stream behind its last token. */
  predicate TailFits(c: Config, d: Demand, before: Before, tail: Bytes) {
    match d
    case ForHeaders => true
    case ForFeeding => before.LineBreak? || before.BodyText? ==> [DASH] <= tail || Fits(c, |tail|)
    case ForEnding =>
      match before
      case LineBreak => [DASH] <= tail || Below(c, |tail|)
      case HeaderBlock => Below(c, |c.token| + |tail|)
      case _ => true
  }

  /** The pieces behind a token. */
  predicate LimitsFit(c: Config, d: Demand, before: Before, pieces: seq<Bytes>)
    requires pieces != []
    decreases |pieces|
  {
    if |pieces| == 1 && Undecided(pieces[0]) then TailFits(c, d, before, pieces[0])
    else
      && PieceFits(c, d, pieces[0], |pieces| == 1)
      && (|pieces| > 1 ==> LimitsFit(c, d, BeforeToken(pieces[0]), pieces[1..]))
  }

  /** All pieces of a stream; the text before the first token is free. */
  predicate StreamFits(c: Config, d: Demand, s: Bytes)
    requires c.Valid()
  {
    var pieces := Cut(s, c.token);
    |pieces| > 1 ==> LimitsFit(c, d, LineBreak, pieces[1..])
  }

  /** The condition for one call on a fresh parser. */
  predicate FitsExactly(c: Config, s: Bytes)
    requires c.Valid()
  {
    SizeFits(c, |s|) && StreamFits(c, ForFeeding, s)
  }

  // ----- the same for a machine in the middle of a run

  predicate Rest(c: Config, d: Demand, before: Before, pieces: seq<Bytes>)
    requires pieces != []
  {
    |pieces| > 1 ==> LimitsFit(c, d, before, pieces[1..])
  }

  predicate Budget(c: Config, d: Demand, m: Machine)
    requires c.Valid()
  {
    var pieces := Cut(m.buffer, c.token);
    match m.state
    case Preamble => StreamFits(c, d, m.buffer)
    case Header =>
      && BlockFits(c, d, m.headerSize, |m.headers|, pieces[0], |pieces| == 1)
      && Rest(c, d, BeforeOf(HeaderSegment(m.headers, pieces[0]), true), pieces)
    case Body => Rest(c, d, BeforeOf(Part(m.headers, pieces[0]), true), pieces)
    case _ => LimitsFit(c, d, RawText, pieces)
  }

  /** Holds of every machine between the handler calls of one run. */
  predicate InRun(m: Machine) {
    && Reads(m)
    && (m.headerSize != 0 ==> m.state.Header? || m.state.Body?)
    && (m.state.Discard? || m.state.End? ==> !DelimiterSuffix(m.buffer).Open?)
  }

  /** The step keeps what `fit` says of the stream, or it gives the verdict. */
  predicate Answers(c: Config, d: Demand, fit: bool, s: Step)
    requires c.Valid()
  {
    match s
    case Progress(next, _) => InRun(next) && (fit <==> Budget(c, d, next))
    case Wait(next, _) => if d.ForEnding? then FeedEof(c, next).Done? <==> fit else fit
    case Reject(next, _) =>
      match d
      case ForFeeding => !fit
      case ForHeaders => next.state.Header? <==> !fit
      case ForEnding => true
  }

  // ----- costs of header blocks

  lemma CostAfterLine(line: Bytes, rest: Bytes)
    requires line != [] && OneLine(line)
    ensures RestCost(line + CRLF + rest) == |line| + 2 + RestCost(rest)
  {
    hide Find;
    BlankAfterHeaderLine(line, rest);
  }

  lemma CostOfBlankLine(rest: Bytes)
    ensures RestCost(CRLF + rest) == 2
  {
    hide Find;
    var s := CRLF + (CRLF + rest);
    assert s[0..4] == BLANK;
    assert At(s, BLANK, 0);
    FindIs(s, BLANK, 0);
  }

  lemma CostWithoutBreak(piece: Bytes)
    requires OneLine(piece)
    ensures RestCost(piece) == |piece|
  {
    hide Find;
    NoBreakIsStray([], piece);
  }

  lemma CostAsBlock(piece: Bytes)
    requires !(CRLF <= piece) && Find(piece, BLANK).Some?
    ensures Find(CRLF + piece, BLANK) == Some(Find(piece, BLANK).value + 2)
  {
    hide Find;
    var s := CRLF + piece;
    if At(s, BLANK, 0) {
      AtByte(s, BLANK, 0, 2);
      AtByte(s, BLANK, 0, 3);
    }
    AtHead(s, BLANK, 1);
    FindDrop(s, BLANK, 2);
    assert s[2..] == piece;
  }

  lemma LateByte(tail: Bytes, k: nat)
    requires Undecided(tail) && k < |tail|
    ensures tail[k] != LF
  {
    if tail != [DASH] && !AllPadding(tail) && k < |tail| - 1 { assert tail[..|tail| - 1][k] == tail[k]; }
  }

  lemma PieceOf(c: Config, buffer: Bytes)
    requires c.Valid()
    ensures var piece, boundary := Cut(buffer, c.token)[0], Find(buffer, c.token);
      piece <= buffer && |piece| == if boundary.Some? then boundary.value else |buffer|
  {
    hide Find;
    if Find(buffer, c.token).Some? {
      CutAt(c, buffer, Find(buffer, c.token).value);
    } else {
      CutNone(c, buffer);
    }
  }

  // ----- entering a segment

  lemma EnterExact(c: Config, d: Demand, before: Before, m: Machine, tail: Bytes)
    requires c.Valid() && !Undecided(tail) && m.headers == [] && !m.pending && !m.eof && m.headerSize == 0
    ensures !DelimiterSuffix(tail).Incomplete? && InRun(Enter(m, tail))
    ensures LimitsFit(c, d, before, Cut(tail, c.token)) <==> Budget(c, d, Enter(m, tail))
  {
    hide Find, Cut, DelimiterSuffix, Reads, BlockFits, Undecided, Classify, HeaderSegment, BeforeOf;
    UndecidedIff(tail);
    EnterMeaning(c, m, tail);
    CutSingle(c, tail);
    if DelimiterSuffix(tail).Open? {
      OpenedExact(c, d, before, tail);
    } else {
      EnterOther(m, tail);
    }
  }

  lemma OpenedExact(c: Config, d: Demand, before: Before, tail: Bytes)
    requires c.Valid() && !Undecided(tail) && DelimiterSuffix(tail).Open?
    ensures DelimiterSuffix(tail).length <= |tail|
    ensures var n := DelimiterSuffix(tail).length;
      var rest := Cut(tail[n..], c.token);
      LimitsFit(c, d, before, Cut(tail, c.token)) <==>
        && BlockFits(c, d, n, 0, rest[0], |rest| == 1)
        && Rest(c, d, BeforeOf(HeaderSegment([], rest[0]), true), rest)
  {
    hide Find, Cut, DelimiterSuffix, BlockFits, Undecided, Classify, HeaderSegment, BeforeOf;
    OpenCut(c, tail);
    CutSingle(c, tail);
    var n := DelimiterSuffix(tail).length;
    var rest := Cut(tail[n..], c.token)[0];
    OpenedAfterPadding(tail[..n - 2], rest);
    ClassifyAfterPadding(tail[..n - 2], rest, true);
  }

  lemma OpenedAfterPadding(padding: Bytes, rest: Bytes)
    requires AllPadding(padding)
    ensures var piece := padding + CRLF + rest;
      PaddingLength(piece) == |padding| && Opened(piece) && piece[|padding| + 2..] == rest
  {
    var piece := padding + CRLF + rest;
    assert piece[..|padding|] == padding && piece[|padding|] == CR;
    PaddingStops(piece, |padding|);
    assert piece[|padding|..] == CRLF + rest;
  }

  /** The piece behind any other boundary has no open boundary line. */
  lemma NotOpened(c: Config, tail: Bytes)
    requires c.Valid() && !DelimiterSuffix(tail).Open?
    ensures !Opened(Cut(tail, c.token)[0])
  {
    hide Find, Cut;
    var piece := Cut(tail, c.token)[0];
    PieceOf(c, tail);
    if Opened(piece) { BoundaryLineOpens(tail, piece); }
  }

  lemma BoundaryLineOpens(tail: Bytes, piece: Bytes)
    requires piece <= tail && Opened(piece)
    ensures DelimiterSuffix(tail).Open?
  {
    var n := PaddingLength(piece);
    assert piece[n..][0] == CR && piece[n..][1] == LF;
    assert tail[n] == CR && tail[n + 1] == LF;
    assert tail[..n] == piece[..n];
    assert forall k :: 0 <= k < n ==> tail[..n][k] == piece[k];
    PaddingStops(tail, n);
    assert tail[n..][..2] == CRLF;
  }

  lemma UndecidedFits(c: Config, d: Demand, before: Before, tail: Bytes)
    requires c.Valid() && Undecided(tail)
    ensures LimitsFit(c, d, before, Cut(tail, c.token)) <==> TailFits(c, d, before, tail)
  {
    hide Find, Cut, Undecided;
    UndecidedHasNoToken(c, tail);
  }

  // ----- one handler call

  /** A token at `i` closes a segment without a body. */
  lemma RawBoundaryExact(c: Config, d: Demand, before: Before, m: Machine, i: nat)
    requires c.Valid() && Find(m.buffer, c.token) == Some(i)
    requires m.headers == [] && !m.pending && !m.eof && m.headerSize == 0
    requires if before.HeaderBlock? then m.state.Header? else before.RawText? && (m.state.Discard? || m.state.End?)
    ensures !StepRawBoundary(c, m, i).Reject?
    ensures Answers(c, d, LimitsFit(c, d, before, Cut(m.buffer[i + |c.token|..], c.token)), StepRawBoundary(c, m, i))
  {
    hide Find, Cut, DelimiterSuffix, Budget, LimitsFit, Undecided, Enter, InRun, FeedEof;
    var tail := m.buffer[i + |c.token|..];
    UndecidedIff(tail);
    if Undecided(tail) {
      UndecidedFits(c, d, before, tail);
      EofDone(c, m.(buffer := m.buffer[i..]));
    } else {
      EnterExact(c, d, before, m, tail);
    }
  }

  /** Whether the end of the input is accepted depends on the header bytes that are still open. */
  lemma EofDone(c: Config, m: Machine)
    requires !m.eof && (m.pending ==> m.state.Body?)
    ensures FeedEof(c, m).Done? <==> (EofHeaderSize(c, m).Some? ==> Below(c, EofHeaderSize(c, m).value))
  {
    hide Find, DelimiterSuffix;
  }

  lemma PreambleExact(c: Config, d: Demand, m: Machine)
    requires c.Valid() && InRun(m) && m.state.Preamble?
    ensures Answers(c, d, Budget(c, d, m), StepPreamble(c, m))
  {
    hide Find, Cut, DelimiterSuffix, LimitsFit, Undecided, Enter, FeedEof;
    var found := Find(m.buffer, c.token);
    if found.Some? {
      var i := found.value;
      var tail := m.buffer[i + |c.token|..];
      CutAt(c, m.buffer, i);
      UndecidedIff(tail);
      if Undecided(tail) {
        UndecidedFits(c, d, LineBreak, tail);
        var kept := m.buffer[i..];
        assert kept[..|c.token|] == c.token && kept[|c.token|..] == tail;
        EofDone(c, m.(buffer := kept));
      } else {
        EnterExact(c, d, LineBreak, m, tail);
      }
    } else {
      CutNone(c, m.buffer);
      var kept := if |m.buffer| > |c.token| + 1 then m.buffer[|m.buffer| - |c.token| - 1..] else m.buffer;
      NoTokenKept(c, m.buffer, |m.buffer| - |kept|);
      assert m.buffer[0..] == m.buffer;
      EofDone(c, m.(buffer := kept));
    }
  }

  lemma NoTokenKept(c: Config, buffer: Bytes, n: nat)
    requires c.Valid() && n <= |buffer| && Find(buffer, c.token).None?
    ensures Find(buffer[n..], c.token).None? && !(c.token <= buffer[n..])
  {
    FindDrop(buffer, c.token, n);
    if c.token <= buffer[n..] { assert At(buffer[n..], c.token, 0); }
  }

  /** What a token follows behind text that is read as a header block after all, and behind other text. */
  lemma HeadersBefore(piece: Bytes)
    requires !(CRLF <= piece) && Find(piece, BLANK).Some?
    ensures BeforeToken(piece) == BeforeOf(HeaderSegment([], piece), true)
  {
    hide Find, HeaderLines;
    ClassifyAsHeaders(piece, true);
  }

  lemma PlainBefore(piece: Bytes)
    requires !Opened(piece) && Find(piece, BLANK).None?
    ensures BeforeToken(piece) == RawText
  {
    hide Find;
  }

  lemma RawSegmentExact(c: Config, d: Demand, m: Machine)
    requires c.Valid() && InRun(m) && (m.state.Discard? || m.state.End?)
    ensures Answers(c, d, Budget(c, d, m), StepRawSegment(c, m))
  {
    hide Find, Cut, DelimiterSuffix, Undecided, StepRawBoundary, BlockFits, HeaderSegment, Opened, FeedEof, Classify,
      BeforeOf, BeforeToken, TailFits;
    var boundary := Find(m.buffer, c.token);
    var pieces := Cut(m.buffer, c.token);
    var piece := pieces[0];
    CutSingle(c, m.buffer);
    BlankWithinPiece(c, m.buffer);
    NotBreakFirst(c, m.buffer);
    NotOpened(c, m.buffer);
    if Find(piece, BLANK).Some? {
      HeadersBefore(piece);
    } else if boundary.Some? {
      CutAt(c, m.buffer, boundary.value);
      PlainBefore(piece);
      RawBoundaryExact(c, d, RawText, m, boundary.value);
    } else {
      CutNone(c, m.buffer);
      EofDone(c, m);
    }
  }

  lemma BlankFits(c: Config, d: Demand, size: nat, n: nat, rest: Bytes, open: bool)
    ensures BlockFits(c, d, size, n, CRLF + rest, open) <==> d.ForEnding? || Fits(c, size + 2)
  {
    hide Find, HeaderRetained;
    CostOfBlankLine(rest);
    HeaderSegmentBlank([], rest);
    EmptyBlock();
    FirstBreak([], rest);
    assert [] + CRLF + rest == CRLF + rest;
  }

  /** One header line of a block is charged and counted. */
  lemma BlockFitsStep(c: Config, d: Demand, size: nat, n: nat, line: Bytes, rest: Bytes, open: bool)
    requires c.Valid() && line != [] && OneLine(line)
    ensures var used := size + |line| + 2;
      BlockFits(c, d, size, n, line + CRLF + rest, open) <==>
        && (d.ForEnding? || (
          && |line| <= c.maxHeaderSize && Fits(c, used)
          && (LineHeader(line) == [] || n != c.maxHeaderCount)))
        && BlockFits(c, d, used, n + |LineHeader(line)|, rest, open)
  {
    hide Find, LineHeader, HeaderRetained, RestCost;
    var piece := line + CRLF + rest;
    CostAfterLine(line, rest);
    BlankAfterHeaderLine(line, rest);
    RetainedAfterLine(c, line + CRLF, rest);
    FirstBreak(line, rest);
    assert piece[..|line|] == line && piece[|line| + 2..] == rest;
    assert RestRetained(c, piece, open) == RestRetained(c, rest, open);
    assert RoomFor(c, n, piece, open) <==>
      && |line| <= c.maxHeaderSize && (LineHeader(line) == [] || n != c.maxHeaderCount)
      && RoomFor(c, n + |LineHeader(line)|, rest, open);
  }

  /** What an open header line may lose to a later line break or token lies behind its last line break. */
  lemma RetainedAfterLine(c: Config, ended: Bytes, rest: Bytes)
    requires c.Valid() && ended != [] && ended[|ended| - 1] == LF
    ensures HeaderRetained(c, ended + rest) == HeaderRetained(c, rest)
  {
    hide PartialSuffixLength;
    var piece := ended + rest;
    if rest != [] && rest[|rest| - 1] == CR { return; }
    var r := PartialSuffixLength(rest, c.token);
    PartialIs(c, rest);
    forall k: nat ensures EndsWithPrefix(piece, c.token, k) ==> EndsWithPrefix(rest, c.token, k) {
      if EndsWithPrefix(piece, c.token, k) {
        if k > |rest| { PrefixHasNoBreak(c, piece, k, |ended| - 1); }
        assert piece[|piece| - k..] == rest[|rest| - k..];
      }
    }
    if r > 0 { assert piece[|piece| - r..] == rest[|rest| - r..]; }
    PartialStops(c, piece, r);
  }

  lemma PartialIs(c: Config, buffer: Bytes)
    ensures var r := PartialSuffixLength(buffer, c.token);
      && r <= |buffer|
      && (r == 0 || EndsWithPrefix(buffer, c.token, r))
      && forall k :: k > r ==> !EndsWithPrefix(buffer, c.token, k)
  {
  }

  lemma PrefixHasNoBreak(c: Config, buffer: Bytes, k: nat, j: nat)
    requires c.Valid() && EndsWithPrefix(buffer, c.token, k) && |buffer| - k <= j < |buffer|
    ensures buffer[j] != LF && buffer[j] != CR
  {
    var end := buffer[|buffer| - k..];
    assert end[j - (|buffer| - k)] == c.token[j - (|buffer| - k)];
    assert c.token[j - (|buffer| - k)] in c.token;
  }

  lemma PartialStops(c: Config, buffer: Bytes, r: nat)
    requires r == 0 || EndsWithPrefix(buffer, c.token, r)
    requires forall k :: k > r ==> !EndsWithPrefix(buffer, c.token, k)
    ensures PartialSuffixLength(buffer, c.token) == r
  {
  }

  lemma HeaderLineExact(c: Config, d: Demand, m: Machine, i: nat)
    requires c.Valid() && InRun(m) && m.state.Header? && Find(m.buffer, CRLF) == Some(i)
    requires Find(m.buffer, c.token).None? || i <= Find(m.buffer, c.token).value
    ensures Answers(c, d, Budget(c, d, m), StepHeaderLine(c, m, i))
  {
    hide Find, Cut, LimitsFit, Undecided, LineHeader, RestCost, HeaderSegment, DelimiterSuffix, HeaderRetained, BeforeOf,
      RoomFor, RestRetained;
    var b := m.buffer;
    HeaderLineCut(c, b, i);
    var rest := Cut(b[i + 2..], c.token)[0];
    assert |Cut(b, c.token)| == |Cut(b[i + 2..], c.token)| by {
      assert |Cut(b, c.token)[1..]| == |Cut(b[i + 2..], c.token)[1..]|;
    }
    if i == 0 {
      assert b[..0] + CRLF + rest == CRLF + rest;
      BlankFits(c, d, m.headerSize, |m.headers|, rest, |Cut(b, c.token)| == 1);
      HeaderSegmentBlank(m.headers, rest);
    } else {
      BlockFitsStep(c, d, m.headerSize, |m.headers|, b[..i], rest, |Cut(b, c.token)| == 1);
      HeaderSegmentLine(m.headers, b[..i], rest);
    }
  }

  lemma HeaderExact(c: Config, d: Demand, m: Machine)
    requires c.Valid() && InRun(m) && m.state.Header?
    ensures Answers(c, d, Budget(c, d, m), StepHeader(c, m))
  {
    hide Find, Cut, DelimiterSuffix, LimitsFit, Undecided, StepRawBoundary, StepHeaderLine, HeaderRetained, RestCost,
      LineHeader, FeedEof, HeaderLines;
    var boundary, line := Find(m.buffer, c.token), Find(m.buffer, CRLF);
    FindFits(m.buffer, c.token);
    if boundary.Some? && (line.None? || boundary.value < line.value) {
      var piece := m.buffer[..boundary.value];
      CutAt(c, m.buffer, boundary.value);
      LineWithinPiece(c, m.buffer);
      CostWithoutBreak(piece);
      NoBreakIsStray(m.headers, piece);
      RawBoundaryExact(c, d, HeaderBlock, m.(headers := [], headerSize := 0), boundary.value);
    } else if line.Some? {
      HeaderLineExact(c, d, m, line.value);
    } else {
      CutNone(c, m.buffer);
      CostWithoutBreak(m.buffer);
      NoBreakIsStray(m.headers, m.buffer);
      EofDone(c, m);
    }
  }

  /** Body bytes behind announced headers; `m` still has no token at its start. */
  lemma OpenBodyExact(c: Config, d: Demand, m: Machine, begun: seq<Event>)
    requires c.Valid() && m.state.Body? && m.headers == [] && !m.pending && !m.eof && m.headerSize == 0
    requires !(c.token <= m.buffer)
    ensures var pieces := Cut(m.buffer, c.token);
      Answers(c, d, Rest(c, d, BeforeOf(Part(m.headers, pieces[0]), true), pieces), StepOpenBody(c, m, begun))
  {
    hide Find, Cut, DelimiterSuffix, LimitsFit, Undecided, Enter, FeedEof, BodyDataEnd, DataEvents, Budget, InRun,
      EofHeaderSize;
    var found := Find(m.buffer, c.token);
    if found.Some? {
      var i := found.value;
      var tail := m.buffer[i + |c.token|..];
      var body := m.buffer[..i];
      CutAt(c, m.buffer, i);
      UndecidedIff(tail);
      FoundAtStart(c, m.buffer);
      var before := BeforeOf(Part(m.headers, body), true);
      if Undecided(tail) {
        UndecidedFits(c, d, before, tail);
        BodyWaits(c, m, i);
      } else {
        EnterExact(c, d, before, m, tail);
      }
    } else {
      CutNone(c, m.buffer);
      var kept := if |m.buffer| > |c.token| + 1 then m.buffer[|m.buffer| - |c.token| - 1..] else m.buffer;
      assert m.buffer[0..] == m.buffer;
      FlushedBody(c, m.(buffer := kept), |m.buffer| - |kept|, m.buffer);
    }
  }

  lemma FlushedBody(c: Config, m: Machine, n: nat, buffer: Bytes)
    requires c.Valid() && m.state.Body? && !m.eof && Find(buffer, c.token).None?
    requires n <= |buffer| && m.buffer == buffer[n..]
    ensures FeedEof(c, m).Done?
  {
    hide Find, FeedEof;
    EofDone(c, m);
    if |m.buffer| >= 2 {
      NoTokenKept(c, buffer, n + 2);
      assert m.buffer[2..] == buffer[n + 2..];
    }
  }

  lemma FoundAtStart(c: Config, buffer: Bytes)
    ensures Find(buffer, c.token) == Some(0) ==> c.token <= buffer
  {
    if Find(buffer, c.token) == Some(0) { assert buffer[0..|c.token|] == c.token; }
  }

  /** What a body keeps in front of a token: a whole line break exactly if the body ends in one. */
  lemma KeptBreak(c: Config, buffer: Bytes, i: nat)
    requires c.Valid() && At(buffer, c.token, i)
    ensures var kept := buffer[BodyDataEnd(buffer, i)..];
      var whole := i >= 2 && buffer[i - 2..i] == CRLF;
      && (whole <==> CRLF <= kept && c.token <= kept[2..])
      && (whole ==> kept[2 + |c.token|..] == buffer[i + |c.token|..])
  {
    var end := BodyDataEnd(buffer, i);
    var kept := buffer[end..];
    assert buffer[i..i + |c.token|][0] == buffer[i] && c.token[0] == DASH by { TokenStartsWithDash(c); }
    if i - end == 2 { assert kept[2..][..|c.token|] == buffer[i..i + |c.token|]; }
  }

  /** A waiting body is charged at EOF exactly if it ends in a line break. */
  lemma BodyWaits(c: Config, m: Machine, i: nat)
    requires c.Valid() && m.state.Body? && !m.pending && !m.eof && 0 < i
    requires Find(m.buffer, c.token) == Some(i) && i + |c.token| <= |m.buffer| && Undecided(m.buffer[i + |c.token|..])
    ensures var before := BeforeOf(Part(m.headers, m.buffer[..i]), true);
      (FeedEof(c, m.(buffer := m.buffer[BodyDataEnd(m.buffer, i)..])).Done? <==>
        TailFits(c, ForEnding, before, m.buffer[i + |c.token|..]))
  {
    hide Find, FeedEof, DelimiterSuffix, Undecided, BodyDataEnd, At;
    var body := m.buffer[..i];
    EofDone(c, m.(buffer := m.buffer[BodyDataEnd(m.buffer, i)..]));
    UndecidedIff(m.buffer[i + |c.token|..]);
    KeptBreak(c, m.buffer, i);
    if i >= 2 { assert body[i - 2..] == m.buffer[i - 2..i]; }
  }

  lemma BodyExact(c: Config, d: Demand, m: Machine)
    requires c.Valid() && InRun(m) && m.state.Body?
    ensures Answers(c, d, Budget(c, d, m), StepBody(c, m))
  {
    hide Find, Cut, LimitsFit, Undecided, StepRawBoundary, StepOpenBody, FeedEof, DelimiterSuffix;
    var released := m.(headers := [], headerSize := 0, pending := false);
    if |m.buffer| < |c.token| && m.buffer <= c.token {
      NoRoomForToken(c, m.buffer);
      assert m.buffer[0..] == m.buffer;
      FlushedBody(c, m, 0, m.buffer);
    } else if c.token <= m.buffer {
      FindAtStart(c, m.buffer);
      CutAt(c, m.buffer, 0);
      RawBoundaryExact(c, d, RawText, released.(state := Discard), 0);
    } else {
      OpenBodyExact(c, d, released, [Begin(m.headers)]);
    }
  }

  lemma StepExact(c: Config, d: Demand, m: Machine)
    requires c.Valid() && InRun(m)
    ensures Answers(c, d, Budget(c, d, m), StepOnce(c, m))
  {
    hide StepPreamble, StepHeader, StepBody, StepRawSegment, Answers, Budget;
    match m.state
    case Preamble => PreambleExact(c, d, m);
    case Header => HeaderExact(c, d, m);
    case Body => BodyExact(c, d, m);
    case _ => RawSegmentExact(c, d, m);
  }

  // ----- whole runs and calls

  /** The verdict of a run against what was demanded of the stream. */
  predicate Decides(c: Config, d: Demand, fit: bool, o: Outcome) {
    match d
    case ForFeeding => o.Done? <==> fit
    case ForHeaders => (o.Rejected? && o.machine.state.Header?) <==> !fit
    case ForEnding => o.Done? ==> (FeedEof(c, o.machine).Done? <==> fit)
  }

  lemma {:induction false} RunExact(c: Config, d: Demand, m: Machine)
    requires c.Valid() && InRun(m)
    ensures Decides(c, d, Budget(c, d, m), Run(c, m))
    decreases Measure(m)
  {
    hide StepOnce, Measure, Budget, InRun, FeedEof;
    StepDecreases(c, m);
    StepExact(c, d, m);
    if StepOnce(c, m).Progress? { RunExact(c, d, StepOnce(c, m).machine); }
  }

  lemma FreshRun(c: Config, d: Demand, s: Bytes)
    requires c.Valid()
    ensures Decides(c, d, StreamFits(c, d, s), Run(c, Receive(FRESH, s)))
  {
    hide Run, StreamFits, FeedEof;
    assert [] + s == s;
    RunExact(c, d, Receive(FRESH, s));
  }

  /** One call is accepted exactly if the stream fits the limits. */
  lemma FeedIff(c: Config, s: Bytes)
    requires c.Valid()
    ensures Feed(c, FRESH, s).Done? <==> FitsExactly(c, s)
  {
    hide Run, StreamFits;
    FreshRun(c, ForFeeding, s);
  }

  /** A chunking is accepted exactly if the stream up to the end of every chunk fits the limits.
      Cutting finer can therefore only reject more. */
  lemma AcceptedIff(c: Config, chunks: seq<Bytes>)
    requires c.Valid()
    ensures FeedAll(c, FRESH, chunks).Done? <==> forall k :: 0 <= k <= |chunks| ==> FitsExactly(c, Concat(chunks[..k]))
  {
    hide Feed, FeedAll, Concat, FitsExactly;
    AcceptedIffPrefixes(c, chunks);
    forall k | 0 <= k <= |chunks|
      ensures Feed(c, FRESH, Concat(chunks[..k])).Done? <==> FitsExactly(c, Concat(chunks[..k]))
    {
      FeedIff(c, Concat(chunks[..k]));
    }
  }

  /** The end of an accepted stream is accepted exactly if its last piece is below the total limit,
      where that piece is still charged as a header. */
  lemma EofIff(c: Config, chunks: seq<Bytes>)
    requires c.Valid() && FeedAll(c, FRESH, chunks).Done?
    ensures FeedEof(c, FeedAll(c, FRESH, chunks).machine).Done? <==> StreamFits(c, ForEnding, Concat(chunks))
  {
    hide Run, FeedAll, FeedEof, Concat, StreamFits;
    if chunks != [] { FrontAccepted(c, chunks); }
    OneShot(c, chunks);
    FreshRun(c, ForEnding, Concat(chunks));
  }

  /** The condition for a whole chunked message: where each chunk ends the stream so far fits, and its
      end is accepted. */
  predicate ChunksFit(c: Config, chunks: seq<Bytes>)
    requires c.Valid()
  {
    && (forall k :: 0 <= k <= |chunks| ==> FitsExactly(c, Concat(chunks[..k])))
    && StreamFits(c, ForEnding, Concat(chunks))
  }

  predicate Accepted(c: Config, m: Machine, chunks: seq<Bytes>)
    requires c.Valid()
  {
    FeedAll(c, m, chunks).Done? && FeedEof(c, FeedAll(c, m, chunks).machine).Done?
  }

  /** Feeding all chunks and ending the input is accepted exactly if the chunks fit. */
  lemma WholeIff(c: Config, chunks: seq<Bytes>)
    requires c.Valid()
    ensures Accepted(c, FRESH, chunks) <==> ChunksFit(c, chunks)
  {
    hide FeedAll, FeedEof, Concat, FitsExactly, StreamFits;
    AcceptedIff(c, chunks);
    if FeedAll(c, FRESH, chunks).Done? { EofIff(c, chunks); }
  }

  // ----- no limit set

  lemma {:induction false} RoomWithoutLimits(c: Config, n: nat, piece: Bytes, open: bool)
    requires |piece| <= c.maxHeaderSize && n + |piece| <= c.maxHeaderCount
    ensures RoomFor(c, n, piece, open)
    decreases |piece|
  {
    hide Find, HeaderRetained, LineHeader;
    FindFits(piece, CRLF);
    var line := Find(piece, CRLF);
    if line.Some? && line.value > 0 {
      RoomWithoutLimits(c, n + |LineHeader(piece[..line.value])|, piece[line.value + 2..], open);
    }
  }

  lemma BlockWithoutLimits(c: Config, size: nat, n: nat, piece: Bytes, open: bool)
    requires c.maxTotal.None? && |piece| <= c.maxHeaderSize && n + |piece| <= c.maxHeaderCount
    ensures BlockFits(c, ForFeeding, size, n, piece, open)
  {
    RoomWithoutLimits(c, n, piece, open);
  }

  lemma {:induction false} LimitsWithoutLimits(c: Config, before: Before, pieces: seq<Bytes>)
    requires c.maxTotal.None? && pieces != []
    requires forall k :: 0 <= k < |pieces| ==> |pieces[k]| <= c.maxHeaderSize && |pieces[k]| <= c.maxHeaderCount
    ensures LimitsFit(c, ForFeeding, before, pieces)
    decreases |pieces|
  {
    hide BlockFits, Undecided, BeforeToken;
    var piece := pieces[0];
    if Opened(piece) {
      var n := PaddingLength(piece) + 2;
      BlockWithoutLimits(c, n, 0, piece[n..], |pieces| == 1);
    }
    BlockWithoutLimits(c, 0, 0, piece, |pieces| == 1);
    if |pieces| > 1 { LimitsWithoutLimits(c, BeforeToken(piece), pieces[1..]); }
  }

  lemma {:induction false} PiecesAreShort(s: Bytes, token: Bytes)
    requires token != []
    ensures forall k :: 0 <= k < |Cut(s, token)| ==> |Cut(s, token)[k]| <= |s|
    decreases |s|
  {
    hide Find;
    FindFits(s, token);
    if Find(s, token).Some? { PiecesAreShort(s[Find(s, token).value + |token|..], token); }
  }

  /** Without a total limit, and with size, line and count limits that the stream cannot reach, every
      chunking is accepted. */
  lemma UnlimitedAccepts(c: Config, chunks: seq<Bytes>)
    requires c.Valid() && c.maxTotal.None? && SizeFits(c, |Concat(chunks)|)
    requires |Concat(chunks)| <= c.maxHeaderSize && |Concat(chunks)| <= c.maxHeaderCount
    ensures FeedAll(c, FRESH, chunks).Done?
  {
    hide Feed, FeedAll, Concat, Cut, LimitsFit;
    forall k | 0 <= k <= |chunks| ensures FitsExactly(c, Concat(chunks[..k])) {
      var s := Concat(chunks[..k]);
      ConcatPrefix(chunks, k);
      PiecesAreShort(s, c.token);
      var pieces := Cut(s, c.token);
      if |pieces| > 1 { LimitsWithoutLimits(c, LineBreak, pieces[1..]); }
    }
    AcceptedIff(c, chunks);
  }
}
