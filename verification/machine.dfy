/** The multipart parser as a state machine on values: what one handler call does to the
    parser's fields, and the progress loop that `feed` runs over the handlers. */
module Machines {
  import opened Bytes

  datatype State = Preamble | Header | Body | Discard | End

  type Headers = seq<(Bytes, Bytes)>

  datatype Event =
    | Begin(headers: Headers)
    | Data(data: Bytes)
    | EndPart
    | Raw

  datatype ParseError = FeedAfterEof | SizeExceeded | HeaderLine | HeaderCount | HeaderTotal | BadBoundary | Truncated

  /** The three limits that the adapter reports under one message. */
  predicate HeaderLimit(e: ParseError) {
    e == HeaderLine || e == HeaderCount || e == HeaderTotal
  }

  datatype Suffix = Open(length: nat) | Close | Incomplete | Invalid | BareLineFeed

  /** What the constructor fixes; `token` is "--" followed by the boundary. */
  datatype Config = Config(
    token: Bytes,
    maxSize: Option<nat>,
    maxHeaderCount: nat,
    maxHeaderSize: nat,
    maxTotal: Option<nat>)
  {
    /** Boundary characters are validated by the caller, so no CR and no LF. */
    predicate Valid() {
      |token| >= 3 && DASHES <= token && CR !in token && LF !in token
    }
  }

  /** The mutable fields of the parser. */
  datatype Machine = Machine(
    state: State,
    buffer: Bytes,
    headers: Headers,
    headerSize: nat,
    pending: bool,
    size: nat,
    eof: bool)

  const FRESH := Machine(Preamble, [], [], 0, false, 0, false)

  datatype Step =
    | Progress(machine: Machine, events: seq<Event>)
    | Wait(machine: Machine, events: seq<Event>)
    | Reject(machine: Machine, error: ParseError)

  datatype Outcome =
    | Done(machine: Machine, events: seq<Event>)
    | Rejected(machine: Machine, error: ParseError)
  {
    function After(earlier: seq<Event>): Outcome {
      if Done? then Done(machine, earlier + events) else this
    }
  }

  // ----- scanning helpers

  predicate IsPadding(b: byte) { b == SPACE || b == TAB }

  function PaddingLength(tail: Bytes): (n: nat)
    ensures n <= |tail|
    ensures forall k :: 0 <= k < n ==> IsPadding(tail[k])
    ensures n < |tail| ==> !IsPadding(tail[n])
  {
    if tail != [] && IsPadding(tail[0]) then 1 + PaddingLength(tail[1..]) else 0
  }

  /** What the bytes after a boundary token make of it; `Open` carries how many of them it takes. */
  function DelimiterSuffix(tail: Bytes): Suffix {
    if tail == [] then Incomplete
    else if DASHES <= tail then Close
    else if tail[0] == DASH then (if |tail| == 1 then Incomplete else Invalid)
    else
      var padding := PaddingLength(tail);
      var ending := tail[padding..];
      if ending == [] || ending == [CR] then Incomplete
      else if CRLF <= ending then Open(padding + 2)
      else if ending[0] == LF then BareLineFeed
      else Invalid
  }

  lemma OpenFits(tail: Bytes)
    requires DelimiterSuffix(tail).Open?
    ensures DelimiterSuffix(tail).length <= |tail|
  {
  }

  /** The body ends before the boundary's own line break: one LF, then one CR. */
  function BodyDataEnd(buffer: Bytes, start: nat): (end: nat)
    requires start <= |buffer|
    ensures start - 2 <= end <= start
  {
    var e1 := if start > 0 && buffer[start - 1] == LF then start - 1 else start;
    if e1 > 0 && buffer[e1 - 1] == CR then e1 - 1 else e1
  }

  /** A non-empty proper prefix of `token` of length `n` ends `buffer`. */
  predicate EndsWithPrefix(buffer: Bytes, token: Bytes, n: int) {
    1 <= n <= |buffer| && n < |token| && buffer[|buffer| - n..] <= token
  }

  function PrefixUpTo(buffer: Bytes, token: Bytes, n: nat): (r: nat)
    ensures r == 0 || EndsWithPrefix(buffer, token, r)
    ensures forall k :: r < k <= n ==> !EndsWithPrefix(buffer, token, k)
    ensures r <= n
  {
    if n == 0 then 0
    else if EndsWithPrefix(buffer, token, n) then n
    else PrefixUpTo(buffer, token, n - 1)
  }

  /** Length of the longest end of `buffer` that could still grow into `token`. */
  function PartialSuffixLength(buffer: Bytes, token: Bytes): (r: nat)
    ensures r <= |buffer|
    ensures r == 0 || EndsWithPrefix(buffer, token, r)
    ensures forall k :: k > r ==> !EndsWithPrefix(buffer, token, k)
  {
    PrefixUpTo(buffer, token, |buffer|)
  }

  predicate IsWhitespace(b: byte) {
    b == SPACE || b == TAB || b == LF || b == CR || b == 12
  }

  function TrimStart(s: Bytes): (r: Bytes)
    ensures |r| <= |s|
    ensures r != [] ==> !IsWhitespace(r[0])
  {
    if s != [] && IsWhitespace(s[0]) then TrimStart(s[1..]) else s
  }

  function TrimEnd(s: Bytes): (r: Bytes)
    ensures r <= s
    ensures r != [] ==> !IsWhitespace(r[|r| - 1])
  {
    if s != [] && IsWhitespace(s[|s| - 1]) then TrimEnd(s[..|s| - 1]) else s
  }

  function TrimAscii(s: Bytes): Bytes { TrimEnd(TrimStart(s)) }

  function StripSpaces(s: Bytes): (r: Bytes)
    ensures r <= s
    ensures r != [] ==> r[|r| - 1] != SPACE
  {
    if s != [] && s[|s| - 1] == SPACE then StripSpaces(s[..|s| - 1]) else s
  }

  /** The header a line contributes: none without a colon. */
  function LineHeader(line: Bytes): (r: Headers)
    ensures |r| <= 1
  {
    match Find(line, [COLON])
    case None => []
    case Some(i) => [(StripSpaces(line[..i]), TrimAscii(line[i + 1..]))]
  }

  function DataEvents(data: Bytes): seq<Event> {
    if data == [] then [] else [Data(data)]
  }

  predicate TotalExceeded(c: Config, m: Machine, additional: nat) {
    c.maxTotal.Some? && m.headerSize + additional > c.maxTotal.value
  }

  // ----- one handler call

  /** The state in which the segment after a decided boundary token is read. */
  function Enter(m: Machine, tail: Bytes): Machine
    requires !DelimiterSuffix(tail).Incomplete?
  {
    match DelimiterSuffix(tail)
    case Open(n) => m.(state := Header, headerSize := n, buffer := tail[n..])
    case Close => m.(state := End, buffer := tail)
    case _ => m.(state := Discard, buffer := tail)
  }

  /** Boundary padding that already exceeds the header limit, whatever follows it. */
  predicate PrefixTooLong(c: Config, m: Machine, tail: Bytes) {
    !([DASH] <= tail) && TotalExceeded(c, m, |tail|)
  }

  function StepPreamble(c: Config, m: Machine): Step {
    match Find(m.buffer, c.token)
    case Some(i) =>
      var tail := m.buffer[i + |c.token|..];
      if !DelimiterSuffix(tail).Incomplete? then Progress(Enter(m, tail), [])
      else if PrefixTooLong(c, m, tail) then Reject(m, HeaderTotal)
      else Wait(m.(buffer := m.buffer[i..]), [])
    case None =>
      var retained := |c.token| + 1;
      Wait(if |m.buffer| > retained then m.(buffer := m.buffer[|m.buffer| - retained..]) else m, [])
  }

  /** A segment without a body was closed by the token at offset `i`. */
  function StepRawBoundary(c: Config, m: Machine, i: nat): Step
    requires At(m.buffer, c.token, i)
  {
    var tail := m.buffer[i + |c.token|..];
    if DelimiterSuffix(tail).Incomplete? then Wait(m.(buffer := m.buffer[i..]), [])
    else Progress(Enter(m, tail), [Raw])
  }

  function HeaderRetained(c: Config, buffer: Bytes): (r: nat)
    ensures r <= |buffer|
  {
    if buffer != [] && buffer[|buffer| - 1] == CR then 1 else PartialSuffixLength(buffer, c.token)
  }

  function StepHeaderLine(c: Config, m: Machine, i: nat): Step
    requires At(m.buffer, CRLF, i)
  {
    if i == 0 then
      if TotalExceeded(c, m, 2) then Reject(m, HeaderTotal)
      else Progress(m.(buffer := m.buffer[2..], pending := true, state := Body), [])
    else if i > c.maxHeaderSize then Reject(m, HeaderLine)
    else if TotalExceeded(c, m, i + 2) then Reject(m, HeaderTotal)
    else
      var h := LineHeader(m.buffer[..i]);
      if h != [] && |m.headers| == c.maxHeaderCount then Reject(m, HeaderCount)
      else Progress(m.(headers := m.headers + h, headerSize := m.headerSize + i + 2, buffer := m.buffer[i + 2..]), [])
  }

  function StepHeader(c: Config, m: Machine): Step {
    var boundary := Find(m.buffer, c.token);
    var line := Find(m.buffer, CRLF);
    if boundary.Some? && (line.None? || boundary.value < line.value) then
      if boundary.value > c.maxHeaderSize then Reject(m, HeaderLine)
      else if TotalExceeded(c, m, boundary.value) then Reject(m, HeaderTotal)
      else StepRawBoundary(c, m.(headers := [], headerSize := 0), boundary.value)
    else if line.Some? then StepHeaderLine(c, m, line.value)
    else
      var pending := |m.buffer| - HeaderRetained(c, m.buffer);
      if pending > c.maxHeaderSize then Reject(m, HeaderLine)
      else if TotalExceeded(c, m, pending) then Reject(m, HeaderTotal)
      else Wait(m, [])
  }

  /** Body bytes of a part whose headers were already announced; `begun` is what announced them now. */
  function StepOpenBody(c: Config, m: Machine, begun: seq<Event>): Step {
    match Find(m.buffer, c.token)
    case Some(i) =>
      var tail := m.buffer[i + |c.token|..];
      var end := BodyDataEnd(m.buffer, i);
      var data := begun + DataEvents(m.buffer[..end]);
      if !DelimiterSuffix(tail).Incomplete? then Progress(Enter(m, tail), data + [EndPart])
      else if PrefixTooLong(c, m, tail) then Reject(m, HeaderTotal)
      else Wait(m.(buffer := m.buffer[end..]), data)
    case None =>
      var retained := |c.token| + 1;
      if |m.buffer| > retained then
        var emitted := |m.buffer| - retained;
        Wait(m.(buffer := m.buffer[emitted..]), begun + DataEvents(m.buffer[..emitted]))
      else Wait(m, begun)
  }

  function StepBody(c: Config, m: Machine): Step {
    if m.pending then
      if |m.buffer| < |c.token| && m.buffer <= c.token then Wait(m, [])
      else
        var released := m.(headers := [], headerSize := 0, pending := false);
        if c.token <= m.buffer then StepRawBoundary(c, released.(state := Discard), 0)
        else StepOpenBody(c, released, [Begin(m.headers)])
    else StepOpenBody(c, m, [])
  }

  function StepRawSegment(c: Config, m: Machine): Step {
    var boundary := Find(m.buffer, c.token);
    var blank := Find(m.buffer, BLANK);
    if blank.Some? && (boundary.None? || blank.value < boundary.value) then
      Progress(m.(headers := [], headerSize := 0, state := Header), [])
    else if boundary.Some? then StepRawBoundary(c, m, boundary.value)
    else if TotalExceeded(c, m, |m.buffer|) then Reject(m, HeaderTotal)
    else Wait(m, [])
  }

  function StepOnce(c: Config, m: Machine): Step {
    match m.state
    case Preamble => StepPreamble(c, m)
    case Header => StepHeader(c, m)
    case Body => StepBody(c, m)
    case Discard => StepRawSegment(c, m)
    case End => StepRawSegment(c, m)
  }

  // ----- the progress loop

  /** Each handler that asks to be called again makes this smaller. */
  function Measure(m: Machine): nat {
    2 * |m.buffer| + if m.state.Discard? || m.state.End? then 1 else 0
  }

  lemma EnterMeasure(m: Machine, tail: Bytes)
    requires !DelimiterSuffix(tail).Incomplete?
    ensures Measure(Enter(m, tail)) <= 2 * |tail| + 1
  {
  }

  lemma RawBoundaryDecreases(c: Config, m: Machine, i: nat)
    requires c.Valid() && At(m.buffer, c.token, i)
    ensures var s := StepRawBoundary(c, m, i); s.Progress? ==> Measure(s.machine) < 2 * |m.buffer|
  {
    hide DelimiterSuffix, Enter;
    var tail := m.buffer[i + |c.token|..];
    if !DelimiterSuffix(tail).Incomplete? { EnterMeasure(m, tail); }
  }

  lemma OpenBodyDecreases(c: Config, m: Machine, begun: seq<Event>)
    requires c.Valid()
    ensures var s := StepOpenBody(c, m, begun); s.Progress? ==> Measure(s.machine) < 2 * |m.buffer|
  {
    hide Enter, DelimiterSuffix, Find, BodyDataEnd;
    var token := Find(m.buffer, c.token);
    if token.Some? {
      var tail := m.buffer[token.value + |c.token|..];
      if !DelimiterSuffix(tail).Incomplete? { EnterMeasure(m, tail); }
    }
  }

  lemma StepDecreases(c: Config, m: Machine)
    requires c.Valid()
    ensures StepOnce(c, m).Progress? ==> Measure(StepOnce(c, m).machine) < Measure(m)
  {
    hide Enter, DelimiterSuffix, Find, StepRawBoundary, StepOpenBody;
    var boundary := Find(m.buffer, c.token);
    match m.state
    case Preamble =>
      if boundary.Some? {
        var tail := m.buffer[boundary.value + |c.token|..];
        if !DelimiterSuffix(tail).Incomplete? { EnterMeasure(m, tail); }
      }
    case Header =>
      if boundary.Some? { RawBoundaryDecreases(c, m.(headers := [], headerSize := 0), boundary.value); }
    case Body =>
      if m.pending {
        var released := m.(headers := [], headerSize := 0, pending := false);
        if c.token <= m.buffer { RawBoundaryDecreases(c, released.(state := Discard), 0); }
        OpenBodyDecreases(c, released, [Begin(m.headers)]);
      } else {
        OpenBodyDecreases(c, m, []);
      }
    case _ =>
      if boundary.Some? { RawBoundaryDecreases(c, m, boundary.value); }
  }

  function Run(c: Config, m: Machine): Outcome
    requires c.Valid()
    decreases Measure(m)
  {
    StepDecreases(c, m);
    match StepOnce(c, m)
    case Progress(next, events) => Run(c, next).After(events)
    case Wait(next, events) => Done(next, events)
    case Reject(next, error) => Rejected(next, error)
  }

  /** The bytes of a chunk join the buffer and the byte count. */
  function Receive(m: Machine, data: Bytes): Machine {
    m.(size := m.size + |data|, buffer := m.buffer + data)
  }

  /** One `feed` call. */
  function Feed(c: Config, m: Machine, data: Bytes): Outcome
    requires c.Valid()
  {
    if m.eof then Rejected(m, FeedAfterEof)
    else if c.maxSize.Some? && m.size + |data| > c.maxSize.value then Rejected(m, SizeExceeded)
    else Run(c, Receive(m, data))
  }

  /** `feed` called on each chunk in turn, until one is rejected. */
  function FeedAll(c: Config, m: Machine, chunks: seq<Bytes>): Outcome
    requires c.Valid()
    decreases |chunks|
  {
    if chunks == [] then Done(m, [])
    else
      match Feed(c, m, chunks[0])
      case Done(next, events) => FeedAll(c, next, chunks[1..]).After(events)
      case Rejected(next, error) => Rejected(next, error)
  }

  // ----- end of input

  /** Header bytes that are still open at EOF: Django needs one spare byte under the limit. */
  function EofHeaderSize(c: Config, m: Machine): Option<nat> {
    match m.state
    case Header => Some(m.headerSize + |m.buffer|)
    case Preamble => if c.token <= m.buffer then EofPrefixSize(m.buffer[|c.token|..]) else None
    case Body =>
      if CRLF <= m.buffer && c.token <= m.buffer[2..] then EofPrefixSize(m.buffer[2 + |c.token|..]) else None
    case _ => None
  }

  function EofPrefixSize(tail: Bytes): Option<nat> {
    if DelimiterSuffix(tail).Incomplete? && !([DASH] <= tail) then Some(|tail|) else None
  }

  function FeedEof(c: Config, m: Machine): Outcome {
    if m.eof then Done(m, [])
    else
      var begun := if m.pending then [Begin(m.headers)] else [];
      var m1 := if m.pending then m.(eof := true, headers := [], headerSize := 0, pending := false) else m.(eof := true);
      var size := EofHeaderSize(c, m1);
      if c.maxTotal.Some? && size.Some? && size.value >= c.maxTotal.value then Rejected(m1, HeaderTotal)
      else EofDrain(c, m1.(headers := []), begun)
  }

  /** An undecided token ends the open part; otherwise what is left of a body is data. */
  function EofDrain(c: Config, m: Machine, begun: seq<Event>): Outcome {
    var token := Find(m.buffer, c.token);
    if m.state.Body? && token.Some? && DelimiterSuffix(m.buffer[token.value + |c.token|..]).Incomplete? then
      var end := BodyDataEnd(m.buffer, token.value);
      var state := if token.value + |c.token| == |m.buffer| then End else Discard;
      Done(m.(state := state, buffer := []), begun + DataEvents(m.buffer[..end]) + [EndPart])
    else
      Done(m.(buffer := []), begun + if m.state.Body? then DataEvents(m.buffer) else [])
  }

  /** `finish` reports a message whose closing boundary never came. */
  predicate Finished(m: Machine) { m.state.End? }
}
