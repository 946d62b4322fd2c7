/** The parser object: its methods drain the buffer and update the fields in place, and each is
    tied to the state machine on values. */
module Parsing {
  import opened Bytes
  import opened Machines

  /** What a handler tells the loop: call the next one, wait for more input, or give up. */
  datatype Handled = Again | Enough | Failed(error: ParseError)

  const MAX_BOUNDARY_LENGTH := 201

  class MultipartParser {
    const config: Config
    var state: State
    var buffer: Bytes
    var headers: Headers
    var headerSize: nat
    var pending: bool
    var size: nat
    var eof: bool

    constructor (config: Config)
      ensures this.config == config && M() == FRESH
    {
      this.config := config;
      state := Preamble;
      buffer, headers, headerSize := [], [], 0;
      pending, size, eof := false, 0, false;
    }

    /** Boundaries of 1 to 201 bytes are accepted; their characters were validated by the caller. */
    static method New(boundary: Bytes, maxSize: Option<nat>, maxHeaderCount: nat, maxHeaderSize: nat, maxTotal: Option<nat>)
      returns (p: MultipartParser?)
      ensures p == null <==> !(1 <= |boundary| <= 201)
      ensures p != null ==>
        && fresh(p)
        && p.M() == FRESH
        && p.config == Config(DASHES + boundary, maxSize, maxHeaderCount, maxHeaderSize, maxTotal)
        && (p.config.Valid() <==> CR !in boundary && LF !in boundary)
    {
      if boundary == [] || |boundary| > MAX_BOUNDARY_LENGTH {
        return null;
      }
      p := new MultipartParser(Config(DASHES + boundary, maxSize, maxHeaderCount, maxHeaderSize, maxTotal));
    }

    /** The object's fields as a value. */
    function M(): Machine
      reads this
    {
      Machine(state, buffer, headers, headerSize, pending, size, eof)
    }

    /** The object is where the step `s` leads, and the handler reported it. */
    predicate Took(s: Step, r: Handled, before: seq<Event>, after: seq<Event>)
      reads this
    {
      && M() == s.machine
      && match s {
           case Progress(_, e) => r == Again && after == before + e
           case Wait(_, e) => r == Enough && after == before + e
           case Reject(_, error) => r == Failed(error)
         }
    }

    predicate TotalReached(additional: nat)
      reads this
    {
      TotalExceeded(config, M(), additional)
    }

    method HandlePreamble() returns (r: Handled)
      requires config.Valid() && state.Preamble?
      modifies this
      ensures Took(StepPreamble(config, old(M())), r, [], [])
    {
      hide Find, DelimiterSuffix;
      var found := Find(buffer, config.token);
      if found.Some? {
        FindFits(buffer, config.token);
        var index := found.value;
        var after := index + |config.token|;
        var tail := buffer[after..];
        match DelimiterSuffix(tail) {
          case Open(length) =>
            OpenFits(tail);
            headerSize := length;
            buffer := buffer[after + length..];
            state := Header;
            return Again;
          case Close =>
            buffer := buffer[after..];
            state := End;
            return Again;
          case Incomplete =>
            if !([DASH] <= tail) && TotalReached(|tail|) {
              return Failed(HeaderTotal);
            }
            buffer := buffer[index..];
            return Enough;
          case _ =>
            buffer := buffer[after..];
            state := Discard;
            return Again;
        }
      }
      var retained := |config.token| + 1;
      if |buffer| > retained {
        buffer := buffer[|buffer| - retained..];
      }
      return Enough;
    }

    method HandleRawBoundary(events: seq<Event>, index: nat) returns (r: Handled, out: seq<Event>)
      requires config.Valid() && At(buffer, config.token, index)
      modifies this
      ensures Took(StepRawBoundary(config, old(M()), index), r, events, out)
    {
      hide DelimiterSuffix;
      out := events;
      var after := index + |config.token|;
      var tail := buffer[after..];
      match DelimiterSuffix(tail) {
        case Open(length) =>
          OpenFits(tail);
          out := out + [Raw];
          headerSize := length;
          buffer := buffer[after + length..];
          state := Header;
          r := Again;
        case Close =>
          out := out + [Raw];
          buffer := buffer[after..];
          state := End;
          r := Again;
        case Incomplete =>
          buffer := buffer[index..];
          r := Enough;
        case _ =>
          out := out + [Raw];
          buffer := buffer[after..];
          state := Discard;
          r := Again;
      }
    }

    method HandleHeader(events: seq<Event>) returns (r: Handled, out: seq<Event>)
      requires config.Valid() && state.Header?
      modifies this
      ensures Took(StepHeader(config, old(M())), r, events, out)
    {
      hide Find, DelimiterSuffix, StepRawBoundary, LineHeader, HeaderRetained;
      out := events;
      var boundary := Find(buffer, config.token);
      var lineEnd := Find(buffer, CRLF);
      if boundary.Some? && (lineEnd.None? || boundary.value < lineEnd.value) {
        var index := boundary.value;
        if index > config.maxHeaderSize {
          return Failed(HeaderLine), out;
        }
        if TotalReached(index) {
          return Failed(HeaderTotal), out;
        }
        headers := [];
        headerSize := 0;
        r, out := HandleRawBoundary(out, index);
        return;
      }
      if lineEnd.Some? {
        var index := lineEnd.value;
        FindFits(buffer, CRLF);
        if index == 0 {
          if TotalReached(2) {
            return Failed(HeaderTotal), out;
          }
          buffer := buffer[2..];
          pending := true;
          state := Body;
          return Again, out;
        }
        if index > config.maxHeaderSize {
          return Failed(HeaderLine), out;
        }
        if TotalReached(index + 2) {
          return Failed(HeaderTotal), out;
        }
        var header := LineHeader(buffer[..index]);
        if header != [] {
          if |headers| == config.maxHeaderCount {
            return Failed(HeaderCount), out;
          }
          headers := headers + header;
        }
        headerSize := headerSize + index + 2;
        buffer := buffer[index + 2..];
        return Again, out;
      }
      var unclaimed := |buffer| - HeaderRetained(config, buffer);
      if unclaimed > config.maxHeaderSize {
        return Failed(HeaderLine), out;
      }
      if TotalReached(unclaimed) {
        return Failed(HeaderTotal), out;
      }
      return Enough, out;
    }

    method HandleBody(events: seq<Event>) returns (r: Handled, out: seq<Event>)
      requires config.Valid() && state.Body?
      modifies this
      ensures Took(StepBody(config, old(M())), r, events, out)
    {
      hide StepRawBoundary, StepOpenBody;
      out := events;
      if pending {
        if |buffer| < |config.token| && buffer <= config.token {
          return Enough, out;
        }
        var released := headers;
        headers, headerSize, pending := [], 0, false;
        if config.token <= buffer {
          state := Discard;
          assert At(buffer, config.token, 0);
          r, out := HandleRawBoundary(out, 0);
          return;
        }
        out := out + [Begin(released)];
        BegunFirst(config, M(), [Begin(released)]);
      }
      r, out := HandleOpenBody(out);
    }

    method HandleOpenBody(events: seq<Event>) returns (r: Handled, out: seq<Event>)
      requires config.Valid() && state.Body?
      modifies this
      ensures Took(StepOpenBody(config, old(M()), []), r, events, out)
    {
      hide Find, DelimiterSuffix, BodyDataEnd, DataEvents;
      out := events;
      var found := Find(buffer, config.token);
      if found.Some? {
        FindFits(buffer, config.token);
        r, out := HandleBodyToken(out, found.value);
        return;
      }
      var retained := |config.token| + 1;
      if |buffer| > retained {
        var emitted := |buffer| - retained;
        out := EmitData(out, emitted);
        buffer := buffer[emitted..];
      }
      return Enough, out;
    }

    /** The body ends at the token at `index`, if the kind of boundary is decided. */
    method HandleBodyToken(events: seq<Event>, index: nat) returns (r: Handled, out: seq<Event>)
      requires config.Valid() && state.Body?
      requires Find(buffer, config.token) == Some(index) && index + |config.token| <= |buffer|
      modifies this
      ensures Took(StepOpenBody(config, old(M()), []), r, events, out)
    {
      hide Find, DelimiterSuffix, BodyDataEnd, DataEvents;
      var after := index + |config.token|;
      var tail := buffer[after..];
      var dataEnd := BodyDataEnd(buffer, index);
      var suffix := DelimiterSuffix(tail);
      if suffix.Incomplete? && !([DASH] <= tail) && TotalReached(|tail|) {
        return Failed(HeaderTotal), events;
      }
      out := EmitData(events, dataEnd);
      match suffix {
        case Open(length) =>
          OpenFits(tail);
          headerSize := length;
          out := out + [EndPart];
          buffer := buffer[after + length..];
          state := Header;
          r := Again;
        case Close =>
          out := out + [EndPart];
          buffer := buffer[after..];
          state := End;
          r := Again;
        case Incomplete =>
          buffer := buffer[dataEnd..];
          r := Enough;
        case _ =>
          out := out + [EndPart];
          buffer := buffer[after..];
          state := Discard;
          r := Again;
      }
    }

    method EmitData(events: seq<Event>, length: nat) returns (out: seq<Event>)
      requires length <= |buffer|
      ensures out == events + DataEvents(buffer[..length])
    {
      out := if length > 0 then events + [Data(buffer[..length])] else events;
    }

    method HandleRawSegment(events: seq<Event>) returns (r: Handled, out: seq<Event>)
      requires config.Valid() && (state.Discard? || state.End?)
      modifies this
      ensures Took(StepRawSegment(config, old(M())), r, events, out)
    {
      hide Find, StepRawBoundary;
      out := events;
      var boundary := Find(buffer, config.token);
      var headerEnd := Find(buffer, BLANK);
      if headerEnd.Some? && (boundary.None? || headerEnd.value < boundary.value) {
        headers := [];
        headerSize := 0;
        state := Header;
        return Again, out;
      }
      if boundary.Some? {
        r, out := HandleRawBoundary(out, boundary.value);
        return;
      }
      if TotalReached(|buffer|) {
        return Failed(HeaderTotal), out;
      }
      return Enough, out;
    }

    /** The object is where the outcome `o` ends; after an error its fields keep what was done. */
    predicate Ended(o: Outcome, error: Option<ParseError>, events: seq<Event>)
      reads this
    {
      && M() == o.machine
      && match o {
           case Done(_, e) => error == None && events == e
           case Rejected(_, e) => error == Some(e)
         }
    }

    method FeedData(data: Bytes) returns (error: Option<ParseError>, events: seq<Event>)
      requires config.Valid()
      modifies this
      ensures Ended(Feed(config, old(M()), data), error, events)
    {
      hide StepOnce, Measure;
      events := [];
      if eof {
        return Some(FeedAfterEof), events;
      }
      if config.maxSize.Some? && size + |data| > config.maxSize.value {
        return Some(SizeExceeded), events;
      }
      size := size + |data|;
      buffer := buffer + data;
      ghost var start := M();
      StartRun(config, start);
      while true
        invariant Run(config, start) == Run(config, M()).After(events)
        decreases Measure(M())
      {
        ghost var before, sent := M(), events;
        var r;
        StepDecreases(config, M());
        r, events := Handle(events);
        RunOnce(config, before, sent);
        match r {
          case Again =>
          case Enough => return None, events;
          case Failed(e) => return Some(e), events;
        }
      }
    }

    method Handle(events: seq<Event>) returns (r: Handled, out: seq<Event>)
      requires config.Valid()
      modifies this
      ensures Took(StepOnce(config, old(M())), r, events, out)
    {
      hide StepPreamble, StepHeader, StepBody, StepRawSegment;
      match state {
        case Preamble =>
          r := HandlePreamble();
          out := events;
        case Header => r, out := HandleHeader(events);
        case Body => r, out := HandleBody(events);
        case Discard => r, out := HandleRawSegment(events);
        case End => r, out := HandleRawSegment(events);
      }
    }

    /** The end of the input: flush an open body, or end the part at an undecided token. */
    method FeedEofData() returns (error: Option<ParseError>, events: seq<Event>)
      requires config.Valid()
      modifies this
      ensures Ended(FeedEof(config, old(M())), error, events)
    {
      hide EofDrain, EofHeaderSize;
      events := [];
      if eof {
        return None, events;
      }
      eof := true;
      if pending {
        events := [Begin(headers)];
        headers := [];
        headerSize := 0;
        pending := false;
      }
      var openSize := EofHeaderSize(config, M());
      if config.maxTotal.Some? && openSize.Some? && openSize.value >= config.maxTotal.value {
        return Some(HeaderTotal), events;
      }
      headers := [];
      error := None;
      events := DrainAtEof(events);
    }

    method DrainAtEof(begun: seq<Event>) returns (events: seq<Event>)
      requires config.Valid()
      modifies this
      ensures Done(M(), events) == EofDrain(config, old(M()), begun)
    {
      hide Find, DelimiterSuffix, BodyDataEnd, DataEvents;
      events := begun;
      if state.Body? {
        var found := Find(buffer, config.token);
        if found.Some? {
          FindFits(buffer, config.token);
          var after := found.value + |config.token|;
          if DelimiterSuffix(buffer[after..]).Incomplete? {
            events := EmitData(events, BodyDataEnd(buffer, found.value));
            events := events + [EndPart];
            state := if after == |buffer| then End else Discard;
            buffer := [];
            return;
          }
        }
        events := EmitData(events, |buffer|);
        assert buffer[..|buffer|] == buffer;
      } else {
        assert events + [] == events;
      }
      buffer := [];
    }

    /** `finish` succeeds once a closing boundary was received. */
    method Finish() returns (error: Option<ParseError>)
      ensures error == if Finished(M()) then None else Some(Truncated)
    {
      error := if state != End then Some(Truncated) else None;
    }
  }

  lemma StartRun(c: Config, m: Machine)
    requires c.Valid()
    ensures Run(c, m) == Run(c, m).After([])
  {
    hide Run;
    if Run(c, m).Done? { assert [] + Run(c, m).events == Run(c, m).events; }
  }

  /** One handler call unfolds the loop once. */
  lemma RunOnce(c: Config, m: Machine, sent: seq<Event>)
    requires c.Valid()
    ensures match StepOnce(c, m)
      case Progress(next, e) => Run(c, m).After(sent) == Run(c, next).After(sent + e)
      case Wait(next, e) => Run(c, m).After(sent) == Done(next, sent + e)
      case Reject(next, e) => Run(c, m).After(sent) == Rejected(next, e)
  {
    hide StepOnce, Measure;
    var s := StepOnce(c, m);
    if s.Progress? && Run(c, s.machine).Done? {
      var tail := Run(c, s.machine).events;
      assert sent + (s.events + tail) == (sent + s.events) + tail;
    }
  }

  lemma BegunFirst(c: Config, m: Machine, begun: seq<Event>)
    ensures var s, t := StepOpenBody(c, m, begun), StepOpenBody(c, m, []);
      match t
      case Progress(next, e) => s == Progress(next, begun + e)
      case Wait(next, e) => s == Wait(next, begun + e)
      case Reject(next, e) => s == t
  {
    hide Find, DelimiterSuffix, Enter, BodyDataEnd, DataEvents;
    var found := Find(m.buffer, c.token);
    if found.Some? {
      var data := DataEvents(m.buffer[..BodyDataEnd(m.buffer, found.value)]);
      assert begun + ([] + data) == begun + data;
      assert begun + ([] + data + [EndPart]) == begun + data + [EndPart];
    } else if |m.buffer| > |c.token| + 1 {
      var data := DataEvents(m.buffer[..|m.buffer| - |c.token| - 1]);
      assert begun + ([] + data) == begun + data;
    } else {
      assert begun + [] == begun;
    }
  }
}
