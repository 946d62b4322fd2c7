/** Whole messages: feed every chunk, end the input, finish. The events and the verdict depend on
    the bytes alone, not on how they were cut. */
module Messages {
  import opened Bytes
  import opened Machines
  import opened Events
  import opened Segments
  import opened Chunking
  import opened Refinement
  import opened Parsing

  datatype Terminal =
    | FeedError(error: ParseError)
    | EofError(error: ParseError)
    | FinishOk
    | FinishError

  datatype Parsed = Parsed(events: seq<Event>, terminal: Terminal)

  /** End of input and `finish`, with `output` collected so far. */
  function Conclude(c: Config, m: Machine, output: seq<Event>): Parsed
    requires c.Valid()
  {
    match FeedEof(c, m)
    case Done(last, e) => Parsed(AppendEvents(output, e), if Finished(last) then FinishOk else FinishError)
    case Rejected(_, error) => Parsed(output, EofError(error))
  }

  function ParseFrom(c: Config, m: Machine, chunks: seq<Bytes>, output: seq<Event>): Parsed
    requires c.Valid()
    decreases |chunks|
  {
    if chunks == [] then Conclude(c, m, output)
    else
      match Feed(c, m, chunks[0])
      case Done(next, e) => ParseFrom(c, next, chunks[1..], AppendEvents(output, e))
      case Rejected(_, error) => Parsed(output, FeedError(error))
  }

  function ParseChunks(c: Config, chunks: seq<Bytes>): Parsed
    requires c.Valid()
  {
    ParseFrom(c, FRESH, chunks, [])
  }

  // ----- the driver

  /** Appends in place, extending a last data event. */
  method Append(output: seq<Event>, events: seq<Event>) returns (out: seq<Event>)
    ensures out == AppendEvents(output, events)
  {
    out := output;
    for i := 0 to |events|
      invariant out == AppendEvents(output, events[..i])
    {
      assert events[..i + 1][..i] == events[..i];
      var e := events[i];
      if e.Data? && out != [] && out[|out| - 1].Data? {
        out := out[|out| - 1 := Data(out[|out| - 1].data + e.data)];
      } else {
        out := out + [e];
      }
    }
    assert events[..|events|] == events;
  }

  method Parse(config: Config, chunks: seq<Bytes>) returns (parsed: Parsed)
    requires config.Valid()
    ensures parsed == ParseChunks(config, chunks)
  {
    hide Feed, FeedEof, AppendEvents;
    var parser := new MultipartParser(config);
    var output := [];
    for i := 0 to |chunks|
      invariant ParseChunks(config, chunks) == ParseFrom(config, parser.M(), chunks[i..], output)
      invariant parser.config == config
    {
      assert chunks[i..][1..] == chunks[i + 1..];
      var error, produced := parser.FeedData(chunks[i]);
      if error.Some? {
        return Parsed(output, FeedError(error.value));
      }
      output := Append(output, produced);
    }
    var error, produced := parser.FeedEofData();
    if error.Some? {
      return Parsed(output, EofError(error.value));
    }
    output := Append(output, produced);
    error := parser.Finish();
    return Parsed(output, if error.Some? then FinishError else FinishOk);
  }

  // ----- specified events are already joined

  predicate Joined(events: seq<Event>) {
    forall k :: 0 < k < |events| ==> !(events[k - 1].Data? && events[k].Data?)
  }

  predicate StartsWithoutData(events: seq<Event>) { events != [] ==> !events[0].Data? }

  predicate EndsWithoutData(events: seq<Event>) { events != [] ==> !events[|events| - 1].Data? }

  lemma {:induction false} JoinedIsFixed(events: seq<Event>)
    requires Joined(events)
    ensures Coalesce(events) == events
    decreases |events|
  {
    if events != [] {
      var n := |events| - 1;
      JoinedIsFixed(events[..n]);
      assert events == events[..n] + [events[n]];
    }
  }

  lemma JoinedConcat(a: seq<Event>, b: seq<Event>)
    requires Joined(a) && Joined(b) && EndsWithoutData(a)
    ensures Joined(a + b)
  {
  }

  lemma ClosedJoined(seg: Segment)
    ensures var e := ClosedEvents(seg); Joined(e) && EndsWithoutData(e) && StartsWithoutData(e) && e != []
  {
    hide StripBreak;
  }

  lemma {:induction false} FromJoined(token: Bytes, seg: Segment, later: seq<Bytes>)
    ensures Joined(EventsFrom(token, seg, later)) && Joined(FinalEventsFrom(seg, later))
    decreases |later|
  {
    hide StripBreak, ClosedEvents, Classify;
    ClosedJoined(seg);
    if later != [] && !(|later| == 1 && Undecided(later[0])) {
      var next := Classify(later[0], |later| > 1);
      FromJoined(token, next, later[1..]);
      JoinedConcat(ClosedEvents(seg), EventsFrom(token, next, later[1..]));
      JoinedConcat(ClosedEvents(seg), FinalEventsFrom(next, later[1..]));
    }
  }

  lemma MessageJoined(token: Bytes, s: Bytes)
    requires token != []
    ensures Coalesce(MessageEvents(token, s)) == MessageEvents(token, s)
    ensures Coalesce(FinalMessageEvents(token, s)) == FinalMessageEvents(token, s)
  {
    hide EventsFrom, FinalEventsFrom, AppendEvents, Cut, Classify;
    var pieces := Cut(s, token);
    if |pieces| > 1 { FromJoined(token, Classify(pieces[1], |pieces| > 2), pieces[2..]); }
    JoinedIsFixed(MessageEvents(token, s));
    JoinedIsFixed(FinalMessageEvents(token, s));
  }

  // ----- main results

  /** Refinement: for every chunking that is not rejected, feeding announces exactly what the
      segments of the whole stream say. */
  lemma FeedMeans(c: Config, chunks: seq<Bytes>)
    requires c.Valid()
    ensures var o := FeedAll(c, FRESH, chunks);
      o.Done? ==> Coalesce(o.events) == MessageEvents(c.token, Concat(chunks))
  {
    hide FeedAll, Feed, MessageEvents, AppendEvents, Concat;
    if FeedAll(c, FRESH, chunks).Done? {
      if chunks != [] { FrontAccepted(c, chunks); }
      OneShot(c, chunks);
      FeedRefines(c, Concat(chunks));
      MessageJoined(c.token, Concat(chunks));
    }
  }

  /** The same for the whole message: data flushed at EOF, a part ended at an undecided token, and
      the verdict of `finish`. */
  lemma MessageMeans(c: Config, chunks: seq<Bytes>)
    requires c.Valid()
    ensures var o := FeedAll(c, FRESH, chunks);
      o.Done? ==>
        var last := FeedEof(c, o.machine);
        last.Done? ==>
          && Coalesce(o.events + last.events) == FinalMessageEvents(c.token, Concat(chunks))
          && (Finished(last.machine) <==> MessageCloses(c.token, Concat(chunks)))
          && ((o.machine.state.Body? && Finished(last.machine)) <==> MessageEndsAtToken(c.token, Concat(chunks)))
  {
    hide FeedAll, Feed, FeedEof, MessageEvents, FinalMessageEvents, MessageCloses, MessageEndsAtToken,
      AppendEvents, Concat;
    var o := FeedAll(c, FRESH, chunks);
    if o.Done? && FeedEof(c, o.machine).Done? {
      if chunks != [] { FrontAccepted(c, chunks); }
      OneShot(c, chunks);
      FeedRefines(c, Concat(chunks));
      MessageJoined(c.token, Concat(chunks));
      var last, whole := FeedEof(c, o.machine), Feed(c, FRESH, Concat(chunks));
      SameConcat(whole.events, o.events, last.events, last.events);
    }
  }

  lemma {:induction false} ParseIsFeedAll(c: Config, m: Machine, chunks: seq<Bytes>, output: seq<Event>)
    requires c.Valid()
    ensures match FeedAll(c, m, chunks)
      case Done(last, e) => ParseFrom(c, m, chunks, output) == Conclude(c, last, AppendEvents(output, e))
      case Rejected(_, error) => ParseFrom(c, m, chunks, output).terminal == FeedError(error)
    decreases |chunks|
  {
    hide Feed, Conclude;
    if chunks != [] && Feed(c, m, chunks[0]).Done? {
      var first := Feed(c, m, chunks[0]);
      ParseIsFeedAll(c, first.machine, chunks[1..], AppendEvents(output, first.events));
      var rest := FeedAll(c, first.machine, chunks[1..]);
      if rest.Done? { AppendSplit(output, first.events, rest.events); }
    }
  }

  /** The input ends once: afterwards nothing is taken any more, and ending it again adds nothing. */
  lemma EofIsFinal(c: Config, m: Machine, data: Bytes)
    requires c.Valid()
    ensures var ended := FeedEof(c, m).machine;
      ended.eof && Feed(c, ended, data) == Rejected(ended, FeedAfterEof) && FeedEof(c, ended) == Done(ended, [])
  {
    hide EofHeaderSize, Find, DelimiterSuffix, Run;
  }

  /** A rejected message keeps what was announced before: the events are those of the segments of the
      longest accepted front, and the error is that of the chunk behind it. */
  lemma ParseKeeps(c: Config, chunks: seq<Bytes>) returns (k: nat)
    requires c.Valid() && ParseChunks(c, chunks).terminal.FeedError?
    ensures var parsed := ParseChunks(c, chunks);
      && k < |chunks|
      && FeedAll(c, FRESH, chunks[..k]).Done?
      && FeedAll(c, FRESH, chunks[..k + 1]).Rejected?
      && FeedAll(c, FRESH, chunks[..k + 1]).error == parsed.terminal.error
      && parsed.events == MessageEvents(c.token, Concat(chunks[..k]))
  {
    hide Feed, ParseFrom, AppendEvents, MessageEvents, Concat, FeedAll;
    k := KeptFrom(c, FRESH, chunks, []);
    FeedMeans(c, chunks[..k]);
    AppendNothing(FeedAll(c, FRESH, chunks[..k]).events);
  }

  lemma AppendNothing(events: seq<Event>)
    ensures AppendEvents([], events) == Coalesce(events)
  {
  }

  lemma {:induction false} KeptFrom(c: Config, m: Machine, chunks: seq<Bytes>, output: seq<Event>) returns (k: nat)
    requires c.Valid() && ParseFrom(c, m, chunks, output).terminal.FeedError?
    ensures var parsed := ParseFrom(c, m, chunks, output);
      && k < |chunks|
      && FeedAll(c, m, chunks[..k]).Done?
      && FeedAll(c, m, chunks[..k + 1]).Rejected?
      && FeedAll(c, m, chunks[..k + 1]).error == parsed.terminal.error
      && parsed.events == AppendEvents(output, FeedAll(c, m, chunks[..k]).events)
    decreases |chunks|
  {
    hide Feed, AppendEvents, FeedEof;
    k := 0;
    assert chunks != [];
    var first := Feed(c, m, chunks[0]);
    if first.Done? {
      var j := KeptFrom(c, first.machine, chunks[1..], AppendEvents(output, first.events));
      k := j + 1;
      assert chunks[..k][1..] == chunks[1..][..j] && chunks[..k + 1][1..] == chunks[1..][..j + 1];
      AppendSplit(output, first.events, FeedAll(c, first.machine, chunks[1..][..j]).events);
    } else {
      assert chunks[..1][0] == chunks[0];
      AppendNone(output);
    }
  }

  lemma AppendNone(output: seq<Event>)
    ensures AppendEvents(output, []) == output
  {
  }

  lemma EofRejection(c: Config, m: Machine)
    requires c.Valid()
    ensures var last := FeedEof(c, m); last.Rejected? ==> last.error == HeaderTotal
  {
    hide EofHeaderSize, Find, DelimiterSuffix;
  }

  /** What the driver returns, for every input, limit and chunking that feeding accepts. */
  lemma ParseMeans(c: Config, chunks: seq<Bytes>)
    requires c.Valid() && !ParseChunks(c, chunks).terminal.FeedError?
    ensures var parsed, s := ParseChunks(c, chunks), Concat(chunks);
      if parsed.terminal.EofError? then
        parsed.terminal.error == HeaderTotal && parsed.events == MessageEvents(c.token, s)
      else
        parsed.events == FinalMessageEvents(c.token, s) && (parsed.terminal.FinishOk? <==> MessageCloses(c.token, s))
  {
    hide FeedAll, Feed, ParseFrom, AppendEvents, MessageEvents, FinalMessageEvents, MessageCloses,
      MessageEndsAtToken, Concat, FeedEof;
    ParseIsFeedAll(c, FRESH, chunks, []);
    FeedMeans(c, chunks);
    MessageMeans(c, chunks);
    var o := FeedAll(c, FRESH, chunks);
    var last := FeedEof(c, o.machine);
    if last.Done? { AppendSplit([], o.events, last.events); }
    EofRejection(c, o.machine);
  }

  /** Unless feeding is cut short by a limit, the driver cannot tell how the message was cut. */
  lemma ParseChunkingFree(c: Config, chunks: seq<Bytes>)
    requires c.Valid() && !ParseChunks(c, chunks).terminal.FeedError?
    ensures ParseChunks(c, chunks) == ParseChunks(c, [Concat(chunks)])
  {
    hide FeedAll, Feed, ParseFrom, AppendEvents, Concat, FeedEof;
    ParseIsFeedAll(c, FRESH, chunks, []);
    ParseIsFeedAll(c, FRESH, [Concat(chunks)], []);
    if chunks != [] { FrontAccepted(c, chunks); }
    OneShot(c, chunks);
    FeedOnce(c, Concat(chunks));
  }

  lemma FeedOnce(c: Config, s: Bytes)
    requires c.Valid()
    ensures FeedAll(c, FRESH, [s]) == Feed(c, FRESH, s)
  {
    hide Feed;
    var o := Feed(c, FRESH, s);
    assert [s][1..] == [];
    if o.Done? { assert o.events + [] == o.events; }
  }

  /** A message that closes has no header block open at EOF, so no limit applies there; only a token at
      the very end of the input is charged, and the only limit it reaches is zero. */
  lemma ClosingAccepted(c: Config, chunks: seq<Bytes>)
    requires c.Valid() && FeedAll(c, FRESH, chunks).Done? && MessageCloses(c.token, Concat(chunks))
    ensures FeedEof(c, FeedAll(c, FRESH, chunks).machine).Done?
      || (c.maxTotal == Some(0) && MessageEndsAtToken(c.token, Concat(chunks)))
  {
    hide FeedAll, Feed, FeedEof, MessageEvents, FinalMessageEvents, MessageCloses, MessageEndsAtToken,
      AppendEvents, Concat;
    if chunks != [] { FrontAccepted(c, chunks); }
    OneShot(c, chunks);
    FeedRefines(c, Concat(chunks));
  }
}
