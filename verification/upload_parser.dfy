/** The adapter object: its counters, its current part and that part's base64 decoder are updated in
    place, and every method is tied to the adapter on values. */
module UploadParsing {
  import opened Bytes
  import opened Machines
  import opened Parsing
  import opened Base64
  import opened Adapters

  class PartObject {
    const name: string
    const isFile: bool
    const started: bool
    const base64: bool
    const decoder: Base64Decoder?
    var ignored: bool
    var data: Bytes
    var counters: seq<nat>

    constructor (name: string, isFile: bool, ignored: bool, started: bool, base64: bool,
      decoder: Base64Decoder?, counters: seq<nat>)
      ensures this.decoder == decoder
      ensures P() ==
        Part(name, isFile, ignored, started, base64, if decoder == null then None else Some(decoder.D()), [], counters)
    {
      this.name, this.isFile, this.started, this.base64, this.decoder := name, isFile, started, base64, decoder;
      this.ignored, this.data, this.counters := ignored, [], counters;
    }

    /** The part's fields as a value. */
    function P(): Part
      reads this, decoder
    {
      Part(name, isFile, ignored, started, base64, if decoder == null then None else Some(decoder.D()), data, counters)
    }
  }

  class UploadParser {
    const settings: Settings
    var fieldBytes: nat
    var fieldCount: nat
    var fileCount: nat
    var unfinished: bool
    var log: seq<Call>
    var post: seq<Field>
    var files: seq<string>

    constructor (settings: Settings)
      ensures this.settings == settings && S(None, false) == NEW_SESSION
    {
      this.settings := settings;
      fieldBytes, fieldCount, fileCount, unfinished := 0, 0, 0, false;
      log, post, files := [], [], [];
    }

    /** The object's fields as a value; the current part and the flag are locals of the event loop. */
    function S(current: Option<Part>, terminalRaw: bool): Session
      reads this
    {
      Session(fieldBytes, fieldCount, fileCount, unfinished, log, post, files, current, terminalRaw)
    }

    /** The flow `f` led to the session `x` and was left by `signal`. */
    predicate Flowed(f: Flow, signal: Signal, x: Session) {
      && f.session == x
      && match f {
           case Go(_) => signal == Continue
           case StopAt(_, b) => signal == Stop(b)
           case Fail(_, e) => signal == Raise(e)
         }
    }

    /** Records a call and asks the environment for the answer. */
    method Ask(call: Call) returns (r: Response)
      modifies this`log
      ensures log == old(log) + [call] && r == settings.respond(log)
    {
      log := log + [call];
      r := settings.respond(log);
    }

    method StartFile(name: string) returns (signal: Signal)
      modifies this`log
      ensures (log, signal) == StartFrom(settings, old(log), 0, name)
    {
      var h := 0;
      while h < settings.handlers
        invariant StartFrom(settings, old(log), 0, name) == StartFrom(settings, log, h, name)
        decreases settings.handlers - h
      {
        var r := Ask(NewFile(h, name));
        if r.StopFutureHandlers? {
          return Continue;
        }
        if !r.Return? {
          return SignalOf(r);
        }
        h := h + 1;
      }
      return Continue;
    }

    method BeginPart(headers: Headers, ghost flag: bool) returns (signal: Signal, part: PartObject?)
      modifies this`fileCount, this`fieldCount
      ensures part != null ==> fresh(part) && (part.decoder != null ==> fresh(part.decoder))
      ensures signal.Continue? <==> part != null
      ensures OpenPart(settings, old(S(None, flag)), headers) ==
        if part != null then Launch(settings, S(None, flag), part.P())
        else if signal.Raise? then Fail(S(None, flag), signal.error) else Go(S(None, flag))
      ensures part == null ==> signal.Raise?
    {
      hide Launch, Decode, FeedDecoder;
      var info := settings.describe(headers);
      if info.hasFileName {
        if info.name.None? {
          part := new PartObject("", true, true, false, false, null, []);
          LaunchIgnored(settings, S(None, flag), part.P());
          return Continue, part;
        }
        fileCount := fileCount + 1;
        if settings.maxFiles.Some? && fileCount > settings.maxFiles.value {
          return Raise(TooManyFiles), null;
        }
      } else {
        fieldCount := fieldCount + 1;
        if settings.maxFields.Some? && fieldCount > settings.maxFields.value + 1 {
          return Raise(TooManyFields), null;
        }
        if info.name.None? {
          part := new PartObject("", false, true, false, false, null, []);
          LaunchIgnored(settings, S(None, flag), part.P());
          return Continue, part;
        }
      }
      var ignored := info.hasFileName && !info.usableFileName;
      var decoder: Base64Decoder? := null;
      if info.hasFileName && info.base64 {
        decoder := new Base64Decoder();
      }
      part := new PartObject(info.name.value, info.hasFileName, ignored, info.hasFileName && !ignored, info.base64,
        decoder, seq(settings.handlers, _ => 0));
      return Continue, part;
    }

    method OpenPartObject(headers: Headers, ghost flag: bool) returns (signal: Signal, part: PartObject?)
      modifies this
      ensures part != null ==> fresh(part) && (part.decoder != null ==> fresh(part.decoder))
      ensures signal.Continue? <==> part != null
      ensures Flowed(OpenPart(settings, old(S(None, flag)), headers), signal,
        S(if part == null then None else Some(part.P()), flag))
    {
      hide StartFrom, OpenPart;
      signal, part := BeginPart(headers, flag);
      if part == null || !part.started {
        return;
      }
      unfinished := true;
      signal := StartFile(part.name);
      match signal {
        case Continue =>
        case Skip =>
          log := log + [CloseFiles];
          part.ignored := true;
          signal := Continue;
        case _ => part := null;
      }
    }

    predicate TooBig(part: PartObject)
      reads this, part, part.decoder
    {
      MemoryExceeded(settings, S(None, false), part.P())
    }

    method PassToHandlers(part: PartObject, chunk: Bytes, ghost flag: bool) returns (signal: Signal)
      requires |part.counters| == settings.handlers
      modifies this`log, part`counters, part`ignored
      ensures Flowed(PassChunk(settings, old(S(Some(part.P()), flag)), old(part.P()), chunk), signal,
        S(Some(part.P()), flag))
    {
      hide PassFrom;
      signal := PassAlong(part, chunk);
      if signal.Skip? {
        log := log + [CloseFiles];
        part.ignored := true;
        signal := Continue;
      }
    }

    /** Each handler is given what the one before it returned, until one returns nothing. */
    method PassAlong(part: PartObject, chunk: Bytes) returns (signal: Signal)
      requires |part.counters| == settings.handlers
      modifies this`log, part`counters
      ensures Passed(log, part.counters, signal) == PassFrom(settings, old(log), old(part.counters), 0, Some(chunk))
    {
      var rest: Option<Bytes> := Some(chunk);
      var h := 0;
      while h < settings.handlers && rest.Some?
        invariant |part.counters| == settings.handlers
        invariant PassFrom(settings, old(log), old(part.counters), 0, Some(chunk))
          == PassFrom(settings, log, part.counters, h, rest)
        decreases settings.handlers - h
      {
        var size := |rest.value|;
        var r := Ask(Chunk(h, rest.value, part.counters[h]));
        if !r.Return? {
          return SignalOf(r);
        }
        rest := r.data;
        part.counters := part.counters[h := part.counters[h] + size];
        h := h + 1;
      }
      return Continue;
    }

    method ReceivePartData(part: PartObject, data: Bytes, ghost flag: bool) returns (signal: Signal)
      requires PartOk(settings, part.P())
      modifies this`log, part, part.decoder
      ensures Flowed(ReceiveData(settings, old(S(Some(part.P()), flag)), old(part.P()), data), signal,
        S(Some(part.P()), flag))
    {
      hide PassChunk, FeedDecoder;
      if part.ignored {
        return Continue;
      }
      if !part.isFile {
        part.data := part.data + data;
        if TooBig(part) {
          return Raise(RequestTooBig);
        }
        return Continue;
      }
      var chunk := data;
      if part.decoder != null {
        var raised, out := part.decoder.FeedBytes(data);
        if raised {
          return Raise(BadBase64);
        }
        if out.None? {
          return Continue;
        }
        chunk := out.value;
      }
      PassIgnoresCurrent(settings, S(Some(part.P()), flag), old(Some(part.P())), part.P(), chunk);
      signal := PassToHandlers(part, chunk, flag);
    }

    method CompleteFile(part: PartObject) returns (uploaded: bool, signal: Signal)
      requires |part.counters| == settings.handlers
      modifies this`log
      ensures (log, uploaded, signal) == CompleteFrom(settings, old(log), part.counters, 0)
    {
      var h := 0;
      uploaded := false;
      while h < settings.handlers
        invariant CompleteFrom(settings, old(log), part.counters, 0) == CompleteFrom(settings, log, part.counters, h)
        invariant !uploaded
        decreases settings.handlers - h
      {
        var r := Ask(FileComplete(h, part.counters[h]));
        if !r.Return? {
          return false, SignalOf(r);
        }
        if r.data.Some? {
          return true, Continue;
        }
        h := h + 1;
      }
      return false, Continue;
    }

    method FinishPartObject(part: PartObject, ghost flag: bool) returns (signal: Signal)
      requires PartOk(settings, part.P())
      modifies this
      ensures Flowed(FinishPart(settings, old(S(Some(part.P()), flag)), part.P()), signal, S(Some(part.P()), flag))
      ensures part.P() == old(part.P())
    {
      hide CompleteFrom, Decode;
      if part.ignored {
        return Continue;
      }
      if !part.isFile {
        if TooBig(part) {
          return Raise(RequestTooBig);
        }
        fieldBytes := fieldBytes + |part.data| + |part.name| + 2;
        var value := part.data;
        if part.base64 {
          var decoded := Decode(value);
          if decoded.Some? {
            value := decoded.value;
          }
        }
        post := post + [Field(part.name, part.data, value)];
        return Continue;
      }
      if part.name == "" {
        return Continue;
      }
      if part.decoder != null {
        var raised := part.decoder.FinishBytes();
        if raised {
          return Raise(BadBase64);
        }
      }
      var uploaded;
      uploaded, signal := CompleteFile(part);
      match signal {
        case Continue =>
          if uploaded {
            files := files + [part.name];
          }
          unfinished := false;
        case Skip => signal := Raise(HandlerError);
        case _ =>
      }
    }

    function Value(part: PartObject?): Option<Part>
      reads part, if part == null then {} else {part.decoder}
    {
      if part == null then None else Some(part.P())
    }

    method RecordRawPart(part: PartObject?, ghost flag: bool) returns (signal: Signal)
      modifies this`fieldCount
      ensures Flowed(RecordRaw(settings, old(S(Value(part), flag))), signal, S(Value(part), flag || signal == Continue))
    {
      if part != null {
        return Raise(Protocol);
      }
      fieldCount := fieldCount + 1;
      if settings.maxFields.Some? && fieldCount > settings.maxFields.value + 1 {
        return Raise(TooManyFields);
      }
      return Continue;
    }

    method EndPartObject(part: PartObject?, exact: bool, flag: bool)
      returns (signal: Signal, next: PartObject?, raw: bool)
      requires part != null ==> PartOk(settings, part.P())
      modifies this
      ensures next == part || next == null
      ensures Value(part) == old(Value(part))
      ensures Flowed(EndCurrent(settings, old(S(Value(part), flag)), exact), signal, S(Value(next), raw))
    {
      hide FinishPart;
      if part == null {
        return Raise(Protocol), null, flag;
      }
      if !(exact && part.isFile) {
        signal := FinishPartObject(part, flag);
        if signal != Continue {
          return signal, part, flag;
        }
      }
      return Continue, null, true;
    }

    /** One event of the loop: the signal, the part that is current afterwards, and the flag. */
    method HandleEvent(part: PartObject?, e: Event, exact: bool, flag: bool)
      returns (signal: Signal, next: PartObject?, raw: bool)
      requires part != null ==> PartOk(settings, part.P())
      modifies this, part, if part == null then {} else {part.decoder}
      ensures next == part || next == null || (fresh(next) && (next.decoder != null ==> fresh(next.decoder)))
      ensures Flowed(OnEvent(settings, old(S(Value(part), flag)), e, exact), signal, S(Value(next), raw))
      ensures next != null ==> PartOk(settings, next.P())
    {
      hide OpenPart, ReceiveData, EndCurrent, RecordRaw, PartOk;
      OnEventReady(settings, S(Value(part), flag), e, exact);
      ghost var before := S(Value(part), flag);
      next, raw := part, flag;
      match e {
        case Begin(headers) =>
          raw := false;
          if part != null {
            return Raise(Protocol), part, raw;
          }
          signal, next := OpenPartObject(headers, raw);
        case Data(data) =>
          if part == null {
            return Raise(Protocol), part, raw;
          }
          signal := ReceivePartData(part, data, raw);
        case EndPart =>
          signal, next, raw := EndPartObject(part, exact, flag);
        case Raw =>
          signal := RecordRawPart(part, flag);
          raw := flag || signal == Continue;
      }
      assert Ready(settings, S(Value(next), raw));
      ReadyPart(settings, S(Value(next), raw));
    }

    method HandleEvents(part: PartObject?, events: seq<Event>, exact: bool, flag: bool)
      returns (signal: Signal, next: PartObject?, raw: bool)
      requires part != null ==> PartOk(settings, part.P())
      modifies this, part, if part == null then {} else {part.decoder}
      ensures next == part || next == null || (fresh(next) && (next.decoder != null ==> fresh(next.decoder)))
      ensures Flowed(OnEvents(settings, old(S(Value(part), flag)), events, exact), signal, S(Value(next), raw))
      ensures next != null ==> PartOk(settings, next.P())
    {
      hide OnEvent, PartOk;
      signal, next, raw := Continue, part, flag;
      ghost var start := S(Value(part), flag);
      ReadyPart(settings, start);
      for i := 0 to |events|
        invariant next == part || next == null || (fresh(next) && (next.decoder != null ==> fresh(next.decoder)))
        invariant next != null ==> PartOk(settings, next.P())
        invariant signal == Continue
        invariant Ready(settings, start) && Ready(settings, S(Value(next), raw))
        invariant OnEvents(settings, start, events, exact) == OnEvents(settings, S(Value(next), raw), events[i..], exact)
      {
        assert events[i..][1..] == events[i + 1..];
        OnEventReady(settings, S(Value(next), raw), events[i], exact);
        signal, next, raw := HandleEvent(next, events[i], exact, raw);
        if signal != Continue {
          return;
        }
      }
    }

    /** The read loop and the end of the input. */
    method ReadInput(parser: MultipartParser, chunks: seq<Bytes>)
      returns (signal: Signal, current: PartObject?, raw: bool)
      requires parser.config.Valid() && parser.M() == FRESH
      modifies this, parser
      ensures Flowed(ReadFrom(settings, parser.config, FRESH, old(S(None, false)), chunks), signal, S(Value(current), raw))
    {
      hide Feed, OnEvents, AtEof, PartOk, Ready;
      signal, current, raw := Continue, null, false;
      ghost var start := S(None, false);
      assert Ready(settings, start) by { ReadyPart(settings, start); }
      for i := 0 to |chunks|
        invariant signal == Continue
        invariant current != null ==> fresh(current) && (current.decoder != null ==> fresh(current.decoder))
        invariant current != null ==> PartOk(settings, current.P())
        invariant Ready(settings, start) && Ready(settings, S(Value(current), raw))
        invariant ReadFrom(settings, parser.config, FRESH, start, chunks)
          == ReadFrom(settings, parser.config, parser.M(), S(Value(current), raw), chunks[i..])
      {
        assert chunks[i..][1..] == chunks[i + 1..];
        var error, events := parser.FeedData(chunks[i]);
        if error.Some? {
          signal := Raise(ParserError(error.value));
          return;
        }
        signal, current, raw := HandleEvents(current, events, false, raw);
        ReadyPart(settings, S(Value(current), raw));
        if signal != Continue {
          return;
        }
      }
      signal, current, raw := EndInput(parser, current, raw);
    }

    method EndInput(parser: MultipartParser, part: PartObject?, flag: bool)
      returns (signal: Signal, current: PartObject?, raw: bool)
      requires parser.config.Valid()
      requires part != null ==> PartOk(settings, part.P())
      requires Ready(settings, S(Value(part), flag))
      modifies this, parser, part, if part == null then {} else {part.decoder}
      ensures Flowed(AtEof(settings, parser.config, old(parser.M()), old(S(Value(part), flag))), signal,
        S(Value(current), raw))
    {
      hide FeedEof, EndEvents, PartOk, Ready;
      current, raw := part, flag;
      var bodyBeforeEof := parser.state == Body;
      var error, events := parser.FeedEofData();
      if error.Some? {
        return Raise(ParserError(error.value)), current, raw;
      }
      var exact := bodyBeforeEof && parser.state == End;
      error := parser.Finish();
      signal, current, raw := HandleEndEvents(part, events, exact, error.None?, flag);
    }

    /** `finished` is the answer of the parser's `finish`, which changes nothing. */
    method HandleEndEvents(part: PartObject?, events: seq<Event>, exact: bool, finished: bool, flag: bool)
      returns (signal: Signal, current: PartObject?, raw: bool)
      requires part != null ==> PartOk(settings, part.P())
      requires Ready(settings, S(Value(part), flag))
      modifies this, part, if part == null then {} else {part.decoder}
      ensures Flowed(EndEvents(settings, old(S(Value(part), flag)), events, exact, finished), signal,
        S(Value(current), raw))
    {
      hide OnEvents, AfterEof, PartOk, Ready;
      signal, current, raw := HandleEvents(part, events, exact, flag);
      if signal != Continue {
        return;
      }
      if exact {
        raw := false;
      }
      ReadyPart(settings, S(Value(current), raw));
      signal, current := FinishTruncated(current, finished, raw);
    }

    method FinishTruncated(part: PartObject?, finished: bool, ghost flag: bool)
      returns (signal: Signal, current: PartObject?)
      requires Ready(settings, S(Value(part), flag))
      modifies this
      ensures Flowed(AfterEof(settings, old(S(Value(part), flag)), finished), signal, S(Value(current), flag))
    {
      hide FinishPart;
      signal, current := Continue, part;
      if !finished && part != null && !part.isFile {
        signal := FinishPartObject(part, flag);
        if signal == Continue {
          current := null;
        }
      }
    }

    method InterruptUpload() returns (ok: bool)
      modifies this`log
      ensures (log, ok) == InterruptFrom(settings, old(log), 0)
    {
      var h := 0;
      while h < settings.handlers
        invariant InterruptFrom(settings, old(log), 0) == InterruptFrom(settings, log, h)
        decreases settings.handlers - h
      {
        var r := Ask(Interrupted(h));
        if !r.Return? {
          return false;
        }
        h := h + 1;
      }
      return true;
    }

    method UploadsComplete() returns (ok: bool)
      modifies this`log
      ensures (log, ok) == UploadCompleteFrom(settings, old(log), 0)
    {
      var h := 0;
      while h < settings.handlers
        invariant UploadCompleteFrom(settings, old(log), 0) == UploadCompleteFrom(settings, log, h)
        decreases settings.handlers - h
      {
        var r := Ask(UploadComplete(h));
        if !r.Return? {
          return false;
        }
        if r.data.Some? {
          return true;
        }
        h := h + 1;
      }
      return true;
    }

    method AbortUpload()
      modifies this`log, this`unfinished
      ensures forall current, flag ::
        S(current, flag) == Abort(settings, old(S(None, false))).(current := current, terminalRaw := flag)
    {
      if unfinished {
        var _ := InterruptUpload();
      }
      unfinished := false;
      log := log + [CloseFiles];
    }

    /** The whole parse. `current` and `raw` are the event loop's locals as it was left. */
    method Parse(parser: MultipartParser, chunks: seq<Bytes>)
      returns (error: Option<AdapterError>, stopped: bool, current: PartObject?, raw: bool)
      requires parser.config.Valid() && parser.M() == FRESH && S(None, false) == NEW_SESSION
      modifies this, parser
      ensures ParseUpload(settings, parser.config, chunks) ==
        if error.Some? then Verdict.Raised(S(Value(current), raw), error.value) else Returned(S(Value(current), raw), stopped)
    {
      hide ReadFrom, InterruptFrom, UploadCompleteFrom;
      var signal;
      signal, current, raw := ReadInput(parser, chunks);
      stopped := false;
      if signal.Raise? {
        AbortUpload();
        return Some(signal.error), false, current, raw;
      }
      if signal.Stop? {
        log := log + [CloseFiles];
        stopped := true;
      } else {
        if raw && FieldsExceeded(settings, S(None, false), 0) {
          return Some(TooManyFields), false, current, raw;
        }
        if unfinished {
          var interrupted := InterruptUpload();
          if !interrupted {
            return Some(HandlerError), false, current, raw;
          }
        }
      }
      var ok := UploadsComplete();
      error := if ok then None else Some(HandlerError);
    }
  }

  lemma ReadyPart(s: Settings, x: Session)
    ensures Ready(s, x) <==> (x.current.Some? ==> PartOk(s, x.current.value))
  {
  }

  lemma PassIgnoresCurrent(s: Settings, x: Session, current: Option<Part>, p: Part, chunk: Bytes)
    requires |p.counters| == s.handlers
    ensures PassChunk(s, x, p, chunk) == PassChunk(s, x.(current := current), p, chunk)
  {
    hide PassFrom;
  }

  lemma LaunchIgnored(s: Settings, x: Session, p: Part)
    requires !p.started
    ensures Launch(s, x, p) == Go(x.(current := Some(p)))
  {
  }
}
