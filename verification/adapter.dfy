/** The Django adapter on values: what each parser event does to the counters, the current part,
    the stored fields and the calls made to the upload handlers. */
module Adapters {
  import opened Bytes
  import opened Machines
  import opened Base64

  // ----- the world outside

  /** One call to upload handler `h`, or the closing of all open files. A new file is announced with the
      name of its field. */
  datatype Call =
    | NewFile(h: nat, name: string)
    | Chunk(h: nat, data: Bytes, start: nat)
    | FileComplete(h: nat, size: nat)
    | Interrupted(h: nat)
    | UploadComplete(h: nat)
    | CloseFiles

  /** A handler returns (nothing, or data / a file / true), or raises. */
  datatype Response =
    | Return(data: Option<Bytes>)
    | SkipFile
    | StopFutureHandlers
    | StopUpload(connectionReset: bool)
    | RaiseOther

  /** The decoded header fields of a part. */
  datatype PartInfo = PartInfo(name: Option<string>, hasFileName: bool, usableFileName: bool, base64: bool)

  /** Django's settings, the number of handlers, how headers decode, and how the handlers answer the
      last of all calls made so far. */
  datatype Settings = Settings(
    maxFields: Option<nat>,
    maxMemory: Option<nat>,
    maxFiles: Option<nat>,
    handlers: nat,
    describe: Headers -> PartInfo,
    respond: seq<Call> -> Response)

  datatype AdapterError =
    | TooManyFiles
    | TooManyFields
    | RequestTooBig
    | BadBase64
    | HandlerError
    | Protocol
    | ParserError(error: ParseError)

  // ----- the adapter's own state

  datatype Part = Part(
    name: string,
    isFile: bool,
    ignored: bool,
    started: bool,
    base64: bool,
    decoder: Option<Decoder>,
    data: Bytes,
    counters: seq<nat>)

  /** A stored field: the bytes received, and the value after transfer decoding. */
  datatype Field = Field(name: string, received: Bytes, value: Bytes)

  datatype Session = Session(
    fieldBytes: nat,
    fieldCount: nat,
    fileCount: nat,
    unfinished: bool,
    log: seq<Call>,
    post: seq<Field>,
    files: seq<string>,
    current: Option<Part>,
    terminalRaw: bool)

  const NEW_SESSION := Session(0, 0, 0, false, [], [], [], None, false)

  datatype Signal = Continue | Skip | Stop(connectionReset: bool) | Raise(error: AdapterError)

  /** Go on, or leave the parse by StopUpload or by an error. */
  datatype Flow =
    | Go(session: Session)
    | StopAt(session: Session, connectionReset: bool)
    | Fail(session: Session, error: AdapterError)

  function SignalOf(r: Response): Signal {
    match r
    case Return(_) => Continue
    case SkipFile => Skip
    case StopFutureHandlers => Raise(HandlerError)
    case StopUpload(b) => Stop(b)
    case RaiseOther => Raise(HandlerError)
  }

  function FlowOf(x: Session, s: Signal): Flow {
    match s
    case Continue => Go(x)
    case Skip => Fail(x, HandlerError)
    case Stop(b) => StopAt(x, b)
    case Raise(e) => Fail(x, e)
  }

  // ----- loops over the handlers

  /** `new_file` on handlers `h` and up; StopFutureHandlers spares the remaining ones. */
  function StartFrom(s: Settings, log: seq<Call>, h: nat, name: string): (seq<Call>, Signal)
    decreases s.handlers - h
  {
    if h >= s.handlers then (log, Continue)
    else
      var log1 := log + [NewFile(h, name)];
      var r := s.respond(log1);
      if r.StopFutureHandlers? then (log1, Continue)
      else if r.Return? then StartFrom(s, log1, h + 1, name)
      else (log1, SignalOf(r))
  }

  datatype Passed = Passed(log: seq<Call>, counters: seq<nat>, signal: Signal)

  /** A chunk passed along handlers `h` and up, each giving the next one what it returned. */
  function PassFrom(s: Settings, log: seq<Call>, counters: seq<nat>, h: nat, chunk: Option<Bytes>): Passed
    requires |counters| == s.handlers
    decreases s.handlers - h
  {
    if h >= s.handlers || chunk.None? then Passed(log, counters, Continue)
    else
      var log1 := log + [Chunk(h, chunk.value, counters[h])];
      var r := s.respond(log1);
      if r.Return? then PassFrom(s, log1, counters[h := counters[h] + |chunk.value|], h + 1, r.data)
      else Passed(log1, counters, SignalOf(r))
  }

  /** `file_complete` on handlers `h` and up until one returns a file. */
  function CompleteFrom(s: Settings, log: seq<Call>, counters: seq<nat>, h: nat): (seq<Call>, bool, Signal)
    requires |counters| == s.handlers
    decreases s.handlers - h
  {
    if h >= s.handlers then (log, false, Continue)
    else
      var log1 := log + [FileComplete(h, counters[h])];
      var r := s.respond(log1);
      if !r.Return? then (log1, false, SignalOf(r))
      else if r.data.Some? then (log1, true, Continue)
      else CompleteFrom(s, log1, counters, h + 1)
  }

  /** `upload_interrupted` on handlers `h` and up until one raises. */
  function InterruptFrom(s: Settings, log: seq<Call>, h: nat): (seq<Call>, bool)
    decreases s.handlers - h
  {
    if h >= s.handlers then (log, true)
    else
      var log1 := log + [Interrupted(h)];
      if s.respond(log1).Return? then InterruptFrom(s, log1, h + 1) else (log1, false)
  }

  /** `upload_complete` on handlers `h` and up until one answers true. */
  function UploadCompleteFrom(s: Settings, log: seq<Call>, h: nat): (seq<Call>, bool)
    decreases s.handlers - h
  {
    if h >= s.handlers then (log, true)
    else
      var log1 := log + [UploadComplete(h)];
      var r := s.respond(log1);
      if !r.Return? then (log1, false)
      else if r.data.Some? then (log1, true)
      else UploadCompleteFrom(s, log1, h + 1)
  }

  // ----- parts

  predicate FieldsExceeded(s: Settings, x: Session, allowance: nat) {
    s.maxFields.Some? && x.fieldCount > s.maxFields.value + allowance
  }

  function FieldSize(name: string, received: Bytes): nat { |received| + |name| + 2 }

  predicate MemoryExceeded(s: Settings, x: Session, p: Part) {
    s.maxMemory.Some? && x.fieldBytes + FieldSize(p.name, p.data) > s.maxMemory.value
  }

  function IgnoredPart(isFile: bool): Part { Part("", isFile, true, false, false, None, [], []) }

  function NewPart(s: Settings, name: string, info: PartInfo): Part {
    var ignored := info.hasFileName && !info.usableFileName;
    Part(name, info.hasFileName, ignored, info.hasFileName && !ignored, info.base64,
      if info.hasFileName && info.base64 then Some(NEW_DECODER) else None, [], seq(s.handlers, _ => 0))
  }

  /** A started file is announced to the handlers; SkipFile makes it an ignored part. */
  function Launch(s: Settings, x: Session, p: Part): Flow {
    if !p.started then Go(x.(current := Some(p)))
    else
      var (log, signal) := StartFrom(s, x.log, 0, p.name);
      var x1 := x.(unfinished := true, log := log);
      if signal.Skip? then Go(x1.(log := log + [CloseFiles], current := Some(p.(ignored := true))))
      else if signal.Continue? then Go(x1.(current := Some(p)))
      else FlowOf(x1, signal)
  }

  function OpenPart(s: Settings, x: Session, headers: Headers): Flow {
    var info := s.describe(headers);
    if info.hasFileName then
      if info.name.None? then Go(x.(current := Some(IgnoredPart(true))))
      else
        var x1 := x.(fileCount := x.fileCount + 1);
        if s.maxFiles.Some? && x1.fileCount > s.maxFiles.value then Fail(x1, TooManyFiles)
        else Launch(s, x1, NewPart(s, info.name.value, info))
    else
      var x1 := x.(fieldCount := x.fieldCount + 1);
      if FieldsExceeded(s, x1, 1) then Fail(x1, TooManyFields)
      else if info.name.None? then Go(x1.(current := Some(IgnoredPart(false))))
      else Launch(s, x1, NewPart(s, info.name.value, info))
  }

  predicate PartOk(s: Settings, p: Part) { !p.ignored ==> |p.counters| == s.handlers }

  function PassChunk(s: Settings, x: Session, p: Part, chunk: Bytes): Flow
    requires |p.counters| == s.handlers
  {
    var passed := PassFrom(s, x.log, p.counters, 0, Some(chunk));
    var p1 := p.(counters := passed.counters);
    var x1 := x.(log := passed.log, current := Some(p1));
    if passed.signal.Skip? then Go(x1.(log := passed.log + [CloseFiles], current := Some(p1.(ignored := true))))
    else FlowOf(x1, passed.signal)
  }

  function ReceiveData(s: Settings, x: Session, p: Part, data: Bytes): Flow
    requires PartOk(s, p)
  {
    if p.ignored then Go(x.(current := Some(p)))
    else if !p.isFile then
      var p1 := p.(data := p.data + data);
      if MemoryExceeded(s, x, p1) then Fail(x.(current := Some(p1)), RequestTooBig)
      else Go(x.(current := Some(p1)))
    else if p.decoder.None? then PassChunk(s, x, p, data)
    else
      match FeedDecoder(p.decoder.value, data)
      case Raised(d) => Fail(x.(current := Some(p.(decoder := Some(d)))), BadBase64)
      case Output(d, out) =>
        var p1 := p.(decoder := Some(d));
        if out.None? then Go(x.(current := Some(p1))) else PassChunk(s, x, p1, out.value)
  }

  function FieldValue(p: Part): Bytes {
    if p.base64 && Decode(p.data).Some? then Decode(p.data).value else p.data
  }

  /** Stores a field, or completes a file; `current` is left to the caller. */
  function FinishPart(s: Settings, x: Session, p: Part): Flow
    requires PartOk(s, p)
  {
    if p.ignored then Go(x)
    else if !p.isFile then
      if MemoryExceeded(s, x, p) then Fail(x, RequestTooBig)
      else Go(x.(
        fieldBytes := x.fieldBytes + FieldSize(p.name, p.data),
        post := x.post + [Field(p.name, p.data, FieldValue(p))]))
    else if p.name == "" then Go(x)
    else if p.decoder.Some? && FinishRaises(p.decoder.value) then Fail(x, BadBase64)
    else
      var (log, uploaded, signal) := CompleteFrom(s, x.log, p.counters, 0);
      var x1 := x.(log := log);
      if !signal.Continue? then FlowOf(x1, signal)
      else Go(x1.(unfinished := false, files := if uploaded then x.files + [p.name] else x.files))
  }

  function RecordRaw(s: Settings, x: Session): Flow {
    if x.current.Some? then Fail(x, Protocol)
    else
      var x1 := x.(fieldCount := x.fieldCount + 1);
      if FieldsExceeded(s, x1, 1) then Fail(x1, TooManyFields) else Go(x1.(terminalRaw := true))
  }

  // ----- events

  predicate Ready(s: Settings, x: Session) { x.current.Some? ==> PartOk(s, x.current.value) }

  /** The part is over; `skipFile` is the exact-boundary rule that leaves an active file unfinished. */
  function EndCurrent(s: Settings, x: Session, skipFile: bool): Flow
    requires Ready(s, x)
  {
    if x.current.None? then Fail(x, Protocol)
    else if skipFile && x.current.value.isFile then Go(x.(current := None, terminalRaw := true))
    else
      var f := FinishPart(s, x, x.current.value);
      if f.Go? then Go(f.session.(current := None, terminalRaw := true)) else f
  }

  function OnEvent(s: Settings, x: Session, e: Event, exact: bool): Flow
    requires Ready(s, x)
  {
    match e
    case Begin(headers) =>
      var x1 := x.(terminalRaw := false);
      if x.current.Some? then Fail(x1, Protocol) else OpenPart(s, x1, headers)
    case Data(data) =>
      if x.current.None? then Fail(x, Protocol) else ReceiveData(s, x, x.current.value, data)
    case EndPart => EndCurrent(s, x, exact)
    case Raw => RecordRaw(s, x)
  }

  lemma OnEventReady(s: Settings, x: Session, e: Event, exact: bool)
    requires Ready(s, x)
    ensures var f := OnEvent(s, x, e, exact); Ready(s, f.session)
  {
    hide Decode, Squeeze, FeedDecoder, CompleteFrom, StartFrom, PassFrom, FieldValue;
    if e.Data? && x.current.Some? && !x.current.value.ignored && x.current.value.isFile {
      ReceiveReady(s, x, x.current.value, e.data);
    }
  }

  lemma {:induction false} PassKeepsHandlers(s: Settings, log: seq<Call>, counters: seq<nat>, h: nat, chunk: Option<Bytes>)
    requires |counters| == s.handlers
    ensures |PassFrom(s, log, counters, h, chunk).counters| == s.handlers
    decreases s.handlers - h
  {
    if h < s.handlers && chunk.Some? {
      var log1 := log + [Chunk(h, chunk.value, counters[h])];
      var r := s.respond(log1);
      if r.Return? { PassKeepsHandlers(s, log1, counters[h := counters[h] + |chunk.value|], h + 1, r.data); }
    }
  }

  lemma ReceiveReady(s: Settings, x: Session, p: Part, data: Bytes)
    requires PartOk(s, p) && !p.ignored && p.isFile
    ensures Ready(s, ReceiveData(s, x, p, data).session)
  {
    hide Decode, Squeeze, FeedDecoder, PassFrom;
    if p.decoder.None? {
      PassKeepsHandlers(s, x.log, p.counters, 0, Some(data));
    } else {
      var r := FeedDecoder(p.decoder.value, data);
      if r.Output? && r.data.Some? { PassKeepsHandlers(s, x.log, p.counters, 0, Some(r.data.value)); }
    }
  }

  function OnEvents(s: Settings, x: Session, events: seq<Event>, exact: bool): Flow
    requires Ready(s, x)
    decreases |events|
  {
    if events == [] then Go(x)
    else
      OnEventReady(s, x, events[0], exact);
      var f := OnEvent(s, x, events[0], exact);
      if f.Go? then OnEvents(s, f.session, events[1..], exact) else f
  }

  lemma {:induction false} OnEventsReady(s: Settings, x: Session, events: seq<Event>, exact: bool)
    requires Ready(s, x)
    ensures Ready(s, OnEvents(s, x, events, exact).session)
    decreases |events|
  {
    hide OnEvent;
    if events != [] {
      OnEventReady(s, x, events[0], exact);
      var f := OnEvent(s, x, events[0], exact);
      if f.Go? { OnEventsReady(s, f.session, events[1..], exact); }
    }
  }

  // ----- the whole parse

  /** The input has ended with the parser in `m`. */
  function AtEof(s: Settings, c: Config, m: Machine, x: Session): Flow
    requires c.Valid() && Ready(s, x)
  {
    match FeedEof(c, m)
    case Rejected(_, error) => Fail(x, ParserError(error))
    case Done(last, events) =>
      EndEvents(s, x, events, m.state.Body? && last.state.End?, Finished(last))
  }

  /** The events of the EOF call, the exact-token rule, and the field that is left open. */
  function EndEvents(s: Settings, x: Session, events: seq<Event>, exact: bool, finished: bool): Flow
    requires Ready(s, x)
  {
    OnEventsReady(s, x, events, exact);
    var f := OnEvents(s, x, events, exact);
    if !f.Go? then f else AfterEof(s, if exact then f.session.(terminalRaw := false) else f.session, finished)
  }

  /** A field that the input left open is stored as far as it came. */
  function AfterEof(s: Settings, x: Session, finished: bool): Flow
    requires Ready(s, x)
  {
    if !finished && x.current.Some? && !x.current.value.isFile then
      var f := FinishPart(s, x, x.current.value);
      if f.Go? then Go(f.session.(current := None)) else f
    else Go(x)
  }

  /** The read loop from the parser state `m` on. */
  function ReadFrom(s: Settings, c: Config, m: Machine, x: Session, chunks: seq<Bytes>): Flow
    requires c.Valid() && Ready(s, x)
    decreases |chunks|
  {
    if chunks == [] then AtEof(s, c, m, x)
    else
      match Feed(c, m, chunks[0])
      case Rejected(_, error) => Fail(x, ParserError(error))
      case Done(next, events) =>
        OnEventsReady(s, x, events, false);
        var f := OnEvents(s, x, events, false);
        if f.Go? then ReadFrom(s, c, next, f.session, chunks[1..]) else f
  }

  datatype Verdict =
    | Returned(session: Session, stopped: bool)
    | Raised(session: Session, error: AdapterError)

  /** After an error: interrupt an active upload, close files, suppress what the handlers raise. */
  function Abort(s: Settings, x: Session): Session {
    var log := if x.unfinished then InterruptFrom(s, x.log, 0).0 else x.log;
    x.(unfinished := false, log := log + [CloseFiles])
  }

  function Complete(s: Settings, x: Session, stopped: bool): Verdict {
    var (log, ok) := UploadCompleteFrom(s, x.log, 0);
    var x1 := x.(log := log);
    if ok then Returned(x1, stopped) else Verdict.Raised(x1, HandlerError)
  }

  function Settle(s: Settings, f: Flow): Verdict {
    match f
    case StopAt(x, _) => Complete(s, x.(log := x.log + [CloseFiles]), true)
    case Fail(x, e) => Verdict.Raised(Abort(s, x), e)
    case Go(x) =>
      if x.terminalRaw && FieldsExceeded(s, x, 0) then Verdict.Raised(x, TooManyFields)
      else if !x.unfinished then Complete(s, x, false)
      else
        var (log, ok) := InterruptFrom(s, x.log, 0);
        if ok then Complete(s, x.(log := log), false) else Verdict.Raised(x.(log := log), HandlerError)
  }

  function ParseUpload(s: Settings, c: Config, chunks: seq<Bytes>): Verdict
    requires c.Valid()
  {
    Settle(s, ReadFrom(s, c, FRESH, NEW_SESSION, chunks))
  }
}
