/** When an upload succeeds: a parse returns exactly if the message fits the parser's limits and the
    adapter's quotas, unless a handler skips an unreadable file, stops the upload or raises. */
module Acceptance {
  import opened Bytes
  import opened Machines
  import opened Base64
  import opened Adapters
  import opened Uploads
  import opened Ledger
  import opened Chunking
  import opened Verdicts

  /** Handlers that raise nothing but StopFutureHandlers, and that only when a file is announced. */
  ghost predicate Polite(s: Settings) {
    forall log: seq<Call> ::
      s.respond(log).Return? || (log != [] && log[|log| - 1].NewFile? && s.respond(log).StopFutureHandlers?)
  }

  /** Handlers that may also skip a file, when it is announced or when they are given a chunk. */
  ghost predicate Patient(s: Settings) {
    forall log: seq<Call> ::
      || s.respond(log).Return?
      || (log != [] && log[|log| - 1].NewFile? && s.respond(log).StopFutureHandlers?)
      || (log != [] && (log[|log| - 1].NewFile? || log[|log| - 1].Chunk?) && s.respond(log).SkipFile?)
  }

  // ----- the quotas, on the books of a message

  /** The quotas that are checked as soon as they are exceeded. */
  predicate Quotas(s: Settings, t: Tally) {
    && (s.maxFiles.Some? ==> t.announced <= s.maxFiles.value)
    && (s.maxFields.Some? ==> t.charged <= s.maxFields.value + 1)
  }

  /** The stored fields, with the open one as far as it came, exceed the memory limit. */
  predicate Exceeds(s: Settings, t: Tally) {
    s.maxMemory.Some? && StoredSize(t.post + OpenField(t)) > s.maxMemory.value
  }

  /** What the books of the message must show for an error; `spare` is the allowance of the field limit. */
  predicate Blames(s: Settings, t: Tally, e: AdapterError, spare: nat) {
    match e
    case TooManyFiles => s.maxFiles.Some? && t.announced > s.maxFiles.value
    case TooManyFields => s.maxFields.Some? && t.charged > s.maxFields.value + spare
    case RequestTooBig => Exceeds(s, t)
    case BadBase64 => t.spoiled
    case HandlerError => true
    case Protocol => false
    case ParserError(_) => false
  }

  function Spare(t: Tally): nat { if t.terminal then 0 else 1 }

  /** All quotas at the end of the message; a field limit spares one segment unless the last one is
      closed or raw. */
  predicate InQuota(s: Settings, t: Tally) {
    && (s.maxFiles.Some? ==> t.announced <= s.maxFiles.value)
    && (s.maxFields.Some? ==> t.charged <= s.maxFields.value + Spare(t))
    && (s.maxMemory.Some? ==> StoredSize(t.post + OpenField(t)) <= s.maxMemory.value)
  }

  /** In quota, and all base64 files are readable. */
  predicate Affordable(s: Settings, t: Tally) { InQuota(s, t) && !t.spoiled }

  // ----- what handlers can do to the parse

  /** Only impatient handlers end a parse, only impolite ones change a part. */
  ghost predicate Civil(s: Settings, signal: Signal) {
    && (Patient(s) ==> signal.Continue? || signal.Skip?)
    && (Polite(s) ==> signal.Continue?)
    && (signal.Raise? ==> signal.error == HandlerError)
  }

  lemma PoliteIsPatient(s: Settings)
    ensures Polite(s) ==> Patient(s)
  {
  }

  /** Whatever the answer was, it leaves the loop over the handlers as its signal says. */
  lemma AnswerCivil(s: Settings, log: seq<Call>, call: Call)
    requires call.NewFile? || call.Chunk?
    ensures var r := s.respond(log + [call]);
      !r.Return? && !(call.NewFile? && r.StopFutureHandlers?) ==> Civil(s, SignalOf(r))
  {
    var log1 := log + [call];
    assert log1[|log1| - 1] == call;
  }

  lemma {:induction false} StartCivil(s: Settings, log: seq<Call>, h: nat, name: string)
    ensures Civil(s, StartFrom(s, log, h, name).1)
    decreases s.handlers - h
  {
    hide Polite, Patient;
    if h < s.handlers {
      AnswerCivil(s, log, NewFile(h, name));
      if s.respond(log + [NewFile(h, name)]).Return? { StartCivil(s, log + [NewFile(h, name)], h + 1, name); }
    }
  }

  lemma {:induction false} PassCivil(s: Settings, log: seq<Call>, counters: seq<nat>, h: nat, chunk: Option<Bytes>)
    requires |counters| == s.handlers
    ensures Civil(s, PassFrom(s, log, counters, h, chunk).signal)
    decreases s.handlers - h
  {
    hide Polite, Patient;
    if h < s.handlers && chunk.Some? {
      var call := Chunk(h, chunk.value, counters[h]);
      AnswerCivil(s, log, call);
      var log1 := log + [call];
      if s.respond(log1).Return? {
        PassCivil(s, log1, counters[h := counters[h] + |chunk.value|], h + 1, s.respond(log1).data);
      }
    }
  }

  lemma PatientReturns(s: Settings, log: seq<Call>, call: Call)
    requires Patient(s) && !call.NewFile? && !call.Chunk?
    ensures s.respond(log + [call]).Return?
  {
    var log1 := log + [call];
    assert log1[|log1| - 1] == call;
  }

  lemma {:induction false} CompletePatient(s: Settings, log: seq<Call>, counters: seq<nat>, h: nat)
    requires Patient(s) && |counters| == s.handlers
    ensures CompleteFrom(s, log, counters, h).2.Continue?
    decreases s.handlers - h
  {
    hide Patient;
    if h < s.handlers {
      var call := FileComplete(h, counters[h]);
      PatientReturns(s, log, call);
      CompletePatient(s, log + [call], counters, h + 1);
    }
  }

  lemma {:induction false} InterruptPatient(s: Settings, log: seq<Call>, h: nat)
    requires Patient(s)
    ensures InterruptFrom(s, log, h).1
    decreases s.handlers - h
  {
    hide Patient;
    if h < s.handlers {
      PatientReturns(s, log, Interrupted(h));
      InterruptPatient(s, log + [Interrupted(h)], h + 1);
    }
  }

  lemma {:induction false} UploadCompletePatient(s: Settings, log: seq<Call>, h: nat)
    requires Patient(s)
    ensures UploadCompleteFrom(s, log, h).1
    decreases s.handlers - h
  {
    hide Patient;
    if h < s.handlers {
      PatientReturns(s, log, UploadComplete(h));
      UploadCompletePatient(s, log + [UploadComplete(h)], h + 1);
    }
  }

  // ----- one event

  /** An open file with an unusable name is ignored, any other only if it was skipped; the decoder of a
      file that is not ignored has taken its content. */
  ghost predicate Decoding(s: Settings, x: Session, t: Tally) {
    x.current.Some? && t.open.Some? && x.current.value.isFile ==>
      var p, info := x.current.value, t.open.value.0;
      && (Polite(s) && p.ignored ==> info.name.None? || !info.usableFileName)
      && (!p.ignored && p.decoder.Some? ==> Decodes(p.decoder.value, t.open.value.1))
  }

  ghost predicate Decodes(d: Decoder, body: Bytes) { exists out :: Represents(d, Squeeze(body), out) }

  /** What is known as long as the parse goes on. */
  ghost predicate Unlost(s: Settings, t: Tally) { Quotas(s, t) && (Polite(s) ==> !t.spoiled) }

  ghost predicate Affords(s: Settings, x: Session, t: Tally) {
    Going(s, x) && Agreed(s, x, t) && Decoding(s, x, t) && Unlost(s, t)
  }

  /** What a part of the parse comes to: it fails only for the quota that is exceeded, or for a handler. */
  ghost predicate Ruled(s: Settings, f: Flow, t: Tally) {
    match f
    case Go(_) => Unlost(s, t)
    case StopAt(_, _) => !Patient(s)
    case Fail(_, e) => Blames(s, t, e, 1) && (Patient(s) ==> e != HandlerError)
  }

  ghost predicate Decided(s: Settings, f: Flow, t: Tally) {
    Ruled(s, f, t) && (f.Go? ==> Decoding(s, f.session, t))
  }

  lemma BeginDecided(s: Settings, x: Session, t: Tally, headers: Headers)
    requires Affords(s, x, t) && x.current.None?
    ensures Decided(s, OnEvent(s, x, Begin(headers), false), TallyOne(s, t, Begin(headers)))
  {
    hide Going, Agreed, StartFrom, Decode, Squeeze, Represents, Spoils, Exceeds, Polite, Patient;
    AgreedCounts(s, x, t);
    if s.describe(headers).name.Some? { StartCivil(s, x.log, 0, s.describe(headers).name.value); }
    PoliteIsPatient(s);
    NewDecodes();
  }

  lemma AgreedCounts(s: Settings, x: Session, t: Tally)
    requires Agreed(s, x, t)
    ensures x.fieldCount == t.charged && x.fileCount == t.announced && x.current.Some? == t.open.Some?
  {
  }

  lemma NewDecodes()
    ensures Decodes(NEW_DECODER, [])
  {
    hide Represents;
    NothingRepresented();
  }

  lemma DataDecided(s: Settings, x: Session, t: Tally, data: Bytes)
    requires Affords(s, x, t) && x.current.Some?
    ensures Decided(s, OnEvent(s, x, Data(data), false), TallyOne(s, t, Data(data)))
  {
    hide Going, FeedDecoder, Decode, Squeeze, Represents, PassFrom, StoredSize, Takeable, Polite, Patient, Settled,
      FieldOf, UploadOf;
    GoingIsReady(s, x);
    PoliteIsPatient(s);
    var p := x.current.value;
    var (info, body) := t.open.value;
    if !p.ignored && !p.isFile {
      FieldCharged(s, x, t, info, body + data);
    } else if !p.ignored {
      if p.decoder.None? {
        PassCivil(s, x.log, p.counters, 0, Some(data));
      } else {
        DecoderDecided(p.decoder.value, body, data);
        var r := FeedDecoder(p.decoder.value, data);
        if r.Output? && r.data.Some? { PassCivil(s, x.log, p.counters, 0, r.data); }
      }
    }
  }

  lemma DecoderDecided(d: Decoder, body: Bytes, data: Bytes)
    requires Decodes(d, body)
    ensures match FeedDecoder(d, data)
      case Output(next, _) => Decodes(next, body + data) && Takeable(Squeeze(body + data))
      case Raised(_) => !Takeable(Squeeze(body + data))
  {
    hide Represents, Squeeze, FeedDecoder, Takeable;
    var out :| Represents(d, Squeeze(body), out);
    FeedRepresents(d, data, Squeeze(body), out);
    SqueezeConcat(body, data);
    var r := FeedDecoder(d, data);
    if r.Output? { RepresentsTakeable(r.decoder, Squeeze(body + data), out + OutputOf(r.data)); }
  }

  /** The running total plus the open field is what the books would store. */
  lemma FieldCharged(s: Settings, x: Session, t: Tally, info: PartInfo, body: Bytes)
    requires Going(s, x) && x.post == t.post && !info.hasFileName && info.name.Some?
    ensures StoredSize(t.post + FieldOf(info, body)) == x.fieldBytes + FieldSize(info.name.value, body)
  {
    hide StoredSize, Decode;
    StoredMore(t.post, FieldOf(info, body)[0]);
  }

  lemma EndDecided(s: Settings, x: Session, t: Tally)
    requires Affords(s, x, t) && x.current.Some?
    ensures Decided(s, OnEvent(s, x, EndPart, false), TallyOne(s, t, EndPart))
  {
    hide Going, Decode, Squeeze, Represents, CompleteFrom, StoredSize, Takeable, FinishRaises, Polite, Patient, Settled;
    GoingIsReady(s, x);
    PoliteIsPatient(s);
    var p := x.current.value;
    var (info, body) := t.open.value;
    if !p.ignored && !p.isFile {
      FieldCharged(s, x, t, info, body);
      var post := t.post + FieldOf(info, body);
      assert post + [] == post;
    } else if !p.ignored {
      CompleteSignals(s, x.log, p.counters, 0);
      if Patient(s) { CompletePatient(s, x.log, p.counters, 0); }
      if p.decoder.Some? {
        var out :| Represents(p.decoder.value, Squeeze(body), out);
        RepresentsAll(p.decoder.value, Squeeze(body), out);
      }
    }
  }

  lemma EventDecided(s: Settings, x: Session, t: Tally, e: Event)
    requires Affords(s, x, t) && Grammar.Follow(x.current.Some?, [e]).Some?
    ensures Decided(s, OnEvent(s, x, e, false), TallyOne(s, t, e))
    ensures var f := OnEvent(s, x, e, false); f.Go? ==> Affords(s, f.session, TallyOne(s, t, e))
  {
    hide OnEvent, TallyOne, Going, Agreed, Unlost, Decoding, Blames, Patient, Grammar.Follow;
    Grammar.FollowOne(x.current.Some?, e);
    match e {
      case Begin(headers) => BeginDecided(s, x, t, headers);
      case Data(data) => DataDecided(s, x, t, data);
      case EndPart => EndDecided(s, x, t);
      case Raw => RawDecided(s, x, t);
    }
    GoingIsReady(s, x);
    EventSteady(s, x, e, false);
    EventAgrees(s, x, t, e);
  }

  lemma RawDecided(s: Settings, x: Session, t: Tally)
    requires Affords(s, x, t) && x.current.None?
    ensures Decided(s, OnEvent(s, x, Raw, false), TallyOne(s, t, Raw))
  {
    hide Going, Exceeds, Spoils;
  }

  // ----- what is lost stays lost

  lemma BlamedOne(s: Settings, t: Tally, e: Event, error: AdapterError)
    requires Blames(s, t, error, 1) && Grammar.Follow(t.open.Some?, [e]).Some?
    ensures Blames(s, TallyOne(s, t, e), error, 1)
  {
    hide StoredSize, Spoils, Grammar.Follow;
    Grammar.FollowOne(t.open.Some?, e);
    assert t.post + [] == t.post;
    match e
    case Begin(headers) =>
      var info := s.describe(headers);
      if !info.hasFileName && info.name.Some? { StoredMore(t.post, FieldOf(info, [])[0]); }
    case Data(data) =>
      var (info, body) := t.open.value;
      if !info.hasFileName && info.name.Some? {
        StoredMore(t.post, FieldOf(info, body)[0]);
        StoredMore(t.post, FieldOf(info, body + data)[0]);
      }
    case EndPart =>
      var post := t.post + OpenField(t);
      assert post + [] == post;
    case Raw =>
  }

  lemma {:induction false} BlamedStays(s: Settings, t: Tally, events: seq<Event>, error: AdapterError)
    requires Blames(s, t, error, 1) && Grammar.Follow(t.open.Some?, events).Some?
    ensures Blames(s, TallyAll(s, t, events), error, 1)
    decreases |events|
  {
    hide Blames, TallyOne, Grammar.Follow;
    if events == [] {
    } else {
      var e, rest := events[0], events[1..];
      assert events == [e] + rest;
      Grammar.FollowConcat(t.open.Some?, [e], rest);
      Grammar.FollowOne(t.open.Some?, e);
      BlamedOne(s, t, e, error);
      TallyShape(s, t, e);
      BlamedStays(s, TallyOne(s, t, e), rest, error);
      TallySplit(s, t, [e], rest);
      TallySingle(s, t, e);
    }
  }

  lemma {:induction false} TallyFollows(s: Settings, t: Tally, events: seq<Event>)
    requires Grammar.Follow(t.open.Some?, events).Some?
    ensures Grammar.Follow(t.open.Some?, events) == Some(TallyAll(s, t, events).open.Some?)
    decreases |events|
  {
    hide TallyOne;
    if events != [] {
      var n := |events| - 1;
      TallyFollows(s, t, events[..n]);
      TallyShape(s, TallyAll(s, t, events[..n]), events[n]);
    }
  }

  // ----- all events

  lemma {:induction false} EventsDecided(s: Settings, x: Session, t: Tally, events: seq<Event>)
    requires Affords(s, x, t) && Ready(s, x) && Grammar.Follow(x.current.Some?, events).Some?
    ensures var f := OnEvents(s, x, events, false);
      && Decided(s, f, TallyAll(s, t, events))
      && (f.Go? ==> Affords(s, f.session, TallyAll(s, t, events)))
    decreases |events|
  {
    hide OnEvent, TallyOne, Going, Agreed, Unlost, Decoding, Blames, Patient, Grammar.Follow, Ready;
    SameOpen(s, x, t);
    if events != [] {
      var e, rest := events[0], events[1..];
      assert events == [e] + rest;
      Grammar.FollowConcat(x.current.Some?, [e], rest);
      Grammar.FollowOne(x.current.Some?, e);
      EventDecided(s, x, t, e);
      TallyShape(s, t, e);
      TallySplit(s, t, [e], rest);
      TallySingle(s, t, e);
      OnEventReady(s, x, e, false);
      var f := OnEvent(s, x, e, false);
      if f.Go? {
        SameOpen(s, f.session, TallyOne(s, t, e));
        EventsDecided(s, f.session, TallyOne(s, t, e), rest);
      } else if f.Fail? {
        BlamedStays(s, TallyOne(s, t, e), rest, f.error);
      }
    }
  }

  lemma SameOpen(s: Settings, x: Session, t: Tally)
    requires Agreed(s, x, t)
    ensures x.current.Some? == t.open.Some?
  {
  }

  // ----- the end of the input

  /** The open field is stored, or does not fit. */
  lemma OpenFieldDecided(s: Settings, x: Session, t: Tally)
    requires Affords(s, x, t) && x.current.Some? && !x.current.value.isFile && Ready(s, x)
    ensures var f := FinishPart(s, x, x.current.value);
      !f.StopAt? && (f.Fail? ==> Exceeds(s, t) && f.error == RequestTooBig)
  {
    hide Going, StoredSize, Decode;
    var p := x.current.value;
    if !p.ignored { FieldCharged(s, x, t, t.open.value.0, t.open.value.1); }
  }

  lemma EofDecided(s: Settings, c: Config, m: Machine, x: Session, t: Tally)
    requires c.Valid() && Affords(s, x, t) && Ready(s, x) && !m.eof
    requires Grammar.Tidy(m) && Grammar.WaitsAtToken(c, m) && x.current.Some? == Grammar.PartOpen(m)
    requires FeedEof(c, m).Done?
    ensures var f, last := AtEof(s, c, m, x), FinalTally(s, t, m, FeedEof(c, m));
      Ruled(s, f, last)
  {
    hide Affords, OnEvents, FinishPart, FeedEof, Grammar.Tidy, Grammar.WaitsAtToken, Grammar.Follow, Exceeds, Unlost,
      Patient, TallyAll, Decoding;
    Grammar.EofKeepsGrammar(c, m);
    var o := FeedEof(c, m);
    if m.state.Body? && o.machine.state.End? {
      ExactEndDecided(s, x, t);
    } else {
      EventsDecided(s, x, t, o.events);
      OnEventsReady(s, x, o.events, false);
      var f := OnEvents(s, x, o.events, false);
      if f.Go? && f.session.current.Some? && !f.session.current.value.isFile {
        OpenFieldDecided(s, f.session, TallyAll(s, t, o.events));
      }
    }
  }

  lemma ExactEndDecided(s: Settings, x: Session, t: Tally)
    requires Affords(s, x, t) && Ready(s, x) && x.current.Some?
    ensures Ruled(s, OnEvents(s, x, [EndPart], true), t)
  {
    hide FinishPart, Going, Agreed, Unlost, Decoding, Exceeds, Patient;
    assert [EndPart][1..] == [];
    OnEventReady(s, x, EndPart, true);
    if !x.current.value.isFile { OpenFieldDecided(s, x, t); }
  }

  // ----- whole parses

  /** The books of an accepted run. */
  function Books(s: Settings, c: Config, m: Machine, t: Tally, chunks: seq<Bytes>): Tally
    requires c.Valid() && Accepted(c, m, chunks)
  {
    var o := FeedAll(c, m, chunks);
    FinalTally(s, TallyAll(s, t, o.events), o.machine, FeedEof(c, o.machine))
  }

  lemma {:induction false} ReadDecided(s: Settings, c: Config, m: Machine, x: Session, t: Tally, chunks: seq<Bytes>)
    requires c.Valid() && Affords(s, x, t) && Ready(s, x) && !m.eof
    requires Grammar.Tidy(m) && Grammar.WaitsAtToken(c, m) && x.current.Some? == Grammar.PartOpen(m)
    ensures var f := ReadFrom(s, c, m, x, chunks);
      && (Patient(s) ==> !f.StopAt? && !(f.Fail? && f.error == HandlerError))
      && (Accepted(c, m, chunks) ==> Ruled(s, f, Books(s, c, m, t, chunks)))
    decreases |chunks|
  {
    hide Affords, Run, OnEvents, AtEof, FeedEof, Unlost, Blames, Patient, Decoding, Ready, TallyOne, Grammar.Follow,
      Grammar.WaitsAtToken,
      Grammar.Tidy, Grammar.PartOpen;
    if chunks == [] {
      if Accepted(c, m, chunks) { EofDecided(s, c, m, x, t); } else { EofRejected(s, c, m, x); }
    } else {
      var o := Feed(c, m, chunks[0]);
      if o.Done? {
        Grammar.FeedOneKeeps(c, m, chunks[0]);
        RunKeeps(c, Receive(m, chunks[0]));
        EventsDecided(s, x, t, o.events);
        OnEventsReady(s, x, o.events, false);
        var f, t1 := OnEvents(s, x, o.events, false), TallyAll(s, t, o.events);
        var rest := FeedAll(c, o.machine, chunks[1..]);
        if rest.Done? { TallySplit(s, t, o.events, rest.events); }
        AffordsOpen(s, x, t);
        TallyFollows(s, t, o.events);
        if f.Go? {
          AffordsOpen(s, f.session, t1);
          ReadDecided(s, c, o.machine, f.session, t1, chunks[1..]);
        } else if Accepted(c, o.machine, chunks[1..]) && f.Fail? {
          BlamedToTheEnd(s, c, o.machine, t1, chunks[1..], f.error);
        }
      }
    }
  }

  lemma EofRejected(s: Settings, c: Config, m: Machine, x: Session)
    requires c.Valid() && Ready(s, x) && FeedEof(c, m).Rejected?
    ensures var f := AtEof(s, c, m, x); f.Fail? && f.error.ParserError?
  {
    hide FeedEof, OnEvents;
  }

  lemma AffordsOpen(s: Settings, x: Session, t: Tally)
    requires Affords(s, x, t)
    ensures x.current.Some? == t.open.Some?
  {
  }

  lemma BlamedToTheEnd(s: Settings, c: Config, m: Machine, t: Tally, chunks: seq<Bytes>, error: AdapterError)
    requires c.Valid() && Accepted(c, m, chunks) && Blames(s, t, error, 1) && !m.eof
    requires Grammar.Tidy(m) && Grammar.WaitsAtToken(c, m) && t.open.Some? == Grammar.PartOpen(m)
    ensures Blames(s, Books(s, c, m, t, chunks), error, 1)
  {
    hide FeedAll, FeedEof, Blames, TallyAll, Grammar.Follow, Grammar.WaitsAtToken, Grammar.Tidy, Grammar.PartOpen;
    var o := FeedAll(c, m, chunks);
    Grammar.FeedAllKeepsGrammar(c, m, chunks);
    BlamedStays(s, t, o.events, error);
    TallyFollows(s, t, o.events);
    FeedAllKeepsEof(c, m, chunks);
    Grammar.EofKeepsGrammar(c, o.machine);
    BlamedStays(s, TallyAll(s, t, o.events), FeedEof(c, o.machine).events, error);
  }

  lemma {:induction false} FeedAllKeepsEof(c: Config, m: Machine, chunks: seq<Bytes>)
    requires c.Valid() && !m.eof
    ensures !FeedAll(c, m, chunks).machine.eof
    decreases |chunks|
  {
    hide Run;
    if chunks != [] {
      RunKeeps(c, Receive(m, chunks[0]));
      var o := Feed(c, m, chunks[0]);
      if o.Done? { FeedAllKeepsEof(c, o.machine, chunks[1..]); }
    }
  }

  /** When a parse returns, under every chunking. Whatever the handlers do, a parse that returns without
      being stopped fits the parser's limits and the quotas, and one that fits and is readable fails at
      most for a handler. With patient handlers it never stops or fails for them; and if they do not
      skip, or if no file is unreadable, fitting and readable are exactly what returning takes. */
  lemma ReturnedIff(s: Settings, c: Config, chunks: seq<Bytes>)
    requires c.Valid()
    ensures var v, t := ParseUpload(s, c, chunks), MessageTally(s, c.token, Concat(chunks));
      var fits := ChunksFit(c, chunks);
      && (v.Returned? && !v.stopped ==> fits && InQuota(s, t))
      && (fits && Affordable(s, t) ==> v.Returned? || v.error == HandlerError)
      && (fits && v.Raised? ==> Blames(s, t, v.error, Spare(t)))
      && (Patient(s) ==> if v.Returned? then !v.stopped else v.error != HandlerError)
      && (Polite(s) || (Patient(s) && !t.spoiled) ==> (v.Returned? <==> fits && Affordable(s, t)))
  {
    hide ChunksFit, ReadFrom, FeedAll, FeedEof, MessageTally, Concat, StoredSize, Agreed, Closed, Steady, Settle,
      FinalTally, TallyAll, Polite, Patient, InQuota, Blames;
    WholeIff(c, chunks);
    NewAgrees(s);
    NewIsGoing(s);
    NewAffords(s);
    Grammar.FreshIsTidy(c);
    ReadMeans(s, c, chunks);
    ReadSteady(s, c, FRESH, NEW_SESSION, chunks);
    ReadAgrees(s, c, FRESH, NEW_SESSION, NEW_TALLY, chunks);
    FinalIsMessage(s, c, chunks);
    ReadDecided(s, c, FRESH, NEW_SESSION, NEW_TALLY, chunks);
    PoliteIsPatient(s);
    var f, t := ReadFrom(s, c, FRESH, NEW_SESSION, chunks), MessageTally(s, c.token, Concat(chunks));
    var v := Settle(s, f);
    SettleDecided(s, f, t);
    if v.Raised? { BlamedIsNotAffordable(s, t, v.error); }
  }

  lemma BlamedIsNotAffordable(s: Settings, t: Tally, e: AdapterError)
    ensures Blames(s, t, e, 1) ==> Blames(s, t, e, Spare(t))
    ensures Blames(s, t, e, Spare(t)) && e != HandlerError ==> !Affordable(s, t)
    ensures e == HandlerError ==> Blames(s, t, e, Spare(t))
  {
    hide StoredSize;
  }

  lemma NewAffords(s: Settings)
    ensures Affords(s, NEW_SESSION, NEW_TALLY)
  {
    hide Going;
    NewIsGoing(s);
  }

  /** After reading, only the field limit and the last handler calls are left. */
  lemma SettleDecided(s: Settings, f: Flow, t: Tally)
    requires Steady(s, f)
    ensures var v := Settle(s, f);
      && (f.Fail? ==> v.Raised? && v.error == f.error)
      && (f.StopAt? && v.Returned? ==> v.stopped)
      && (f.StopAt? && v.Raised? ==> v.error == HandlerError)
      && (f.Go? && Closed(s, f.session, t) && Quotas(s, t) ==>
        && (v.Returned? ==> !v.stopped && InQuota(s, t))
        && (InQuota(s, t) ==> v.Returned? || v.error == HandlerError)
        && (v.Raised? ==> Blames(s, t, v.error, Spare(t))))
      && (f.Go? && Patient(s) && v.Raised? ==> v.error != HandlerError)
  {
    hide Given, Active, WellOffset, Interrupting, UniformFiles, PassThrough, InterruptFrom, UploadCompleteFrom,
      Fates, Patient;
    var x := f.session;
    if Patient(s) {
      InterruptPatient(s, x.log, 0);
      UploadCompletePatient(s, x.log, 0);
      UploadCompletePatient(s, InterruptFrom(s, x.log, 0).0, 0);
    }
  }
}
