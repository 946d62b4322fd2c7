/** The conversation with the upload handlers: which call may follow which answer, over the log of a
    whole parse, and what the log says about the files. */
module Calls {
  import opened Bytes
  import opened Machines
  import opened Base64
  import opened Adapters
  import Grammar
  import Chunking

  // ----- the protocol of the calls, from the answers alone

  /** What the calls so far, and the answers to them, leave to be done. */
  datatype Expect =
    | Free(active: bool)
    | Opened
    | ToAnnounce(h: nat)
    | ToPass(h: nat, data: Bytes)
    | ToComplete(h: nat)
    | ToClose
    | Left(stop: bool)

  /** A handler that takes a call hands it on to the next one; `Free` remembers whether the last file
      was completed. */
  function After(s: Settings, e: Expect, call: Call, r: Response): Expect {
    match call
    case NewFile(h, _) =>
      if r.Return? && h + 1 < s.handlers then ToAnnounce(h + 1)
      else if r.Return? || r.StopFutureHandlers? then Opened
      else if r.SkipFile? then ToClose
      else Left(r.StopUpload?)
    case Chunk(h, _, _) =>
      if r.Return? && r.data.Some? && h + 1 < s.handlers then ToPass(h + 1, r.data.value)
      else if r.Return? then Opened
      else if r.SkipFile? then ToClose
      else Left(r.StopUpload?)
    case FileComplete(h, _) =>
      if !r.Return? then Left(r.StopUpload?)
      else if r.data.None? && h + 1 < s.handlers then ToComplete(h + 1)
      else Free(false)
    case CloseFiles => Free(true)
    case _ => e
  }

  function Expected(s: Settings, log: seq<Call>): Expect {
    if log == [] then Free(false)
    else After(s, Expected(s, log[..|log| - 1]), log[|log| - 1], s.respond(log))
  }

  /** The field name of the file announced last. */
  function LastName(log: seq<Call>): string {
    if log == [] then "" else NameAfter(LastName(log[..|log| - 1]), log[|log| - 1])
  }

  function NameAfter(name: string, call: Call): string { if call.NewFile? then call.name else name }

  /** Only a file without a field name may be followed by another one before it is completed. */
  predicate Allowed(e: Expect, name: string, call: Call) {
    match e
    case Free(_) => call.NewFile? && call.h == 0
    case Opened =>
      || (call.NewFile? && call.h == 0 && name == "")
      || (call.Chunk? && call.h == 0)
      || (call.FileComplete? && call.h == 0 && name != "")
    case ToAnnounce(h) => call == NewFile(h, name)
    case ToPass(h, data) => call.Chunk? && call.h == h && call.data == data
    case ToComplete(h) => call.FileComplete? && call.h == h
    case ToClose => call == CloseFiles
    case Left(_) => false
  }

  /** Every call was due when it was made. */
  predicate Orderly(s: Settings, log: seq<Call>) {
    log != [] ==>
      var before := log[..|log| - 1];
      Orderly(s, before) && Allowed(Expected(s, before), LastName(before), log[|log| - 1])
  }

  /** The field names of the announced files. */
  function Announced(log: seq<Call>): seq<string> {
    if log == [] then [] else Announced(log[..|log| - 1]) + Announces(log[|log| - 1])
  }

  function Announces(call: Call): seq<string> {
    if call.NewFile? && call.h == 0 then [call.name] else []
  }

  /** The field names of the files that some handler returned when they were complete. */
  function Listed(s: Settings, log: seq<Call>): seq<string> {
    if log == [] then [] else Listed(s, log[..|log| - 1]) + Lists(s, log)
  }

  function Lists(s: Settings, log: seq<Call>): seq<string>
    requires log != []
  {
    var r := s.respond(log);
    if log[|log| - 1].FileComplete? && r.Return? && r.data.Some? then [LastName(log)] else []
  }

  lemma Called(s: Settings, log: seq<Call>, call: Call)
    ensures var log1 := log + [call];
      && Expected(s, log1) == After(s, Expected(s, log), call, s.respond(log1))
      && LastName(log1) == NameAfter(LastName(log), call)
      && (Orderly(s, log1) <==> Orderly(s, log) && Allowed(Expected(s, log), LastName(log), call))
      && Announced(log1) == Announced(log) + Announces(call)
      && Listed(s, log1) == Listed(s, log) + Lists(s, log1)
  {
    assert (log + [call])[..|log|] == log;
  }

  // ----- loops over the handlers

  /** How a loop over the handlers leaves the conversation. */
  predicate Leaves(e: Expect, signal: Signal, done: Expect, skipped: Expect) {
    match signal
    case Continue => e == done
    case Skip => e == skipped
    case Stop(_) => e == Left(true)
    case Raise(error) => e == Left(false) && error == HandlerError
  }

  predicate MayAnnounce(e: Expect, last: string) { e.Free? || (e.Opened? && last == "") }

  lemma {:induction false} StartOrderly(s: Settings, log: seq<Call>, h: nat, name: string)
    requires Orderly(s, log)
    requires if h == 0 then MayAnnounce(Expected(s, log), LastName(log)) && s.handlers > 0
      else LastName(log) == name && Expected(s, log) == if h < s.handlers then ToAnnounce(h) else Opened
    ensures var r := StartFrom(s, log, h, name);
      && Orderly(s, r.0)
      && LastName(r.0) == name
      && Leaves(Expected(s, r.0), r.1, Opened, ToClose)
      && Listed(s, r.0) == Listed(s, log)
      && Announced(r.0) == Announced(log) + if h == 0 then [name] else []
    decreases s.handlers - h
  {
    hide Expected, Orderly, LastName, Announced, Listed;
    if h < s.handlers {
      var log1 := log + [NewFile(h, name)];
      Called(s, log, NewFile(h, name));
      if s.respond(log1).Return? { StartOrderly(s, log1, h + 1, name); }
    }
  }

  lemma {:induction false} PassOrderly(s: Settings, log: seq<Call>, counters: seq<nat>, h: nat, chunk: Option<Bytes>)
    requires |counters| == s.handlers && Orderly(s, log)
    requires if h == 0 then chunk.Some? && Expected(s, log) == Opened && s.handlers > 0
      else Expected(s, log) == if h < s.handlers && chunk.Some? then ToPass(h, chunk.value) else Opened
    ensures var r := PassFrom(s, log, counters, h, chunk);
      && Orderly(s, r.log)
      && LastName(r.log) == LastName(log)
      && Leaves(Expected(s, r.log), r.signal, Opened, ToClose)
      && Listed(s, r.log) == Listed(s, log)
      && Announced(r.log) == Announced(log)
    decreases s.handlers - h
  {
    hide Expected, Orderly, LastName, Announced, Listed;
    if h < s.handlers && chunk.Some? {
      var call := Chunk(h, chunk.value, counters[h]);
      var log1 := log + [call];
      Called(s, log, call);
      if s.respond(log1).Return? {
        PassOrderly(s, log1, counters[h := counters[h] + |chunk.value|], h + 1, s.respond(log1).data);
      }
    }
  }

  lemma {:induction false} CompleteOrderly(s: Settings, log: seq<Call>, counters: seq<nat>, h: nat)
    requires |counters| == s.handlers && Orderly(s, log)
    requires if h == 0 then Expected(s, log) == Opened && LastName(log) != "" && s.handlers > 0
      else Expected(s, log) == if h < s.handlers then ToComplete(h) else Free(false)
    ensures var r := CompleteFrom(s, log, counters, h);
      && Orderly(s, r.0)
      && Leaves(Expected(s, r.0), r.2, Free(false), Left(false))
      && (r.1 ==> r.2.Continue?)
      && Listed(s, r.0) == Listed(s, log) + (if r.1 then [LastName(log)] else [])
      && Announced(r.0) == Announced(log)
    decreases s.handlers - h
  {
    hide Expected, Orderly, LastName, Announced, Listed;
    if h < s.handlers {
      var call := FileComplete(h, counters[h]);
      var log1 := log + [call];
      Called(s, log, call);
      var r := s.respond(log1);
      if r.Return? && r.data.None? { CompleteOrderly(s, log1, counters, h + 1); }
    }
  }

  // ----- the session against the conversation

  /** Nothing is due, and an active upload is a file that was announced and not completed. */
  ghost predicate Rests(s: Settings, x: Session) {
    && Orderly(s, x.log)
    && x.files == Listed(s, x.log)
    && if s.handlers == 0 then x.log == []
       else Expected(s, x.log) == Free(x.unfinished) || (Expected(s, x.log) == Opened && x.unfinished)
  }

  predicate FileOpen(x: Session) { x.current.Some? && x.current.value.isFile && !x.current.value.ignored }

  /** Between two events: an open file is the one announced last, and without one another may follow. */
  ghost predicate Between(s: Settings, x: Session) {
    && Ready(s, x)
    && Rests(s, x)
    && !FieldsExceeded(s, x, 1)
    && (s.handlers > 0 ==>
      if FileOpen(x) then Expected(s, x.log) == Opened && LastName(x.log) == x.current.value.name
      else MayAnnounce(Expected(s, x.log), LastName(x.log)))
  }

  /** A parse is left by StopUpload, by a handler's exception, or while nothing is due. */
  ghost predicate Kept(s: Settings, f: Flow) {
    && Orderly(s, f.session.log)
    && f.session.files == Listed(s, f.session.log)
    && match f
       case Go(x) => Rests(s, x) && !FieldsExceeded(s, x, 1)
       case StopAt(x, _) => Expected(s, x.log) == Left(true)
       case Fail(x, e) =>
         && (if e == HandlerError then Expected(s, x.log) == Left(false) && x.unfinished else Rests(s, x))
         && (e == TooManyFields ==> FieldsExceeded(s, x, 1))
  }

  ghost predicate KeptBetween(s: Settings, f: Flow) { Kept(s, f) && (f.Go? ==> Between(s, f.session)) }

  lemma FilesClosed(s: Settings, log: seq<Call>)
    requires Orderly(s, log) && Expected(s, log) == ToClose
    ensures var log1 := log + [CloseFiles];
      && Orderly(s, log1) && Expected(s, log1) == Free(true) && Listed(s, log1) == Listed(s, log)
      && LastName(log1) == LastName(log) && Announced(log1) == Announced(log)
  {
    hide Expected, Orderly, LastName, Announced, Listed;
    Called(s, log, CloseFiles);
  }

  lemma LaunchKept(s: Settings, x: Session, p: Part)
    requires Between(s, x) && !FileOpen(x) && PartOk(s, p) && (p.isFile && !p.ignored <==> p.started)
    ensures KeptBetween(s, Launch(s, x, p))
  {
    hide Expected, Orderly, LastName, Announced, Listed, StartFrom;
    if p.started && s.handlers > 0 {
      StartOrderly(s, x.log, 0, p.name);
      var r := StartFrom(s, x.log, 0, p.name);
      if r.1.Skip? { FilesClosed(s, r.0); }
    } else if p.started {
      assert StartFrom(s, x.log, 0, p.name) == (x.log, Continue) by { NoHandlers(s, x.log, p.name); }
    }
  }

  lemma NoHandlers(s: Settings, log: seq<Call>, name: string)
    requires s.handlers == 0
    ensures StartFrom(s, log, 0, name) == (log, Continue)
    ensures forall chunk :: PassFrom(s, log, [], 0, chunk) == Passed(log, [], Continue)
    ensures CompleteFrom(s, log, [], 0) == (log, false, Continue)
  {
  }

  lemma OpenKept(s: Settings, x: Session, headers: Headers)
    requires Between(s, x) && x.current.None?
    ensures KeptBetween(s, OpenPart(s, x, headers))
  {
    hide Expected, Orderly, LastName, Listed, Launch;
    var info := s.describe(headers);
    if info.name.Some? {
      var p := NewPart(s, info.name.value, info);
      var x1 := if info.hasFileName then x.(fileCount := x.fileCount + 1) else x.(fieldCount := x.fieldCount + 1);
      if !FieldsExceeded(s, x1, 1) { LaunchKept(s, x1, p); }
    }
  }

  lemma PassKept(s: Settings, x: Session, p: Part, chunk: Bytes)
    requires Between(s, x) && FileOpen(x) && |p.counters| == s.handlers
    requires p == x.current.value.(decoder := p.decoder)
    ensures KeptBetween(s, PassChunk(s, x, p, chunk))
  {
    hide Expected, Orderly, LastName, Announced, Listed, PassFrom;
    if s.handlers > 0 {
      PassOrderly(s, x.log, p.counters, 0, Some(chunk));
      PassKeepsHandlers(s, x.log, p.counters, 0, Some(chunk));
      var r := PassFrom(s, x.log, p.counters, 0, Some(chunk));
      if r.signal.Skip? { FilesClosed(s, r.log); }
    } else {
      NoHandlers(s, x.log, p.name);
    }
  }

  lemma ReceiveKept(s: Settings, x: Session, data: Bytes)
    requires Between(s, x) && x.current.Some?
    ensures KeptBetween(s, ReceiveData(s, x, x.current.value, data))
  {
    hide Expected, Orderly, LastName, Listed, PassChunk, FeedDecoder;
    var p := x.current.value;
    if FileOpen(x) {
      if p.decoder.None? {
        PassKept(s, x, p, data);
      } else {
        var r := FeedDecoder(p.decoder.value, data);
        if r.Output? && r.data.Some? { PassKept(s, x, p.(decoder := Some(r.decoder)), r.data.value); }
      }
    }
  }

  lemma FinishKept(s: Settings, x: Session)
    requires Between(s, x) && x.current.Some?
    ensures var f := FinishPart(s, x, x.current.value);
      Kept(s, f) && (f.Go? ==> Between(s, f.session.(current := None)))
  {
    hide Expected, Orderly, LastName, Announced, Listed, CompleteFrom, FinishRaises, FieldValue;
    var p := x.current.value;
    if FileOpen(x) && p.name != "" {
      if s.handlers > 0 {
        CompleteOrderly(s, x.log, p.counters, 0);
      } else {
        NoHandlers(s, x.log, p.name);
      }
    }
  }

  lemma EventKept(s: Settings, x: Session, e: Event)
    requires Between(s, x)
    ensures KeptBetween(s, OnEvent(s, x, e, false))
  {
    hide Expected, Orderly, LastName, Listed, OpenPart, ReceiveData, FinishPart;
    match e
    case Begin(headers) => if x.current.None? { OpenKept(s, x.(terminalRaw := false), headers); }
    case Data(data) => if x.current.Some? { ReceiveKept(s, x, data); }
    case EndPart => if x.current.Some? { FinishKept(s, x); }
    case Raw =>
  }

  lemma {:induction false} EventsKept(s: Settings, x: Session, events: seq<Event>)
    requires Between(s, x)
    ensures KeptBetween(s, OnEvents(s, x, events, false))
    decreases |events|
  {
    hide OnEvent, Expected, Orderly, LastName, Listed;
    if events != [] {
      EventKept(s, x, events[0]);
      var f := OnEvent(s, x, events[0], false);
      if f.Go? { EventsKept(s, f.session, events[1..]); }
    }
  }

  // ----- the end of the input

  /** A token at the very end of the input leaves an open file as it is. */
  lemma ExactKept(s: Settings, x: Session)
    requires Between(s, x)
    ensures var f := OnEvents(s, x, [EndPart], true); Kept(s, f) && (f.Go? ==> f.session.current.None?)
  {
    hide Expected, Orderly, LastName, Listed, FinishPart;
    assert [EndPart][1..] == [];
    OnEventReady(s, x, EndPart, true);
    if x.current.Some? { FinishKept(s, x); }
  }

  lemma AfterEofKept(s: Settings, x: Session, finished: bool)
    requires Between(s, x)
    ensures Kept(s, AfterEof(s, x, finished))
  {
    hide Expected, Orderly, LastName, Listed, FinishPart;
    if x.current.Some? { FinishKept(s, x); }
  }

  lemma EofKept(s: Settings, c: Config, m: Machine, x: Session)
    requires c.Valid() && Between(s, x) && !m.eof && Grammar.Tidy(m) && Grammar.WaitsAtToken(c, m)
    ensures Kept(s, AtEof(s, c, m, x))
  {
    hide OnEvents, FeedEof, Grammar.Tidy, Grammar.WaitsAtToken, AfterEof, Expected, Orderly, LastName, Listed;
    Grammar.EofKeepsGrammar(c, m);
    var o := FeedEof(c, m);
    if o.Done? {
      var exact := m.state.Body? && o.machine.state.End?;
      OnEventsReady(s, x, o.events, exact);
      var f := OnEvents(s, x, o.events, exact);
      if exact {
        ExactKept(s, x);
        if f.Go? { NothingOpen(s, f.session.(terminalRaw := false), Finished(o.machine)); }
      } else {
        EventsKept(s, x, o.events);
        if f.Go? { AfterEofKept(s, f.session, Finished(o.machine)); }
      }
    }
  }

  lemma NothingOpen(s: Settings, x: Session, finished: bool)
    requires x.current.None?
    ensures AfterEof(s, x, finished) == Go(x)
  {
  }

  lemma {:induction false} ReadKept(s: Settings, c: Config, m: Machine, x: Session, chunks: seq<Bytes>)
    requires c.Valid() && Between(s, x) && !m.eof && Grammar.Tidy(m) && Grammar.WaitsAtToken(c, m)
    ensures Kept(s, ReadFrom(s, c, m, x, chunks))
    decreases |chunks|
  {
    hide Run, OnEvents, AtEof, Grammar.Tidy, Grammar.WaitsAtToken, Expected, Orderly, LastName, Listed;
    if chunks == [] {
      EofKept(s, c, m, x);
    } else {
      Grammar.FeedOneKeeps(c, m, chunks[0]);
      Chunking.RunKeeps(c, Receive(m, chunks[0]));
      var o := Feed(c, m, chunks[0]);
      if o.Done? {
        EventsKept(s, x, o.events);
        var f := OnEvents(s, x, o.events, false);
        if f.Go? { ReadKept(s, c, o.machine, f.session, chunks[1..]); }
      }
    }
  }

  // ----- the calls after reading

  function Answer(s: Settings, log: seq<Call>, i: nat): Response
    requires i < |log|
  {
    s.respond(log[..i + 1])
  }

  /** The calls `[n..k]` ask the handlers in turn: to interrupt until one raises, or whether the upload
      is complete until one answers or raises. */
  predicate Round(s: Settings, log: seq<Call>, n: nat, k: nat, closing: bool) {
    && n <= k <= |log|
    && k - n <= s.handlers
    && (forall j :: n <= j < k ==> log[j] == if closing then UploadComplete(j - n) else Interrupted(j - n))
    && (forall j :: n <= j < k - 1 ==> GoesOn(Answer(s, log, j), closing))
    && (k - n < s.handlers ==> n < k && !GoesOn(Answer(s, log, k - 1), closing))
  }

  predicate GoesOn(r: Response, closing: bool) { r.Return? && (closing ==> r.data.None?) }

  predicate Fine(s: Settings, log: seq<Call>, n: nat, k: nat)
    requires n <= k <= |log|
  {
    n == k || Answer(s, log, k - 1).Return?
  }

  /** The round so far, before handler `h` is asked. */
  predicate Asked(s: Settings, log: seq<Call>, n: nat, h: nat, closing: bool) {
    && n + h == |log| && h <= s.handlers
    && (forall j :: n <= j < |log| ==>
      log[j] == (if closing then UploadComplete(j - n) else Interrupted(j - n)) && GoesOn(Answer(s, log, j), closing))
  }

  lemma AskedMore(s: Settings, log: seq<Call>, n: nat, h: nat, closing: bool)
    requires Asked(s, log, n, h, closing) && h < s.handlers
    ensures var log1 := log + [if closing then UploadComplete(h) else Interrupted(h)];
      && Answer(s, log1, |log|) == s.respond(log1)
      && if GoesOn(s.respond(log1), closing) then Asked(s, log1, n, h + 1, closing)
         else Round(s, log1, n, |log1|, closing)
  {
    var log1 := log + [if closing then UploadComplete(h) else Interrupted(h)];
    assert log1[..|log1|] == log1;
    forall j | n <= j < |log| ensures Answer(s, log1, j) == Answer(s, log, j) {
      assert log1[..j + 1] == log[..j + 1];
    }
  }

  lemma AskedAll(s: Settings, log: seq<Call>, n: nat, closing: bool)
    requires Asked(s, log, n, s.handlers, closing)
    ensures Round(s, log, n, |log|, closing) && Fine(s, log, n, |log|)
  {
  }

  lemma {:induction false} InterruptRound(s: Settings, log: seq<Call>, n: nat, h: nat)
    requires Asked(s, log, n, h, false) && h <= s.handlers
    ensures var r := InterruptFrom(s, log, h);
      log <= r.0 && Round(s, r.0, n, |r.0|, false) && (r.1 <==> Fine(s, r.0, n, |r.0|))
    decreases s.handlers - h
  {
    hide Asked, Round;
    if h < s.handlers {
      AskedMore(s, log, n, h, false);
      if s.respond(log + [Interrupted(h)]).Return? { InterruptRound(s, log + [Interrupted(h)], n, h + 1); }
    } else {
      AskedAll(s, log, n, false);
    }
  }

  lemma {:induction false} CompleteRound(s: Settings, log: seq<Call>, n: nat, h: nat)
    requires Asked(s, log, n, h, true) && h <= s.handlers
    ensures var r := UploadCompleteFrom(s, log, h);
      log <= r.0 && Round(s, r.0, n, |r.0|, true) && (r.1 <==> Fine(s, r.0, n, |r.0|))
    decreases s.handlers - h
  {
    hide Asked, Round;
    if h < s.handlers {
      AskedMore(s, log, n, h, true);
      var r := s.respond(log + [UploadComplete(h)]);
      if r.Return? && r.data.None? { CompleteRound(s, log + [UploadComplete(h)], n, h + 1); }
    } else {
      AskedAll(s, log, n, true);
    }
  }

  /** The log before index `k` does not change what later calls append. */
  lemma RoundStays(s: Settings, log: seq<Call>, longer: seq<Call>, n: nat, closing: bool)
    requires log <= longer && Round(s, log, n, |log|, closing)
    ensures Round(s, longer, n, |log|, closing)
    ensures Fine(s, longer, n, |log|) <==> Fine(s, log, n, |log|)
  {
    forall j: nat | j < |log| ensures Answer(s, longer, j) == Answer(s, log, j) {
      assert longer[..j + 1] == log[..j + 1];
    }
  }

  // ----- main results

  /** The whole log of a parse. Up to `n` every call was due. Behind StopUpload the files are closed and
      the handlers asked whether the upload is complete; behind an exception the upload is interrupted and
      the files are closed. If nothing was due, an active upload is interrupted in `[n..k]`, and then the
      handlers are asked, or after an error the files closed; a field too many that shows only at the end
      of the message is reported as it is. */
  predicate Ended(s: Settings, v: Verdict, n: nat, k: nat) {
    var log := v.session.log;
    && n <= k <= |log|
    && Orderly(s, log[..n])
    && match Expected(s, log[..n])
       case Left(stop) => if stop then Stopped(s, v, n, k) else Crashed(s, v, n, k)
       case Free(active) => Over(s, v, n, k, active)
       case Opened => Over(s, v, n, k, true)
       case _ => false
  }

  predicate Stopped(s: Settings, v: Verdict, n: nat, k: nat)
    requires n <= k <= |v.session.log|
  {
    var log := v.session.log;
    && k == n + 1 && log[n] == CloseFiles && Round(s, log, k, |log|, true)
    && if Fine(s, log, k, |log|) then v.Returned? && v.stopped else v.Raised? && v.error == HandlerError
  }

  predicate Crashed(s: Settings, v: Verdict, n: nat, k: nat)
    requires n <= k <= |v.session.log|
  {
    var log := v.session.log;
    v.Raised? && v.error == HandlerError && Interrupts(s, log, n, k, true)
  }

  /** Interrupted if active, then closed. */
  predicate Interrupts(s: Settings, log: seq<Call>, n: nat, k: nat, active: bool)
    requires n <= k <= |log|
  {
    (if active then Round(s, log, n, k, false) else k == n) && k + 1 == |log| && log[k] == CloseFiles
  }

  predicate Over(s: Settings, v: Verdict, n: nat, k: nat, active: bool)
    requires n <= k <= |v.session.log|
  {
    var log := v.session.log;
    if v.Raised? && v.error == TooManyFields && s.maxFields == Some(v.session.fieldCount - 1) then n == |log|
    else if v.Raised? && v.error != HandlerError then Interrupts(s, log, n, k, active)
    else
      && (if active then Round(s, log, n, k, false) else k == n)
      && if Fine(s, log, n, k) then
           && Round(s, log, k, |log|, true)
           && if Fine(s, log, k, |log|) then v.Returned? && !v.stopped else v.Raised?
         else k == |log| && v.Raised?
  }

  lemma NoneAsked(s: Settings, log: seq<Call>, closing: bool)
    ensures Asked(s, log, |log|, 0, closing)
  {
  }

  lemma CompleteEnds(s: Settings, log: seq<Call>)
    ensures var (log1, ok) := UploadCompleteFrom(s, log, 0);
      log <= log1 && Round(s, log1, |log|, |log1|, true) && (ok <==> Fine(s, log1, |log|, |log1|))
  {
    hide UploadCompleteFrom, Asked, Round;
    NoneAsked(s, log, true);
    CompleteRound(s, log, |log|, 0);
  }

  lemma InterruptEnds(s: Settings, log: seq<Call>)
    ensures var (log1, ok) := InterruptFrom(s, log, 0);
      log <= log1 && Round(s, log1, |log|, |log1|, false) && (ok <==> Fine(s, log1, |log|, |log1|))
  {
    hide InterruptFrom, Asked, Round;
    NoneAsked(s, log, false);
    InterruptRound(s, log, |log|, 0);
  }

  lemma StopEnds(s: Settings, x: Session, b: bool)
    requires Kept(s, StopAt(x, b))
    ensures var n := |x.log|; Ended(s, Settle(s, StopAt(x, b)), n, n + 1)
  {
    hide Expected, Orderly, Listed, UploadCompleteFrom, Round, Fine;
    CompleteEnds(s, x.log + [CloseFiles]);
    var log := Settle(s, StopAt(x, b)).session.log;
    assert log[..|x.log|] == x.log;
  }

  lemma AbortEnds(s: Settings, x: Session)
    ensures var n, k, log := |x.log|, |Abort(s, x).log| - 1, Abort(s, x).log;
      n <= k && log[..n] == x.log && Interrupts(s, log, n, k, x.unfinished)
  {
    hide InterruptFrom, Round, Fine;
    if x.unfinished {
      InterruptEnds(s, x.log);
      RoundStays(s, InterruptFrom(s, x.log, 0).0, Abort(s, x).log, |x.log|, false);
    }
  }

  /** Without handlers there is nobody to interrupt. */
  lemma NobodyAsked(s: Settings, log: seq<Call>, n: nat, k: nat)
    requires s.handlers == 0 && Round(s, log, n, k, false)
    ensures k == n
  {
  }

  lemma FailEnds(s: Settings, x: Session, e: AdapterError)
    requires Kept(s, Fail(x, e))
    ensures var v := Settle(s, Fail(x, e)); var k := |v.session.log| - 1; k >= 0 && Ended(s, v, |x.log|, k)
  {
    hide Expected, Orderly, Listed, InterruptFrom, Round, Fine;
    AbortEnds(s, x);
    if s.handlers == 0 && x.unfinished { NobodyAsked(s, Abort(s, x).log, |x.log|, |Abort(s, x).log| - 1); }
    if s.handlers == 0 { assert Expected(s, []) == Free(false) by { NothingExpected(s); } }
  }

  lemma NothingExpected(s: Settings)
    ensures Expected(s, []) == Free(false)
  {
  }

  lemma GoEnds(s: Settings, x: Session) returns (k: nat)
    requires Kept(s, Go(x))
    ensures Ended(s, Settle(s, Go(x)), |x.log|, k)
  {
    hide Expected, Orderly, Listed, InterruptFrom, UploadCompleteFrom, Round, Fine;
    var n, v := |x.log|, Settle(s, Go(x));
    assert x.log[..n] == x.log;
    if s.handlers == 0 { NothingExpected(s); }
    if x.terminalRaw && FieldsExceeded(s, x, 0) {
      k := n;
    } else if x.unfinished {
      InterruptEnds(s, x.log);
      var (log1, ok) := InterruptFrom(s, x.log, 0);
      if s.handlers == 0 { NobodyAsked(s, log1, n, |log1|); }
      if ok {
        CompleteEnds(s, log1);
        RoundStays(s, log1, v.session.log, n, false);
      }
      assert v.session.log[..n] == x.log;
      k := |log1|;
    } else {
      CompleteEnds(s, x.log);
      assert v.session.log[..n] == x.log;
      k := n;
      NoneFine(s, v.session.log, n);
    }
  }

  lemma NoneFine(s: Settings, log: seq<Call>, n: nat)
    requires n <= |log|
    ensures Fine(s, log, n, n)
  {
  }

  /** How a parse talks to its handlers, over every parse and however it ends. */
  lemma ParseCalls(s: Settings, c: Config, chunks: seq<Bytes>)
    requires c.Valid()
    ensures exists n, k :: Ended(s, ParseUpload(s, c, chunks), n, k)
  {
    hide ReadFrom, Settle, Ended, Kept;
    ReadIsKept(s, c, chunks);
    var n, k := SettleEnds(s, ReadFrom(s, c, FRESH, NEW_SESSION, chunks));
    assert Ended(s, ParseUpload(s, c, chunks), n, k);
  }

  lemma SettleEnds(s: Settings, f: Flow) returns (n: nat, k: nat)
    requires Kept(s, f)
    ensures Ended(s, Settle(s, f), n, k)
  {
    hide Settle, Ended;
    n := |f.session.log|;
    match f
    case StopAt(x, b) =>
      StopEnds(s, x, b);
      k := n + 1;
    case Fail(x, e) =>
      FailEnds(s, x, e);
      k := |Settle(s, f).session.log| - 1;
    case Go(x) =>
      k := GoEnds(s, x);
  }

  lemma ReadIsKept(s: Settings, c: Config, chunks: seq<Bytes>)
    requires c.Valid()
    ensures Kept(s, ReadFrom(s, c, FRESH, NEW_SESSION, chunks))
  {
    hide ReadFrom, Kept;
    Grammar.FreshIsTidy(c);
    NewIsBetween(s);
    ReadKept(s, c, FRESH, NEW_SESSION, chunks);
  }

  lemma NewIsBetween(s: Settings)
    ensures Between(s, NEW_SESSION)
  {
  }

  /** The uploaded files of a request are those that a handler returned on completion, under the field
      names they were announced with, in order and however the parse ends. */
  lemma FilesListed(s: Settings, c: Config, chunks: seq<Bytes>)
    requires c.Valid()
    ensures var x := ParseUpload(s, c, chunks).session; x.files == Listed(s, x.log)
  {
    hide ReadFrom, Settle, Kept, Listed;
    ReadIsKept(s, c, chunks);
    SettleLists(s, ReadFrom(s, c, FRESH, NEW_SESSION, chunks));
  }

  lemma SettleLists(s: Settings, f: Flow)
    requires Kept(s, f)
    ensures var x := Settle(s, f).session; x.files == Listed(s, x.log) && Announced(x.log) == Announced(f.session.log)
  {
    hide Expected, Orderly, LastName, Listed, Announced, InterruptFrom, UploadCompleteFrom;
    var log := f.session.log;
    InterruptLists(s, log, 0);
    Called(s, log, CloseFiles);
    Called(s, InterruptFrom(s, log, 0).0, CloseFiles);
    UploadCompleteLists(s, log, 0);
    UploadCompleteLists(s, log + [CloseFiles], 0);
    UploadCompleteLists(s, InterruptFrom(s, log, 0).0, 0);
  }

  lemma {:induction false} InterruptLists(s: Settings, log: seq<Call>, h: nat)
    ensures var log1 := InterruptFrom(s, log, h).0;
      Listed(s, log1) == Listed(s, log) && Announced(log1) == Announced(log)
    decreases s.handlers - h
  {
    hide Expected, Orderly, LastName, Listed, Announced;
    if h < s.handlers {
      Called(s, log, Interrupted(h));
      if s.respond(log + [Interrupted(h)]).Return? { InterruptLists(s, log + [Interrupted(h)], h + 1); }
    }
  }

  lemma {:induction false} UploadCompleteLists(s: Settings, log: seq<Call>, h: nat)
    ensures var log1 := UploadCompleteFrom(s, log, h).0;
      Listed(s, log1) == Listed(s, log) && Announced(log1) == Announced(log)
    decreases s.handlers - h
  {
    hide Expected, Orderly, LastName, Listed, Announced;
    if h < s.handlers {
      var log1 := log + [UploadComplete(h)];
      Called(s, log, UploadComplete(h));
      if s.respond(log1).Return? && s.respond(log1).data.None? { UploadCompleteLists(s, log1, h + 1); }
    }
  }
}
