/** What the adapter guarantees over whole parses: no protocol errors, quotas, offsets, and when an
    upload counts as interrupted. */
module Uploads {
  import opened Bytes
  import opened Machines
  import opened Base64
  import opened Adapters

  // ----- an invariant of the session, checked once for every event

  /** What handler `h` was given since the last `new_file` on the first handler. */
  function Given(log: seq<Call>, h: nat): Bytes {
    if log == [] then [] else GivenAfter(Given(log[..|log| - 1], h), log[|log| - 1], h)
  }

  function GivenAfter(given: Bytes, call: Call, h: nat): Bytes {
    match call
    case NewFile(k, _) => if k == 0 then [] else given
    case Chunk(k, data, _) => if k == h then given + data else given
    case _ => given
  }

  /** The last file announced to the first handler has not been completed there. */
  predicate Active(log: seq<Call>) {
    log != [] && ActiveAfter(Active(log[..|log| - 1]), log[|log| - 1])
  }

  predicate ActiveAfter(active: bool, call: Call) {
    match call
    case NewFile(k, _) => k == 0 || active
    case FileComplete(k, _) => k != 0 && active
    case _ => active
  }

  /** Every offset and every file size is the number of bytes the handler was given before. */
  predicate WellOffset(log: seq<Call>) {
    log != [] ==> WellOffset(log[..|log| - 1]) && OffsetIs(log[..|log| - 1], log[|log| - 1])
  }

  predicate OffsetIs(before: seq<Call>, call: Call) {
    match call
    case Chunk(h, _, start) => start == |Given(before, h)|
    case FileComplete(h, size) => size == |Given(before, h)|
    case _ => true
  }

  /** Handlers that return every chunk as it is. */
  ghost predicate PassThrough(s: Settings) {
    forall log, h, data, start :: s.respond(log + [Chunk(h, data, start)]) == Return(Some(data))
  }

  /** All handlers were given the same bytes. */
  predicate Uniform(s: Settings, log: seq<Call>) {
    forall h :: 0 <= h < s.handlers ==> Given(log, h) == Given(log, 0)
  }

  /** Whichever handler completes a file was given what the first one was. */
  predicate UniformFiles(log: seq<Call>) {
    log != [] ==> UniformFiles(log[..|log| - 1]) && UniformFile(log[..|log| - 1], log[|log| - 1])
  }

  predicate UniformFile(before: seq<Call>, call: Call) {
    call.FileComplete? ==> Given(before, call.h) == Given(before, 0)
  }

  predicate Interrupting(log: seq<Call>) { exists k :: 0 <= k < |log| && log[k].Interrupted? }

  lemma Logged(log: seq<Call>, call: Call)
    ensures forall h :: Given(log + [call], h) == GivenAfter(Given(log, h), call, h)
    ensures Active(log + [call]) <==> ActiveAfter(Active(log), call)
    ensures WellOffset(log + [call]) <==> WellOffset(log) && OffsetIs(log, call)
    ensures Interrupting(log + [call]) <==> Interrupting(log) || call.Interrupted?
    ensures UniformFiles(log + [call]) <==> UniformFiles(log) && UniformFile(log, call)
  {
    var log1 := log + [call];
    assert log1[..|log|] == log && log1[|log|] == call;
    if Interrupting(log) {
      var k :| 0 <= k < |log| && log[k].Interrupted?;
      assert log1[k].Interrupted?;
    }
  }

  /** Every stored field counts with its bytes, its name and two separators. */
  function StoredSize(post: seq<Field>): nat {
    if post == [] then 0
    else StoredSize(post[..|post| - 1]) + |post[|post| - 1].received| + |post[|post| - 1].name| + 2
  }

  predicate Counted(log: seq<Call>, counters: seq<nat>) {
    forall h :: 0 <= h < |counters| ==> counters[h] == |Given(log, h)|
  }

  /** Holds after every event, however the parse goes on. */
  ghost predicate Booked(s: Settings, x: Session) {
    && Ready(s, x)
    && (PassThrough(s) ==> UniformFiles(x.log))
    && WellOffset(x.log)
    && !Interrupting(x.log)
    && x.fieldBytes == StoredSize(x.post)
    && (s.maxMemory.Some? ==> x.fieldBytes <= s.maxMemory.value)
    && (s.handlers == 0 ==> !Active(x.log))
  }

  /** Holds while the parse goes on. */
  ghost predicate Going(s: Settings, x: Session) {
    && Booked(s, x)
    && (PassThrough(s) ==> Uniform(s, x.log))
    && (s.handlers > 0 ==> (x.unfinished <==> Active(x.log)))
    && (s.maxFields.Some? ==> x.fieldCount <= s.maxFields.value + 1)
    && (x.current.Some? ==>
      var p := x.current.value;
      && (p.isFile && !p.ignored ==> p.started && Counted(x.log, p.counters))
      && (p.started ==> p.isFile))
  }

  ghost predicate Steady(s: Settings, f: Flow) {
    Booked(s, f.session) && (f.Go? ==> Going(s, f.session))
  }

  // ----- loops over the handlers

  lemma {:induction false} StartLog(s: Settings, log: seq<Call>, h: nat, name: string)
    requires WellOffset(log) && !Interrupting(log)
    ensures var r := StartFrom(s, log, h, name);
      && WellOffset(r.0) && !Interrupting(r.0)
      && (h > 0 || s.handlers == 0 ==> (Active(r.0) <==> Active(log)) && forall k :: Given(r.0, k) == Given(log, k))
      && (h == 0 && s.handlers > 0 ==> Active(r.0) && forall k :: Given(r.0, k) == [])
      && (UniformFiles(r.0) <==> UniformFiles(log))
    decreases s.handlers - h
  {
    hide Given, Active, WellOffset, Interrupting, UniformFiles;
    if h < s.handlers {
      var log1 := log + [NewFile(h, name)];
      Logged(log, NewFile(h, name));
      if s.respond(log1).Return? { StartLog(s, log1, h + 1, name); }
    }
  }

  lemma {:induction false} PassLog(s: Settings, log: seq<Call>, counters: seq<nat>, h: nat, chunk: Option<Bytes>)
    requires |counters| == s.handlers && WellOffset(log) && !Interrupting(log) && Counted(log, counters)
    ensures var r := PassFrom(s, log, counters, h, chunk);
      && WellOffset(r.log) && !Interrupting(r.log)
      && (Active(r.log) <==> Active(log))
      && |r.counters| == s.handlers
      && (r.signal.Continue? ==> Counted(r.log, r.counters))
      && (UniformFiles(r.log) <==> UniformFiles(log))
    decreases s.handlers - h
  {
    hide Given, Active, WellOffset, Interrupting, UniformFiles;
    if h < s.handlers && chunk.Some? {
      var call := Chunk(h, chunk.value, counters[h]);
      var log1 := log + [call];
      Logged(log, call);
      if s.respond(log1).Return? {
        PassLog(s, log1, counters[h := counters[h] + |chunk.value|], h + 1, s.respond(log1).data);
      }
    }
  }

  /** Pass-through handlers all end up with the same bytes. */
  lemma {:induction false} PassUniform(s: Settings, log: seq<Call>, counters: seq<nat>, h: nat, chunk: Bytes, given: Bytes)
    requires |counters| == s.handlers && PassThrough(s) && h <= s.handlers
    requires forall k :: 0 <= k < s.handlers ==> Given(log, k) == if k < h then given + chunk else given
    ensures var r := PassFrom(s, log, counters, h, Some(chunk));
      r.signal.Continue? && forall k :: 0 <= k < s.handlers ==> Given(r.log, k) == given + chunk
    decreases s.handlers - h
  {
    hide Given;
    if h < s.handlers {
      var call := Chunk(h, chunk, counters[h]);
      Logged(log, call);
      assert s.respond(log + [call]) == Return(Some(chunk));
      PassUniform(s, log + [call], counters[h := counters[h] + |chunk|], h + 1, chunk, given);
    }
  }

  lemma {:induction false} CompleteLog(s: Settings, log: seq<Call>, counters: seq<nat>, h: nat)
    requires |counters| == s.handlers && WellOffset(log) && !Interrupting(log) && Counted(log, counters)
    ensures var r := CompleteFrom(s, log, counters, h);
      && WellOffset(r.0) && !Interrupting(r.0)
      && (forall k :: Given(r.0, k) == Given(log, k))
      && (h > 0 || s.handlers == 0 ==> (Active(r.0) <==> Active(log)))
      && (h == 0 && s.handlers > 0 ==> !Active(r.0))
      && (Uniform(s, log) ==> (UniformFiles(r.0) <==> UniformFiles(log)))
    decreases s.handlers - h
  {
    hide Given, Active, WellOffset, Interrupting, UniformFiles;
    if h < s.handlers {
      var call := FileComplete(h, counters[h]);
      var log1 := log + [call];
      Logged(log, call);
      var r := s.respond(log1);
      if r.Return? && r.data.None? { CompleteLog(s, log1, counters, h + 1); }
    }
  }

  // ----- one event

  lemma LaunchSteady(s: Settings, x: Session, p: Part)
    requires Going(s, x) && x.current.None? && PartOk(s, p)
    requires (p.started ==> p.isFile) && (p.isFile && !p.ignored ==> p.started)
    requires p.started ==> !p.ignored && forall h :: 0 <= h < |p.counters| ==> p.counters[h] == 0
    ensures Steady(s, Launch(s, x, p))
  {
    hide Given, Active, WellOffset, Interrupting, UniformFiles, PassThrough, StoredSize, StartFrom;
    if p.started {
      StartLog(s, x.log, 0, p.name);
      Logged(StartFrom(s, x.log, 0, p.name).0, CloseFiles);
    }
  }

  lemma OpenSteady(s: Settings, x: Session, headers: Headers)
    requires Going(s, x) && x.current.None?
    ensures Steady(s, OpenPart(s, x, headers))
  {
    hide Given, Active, WellOffset, Interrupting, UniformFiles, PassThrough, StoredSize, Launch;
    var info := s.describe(headers);
    if info.name.Some? {
      var p := NewPart(s, info.name.value, info);
      var x1 := if info.hasFileName then x.(fileCount := x.fileCount + 1) else x.(fieldCount := x.fieldCount + 1);
      if !FieldsExceeded(s, x1, 1) { LaunchSteady(s, x1, p); }
    }
  }

  lemma PassSteady(s: Settings, x: Session, p: Part, chunk: Bytes)
    requires Going(s, x) && |p.counters| == s.handlers && p.isFile && p.started && Counted(x.log, p.counters)
    ensures Steady(s, PassChunk(s, x, p, chunk))
  {
    hide Given, Active, WellOffset, Interrupting, UniformFiles, PassThrough, StoredSize, PassFrom;
    PassLog(s, x.log, p.counters, 0, Some(chunk));
    if PassThrough(s) && s.handlers > 0 { PassUniform(s, x.log, p.counters, 0, chunk, Given(x.log, 0)); }
    Logged(PassFrom(s, x.log, p.counters, 0, Some(chunk)).log, CloseFiles);
  }

  lemma ReceiveSteady(s: Settings, x: Session, p: Part, data: Bytes)
    requires Going(s, x) && x.current == Some(p)
    ensures Steady(s, ReceiveData(s, x, p, data))
  {
    hide Given, Active, WellOffset, Interrupting, UniformFiles, PassThrough, StoredSize, PassChunk, FeedDecoder;
    if !p.ignored && p.isFile {
      if p.decoder.None? {
        PassSteady(s, x, p, data);
      } else {
        var r := FeedDecoder(p.decoder.value, data);
        if r.Output? && r.data.Some? { PassSteady(s, x, p.(decoder := Some(r.decoder)), r.data.value); }
      }
    }
  }

  predicate FieldPart(p: Part) { !p.ignored && !p.isFile }

  lemma FinishSteady(s: Settings, x: Session, p: Part)
    requires Going(s, x) && x.current == Some(p)
    ensures var f := FinishPart(s, x, p);
      Booked(s, f.session) && (f.Go? ==> Going(s, f.session.(current := None)) && f.session.current == x.current)
  {
    hide Given, Active, WellOffset, Interrupting, UniformFiles, PassThrough, Uniform, StoredSize, CompleteFrom,
      FieldValue, FinishRaises;
    if FieldPart(p) {
      FinishFieldSteady(s, x, p);
    } else if !p.ignored {
      CompleteLog(s, x.log, p.counters, 0);
      GivenUniform(s, x.log, CompleteFrom(s, x.log, p.counters, 0).0);
    }
  }

  lemma GivenUniform(s: Settings, log: seq<Call>, log1: seq<Call>)
    requires forall k :: Given(log1, k) == Given(log, k)
    ensures Uniform(s, log1) <==> Uniform(s, log)
  {
  }

  lemma FinishFieldSteady(s: Settings, x: Session, p: Part)
    requires Going(s, x) && x.current == Some(p) && FieldPart(p)
    ensures var f := FinishPart(s, x, p);
      Booked(s, f.session) && (f.Go? ==> Going(s, f.session.(current := None)) && f.session.current == x.current)
  {
    hide Given, Active, WellOffset, Interrupting, UniformFiles, PassThrough, Uniform, StoredSize, CompleteFrom,
      FieldValue, FinishRaises;
    StoredMore(x.post, Field(p.name, p.data, FieldValue(p)));
  }

  lemma StoredMore(post: seq<Field>, f: Field)
    ensures StoredSize(post + [f]) == StoredSize(post) + FieldSize(f.name, f.received)
  {
    assert (post + [f])[..|post|] == post;
  }

  lemma EventSteady(s: Settings, x: Session, e: Event, exact: bool)
    requires Going(s, x)
    ensures Steady(s, OnEvent(s, x, e, exact))
  {
    hide Given, Active, WellOffset, Interrupting, UniformFiles, PassThrough, StoredSize, OpenPart, ReceiveData,
      FinishPart;
    match e
    case Begin(headers) => if x.current.None? { OpenSteady(s, x.(terminalRaw := false), headers); }
    case Data(data) => if x.current.Some? { ReceiveSteady(s, x, x.current.value, data); }
    case EndPart => if x.current.Some? { FinishSteady(s, x, x.current.value); }
    case Raw =>
  }

  lemma {:induction false} EventsSteady(s: Settings, x: Session, events: seq<Event>, exact: bool)
    requires Going(s, x)
    ensures Steady(s, OnEvents(s, x, events, exact))
    decreases |events|
  {
    hide OnEvent, Given, Active, WellOffset, Interrupting, UniformFiles, PassThrough, StoredSize;
    if events != [] {
      EventSteady(s, x, events[0], exact);
      var f := OnEvent(s, x, events[0], exact);
      if f.Go? { EventsSteady(s, f.session, events[1..], exact); }
    }
  }

  lemma EofSteady(s: Settings, c: Config, m: Machine, x: Session)
    requires c.Valid() && Going(s, x)
    ensures Steady(s, AtEof(s, c, m, x))
  {
    hide OnEvents, Given, Active, WellOffset, Interrupting, UniformFiles, PassThrough, StoredSize, FeedEof, FinishPart;
    var o := FeedEof(c, m);
    if o.Done? {
      var exact := m.state.Body? && o.machine.state.End?;
      EventsSteady(s, x, o.events, exact);
      var f := OnEvents(s, x, o.events, exact);
      if f.Go? {
        var x1 := if exact then f.session.(terminalRaw := false) else f.session;
        if x1.current.Some? { FinishSteady(s, x1, x1.current.value); }
      }
    }
  }

  lemma {:induction false} ReadSteady(s: Settings, c: Config, m: Machine, x: Session, chunks: seq<Bytes>)
    requires c.Valid() && Going(s, x)
    ensures Steady(s, ReadFrom(s, c, m, x, chunks))
    decreases |chunks|
  {
    hide OnEvents, Going, Booked, AtEof, Feed;
    GoingIsReady(s, x);
    if chunks == [] {
      EofSteady(s, c, m, x);
    } else {
      var o := Feed(c, m, chunks[0]);
      if o.Done? {
        EventsSteady(s, x, o.events, false);
        var f := OnEvents(s, x, o.events, false);
        if f.Go? { ReadSteady(s, c, o.machine, f.session, chunks[1..]); }
      }
    }
  }

  lemma GoingIsReady(s: Settings, x: Session)
    requires Going(s, x)
    ensures Booked(s, x) && Ready(s, x)
  {
  }

  lemma NewIsGoing(s: Settings)
    ensures Going(s, NEW_SESSION)
  {
  }

  // ----- the end of the parse

  lemma {:induction false} InterruptLog(s: Settings, log: seq<Call>, h: nat)
    requires WellOffset(log)
    ensures var r := InterruptFrom(s, log, h);
      && WellOffset(r.0)
      && (UniformFiles(r.0) <==> UniformFiles(log))
      && (Active(r.0) <==> Active(log))
      && (Interrupting(r.0) <==> Interrupting(log) || h < s.handlers)
    decreases s.handlers - h
  {
    hide Given, Active, WellOffset, Interrupting, UniformFiles;
    if h < s.handlers {
      var log1 := log + [Interrupted(h)];
      Logged(log, Interrupted(h));
      if s.respond(log1).Return? { InterruptLog(s, log1, h + 1); }
    }
  }

  lemma {:induction false} UploadCompleteLog(s: Settings, log: seq<Call>, h: nat)
    requires WellOffset(log)
    ensures var r := UploadCompleteFrom(s, log, h);
      && WellOffset(r.0)
      && (UniformFiles(r.0) <==> UniformFiles(log))
      && (Active(r.0) <==> Active(log))
      && (Interrupting(r.0) <==> Interrupting(log))
    decreases s.handlers - h
  {
    hide Given, Active, WellOffset, Interrupting, UniformFiles;
    if h < s.handlers {
      var log1 := log + [UploadComplete(h)];
      Logged(log, UploadComplete(h));
      var r := s.respond(log1);
      if r.Return? && r.data.None? { UploadCompleteLog(s, log1, h + 1); }
    }
  }

  lemma SettleLog(s: Settings, f: Flow)
    requires Steady(s, f)
    ensures var v := Settle(s, f);
      && WellOffset(v.session.log)
      && (PassThrough(s) ==> UniformFiles(v.session.log))
      && (v.Returned? ==> (Interrupting(v.session.log) <==> !v.stopped && Active(v.session.log)))
  {
    hide Given, Active, WellOffset, Interrupting, UniformFiles, PassThrough, StoredSize, InterruptFrom,
      UploadCompleteFrom;
    var log := f.session.log;
    Logged(log, CloseFiles);
    InterruptLog(s, log, 0);
    Logged(InterruptFrom(s, log, 0).0, CloseFiles);
    UploadCompleteLog(s, log, 0);
    UploadCompleteLog(s, log + [CloseFiles], 0);
    UploadCompleteLog(s, InterruptFrom(s, log, 0).0, 0);
  }

  // ----- main results

  /** Handler offsets, over every parse and however it ends: each chunk is passed with the number of
      bytes the handler was given for this file before, and each file is completed with all of them.
      Behind pass-through handlers every handler completes the same content. */
  lemma OffsetsAdd(s: Settings, c: Config, chunks: seq<Bytes>)
    requires c.Valid()
    ensures WellOffset(ParseUpload(s, c, chunks).session.log)
    ensures PassThrough(s) ==> UniformFiles(ParseUpload(s, c, chunks).session.log)
  {
    hide ReadFrom, WellOffset, Active, Interrupting, UniformFiles, PassThrough;
    NewIsGoing(s);
    ReadSteady(s, c, FRESH, NEW_SESSION, chunks);
    SettleLog(s, ReadFrom(s, c, FRESH, NEW_SESSION, chunks));
  }

  /** Upload lifecycle: after a parse that was not stopped by a handler, `upload_interrupted` has
      been called exactly if the last announced file was never completed; StopUpload never calls it. */
  lemma InterruptedIff(s: Settings, c: Config, chunks: seq<Bytes>)
    requires c.Valid() && ParseUpload(s, c, chunks).Returned?
    ensures var v := ParseUpload(s, c, chunks);
      Interrupting(v.session.log) <==> !v.stopped && Active(v.session.log)
  {
    hide ReadFrom, WellOffset, Active, Interrupting, UniformFiles, PassThrough, Settle;
    NewIsGoing(s);
    ReadSteady(s, c, FRESH, NEW_SESSION, chunks);
    SettleLog(s, ReadFrom(s, c, FRESH, NEW_SESSION, chunks));
  }

  /** Field memory: whatever is stored is within the limit, and the adapter's running total is the
      size of what is stored. */
  lemma MemoryQuota(s: Settings, c: Config, chunks: seq<Bytes>)
    requires c.Valid()
    ensures var x := ParseUpload(s, c, chunks).session;
      x.fieldBytes == StoredSize(x.post) && (s.maxMemory.Some? ==> StoredSize(x.post) <= s.maxMemory.value)
  {
    hide ReadFrom, WellOffset, Active, Interrupting, UniformFiles, PassThrough, StoredSize, InterruptFrom,
      UploadCompleteFrom;
    NewIsGoing(s);
    ReadSteady(s, c, FRESH, NEW_SESSION, chunks);
  }

  // ----- field memory, chunk by chunk

  /** A field part that receives `datas` in turn; the part as it is then, or the error. */
  function ReceiveAll(s: Settings, x: Session, datas: seq<Bytes>): Flow
    requires Ready(s, x) && x.current.Some?
    decreases |datas|
  {
    if datas == [] then Go(x)
    else
      OnEventReady(s, x, Data(datas[0]), false);
      var f := ReceiveData(s, x, x.current.value, datas[0]);
      if f.Go? && f.session.current.Some? then ReceiveAll(s, f.session, datas[1..]) else f
  }

  /** Checking the memory limit after every chunk and at the end rejects a field exactly when the
      one check at the end would. */
  lemma {:induction false} MemoryCheckedOnce(s: Settings, x: Session, datas: seq<Bytes>)
    requires Ready(s, x) && x.current.Some? && !x.current.value.isFile && !x.current.value.ignored
    ensures var p := x.current.value.(data := x.current.value.data + Concat(datas));
      var f := ReceiveAll(s, x, datas);
      if MemoryExceeded(s, x, p) then
        (f.Fail? && f.error == RequestTooBig) || (f.Go? && f.session.current == Some(p) && FinishPart(s, f.session, p).Fail?)
      else f == Go(x.(current := Some(p)))
    decreases |datas|
  {
    var p0 := x.current.value;
    if datas == [] {
      assert p0.data + [] == p0.data;
    } else {
      var p1 := p0.(data := p0.data + datas[0]);
      ConcatFirst(datas);
      assert p0.data + (datas[0] + Concat(datas[1..])) == p1.data + Concat(datas[1..]);
      if !MemoryExceeded(s, x, p1) { MemoryCheckedOnce(s, x.(current := Some(p1)), datas[1..]); }
    }
  }
}
