/** End to end: what the adapter has stored and delivered is a function of the message's segments,
    the same for every chunking. */
module Ledger {
  import opened Bytes
  import opened Machines
  import opened Events
  import opened Segments
  import opened Base64
  import opened Adapters
  import opened Uploads
  import opened Chunking
  import opened Messages
  import opened Calls
  import Grammar

  // ----- the books, kept on events alone

  datatype Tally = Tally(
    post: seq<Field>,
    uploads: seq<Bytes>,
    started: seq<string>,
    charged: nat,
    announced: nat,
    spoiled: bool,
    open: Option<(PartInfo, Bytes)>,
    terminal: bool)

  const NEW_TALLY := Tally([], [], [], 0, 0, false, None, false)

  /** A named part without a file name is a form field; base64 fields keep undecodable data. */
  function FieldOf(info: PartInfo, body: Bytes): seq<Field> {
    if info.hasFileName || info.name.None? then []
    else [Field(info.name.value, body, if info.base64 && Decode(body).Some? then Decode(body).value else body)]
  }

  /** The content of a file part with a usable name, after transfer decoding. */
  function UploadOf(info: PartInfo, body: Bytes): seq<Bytes> {
    if !info.hasFileName || !info.usableFileName || info.name.None? || info.name.value == "" then []
    else if !info.base64 then [body]
    else match Decode(Squeeze(body)) case Some(x) => [x] case None => []
  }

  /** The name under which a file part is announced to the handlers. */
  function StartedBy(info: PartInfo): seq<string> {
    if info.hasFileName && info.usableFileName && info.name.Some? then [info.name.value] else []
  }

  /** Base64 content of a file that cannot be taken, or that was complete and does not decode. */
  predicate Spoils(info: PartInfo, body: Bytes, complete: bool) {
    && info.hasFileName && info.usableFileName && info.name.Some? && info.base64
    && if complete then info.name.value != "" && Decode(Squeeze(body)).None? else !Takeable(Squeeze(body))
  }

  function TallyOne(s: Settings, t: Tally, e: Event): Tally {
    match e
    case Begin(headers) =>
      var info := s.describe(headers);
      t.(charged := if info.hasFileName then t.charged else t.charged + 1,
        announced := if info.hasFileName && info.name.Some? then t.announced + 1 else t.announced,
        started := t.started + StartedBy(info),
        open := Some((info, [])),
        terminal := false)
    case Data(data) =>
      if t.open.None? then t
      else
        var (info, body) := t.open.value;
        t.(open := Some((info, body + data)), spoiled := t.spoiled || Spoils(info, body + data, false))
    case EndPart =>
      if t.open.None? then t.(terminal := true)
      else
        var (info, body) := t.open.value;
        t.(post := t.post + FieldOf(info, body),
          uploads := t.uploads + UploadOf(info, body),
          spoiled := t.spoiled || Spoils(info, body, true),
          open := None,
          terminal := true)
    case Raw => t.(charged := t.charged + 1, terminal := true)
  }

  function TallyAll(s: Settings, t: Tally, events: seq<Event>): Tally {
    if events == [] then t else TallyOne(s, TallyAll(s, t, events[..|events| - 1]), events[|events| - 1])
  }

  /** The field that an unfinished message leaves open is stored as far as it came. */
  function OpenField(t: Tally): seq<Field> {
    if t.open.Some? then FieldOf(t.open.value.0, t.open.value.1) else []
  }

  // ----- the books do not see how data was cut

  lemma TallyDataJoins(s: Settings, t: Tally, a: Bytes, b: Bytes)
    ensures TallyOne(s, TallyOne(s, t, Data(a)), Data(b)) == TallyOne(s, t, Data(a + b))
  {
    hide Decode, Squeeze, Takeable;
    if t.open.Some? {
      var body := t.open.value.1;
      assert body + (a + b) == body + a + b;
      SqueezeConcat(body + a, b);
      TakeableBack(Squeeze(body + a), Squeeze(b));
    }
  }

  lemma TallyAppendOne(s: Settings, t: Tally, z: seq<Event>, e: Event)
    ensures TallyAll(s, t, AppendOne(z, e)) == TallyOne(s, TallyAll(s, t, z), e)
  {
    hide TallyOne;
    if e.Data? && z != [] && z[|z| - 1].Data? {
      var n := |z| - 1;
      assert AppendOne(z, e)[..n] == z[..n];
      TallyDataJoins(s, TallyAll(s, t, z[..n]), z[n].data, e.data);
    } else {
      assert (z + [e])[..|z|] == z;
    }
  }

  lemma {:induction false} TallyCoalesced(s: Settings, t: Tally, events: seq<Event>)
    ensures TallyAll(s, t, Coalesce(events)) == TallyAll(s, t, events)
    decreases |events|
  {
    hide TallyOne, AppendOne;
    if events != [] {
      var n := |events| - 1;
      TallyCoalesced(s, t, events[..n]);
      TallyAppendOne(s, t, Coalesce(events[..n]), events[n]);
    }
  }

  lemma {:induction false} TallySplit(s: Settings, t: Tally, a: seq<Event>, b: seq<Event>)
    ensures TallyAll(s, t, a + b) == TallyAll(s, TallyAll(s, t, a), b)
    decreases |b|
  {
    hide TallyOne;
    if b == [] {
      assert a + b == a;
    } else {
      var n := |b| - 1;
      assert (a + b)[..|a| + n] == a + b[..n];
      TallySplit(s, t, a, b[..n]);
    }
  }

  // ----- the books against the session

  /** The contents of the files that were completed on the first handler. */
  function Delivered(log: seq<Call>): seq<Bytes> {
    if log == [] then [] else DeliveredAfter(log[..|log| - 1], Delivered(log[..|log| - 1]), log[|log| - 1])
  }

  function DeliveredAfter(before: seq<Call>, delivered: seq<Bytes>, call: Call): seq<Bytes> {
    if call.FileComplete? && call.h == 0 then delivered + [Given(before, 0)] else delivered
  }

  /** What became of the files, in order: completed on the first handler with this content, or skipped
      by an answer of some handler. */
  function Fates(s: Settings, log: seq<Call>): seq<Option<Bytes>> {
    if log == [] then []
    else FatesAfter(s, log[..|log| - 1], Fates(s, log[..|log| - 1]), log[|log| - 1])
  }

  predicate Skips(s: Settings, before: seq<Call>, call: Call) {
    (call.NewFile? || call.Chunk?) && s.respond(before + [call]).SkipFile?
  }

  function FatesAfter(s: Settings, before: seq<Call>, fates: seq<Option<Bytes>>, call: Call): seq<Option<Bytes>> {
    if call.FileComplete? && call.h == 0 then fates + [Some(Given(before, 0))]
    else if Skips(s, before, call) then fates + [None]
    else fates
  }

  lemma Heard(log: seq<Call>, call: Call)
    ensures Announced(log + [call]) == Announced(log) + Announces(call)
  {
    assert (log + [call])[..|log|] == log;
  }

  lemma Fated(s: Settings, log: seq<Call>, call: Call)
    ensures Fates(s, log + [call]) == FatesAfter(s, log, Fates(s, log), call)
  {
    assert (log + [call])[..|log|] == log;
  }

  /** Every file of the books was completed with its content, or skipped in its turn; a skipped file
      that is not in the books was nameless, unreadable or never ended. */
  predicate Account(fates: seq<Option<Bytes>>, files: seq<Bytes>)
    decreases |fates|
  {
    if fates == [] then files == []
    else
      var front := fates[..|fates| - 1];
      match fates[|fates| - 1]
      case Some(content) => files != [] && files[|files| - 1] == content && Account(front, files[..|files| - 1])
      case None => Account(front, files) || (files != [] && Account(front, files[..|files| - 1]))
  }

  lemma AccountMore(fates: seq<Option<Bytes>>, files: seq<Bytes>, content: Bytes)
    requires Account(fates, files)
    ensures Account(fates + [Some(content)], files + [content])
    ensures Account(fates + [None], files) && Account(fates + [None], files + [content])
  {
    assert forall fate :: (fates + [fate])[..|fates|] == fates;
    assert (files + [content])[..|files|] == files;
  }

  /** `a` is `b` in order, with some items missing. */
  predicate Sub(a: seq<Bytes>, b: seq<Bytes>)
    decreases |b|
  {
    if a == [] then true
    else if b == [] then false
    else
      || (a[|a| - 1] == b[|b| - 1] && Sub(a[..|a| - 1], b[..|b| - 1]))
      || Sub(a, b[..|b| - 1])
  }

  function Completed(fates: seq<Option<Bytes>>): seq<Bytes> {
    if fates == [] then []
    else
      var front := Completed(fates[..|fates| - 1]);
      match fates[|fates| - 1] case Some(content) => front + [content] case None => front
  }

  function SkipCount(fates: seq<Option<Bytes>>): nat {
    if fates == [] then 0
    else SkipCount(fates[..|fates| - 1]) + if fates[|fates| - 1].None? then 1 else 0
  }

  lemma SubMore(a: seq<Bytes>, b: seq<Bytes>, x: Bytes)
    requires Sub(a, b)
    ensures Sub(a, b + [x]) && Sub(a + [x], b + [x])
  {
    assert (a + [x])[..|a|] == a && (b + [x])[..|b|] == b;
  }

  lemma FateMore(fates: seq<Option<Bytes>>, fate: Option<Bytes>)
    ensures Completed(fates + [fate]) == Completed(fates) + if fate.Some? then [fate.value] else []
    ensures SkipCount(fates + [fate]) == SkipCount(fates) + if fate.None? then 1 else 0
  {
    assert (fates + [fate])[..|fates|] == fates;
  }

  lemma {:induction false} AccountCounts(fates: seq<Option<Bytes>>, files: seq<Bytes>)
    requires Account(fates, files)
    ensures Sub(Completed(fates), files) && |files| <= |Completed(fates)| + SkipCount(fates)
    ensures SkipCount(fates) == 0 ==> Completed(fates) == files
    decreases |fates|
  {
    if fates != [] {
      hide Sub, Completed, SkipCount;
      var n := |fates| - 1;
      var front := fates[..n];
      assert fates == front + [fates[n]];
      FateMore(front, fates[n]);
      if fates[n].None? && Account(front, files) {
        AccountCounts(front, files);
      } else {
        var rest := files[..|files| - 1];
        AccountCounts(front, rest);
        assert files == rest + [files[|files| - 1]];
        SubMore(Completed(front), rest, files[|files| - 1]);
      }
    }
  }

  lemma {:induction false} FatesComplete(s: Settings, log: seq<Call>)
    ensures Completed(Fates(s, log)) == Delivered(log)
    ensures NoSkip(s) ==> SkipCount(Fates(s, log)) == 0
    decreases |log|
  {
    if log != [] {
      hide Completed, SkipCount, Fates, Delivered;
      var before, call := log[..|log| - 1], log[|log| - 1];
      assert log == before + [call];
      FatesComplete(s, before);
      CompleteMore(s, before, call);
    } else {
      NoFates(s);
    }
  }

  lemma NoFates(s: Settings)
    ensures Fates(s, []) == [] && Completed([]) == [] && SkipCount([]) == 0 && Delivered([]) == []
  {
  }

  lemma CompleteMore(s: Settings, before: seq<Call>, call: Call)
    ensures var log, fates := before + [call], Fates(s, before);
      && Completed(Fates(s, log)) == Completed(fates) + (if CompletesFirst(call) then [Given(before, 0)] else [])
      && Delivered(log) == Delivered(before) + (if CompletesFirst(call) then [Given(before, 0)] else [])
      && (NoSkip(s) ==> SkipCount(Fates(s, log)) == SkipCount(fates))
  {
    hide Completed, SkipCount, Given;
    var fates := Fates(s, before);
    Fated(s, before, call);
    FateMore(fates, Some(Given(before, 0)));
    FateMore(fates, None);
    assert (before + [call])[..|before|] == before;
  }

  predicate CompletesFirst(call: Call) { call.FileComplete? && call.h == 0 }

  /** Handlers that never skip a file. */
  ghost predicate NoSkip(s: Settings) { forall log :: !s.respond(log).SkipFile? }

  ghost predicate Observed(s: Settings) { s.handlers > 0 && NoSkip(s) }

  /** The open part as the books see it. */
  ghost predicate SamePart(s: Settings, log: seq<Call>, p: Part, info: PartInfo, body: Bytes) {
    && p.isFile == info.hasFileName
    && (p.isFile ==>
      && (!p.ignored ==> info.name == Some(p.name) && info.usableFileName && p.decoder.Some? == info.base64)
      && (s.handlers > 0 && !p.ignored ==>
        if p.decoder.None? then Given(log, 0) == body else Represents(p.decoder.value, Squeeze(body), Given(log, 0))))
    && (!p.isFile ==>
      && p.ignored == info.name.None?
      && (!p.ignored ==> info.name == Some(p.name) && p.base64 == info.base64 && p.data == body))
  }

  /** The open file was skipped, although it has a name and a usable file name. */
  predicate Owing(x: Session, t: Tally) {
    && x.current.Some? && t.open.Some? && x.current.value.isFile && x.current.value.ignored
    && t.open.value.0.name.Some? && t.open.value.0.usableFileName
  }

  /** All files are accounted for, and the last skip is kept for the open file that it is about. */
  predicate Settled(s: Settings, x: Session, t: Tally) {
    var fates := Fates(s, x.log);
    if Owing(x, t) then fates != [] && fates[|fates| - 1].None? && Account(fates[..|fates| - 1], t.uploads)
    else Account(fates, t.uploads)
  }

  ghost predicate Agreed(s: Settings, x: Session, t: Tally) {
    && x.post == t.post
    && x.fieldCount == t.charged
    && x.fileCount == t.announced
    && x.terminalRaw == t.terminal
    && x.current.Some? == t.open.Some?
    && (t.open.Some? ==> !t.terminal)
    && (s.handlers > 0 ==> Settled(s, x, t) && Announced(x.log) == t.started)
    && (x.current.Some? ==> SamePart(s, x.log, x.current.value, t.open.value.0, t.open.value.1))
  }

  lemma {:induction false} StartDelivers(s: Settings, log: seq<Call>, h: nat, name: string)
    requires s.handlers > 0
    ensures var r := StartFrom(s, log, h, name);
      && Fates(s, r.0) == Fates(s, log) + (if r.1.Skip? then [None] else [])
      && (h == 0 ==> Given(r.0, 0) == []) && (h > 0 ==> Given(r.0, 0) == Given(log, 0))
      && Announced(r.0) == Announced(log) + if h == 0 then [name] else []
    decreases s.handlers - h
  {
    hide Announced, Given, Fates, Active, WellOffset, Interrupting;
    if h < s.handlers {
      var log1 := log + [NewFile(h, name)];
      Logged(log, NewFile(h, name));
      Fated(s, log, NewFile(h, name));
      Heard(log, NewFile(h, name));
      if s.respond(log1).Return? { StartDelivers(s, log1, h + 1, name); }
    }
  }

  lemma {:induction false} PassDelivers(s: Settings, log: seq<Call>, counters: seq<nat>, h: nat, chunk: Option<Bytes>)
    requires |counters| == s.handlers && s.handlers > 0 && (h == 0 ==> chunk.Some?)
    ensures var r := PassFrom(s, log, counters, h, chunk);
      && Fates(s, r.log) == Fates(s, log) + (if r.signal.Skip? then [None] else [])
      && (h > 0 ==> Given(r.log, 0) == Given(log, 0))
      && (h == 0 ==> Given(r.log, 0) == Given(log, 0) + chunk.value)
      && Announced(r.log) == Announced(log)
    decreases s.handlers - h
  {
    hide Announced, Given, Fates, Active, WellOffset, Interrupting;
    if h < s.handlers && chunk.Some? {
      var call := Chunk(h, chunk.value, counters[h]);
      var log1 := log + [call];
      Logged(log, call);
      Fated(s, log, call);
      Heard(log, call);
      if s.respond(log1).Return? {
        PassDelivers(s, log1, counters[h := counters[h] + |chunk.value|], h + 1, s.respond(log1).data);
      }
    }
  }

  lemma {:induction false} CompleteDelivers(s: Settings, log: seq<Call>, counters: seq<nat>, h: nat)
    requires |counters| == s.handlers && s.handlers > 0
    ensures var r := CompleteFrom(s, log, counters, h);
      && Fates(s, r.0) == (if h == 0 then Fates(s, log) + [Some(Given(log, 0))] else Fates(s, log))
      && Announced(r.0) == Announced(log)
    decreases s.handlers - h
  {
    hide Announced, Given, Fates, Active, WellOffset, Interrupting;
    if h < s.handlers {
      var call := FileComplete(h, counters[h]);
      Fated(s, log, call);
      Heard(log, call);
      var r := s.respond(log + [call]);
      if r.Return? && r.data.None? { CompleteDelivers(s, log + [call], counters, h + 1); }
    }
  }

  // ----- one event

  lemma CloseDelivers(s: Settings, log: seq<Call>)
    ensures Fates(s, log + [CloseFiles]) == Fates(s, log) && Given(log + [CloseFiles], 0) == Given(log, 0)
    ensures Announced(log + [CloseFiles]) == Announced(log)
  {
    Heard(log, CloseFiles);
    hide Announced, Given, Fates, Active, WellOffset, Interrupting;
    Logged(log, CloseFiles);
    Fated(s, log, CloseFiles);
  }

  lemma SkipKept(fates: seq<Option<Bytes>>)
    ensures fates + [] == fates
    ensures var more := fates + [None]; more[|more| - 1].None? && more[..|more| - 1] == fates
  {
  }

  lemma OpenAgrees(s: Settings, x: Session, t: Tally, headers: Headers)
    requires Agreed(s, x, t) && x.current.None?
    ensures var f := OpenPart(s, x.(terminalRaw := false), headers);
      f.Go? ==> Agreed(s, f.session, TallyOne(s, t, Begin(headers)))
  {
    hide Given, Fates, Announced, Decode, Squeeze, Launch, NewPart;
    var info := s.describe(headers);
    var x0 := x.(terminalRaw := false);
    var x1 := if !info.hasFileName then x0.(fieldCount := x.fieldCount + 1)
      else if info.name.Some? then x0.(fileCount := x.fileCount + 1) else x0;
    var t1 := t.(charged := x1.fieldCount, announced := x1.fileCount, terminal := false);
    assert t.started + [] == t.started;
    if info.name.Some? { LaunchAgrees(s, x1, t1, info.name.value, info); }
  }

  lemma LaunchAgrees(s: Settings, x: Session, t: Tally, name: string, info: PartInfo)
    requires Agreed(s, x, t) && x.current.None? && info.name == Some(name) && !t.terminal
    ensures var f := Launch(s, x, NewPart(s, name, info));
      f.Go? ==> Agreed(s, f.session, t.(started := t.started + StartedBy(info), open := Some((info, []))))
  {
    hide Given, Fates, Announced, StartFrom, Decode, Squeeze, Represents;
    if s.handlers > 0 { StartDelivers(s, x.log, 0, name); }
    CloseDelivers(s, StartFrom(s, x.log, 0, name).0);
    SkipKept(Fates(s, x.log));
    assert t.started + [] == t.started;
    assert Represents(NEW_DECODER, Squeeze([]), []) by { NothingRepresented(); }
  }

  lemma NothingRepresented()
    ensures Represents(NEW_DECODER, Squeeze([]), [])
  {
    hide Represents, Squeeze;
    SqueezeNothing();
    NewRepresents();
  }

  lemma PassAgrees(s: Settings, x: Session, t: Tally, p: Part, chunk: Bytes, data: Bytes)
    requires Agreed(s, x, t) && x.current.Some? && |p.counters| == s.handlers
    requires p.isFile && !p.ignored
    requires p == x.current.value.(decoder := p.decoder)
    requires s.handlers > 0 ==>
      if p.decoder.None? then x.current.value.decoder.None? && chunk == data
      else
        && x.current.value.decoder.Some?
        && Represents(p.decoder.value, Squeeze(t.open.value.1 + data), Given(x.log, 0) + chunk)
    requires p.decoder.Some? == x.current.value.decoder.Some?
    ensures var f := PassChunk(s, x, p, chunk);
      f.Go? ==> Agreed(s, f.session, TallyOne(s, t, Data(data)))
  {
    hide Given, Fates, Announced, PassFrom, Decode, Squeeze, Represents, Account, Spoils, UploadOf, FieldOf;
    if s.handlers > 0 { PassDelivers(s, x.log, p.counters, 0, Some(chunk)); }
    CloseDelivers(s, PassFrom(s, x.log, p.counters, 0, Some(chunk)).log);
    SkipKept(Fates(s, x.log));
  }

  lemma ReceiveAgrees(s: Settings, x: Session, t: Tally, p: Part, data: Bytes)
    requires Agreed(s, x, t) && x.current == Some(p) && PartOk(s, p)
    ensures var f := ReceiveData(s, x, p, data);
      f.Go? ==> Agreed(s, f.session, TallyOne(s, t, Data(data)))
  {
    hide Given, Fates, Announced, PassChunk, Decode, Squeeze, Represents, FeedDecoder;
    if !p.ignored && p.isFile {
      if p.decoder.None? {
        PassAgrees(s, x, t, p, data, data);
      } else {
        var body := t.open.value.1;
        if s.handlers > 0 {
          FeedRepresents(p.decoder.value, data, Squeeze(body), Given(x.log, 0));
          SqueezeConcat(body, data);
        }
        var r := FeedDecoder(p.decoder.value, data);
        if r.Output? {
          if r.data.Some? {
            PassAgrees(s, x, t, p.(decoder := Some(r.decoder)), r.data.value, data);
          } else {
            assert Given(x.log, 0) + [] == Given(x.log, 0);
          }
        }
      }
    }
  }

  /** A file that is over joins the books, completed or skipped. */
  lemma FinishAccount(s: Settings, x: Session, t: Tally)
    requires s.handlers > 0 && Settled(s, x, t) && t.open.Some?
    ensures var fates, content := Fates(s, x.log), UploadOf(t.open.value.0, t.open.value.1);
      if Owing(x, t) then Account(fates, t.uploads) && Account(fates, t.uploads + content)
      else content != [] ==> Account(fates + [Some(content[0])], t.uploads + content)
  {
    hide Fates, Account, Decode, Squeeze;
    var fates, content := Fates(s, x.log), UploadOf(t.open.value.0, t.open.value.1);
    var one := if content == [] then [] else content[0];
    assert content == [] || content == [one];
    assert t.uploads + [] == t.uploads;
    if Owing(x, t) {
      AccountMore(fates[..|fates| - 1], t.uploads, one);
      assert fates == fates[..|fates| - 1] + [None];
    } else {
      AccountMore(fates, t.uploads, one);
    }
  }

  lemma FinishAgrees(s: Settings, x: Session, t: Tally, p: Part)
    requires Agreed(s, x, t) && x.current == Some(p) && PartOk(s, p)
    ensures var f := FinishPart(s, x, p);
      f.Go? ==> Agreed(s, f.session.(current := None, terminalRaw := true), TallyOne(s, t, EndPart))
  {
    hide Given, Fates, Announced, CompleteFrom, Decode, Squeeze, Represents, FinishRaises, Account;
    if s.handlers > 0 { FinishAccount(s, x, t); }
    assert t.uploads + [] == t.uploads;
    if p.isFile && !p.ignored && s.handlers > 0 {
      CompleteDelivers(s, x.log, p.counters, 0);
      if p.decoder.Some? {
        RepresentsAll(p.decoder.value, Squeeze(t.open.value.1), Given(x.log, 0));
      }
    }
  }

  /** An event that follows the grammar is never a protocol error, and the books stay right. */
  lemma EventAgrees(s: Settings, x: Session, t: Tally, e: Event)
    requires Ready(s, x) && Agreed(s, x, t) && Grammar.Follow(x.current.Some?, [e]).Some?
    ensures var f := OnEvent(s, x, e, false);
      && !(f.Fail? && f.error == Protocol)
      && (f.Go? ==>
        && Agreed(s, f.session, TallyOne(s, t, e))
        && Grammar.Follow(x.current.Some?, [e]) == Some(f.session.current.Some?))
  {
    hide OpenPart, ReceiveData, FinishPart, SamePart, TallyOne, Grammar.Follow, Fates;
    Grammar.FollowOne(x.current.Some?, e);
    EventErrors(s, x, e, false);
    match e
    case Begin(headers) =>
      OpenAgrees(s, x, t, headers);
      TallyShape(s, t, e);
    case Data(data) =>
      ReceiveAgrees(s, x, t, x.current.value, data);
      TallyShape(s, t, e);
    case EndPart =>
      FinishAgrees(s, x, t, x.current.value);
      TallyShape(s, t, e);
    case Raw =>
      RawTally(s, t);
  }

  lemma TallyShape(s: Settings, t: Tally, e: Event)
    ensures TallyOne(s, t, e).open.Some? == if e.Begin? then true else if e.EndPart? then false else t.open.Some?
  {
  }

  lemma RawTally(s: Settings, t: Tally)
    ensures TallyOne(s, t, Raw) == t.(charged := t.charged + 1, terminal := true)
  {
  }

  /** Which events can be protocol errors at all; none is a parser error. */
  lemma EventErrors(s: Settings, x: Session, e: Event, exact: bool)
    requires Ready(s, x)
    ensures var f := OnEvent(s, x, e, exact);
      && (f.Fail? && f.error == Protocol ==> x.current.Some? == (e.Begin? || e.Raw?))
      && (f.Fail? ==> !f.error.ParserError?)
  {
    hide FeedDecoder, StartFrom, PassFrom, CompleteFrom, Decode, FieldValue, FinishRaises;
    if e.Begin? && s.describe(e.headers).name.Some? { StartSignals(s, x.log, 0, s.describe(e.headers).name.value); }
    if x.current.Some? && !x.current.value.ignored {
      var p := x.current.value;
      CompleteSignals(s, x.log, p.counters, 0);
      if e.Data? {
        PassSignals(s, x.log, p.counters, 0, Some(e.data));
        if p.decoder.Some? && FeedDecoder(p.decoder.value, e.data).Output? {
          PassSignals(s, x.log, p.counters, 0, FeedDecoder(p.decoder.value, e.data).data);
        }
      }
    }
  }

  lemma {:induction false} StartSignals(s: Settings, log: seq<Call>, h: nat, name: string)
    ensures var r := StartFrom(s, log, h, name); r.1.Raise? ==> r.1.error == HandlerError
    decreases s.handlers - h
  {
    var log1 := log + [NewFile(h, name)];
    if h < s.handlers && s.respond(log1).Return? { StartSignals(s, log1, h + 1, name); }
  }

  lemma {:induction false} PassSignals(s: Settings, log: seq<Call>, counters: seq<nat>, h: nat, chunk: Option<Bytes>)
    requires |counters| == s.handlers
    ensures var r := PassFrom(s, log, counters, h, chunk).signal; r.Raise? ==> r.error == HandlerError
    decreases s.handlers - h
  {
    if h < s.handlers && chunk.Some? {
      var log1 := log + [Chunk(h, chunk.value, counters[h])];
      var r := s.respond(log1);
      if r.Return? { PassSignals(s, log1, counters[h := counters[h] + |chunk.value|], h + 1, r.data); }
    }
  }

  lemma {:induction false} CompleteSignals(s: Settings, log: seq<Call>, counters: seq<nat>, h: nat)
    requires |counters| == s.handlers
    ensures var r := CompleteFrom(s, log, counters, h).2; r.Raise? ==> r.error == HandlerError
    decreases s.handlers - h
  {
    if h < s.handlers {
      var log1 := log + [FileComplete(h, counters[h])];
      if s.respond(log1).Return? { CompleteSignals(s, log1, counters, h + 1); }
    }
  }

  // ----- all events of a parse

  lemma {:induction false} EventsAgree(s: Settings, x: Session, t: Tally, events: seq<Event>)
    requires Ready(s, x) && Agreed(s, x, t) && Grammar.Follow(x.current.Some?, events).Some?
    ensures var f := OnEvents(s, x, events, false);
      && !(f.Fail? && f.error == Protocol)
      && (f.Go? ==>
        && Ready(s, f.session)
        && Agreed(s, f.session, TallyAll(s, t, events))
        && Grammar.Follow(x.current.Some?, events) == Some(f.session.current.Some?))
    decreases |events|
  {
    hide OnEvent, TallyOne, Agreed, Ready, Grammar.Follow;
    if events == [] {
      Grammar.FollowNone(x.current.Some?);
    } else {
      var e, rest := events[0], events[1..];
      assert events == [e] + rest;
      Grammar.FollowConcat(x.current.Some?, [e], rest);
      EventAgrees(s, x, t, e);
      OnEventReady(s, x, e, false);
      var f := OnEvent(s, x, e, false);
      if f.Go? {
        EventsAgree(s, f.session, TallyOne(s, t, e), rest);
        TallySplit(s, t, [e], rest);
        TallySingle(s, t, e);
      }
    }
  }

  lemma TallySingle(s: Settings, t: Tally, e: Event)
    ensures TallyAll(s, t, [e]) == TallyOne(s, t, e)
  {
    assert [e][..0] == [];
  }

  // ----- the whole parse

  /** The session after reading ended without StopUpload and without an error, against the books. */
  ghost predicate Closed(s: Settings, x: Session, t: Tally) {
    && x.post == t.post + OpenField(t)
    && x.fieldCount == t.charged
    && x.fileCount == t.announced
    && x.terminalRaw == t.terminal
    && (s.handlers > 0 ==> Account(Fates(s, x.log), t.uploads) && Announced(x.log) == t.started)
  }

  /** The books at the end: a token at the very end of the input does not count as the part's end. */
  function FinalTally(s: Settings, t: Tally, m: Machine, last: Outcome): Tally
    requires last.Done?
  {
    if m.state.Body? && last.machine.state.End? then t else TallyAll(s, t, last.events)
  }

  lemma NewAgrees(s: Settings)
    ensures Ready(s, NEW_SESSION) && Agreed(s, NEW_SESSION, NEW_TALLY)
  {
  }

  lemma FinishCloses(s: Settings, x: Session, t: Tally, p: Part)
    requires Agreed(s, x, t) && x.current == Some(p) && PartOk(s, p)
    ensures p.isFile ==> OpenField(t) == []
    ensures var f := FinishPart(s, x, p);
      && !(f.Fail? && f.error == Protocol)
      && (f.Go? && !p.isFile ==>
        f.session.post == t.post + OpenField(t) && f.session.log == x.log && f.session.fieldCount == x.fieldCount
        && f.session.fileCount == x.fileCount && f.session.terminalRaw == x.terminalRaw)
  {
    hide Decode, Squeeze, Represents, Given, CompleteFrom, FinishRaises;
    if |p.counters| == s.handlers { CompleteSignals(s, x.log, p.counters, 0); }
    assert t.post + [] == t.post;
  }

  lemma ExactEnd(s: Settings, x: Session, t: Tally)
    requires Ready(s, x) && Agreed(s, x, t) && x.current.Some?
    ensures var f := OnEvents(s, x, [EndPart], true);
      && !(f.Fail? && f.error == Protocol)
      && (f.Go? ==> Closed(s, f.session.(terminalRaw := false), t) && f.session.current.None?)
  {
    hide FinishPart, SamePart, FieldOf, Fates;
    FinishCloses(s, x, t, x.current.value);
    assert t.post + [] == t.post;
    assert [EndPart][1..] == [];
    OnEventReady(s, x, EndPart, true);
  }

  lemma EofAgrees(s: Settings, c: Config, m: Machine, x: Session, t: Tally)
    requires c.Valid() && Ready(s, x) && Agreed(s, x, t) && !m.eof
    requires Grammar.Tidy(m) && Grammar.WaitsAtToken(c, m) && x.current.Some? == Grammar.PartOpen(m)
    ensures var f := AtEof(s, c, m, x);
      && !(f.Fail? && f.error == Protocol)
      && (f.Go? ==> FeedEof(c, m).Done? && Closed(s, f.session, FinalTally(s, t, m, FeedEof(c, m))))
  {
    hide Agreed, OnEvents, Grammar.Follow, FinishPart, FeedEof, Closed, Grammar.Tidy, Grammar.WaitsAtToken;
    Grammar.EofKeepsGrammar(c, m);
    var o := FeedEof(c, m);
    if o.Done? {
      if m.state.Body? && o.machine.state.End? {
        ExactEnd(s, x, t);
      } else {
        EventsAgree(s, x, t, o.events);
        var f := OnEvents(s, x, o.events, false);
        if f.Go? { EofCloses(s, f.session, TallyAll(s, t, o.events), o.machine); }
      }
    }
  }

  lemma EofCloses(s: Settings, x: Session, t: Tally, last: Machine)
    requires Ready(s, x) && Agreed(s, x, t) && x.current.Some? == Grammar.PartOpen(last)
    ensures !Finished(last) && x.current.Some? && !x.current.value.isFile ==>
      var g := FinishPart(s, x, x.current.value);
      !(g.Fail? && g.error == Protocol) && (g.Go? ==> Closed(s, g.session.(current := None), t))
    ensures !(!Finished(last) && x.current.Some? && !x.current.value.isFile) ==> Closed(s, x, t)
  {
    hide FinishPart, SamePart, FieldOf, Fates;
    if x.current.Some? { FinishCloses(s, x, t, x.current.value); }
    assert t.post + [] == t.post;
  }

  /** Reading never ends in a protocol error, and if it ends well the books are right. */
  lemma {:induction false} ReadAgrees(s: Settings, c: Config, m: Machine, x: Session, t: Tally, chunks: seq<Bytes>)
    requires c.Valid() && Ready(s, x) && Agreed(s, x, t) && !m.eof
    requires Grammar.Tidy(m) && Grammar.WaitsAtToken(c, m) && x.current.Some? == Grammar.PartOpen(m)
    ensures var f, o := ReadFrom(s, c, m, x, chunks), FeedAll(c, m, chunks);
      && !(f.Fail? && f.error == Protocol)
      && (f.Go? ==>
        && o.Done? && FeedEof(c, o.machine).Done?
        && Closed(s, f.session, FinalTally(s, TallyAll(s, t, o.events), o.machine, FeedEof(c, o.machine))))
    decreases |chunks|
  {
    hide Agreed, Ready, Run, OnEvents, AtEof, Grammar.Follow, Grammar.WaitsAtToken, Grammar.Tidy, Grammar.PartOpen,
      TallyOne,
      Closed, FeedEof, FinalTally;
    if chunks == [] {
      EofAgrees(s, c, m, x, t);
    } else {
      Grammar.FeedOneKeeps(c, m, chunks[0]);
      RunKeeps(c, Receive(m, chunks[0]));
      var o := Feed(c, m, chunks[0]);
      if o.Done? {
        EventsAgree(s, x, t, o.events);
        var f := OnEvents(s, x, o.events, false);
        if f.Go? {
          ReadAgrees(s, c, o.machine, f.session, TallyAll(s, t, o.events), chunks[1..]);
          var rest := FeedAll(c, o.machine, chunks[1..]);
          if rest.Done? { TallySplit(s, t, o.events, rest.events); }
        }
      }
    }
  }

  /** The books of the whole message, from its segments alone. */
  function MessageTally(s: Settings, token: Bytes, message: Bytes): Tally
    requires token != []
  {
    TallyAll(s, NEW_TALLY,
      if MessageEndsAtToken(token, message) then MessageEvents(token, message) else FinalMessageEvents(token, message))
  }

  /** The books that a run leaves are those of its message. */
  lemma FinalIsMessage(s: Settings, c: Config, chunks: seq<Bytes>)
    requires c.Valid()
    ensures var o := FeedAll(c, FRESH, chunks);
      o.Done? && FeedEof(c, o.machine).Done? ==>
        FinalTally(s, TallyAll(s, NEW_TALLY, o.events), o.machine, FeedEof(c, o.machine))
        == MessageTally(s, c.token, Concat(chunks))
  {
    hide FeedAll, FeedEof, TallyAll, MessageEvents, FinalMessageEvents, MessageCloses, MessageEndsAtToken,
      AppendEvents, Concat;
    FeedMeans(c, chunks);
    MessageMeans(c, chunks);
    var o := FeedAll(c, FRESH, chunks);
    if o.Done? && FeedEof(c, o.machine).Done? {
      var last := FeedEof(c, o.machine);
      TallySplit(s, NEW_TALLY, o.events, last.events);
      TallyCoalesced(s, NEW_TALLY, o.events);
      TallyCoalesced(s, NEW_TALLY, o.events + last.events);
    }
  }

  lemma ReadMeans(s: Settings, c: Config, chunks: seq<Bytes>)
    requires c.Valid()
    ensures var f := ReadFrom(s, c, FRESH, NEW_SESSION, chunks);
      && !(f.Fail? && f.error == Protocol)
      && (f.Go? ==> Closed(s, f.session, MessageTally(s, c.token, Concat(chunks))))
  {
    hide Agreed, ReadFrom, FeedAll, FeedEof, Closed, TallyAll, MessageTally, FinalTally, Concat;
    NewAgrees(s);
    Grammar.FreshIsTidy(c);
    ReadAgrees(s, c, FRESH, NEW_SESSION, NEW_TALLY, chunks);
    FinalIsMessage(s, c, chunks);
  }

  // ----- main results

  /** The protocol errors of the adapter's event loop are unreachable. */
  lemma NoProtocolErrors(s: Settings, c: Config, chunks: seq<Bytes>)
    requires c.Valid()
    ensures var v := ParseUpload(s, c, chunks); v.Raised? ==> v.error != Protocol
  {
    hide ReadFrom, InterruptFrom, UploadCompleteFrom, Closed, MessageTally, Concat;
    ReadMeans(s, c, chunks);
  }

  /** After a parse that was not stopped, the stored fields and the field count are those of the
      message's segments. So are the files completed on the first handler, in order: each missing one
      was skipped by a handler in its turn, and none is missing if no handler ever skips. */
  lemma UploadMeans(s: Settings, c: Config, chunks: seq<Bytes>)
    requires c.Valid() && ParseUpload(s, c, chunks).Returned? && !ParseUpload(s, c, chunks).stopped
    ensures var x, t := ParseUpload(s, c, chunks).session, MessageTally(s, c.token, Concat(chunks));
      && x.post == t.post + OpenField(t)
      && x.fieldCount == t.charged
      && (s.handlers > 0 ==> Announced(x.log) == t.started)
      && (s.handlers > 0 ==> Account(Fates(s, x.log), t.uploads))
      && (s.handlers > 0 ==> Sub(Delivered(x.log), t.uploads))
      && (s.handlers > 0 ==> |t.uploads| <= |Delivered(x.log)| + SkipCount(Fates(s, x.log)))
      && (Observed(s) ==> Delivered(x.log) == t.uploads)
  {
    hide ReadFrom, Settle, MessageTally, Concat, Fates, Announced, OpenField, Account, Sub, Delivered;
    ReadMeans(s, c, chunks);
    var f, t := ReadFrom(s, c, FRESH, NEW_SESSION, chunks), MessageTally(s, c.token, Concat(chunks));
    SettleDelivers(s, f);
    if s.handlers > 0 { AccountCounts(Fates(s, f.session.log), t.uploads); }
    FatesComplete(s, Settle(s, f).session.log);
  }

  /** After reading the books are only closed. */
  lemma SettleDelivers(s: Settings, f: Flow)
    requires Settle(s, f).Returned? && !Settle(s, f).stopped
    ensures f.Go?
    ensures var x := Settle(s, f).session;
      && x.post == f.session.post && x.fieldCount == f.session.fieldCount
      && Fates(s, x.log) == Fates(s, f.session.log) && Announced(x.log) == Announced(f.session.log)
  {
    hide Fates, Announced, Listed, InterruptFrom, UploadCompleteFrom;
    var log := f.session.log;
    InterruptDelivers(s, log, 0);
    UploadCompleteDelivers(s, log, 0);
    UploadCompleteDelivers(s, InterruptFrom(s, log, 0).0, 0);
    InterruptLists(s, log, 0);
    UploadCompleteLists(s, log, 0);
    UploadCompleteLists(s, InterruptFrom(s, log, 0).0, 0);
  }

  lemma {:induction false} InterruptDelivers(s: Settings, log: seq<Call>, h: nat)
    ensures Fates(s, InterruptFrom(s, log, h).0) == Fates(s, log)
    decreases s.handlers - h
  {
    hide Fates;
    if h < s.handlers {
      Fated(s, log, Interrupted(h));
      if s.respond(log + [Interrupted(h)]).Return? { InterruptDelivers(s, log + [Interrupted(h)], h + 1); }
    }
  }

  lemma {:induction false} UploadCompleteDelivers(s: Settings, log: seq<Call>, h: nat)
    ensures Fates(s, UploadCompleteFrom(s, log, h).0) == Fates(s, log)
    decreases s.handlers - h
  {
    hide Fates;
    if h < s.handlers {
      var log1 := log + [UploadComplete(h)];
      Fated(s, log, UploadComplete(h));
      if s.respond(log1).Return? && s.respond(log1).data.None? { UploadCompleteDelivers(s, log1, h + 1); }
    }
  }

  /** Field count: the non-file parts and raw segments of the message are within the limit, with one
      more allowed unless the message ends in a closed or raw segment. */
  lemma FieldQuota(s: Settings, c: Config, chunks: seq<Bytes>)
    requires c.Valid() && ParseUpload(s, c, chunks).Returned? && !ParseUpload(s, c, chunks).stopped && s.maxFields.Some?
    ensures var t := MessageTally(s, c.token, Concat(chunks));
      t.charged <= s.maxFields.value + if t.terminal then 0 else 1
  {
    hide ReadFrom, MessageTally, Concat, Fates, InterruptFrom, UploadCompleteFrom, OpenField, WellOffset,
      Interrupting, Active, StoredSize;
    ReadMeans(s, c, chunks);
    NewIsGoing(s);
    ReadSteady(s, c, FRESH, NEW_SESSION, chunks);
  }
}
