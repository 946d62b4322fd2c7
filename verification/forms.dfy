/** Forms through the whole stack: the printed parts come out of the adapter as stored fields and
    delivered files. */
module Forms {
  import opened Bytes
  import opened Machines
  import opened Adapters
  import opened Base64
  import opened Chunking
  import opened Events
  import opened Segments
  import opened Messages
  import opened Ledger
  import opened Acceptance
  import opened Verdicts
  import opened Uploads
  import opened Calls
  import opened RoundTrips
  import Rejection

  function FieldsOf(s: Settings, parts: seq<FormPart>): seq<Field> {
    if parts == [] then [] else FieldOf(s.describe(parts[0].headers), parts[0].data) + FieldsOf(s, parts[1..])
  }

  function UploadsOf(s: Settings, parts: seq<FormPart>): seq<Bytes> {
    if parts == [] then [] else UploadOf(s.describe(parts[0].headers), parts[0].data) + UploadsOf(s, parts[1..])
  }

  function NamesOf(s: Settings, parts: seq<FormPart>): seq<string> {
    if parts == [] then [] else StartedBy(s.describe(parts[0].headers)) + NamesOf(s, parts[1..])
  }

  function FieldParts(s: Settings, parts: seq<FormPart>): nat {
    if parts == [] then 0
    else (if s.describe(parts[0].headers).hasFileName then 0 else 1) + FieldParts(s, parts[1..])
  }

  function FileParts(s: Settings, parts: seq<FormPart>): nat {
    if parts == [] then 0
    else
      var info := s.describe(parts[0].headers);
      (if info.hasFileName && info.name.Some? then 1 else 0) + FileParts(s, parts[1..])
  }

  /** A file's base64 content that stops the parse. */
  predicate Unreadable(info: PartInfo, content: Bytes) {
    Spoils(info, content, false) || Spoils(info, content, true)
  }

  predicate AnyUnreadable(s: Settings, parts: seq<FormPart>) {
    exists k :: 0 <= k < |parts| && Unreadable(s.describe(parts[k].headers), parts[k].data)
  }

  lemma SpoilsNothing(info: PartInfo)
    ensures !Spoils(info, [], false)
  {
    SqueezeNothing();
    var nothing: Bytes := [];
    assert nothing[..0] == [];
  }

  lemma AnyUnreadableCons(s: Settings, parts: seq<FormPart>)
    requires parts != []
    ensures AnyUnreadable(s, parts) <==>
      Unreadable(s.describe(parts[0].headers), parts[0].data) || AnyUnreadable(s, parts[1..])
  {
    hide Unreadable;
    assert forall k :: 0 <= k < |parts| - 1 ==> parts[1..][k] == parts[k + 1];
    if AnyUnreadable(s, parts) {
      var k :| 0 <= k < |parts| && Unreadable(s.describe(parts[k].headers), parts[k].data);
      if k > 0 { assert parts[1..][k - 1] == parts[k]; }
    }
  }

  lemma TallyOnePart(s: Settings, t: Tally, p: FormPart)
    requires t.open.None?
    ensures var info := s.describe(p.headers);
      TallyAll(s, t, [Begin(p.headers)] + DataEvents(p.data) + [EndPart]) == t.(
        post := t.post + FieldOf(info, p.data),
        uploads := t.uploads + UploadOf(info, p.data),
        started := t.started + StartedBy(info),
        charged := if info.hasFileName then t.charged else t.charged + 1,
        announced := if info.hasFileName && info.name.Some? then t.announced + 1 else t.announced,
        spoiled := t.spoiled || Unreadable(info, p.data),
        terminal := true)
  {
    hide FieldOf, UploadOf, TallyAll, Spoils;
    SpoilsNothing(s.describe(p.headers));
    var begun := TallyOne(s, t, Begin(p.headers));
    TallySingle(s, t, Begin(p.headers));
    TallySplit(s, t, [Begin(p.headers)], DataEvents(p.data));
    TallySplit(s, t, [Begin(p.headers)] + DataEvents(p.data), [EndPart]);
    if p.data == [] {
      TallyNothing(s, begun);
      TallySingle(s, begun, EndPart);
    } else {
      TallySingle(s, begun, Data(p.data));
      assert [] + p.data == p.data;
      TallySingle(s, TallyOne(s, begun, Data(p.data)), EndPart);
    }
  }

  lemma TallyNothing(s: Settings, t: Tally)
    ensures TallyAll(s, t, []) == t
  {
  }

  lemma NoneUnreadable(s: Settings)
    ensures !AnyUnreadable(s, [])
  {
  }

  lemma {:induction false} TallyParts(s: Settings, t: Tally, parts: seq<FormPart>)
    requires t.open.None?
    ensures TallyAll(s, t, PartEvents(parts)) == t.(
      post := t.post + FieldsOf(s, parts),
      uploads := t.uploads + UploadsOf(s, parts),
      started := t.started + NamesOf(s, parts),
      charged := t.charged + FieldParts(s, parts),
      announced := t.announced + FileParts(s, parts),
      spoiled := t.spoiled || AnyUnreadable(s, parts),
      terminal := t.terminal || parts != [])
    decreases |parts|
  {
    hide FieldOf, UploadOf, TallyAll, TallyOne, Unreadable, AnyUnreadable;
    if parts == [] {
      assert !AnyUnreadable(s, parts) by { NoneUnreadable(s); }
      TallyNothing(s, t);
      assert t.post + [] == t.post && t.uploads + [] == t.uploads && t.started + [] == t.started;
    } else {
      var p, more := parts[0], parts[1..];
      var info := s.describe(p.headers);
      var first := [Begin(p.headers)] + DataEvents(p.data) + [EndPart];
      TallyOnePart(s, t, p);
      var t1 := TallyAll(s, t, first);
      TallySplit(s, t, first, PartEvents(more));
      TallyParts(s, t1, more);
      AnyUnreadableCons(s, parts);
      assert t.post + (FieldOf(info, p.data) + FieldsOf(s, more)) == t1.post + FieldsOf(s, more);
      assert t.uploads + (UploadOf(info, p.data) + UploadsOf(s, more)) == t1.uploads + UploadsOf(s, more);
      assert t.started + (StartedBy(info) + NamesOf(s, more)) == t1.started + NamesOf(s, more);
    }
  }

  /** The books of a printed form. */
  lemma FormTally(s: Settings, c: Config, parts: seq<FormPart>)
    requires c.Valid() && PrintableParts(c, parts)
    ensures var t := MessageTally(s, c.token, MakeBody(c.token, parts));
      && t.post + OpenField(t) == FieldsOf(s, parts)
      && t.uploads == UploadsOf(s, parts)
      && t.started == NamesOf(s, parts)
      && t.charged == FieldParts(s, parts)
      && t.announced == FileParts(s, parts)
      && t.spoiled == AnyUnreadable(s, parts)
      && t.terminal == (parts != [])
  {
    hide MakeBody, PrintableParts, PartEvents, FinalMessageEvents, MessageEvents, MessageCloses, MessageEndsAtToken,
      TallyAll, FieldsOf, UploadsOf, NamesOf, FieldParts, FileParts, AnyUnreadable;
    BodyMeans(c, parts);
    TallyParts(s, NEW_TALLY, parts);
    assert [] + FieldsOf(s, parts) + [] == FieldsOf(s, parts) && [] + UploadsOf(s, parts) == UploadsOf(s, parts);
    assert [] + NamesOf(s, parts) == NamesOf(s, parts);
  }

  /** A printed form, parsed without being stopped by a handler, stores exactly its fields and
      delivers its files in order, each missing one having been skipped in its turn, under every
      chunking and for all limits. */
  lemma FormRoundTrip(s: Settings, c: Config, parts: seq<FormPart>, chunks: seq<Bytes>)
    requires c.Valid() && PrintableParts(c, parts) && Concat(chunks) == MakeBody(c.token, parts)
    requires ParseUpload(s, c, chunks).Returned? && !ParseUpload(s, c, chunks).stopped
    ensures var x := ParseUpload(s, c, chunks).session;
      && x.post == FieldsOf(s, parts)
      && (s.handlers > 0 ==> Announced(x.log) == NamesOf(s, parts))
      && x.files == Listed(s, x.log)
      && (s.handlers > 0 ==> Account(Fates(s, x.log), UploadsOf(s, parts)))
      && (s.handlers > 0 ==> Sub(Delivered(x.log), UploadsOf(s, parts)))
      && (s.handlers > 0 ==> |UploadsOf(s, parts)| <= |Delivered(x.log)| + SkipCount(Fates(s, x.log)))
      && (Observed(s) ==> Delivered(x.log) == UploadsOf(s, parts))
  {
    hide ParseUpload, Concat, MakeBody, PrintableParts, MessageTally, Delivered, Announced, Listed, Fates, FieldsOf,
      UploadsOf, NamesOf, FieldParts, FileParts, AnyUnreadable;
    FormTally(s, c, parts);
    UploadMeans(s, c, chunks);
    FilesListed(s, c, chunks);
  }

  /** The body fits the parser's limits, and the form fits the adapter's quotas. */
  predicate FormInQuota(s: Settings, c: Config, parts: seq<FormPart>) {
    && BodyFits(c, parts)
    && (s.maxFiles.Some? ==> FileParts(s, parts) <= s.maxFiles.value)
    && (s.maxFields.Some? ==> FieldParts(s, parts) <= s.maxFields.value)
    && (s.maxMemory.Some? ==> StoredSize(FieldsOf(s, parts)) <= s.maxMemory.value)
  }

  predicate FormFits(s: Settings, c: Config, parts: seq<FormPart>) {
    FormInQuota(s, c, parts) && !AnyUnreadable(s, parts)
  }

  /** When the upload of a printed form succeeds, under every chunking: whatever the handlers do, a form
      that is taken without being stopped is in quota, and one that fits fails at most for a handler.
      With patient handlers that do not skip, or without unreadable files, it succeeds exactly if it
      fits; polite handlers are then given all of it. */
  lemma FormReturnedIff(s: Settings, c: Config, parts: seq<FormPart>, chunks: seq<Bytes>)
    requires c.Valid()
    requires PrintableParts(c, parts) && Concat(chunks) == MakeBody(c.token, parts)
    ensures var v := ParseUpload(s, c, chunks);
      && (v.Returned? && !v.stopped ==> FormInQuota(s, c, parts))
      && (FormFits(s, c, parts) ==> v.Returned? || v.error == HandlerError)
      && (Polite(s) || (Patient(s) && !AnyUnreadable(s, parts)) ==> (v.Returned? <==> FormFits(s, c, parts)))
      && (Polite(s) && FormFits(s, c, parts) ==>
        && v.session.post == FieldsOf(s, parts)
        && (s.handlers > 0 ==> Delivered(v.session.log) == UploadsOf(s, parts)))
  {
    hide ParseUpload, Concat, MakeBody, PrintableParts, BodyFits, MessageTally, FieldsOf, UploadsOf, AnyUnreadable,
      FeedAll, FeedEof, ChunksFit, Delivered, Fates, Account, StoredSize, OpenField, NoSkip, Polite, Patient;
    PoliteIsPatient(s);
    NoFields(s);
    FormTally(s, c, parts);
    BodyAcceptedIff(c, parts, chunks);
    WholeIff(c, chunks);
    ReturnedIff(s, c, chunks);
    var v := ParseUpload(s, c, chunks);
    if Polite(s) && v.Returned? {
      PoliteNeverSkips(s);
      FormRoundTrip(s, c, parts, chunks);
    }
  }

  lemma PoliteNeverSkips(s: Settings)
    requires Polite(s)
    ensures NoSkip(s)
  {
  }

  lemma NoFields(s: Settings)
    ensures FieldParts(s, []) == 0
  {
  }

  // ----- the errors of the parser, as the adapter sees them

  /** A parser error of the adapter is the one that the driver of the bare parser ends in. */
  lemma {:induction false} ReadError(s: Settings, c: Config, m: Machine, x: Session, chunks: seq<Bytes>,
    output: seq<Event>)
    requires c.Valid() && Ready(s, x)
    ensures var f, end := ReadFrom(s, c, m, x, chunks), ParseFrom(c, m, chunks, output).terminal;
      f.Fail? && f.error.ParserError? ==> end == FeedError(f.error.error) || end == EofError(f.error.error)
    decreases |chunks|
  {
    hide Feed, OnEvents, Ready, FeedEof, AfterEof, AppendEvents;
    if chunks == [] {
      var o := FeedEof(c, m);
      if o.Done? {
        var exact := m.state.Body? && o.machine.state.End?;
        EventsError(s, x, o.events, exact);
        OnEventsReady(s, x, o.events, exact);
        var f := OnEvents(s, x, o.events, exact);
        if f.Go? {
          var x1 := if exact then f.session.(terminalRaw := false) else f.session;
          ReadySame(s, f.session, x1);
          AfterEofError(s, x1, Finished(o.machine));
        }
      }
    } else {
      var o := Feed(c, m, chunks[0]);
      if o.Done? {
        EventsError(s, x, o.events, false);
        OnEventsReady(s, x, o.events, false);
        var f := OnEvents(s, x, o.events, false);
        if f.Go? { ReadError(s, c, o.machine, f.session, chunks[1..], AppendEvents(output, o.events)); }
      }
    }
  }

  lemma ReadySame(s: Settings, x: Session, y: Session)
    requires Ready(s, x) && y.current == x.current
    ensures Ready(s, y)
  {
  }

  lemma AfterEofError(s: Settings, x: Session, finished: bool)
    requires Ready(s, x)
    ensures var f := AfterEof(s, x, finished); f.Fail? ==> !f.error.ParserError?
  {
    hide CompleteFrom, Decode, FieldValue;
  }

  lemma {:induction false} EventsError(s: Settings, x: Session, events: seq<Event>, exact: bool)
    requires Ready(s, x)
    ensures var f := OnEvents(s, x, events, exact); f.Fail? ==> !f.error.ParserError?
    decreases |events|
  {
    hide OnEvent, Ready;
    if events != [] {
      EventErrors(s, x, events[0], exact);
      OnEventReady(s, x, events[0], exact);
      var f := OnEvent(s, x, events[0], exact);
      if f.Go? { EventsError(s, f.session, events[1..], exact); }
    }
  }

  /** Every parser error that a parse can raise is the error of the bare parser on the same chunks, and
      without a size limit it is one of the three header limits, which the adapter reports under one
      message. */
  lemma OnlyHeaderLimits(s: Settings, c: Config, chunks: seq<Bytes>)
    requires c.Valid()
    ensures var v, end := ParseUpload(s, c, chunks), ParseChunks(c, chunks).terminal;
      v.Raised? && v.error.ParserError? ==>
        && (end == FeedError(v.error.error) || end == EofError(v.error.error))
        && (c.maxSize.None? ==> HeaderLimit(v.error.error))
  {
    hide ReadFrom, InterruptFrom, UploadCompleteFrom, ParseFrom, FeedAll, FeedEof, AppendEvents;
    NewAgrees(s);
    ReadError(s, c, FRESH, NEW_SESSION, chunks, []);
    ParseIsFeedAll(c, FRESH, chunks, []);
    EofRejection(c, FeedAll(c, FRESH, chunks).machine);
    if c.maxSize.None? { Rejection.FeedAllError(c, FRESH, chunks); }
  }
}
