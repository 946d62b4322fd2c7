/** What holds of every reachable parser: the event grammar and the field invariants. */
module Grammar {
  import opened Bytes
  import opened Machines
  import opened Chunking

  /** Runs the grammar (Raw | Begin Data* EndPart)* over `events`, starting inside a part or not;
      `None` is a violation. */
  function Follow(open: bool, events: seq<Event>): Option<bool>
    decreases |events|
  {
    if events == [] then Some(open)
    else
      match Follow(open, events[..|events| - 1])
      case None => None
      case Some(inside) =>
        match events[|events| - 1]
        case Begin(_) => if inside then None else Some(true)
        case Data(_) => if inside then Some(true) else None
        case EndPart => if inside then Some(false) else None
        case Raw => if inside then None else Some(false)
  }

  lemma {:induction false} FollowConcat(open: bool, a: seq<Event>, b: seq<Event>)
    ensures Follow(open, a + b) == match Follow(open, a) case None => None case Some(inside) => Follow(inside, b)
    decreases |b|
  {
    if b == [] {
      assert a + b == a;
    } else {
      var n := |b| - 1;
      assert (a + b)[..|a + b| - 1] == a + b[..n];
      FollowConcat(open, a, b[..n]);
    }
  }

  lemma FollowOne(open: bool, e: Event)
    ensures Follow(open, [e]) == match e
      case Begin(_) => if open then None else Some(true)
      case Data(_) => if open then Some(true) else None
      case EndPart => if open then Some(false) else None
      case Raw => if open then None else Some(false)
  {
    assert [e][..0] == [];
  }

  lemma FollowData(data: Bytes)
    ensures Follow(true, DataEvents(data)) == Some(true)
    ensures Follow(true, DataEvents(data) + [EndPart]) == Some(false)
  {
    FollowOne(true, Data(data));
    FollowOne(true, EndPart);
    FollowConcat(true, DataEvents(data), [EndPart]);
  }

  /** A part was announced and not ended yet. */
  predicate PartOpen(m: Machine) { m.state.Body? && !m.pending }

  /** Which fields are in use in which state. */
  predicate Tidy(m: Machine) {
    && (m.pending ==> m.state.Body?)
    && (m.headers != [] ==> m.state.Header? || m.pending)
    && (m.headerSize != 0 ==> m.state.Header? || m.pending)
  }

  /** The body buffer of a waiting parser: a token in it is undecided and preceded by at most the
      line break that is stripped from the data. */
  predicate WaitsAtToken(c: Config, m: Machine)
    requires c.Valid()
  {
    m.state.Body? && Find(m.buffer, c.token).Some? ==>
      var i := Find(m.buffer, c.token).value;
      && !m.pending
      && BodyDataEnd(m.buffer, i) == 0
      && DelimiterSuffix(m.buffer[i + |c.token|..]).Incomplete?
  }

  predicate Keeps(c: Config, m: Machine, s: Step)
    requires c.Valid()
  {
    !s.Reject? ==>
      && Tidy(s.machine)
      && Follow(PartOpen(m), s.events) == Some(PartOpen(s.machine))
      && (s.Wait? ==> WaitsAtToken(c, s.machine))
  }

  lemma RawBoundaryKeeps(c: Config, m: Machine, i: nat)
    requires c.Valid() && At(m.buffer, c.token, i) && !m.pending && !m.state.Body? && m.headers == [] && m.headerSize == 0
    ensures Keeps(c, m, StepRawBoundary(c, m, i))
  {
    hide DelimiterSuffix, Find;
    FollowOne(false, Raw);
  }

  lemma OpenBodyKeeps(c: Config, m: Machine, begun: seq<Event>)
    requires c.Valid() && m.state.Body? && !m.pending && m.headers == [] && m.headerSize == 0
    requires begun == [] || exists h :: begun == [Begin(h)]
    ensures var s := StepOpenBody(c, m, begun);
      !s.Reject? ==>
        && Tidy(s.machine)
        && Follow(begun == [], s.events) == Some(PartOpen(s.machine))
        && (s.Wait? ==> WaitsAtToken(c, s.machine))
  {
    hide DelimiterSuffix, Find, BodyDataEnd, DataEvents, Follow;
    assert Follow(begun == [], begun) == Some(true) by {
      if begun == [] { FollowNone(true); } else { FollowOne(false, begun[0]); }
    }
    var found := Find(m.buffer, c.token);
    if found.Some? {
      var end := BodyDataEnd(m.buffer, found.value);
      var data := DataEvents(m.buffer[..end]);
      FollowData(m.buffer[..end]);
      FollowConcat(begun == [], begun, data);
      FollowConcat(begun == [], begun, data + [EndPart]);
      assert begun + data + [EndPart] == begun + (data + [EndPart]);
      TokenKept(c, m.buffer, found.value);
    } else if |m.buffer| > |c.token| + 1 {
      var emitted := |m.buffer| - |c.token| - 1;
      FollowData(m.buffer[..emitted]);
      FollowConcat(begun == [], begun, DataEvents(m.buffer[..emitted]));
      FindDrop(m.buffer, c.token, emitted);
    }
  }

  lemma FollowNone(open: bool)
    ensures Follow(open, []) == Some(open)
  {
  }

  lemma TokenKept(c: Config, buffer: Bytes, i: nat)
    requires c.Valid() && Find(buffer, c.token) == Some(i)
    ensures var end := BodyDataEnd(buffer, i);
      var kept := buffer[end..];
      && Find(kept, c.token) == Some(i - end)
      && BodyDataEnd(kept, i - end) == 0
      && kept[i - end + |c.token|..] == buffer[i + |c.token|..]
  {
    hide Find, BodyDataEnd;
    FindDrop(buffer, c.token, BodyDataEnd(buffer, i));
    StrippedBreak(buffer, i);
  }

  lemma StepKeepsGrammar(c: Config, m: Machine)
    requires c.Valid() && Tidy(m)
    ensures Keeps(c, m, StepOnce(c, m))
  {
    hide DelimiterSuffix, Find, StepRawBoundary, StepOpenBody, LineHeader, HeaderRetained, Follow, BodyDataEnd,
      DataEvents;
    FollowNone(false);
    var boundary := Find(m.buffer, c.token);
    match m.state
    case Preamble =>
    case Header =>
      if boundary.Some? { RawBoundaryKeeps(c, m.(headers := [], headerSize := 0), boundary.value); }
    case Body =>
      FindFits(m.buffer, c.token);
      var released := m.(headers := [], headerSize := 0, pending := false);
      if c.token <= m.buffer {
        assert At(m.buffer, c.token, 0);
        RawBoundaryKeeps(c, released.(state := Discard), 0);
      }
      OpenBodyKeeps(c, released, if m.pending then [Begin(m.headers)] else []);
    case _ =>
      if boundary.Some? { RawBoundaryKeeps(c, m, boundary.value); }
  }

  lemma {:induction false} RunKeepsGrammar(c: Config, m: Machine)
    requires c.Valid() && Tidy(m)
    ensures var o := Run(c, m);
      o.Done? ==>
        && Tidy(o.machine)
        && WaitsAtToken(c, o.machine)
        && Follow(PartOpen(m), o.events) == Some(PartOpen(o.machine))
    decreases Measure(m)
  {
    hide StepOnce, Follow, Measure, WaitsAtToken, Tidy;
    StepDecreases(c, m);
    StepKeepsGrammar(c, m);
    var s := StepOnce(c, m);
    if s.Progress? {
      RunKeepsGrammar(c, s.machine);
      var o := Run(c, s.machine);
      if o.Done? { FollowConcat(PartOpen(m), s.events, o.events); }
    }
  }

  /** The event grammar and the field invariants hold over all accepted feeds: a part is open
      between calls exactly when the parser is in a body whose headers were announced. */
  lemma {:induction false} FeedAllKeepsGrammar(c: Config, m: Machine, chunks: seq<Bytes>)
    requires c.Valid() && Tidy(m) && WaitsAtToken(c, m)
    ensures var o := FeedAll(c, m, chunks);
      o.Done? ==>
        && Tidy(o.machine)
        && WaitsAtToken(c, o.machine)
        && Follow(PartOpen(m), o.events) == Some(PartOpen(o.machine))
    decreases |chunks|
  {
    hide Run, Follow, WaitsAtToken;
    if chunks == [] {
      FollowNone(PartOpen(m));
    } else {
      RunKeepsGrammar(c, Receive(m, chunks[0]));
      var first := Feed(c, m, chunks[0]);
      if first.Done? {
        FeedAllKeepsGrammar(c, first.machine, chunks[1..]);
        var rest := FeedAll(c, first.machine, chunks[1..]);
        if rest.Done? { FollowConcat(PartOpen(m), first.events, rest.events); }
      }
    }
  }

  /** At EOF the grammar goes on; a token left in a body ends its part without any data. */
  lemma EofKeepsGrammar(c: Config, m: Machine)
    requires c.Valid() && Tidy(m) && WaitsAtToken(c, m) && !m.eof
    ensures var o := FeedEof(c, m);
      o.Done? ==>
        && Follow(PartOpen(m), o.events) == Some(PartOpen(o.machine))
        && (m.state.Body? && Find(m.buffer, c.token).Some? ==> o.events == [EndPart] && !PartOpen(o.machine))
        && (m.state.Body? && Find(m.buffer, c.token).None? ==> o.machine.state.Body?)
        && (o.machine.state.End? && m.state.Body? ==> PartOpen(m) && o.events == [EndPart])
  {
    hide DelimiterSuffix, Find, EofHeaderSize, BodyDataEnd, Follow;
    FollowNone(false);
    FollowNone(true);
    var begun: seq<Event> := if m.pending then [Begin(m.headers)] else [];
    if m.pending { FollowOne(false, Begin(m.headers)); }
    var found := Find(m.buffer, c.token);
    if m.state.Body? {
      assert Follow(PartOpen(m), begun) == Some(true);
      FollowData(m.buffer);
      FollowConcat(PartOpen(m), begun, DataEvents(m.buffer));
      if found.Some? {
        var data := DataEvents(m.buffer[..BodyDataEnd(m.buffer, found.value)]);
        FollowData(m.buffer[..BodyDataEnd(m.buffer, found.value)]);
        FollowConcat(PartOpen(m), begun, data + [EndPart]);
        assert begun + data + [EndPart] == begun + (data + [EndPart]);
        if PartOpen(m) { assert data == [] && [] + [] + [EndPart] == [EndPart]; }
      }
    } else {
      assert begun + [] == [];
    }
  }

  lemma FreshIsTidy(c: Config)
    requires c.Valid()
    ensures Tidy(FRESH) && WaitsAtToken(c, FRESH) && !PartOpen(FRESH)
  {
  }

  lemma FeedOneKeeps(c: Config, m: Machine, data: Bytes)
    requires c.Valid() && Tidy(m)
    ensures var o := Feed(c, m, data);
      o.Done? ==> Tidy(o.machine) && WaitsAtToken(c, o.machine) && Follow(PartOpen(m), o.events) == Some(PartOpen(o.machine))
  {
    hide Run, Follow, WaitsAtToken;
    RunKeepsGrammar(c, Receive(m, data));
  }
}
