/** Printing parts as a multipart body and parsing the body gives the parts back, in any chunking
    and under the adapter's limits. */
module RoundTrips {
  import opened Bytes
  import opened Machines
  import opened Chunking
  import opened Segments
  import opened Refinement
  import opened Verdicts
  import opened Octets
  import opened Limits
  import opened Messages

  datatype FormPart = FormPart(headers: Headers, data: Bytes)

  // ----- the printer

  function HeaderLine(h: (Bytes, Bytes)): Bytes { h.0 + [COLON, SPACE] + h.1 }

  function PrintHeaders(headers: Headers): Bytes {
    if headers == [] then [] else HeaderLine(headers[0]) + CRLF + PrintHeaders(headers[1..])
  }

  /** One part without the boundary token in front of it. */
  function PrintPart(p: FormPart): Bytes {
    CRLF + PrintHeaders(p.headers) + CRLF + p.data + CRLF
  }

  const EPILOGUE: Bytes := [45, 45, 13, 10]

  function MakeBody(token: Bytes, parts: seq<FormPart>): Bytes {
    if parts == [] then token + EPILOGUE else token + PrintPart(parts[0]) + MakeBody(token, parts[1..])
  }

  /** The printer's nested loops over one growing buffer. */
  method PrintBody(token: Bytes, parts: seq<FormPart>) returns (body: Bytes)
    ensures body == MakeBody(token, parts)
  {
    hide PrintPart;
    body := [];
    for i := 0 to |parts|
      invariant body + MakeBody(token, parts[i..]) == MakeBody(token, parts)
    {
      ghost var before := body;
      ghost var rest := MakeBody(token, parts[i + 1..]);
      assert parts[i..][1..] == parts[i + 1..];
      body := ExtendWithPart(body, token, parts[i]);
      assert before + (token + PrintPart(parts[i]) + rest) == body + rest;
    }
    assert parts[|parts|..] == [];
    body := body + (token + EPILOGUE);
  }

  method ExtendWithPart(start: Bytes, token: Bytes, p: FormPart) returns (body: Bytes)
    ensures body == start + (token + PrintPart(p))
  {
    ghost var printed := PrintHeaders(p.headers);
    body := start + (token + CRLF);
    for j := 0 to |p.headers|
      invariant body + PrintHeaders(p.headers[j..]) == start + (token + CRLF) + printed
    {
      assert p.headers[j..][1..] == p.headers[j + 1..];
      ghost var line := HeaderLine(p.headers[j]) + CRLF;
      ghost var more := PrintHeaders(p.headers[j + 1..]);
      assert body + (line + more) == (body + line) + more;
      body := body + (p.headers[j].0 + [COLON, SPACE] + p.headers[j].1 + CRLF);
    }
    assert p.headers[|p.headers|..] == [];
    assert body == start + (token + CRLF) + printed;
    body := body + CRLF;
    body := body + p.data;
    body := body + CRLF;
    assert body == start + (token + (CRLF + printed + CRLF + p.data + CRLF));
  }

  // ----- printable parts

  /** A name without a colon and without trailing spaces, a value without whitespace at its ends, and
      neither a line break nor the token in the line. */
  predicate Printable(c: Config, h: (Bytes, Bytes)) {
    && 58 !in h.0 && (h.0 != [] ==> h.0[|h.0| - 1] != 32)
    && (h.1 != [] ==> h.1[0] !in {9, 10, 12, 13, 32} && h.1[|h.1| - 1] !in {9, 10, 12, 13, 32})
    && OneLine(HeaderLine(h))
    && Find(HeaderLine(h), c.token).None?
  }

  predicate PrintablePart(c: Config, p: FormPart) {
    && (forall k :: 0 <= k < |p.headers| ==> Printable(c, p.headers[k]))
    && Find(p.data, c.token).None?
  }

  predicate PrintableParts(c: Config, parts: seq<FormPart>) {
    forall k :: 0 <= k < |parts| ==> PrintablePart(c, parts[k])
  }

  /** The events of the printed parts. */
  function PartEvents(parts: seq<FormPart>): seq<Event> {
    if parts == [] then []
    else
      var data := parts[0].data;
      [Begin(parts[0].headers)] + (if data == [] then [] else [Data(data)]) + [EndPart] + PartEvents(parts[1..])
  }

  // ----- one header line

  lemma LineGivesHeader(c: Config, h: (Bytes, Bytes))
    requires Printable(c, h)
    ensures LineHeader(HeaderLine(h)) == [h] && HeaderLine(h) != []
  {
    var line := HeaderLine(h);
    var n := |h.0|;
    assert line[n] == COLON && line[n..n + 1] == [COLON];
    forall k | 0 <= k < n ensures !At(line, [COLON], k) {
      assert line[k] == h.0[k];
      AtHead(line, [COLON], k);
    }
    FindIs(line, [COLON], n);
    assert line[..n] == h.0 && line[n + 1..] == [SPACE] + h.1;
    assert ([SPACE] + h.1)[1..] == h.1;
    StripIs(h.0);
    TrimmedStays(h.1);
    TrimSpaceFirst(h.1);
  }

  lemma TrimSpaceFirst(v: Bytes)
    ensures TrimAscii([SPACE] + v) == TrimAscii(v)
  {
    assert ([SPACE] + v)[1..] == v;
  }

  lemma TrimmedStays(v: Bytes)
    requires v != [] ==> v[0] !in {9, 10, 12, 13, 32} && v[|v| - 1] !in {9, 10, 12, 13, 32}
    ensures TrimAscii(v) == v
  {
    var a, b := TrimIs(v);
    var r := TrimAscii(v);
    hide TrimAscii;
    EndsOf(a, r, b);
    assert a == [] && b == [];
    assert [] + r + [] == r;
  }

  lemma EndsOf(a: Bytes, r: Bytes, b: Bytes)
    ensures a != [] ==> (a + r + b)[0] in a
    ensures b != [] ==> (a + r + b)[|a + r + b| - 1] in b
  {
  }

  // ----- one printed part

  /** The header block ends in the first blank line, right after the printed headers. */
  lemma {:induction false} HeadersPrinted(c: Config, headers: Headers, rest: Bytes)
    requires forall k :: 0 <= k < |headers| ==> Printable(c, headers[k])
    ensures HeaderSegment([], PrintHeaders(headers) + CRLF + rest) == Part(headers, rest)
    ensures RestCost(PrintHeaders(headers) + CRLF + rest) == |PrintHeaders(headers)| + 2
    decreases |headers|
  {
    HeadersAfter(c, [], headers, rest);
    assert [] + headers == headers;
  }

  lemma {:induction false} HeadersAfter(c: Config, before: Headers, headers: Headers, rest: Bytes)
    requires forall k :: 0 <= k < |headers| ==> Printable(c, headers[k])
    ensures HeaderSegment(before, PrintHeaders(headers) + CRLF + rest) == Part(before + headers, rest)
    ensures RestCost(PrintHeaders(headers) + CRLF + rest) == |PrintHeaders(headers)| + 2
    decreases |headers|
  {
    hide Find, HeaderSegment, RestCost, LineHeader, HeaderLine;
    if headers == [] {
      assert [] + CRLF + rest == CRLF + rest && before + headers == before;
      HeaderSegmentBlank(before, rest);
      CostOfBlankLine(rest);
    } else {
      var line := HeaderLine(headers[0]);
      var more := PrintHeaders(headers[1..]) + CRLF + rest;
      assert PrintHeaders(headers) + CRLF + rest == line + CRLF + more;
      LineGivesHeader(c, headers[0]);
      HeaderSegmentLine(before, line, more);
      CostAfterLine(line, more);
      HeadersAfter(c, before + [headers[0]], headers[1..], rest);
      assert before + [headers[0]] + headers[1..] == before + headers;
    }
  }

  /** What a printed part means, whatever follows it in the same piece. */
  lemma PartPrinted(c: Config, p: FormPart, rest: Bytes, followed: bool)
    requires c.Valid() && PrintablePart(c, p)
    ensures Classify(PrintPart(p) + rest, followed) == Part(p.headers, p.data + CRLF + rest)
  {
    hide Find, HeaderSegment, Classify;
    var body := p.data + CRLF + rest;
    var block := PrintHeaders(p.headers) + CRLF + body;
    assert PrintPart(p) + rest == [] + CRLF + block;
    ClassifyAfterPadding([], block, followed);
    HeadersPrinted(c, p.headers, body);
  }

  lemma StripPrinted(data: Bytes)
    ensures StripBreak(data + CRLF) == data
  {
    assert (data + CRLF)[..|data| + 1][..|data|] == data;
  }

  // ----- no token inside a printed part

  /** No token starts in a token-free text that is followed by a line break. */
  lemma FreeBeforeBreak(c: Config, a: Bytes, rest: Bytes)
    requires c.Valid() && Find(a, c.token).None?
    ensures forall k :: 0 <= k < |a| + 2 ==> !At(a + CRLF + rest, c.token, k)
  {
    var s := a + CRLF + rest;
    assert s == a + (CRLF + rest);
    forall k | 0 <= k < |a| + 2 ensures !At(s, c.token, k) {
      if At(s, c.token, k) {
        assert s[|a|] == CR && s[|a| + 1] == LF;
        TokenHasNoBreak(c, s, k, |a|);
        TokenHasNoBreak(c, s, k, |a| + 1);
        AtAppend(a, CRLF + rest, c.token, k);
      }
    }
  }

  lemma FreeConcat(c: Config, a: Bytes, b: Bytes, n: nat)
    requires c.Valid() && n <= |b|
    requires forall k :: 0 <= k < |a| ==> !At(a + b, c.token, k)
    requires forall k :: 0 <= k < n ==> !At(b, c.token, k)
    ensures forall k :: 0 <= k < |a| + n ==> !At(a + b, c.token, k)
  {
    forall k | 0 <= k < |a| + n ensures !At(a + b, c.token, k) {
      if k >= |a| {
        AtDrop(a + b, c.token, |a|, k - |a|);
        assert (a + b)[|a|..] == b;
      }
    }
  }

  lemma {:induction false} FreeHeaders(c: Config, headers: Headers, rest: Bytes)
    requires c.Valid() && forall k :: 0 <= k < |headers| ==> Printable(c, headers[k])
    ensures forall k :: 0 <= k < |PrintHeaders(headers)| ==> !At(PrintHeaders(headers) + rest, c.token, k)
    decreases |headers|
  {
    hide Find, HeaderLine, At;
    if headers != [] {
      var line := HeaderLine(headers[0]);
      var printed := PrintHeaders(headers[1..]);
      var more := printed + rest;
      assert PrintHeaders(headers) + rest == (line + CRLF) + more;
      FreeBeforeBreak(c, line, more);
      assert line + CRLF + more == (line + CRLF) + more;
      FreeHeaders(c, headers[1..], rest);
      FreeConcat(c, line + CRLF, more, |printed|);
    }
  }

  lemma FreePart(c: Config, p: FormPart, rest: Bytes)
    requires c.Valid() && PrintablePart(c, p)
    ensures forall k :: 0 <= k < |PrintPart(p)| ==> !At(PrintPart(p) + rest, c.token, k)
  {
    hide Find, HeaderLine, At, PrintHeaders;
    var printed := PrintHeaders(p.headers);
    var s3 := p.data + CRLF + rest;
    var s2 := [] + CRLF + s3;
    var s1 := printed + s2;
    FreeBeforeBreak(c, p.data, rest);
    NothingHasNoToken(c);
    FreeBeforeBreak(c, [], s3);
    assert s2 == CRLF + s3;
    FreeConcat(c, CRLF, s3, |p.data| + 2);
    FreeHeaders(c, p.headers, s2);
    FreeConcat(c, printed, s2, 2 + (|p.data| + 2));
    FreeBeforeBreak(c, [], s1);
    assert [] + CRLF + s1 == CRLF + s1;
    FreeConcat(c, CRLF, s1, |printed| + (2 + (|p.data| + 2)));
    assert CRLF + s1 == PrintPart(p) + rest;
  }

  // ----- the pieces of a printed body

  lemma EpilogueCut(c: Config)
    requires c.Valid()
    ensures Cut(EPILOGUE, c.token) == [EPILOGUE]
    ensures Classify(EPILOGUE, false) == Closing && !Undecided(EPILOGUE)
  {
    forall k: nat | At(EPILOGUE, c.token, k) ensures false {
      TokenHasNoBreak(c, EPILOGUE, k, 2);
    }
    CutNone(c, EPILOGUE);
    forall k: nat | At(EPILOGUE, BLANK, k) ensures false { AtByte(EPILOGUE, BLANK, k, 0); }
    assert !IsPadding(EPILOGUE[0]);
  }

  /** The first piece behind the token of a non-empty body, and the pieces after it. */
  lemma PartCut(c: Config, p: FormPart, rest: Bytes)
    requires c.Valid() && PrintablePart(c, p)
    ensures Cut(PrintPart(p) + (c.token + rest), c.token)[0] == PrintPart(p)
    ensures Cut(PrintPart(p) + (c.token + rest), c.token)[1..] == Cut(rest, c.token)
  {
    hide Find, PrintPart, At, Cut;
    var s := PrintPart(p) + (c.token + rest);
    FreePart(c, p, c.token + rest);
    CutDrop(c, s, |PrintPart(p)|);
    assert s[|PrintPart(p)|..] == c.token + rest && s[..|PrintPart(p)|] == PrintPart(p);
    TokenFirstCut(c, rest);
    assert PrintPart(p) + [] == PrintPart(p);
  }

  /** A body without its first token. */
  function Behind(token: Bytes, parts: seq<FormPart>): Bytes {
    if parts == [] then EPILOGUE else PrintPart(parts[0]) + MakeBody(token, parts[1..])
  }

  lemma BodyStarts(token: Bytes, parts: seq<FormPart>)
    ensures MakeBody(token, parts) == token + Behind(token, parts)
  {
    hide PrintPart;
    if parts != [] {
      var a, b := PrintPart(parts[0]), MakeBody(token, parts[1..]);
      assert token + a + b == token + (a + b);
    }
  }

  lemma {:induction false} PrintedMeans(c: Config, parts: seq<FormPart>)
    requires c.Valid() && PrintableParts(c, parts)
    ensures var pieces := Cut(Behind(c.token, parts), c.token);
      && FinalEventsFrom(ClassifyFirst(pieces), pieces[1..]) == PartEvents(parts)
      && ClosesFrom(ClassifyFirst(pieces), pieces[1..])
      && !EndsAtTokenFrom(ClassifyFirst(pieces), pieces[1..])
      && !(|pieces| == 1 && Undecided(pieces[0]))
    decreases |parts|
  {
    hide Find, PrintPart, Cut, Classify, ClosedEvents;
    if parts == [] {
      EpilogueCut(c);
    } else {
      var p, more := parts[0], parts[1..];
      PrintedMeans(c, more);
      BodyStarts(c.token, more);
      var rest := Behind(c.token, more);
      var later := Cut(rest, c.token);
      PartCut(c, p, rest);
      var pieces := Cut(Behind(c.token, parts), c.token);
      assert pieces[1..] == later;
      assert |pieces| > 1;
      PartEventsPrinted(c, p);
      assert FinalEventsFrom(ClassifyFirst(pieces), later)
        == ClosedEvents(ClassifyFirst(pieces)) + FinalEventsFrom(ClassifyFirst(later), later[1..]);
    }
  }

  lemma PartEventsPrinted(c: Config, p: FormPart)
    requires c.Valid() && PrintablePart(c, p)
    ensures ClosedEvents(Classify(PrintPart(p), true)) == [Begin(p.headers)] + DataEvents(p.data) + [EndPart]
  {
    hide Find, PrintPart, Classify, StripBreak, DataEvents;
    PartPrinted(c, p, [], true);
    assert PrintPart(p) + [] == PrintPart(p) && p.data + CRLF + [] == p.data + CRLF;
    StripPrinted(p.data);
  }

  lemma BodyMeans(c: Config, parts: seq<FormPart>)
    requires c.Valid() && PrintableParts(c, parts)
    ensures var s := MakeBody(c.token, parts);
      && FinalMessageEvents(c.token, s) == PartEvents(parts)
      && MessageCloses(c.token, s)
      && !MessageEndsAtToken(c.token, s)
  {
    hide Find, Cut, Classify, FinalEventsFrom, ClosesFrom, EndsAtTokenFrom, Undecided;
    BodyStarts(c.token, parts);
    PrintedMeans(c, parts);
    var rest := Behind(c.token, parts);
    TokenFirstCut(c, rest);
    var all, pieces := Cut(MakeBody(c.token, parts), c.token), Cut(rest, c.token);
    assert all == [all[0]] + pieces;
    assert all[2..] == pieces[1..];
  }

  // ----- every prefix of a printed body fits the limits

  /** The printed header block, with its boundary line break and its blank line, is within the total
      limit, its lines within the line limit, and there are not too many of them. */
  predicate PartFits(c: Config, p: FormPart) {
    && Fits(c, 2 + |PrintHeaders(p.headers)| + 2)
    && |p.headers| <= c.maxHeaderCount
    && forall k :: 0 <= k < |p.headers| ==> |HeaderLine(p.headers[k])| <= c.maxHeaderSize
  }

  predicate PartsFit(c: Config, parts: seq<FormPart>) {
    forall k :: 0 <= k < |parts| ==> PartFits(c, parts[k])
  }

  lemma FreeOfShort(c: Config, s: Bytes, n: nat)
    requires c.Valid() && n <= |s| < n + |c.token|
    requires forall k :: 0 <= k < n ==> !At(s, c.token, k)
    ensures Cut(s, c.token) == [s]
  {
    hide Find;
    FindFits(s, c.token);
    CutNone(c, s);
  }

  // ----- header lines of a printed part, whole or truncated

  /** Whole: the lines fit exactly if they are short enough and not too many. */
  lemma {:induction false} RoomForHeaders(c: Config, n: nat, headers: Headers, rest: Bytes, open: bool)
    requires forall k :: 0 <= k < |headers| ==> Printable(c, headers[k])
    requires n <= c.maxHeaderCount
    ensures RoomFor(c, n, PrintHeaders(headers) + CRLF + rest, open) <==>
      n + |headers| <= c.maxHeaderCount && forall k :: 0 <= k < |headers| ==> |HeaderLine(headers[k])| <= c.maxHeaderSize
    decreases |headers|
  {
    hide Find, LineHeader, HeaderLine, HeaderRetained;
    var piece := PrintHeaders(headers) + CRLF + rest;
    if headers == [] {
      assert piece == [] + CRLF + rest;
      EmptyBlock();
      FirstBreak([], rest);
    } else {
      var line := HeaderLine(headers[0]);
      var more := PrintHeaders(headers[1..]) + CRLF + rest;
      assert piece == line + CRLF + more;
      LineGivesHeader(c, headers[0]);
      FirstBreak(line, more);
      assert piece[..|line|] == line && piece[|line| + 2..] == more;
      if n < c.maxHeaderCount {
        RoomForHeaders(c, n + 1, headers[1..], rest, open);
        assert forall k :: 1 <= k < |headers| ==> headers[k] == headers[1..][k - 1];
      }
    }
  }

  lemma LineRoom(c: Config, line: Bytes, a: Bytes, n: nat)
    requires OneLine(line) && a <= line + CRLF && |a| < |line| + 2 && |line| <= c.maxHeaderSize
    ensures RoomFor(c, n, a, true)
  {
    hide Find, LineHeader;
    var s := line + CRLF + [];
    assert s == line + CRLF;
    FirstBreak(line, []);
    assert s[..|a|] == a;
    FindTake(s, CRLF, |a|);
    if |a| == |line| + 1 { assert a[|line|] == CR; }
  }

  /** Truncated: any prefix of lines that fit still fits. */
  lemma {:induction false} RoomForPrefix(c: Config, n: nat, headers: Headers, rest: Bytes, a: Bytes)
    requires forall k :: 0 <= k < |headers| ==> Printable(c, headers[k]) && |HeaderLine(headers[k])| <= c.maxHeaderSize
    requires n + |headers| <= c.maxHeaderCount && a <= PrintHeaders(headers) + CRLF + rest
    ensures RoomFor(c, n, a, true)
    decreases |headers|
  {
    hide Find, LineHeader, HeaderLine, HeaderRetained;
    var piece := PrintHeaders(headers) + CRLF + rest;
    assert a == piece[..|a|];
    if headers == [] {
      EmptyBlock();
      assert piece == [] + CRLF + rest;
      if |a| < 2 {
        assert a <= [] + CRLF;
        LineRoom(c, [], a, n);
      } else {
        assert a == [] + CRLF + a[2..];
        FirstBreak([], a[2..]);
      }
    } else {
      var line := HeaderLine(headers[0]);
      var more := PrintHeaders(headers[1..]) + CRLF + rest;
      assert piece == line + CRLF + more;
      LineGivesHeader(c, headers[0]);
      if |a| < |line| + 2 {
        assert a == (line + CRLF)[..|a|];
        LineRoom(c, line, a, n);
      } else {
        var tail := a[|line| + 2..];
        assert a == line + CRLF + tail && tail == more[..|tail|];
        FirstBreak(line, tail);
        assert a[..|line|] == line;
        RoomForPrefix(c, n + 1, headers[1..], rest, tail);
      }
    }
  }

  /** A printed part, closed by a token or followed by anything, fits the limits exactly if its header
      block, lines and headers do. */
  lemma PartFitsIff(c: Config, p: FormPart, rest: Bytes, open: bool)
    requires PrintablePart(c, p)
    ensures PieceFits(c, ForFeeding, PrintPart(p) + rest, open) <==> PartFits(c, p)
  {
    hide Find, RoomFor, PrintHeaders, HeaderLine, HeaderLines, RestCost;
    var body := p.data + CRLF + rest;
    var block := PrintHeaders(p.headers) + CRLF + body;
    assert PrintPart(p) + rest == [] + CRLF + block;
    OpenedAfterPadding([], block);
    HeadersPrinted(c, p.headers, body);
    RoomForHeaders(c, 0, p.headers, body, open);
  }

  /** A truncated block costs no more than the whole. */
  lemma CostOfPrefix(a: Bytes, b: Bytes)
    requires a <= b
    ensures RestCost(a) <= RestCost(b)
  {
    assert (CRLF + b)[..|CRLF + a|] == CRLF + a;
    FindTake(CRLF + b, BLANK, |CRLF + a|);
  }

  /** A prefix of a printed part, whatever follows the part, fits if the part does. */
  lemma PartPrefixFits(c: Config, p: FormPart, rest: Bytes, x: Bytes)
    requires PrintablePart(c, p) && PartFits(c, p) && x <= PrintPart(p) + rest && |x| >= 2
    ensures PieceFits(c, ForFeeding, x, true) && !Undecided(x)
  {
    hide Find, RoomFor, PrintHeaders, HeaderLine, RestCost, HeaderSegment, Undecided, LineHeader, HeaderRetained;
    var body := p.data + CRLF + rest;
    var block := PrintHeaders(p.headers) + CRLF + body;
    var a := x[2..];
    assert PrintPart(p) + rest == CRLF + block by { PartShape(p, rest); }
    assert x == (CRLF + block)[..|x|];
    assert x == [] + CRLF + a && a == block[..|a|];
    OpenedAfterPadding([], a);
    HeadersPrinted(c, p.headers, body);
    CostOfPrefix(a, block);
    RoomForPrefix(c, 0, p.headers, body, a);
    BreakIsDecided(x);
  }

  lemma BreakIsDecided(x: Bytes)
    requires CRLF <= x
    ensures !Undecided(x)
  {
    assert x[0] == CR && x[1] == LF;
    if |x| > 2 { assert x[..|x| - 1][0] == CR; }
  }

  lemma PartShape(p: FormPart, rest: Bytes)
    ensures PrintPart(p) + rest == CRLF + (PrintHeaders(p.headers) + CRLF + (p.data + CRLF + rest))
  {
  }

  /** A prefix that ends inside the epilogue. */
  lemma EpiloguePrefixFits(c: Config, before: Before, x: Bytes)
    requires c.Valid() && x <= EPILOGUE && Fits(c, |EPILOGUE|)
    ensures LimitsFit(c, ForFeeding, before, Cut(x, c.token))
  {
    hide Find, Cut, BlockFits;
    NoTokenInEpilogue(c, x);
    CutNone(c, x);
    EpiloguePlain(x);
  }

  lemma EpiloguePlain(x: Bytes)
    requires x <= EPILOGUE
    ensures !Opened(x) && Find(x, BLANK).None?
  {
    hide Find;
    NoBlankInEpilogue(x);
    if x != [] { PaddingStops(x, 0); }
  }

  lemma NoBlankInEpilogue(x: Bytes)
    requires x <= EPILOGUE
    ensures Find(x, BLANK).None?
  {
    hide Find;
    if Find(x, BLANK).Some? {
      var k := Find(x, BLANK).value;
      FindFits(x, BLANK);
      AtByte(x, BLANK, k, 0);
    }
  }

  lemma NoTokenInEpilogue(c: Config, x: Bytes)
    requires c.Valid() && x <= EPILOGUE
    ensures Find(x, c.token).None?
  {
    forall k: nat | At(x, c.token, k) ensures false {
      assert x == EPILOGUE[..|x|];
      if |x| > 2 { TokenHasNoBreak(c, x, k, 2); }
    }
  }

  lemma {:induction false} PrefixFits(c: Config, before: Before, parts: seq<FormPart>, x: Bytes)
    requires c.Valid() && PrintableParts(c, parts) && PartsFit(c, parts) && Fits(c, |EPILOGUE|)
    requires x <= Behind(c.token, parts)
    ensures LimitsFit(c, ForFeeding, before, Cut(x, c.token))
    decreases |parts|
  {
    hide Find, Cut, PrintPart, PieceFits, At, PrintHeaders, HeaderLine, Undecided, BeforeToken;
    if parts == [] {
      EpiloguePrefixFits(c, before, x);
    } else {
      var p, more := parts[0], parts[1..];
      var printed := PrintPart(p);
      assert x == Behind(c.token, parts)[..|x|];
      if |x| < |printed| + |c.token| {
        ShortPrefixFits(c, before, p, MakeBody(c.token, more), x);
      } else {
        var y := x[|printed| + |c.token|..];
        BodyStarts(c.token, more);
        var rest := Behind(c.token, more);
        assert Behind(c.token, parts) == printed + c.token + rest;
        assert x == printed + (c.token + y) && y <= rest;
        PrefixFits(c, BeforeToken(printed), more, y);
        PartCut(c, p, y);
        PartFitsIff(c, p, [], false);
        assert printed + [] == printed;
      }
    }
  }

  lemma ShortPrefixFits(c: Config, before: Before, p: FormPart, rest: Bytes, x: Bytes)
    requires c.Valid() && PrintablePart(c, p) && PartFits(c, p) && Fits(c, |EPILOGUE|)
    requires x <= PrintPart(p) + rest && |x| < |PrintPart(p)| + |c.token|
    ensures LimitsFit(c, ForFeeding, before, Cut(x, c.token))
  {
    hide Find, Cut, PrintPart, PieceFits, PrintHeaders, HeaderLine;
    var s := PrintPart(p) + rest;
    var n := if |x| < |PrintPart(p)| then |x| else |PrintPart(p)|;
    FreePart(c, p, rest);
    assert x == s[..|x|];
    forall k | 0 <= k < n ensures !At(x, c.token, k) { AtTake(s, c.token, |x|, k); }
    FreeOfShort(c, x, n);
    if |x| >= 2 {
      PartPrefixFits(c, p, rest, x);
    } else if |x| == 1 {
      PartShape(p, rest);
      assert x[0] == CR && x[..0] == [];
    }
  }

  lemma BodyPrefixFits(c: Config, parts: seq<FormPart>, s: Bytes)
    requires c.Valid() && PrintableParts(c, parts) && PartsFit(c, parts) && Fits(c, |EPILOGUE|)
    requires s <= MakeBody(c.token, parts)
    ensures StreamFits(c, ForFeeding, s)
  {
    hide Find, Cut, Behind, LimitsFit, MakeBody;
    BodyStarts(c.token, parts);
    var body := Behind(c.token, parts);
    assert s == (c.token + body)[..|s|];
    if |s| < |c.token| {
      NoRoomForToken(c, s);
    } else {
      var x := s[|c.token|..];
      assert s == c.token + x && x == body[..|x|];
      TokenFirstCut(c, x);
      PrefixFits(c, LineBreak, parts, x);
    }
  }

  /** The whole body fits only if every part and the epilogue do, and its end is never refused. */
  lemma {:induction false} PiecesFitIff(c: Config, before: Before, parts: seq<FormPart>)
    requires c.Valid() && PrintableParts(c, parts)
    ensures var pieces := Cut(Behind(c.token, parts), c.token);
      && LimitsFit(c, ForEnding, before, pieces)
      && (LimitsFit(c, ForFeeding, before, pieces) ==> PartsFit(c, parts) && Fits(c, |EPILOGUE|))
    decreases |parts|
  {
    hide Find, PrintPart, Cut, BeforeToken, Undecided, PartFits;
    if parts == [] {
      EpilogueCut(c);
      EpiloguePlain(EPILOGUE);
    } else {
      var p, more := parts[0], parts[1..];
      BodyStarts(c.token, more);
      PartCut(c, p, Behind(c.token, more));
      PiecesFitIff(c, BeforeToken(PrintPart(p)), more);
      PartFitsIff(c, p, [], false);
      assert PrintPart(p) + [] == PrintPart(p);
      assert forall k :: 1 <= k < |parts| ==> parts[k] == more[k - 1];
    }
  }

  // ----- main results

  predicate BodyFits(c: Config, parts: seq<FormPart>) {
    && SizeFits(c, |MakeBody(c.token, parts)|)
    && (parts == [] ==> Fits(c, |EPILOGUE|))
    && PartsFit(c, parts)
  }

  lemma FittingEpilogue(c: Config, parts: seq<FormPart>)
    requires BodyFits(c, parts)
    ensures Fits(c, |EPILOGUE|)
  {
    if parts != [] { assert PartFits(c, parts[0]); }
  }

  /** Every chunking of a printed body is accepted, or none. */
  lemma BodyAcceptedIff(c: Config, parts: seq<FormPart>, chunks: seq<Bytes>)
    requires c.Valid() && PrintableParts(c, parts) && Concat(chunks) == MakeBody(c.token, parts)
    ensures FeedAll(c, FRESH, chunks).Done? <==> BodyFits(c, parts)
    ensures BodyFits(c, parts) ==> FeedEof(c, FeedAll(c, FRESH, chunks).machine).Done?
  {
    hide FeedAll, FeedEof, Concat, MakeBody, Cut, PrintableParts, PartsFit, LimitsFit, Fits, Behind;
    var s := MakeBody(c.token, parts);
    AcceptedIff(c, chunks);
    assert chunks[..|chunks|] == chunks;
    BodyStarts(c.token, parts);
    TokenFirstCut(c, Behind(c.token, parts));
    PiecesFitIff(c, LineBreak, parts);
    if BodyFits(c, parts) {
      FittingEpilogue(c, parts);
      forall k | 0 <= k <= |chunks| ensures FitsExactly(c, Concat(chunks[..k])) {
        ConcatPrefix(chunks, k);
        BodyPrefixFits(c, parts, Concat(chunks[..k]));
      }
      EofIff(c, chunks);
    }
  }

  /** Round trip: for every chunking of a printed body, the parser finishes with exactly the printed
      parts if and only if the body fits the size limit, every part fits the three header limits, and
      the epilogue of a body without parts fits the total limit. */
  lemma RoundTripIff(c: Config, parts: seq<FormPart>, chunks: seq<Bytes>)
    requires c.Valid() && PrintableParts(c, parts) && Concat(chunks) == MakeBody(c.token, parts)
    ensures ParseChunks(c, chunks) == Parsed(PartEvents(parts), FinishOk) <==> BodyFits(c, parts)
  {
    hide FeedAll, Feed, FeedEof, Concat, MakeBody, PrintableParts, BodyFits, FinalMessageEvents, MessageCloses,
      MessageEndsAtToken, MessageEvents, ParseFrom;
    BodyAcceptedIff(c, parts, chunks);
    ParseIsFeedAll(c, FRESH, chunks, []);
    if BodyFits(c, parts) {
      ParseMeans(c, chunks);
      BodyMeans(c, parts);
    }
  }

  /** Header bytes of a part: each name and value with ": " between them and a line break behind. */
  function HeaderBytes(headers: Headers): nat {
    if headers == [] then 0 else |headers[0].0| + 2 + |headers[0].1| + 2 + HeaderBytes(headers[1..])
  }

  lemma {:induction false} HeadersCost(headers: Headers)
    ensures |PrintHeaders(headers)| == HeaderBytes(headers) >= 4 * |headers|
    ensures forall k :: 0 <= k < |headers| ==> |HeaderLine(headers[k])| <= |PrintHeaders(headers)|
    decreases |headers|
  {
    if headers != [] {
      HeadersCost(headers[1..]);
      assert forall k :: 1 <= k < |headers| ==> headers[k] == headers[1..][k - 1];
    }
  }

  /** Under the adapter's limits only the total limit is left in the condition. */
  lemma AdapterRoundTripIff(c: Config, parts: seq<FormPart>, chunks: seq<Bytes>)
    requires c.maxSize.None? && Subsumes(c, c)
    requires PrintableParts(c, parts) && Concat(chunks) == MakeBody(c.token, parts)
    ensures ParseChunks(c, chunks) == Parsed(PartEvents(parts), FinishOk) <==>
      && (parts == [] ==> 4 <= c.maxTotal.value)
      && forall k :: 0 <= k < |parts| ==> 4 + HeaderBytes(parts[k].headers) <= c.maxTotal.value
  {
    hide Concat, MakeBody, PrintableParts, ParseFrom, PartEvents, PrintHeaders, HeaderLine;
    RoundTripIff(c, parts, chunks);
    forall k | 0 <= k < |parts|
      ensures PartFits(c, parts[k]) <==> 4 + HeaderBytes(parts[k].headers) <= c.maxTotal.value
    {
      HeadersCost(parts[k].headers);
    }
  }
}
