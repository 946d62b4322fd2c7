/** What a whole multipart message means, without buffers, chunks or parser states: cut the stream
    at every boundary token and classify each piece by its first blank line. */
module Segments {
  import opened Bytes
  import opened Machines

  /** The stream cut at its leftmost non-overlapping tokens. */
  function Cut(s: Bytes, token: Bytes): (r: seq<Bytes>)
    requires token != []
    ensures r != []
    decreases |s|
  {
    match Find(s, token)
    case None => [s]
    case Some(i) => [s[..i]] + Cut(s[i + |token|..], token)
  }

  function Join(pieces: seq<Bytes>, token: Bytes): Bytes
    requires pieces != []
  {
    if |pieces| == 1 then pieces[0] else pieces[0] + token + Join(pieces[1..], token)
  }

  predicate AllPadding(s: Bytes) { forall k :: 0 <= k < |s| ==> IsPadding(s[k]) }

  /** At the end of the input, too little follows a token to tell what kind of boundary it is. */
  predicate Undecided(tail: Bytes) {
    || tail == [DASH]
    || AllPadding(tail)
    || (tail != [] && tail[|tail| - 1] == CR && AllPadding(tail[..|tail| - 1]))
  }

  /** The headers of all lines of a header block. */
  function HeaderLines(text: Bytes): Headers
    decreases |text|
  {
    match Find(text, CRLF)
    case None => LineHeader(text)
    case Some(i) => LineHeader(text[..i]) + HeaderLines(text[i + 2..])
  }

  datatype Segment = Part(headers: Headers, body: Bytes) | Closing | Stray

  /** The piece between two tokens, or after the last one: it has a blank line, or it follows a
      closing boundary, or neither. */
  function Classify(piece: Bytes, followed: bool): Segment {
    match Find(piece, BLANK)
    case Some(i) => Part(HeaderLines(piece[..i]), piece[i + 4..])
    case None => if DASHES <= (if followed then piece + DASHES else piece) then Closing else Stray
  }

  /** A body without the line break that belongs to the next boundary. */
  function StripBreak(body: Bytes): Bytes {
    var s := if body != [] && body[|body| - 1] == LF then body[..|body| - 1] else body;
    if s != [] && s[|s| - 1] == CR then s[..|s| - 1] else s
  }

  /** A segment closed by a boundary token: a part if its body has at least one byte. */
  function ClosedEvents(seg: Segment): seq<Event> {
    if seg.Part? && seg.body != [] then [Begin(seg.headers)] + DataEvents(StripBreak(seg.body)) + [EndPart]
    else [Raw]
  }

  /** A segment closed by a token whose kind is undecided: the part stays open. */
  function TruncatedEvents(seg: Segment): seq<Event> {
    if seg.Part? && seg.body != [] then [Begin(seg.headers)] + DataEvents(StripBreak(seg.body)) else []
  }

  /** An open last segment: all but the bytes that a boundary and its line break may still claim. */
  function OpenEvents(token: Bytes, seg: Segment): seq<Event> {
    if !seg.Part? || (|seg.body| < |token| && seg.body <= token) then []
    else
      var held := |token| + 1;
      [Begin(seg.headers)] + (if |seg.body| > held then DataEvents(seg.body[..|seg.body| - held]) else [])
  }

  /** The events of `seg` and of the pieces `later` that follow it. */
  function EventsFrom(token: Bytes, seg: Segment, later: seq<Bytes>): seq<Event>
    decreases |later|
  {
    if later == [] then OpenEvents(token, seg)
    else if |later| == 1 && Undecided(later[0]) then TruncatedEvents(seg)
    else ClosedEvents(seg) + EventsFrom(token, Classify(later[0], |later| > 1), later[1..])
  }

  /** Everything that feeding `s` must announce; the text before the first token is skipped. */
  function MessageEvents(token: Bytes, s: Bytes): seq<Event>
    requires token != []
  {
    var pieces := Cut(s, token);
    if |pieces| == 1 || (|pieces| == 2 && Undecided(pieces[1])) then []
    else EventsFrom(token, Classify(pieces[1], |pieces| > 2), pieces[2..])
  }

  /** The same once the input has ended: an open body is flushed, an undecided token ends its part. */
  function FinalEventsFrom(seg: Segment, later: seq<Bytes>): seq<Event>
    decreases |later|
  {
    if later == [] then
      if seg.Part? then [Begin(seg.headers)] + DataEvents(seg.body) else []
    else if |later| == 1 && Undecided(later[0]) then
      if seg.Part? && seg.body != [] then ClosedEvents(seg) else []
    else ClosedEvents(seg) + FinalEventsFrom(Classify(later[0], |later| > 1), later[1..])
  }

  function FinalMessageEvents(token: Bytes, s: Bytes): seq<Event>
    requires token != []
  {
    var pieces := Cut(s, token);
    if |pieces| == 1 || (|pieces| == 2 && Undecided(pieces[1])) then []
    else FinalEventsFrom(Classify(pieces[1], |pieces| > 2), pieces[2..])
  }

  /** The last decided boundary closed the message, or the input ends right after a part's token. */
  predicate ClosesFrom(seg: Segment, later: seq<Bytes>)
    decreases |later|
  {
    if later == [] then seg.Closing?
    else if |later| == 1 && Undecided(later[0]) then
      seg.Closing? || (seg.Part? && seg.body != [] && later[0] == [])
    else ClosesFrom(Classify(later[0], |later| > 1), later[1..])
  }

  predicate MessageCloses(token: Bytes, s: Bytes)
    requires token != []
  {
    var pieces := Cut(s, token);
    && !(|pieces| == 1 || (|pieces| == 2 && Undecided(pieces[1])))
    && ClosesFrom(Classify(pieces[1], |pieces| > 2), pieces[2..])
  }

  /** The input ends right after the token that closes a part with a body. */
  predicate EndsAtTokenFrom(seg: Segment, later: seq<Bytes>)
    decreases |later|
  {
    if later == [] then false
    else if |later| == 1 && Undecided(later[0]) then seg.Part? && seg.body != [] && later[0] == []
    else EndsAtTokenFrom(Classify(later[0], |later| > 1), later[1..])
  }

  predicate MessageEndsAtToken(token: Bytes, s: Bytes)
    requires token != []
  {
    var pieces := Cut(s, token);
    && !(|pieces| == 1 || (|pieces| == 2 && Undecided(pieces[1])))
    && EndsAtTokenFrom(Classify(pieces[1], |pieces| > 2), pieces[2..])
  }

  // ----- the cut is a decomposition of the stream

  lemma {:induction false} CutJoins(s: Bytes, token: Bytes)
    requires token != []
    ensures Join(Cut(s, token), token) == s
    ensures forall k :: 0 <= k < |Cut(s, token)| ==> Find(Cut(s, token)[k], token) == None
    decreases |s|
  {
    hide Find;
    var r := Cut(s, token);
    match Find(s, token)
    case None =>
      assert r == [s];
    case Some(i) =>
      var rest := s[i + |token|..];
      CutJoins(rest, token);
      FindTake(s, token, i);
      assert r[1..] == Cut(rest, token);
      assert s == s[..i] + token + rest;
      forall k | 0 <= k < |r| ensures Find(r[k], token) == None {
        if k > 0 { assert r[k] == Cut(rest, token)[k - 1]; }
      }
  }

  // ----- independent characterisations of the scanning helpers

  lemma PaddingAll(tail: Bytes)
    requires AllPadding(tail)
    ensures PaddingLength(tail) == |tail|
  {
    var n := PaddingLength(tail);
  }

  lemma PaddingStops(tail: Bytes, n: nat)
    requires n < |tail| && !IsPadding(tail[n]) && AllPadding(tail[..n])
    ensures PaddingLength(tail) == n
  {
    var r := PaddingLength(tail);
    assert forall k :: 0 <= k < n ==> IsPadding(tail[k]) by {
      assert forall k :: 0 <= k < n ==> tail[..n][k] == tail[k];
    }
  }

  /** The suffix scanner asks for more exactly on undecided tails. */
  lemma UndecidedIff(tail: Bytes)
    ensures DelimiterSuffix(tail).Incomplete? <==> Undecided(tail)
  {
    if tail != [] && tail[0] != DASH {
      var n := PaddingLength(tail);
      if AllPadding(tail) {
        PaddingAll(tail);
      } else if tail[|tail| - 1] == CR && AllPadding(tail[..|tail| - 1]) {
        PaddingStops(tail, |tail| - 1);
        assert tail[n..] == [CR];
      }
    } else if tail != [] {
      assert !IsPadding(tail[0]);
      if |tail| > 1 { assert tail[..|tail| - 1][0] == tail[0]; }
      if |tail| > 1 && DASHES <= tail { assert tail[1] == DASHES[1]; }
    }
  }

  lemma StripBreakIs(buffer: Bytes, i: nat)
    requires i <= |buffer|
    ensures StripBreak(buffer[..i]) == buffer[..BodyDataEnd(buffer, i)]
  {
  }
}
