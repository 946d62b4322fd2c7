/** How much input a waiting parser holds back. */
module Retention {
  import opened Bytes
  import opened Machines
  import opened Chunking
  import opened Segments

  function Max(a: int, b: int): int { if a > b then a else b }

  /** The buffer is a token behind which the kind of boundary is still undecided. */
  predicate AwaitsSuffix(c: Config, buffer: Bytes)
    requires c.Valid()
  {
    c.token <= buffer && Undecided(buffer[|c.token|..])
  }

  /** The bound of every state, with `t` the total header limit. */
  predicate Bounded(c: Config, m: Machine, t: nat)
    requires c.Valid()
  {
    match m.state
    case Preamble => |m.buffer| <= |c.token| + Max(1, t)
    case Body => |m.buffer| <= |c.token| + 2 + Max(1, t)
    case Header =>
      |m.buffer| <= Min(c.maxHeaderSize, t - m.headerSize) + |c.token| - 1 || AwaitsSuffix(c, m.buffer)
    case _ => |m.buffer| <= t || AwaitsSuffix(c, m.buffer)
  }

  function Min(a: int, b: int): int { if a < b then a else b }

  lemma RawBoundaryBounded(c: Config, m: Machine, i: nat, t: nat)
    requires c.Valid() && At(m.buffer, c.token, i)
    ensures var s := StepRawBoundary(c, m, i); s.Wait? ==> AwaitsSuffix(c, s.machine.buffer)
  {
    hide DelimiterSuffix, Enter, Undecided;
    var tail := m.buffer[i + |c.token|..];
    UndecidedIff(tail);
    assert m.buffer[i..][..|c.token|] == m.buffer[i..i + |c.token|];
    assert m.buffer[i..][|c.token|..] == tail;
  }

  /** An undecided suffix that passed the prefix check is short. */
  lemma PrefixBounded(c: Config, m: Machine, tail: Bytes)
    requires c.Valid() && c.maxTotal.Some? && Undecided(tail) && !PrefixTooLong(c, m, tail)
    ensures |tail| <= Max(1, c.maxTotal.value)
  {
    if tail != [] {
      var front := tail[..|tail| - 1];
      assert |front| > 0 ==> front[0] == tail[0];
    }
  }

  lemma PreambleBounded(c: Config, m: Machine)
    requires c.Valid() && c.maxTotal.Some? && m.state.Preamble?
    ensures var s := StepPreamble(c, m); s.Wait? ==> Bounded(c, s.machine, c.maxTotal.value)
  {
    hide Find, DelimiterSuffix, Enter, Undecided, PrefixTooLong;
    var found := Find(m.buffer, c.token);
    if found.Some? {
      var tail := m.buffer[found.value + |c.token|..];
      UndecidedIff(tail);
      if Undecided(tail) && !PrefixTooLong(c, m, tail) { PrefixBounded(c, m, tail); }
    }
  }

  lemma OpenBodyBounded(c: Config, m: Machine, begun: seq<Event>)
    requires c.Valid() && c.maxTotal.Some? && m.state.Body?
    ensures var s := StepOpenBody(c, m, begun); s.Wait? ==> Bounded(c, s.machine, c.maxTotal.value)
  {
    hide Find, DelimiterSuffix, Enter, Undecided, PrefixTooLong, BodyDataEnd, DataEvents;
    var found := Find(m.buffer, c.token);
    if found.Some? {
      var tail := m.buffer[found.value + |c.token|..];
      UndecidedIff(tail);
      if Undecided(tail) && !PrefixTooLong(c, m, tail) { PrefixBounded(c, m, tail); }
    }
  }

  lemma HeaderBounded(c: Config, m: Machine)
    requires c.Valid() && c.maxTotal.Some? && m.state.Header?
    ensures var s := StepHeader(c, m); s.Wait? ==> Bounded(c, s.machine, c.maxTotal.value)
  {
    hide Find, StepRawBoundary, LineHeader, Undecided, PartialSuffixLength;
    var boundary := Find(m.buffer, c.token);
    if boundary.Some? {
      var cleared := m.(headers := [], headerSize := 0);
      RawBoundaryBounded(c, cleared, boundary.value, c.maxTotal.value);
      RawBoundaryState(c, cleared, boundary.value);
    }
    PartialBound(c, m.buffer);
  }

  lemma PartialBound(c: Config, buffer: Bytes)
    requires c.Valid()
    ensures PartialSuffixLength(buffer, c.token) < |c.token|
  {
  }

  lemma BodyBounded(c: Config, m: Machine)
    requires c.Valid() && c.maxTotal.Some? && m.state.Body?
    ensures var s := StepBody(c, m); s.Wait? ==> Bounded(c, s.machine, c.maxTotal.value)
  {
    hide Find, StepRawBoundary, StepOpenBody, Undecided;
    var released := m.(headers := [], headerSize := 0, pending := false);
    if m.pending && c.token <= m.buffer {
      assert At(m.buffer, c.token, 0);
      RawBoundaryBounded(c, released.(state := Discard), 0, c.maxTotal.value);
      RawBoundaryState(c, released.(state := Discard), 0);
    }
    OpenBodyBounded(c, released, [Begin(m.headers)]);
    OpenBodyBounded(c, m, []);
  }

  lemma RawSegmentBounded(c: Config, m: Machine)
    requires c.Valid() && c.maxTotal.Some? && (m.state.Discard? || m.state.End?)
    ensures var s := StepRawSegment(c, m); s.Wait? ==> Bounded(c, s.machine, c.maxTotal.value)
  {
    hide Find, StepRawBoundary, Undecided;
    var boundary := Find(m.buffer, c.token);
    if boundary.Some? {
      RawBoundaryBounded(c, m, boundary.value, c.maxTotal.value);
      RawBoundaryState(c, m, boundary.value);
    }
  }

  lemma StepBounded(c: Config, m: Machine)
    requires c.Valid() && c.maxTotal.Some?
    ensures var s := StepOnce(c, m); s.Wait? ==> Bounded(c, s.machine, c.maxTotal.value)
  {
    hide StepPreamble, StepHeader, StepBody, StepRawSegment, Bounded;
    match m.state
    case Preamble => PreambleBounded(c, m);
    case Header => HeaderBounded(c, m);
    case Body => BodyBounded(c, m);
    case _ => RawSegmentBounded(c, m);
  }

  /** Bounded retention: whatever one call is given, what stays buffered after it is bounded by the
      limits, except behind a token whose padding has not ended. */
  lemma {:induction false} RunBounded(c: Config, m: Machine)
    requires c.Valid() && c.maxTotal.Some?
    ensures var o := Run(c, m); o.Done? ==> Bounded(c, o.machine, c.maxTotal.value)
    decreases Measure(m)
  {
    hide StepOnce, Bounded, Measure;
    StepDecreases(c, m);
    StepBounded(c, m);
    if StepOnce(c, m).Progress? { RunBounded(c, StepOnce(c, m).machine); }
  }

  /** The exception is real: behind a headerless segment any amount of padding is held back. */
  lemma PaddingUnbounded(c: Config, m: Machine, n: nat)
    requires c.Valid() && m.state.Discard? && m.buffer == c.token + seq(n, _ => SPACE)
    ensures Run(c, m) == Done(m, [])
  {
    hide Find, DelimiterSuffix, Undecided;
    var tail := seq(n, _ => SPACE);
    assert AllPadding(tail);
    PaddingUndecided(tail);
    assert m.buffer[0..|c.token|] == c.token && m.buffer[0 + |c.token|..] == tail;
    FindAtStart(c, m.buffer);
    if Find(m.buffer, BLANK).Some? { TokenIsNotBreak(c, m.buffer, BLANK); }
    UndecidedIff(tail);
    assert m.buffer[0..] == m.buffer;
  }

  lemma PaddingUndecided(tail: Bytes)
    requires AllPadding(tail)
    ensures Undecided(tail)
  {
  }
}
