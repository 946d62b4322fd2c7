/** Event lists up to the joining of adjacent data events, the form in which two runs are compared. */
module Events {
  import opened Machines

  function AppendOne(out: seq<Event>, e: Event): seq<Event> {
    if e.Data? && out != [] && out[|out| - 1].Data? then
      out[..|out| - 1] + [Data(out[|out| - 1].data + e.data)]
    else out + [e]
  }

  /** `events` appended to `out`, each data event joining a data event before it. */
  function AppendEvents(out: seq<Event>, events: seq<Event>): seq<Event> {
    if events == [] then out
    else AppendOne(AppendEvents(out, events[..|events| - 1]), events[|events| - 1])
  }

  function Coalesce(events: seq<Event>): seq<Event> { AppendEvents([], events) }

  predicate Same(a: seq<Event>, b: seq<Event>) { Coalesce(a) == Coalesce(b) }

  lemma {:induction false} AppendSplit(out: seq<Event>, a: seq<Event>, b: seq<Event>)
    ensures AppendEvents(out, a + b) == AppendEvents(AppendEvents(out, a), b)
    decreases |b|
  {
    if b == [] {
      assert a + b == a;
    } else {
      var n := |b| - 1;
      assert (a + b)[..|a + b| - 1] == a + b[..n];
      AppendSplit(out, a, b[..n]);
    }
  }

  lemma AppendOneTwice(out: seq<Event>, z: seq<Event>, e: Event)
    ensures AppendEvents(out, AppendOne(z, e)) == AppendOne(AppendEvents(out, z), e)
  {
    if e.Data? && z != [] && z[|z| - 1].Data? {
      var front, last := z[..|z| - 1], z[|z| - 1];
      var out1 := AppendEvents(out, front);
      assert AppendEvents(out, z) == AppendOne(out1, last);
      assert AppendOne(z, e)[..|z| - 1] == front;
      assert AppendEvents(out, AppendOne(z, e)) == AppendOne(out1, Data(last.data + e.data));
      if out1 != [] && out1[|out1| - 1].Data? {
        var d := out1[|out1| - 1].data;
        assert d + (last.data + e.data) == (d + last.data) + e.data;
      }
    } else {
      assert (z + [e])[..|z|] == z;
    }
  }

  /** Joining first and appending later is the same as appending directly. */
  lemma {:induction false} AppendCoalesced(out: seq<Event>, events: seq<Event>)
    ensures AppendEvents(out, events) == AppendEvents(out, Coalesce(events))
    decreases |events|
  {
    if events != [] {
      var front, last := events[..|events| - 1], events[|events| - 1];
      AppendCoalesced(out, front);
      AppendOneTwice(out, Coalesce(front), last);
    }
  }

  lemma SameConcat(a: seq<Event>, b: seq<Event>, x: seq<Event>, y: seq<Event>)
    requires Same(a, b) && Same(x, y)
    ensures Same(a + x, b + y)
  {
    hide AppendEvents;
    AppendSplit([], a, x);
    AppendSplit([], b, y);
    AppendCoalesced(Coalesce(a), x);
    AppendCoalesced(Coalesce(b), y);
  }

  lemma SamePrefix(a: seq<Event>, x: seq<Event>, y: seq<Event>)
    requires Same(x, y)
    ensures Same(a + x, a + y)
  {
    SameConcat(a, a, x, y);
  }
}
