/** Byte strings and leftmost search: the vocabulary shared by the whole project. */
module Bytes {
  newtype byte = x: int | 0 <= x < 0x100
  type Bytes = seq<byte>

  datatype Option<+T> = None | Some(value: T)

  const TAB: byte := 9
  const LF: byte := 10
  const CR: byte := 13
  const SPACE: byte := 32
  const DASH: byte := 45
  const COLON: byte := 58
  const CRLF: Bytes := [13, 10]
  const BLANK: Bytes := [13, 10, 13, 10]
  const DASHES: Bytes := [45, 45]

  /** `t` occurs in `s` at offset `i`. */
  predicate At(s: Bytes, t: Bytes, i: int) {
    0 <= i && i + |t| <= |s| && s[i..i + |t|] == t
  }

  predicate IsFirst(s: Bytes, t: Bytes, i: int) {
    At(s, t, i) && forall k :: 0 <= k < i ==> !At(s, t, k)
  }

  lemma {:induction false} FirstExists(s: Bytes, t: Bytes, k: int)
    requires At(s, t, k)
    ensures exists i :: 0 <= i <= |s| && IsFirst(s, t, i)
    decreases k
  {
    if j :| 0 <= j < k && At(s, t, j) {
      FirstExists(s, t, j);
    } else {
      assert IsFirst(s, t, k);
    }
  }

  /** The offset of the leftmost occurrence of `t` in `s`. */
  function Find(s: Bytes, t: Bytes): (r: Option<nat>)
    ensures r.Some? ==> IsFirst(s, t, r.value)
    ensures r.None? ==> forall k :: !At(s, t, k)
  {
    if exists i :: 0 <= i <= |s| && IsFirst(s, t, i) then
      var i :| 0 <= i <= |s| && IsFirst(s, t, i);
      Some(i)
    else
      assert forall k :: !At(s, t, k) by {
        forall k | At(s, t, k) ensures false { FirstExists(s, t, k); }
      }
      None
  }

  lemma FindFits(s: Bytes, t: Bytes)
    ensures Find(s, t).Some? ==> Find(s, t).value + |t| <= |s|
  {
  }

  lemma FindIs(s: Bytes, t: Bytes, i: nat)
    requires IsFirst(s, t, i)
    ensures Find(s, t) == Some(i)
  {
    assert At(s, t, i);
  }

  lemma FindNone(s: Bytes, t: Bytes)
    requires forall k :: !At(s, t, k)
    ensures Find(s, t) == None
  {
  }

  lemma AtDrop(s: Bytes, t: Bytes, d: nat, k: nat)
    requires d <= |s|
    ensures At(s[d..], t, k) <==> At(s, t, d + k)
  {
    if d + k + |t| <= |s| {
      assert s[d..][k..k + |t|] == s[d + k..d + k + |t|];
    }
  }

  lemma AtTake(s: Bytes, t: Bytes, n: nat, k: nat)
    requires n <= |s|
    ensures At(s[..n], t, k) <==> At(s, t, k) && k + |t| <= n
  {
    if k + |t| <= n {
      assert s[..n][k..k + |t|] == s[k..k + |t|];
    }
  }

  lemma AtAppend(s: Bytes, more: Bytes, t: Bytes, k: nat)
    requires k + |t| <= |s|
    ensures At(s + more, t, k) <==> At(s, t, k)
  {
    assert (s + more)[k..k + |t|] == s[k..k + |t|];
  }

  lemma AtByte(s: Bytes, t: Bytes, k: nat, j: nat)
    requires At(s, t, k) && j < |t|
    ensures s[k + j] == t[j]
  {
    assert s[k..k + |t|][j] == t[j];
  }

  lemma AtHead(s: Bytes, t: Bytes, k: nat)
    ensures t != [] && At(s, t, k) ==> s[k] == t[0]
  {
    if t != [] && At(s, t, k) { AtByte(s, t, k, 0); }
  }

  /** A leftmost occurrence is never displaced by bytes that arrive later. */
  lemma FindAppend(s: Bytes, more: Bytes, t: Bytes)
    ensures Find(s, t).Some? ==> Find(s + more, t) == Find(s, t)
    ensures Find(s, t).None? && Find(s + more, t).Some? ==> Find(s + more, t).value + |t| > |s|
  {
    match Find(s, t)
    case Some(i) =>
      forall k | 0 <= k <= i ensures At(s + more, t, k) <==> At(s, t, k) {
        AtAppend(s, more, t, k);
      }
      FindIs(s + more, t, i);
    case None =>
      if Find(s + more, t).Some? && Find(s + more, t).value + |t| <= |s| {
        AtAppend(s, more, t, Find(s + more, t).value);
      }
  }

  function Shift(r: Option<nat>, d: nat): Option<nat> {
    if r.Some? then Some(r.value + d) else None
  }

  /** Dropping a prefix in which no occurrence starts only shifts the answer. */
  lemma FindDrop(s: Bytes, t: Bytes, d: nat)
    requires d <= |s|
    requires forall k :: 0 <= k < d ==> !At(s, t, k)
    ensures Find(s, t) == Shift(Find(s[d..], t), d)
  {
    match Find(s[d..], t)
    case Some(i) =>
      forall k | 0 <= k < d + i ensures !At(s, t, k) {
        if k >= d { AtDrop(s, t, d, k - d); }
      }
      AtDrop(s, t, d, i);
      FindIs(s, t, d + i);
    case None =>
      forall k | At(s, t, k) ensures false {
        if k >= d { AtDrop(s, t, d, k - d); }
      }
  }

  lemma FindTake(s: Bytes, t: Bytes, n: nat)
    requires n <= |s|
    ensures Find(s, t).Some? && Find(s, t).value + |t| <= n ==> Find(s[..n], t) == Find(s, t)
    ensures Find(s, t).None? || Find(s, t).value + |t| > n ==> Find(s[..n], t) == None
  {
    match Find(s, t)
    case Some(i) =>
      if i + |t| <= n {
        forall k | 0 <= k <= i ensures At(s[..n], t, k) <==> At(s, t, k) {
          AtTake(s, t, n, k);
        }
        FindIs(s[..n], t, i);
      } else {
        forall k | At(s[..n], t, k) ensures false { AtTake(s, t, n, k); }
      }
    case None =>
      forall k | At(s[..n], t, k) ensures false { AtTake(s, t, n, k); }
  }

  // ----- chunks

  /** All chunks in order. */
  function Concat(chunks: seq<Bytes>): Bytes {
    if chunks == [] then [] else Concat(chunks[..|chunks| - 1]) + chunks[|chunks| - 1]
  }

  lemma {:induction false} ConcatPrefix(chunks: seq<Bytes>, k: nat)
    requires k <= |chunks|
    ensures Concat(chunks[..k]) <= Concat(chunks)
    decreases |chunks|
  {
    if k < |chunks| {
      ConcatPrefix(chunks[..|chunks| - 1], k);
      assert chunks[..|chunks| - 1][..k] == chunks[..k];
    } else {
      assert chunks[..k] == chunks;
    }
  }

  lemma {:induction false} ConcatFirst(chunks: seq<Bytes>)
    requires chunks != []
    ensures Concat(chunks) == chunks[0] + Concat(chunks[1..])
    decreases |chunks|
  {
    var n := |chunks| - 1;
    if n == 0 {
      assert chunks[..0] == [] && chunks[1..] == [];
    } else {
      ConcatFirst(chunks[..n]);
      assert chunks[..n][1..] == chunks[1..][..n - 1];
      var inner := Concat(chunks[1..][..n - 1]);
      assert chunks[0] + inner + chunks[n] == chunks[0] + (inner + chunks[n]);
    }
  }
}
