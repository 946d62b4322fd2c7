/** Incremental base64 decoding of uploaded files, against decoding the whole text at once. */
module Base64 {
  import opened Bytes

  const PAD: byte := 61

  predicate IsBlank(b: byte) { 9 <= b <= 13 || b == 32 }

  /** All whitespace removed. */
  function Squeeze(s: Bytes): Bytes {
    if s == [] then [] else (if IsBlank(s[0]) then [] else [s[0]]) + Squeeze(s[1..])
  }

  // ----- decoding a whole text (section 4 of RFC 4648)

  /** The value of an alphabet character. */
  function Sextet(b: byte): Option<int> {
    if 65 <= b <= 90 then Some(b as int - 65)
    else if 97 <= b <= 122 then Some(b as int - 71)
    else if 48 <= b <= 57 then Some(b as int + 4)
    else if b == 43 then Some(62)
    else if b == 47 then Some(63)
    else None
  }

  function Val(b: byte): (v: int)
    ensures 0 <= v < 64
  {
    match Sextet(b) case Some(v) => v case None => 0
  }

  function First(a: byte, b: byte): byte { (Val(a) * 4 + Val(b) / 16) as byte }

  function Second(b: byte, c: byte): byte { (Val(b) % 16 * 16 + Val(c) / 4) as byte }

  function Third(c: byte, d: byte): byte { (Val(c) % 4 * 64 + Val(d)) as byte }

  predicate Digit(b: byte) { Sextet(b).Some? }

  predicate FullQuad(q: Bytes) {
    |q| == 4 && Digit(q[0]) && Digit(q[1]) && Digit(q[2]) && Digit(q[3])
  }

  /** The final group may end in one or two padding characters. */
  predicate PaddedQuad(q: Bytes) {
    |q| == 4 && Digit(q[0]) && Digit(q[1]) && q[3] == PAD && (Digit(q[2]) || q[2] == PAD)
  }

  function Quad(q: Bytes): Bytes
    requires |q| == 4
  {
    if q[2] == PAD then [First(q[0], q[1])]
    else if q[3] == PAD then [First(q[0], q[1]), Second(q[1], q[2])]
    else [First(q[0], q[1]), Second(q[1], q[2]), Third(q[2], q[3])]
  }

  function Prepend(a: Bytes, r: Option<Bytes>): Option<Bytes> {
    if r.Some? then Some(a + r.value) else None
  }

  /** Groups of four characters, padding only in the last one; `None` is a decoding error. */
  function Decode(w: Bytes): Option<Bytes> {
    if w == [] then Some([])
    else if |w| < 4 then None
    else if FullQuad(w[..4]) then Prepend(Quad(w[..4]), Decode(w[4..]))
    else if PaddedQuad(w[..4]) && |w| == 4 then Some(Quad(w))
    else None
  }

  // ----- the incremental decoder

  datatype Decoder = Decoder(buffer: Bytes, paddingComplete: bool)

  /** `None` output: no complete group yet. */
  datatype Fed = Raised(decoder: Decoder) | Output(decoder: Decoder, data: Option<Bytes>)

  const NEW_DECODER := Decoder([], false)

  /** What is made of the buffered and the new characters together. */
  function TakeGroups(b: Bytes): Fed {
    var n := |b| / 4 * 4;
    if n == 0 then Output(Decoder(b, false), None)
    else
      match Find(b[..n], [PAD])
      case Some(i) =>
        if (i / 4 + 1) * 4 != |b| then Raised(Decoder(b, false)) else Emit(Decoder([], true), b)
      case None => Emit(Decoder(b[n..], false), b[..n])
  }

  function Emit(d: Decoder, groups: Bytes): Fed {
    match Decode(groups)
    case Some(x) => Output(d, Some(x))
    case None => Raised(d)
  }

  function FeedDecoder(d: Decoder, data: Bytes): Fed {
    var stripped := Squeeze(data);
    if stripped == [] then Output(d, if d.buffer == [] then Some([]) else None)
    else if d.paddingComplete then Raised(d)
    else TakeGroups(d.buffer + stripped)
  }

  /** `finish` raises on characters that never made a group. */
  predicate FinishRaises(d: Decoder) { d.buffer != [] && Decode(d.buffer).None? }

  /** The object with its two fields, updated in place. */
  class Base64Decoder {
    var buffer: Bytes
    var paddingComplete: bool

    constructor ()
      ensures D() == NEW_DECODER
    {
      buffer, paddingComplete := [], false;
    }

    function D(): Decoder
      reads this
    {
      Decoder(buffer, paddingComplete)
    }

    method FeedBytes(data: Bytes) returns (raised: bool, out: Option<Bytes>)
      modifies this
      ensures var r := FeedDecoder(old(D()), data);
        D() == r.decoder && raised == r.Raised? && (!raised ==> out == r.data)
    {
      hide Decode, Squeeze, Find;
      var stripped := Squeeze(data);
      if stripped == [] {
        return false, if buffer == [] then Some([]) else None;
      }
      if paddingComplete {
        return true, None;
      }
      buffer := buffer + stripped;
      var complete := |buffer| / 4 * 4;
      if complete == 0 {
        return false, None;
      }
      var candidate := buffer[..complete];
      var padding := Find(candidate, [PAD]);
      if padding.Some? {
        if (padding.value / 4 + 1) * 4 != |buffer| {
          return true, None;
        }
        candidate := buffer;
        buffer := [];
        paddingComplete := true;
      } else {
        buffer := buffer[complete..];
      }
      out := Decode(candidate);
      raised := out.None?;
    }

    method FinishBytes() returns (raised: bool)
      ensures raised == FinishRaises(D())
    {
      raised := buffer != [] && Decode(buffer).None?;
    }
  }

  // ----- facts about whole decoding

  predicate FullQuads(g: Bytes) {
    |g| % 4 == 0 && forall k :: 0 <= k < |g| ==> Digit(g[k])
  }

  lemma {:induction false} DecodeAppend(g: Bytes, x: Bytes)
    requires FullQuads(g)
    ensures Decode(g).Some? && Decode(g + x) == Prepend(Decode(g).value, Decode(x))
    decreases |g|
  {
    hide Quad, Digit;
    if g == [] {
      assert [] + x == x;
      if Decode(x).Some? { assert [] + Decode(x).value == Decode(x).value; }
    } else {
      assert (g + x)[..4] == g[..4] && (g + x)[4..] == g[4..] + x;
      DecodeAppend(g[4..], x);
      var tail := Decode(x);
      if tail.Some? {
        var quad, rest := Quad(g[..4]), Decode(g[4..]).value;
        assert quad + (rest + tail.value) == quad + rest + tail.value;
      }
    }
  }

  /** Complete groups that do not decode never will, whatever follows. */
  lemma {:induction false} BadStaysBad(g: Bytes, x: Bytes)
    requires |g| % 4 == 0 && Decode(g).None?
    ensures Decode(g + x).None?
    decreases |g|
  {
    hide Quad, Digit;
    assert (g + x)[..4] == g[..4] && (g + x)[4..] == g[4..] + x;
    if FullQuad(g[..4]) { BadStaysBad(g[4..], x); }
  }

  lemma DigitIsNotPad(b: byte)
    ensures Digit(b) ==> b != PAD
  {
  }

  /** A padded group that is not the last one is an error. */
  lemma {:induction false} PadSeals(w: Bytes, i: nat)
    requires i < |w| && w[i] == PAD && (i / 4 + 1) * 4 != |w|
    requires (i / 4 + 1) * 4 <= |w| || |w| % 4 != 0
    ensures Decode(w).None?
    decreases |w|
  {
    hide Quad, Digit;
    if |w| >= 4 && FullQuad(w[..4]) {
      if i < 4 {
        assert w[..4][i] == PAD;
        DigitIsNotPad(PAD);
      } else {
        assert w[4..][i - 4] == PAD;
        PadSeals(w[4..], i - 4);
      }
    }
  }

  lemma {:induction false} LengthDecodes(w: Bytes)
    requires Decode(w).Some?
    ensures |w| % 4 == 0
    decreases |w|
  {
    hide Quad, Digit;
    if w != [] && FullQuad(w[..4]) { LengthDecodes(w[4..]); }
  }

  /** Decodable text without padding consists of digits. */
  lemma {:induction false} NoPadFull(g: Bytes)
    requires Decode(g).Some? && forall k :: 0 <= k < |g| ==> g[k] != PAD
    ensures FullQuads(g)
    decreases |g|
  {
    hide Quad, Digit;
    if g != [] {
      var q := g[..4];
      assert g[3] == q[3];
      NoPadFull(g[4..]);
      forall k | 0 <= k < |g| ensures Digit(g[k]) {
        if k < 4 { assert g[k] == q[k]; } else { assert g[k] == g[4..][k - 4]; }
      }
    }
  }

  lemma {:induction false} SqueezeConcat(a: Bytes, b: Bytes)
    ensures Squeeze(a + b) == Squeeze(a) + Squeeze(b)
  {
    if a == [] {
      assert a + b == b;
    } else {
      assert (a + b)[1..] == a[1..] + b;
      SqueezeConcat(a[1..], b);
    }
  }

  // ----- the texts that can be fed at all

  /** The complete groups decode, and nothing follows a padded one. */
  predicate Takeable(w: Bytes) {
    var n := |w| / 4 * 4;
    Decode(w[..n]).Some? && (PAD in w[..n] ==> n == |w|)
  }

  lemma DecodableIsTakeable(w: Bytes)
    ensures Decode(w).Some? ==> Takeable(w)
  {
    hide Decode;
    if Decode(w).Some? {
      LengthDecodes(w);
      assert w[..|w|] == w;
    }
  }

  /** What could not be taken cannot be taken with more text behind it. */
  lemma TakeableBack(w: Bytes, x: Bytes)
    ensures Takeable(w + x) ==> Takeable(w)
  {
    hide Decode;
    var v := w + x;
    var n, m := |w| / 4 * 4, |v| / 4 * 4;
    if Takeable(v) {
      assert v[..m] == w[..n] + v[n..m];
      if Decode(w[..n]).None? { BadStaysBad(w[..n], v[n..m]); }
      if PAD in w[..n] && n != |w| {
        var i :| 0 <= i < n && w[..n][i] == PAD;
        PadEnds(v, i);
      }
    }
  }

  // ----- the stream against the whole

  /** `d` has taken the whitespace-free text `w` and returned `out` for it. */
  predicate Represents(d: Decoder, w: Bytes, out: Bytes) {
    && |d.buffer| <= 3
    && if d.paddingComplete then
         d.buffer == [] && PAD in w && Decode(w) == Some(out)
       else
         var n := |w| - |d.buffer|;
         0 <= n && w[n..] == d.buffer && FullQuads(w[..n]) && Decode(w[..n]) == Some(out)
  }

  /** A feed extends the represented text and the output unless the text can no longer be taken. */
  predicate Extends(r: Fed, w: Bytes, out: Bytes) {
    match r
    case Output(next, o) => Represents(next, w, out + OutputOf(o))
    case Raised(_) => !Takeable(w)
  }

  lemma RepresentsTakeable(d: Decoder, w: Bytes, out: Bytes)
    requires Represents(d, w, out)
    ensures Takeable(w)
  {
    hide Decode;
    if d.paddingComplete {
      DecodableIsTakeable(w);
    } else {
      var n := |w| - |d.buffer|;
      forall k | 0 <= k < n ensures w[..n][k] != PAD { DigitIsNotPad(w[..n][k]); }
    }
  }

  function OutputOf(data: Option<Bytes>): Bytes {
    if data.Some? then data.value else []
  }

  lemma DecodeNothing()
    ensures Decode([]) == Some([])
  {
  }

  lemma NewRepresents()
    ensures Represents(NEW_DECODER, [], [])
  {
    hide Decode, Digit;
    DecodeNothing();
    var nothing: Bytes := [];
    assert nothing[..0] == nothing && nothing[0..] == nothing;
    assert FullQuads(nothing);
  }

  lemma NothingNew(d: Decoder, data: Bytes, w: Bytes, out: Bytes)
    requires Represents(d, w, out) && Squeeze(data) == []
    ensures var r := FeedDecoder(d, data); r.Output? && r.decoder == d && OutputOf(r.data) == []
  {
  }

  lemma SealedStays(w: Bytes, t: Bytes)
    requires PAD in w && Decode(w).Some? && t != []
    ensures !Takeable(w + t)
  {
    hide Decode;
    LengthDecodes(w);
    var i :| 0 <= i < |w| && w[i] == PAD;
    PadEnds(w + t, i);
  }

  /** Padding in a complete group that is not the end of the text. */
  lemma PadEnds(w: Bytes, i: nat)
    requires i < |w| / 4 * 4 && w[i] == PAD && (i / 4 + 1) * 4 != |w|
    ensures !Takeable(w)
  {
    hide Decode;
    var n := |w| / 4 * 4;
    assert w[..n][i] == PAD;
    if n == |w| {
      PadSeals(w, i);
      assert w[..n] == w;
    }
  }

  lemma FoundPad(b: Bytes, n: nat)
    requires n <= |b|
    ensures match Find(b[..n], [PAD])
      case Some(i) => i < n && b[i] == PAD
      case None => forall k :: 0 <= k < n ==> b[k] != PAD
  {
    match Find(b[..n], [PAD])
    case Some(i) =>
      AtByte(b[..n], [PAD], i, 0);
    case None =>
      forall k | 0 <= k < n ensures b[k] == PAD ==> At(b[..n], [PAD], k) {
        assert b[..n][k..k + 1] == [b[k]];
      }
  }

  /** One feed that does not raise extends the represented text and the output. */
  lemma FeedRepresents(d: Decoder, data: Bytes, w: Bytes, out: Bytes)
    requires Represents(d, w, out)
    ensures Extends(FeedDecoder(d, data), w + Squeeze(data), out)
  {
    hide Decode, Squeeze, Find;
    var t := Squeeze(data);
    if t == [] {
      NothingNew(d, data, w, out);
      assert w + t == w && out + [] == out;
    } else if d.paddingComplete {
      SealedStays(w, t);
    } else {
      FeedGroups(d, t, w, out);
    }
  }

  lemma FeedGroups(d: Decoder, t: Bytes, w: Bytes, out: Bytes)
    requires Represents(d, w, out) && !d.paddingComplete && t != []
    ensures Extends(TakeGroups(d.buffer + t), w + t, out)
  {
    hide Decode, Find;
    var b := d.buffer + t;
    var g := w[..|w| - |d.buffer|];
    var w1 := w + t;
    assert w1 == g + b;
    var n := |b| / 4 * 4;
    if n == 0 {
      assert w1[..|g|] == g && w1[|g|..] == b && out + [] == out;
    } else {
      FoundPad(b, n);
      if Find(b[..n], [PAD]).Some? {
        GroupsWithPad(g, b, out, Find(b[..n], [PAD]).value);
      } else {
        GroupsWithoutPad(g, b, out);
      }
    }
  }

  lemma GroupsWithPad(g: Bytes, b: Bytes, out: Bytes, i: nat)
    requires FullQuads(g) && Decode(g) == Some(out) && |b| >= 4
    requires i < |b| / 4 * 4 && b[i] == PAD && Find(b[..|b| / 4 * 4], [PAD]) == Some(i)
    ensures Extends(TakeGroups(b), g + b, out)
  {
    hide Decode, Find, Digit, Takeable;
    var w := g + b;
    DecodeAppend(g, b);
    assert w[|g| + i] == PAD;
    if (i / 4 + 1) * 4 != |b| {
      PadEnds(w, |g| + i);
    } else {
      BadIsNotTakeable(w);
    }
  }

  lemma BadIsNotTakeable(w: Bytes)
    requires |w| % 4 == 0
    ensures Decode(w).None? ==> !Takeable(w)
  {
    hide Decode;
    assert w[..|w|] == w;
  }

  lemma GroupsWithoutPad(g: Bytes, b: Bytes, out: Bytes)
    requires FullQuads(g) && Decode(g) == Some(out) && |b| >= 4
    requires Find(b[..|b| / 4 * 4], [PAD]).None? && forall k :: 0 <= k < |b| / 4 * 4 ==> b[k] != PAD
    ensures Extends(TakeGroups(b), g + b, out)
  {
    hide Decode, Find, Digit, Takeable, FullQuads;
    var n := |b| / 4 * 4;
    var full, rest := b[..n], b[n..];
    var w := g + b;
    DecodeAppend(g, full);
    assert w[..|g| + n] == g + full && w[|g| + n..] == rest;
    QuadsLength(g);
    if Decode(full).Some? {
      NoPadFull(full);
      QuadsJoin(g, full);
    } else {
      BadFrontIsNotTakeable(w, |g| + n);
    }
  }

  lemma QuadsLength(g: Bytes)
    requires FullQuads(g)
    ensures |g| % 4 == 0
  {
  }

  lemma QuadsJoin(g: Bytes, h: Bytes)
    requires FullQuads(g) && FullQuads(h)
    ensures FullQuads(g + h)
  {
    hide Digit;
  }

  lemma BadFrontIsNotTakeable(w: Bytes, n: nat)
    requires n == |w| / 4 * 4 && Decode(w[..n]).None?
    ensures !Takeable(w)
  {
    hide Decode;
  }

  /** All chunks in turn, `None` when some call raises. */
  function FeedChunks(d: Decoder, chunks: seq<Bytes>, out: Bytes): Option<(Decoder, Bytes)>
    decreases |chunks|
  {
    if chunks == [] then Some((d, out))
    else
      match FeedDecoder(d, chunks[0])
      case Raised(_) => None
      case Output(next, o) => FeedChunks(next, chunks[1..], out + OutputOf(o))
  }

  lemma {:induction false} ChunksRepresent(d: Decoder, chunks: seq<Bytes>, w: Bytes, out: Bytes)
    requires Represents(d, w, out)
    ensures var all := w + Squeeze(Concat(chunks));
      match FeedChunks(d, chunks, out)
      case Some(r) => Represents(r.0, all, r.1)
      case None => !Takeable(all)
    decreases |chunks|
  {
    hide Squeeze, FeedDecoder, Represents, Takeable;
    if chunks == [] {
      assert Squeeze([]) == [] by { SqueezeNothing(); }
      assert w + [] == w;
    } else {
      var t, rest := Squeeze(chunks[0]), Squeeze(Concat(chunks[1..]));
      ConcatFirst(chunks);
      SqueezeConcat(chunks[0], Concat(chunks[1..]));
      assert w + (t + rest) == w + t + rest;
      FeedRepresents(d, chunks[0], w, out);
      var r := FeedDecoder(d, chunks[0]);
      if r.Output? {
        ChunksRepresent(r.decoder, chunks[1..], w + t, out + OutputOf(r.data));
      } else {
        TakeableBack(w + t, rest);
      }
    }
  }

  lemma SqueezeNothing()
    ensures Squeeze([]) == []
  {
  }

  /** `finish` raises exactly when the text taken so far does not decode as a whole. */
  lemma RepresentsAll(d: Decoder, w: Bytes, out: Bytes)
    requires Represents(d, w, out)
    ensures FinishRaises(d) <==> Decode(w).None?
    ensures !FinishRaises(d) ==> Decode(w) == Some(out)
  {
    if !d.paddingComplete {
      var n := |w| - |d.buffer|;
      assert w == w[..n] + d.buffer;
      DecodeAppend(w[..n], d.buffer);
      if d.buffer == [] { assert w[..n] == w; }
    }
  }

  /** Streaming equals whole decoding: feeding raises exactly when the whitespace-free text cannot be
      taken, some call raises exactly when it does not decode, otherwise the outputs add up to its
      decoding, and at most three characters are ever held back. */
  lemma StreamDecodes(chunks: seq<Bytes>)
    ensures var w := Squeeze(Concat(chunks));
      match FeedChunks(NEW_DECODER, chunks, [])
      case None => !Takeable(w) && Decode(w).None?
      case Some(r) =>
        && Takeable(w)
        && |r.0.buffer| <= 3
        && (FinishRaises(r.0) <==> Decode(w).None?)
        && (!FinishRaises(r.0) ==> Decode(w) == Some(r.1))
  {
    hide Squeeze, FeedChunks, Takeable;
    var w := Squeeze(Concat(chunks));
    NewRepresents();
    ChunksRepresent(NEW_DECODER, chunks, [], []);
    assert [] + w == w;
    DecodableIsTakeable(w);
    var o := FeedChunks(NEW_DECODER, chunks, []);
    if o.Some? {
      RepresentsAll(o.value.0, w, o.value.1);
      RepresentsTakeable(o.value.0, w, o.value.1);
    }
  }

  // ----- the decoding is the inverse of the encoding

  function DigitOf(v: int): byte
    requires 0 <= v < 64
  {
    if v < 26 then (v + 65) as byte
    else if v < 52 then (v + 71) as byte
    else if v < 62 then (v - 4) as byte
    else if v == 62 then 43
    else 47
  }

  lemma DigitOfVal(v: int)
    requires 0 <= v < 64
    ensures Digit(DigitOf(v)) && Val(DigitOf(v)) == v
  {
  }

  function Encode(data: Bytes): Bytes {
    if data == [] then []
    else
      var a := data[0] as int;
      if |data| == 1 then [DigitOf(a / 4), DigitOf(a % 4 * 16), PAD, PAD]
      else
        var b := data[1] as int;
        if |data| == 2 then [DigitOf(a / 4), DigitOf(a % 4 * 16 + b / 16), DigitOf(b % 16 * 4), PAD]
        else
          var c := data[2] as int;
          [DigitOf(a / 4), DigitOf(a % 4 * 16 + b / 16), DigitOf(b % 16 * 4 + c / 64), DigitOf(c % 64)]
            + Encode(data[3..])
  }

  lemma QuadInverse(a: int, b: int, c: int)
    requires 0 <= a < 256 && 0 <= b < 256 && 0 <= c < 256
    ensures First(DigitOf(a / 4), DigitOf(a % 4 * 16 + b / 16)) as int == a
    ensures Second(DigitOf(a % 4 * 16 + b / 16), DigitOf(b % 16 * 4 + c / 64)) as int == b
    ensures Third(DigitOf(b % 16 * 4 + c / 64), DigitOf(c % 64)) as int == c
  {
    hide DigitOf, Val;
    DigitOfVal(a / 4);
    DigitOfVal(a % 4 * 16 + b / 16);
    DigitOfVal(b % 16 * 4 + c / 64);
    DigitOfVal(c % 64);
  }

  lemma {:induction false} DecodeEncode(data: Bytes)
    ensures Decode(Encode(data)) == Some(data)
    decreases |data|
  {
    hide DigitOf, Val, Digit, First, Second, Third;
    if data != [] {
      var a := data[0] as int;
      var b := if |data| > 1 then data[1] as int else 0;
      var c := if |data| > 2 then data[2] as int else 0;
      QuadInverse(a, b, c);
      DigitOfVal(a / 4);
      DigitOfVal(a % 4 * 16 + b / 16);
      DigitOfVal(b % 16 * 4 + c / 64);
      DigitOfVal(c % 64);
      DigitIsNotPad(DigitOf(b % 16 * 4 + c / 64));
      DigitIsNotPad(DigitOf(c % 64));
      DigitIsNotPad(PAD);
      var e := Encode(data);
      if |data| > 2 {
        assert e[4..] == Encode(data[3..]);
        DecodeEncode(data[3..]);
        assert data == [data[0], data[1], data[2]] + data[3..];
      } else {
        assert e[..4] == e;
        assert a % 4 * 16 + 0 / 16 == a % 4 * 16 && b % 16 * 4 + 0 / 64 == b % 16 * 4;
        assert data == if |data| == 1 then [data[0]] else [data[0], data[1]];
      }
    }
  }

  // ----- the same in byte values

  /** Exactly the six ASCII whitespace bytes are removed, wherever they are. */
  lemma SqueezeIs(b: byte, s: Bytes)
    ensures Squeeze([b] + s) == (if b in {9, 10, 11, 12, 13, 32} then [] else [b]) + Squeeze(s)
  {
    assert ([b] + s)[1..] == s;
  }

  /** `s` is `w` with whitespace inserted anywhere. */
  predicate Spread(w: Bytes, s: Bytes) {
    if s == [] then w == []
    else
      || (s[0] in {9, 10, 11, 12, 13, 32} && Spread(w, s[1..]))
      || (w != [] && s[0] == w[0] && Spread(w[1..], s[1..]))
  }

  predicate Printing(w: Bytes) { forall k :: 0 <= k < |w| ==> w[k] !in {9, 10, 11, 12, 13, 32} }

  lemma {:induction false} SpreadSqueezes(w: Bytes, s: Bytes)
    requires Printing(w)
    ensures Spread(w, s) <==> Squeeze(s) == w
    decreases |s|
  {
    if s != [] {
      var b := s[0];
      assert s == [b] + s[1..];
      SqueezeIs(b, s[1..]);
      if b in {9, 10, 11, 12, 13, 32} {
        SpreadSqueezes(w, s[1..]);
        assert w != [] ==> w[0] != b;
      } else if w != [] {
        SpreadSqueezes(w[1..], s[1..]);
        assert w == [w[0]] + w[1..];
      }
    }
  }

  const ALPHABET := "ABCDEFGHIJKLM" + "NOPQRSTUVWXYZ" + "abcdefghijklm" + "nopqrstuvwxyz" + "0123456789+/"

  lemma UpperFirst(k: nat)
    requires k < 13
    ensures "ABCDEFGHIJKLM"[k] as int == 65 + k
  {
  }

  lemma UpperLast(k: nat)
    requires k < 13
    ensures "NOPQRSTUVWXYZ"[k] as int == 78 + k
  {
  }

  lemma LowerFirst(k: nat)
    requires k < 13
    ensures "abcdefghijklm"[k] as int == 97 + k
  {
  }

  lemma LowerLast(k: nat)
    requires k < 13
    ensures "nopqrstuvwxyz"[k] as int == 110 + k
  {
  }

  lemma Others(k: nat)
    requires k < 12
    ensures "0123456789+/"[k] as int == if k < 10 then 48 + k else if k == 10 then 43 else 47
  {
  }

  lemma FromFivePieces(a: string, b: string, c: string, d: string, e: string, v: nat)
    requires |a| == |b| == |c| == |d| == 13 && |e| == 12 && v < 64
    ensures (a + b + c + d + e)[v] == if v < 13 then a[v] else if v < 26 then b[v - 13]
      else if v < 39 then c[v - 26] else if v < 52 then d[v - 39] else e[v - 52]
  {
  }

  lemma AlphabetAt(v: nat)
    requires v < 64
    ensures ALPHABET[v] as int
      == if v < 26 then 65 + v else if v < 52 then 71 + v else if v < 62 then v - 4 else if v == 62 then 43 else 47
  {
    FromFivePieces("ABCDEFGHIJKLM", "NOPQRSTUVWXYZ", "abcdefghijklm", "nopqrstuvwxyz", "0123456789+/", v);
    if v < 13 {
      UpperFirst(v);
    } else if v < 26 {
      UpperLast(v - 13);
    } else if v < 39 {
      LowerFirst(v - 26);
    } else if v < 52 {
      LowerLast(v - 39);
    } else {
      Others(v - 52);
    }
  }

  /** The digits are the 64 characters of the alphabet in order. */
  lemma AlphabetIs(v: nat, b: byte)
    requires v < 64
    ensures Sextet(b) == Some(v) <==> b as int == ALPHABET[v] as int
    ensures DigitOf(v) as int == ALPHABET[v] as int
  {
    var code := ALPHABET[v] as int;
    AlphabetAt(v);
    assert code == ALPHABET[v] as int;
    hide ALPHABET;
  }

  lemma DigitIs(b: byte)
    ensures Digit(b) <==> exists v :: 0 <= v < 64 && ALPHABET[v] as int == b as int
  {
    if Digit(b) { AlphabetIs(Sextet(b).value, b); }
    if v: nat :| v < 64 && ALPHABET[v] as int == b as int { AlphabetIs(v, b); }
  }

  /** `w` ends in `p` padding characters behind alphabet characters only. */
  predicate Padded(w: Bytes, p: nat) {
    && p <= 2 && p <= |w| && |w| % 4 == 0
    && (forall k :: 0 <= k < |w| - p ==> Digit(w[k]))
    && (forall k :: |w| - p <= k < |w| ==> w[k] == 61)
  }

  lemma PaddedStep(w: Bytes, p: nat)
    requires |w| >= 4 && FullQuad(w[..4]) && p <= 2
    ensures Padded(w, p) <==> Padded(w[4..], p)
  {
    hide Digit;
    var q := w[..4];
    assert Digit(w[0]) && Digit(w[1]) && Digit(w[2]) && Digit(w[3]) by {
      assert q[0] == w[0] && q[1] == w[1] && q[2] == w[2] && q[3] == w[3];
    }
    DigitIsNotPad(w[2]);
    DigitIsNotPad(w[3]);
    assert forall k :: 4 <= k < |w| ==> w[k] == w[4..][k - 4];
  }

  /** Exactly the texts of whole groups in the alphabet, with at most two padding characters at the
      end, decode. */
  lemma {:induction false} DecodesIff(w: Bytes)
    ensures Decode(w).Some? <==> Padded(w, 0) || Padded(w, 1) || Padded(w, 2)
    decreases |w|
  {
    hide Digit, Quad;
    if |w| >= 4 {
      var q := w[..4];
      assert q[0] == w[0] && q[1] == w[1] && q[2] == w[2] && q[3] == w[3];
      if FullQuad(q) {
        DecodesIff(w[4..]);
        PaddedStep(w, 0);
        PaddedStep(w, 1);
        PaddedStep(w, 2);
      } else {
        DigitIsNotPad(w[2]);
        DigitIsNotPad(w[3]);
        NotFullPadded(w);
      }
    }
  }

  lemma NotFullPadded(w: Bytes)
    requires |w| >= 4 && !FullQuad(w[..4])
    ensures Padded(w, 0) || Padded(w, 1) || Padded(w, 2) <==> PaddedQuad(w[..4]) && |w| == 4
  {
    hide Digit;
    var q := w[..4];
    assert q[0] == w[0] && q[1] == w[1] && q[2] == w[2] && q[3] == w[3];
    DigitIsNotPad(w[3]);
  }

  lemma ValInverse(b: byte)
    requires Digit(b)
    ensures DigitOf(Val(b)) == b
  {
  }

  /** The bytes of a group give its digits back. */
  lemma GroupInverse(a: int, b: int, c: int, d: int)
    requires 0 <= a < 64 && 0 <= b < 64 && 0 <= c < 64 && 0 <= d < 64
    ensures var x, y, z := a * 4 + b / 16, b % 16 * 16 + c / 4, c % 4 * 64 + d;
      && x / 4 == a && x % 4 * 16 + y / 16 == b && y % 16 * 4 + z / 64 == c && z % 64 == d
      && x % 4 * 16 == b / 16 * 16 && y % 16 * 4 == c / 4 * 4
  {
  }

  /** The same text, up to the bits of the last digit that padding leaves unused. */
  predicate UpToUnused(w: Bytes, e: Bytes, p: nat)
    requires p <= 2
  {
    && |e| == |w|
    && forall k :: 0 <= k < |w| ==>
      if p > 0 && k == |w| - p - 1 then
        Val(e[k]) == if p == 1 then Val(w[k]) / 4 * 4 else Val(w[k]) / 16 * 16
      else e[k] == w[k]
  }

  lemma FullGroup(w: Bytes)
    requires |w| == 4 && FullQuad(w)
    ensures Encode(Quad(w)) == w
  {
    hide Digit, DigitOf, Val;
    DigitIsNotPad(w[2]);
    DigitIsNotPad(w[3]);
    GroupInverse(Val(w[0]), Val(w[1]), Val(w[2]), Val(w[3]));
    ValInverse(w[0]);
    ValInverse(w[1]);
    ValInverse(w[2]);
    ValInverse(w[3]);
    assert Quad(w)[3..] == [];
  }

  lemma OnePad(w: Bytes)
    requires |w| == 4 && Digit(w[0]) && Digit(w[1]) && Digit(w[2]) && w[3] == PAD
    ensures UpToUnused(w, Encode(Quad(w)), 1)
  {
    hide Digit, DigitOf, Val;
    DigitIsNotPad(w[2]);
    GroupInverse(Val(w[0]), Val(w[1]), Val(w[2]), 0);
    ValInverse(w[0]);
    ValInverse(w[1]);
    DigitOfVal(Val(w[2]) / 4 * 4);
  }

  lemma TwoPads(w: Bytes)
    requires |w| == 4 && Digit(w[0]) && Digit(w[1]) && w[2] == PAD && w[3] == PAD
    ensures UpToUnused(w, Encode(Quad(w)), 2)
  {
    hide Digit, DigitOf, Val;
    GroupInverse(Val(w[0]), Val(w[1]), 0, 0);
    ValInverse(w[0]);
    DigitOfVal(Val(w[1]) / 16 * 16);
  }

  lemma LastGroup(w: Bytes, p: nat)
    requires |w| == 4 && Padded(w, p)
    ensures Decode(w) == Some(Quad(w)) && UpToUnused(w, Encode(Quad(w)), p)
  {
    hide Digit, Encode, Quad, UpToUnused;
    assert w[..4] == w && w[4..] == [];
    assert Quad(w) + [] == Quad(w);
    DigitIsNotPad(w[3]);
    if p == 0 {
      FullGroup(w);
      SameIsUpToUnused(w);
    } else if p == 1 {
      OnePad(w);
    } else {
      TwoPads(w);
    }
  }

  lemma SameIsUpToUnused(w: Bytes)
    ensures UpToUnused(w, w, 0)
  {
  }

  /** One group more in front. */
  lemma UpToUnusedStep(q: Bytes, rest: Bytes, e: Bytes, p: nat)
    requires p <= 2 && |q| == 4 && |rest| >= 4 && UpToUnused(rest, e, p)
    ensures UpToUnused(q + rest, q + e, p)
  {
    hide Val;
    forall k | 4 <= k < |q + rest| ensures (q + rest)[k] == rest[k - 4] && (q + e)[k] == e[k - 4] {}
  }

  lemma DecodeStep(q: Bytes, rest: Bytes)
    requires FullQuad(q)
    ensures Decode(q + rest) == Prepend(Quad(q), Decode(rest))
  {
    hide Quad, Digit, Decode;
    DecodeAppend(q, rest);
    LastGroup(q, 0);
  }

  /** Decoding determines the text, up to unused bits. */
  lemma {:induction false} EncodeDecode(w: Bytes, p: nat)
    requires Padded(w, p) && Decode(w).Some?
    ensures UpToUnused(w, Encode(Decode(w).value), p)
    decreases |w|
  {
    hide Digit, Val, Quad, Encode, Decode, UpToUnused;
    if |w| == 4 {
      LastGroup(w, p);
    } else if w != [] {
      var q, rest := w[..4], w[4..];
      assert w == q + rest;
      PaddedFront(w, p);
      DecodeStep(q, rest);
      EncodeDecode(rest, p);
      FullGroup(q);
      EncodeGroup(q, Decode(rest).value);
      UpToUnusedStep(q, rest, Encode(Decode(rest).value), p);
    } else {
      NothingEncoded(p);
    }
  }

  lemma NothingEncoded(p: nat)
    requires Padded([], p)
    ensures Decode([]) == Some([]) && UpToUnused([], Encode([]), p)
  {
  }

  lemma PaddedFront(w: Bytes, p: nat)
    requires Padded(w, p) && |w| > 4
    ensures FullQuad(w[..4]) && Padded(w[4..], p)
  {
    hide Digit;
    var q := w[..4];
    assert q[0] == w[0] && q[1] == w[1] && q[2] == w[2] && q[3] == w[3];
    PaddedStep(w, p);
  }

  lemma EncodeGroup(q: Bytes, x: Bytes)
    requires FullQuad(q)
    ensures Encode(Quad(q) + x) == Encode(Quad(q)) + Encode(x)
  {
    hide Digit, DigitOf, Val;
    DigitIsNotPad(q[2]);
    DigitIsNotPad(q[3]);
    assert |Quad(q)| == 3 && (Quad(q) + x)[3..] == x && Quad(q)[3..] == [];
  }

  lemma {:induction false} EncodePrinting(data: Bytes)
    ensures Printing(Encode(data))
    decreases |data|
  {
    hide Decode;
    DecodeEncode(data);
    DecodesIff(Encode(data));
    forall k | 0 <= k < |Encode(data)| ensures Encode(data)[k] !in {9, 10, 11, 12, 13, 32} {}
  }

  /** Encoded data comes back from the stream under every chunking, with whitespace inserted anywhere. */
  lemma StreamInverse(data: Bytes, chunks: seq<Bytes>)
    requires Spread(Encode(data), Concat(chunks))
    ensures var o := FeedChunks(NEW_DECODER, chunks, []);
      o.Some? && !FinishRaises(o.value.0) && o.value.1 == data
  {
    hide Squeeze, FeedChunks, Encode, Decode, FinishRaises, Spread;
    EncodePrinting(data);
    SpreadSqueezes(Encode(data), Concat(chunks));
    StreamDecodes(chunks);
    DecodeEncode(data);
  }
}
