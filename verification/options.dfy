/** MIME-style header values: a name and parameters, some of them quoted. */
module Options {
  datatype Mode = Mode(quoted: bool, escaped: bool)

  const PLAIN := Mode(false, false)

  datatype OptionsError = MalformedQuoted | MissingName | MissingValue | MissingKey

  datatype Result<T> = Ok(value: T) | Err(error: OptionsError)

  type Parameters = map<string, string>

  // ----- scanning quotes

  /** One character of the quote-aware scan. */
  function Advance(m: Mode, c: char): Mode {
    if m.escaped then m.(escaped := false)
    else if m.quoted && c == '\\' then m.(escaped := true)
    else if c == '\"' then m.(quoted := !m.quoted)
    else m
  }

  function Scan(m: Mode, s: string): Mode {
    if s == "" then m else Advance(Scan(m, s[..|s| - 1]), s[|s| - 1])
  }

  predicate Splits(m: Mode, c: char) { c == ';' && m == PLAIN }

  /** The text cut at every semicolon outside quotes. */
  function Pieces(s: string): (r: seq<string>)
    ensures r != []
  {
    if s == "" then [""]
    else
      var front, c := s[..|s| - 1], s[|s| - 1];
      var r := Pieces(front);
      if Splits(Scan(PLAIN, front), c) then r + [""] else ExtendLast(r, [c])
  }

  function ExtendLast(r: seq<string>, s: string): (t: seq<string>)
    requires r != []
    ensures t != []
  {
    r[..|r| - 1] + [r[|r| - 1] + s]
  }

  lemma PiecesStep(s: string, n: nat)
    requires n < |s|
    ensures Pieces(s[..n + 1]) ==
      if Splits(Scan(PLAIN, s[..n]), s[n]) then Pieces(s[..n]) + [""] else ExtendLast(Pieces(s[..n]), [s[n]])
  {
    assert s[..n + 1][..n] == s[..n];
  }

  lemma ExtendTwice(r: seq<string>, a: string, b: string)
    requires r != []
    ensures ExtendLast(ExtendLast(r, a), b) == ExtendLast(r, a + b)
  {
    var last := r[|r| - 1];
    assert last + (a + b) == last + a + b;
  }

  lemma ExtendNothing(r: seq<string>)
    requires r != []
    ensures ExtendLast(r, "") == r
  {
    assert r[|r| - 1] + "" == r[|r| - 1];
  }

  lemma ExtendLastIs(front: seq<string>, last: string, s: string)
    ensures ExtendLast(front + [last], s) == front + [last + s]
  {
  }

  // ----- one parameter

  predicate IsSpace(c: char) {
    || '\t' <= c <= '\r' || c == ' ' || c == '\U{85}' || c == '\U{A0}' || c == '\U{1680}'
    || '\U{2000}' <= c <= '\U{200A}' || c == '\U{2028}' || c == '\U{2029}' || c == '\U{202F}'
    || c == '\U{205F}' || c == '\U{3000}'
  }

  predicate AllSpace(s: string) { forall k :: 0 <= k < |s| ==> IsSpace(s[k]) }

  function LeadingSpaces(s: string): (n: nat)
    ensures n <= |s|
    ensures forall k :: 0 <= k < n ==> IsSpace(s[k])
    ensures n < |s| ==> !IsSpace(s[n])
  {
    if s != "" && IsSpace(s[0]) then 1 + LeadingSpaces(s[1..]) else 0
  }

  function TrimLeft(s: string): string { s[LeadingSpaces(s)..] }

  function TrimRight(s: string): (r: string)
    ensures r <= s && AllSpace(s[|r|..])
    ensures r != "" ==> !IsSpace(r[|r| - 1])
  {
    if s != "" && IsSpace(s[|s| - 1]) then
      var r := TrimRight(s[..|s| - 1]);
      assert s[|r|..] == s[..|s| - 1][|r|..] + [s[|s| - 1]];
      r
    else s
  }

  function Trim(s: string): string { TrimRight(TrimLeft(s)) }

  function Lower(s: string): (r: string)
    ensures |r| == |s|
  {
    seq(|s|, i requires 0 <= i < |s| => if 'A' <= s[i] <= 'Z' then s[i] + 32 as char else s[i])
  }

  /** The position of the first `c`. */
  function IndexOf(s: string, c: char): (i: nat)
    ensures i <= |s| && (i < |s| ==> s[i] == c) && forall k :: 0 <= k < i ==> s[k] != c
  {
    if s == "" || s[0] == c then 0 else 1 + IndexOf(s[1..], c)
  }

  /** The unescaping loop: the text so far, and whether a backslash is waiting for its character. */
  datatype Unescaping = Unescaping(text: string, escaped: bool)

  function UnescapeOne(u: Unescaping, c: char): Unescaping {
    if !u.escaped && c == '\\' then u.(escaped := true) else Unescaping(u.text + [c], false)
  }

  function Unescape(s: string): Unescaping {
    if s == "" then Unescaping("", false) else UnescapeOne(Unescape(s[..|s| - 1]), s[|s| - 1])
  }

  predicate StartsQuoted(raw: string) { raw != "" && raw[0] == '\"' }

  predicate FullyQuoted(raw: string) { |raw| >= 2 && raw[0] == '\"' && raw[|raw| - 1] == '\"' }

  function ParseValue(raw: string): Result<string> {
    if !StartsQuoted(raw) then Ok(raw)
    else if !FullyQuoted(raw) then Err(MalformedQuoted)
    else Ok(Unescape(raw[1..|raw| - 1]).text)
  }

  function RawValue(segment: string): string
    requires IndexOf(segment, '=') < |segment|
  {
    Trim(segment[IndexOf(segment, '=') + 1..])
  }

  function ParseParameter(segment: string): Result<(string, string)> {
    var i := IndexOf(segment, '=');
    if i == |segment| then Err(MissingValue)
    else
      var key := Trim(segment[..i]);
      if key == "" then Err(MissingKey)
      else
        match ParseValue(RawValue(segment))
        case Err(e) => Err(e)
        case Ok(v) => Ok((Lower(key), v))
  }

  /** Later parameters replace earlier ones of the same key. */
  function ParseParameters(segments: seq<string>): Result<Parameters> {
    if segments == [] then Ok(map[])
    else
      match ParseParameters(segments[..|segments| - 1])
      case Err(e) => Err(e)
      case Ok(m) =>
        match ParseParameter(segments[|segments| - 1])
        case Err(e) => Err(e)
        case Ok(p) => Ok(m[p.0 := p.1])
  }

  function ParseOptions(value: string): Result<(string, Parameters)> {
    if Scan(PLAIN, value) != PLAIN then Err(MalformedQuoted)
    else
      var segments := Pieces(value);
      var name := Trim(segments[0]);
      if name == "" then Err(MissingName)
      else
        match ParseParameters(segments[1..])
        case Err(e) => Err(e)
        case Ok(m) => Ok((name, m))
  }

  // ----- the loops

  lemma {:induction false} FirstErrorStays(segments: seq<string>, k: nat)
    requires k <= |segments| && ParseParameters(segments[..k]).Err?
    ensures ParseParameters(segments) == ParseParameters(segments[..k])
    decreases |segments|
  {
    if k == |segments| {
      assert segments[..k] == segments;
    } else {
      assert segments[..|segments| - 1][..k] == segments[..k];
      FirstErrorStays(segments[..|segments| - 1], k);
    }
  }

  method SplitSegments(value: string) returns (mode: Mode, segments: seq<string>)
    ensures mode == Scan(PLAIN, value)
    ensures mode == PLAIN ==> segments == Pieces(value)
  {
    hide Pieces, ExtendLast;
    segments := [];
    var start := 0;
    var quoted, escaped := false, false;
    assert Pieces("") == [""] by { PiecesOfNothing(); }
    for index := 0 to |value|
      invariant 0 <= start <= index
      invariant Mode(quoted, escaped) == Scan(PLAIN, value[..index])
      invariant escaped ==> quoted
      invariant segments + [value[start..index]] == Pieces(value[..index])
    {
      var character := value[index];
      assert value[..index + 1][..index] == value[..index];
      assert value[start..index + 1] == value[start..index] + [character];
      PiecesStep(value, index);
      ExtendLastIs(segments, value[start..index], [character]);
      assert value[index + 1..index + 1] == "";
      if escaped {
        escaped := false;
      } else if quoted && character == '\\' {
        escaped := true;
      } else if character == '\"' {
        quoted := !quoted;
      } else if character == ';' && !quoted {
        segments := segments + [value[start..index]];
        start := index + 1;
      }
    }
    assert value[..|value|] == value;
    mode := Mode(quoted, escaped);
    segments := segments + [value[start..]];
  }

  method UnescapeValue(raw: string) returns (parameter: string)
    requires FullyQuoted(raw)
    ensures parameter == Unescape(raw[1..|raw| - 1]).text
  {
    parameter := "";
    var inner := raw[1..|raw| - 1];
    var escaped := false;
    for i := 0 to |inner|
      invariant Unescaping(parameter, escaped) == Unescape(inner[..i])
    {
      assert inner[..i + 1][..i] == inner[..i];
      var character := inner[i];
      if escaped {
        parameter := parameter + [character];
        escaped := false;
      } else if character == '\\' {
        escaped := true;
      } else {
        parameter := parameter + [character];
      }
    }
    assert inner[..|inner|] == inner;
  }

  method ParseOptionsHeader(value: string) returns (r: Result<(string, Parameters)>)
    ensures r == ParseOptions(value)
  {
    hide Pieces, Trim, Lower, Unescape, Scan;
    var mode, segments := SplitSegments(value);
    if mode.quoted || mode.escaped {
      return Err(MalformedQuoted);
    }
    assert mode == PLAIN;
    var name := Trim(segments[0]);
    if name == "" {
      return Err(MissingName);
    }
    var rest := segments[1..];
    var parameters: Parameters := map[];
    for k := 0 to |rest|
      invariant ParseParameters(rest[..k]) == Ok(parameters)
    {
      var segment := rest[k];
      assert rest[..k + 1][..k] == rest[..k];
      FailsAt(rest, k);
      var i := IndexOf(segment, '=');
      if i == |segment| {
        return Err(MissingValue);
      }
      var key := Trim(segment[..i]);
      if key == "" {
        return Err(MissingKey);
      }
      var raw := Trim(segment[i + 1..]);
      var parameter := raw;
      if StartsQuoted(raw) {
        if !FullyQuoted(raw) {
          return Err(MalformedQuoted);
        }
        parameter := UnescapeValue(raw);
      }
      parameters := parameters[Lower(key) := parameter];
    }
    assert rest[..|rest|] == rest;
    return Ok((name, parameters));
  }

  lemma FailsAt(segments: seq<string>, k: nat)
    requires k < |segments| && ParseParameters(segments[..k]).Ok?
    ensures ParseParameter(segments[k]).Err? ==> ParseParameters(segments) == Err(ParseParameter(segments[k]).error)
  {
    hide ParseParameter;
    assert segments[..k + 1][..k] == segments[..k];
    if ParseParameter(segments[k]).Err? { FirstErrorStays(segments, k + 1); }
  }

  // ----- trimming and lower case in code points

  /** The code points with the property White_Space. */
  predicate White(c: char) {
    (c as int) in {9, 10, 11, 12, 13, 32, 0x85, 0xA0, 0x1680, 0x2000, 0x2001, 0x2002, 0x2003, 0x2004, 0x2005, 0x2006,
      0x2007, 0x2008, 0x2009, 0x200A, 0x2028, 0x2029, 0x202F, 0x205F, 0x3000}
  }

  predicate AllWhite(s: string) { forall k :: 0 <= k < |s| ==> White(s[k]) }

  /** Text without white space at its ends. */
  predicate Trimmed(s: string) { s != "" ==> !White(s[0]) && !White(s[|s| - 1]) }

  lemma IsSpaceIs(c: char)
    ensures IsSpace(c) <==> White(c)
  {
  }

  lemma AllSpaceIs(s: string)
    ensures AllSpace(s) <==> AllWhite(s)
  {
    forall c ensures IsSpace(c) <==> White(c) { IsSpaceIs(c); }
  }

  /** Trimming takes off exactly the white space at both ends. */
  lemma TrimIs(s: string) returns (a: string, b: string)
    ensures s == a + Trim(s) + b && AllWhite(a) && AllWhite(b) && Trimmed(Trim(s))
  {
    hide White;
    var t := TrimLeft(s);
    var n := LeadingSpaces(s);
    a := s[..n];
    b := t[|Trim(s)|..];
    assert t == Trim(s) + b;
    assert a + (Trim(s) + b) == a + Trim(s) + b;
    assert forall k :: 0 <= k < n ==> a[k] == s[k];
    AllSpaceIs(a);
    AllSpaceIs(b);
    if Trim(s) != "" {
      IsSpaceIs(Trim(s)[0]);
      IsSpaceIs(Trim(s)[|Trim(s)| - 1]);
      assert t[0] == s[n];
    }
  }

  lemma LeadingStops(s: string, n: nat)
    requires n <= |s| && AllSpace(s[..n]) && (n < |s| ==> !IsSpace(s[n]))
    ensures TrimLeft(s) == s[n..]
  {
    hide IsSpace;
    assert forall k :: 0 <= k < n ==> s[..n][k] == s[k];
  }

  lemma TrailingStops(s: string, n: nat)
    requires n <= |s| && AllSpace(s[n..]) && (n > 0 ==> !IsSpace(s[n - 1]))
    ensures TrimRight(s) == s[..n]
  {
    hide IsSpace;
    var r := TrimRight(s);
    assert forall k :: |r| <= k < |s| ==> s[|r|..][k - |r|] == s[k];
    assert forall k :: n <= k < |s| ==> s[n..][k - n] == s[k];
  }

  /** Only that text is left. */
  lemma TrimSurrounded(a: string, core: string, b: string)
    requires AllWhite(a) && AllWhite(b) && Trimmed(core)
    ensures Trim(a + core + b) == core
  {
    hide White, IsSpace;
    var s := a + core + b;
    AllSpaceIs(a);
    AllSpaceIs(b);
    if core == "" {
      assert s == a + b && s[..|s|] == s && s[|s|..] == "";
      LeadingStops(s, |s|);
      TrailingStops("", 0);
    } else {
      IsSpaceIs(core[0]);
      IsSpaceIs(core[|core| - 1]);
      assert s[..|a|] == a && s[|a|] == core[0] && s[|a|..] == core + b;
      LeadingStops(s, |a|);
      assert (core + b)[|core|..] == b && (core + b)[..|core|] == core;
      TrailingStops(core + b, |core|);
    }
  }

  /** Exactly the 26 upper-case letters are lowered. */
  lemma LowerIs(s: string, k: nat)
    requires k < |s|
    ensures |Lower(s)| == |s|
    ensures Lower(s)[k] as int == if 65 <= s[k] as int <= 90 then s[k] as int + 32 else s[k] as int
  {
  }

  // ----- when a header is accepted, and what a parameter means

  /** Quotes that are opened are closed again, where a backslash in quotes escapes any character. */
  predicate Balanced(s: string)
    decreases |s|
  {
    if s == "" then true else if s[0] == '\"' then ClosesQuote(s[1..]) else Balanced(s[1..])
  }

  predicate ClosesQuote(s: string)
    decreases |s|
  {
    if s == "" then false
    else if s[0] == '\\' then |s| > 1 && ClosesQuote(s[2..])
    else if s[0] == '\"' then Balanced(s[1..])
    else ClosesQuote(s[1..])
  }

  lemma ScanFirst(m: Mode, s: string)
    requires s != ""
    ensures Scan(m, s) == Scan(Advance(m, s[0]), s[1..])
  {
    assert s == [s[0]] + s[1..];
    ScanConcat(m, [s[0]], s[1..]);
    ScanOne(m, s[0]);
  }

  /** The quote scan accepts exactly the balanced texts. */
  lemma {:induction false} BalancedIff(s: string)
    ensures Scan(PLAIN, s) == PLAIN <==> Balanced(s)
    ensures Scan(Mode(true, false), s) == PLAIN <==> ClosesQuote(s)
    decreases |s|
  {
    hide Scan;
    if s == "" {
      ScanEmpty();
    } else {
      ScanFirst(PLAIN, s);
      ScanFirst(Mode(true, false), s);
      BalancedIff(s[1..]);
      if s[0] == '\\' {
        if |s| == 1 {
          assert s[1..] == "";
          ScanEmpty();
        } else {
          ScanFirst(Mode(true, true), s[1..]);
          assert s[1..][1..] == s[2..];
          BalancedIff(s[2..]);
        }
      }
    }
  }

  lemma ScanEmpty()
    ensures forall m :: Scan(m, "") == m
  {
  }

  lemma IndexIs(s: string, c: char, i: nat)
    requires i < |s| && s[i] == c && forall k :: 0 <= k < i ==> s[k] != c
    ensures IndexOf(s, c) == i
  {
    assert IndexOf(s, c) >= i;
  }

  /** A segment is split at its first '='. Its key must not be blank; its value is taken as it is, or
      unescaped if it is quoted from end to end. */
  lemma ParameterMeans(segment: string, i: nat)
    requires i <= |segment| && '=' !in segment[..i] && (i < |segment| ==> segment[i] == '=')
    ensures ParseParameter(segment) ==
      if i == |segment| then Err(MissingValue)
      else
        var raw := Trim(segment[i + 1..]);
        if AllWhite(segment[..i]) then Err(MissingKey)
        else if raw == "" || raw[0] != '\"' then Ok((Lower(Trim(segment[..i])), raw))
        else if |raw| == 1 || raw[|raw| - 1] != '\"' then Err(MalformedQuoted)
        else Ok((Lower(Trim(segment[..i])), Unescape(raw[1..|raw| - 1]).text))
  {
    hide Trim, Lower, Unescape, White;
    forall k | 0 <= k < i ensures segment[k] != '=' { assert segment[..i][k] == segment[k]; }
    if i < |segment| {
      IndexIs(segment, '=', i);
      BlankIff(segment[..i]);
    }
  }

  lemma BlankIff(s: string)
    ensures Trim(s) == "" <==> AllWhite(s)
  {
    hide White, Trim;
    var a, b := TrimIs(s);
    if Trim(s) != "" { assert Trim(s)[0] == s[|a|]; }
  }

  predicate FirstBad(segments: seq<string>, k: nat, e: OptionsError) {
    && k < |segments| && ParseParameter(segments[k]) == Err(e)
    && forall j :: 0 <= j < k ==> ParseParameter(segments[j]).Ok?
  }

  lemma {:induction false} ParametersFail(segments: seq<string>, e: OptionsError)
    ensures ParseParameters(segments) == Err(e) <==> exists k: nat :: FirstBad(segments, k, e)
    decreases |segments|
  {
    hide ParseParameter;
    if segments != [] {
      var n := |segments| - 1;
      var front := segments[..n];
      ParametersFail(front, e);
      if k: nat :| FirstBad(front, k, e) {
        assert FirstBad(segments, k, e) by { assert forall j :: 0 <= j < n ==> front[j] == segments[j]; }
      }
      if k: nat :| FirstBad(segments, k, e) && k < n {
        assert FirstBad(front, k, e) by { assert forall j :: 0 <= j < n ==> front[j] == segments[j]; }
      }
      ParametersFine(front);
      if ParseParameters(front).Ok? && ParseParameters(segments) == Err(e) { assert FirstBad(segments, n, e); }
    }
  }

  lemma {:induction false} ParametersFine(segments: seq<string>)
    ensures ParseParameters(segments).Ok? <==> forall j :: 0 <= j < |segments| ==> ParseParameter(segments[j]).Ok?
    decreases |segments|
  {
    hide ParseParameter;
    if segments != [] {
      var n := |segments| - 1;
      ParametersFine(segments[..n]);
      assert forall j :: 0 <= j < n ==> segments[..n][j] == segments[j];
    }
  }

  /** Exactly when each error is reported: unbalanced quotes first, then a blank name, then the first
      bad parameter. */
  lemma OptionsErrorIff(value: string, e: OptionsError)
    ensures ParseOptions(value) == Err(e) <==>
      if !Balanced(value) then e == MalformedQuoted
      else if AllWhite(Pieces(value)[0]) then e == MissingName
      else exists k: nat :: FirstBad(Pieces(value)[1..], k, e)
  {
    hide Scan, Pieces, Trim, ParseParameters, White, FirstBad, Balanced;
    BalancedIff(value);
    BlankIff(Pieces(value)[0]);
    ParametersFail(Pieces(value)[1..], e);
  }

  // ----- the two scans stay in step

  lemma {:induction false} ScanConcat(m: Mode, a: string, b: string)
    ensures Scan(m, a + b) == Scan(Scan(m, a), b)
    decreases |b|
  {
    if b == "" {
      assert a + b == a;
    } else {
      var n := |b| - 1;
      assert (a + b)[..|a + b| - 1] == a + b[..n];
      ScanConcat(m, a, b[..n]);
    }
  }

  function JoinPieces(pieces: seq<string>): string
    requires pieces != []
  {
    if |pieces| == 1 then pieces[0] else JoinPieces(pieces[..|pieces| - 1]) + ";" + pieces[|pieces| - 1]
  }

  lemma JoinExtended(r: seq<string>, s: string)
    requires r != []
    ensures JoinPieces(ExtendLast(r, s)) == JoinPieces(r) + s
  {
    var front, last := r[..|r| - 1], r[|r| - 1];
    var t := ExtendLast(r, s);
    assert t[..|t| - 1] == front && t[|t| - 1] == last + s;
    if |r| > 1 {
      var joined := JoinPieces(front) + ";";
      assert joined + (last + s) == (joined + last) + s;
    }
  }

  lemma JoinAdded(r: seq<string>)
    requires r != []
    ensures JoinPieces(r + [""]) == JoinPieces(r) + ";"
  {
    var t := r + [""];
    assert t[..|t| - 1] == r && t[|t| - 1] == "";
    assert JoinPieces(r) + ";" + "" == JoinPieces(r) + ";";
  }

  /** Nothing is lost by the split, and every segment but the last begins and ends outside quotes. */
  lemma {:induction false} PiecesJoin(s: string)
    ensures JoinPieces(Pieces(s)) == s
    ensures forall k :: 0 <= k < |Pieces(s)| - 1 ==> Scan(PLAIN, Pieces(s)[k]) == PLAIN
    ensures Scan(PLAIN, Pieces(s)[|Pieces(s)| - 1]) == Scan(PLAIN, s)
    decreases |s|
  {
    hide JoinPieces, Scan, Pieces, Splits;
    if s == "" {
      PiecesOfNothing();
      ScanNothing();
      assert JoinPieces([""]) == "" by { JoinOne(""); }
    } else {
      var n := |s| - 1;
      var front, c := s[..n], s[n];
      var r := Pieces(front);
      PiecesJoin(front);
      PiecesStep(s, n);
      assert s[..n + 1] == s && front + [c] == s;
      if Splits(Scan(PLAIN, front), c) {
        JoinAdded(r);
        SplitIsPlain(Scan(PLAIN, front), c);
        ScanNothing();
        ScanConcat(PLAIN, front, [c]);
        ScanOne(PLAIN, c);
      } else {
        JoinExtended(r, [c]);
        ScanConcat(PLAIN, front, [c]);
        ScanConcat(PLAIN, r[|r| - 1], [c]);
      }
    }
  }

  /** No segment has a semicolon outside quotes left. */
  lemma {:induction false} PiecesWhole(s: string)
    ensures forall k :: 0 <= k < |Pieces(s)| ==> Unsplit(PLAIN, Pieces(s)[k])
    decreases |s|
  {
    hide Scan, Pieces, Splits, Unsplit;
    if s == "" {
      PiecesOfNothing();
      UnsplitPlain(PLAIN, "");
    } else {
      var n := |s| - 1;
      var front, c := s[..n], s[n];
      var r := Pieces(front);
      PiecesWhole(front);
      PiecesJoin(front);
      PiecesStep(s, n);
      assert s[..n + 1] == s;
      UnsplitPlain(PLAIN, "");
      UnsplitMore(PLAIN, r[|r| - 1], c);
    }
  }

  lemma UnsplitMore(m: Mode, s: string, c: char)
    requires Unsplit(m, s)
    ensures !Splits(Scan(m, s), c) ==> Unsplit(m, s + [c])
  {
    hide Scan;
    var t := s + [c];
    assert forall k :: 0 <= k <= |s| ==> t[..k] == s[..k];
    assert s[..|s|] == s;
  }

  lemma SplitIsPlain(m: Mode, c: char)
    requires Splits(m, c)
    ensures m == PLAIN && c == ';' && Advance(m, c) == PLAIN
  {
  }

  lemma JoinOne(s: string)
    ensures JoinPieces([s]) == s
  {
  }

  lemma PiecesOfNothing()
    ensures Pieces("") == [""]
  {
  }

  /** Inside quotes both scans agree on whether a character is escaped. */
  predicate InStep(m: Mode, u: bool) { m.quoted ==> m.escaped == u }

  lemma {:induction false} InnerInStep(m: Mode, s: string)
    requires InStep(m, false) && (m.escaped ==> m.quoted)
    ensures InStep(Scan(m, s), Unescape(s).escaped) && (Scan(m, s).escaped ==> Scan(m, s).quoted)
    decreases |s|
  {
    if s != "" { InnerInStep(m, s[..|s| - 1]); }
  }

  lemma {:induction false} SpacesKeepQuotes(m: Mode, s: string)
    requires AllSpace(s)
    requires m.escaped ==> m.quoted
    ensures Scan(m, s).quoted == m.quoted
    decreases |s|
  {
    if s != "" {
      SpacesKeepQuotes(m, s[..|s| - 1]);
      assert IsSpace(s[|s| - 1]);
    }
  }

  lemma {:induction false} EscapedIsQuoted(s: string)
    ensures Scan(PLAIN, s).escaped ==> Scan(PLAIN, s).quoted
  {
    if s != "" { EscapedIsQuoted(s[..|s| - 1]); }
  }

  lemma TrimSplit(s: string) returns (a: string, b: string)
    ensures s == a + Trim(s) + b && AllSpace(b)
  {
    hide AllSpace, LeadingSpaces, TrimRight, IsSpace;
    var t := TrimLeft(s);
    a := s[..LeadingSpaces(s)];
    b := t[|Trim(s)|..];
    assert t == Trim(s) + b;
    assert a + (Trim(s) + b) == a + Trim(s) + b;
  }

  /** Whatever the quotes before it, a fully quoted value whose scan ends outside quotes is
      unescaped without a backslash left over. */
  lemma QuotedInStep(m: Mode, raw: string)
    requires FullyQuoted(raw) && (m.escaped ==> m.quoted) && !Scan(m, raw).quoted
    ensures !Unescape(raw[1..|raw| - 1]).escaped
  {
    var inner := raw[1..|raw| - 1];
    var n := |raw| - 1;
    assert raw[..1] == "\"" && raw[..1][..0] == "";
    var m1 := Advance(m, '\"');
    assert Scan(m, raw[..1]) == m1;
    assert raw[..n] == raw[..1] + inner;
    ScanConcat(m, raw[..1], inner);
    InnerInStep(m1, inner);
  }

  /** For every header that passes the quote scan, every quoted parameter is unescaped completely,
      even when quotes were closed and reopened, or stood in the key. */
  lemma ScansStayInStep(value: string, k: nat)
    requires Scan(PLAIN, value) == PLAIN && k < |Pieces(value)|
    requires var segment := Pieces(value)[k];
      IndexOf(segment, '=') < |segment| && FullyQuoted(RawValue(segment))
    ensures var raw := RawValue(Pieces(value)[k]);
      !Unescape(raw[1..|raw| - 1]).escaped
  {
    hide Scan, Unescape, Trim, Pieces;
    PiecesJoin(value);
    var segment := Pieces(value)[k];
    var i := IndexOf(segment, '=');
    var raw := RawValue(segment);
    var a, b := TrimSplit(segment[i + 1..]);
    var before := segment[..i + 1] + a;
    assert segment == before + raw + b;
    ScanConcat(PLAIN, before + raw, b);
    ScanConcat(PLAIN, before, raw);
    EscapedIsQuoted(before + raw);
    EscapedIsQuoted(before);
    SpacesKeepQuotes(Scan(PLAIN, before + raw), b);
    QuotedInStep(Scan(PLAIN, before), raw);
  }

  // ----- round trip

  function Escape(v: string): string {
    if v == "" then ""
    else
      var front, c := Escape(v[..|v| - 1]), v[|v| - 1];
      front + (if c == '\"' || c == '\\' then ['\\', c] else [c])
  }

  /** A parameter as it may be written: white space around key and value, the value quoted or bare. */
  datatype Parameter = Parameter(
    lead: string, key: string, mid: string, gap: string, quoted: bool, value: string, trail: string)

  function PrintValue(p: Parameter): string {
    if p.quoted then "\"" + Escape(p.value) + "\"" else p.value
  }

  function PrintParameter(p: Parameter): string {
    (p.lead + p.key + p.mid + "=" + p.gap) + PrintValue(p) + p.trail
  }

  function PrintOptions(name: string, parameters: seq<Parameter>): string {
    if parameters == [] then name
    else PrintOptions(name, parameters[..|parameters| - 1]) + ";" + PrintParameter(parameters[|parameters| - 1])
  }

  /** Keys count in lower case. */
  function Meant(parameters: seq<Parameter>): (r: seq<(string, string)>)
    ensures |r| == |parameters|
    ensures forall k :: 0 <= k < |parameters| ==> r[k] == (Lower(parameters[k].key), parameters[k].value)
  {
    seq(|parameters|, k requires 0 <= k < |parameters| => (Lower(parameters[k].key), parameters[k].value))
  }

  function MapOf(parameters: seq<(string, string)>): Parameters {
    if parameters == [] then map[]
    else
      var last := parameters[|parameters| - 1];
      MapOf(parameters[..|parameters| - 1])[last.0 := last.1]
  }

  predicate PrintableName(name: string) {
    name != "" && Trimmed(name) && ';' !in name && '\"' !in name
  }

  /** Keys in any case; quoted values are arbitrary, bare ones are trimmed and free of ';' and '"'. */
  predicate PrintableParameter(p: Parameter) {
    && PrintableName(p.key) && '=' !in p.key
    && AllWhite(p.lead) && AllWhite(p.mid) && AllWhite(p.gap) && AllWhite(p.trail)
    && (!p.quoted ==> Trimmed(p.value) && ';' !in p.value && '\"' !in p.value)
  }

  lemma {:induction false} UnescapeConcat(s: string, c: char)
    ensures Unescape(s + [c]) == UnescapeOne(Unescape(s), c)
  {
    assert (s + [c])[..|s|] == s;
  }

  lemma {:induction false} UnescapeEscape(v: string)
    ensures Unescape(Escape(v)) == Unescaping(v, false)
    decreases |v|
  {
    hide Unescape;
    if v == "" {
      UnescapeNothing();
    } else {
      var n := |v| - 1;
      UnescapeEscape(v[..n]);
      UnescapeAfter(Escape(v[..n]), v[n]);
      assert v[..n] + [v[n]] == v;
    }
  }

  lemma UnescapeNothing()
    ensures Unescape("") == Unescaping("", false)
  {
  }

  lemma UnescapeAfter(e: string, c: char)
    requires !Unescape(e).escaped
    ensures Unescape(e + if c == '\"' || c == '\\' then ['\\', c] else [c]) == Unescaping(Unescape(e).text + [c], false)
  {
    hide Unescape;
    if c == '\"' || c == '\\' {
      UnescapeConcat(e, '\\');
      UnescapeConcat(e + ['\\'], c);
      assert e + ['\\', c] == (e + ['\\']) + [c];
    } else {
      UnescapeConcat(e, c);
    }
  }

  lemma ScanOne(m: Mode, c: char)
    ensures Scan(m, [c]) == Advance(m, c)
  {
    assert [c][..0] == "";
  }

  lemma {:induction false} ScanEscaped(v: string)
    ensures Scan(Mode(true, false), Escape(v)) == Mode(true, false)
    decreases |v|
  {
    if v != "" {
      var front, c := v[..|v| - 1], v[|v| - 1];
      ScanEscaped(front);
      if c == '\"' || c == '\\' {
        assert ['\\', c][..1] == ['\\'] && ['\\'][..0] == "";
        ScanConcat(Mode(true, false), Escape(front), ['\\', c]);
      } else {
        ScanOne(Mode(true, false), c);
        ScanConcat(Mode(true, false), Escape(front), [c]);
      }
    }
  }

  lemma {:induction false} ScanPlain(s: string)
    requires '\"' !in s
    ensures Scan(PLAIN, s) == PLAIN
    decreases |s|
  {
    if s != "" { ScanPlain(s[..|s| - 1]); }
  }

  /** Appending text that never leaves a semicolon outside quotes extends the last segment. */
  predicate Unsplit(m: Mode, s: string) {
    forall k :: 0 <= k < |s| ==> !Splits(Scan(m, s[..k]), s[k])
  }

  lemma {:induction false} PiecesExtend(a: string, b: string)
    requires Unsplit(Scan(PLAIN, a), b)
    ensures Pieces(a + b) == ExtendLast(Pieces(a), b)
    decreases |b|
  {
    hide Pieces, Scan, Splits, ExtendLast;
    if b == "" {
      assert a + b == a;
      ExtendNothing(Pieces(a));
    } else {
      var n := |b| - 1;
      var m := Scan(PLAIN, a);
      assert Unsplit(m, b[..n]) by {
        forall k | 0 <= k < n ensures !Splits(Scan(m, b[..n][..k]), b[..n][k]) { assert b[..n][..k] == b[..k]; }
      }
      PiecesExtend(a, b[..n]);
      var s := a + b;
      assert s[..|a| + n] == a + b[..n] && s[..|a| + n + 1] == s;
      ScanConcat(PLAIN, a, b[..n]);
      PiecesStep(s, |a| + n);
      ExtendTwice(Pieces(a), b[..n], [b[n]]);
      assert b[..n] + [b[n]] == b;
    }
  }

  lemma UnsplitConcat(m: Mode, a: string, b: string)
    requires Unsplit(m, a) && Unsplit(Scan(m, a), b)
    ensures Unsplit(m, a + b)
  {
    forall k | 0 <= k < |a + b| ensures !Splits(Scan(m, (a + b)[..k]), (a + b)[k]) {
      if k < |a| {
        assert (a + b)[..k] == a[..k];
      } else {
        assert (a + b)[..k] == a + b[..k - |a|];
        ScanConcat(m, a, b[..k - |a|]);
      }
    }
  }

  lemma UnsplitPlain(m: Mode, s: string)
    requires ';' !in s
    ensures Unsplit(m, s)
  {
  }

  lemma {:induction false} UnsplitEscaped(v: string)
    ensures Unsplit(Mode(true, false), Escape(v))
    decreases |v|
  {
    if v != "" {
      var front, c := v[..|v| - 1], v[|v| - 1];
      var m := Mode(true, false);
      UnsplitEscaped(front);
      ScanEscaped(front);
      if c == '\"' || c == '\\' {
        UnsplitPlain(m, ['\\', c]);
        UnsplitConcat(m, Escape(front), ['\\', c]);
      } else {
        assert [c][..0] == "";
        UnsplitConcat(m, Escape(front), [c]);
      }
    }
  }

  lemma WhiteIsFree(s: string)
    requires AllWhite(s)
    ensures ';' !in s && '\"' !in s && '=' !in s
  {
  }

  /** A printed value is one segment that starts and ends outside quotes. */
  lemma PrintedValue(p: Parameter)
    requires PrintableParameter(p)
    ensures Unsplit(PLAIN, PrintValue(p)) && Scan(PLAIN, PrintValue(p)) == PLAIN
  {
    hide Unsplit, Scan, Escape, White;
    if p.quoted {
      var quote := "\"";
      var inside := Mode(true, false);
      var text := Escape(p.value);
      ScanOne(PLAIN, '\"');
      ScanOne(inside, '\"');
      UnsplitPlain(PLAIN, quote);
      UnsplitPlain(inside, quote);
      ScanEscaped(p.value);
      UnsplitEscaped(p.value);
      ScanConcat(PLAIN, quote, text);
      UnsplitConcat(PLAIN, quote, text);
      ScanConcat(PLAIN, quote + text, quote);
      UnsplitConcat(PLAIN, quote + text, quote);
    } else {
      ScanPlain(p.value);
      UnsplitPlain(PLAIN, p.value);
    }
  }

  lemma PrintedSegment(p: Parameter)
    requires PrintableParameter(p)
    ensures Unsplit(PLAIN, PrintParameter(p)) && Scan(PLAIN, PrintParameter(p)) == PLAIN
  {
    hide Unsplit, Scan, Escape, White, PrintValue;
    var head := p.lead + p.key + p.mid + "=" + p.gap;
    WhiteIsFree(p.lead);
    WhiteIsFree(p.mid);
    WhiteIsFree(p.gap);
    WhiteIsFree(p.trail);
    ScanPlain(head);
    UnsplitPlain(PLAIN, head);
    PrintedValue(p);
    ScanConcat(PLAIN, head, PrintValue(p));
    UnsplitConcat(PLAIN, head, PrintValue(p));
    ScanPlain(p.trail);
    UnsplitPlain(PLAIN, p.trail);
    ScanConcat(PLAIN, head + PrintValue(p), p.trail);
    UnsplitConcat(PLAIN, head + PrintValue(p), p.trail);
  }

  lemma ParsePrinted(p: Parameter)
    requires PrintableParameter(p)
    ensures ParseParameter(PrintParameter(p)) == Ok((Lower(p.key), p.value))
  {
    hide Scan, Escape, Unescape, Trim, Lower, White, PrintValue;
    var s := PrintParameter(p);
    var front := p.lead + p.key + p.mid;
    var n := |front|;
    assert s == front + ("=" + p.gap + PrintValue(p) + p.trail);
    WhiteIsFree(p.lead);
    WhiteIsFree(p.mid);
    assert s[..n] == front && s[n + 1..] == p.gap + PrintValue(p) + p.trail;
    TrimSurrounded(p.lead, p.key, p.mid);
    assert front[|p.lead|] == p.key[0];
    ValueTrimmed(p);
    TrimSurrounded(p.gap, PrintValue(p), p.trail);
    ParameterMeans(s, n);
    ValueRead(p);
  }

  lemma ValueTrimmed(p: Parameter)
    requires PrintableParameter(p)
    ensures Trimmed(PrintValue(p))
  {
    hide Escape;
  }

  lemma ValueRead(p: Parameter)
    requires PrintableParameter(p)
    ensures var raw := PrintValue(p);
      if p.quoted then
        |raw| > 1 && raw[0] == '\"' && raw[|raw| - 1] == '\"' && Unescape(raw[1..|raw| - 1]).text == p.value
      else raw == p.value && (raw == "" || raw[0] != '\"')
  {
    hide Escape, Unescape, White;
    if p.quoted {
      assert PrintValue(p)[1..|PrintValue(p)| - 1] == Escape(p.value);
      UnescapeEscape(p.value);
    }
  }

  lemma {:induction false} PrintedPieces(name: string, parameters: seq<Parameter>)
    requires PrintableName(name)
    requires forall k :: 0 <= k < |parameters| ==> PrintableParameter(parameters[k])
    ensures var s := PrintOptions(name, parameters);
      && Scan(PLAIN, s) == PLAIN
      && Pieces(s) == [name] + seq(|parameters|, k requires 0 <= k < |parameters| => PrintParameter(parameters[k]))
    decreases |parameters|
  {
    hide Scan, PrintParameter, PrintableParameter, Trim, Lower, Unsplit, Pieces, ExtendLast, White;
    if parameters == [] {
      ScanPlain(name);
      PiecesOfName(name);
    } else {
      var n := |parameters| - 1;
      var front, last := parameters[..n], PrintParameter(parameters[n]);
      PrintedPieces(name, front);
      var s := PrintOptions(name, front);
      PrintedSegment(parameters[n]);
      ScanOne(PLAIN, ';');
      ScanConcat(PLAIN, s, ";");
      ScanConcat(PLAIN, s + ";", last);
      SemicolonSplits(s);
      PiecesExtend(s + ";", last);
      ExtendLastIs(Pieces(s), "", last);
      assert "" + last == last;
    }
  }

  lemma SemicolonSplits(s: string)
    requires Scan(PLAIN, s) == PLAIN
    ensures Pieces(s + ";") == Pieces(s) + [""]
  {
    assert (s + ";")[..|s|] == s;
  }

  lemma PiecesOfName(name: string)
    requires ';' !in name
    ensures Pieces(name) == [name]
  {
    hide Scan, Unsplit;
    ScanNothing();
    UnsplitPlain(PLAIN, name);
    PiecesExtend("", name);
    PiecesOfNothing();
    ExtendLastIs([], "", name);
    assert [] + [""] == [""] && "" + name == name;
  }

  lemma ScanNothing()
    ensures Scan(PLAIN, "") == PLAIN
  {
  }

  lemma {:induction false} ParametersPrinted(parameters: seq<Parameter>, segments: seq<string>)
    requires |segments| == |parameters|
    requires forall k :: 0 <= k < |parameters| ==>
      PrintableParameter(parameters[k]) && segments[k] == PrintParameter(parameters[k])
    ensures ParseParameters(segments) == Ok(MapOf(Meant(parameters)))
    decreases |segments|
  {
    hide PrintParameter, ParseParameter, PrintableParameter;
    if segments != [] {
      var n := |segments| - 1;
      ParametersPrinted(parameters[..n], segments[..n]);
      ParsePrinted(parameters[n]);
      assert Meant(parameters)[..n] == Meant(parameters[..n]);
    }
  }

  /** Round trip: writing a name and parameters, quoted or bare, with keys in any case and white space
      around keys and values, and parsing the header, gives the name and exactly those parameters under
      lower-case keys, the last value for a repeated key. */
  lemma OptionsRoundTrip(name: string, parameters: seq<Parameter>)
    requires PrintableName(name)
    requires forall k :: 0 <= k < |parameters| ==> PrintableParameter(parameters[k])
    ensures ParseOptions(PrintOptions(name, parameters)) == Ok((name, MapOf(Meant(parameters))))
  {
    hide Scan, Pieces, PrintParameter, PrintOptions, ParseParameters, MapOf, Trim, Lower, White;
    PrintedPieces(name, parameters);
    TrimSurrounded("", name, "");
    assert "" + name + "" == name;
    var segments := Pieces(PrintOptions(name, parameters));
    ParametersPrinted(parameters, segments[1..]);
  }

  predicate LastOfKey(parameters: seq<(string, string)>, k: int) {
    0 <= k < |parameters| && forall j :: k < j < |parameters| ==> parameters[j].0 != parameters[k].0
  }

  /** The map has the last value of each key. */
  lemma {:induction false} MapOfLast(parameters: seq<(string, string)>, k: int)
    requires LastOfKey(parameters, k)
    ensures parameters[k].0 in MapOf(parameters) && MapOf(parameters)[parameters[k].0] == parameters[k].1
    decreases |parameters|
  {
    var n := |parameters| - 1;
    if k < n { MapOfLast(parameters[..n], k); }
  }

  /** No other keys are in it. */
  lemma {:induction false} MapOfKeys(parameters: seq<(string, string)>, key: string)
    requires key in MapOf(parameters)
    ensures exists k :: LastOfKey(parameters, k) && parameters[k].0 == key
    decreases |parameters|
  {
    var n := |parameters| - 1;
    if key == parameters[n].0 {
      assert LastOfKey(parameters, n);
    } else {
      MapOfKeys(parameters[..n], key);
      var k :| LastOfKey(parameters[..n], k) && parameters[..n][k].0 == key;
      assert LastOfKey(parameters, k);
    }
  }
}
