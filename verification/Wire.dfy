/**
 The wire format of the codec: typed values one after the other. A span is a list of values
 following a schema; everything about framing (round trip, canonical form, self-delimitation)
 is proved once, for every schema.
 */
module Wire {
  import opened Bytes
  import opened Wrappers

  datatype DecodeError = Truncated | InvalidUtf8 | UnknownTag(tag: byte) | TrailingBytes

  datatype Type = Raw(width: nat) | Flag | Text | OptText | OptRaw(optWidth: nat)

  datatype Value =
    | RawV(bytes: seq<byte>)
    | FlagV(flag: bool)
    | TextV(text: Utf8)
    | OptTextV(optText: Option<Utf8>)
    | OptRawV(optBytes: Option<seq<byte>>)

  predicate HasType(v: Value, ty: Type) {
    match (v, ty)
    case (RawV(bytes), Raw(width)) => |bytes| == width
    case (FlagV(_), Flag) => true
    case (TextV(text), Text) => |text| <= U32_MAX
    case (OptTextV(text), OptText) => text.Some? ==> |text.value| <= U32_MAX
    case (OptRawV(bytes), OptRaw(width)) => bytes.Some? ==> |bytes.value| == width
    case _ => false
  }

  predicate HasTypes(vs: seq<Value>, tys: seq<Type>) {
    |vs| == |tys| && forall i :: 0 <= i < |vs| ==> HasType(vs[i], tys[i])
  }

  // ---------------------------------------------------------------------
  // Encoding
  // ---------------------------------------------------------------------

  /** Length prefix (saturating at 2^32 - 1) and that many bytes of the text. */
  function EncText(text: seq<byte>): seq<byte> {
    var len := if |text| <= U32_MAX then |text| else U32_MAX;
    ToLE(len, 4) + text[..len]
  }

  function Enc(v: Value): seq<byte> {
    match v
    case RawV(bytes) => bytes
    case FlagV(flag) => [if flag then 1 else 0]
    case TextV(text) => EncText(text)
    case OptTextV(None) => [0]
    case OptTextV(Some(text)) => [1] + EncText(text)
    case OptRawV(None) => [0]
    case OptRawV(Some(bytes)) => [1] + bytes
  }

  function EncAll(vs: seq<Value>): seq<byte> {
    if vs == [] then [] else Enc(vs[0]) + EncAll(vs[1..])
  }

  lemma EncAllCons(v: Value, vs: seq<Value>)
    ensures EncAll([v] + vs) == Enc(v) + EncAll(vs)
  {
    assert ([v] + vs)[1..] == vs;
  }

  lemma {:induction false} EncAllConcat(a: seq<Value>, b: seq<Value>)
    ensures EncAll(a + b) == EncAll(a) + EncAll(b)
  {
    if a == [] {
      assert a + b == b;
    } else {
      calc {
        EncAll(a + b);
        { assert a + b == [a[0]] + (a[1..] + b); EncAllCons(a[0], a[1..] + b); }
        Enc(a[0]) + EncAll(a[1..] + b);
        { EncAllConcat(a[1..], b); }
        Enc(a[0]) + (EncAll(a[1..]) + EncAll(b));
        { Assoc(Enc(a[0]), EncAll(a[1..]), EncAll(b)); }
        EncAll(a) + EncAll(b);
      }
    }
  }

  lemma EncAllNext(vs: seq<Value>, n: nat)
    requires n < |vs|
    ensures EncAll(vs[..n + 1]) == EncAll(vs[..n]) + Enc(vs[n])
  {
    assert vs[..n + 1] == vs[..n] + [vs[n]];
    EncAllConcat(vs[..n], [vs[n]]);
    assert EncAll([vs[n]]) == Enc(vs[n]) + EncAll([]);
  }

  // ---------------------------------------------------------------------
  // Decoding
  // ---------------------------------------------------------------------

  function Take(len: nat, bytes: seq<byte>): Result<(seq<byte>, seq<byte>), DecodeError> {
    if len > |bytes| then Err(Truncated) else Ok((bytes[..len], bytes[len..]))
  }

  function DecText(bytes: seq<byte>): (r: Result<(Utf8, seq<byte>), DecodeError>) {
    var (prefix, body) :- Take(4, bytes);
    var (text, rest) :- Take(FromLE(prefix), body);
    if ValidUtf8(text) then Ok((text, rest)) else Err(InvalidUtf8)
  }

  function Dec(ty: Type, bytes: seq<byte>): Result<(Value, seq<byte>), DecodeError> {
    match ty
    case Raw(width) =>
      var (raw, rest) :- Take(width, bytes);
      Ok((RawV(raw), rest))
    case Flag =>
      var (tag, rest) :- Take(1, bytes);
      if tag[0] > 1 then Err(UnknownTag(tag[0])) else Ok((FlagV(tag[0] == 1), rest))
    case Text =>
      var (text, rest) :- DecText(bytes);
      Ok((TextV(text), rest))
    case OptText =>
      var (tag, body) :- Take(1, bytes);
      if tag[0] > 1 then Err(UnknownTag(tag[0]))
      else if tag[0] == 0 then Ok((OptTextV(None), body))
      else
        var (text, rest) :- DecText(body);
        Ok((OptTextV(Some(text)), rest))
    case OptRaw(width) =>
      var (tag, body) :- Take(1, bytes);
      if tag[0] > 1 then Err(UnknownTag(tag[0]))
      else if tag[0] == 0 then Ok((OptRawV(None), body))
      else
        var (raw, rest) :- Take(width, body);
        Ok((OptRawV(Some(raw)), rest))
  }

  function DecAll(tys: seq<Type>, bytes: seq<byte>): (r: Result<(seq<Value>, seq<byte>), DecodeError>)
    ensures r.Ok? ==> |r.value.0| == |tys|
    decreases |tys|, |bytes|
  {
    if tys == [] then Ok(([], bytes))
    else
      var (v, rest) :- Dec(tys[0], bytes);
      var (vs, rest') :- DecAll(tys[1..], rest);
      Ok(([v] + vs, rest'))
  }

  // ---------------------------------------------------------------------
  // Framing laws of a single value
  // ---------------------------------------------------------------------

  lemma TextRoundTrips(text: Utf8, rest: seq<byte>)
    requires |text| <= U32_MAX
    ensures DecText(EncText(text) + rest) == Ok((text, rest))
  {
    Pow256Values();
    FromLEOfToLE(|text|, 4);
    var bytes := EncText(text) + rest;
    assert text[..|text|] == text;
    assert bytes[..4] == ToLE(|text|, 4) && bytes[4..] == text + rest;
    assert bytes[4..][..|text|] == text && bytes[4..][|text|..] == rest;
  }

  lemma TextIsCanonical(bytes: seq<byte>)
    requires DecText(bytes).Ok?
    ensures var (text, rest) := DecText(bytes).value;
            |text| <= U32_MAX && bytes == EncText(text) + rest
  {
    Pow256Values();
    FromLEBound(bytes[..4]);
    ToLEOfFromLE(bytes[..4]);
    var (text, rest) := DecText(bytes).value;
    assert text[..|text|] == text;
    assert bytes == bytes[..4] + bytes[4..] && bytes[4..] == text + rest;
  }

  lemma TextPrefixTruncated(text: Utf8, p: seq<byte>)
    requires |text| <= U32_MAX && p < EncText(text)
    ensures DecText(p) == Err(Truncated)
  {
    Pow256Values();
    FromLEOfToLE(|text|, 4);
    if |p| >= 4 {
      assert p[..4] == EncText(text)[..4] == ToLE(|text|, 4);
    }
  }

  lemma TakeFront(a: seq<byte>, rest: seq<byte>)
    ensures Take(|a|, a + rest) == Ok((a, rest))
  {
    assert (a + rest)[..|a|] == a && (a + rest)[|a|..] == rest;
  }

  lemma ValueRoundTrips(v: Value, ty: Type, rest: seq<byte>)
    requires HasType(v, ty)
    ensures Dec(ty, Enc(v) + rest) == Ok((v, rest))
  {
    match v
    case RawV(raw) => TakeFront(raw, rest);
    case FlagV(_) => TakeFront(Enc(v), rest);
    case TextV(text) => TextRoundTrips(text, rest); hide EncText, DecText;
    case OptTextV(text) => OptTextRoundTrips(text, rest); hide Enc, Dec;
    case OptRawV(raw) => OptRawRoundTrips(raw, ty.optWidth, rest); hide Enc, Dec;
  }

  lemma OptTextRoundTrips(text: Option<Utf8>, rest: seq<byte>)
    requires text.Some? ==> |text.value| <= U32_MAX
    ensures Dec(OptText, Enc(OptTextV(text)) + rest) == Ok((OptTextV(text), rest))
  {
    if text.None? {
      TakeFront([0], rest);
    } else {
      var body := EncText(text.value) + rest;
      Assoc([1], EncText(text.value), rest);
      TakeFront([1], body);
      TextRoundTrips(text.value, rest);
      hide EncText, DecText, Take;
    }
  }

  lemma OptRawRoundTrips(raw: Option<seq<byte>>, width: nat, rest: seq<byte>)
    requires raw.Some? ==> |raw.value| == width
    ensures Dec(OptRaw(width), Enc(OptRawV(raw)) + rest) == Ok((OptRawV(raw), rest))
  {
    if raw.None? {
      TakeFront([0], rest);
    } else {
      Assoc([1], raw.value, rest);
      TakeFront([1], raw.value + rest);
      TakeFront(raw.value, rest);
      hide Take;
    }
  }

  lemma TakeIsSplit(len: nat, bytes: seq<byte>)
    requires Take(len, bytes).Ok?
    ensures bytes == Take(len, bytes).value.0 + Take(len, bytes).value.1
  {
  }

  lemma OptTextIsCanonical(bytes: seq<byte>)
    requires Dec(OptText, bytes).Ok?
    ensures var (v, rest) := Dec(OptText, bytes).value;
            HasType(v, OptText) && bytes == Enc(v) + rest
  {
    var body := bytes[1..];
    assert bytes == [bytes[0]] + body;
    if bytes[0] == 1 {
      TextIsCanonical(body);
      var (text, rest) := DecText(body).value;
      Assoc([1], EncText(text), rest);
    }
  }

  lemma OptRawIsCanonical(width: nat, bytes: seq<byte>)
    requires Dec(OptRaw(width), bytes).Ok?
    ensures var (v, rest) := Dec(OptRaw(width), bytes).value;
            HasType(v, OptRaw(width)) && bytes == Enc(v) + rest
  {
    var body := bytes[1..];
    assert bytes == [bytes[0]] + body;
    if bytes[0] == 1 {
      TakeIsSplit(width, body);
      Assoc([1], body[..width], body[width..]);
    }
  }

  lemma ValueIsCanonical(ty: Type, bytes: seq<byte>)
    requires Dec(ty, bytes).Ok?
    ensures var (v, rest) := Dec(ty, bytes).value;
            HasType(v, ty) && bytes == Enc(v) + rest
  {
    match ty
    case Raw(width) => TakeIsSplit(width, bytes);
    case Flag => TakeIsSplit(1, bytes);
    case Text => TextIsCanonical(bytes);
    case OptText => OptTextIsCanonical(bytes);
    case OptRaw(width) => OptRawIsCanonical(width, bytes);
  }

  lemma ValuePrefixTruncated(v: Value, ty: Type, p: seq<byte>)
    requires HasType(v, ty) && p < Enc(v)
    ensures Dec(ty, p) == Err(Truncated)
  {
    if |p| > 0 {
      match v
      case TextV(text) => TextPrefixTruncated(text, p);
      case OptTextV(Some(text)) =>
        assert p[1..] < EncText(text);
        TextPrefixTruncated(text, p[1..]);
      case _ =>
    }
  }

  // ---------------------------------------------------------------------
  // Framing laws of a whole schema
  // ---------------------------------------------------------------------

  lemma {:induction false} RoundTrips(vs: seq<Value>, tys: seq<Type>, rest: seq<byte>)
    requires HasTypes(vs, tys)
    ensures DecAll(tys, EncAll(vs) + rest) == Ok((vs, rest))
    decreases tys
  {
    if tys != [] {
      assert EncAll(vs) + rest == Enc(vs[0]) + (EncAll(vs[1..]) + rest);
      ValueRoundTrips(vs[0], tys[0], EncAll(vs[1..]) + rest);
      RoundTrips(vs[1..], tys[1..], rest);
      assert [vs[0]] + vs[1..] == vs;
    } else {
      assert EncAll(vs) + rest == rest;
    }
  }

  lemma {:induction false} IsCanonical(tys: seq<Type>, bytes: seq<byte>)
    requires DecAll(tys, bytes).Ok?
    ensures var (vs, rest) := DecAll(tys, bytes).value;
            HasTypes(vs, tys) && bytes == EncAll(vs) + rest
    decreases tys
  {
    if tys != [] {
      ValueIsCanonical(tys[0], bytes);
      var (v, rest) := Dec(tys[0], bytes).value;
      IsCanonical(tys[1..], rest);
      var (vs, rest') := DecAll(tys[1..], rest).value;
      assert Enc(v) + (EncAll(vs) + rest') == (Enc(v) + EncAll(vs)) + rest';
      assert ([v] + vs)[1..] == vs;
    }
  }

  lemma {:induction false} PrefixTruncated(vs: seq<Value>, tys: seq<Type>, p: seq<byte>)
    requires HasTypes(vs, tys) && p < EncAll(vs)
    ensures DecAll(tys, p) == Err(Truncated)
    decreases tys
  {
    var first := Enc(vs[0]);
    if |p| < |first| {
      assert p < first;
      ValuePrefixTruncated(vs[0], tys[0], p);
    } else {
      var tail := p[|first|..];
      assert p == first + tail && tail < EncAll(vs[1..]);
      ValueRoundTrips(vs[0], tys[0], tail);
      PrefixTruncated(vs[1..], tys[1..], tail);
    }
  }

  /** A strict prefix of two encoded lists breaks off in the first or in the second. */
  lemma PrefixOfTwo(h: seq<Value>, th: seq<Type>, b: seq<Value>, tb: seq<Type>, q: seq<byte>)
    requires HasTypes(h, th) && HasTypes(b, tb) && q < EncAll(h) + EncAll(b)
    ensures var d := DecAll(th, q);
            d == Err(Truncated) || (d.Ok? && d.value.0 == h && DecAll(tb, d.value.1) == Err(Truncated))
  {
    if |q| < |EncAll(h)| {
      assert q < EncAll(h);
      PrefixTruncated(h, th, q);
    } else {
      var r := q[|EncAll(h)|..];
      assert q == EncAll(h) + r && r < EncAll(b);
      RoundTrips(h, th, r);
      PrefixTruncated(b, tb, r);
    }
  }

  /** Decoding two schemas in a row. */
  lemma {:induction false} DecAllConcat(ta: seq<Type>, tb: seq<Type>, bytes: seq<byte>)
    ensures var a := DecAll(ta, bytes);
            DecAll(ta + tb, bytes) ==
            if a.Err? then Err(a.error)
            else
              var b := DecAll(tb, a.value.1);
              if b.Err? then Err(b.error) else Ok((a.value.0 + b.value.0, b.value.1))
    decreases ta
  {
    if ta == [] {
      assert ta + tb == tb;
      if DecAll(tb, bytes).Ok? {
        assert [] + DecAll(tb, bytes).value.0 == DecAll(tb, bytes).value.0;
      }
    } else {
      assert (ta + tb)[0] == ta[0] && (ta + tb)[1..] == ta[1..] + tb;
      var d := Dec(ta[0], bytes);
      if d.Ok? {
        var (v, rest) := d.value;
        DecAllConcat(ta[1..], tb, rest);
        var a := DecAll(ta[1..], rest);
        if a.Ok? && DecAll(tb, a.value.1).Ok? {
          assert [v] + (a.value.0 + DecAll(tb, a.value.1).value.0) == ([v] + a.value.0) + DecAll(tb, a.value.1).value.0;
        }
      }
    }
  }

  /** Reading the first `k` values and then the rest is reading all of them. */
  function Resume(tys: seq<Type>, at: nat, done: seq<Value>, rest: seq<byte>): Result<(seq<Value>, seq<byte>), DecodeError>
    requires at <= |tys|
  {
    var (vs, rest') :- DecAll(tys[at..], rest);
    Ok((done + vs, rest'))
  }

  lemma ResumeStep(tys: seq<Type>, at: nat, done: seq<Value>, rest: seq<byte>)
    requires at < |tys|
    ensures var d := Dec(tys[at], rest);
            Resume(tys, at, done, rest) == if d.Err? then Err(d.error) else Resume(tys, at + 1, done + [d.value.0], d.value.1)
  {
    assert tys[at..][0] == tys[at] && tys[at..][1..] == tys[at + 1..];
    var d := Dec(tys[at], rest);
    if d.Ok? && DecAll(tys[at + 1..], d.value.1).Ok? {
      var vs := DecAll(tys[at + 1..], d.value.1).value.0;
      assert done + ([d.value.0] + vs) == (done + [d.value.0]) + vs;
    }
  }
}
