/** encodeURI, decodeURI and the component forms of duk_bi_global.c (E5.1 sections 15.1.3.1 to 15.1.3.4). */
module Uri {
  import opened Bytes
  import opened Seqs
  import opened Xutf8
  import JsonTree

  type Text = seq<Byte>

  const PERCENT: Byte := 0x25

  // ----- Bit tables -----

  type Table = t: seq<Byte> | |t| == 16 witness [0, 0, 0, 0, 0, 0, 0, 0, 0, 0, 0, 0, 0, 0, 0, 0]

  function Bit(x: Byte, k: nat): bool
    requires k < 8
  {
    (match k case 0 => x case 1 => x / 2 case 2 => x / 4 case 3 => x / 8 case 4 => x / 16 case 5 => x / 32 case 6 => x / 64 case _ => x / 128) % 2 == 1
  }

  /** DUK__CHECK_BITMASK */
  predicate Has(t: Table, c: int)
    requires 0 <= c < 0x80
  {
    Bit(t[c / 8], c % 8)
  }

  const ENCODE_URI: Table := [0, 0, 0, 0, 0xda, 0xff, 0xff, 0xaf, 0xff, 0xff, 0xff, 0x87, 0xfe, 0xff, 0xff, 0x47]
  const ENCODE_COMPONENT: Table := [0, 0, 0, 0, 0x82, 0x67, 0xff, 0x03, 0xfe, 0xff, 0xff, 0x87, 0xfe, 0xff, 0xff, 0x47]
  const DECODE_URI: Table := [0, 0, 0, 0, 0x58, 0x98, 0, 0xac, 0x01, 0, 0, 0, 0, 0, 0, 0]
  const DECODE_COMPONENT: Table := [0, 0, 0, 0, 0, 0, 0, 0, 0, 0, 0, 0, 0, 0, 0, 0]

  /** uriUnescaped of E5.1 section 15.1.3: letters, digits and marks. */
  predicate Unescaped(c: int) {
    0x30 <= c <= 0x39 || 0x41 <= c <= 0x5a || 0x61 <= c <= 0x7a
    || c == 0x2d || c == 0x5f || c == 0x2e || c == 0x21 || c == 0x7e || c == 0x2a || c == 0x27 || c == 0x28 || c == 0x29
  }

  /** uriReserved of E5.1 section 15.1.3, and '#'. */
  predicate ReservedOrHash(c: int) {
    c == 0x3b || c == 0x2f || c == 0x3f || c == 0x3a || c == 0x40 || c == 0x26 || c == 0x3d || c == 0x2b || c == 0x24 || c == 0x2c
    || c == 0x23
  }

  /** The tables are the sets of the specification. */
  lemma EncodeUriSet(c: int)
    requires 0 <= c < 0x80
    ensures Has(ENCODE_URI, c) <==> Unescaped(c) || ReservedOrHash(c)
  {
    hide Has, Unescaped, ReservedOrHash;
    if c < 0x40 { EncodeUriLow(c); } else { EncodeUriHigh(c); }
  }

  lemma EncodeUriLow(c: int)
    requires 0 <= c < 0x40
    ensures Has(ENCODE_URI, c) <==> Unescaped(c) || ReservedOrHash(c)
  {
    if c < 0x20 {} else if c < 0x28 {} else if c < 0x38 {}
  }

  lemma EncodeUriHigh(c: int)
    requires 0x40 <= c < 0x80
    ensures Has(ENCODE_URI, c) <==> Unescaped(c) || ReservedOrHash(c)
  {
    if c < 0x58 {} else if c < 0x60 {} else if c < 0x68 {} else if c < 0x78 {}
  }

  lemma EncodeComponentSet(c: int)
    requires 0 <= c < 0x80
    ensures Has(ENCODE_COMPONENT, c) <==> Unescaped(c)
  {
    hide Has, Unescaped;
    if c < 0x40 { EncodeComponentLow(c); } else { EncodeComponentHigh(c); }
  }

  lemma EncodeComponentLow(c: int)
    requires 0 <= c < 0x40
    ensures Has(ENCODE_COMPONENT, c) <==> Unescaped(c)
  {
    if c < 0x20 {} else if c < 0x28 {} else if c < 0x30 {} else if c < 0x38 {}
  }

  lemma EncodeComponentHigh(c: int)
    requires 0x40 <= c < 0x80
    ensures Has(ENCODE_COMPONENT, c) <==> Unescaped(c)
  {
    if c < 0x48 {} else if c < 0x58 {} else if c < 0x60 {} else if c < 0x68 {} else if c < 0x78 {}
  }

  lemma DecodeUriSet(c: int)
    requires 0 <= c < 0x80
    ensures Has(DECODE_URI, c) <==> ReservedOrHash(c)
  {
    if c < 0x20 {} else if c < 0x28 {} else if c < 0x30 {} else if c < 0x38 {} else if c < 0x40 {} else if c < 0x48 {}
  }

  lemma DecodeComponentSet(c: int)
    requires 0 <= c < 0x80
    ensures !Has(DECODE_COMPONENT, c)
  {}

  // ----- What the callbacks do with one codepoint -----

  datatype Result = Ok(text: Text) | UriError | InternalError

  datatype Mode = Encoding(table: Table) | Decoding(table: Table)

  function UpperHex(x: int): (c: Byte)
    requires 0 <= x < 16
  {
    if x < 10 then 0x30 + x else 0x41 + x - 10
  }

  function Escape(b: Byte): (r: Text)
    ensures |r| == 3
  {
    [PERCENT, UpperHex(b / 16), UpperHex(b % 16)]
  }

  function Escapes(bs: Text): (r: Text)
    ensures |r| == 3 * |bs|
  {
    if bs == [] then [] else Escape(bs[0]) + Escapes(bs[1..])
  }

  predicate High(u: int) {
    0xd800 <= u <= 0xdbff
  }

  predicate Low(u: int) {
    0xdc00 <= u <= 0xdfff
  }

  function Combine(hi: int, lo: int): (cp: Word32)
    requires High(hi) && Low(lo)
    ensures 0x1_0000 <= cp <= 0x10_ffff
  {
    (hi - 0xd800) * 0x400 + (lo - 0xdc00) + 0x1_0000
  }

  /** What is written, and how much more of the rest of the input is read; None is a URIError. */
  function EncodeOne(cp: Word32, rest: Text, table: Table): (r: Option<(Text, nat)>)
    ensures r.Some? ==> r.value.1 <= |rest|
  {
    if cp >= U31 then None
    else if cp < 0x80 && Has(table, cp) then Some(([cp], 0))
    else if Low(cp) then None
    else if High(cp) then
      var d := Decode(rest);
      if d.None? || !Low(d.value.0) then None
      else Some((Escapes(Encode(Combine(cp, d.value.0))), d.value.1))
    else if cp > 0x10_ffff then None
    else Some((Escapes(Encode(cp)), 0))
  }

  /** Two hex digits, or -1. */
  function Hex2(a: Byte, b: Byte): (t: int)
    ensures -1 <= t < 0x100
  {
    var x, y := JsonTree.HexDigit(a), JsonTree.HexDigit(b);
    if x < 0 || y < 0 then -1 else x * 16 + y
  }

  /** The number of bytes that an initial byte announces, and its payload; None for 10xxxxxx and 11111xxx. */
  function Announced(t: int): (r: Option<(nat, nat)>)
    requires 0x80 <= t < 0x100
    ensures r.Some? ==> 2 <= r.value.0 <= 4 && r.value.1 < 32
  {
    if t < 0xc0 then None
    else if t < 0xe0 then Some((2, t - 0xc0))
    else if t < 0xf0 then Some((3, t - 0xe0))
    else if t < 0xf8 then Some((4, t - 0xf0))
    else None
  }

  function Smallest(n: nat): int {
    if n == 2 then 0x80 else if n == 3 then 0x800 else 0x1_0000
  }

  /** Continuation bytes i to n - 1; the percent signs before their digits are not looked at. */
  function Continued(rest: Text, cp: int, i: nat, n: nat): (r: Option<int>)
    requires 1 <= i <= n && 3 * n - 1 <= |rest|
    decreases n - i
  {
    if i == n then Some(cp)
    else
      var t := Hex2(rest[3 * i], rest[3 * i + 1]);
      if t < 0x80 || t >= 0xc0 then None else Continued(rest, cp * 64 + t % 64, i + 1, n)
  }

  /** A codepoint as 16-bit units, each as UTF-8. */
  function Units16(cp: int): Text
    requires 0 <= cp <= 0x10_ffff
  {
    if cp >= 0x1_0000 then Encode((cp - 0x1_0000) / 0x400 + 0xd800) + Encode((cp - 0x1_0000) % 0x400 + 0xdc00)
    else Encode(cp)
  }

  function DecodeOne(cp: Word32, rest: Text, table: Table): (r: Option<(Text, nat)>)
    ensures r.Some? ==> r.value.1 <= |rest|
  {
    if cp != PERCENT then Some((Encode(cp), 0))
    else if |rest| < 2 then None
    else
      var t := Hex2(rest[0], rest[1]);
      if t < 0 then None
      else if t < 0x80 then
        var b: Byte := t;
        Some((if Has(table, t) then [PERCENT, rest[0], rest[1]] else [b], 2))
      else
        var a := Announced(t);
        if a.None? || |rest| < 3 * a.value.0 - 1 then None
        else
          var c := Continued(rest, a.value.1, 1, a.value.0);
          if c.None? || c.value < Smallest(a.value.0) || c.value > 0x10_ffff || 0xd800 <= c.value <= 0xdfff then None
          else Some((Units16(c.value), 3 * a.value.0 - 1))
  }

  function One(mode: Mode, cp: Word32, rest: Text): (r: Option<(Text, nat)>)
    ensures r.Some? ==> r.value.1 <= |rest|
  {
    match mode
    case Encoding(table) => EncodeOne(cp, rest, table)
    case Decoding(table) => DecodeOne(cp, rest, table)
  }

  function Prepended(t: Text, r: Result): Result {
    if r.Ok? then Ok(t + r.text) else r
  }

  /** The whole text, codepoint by codepoint. */
  function Transformed(mode: Mode, s: Text): (r: Result)
    decreases |s|
  {
    if s == [] then Ok([])
    else
      var d := Decode(s);
      if d.None? then InternalError
      else
        var rest := s[d.value.1..];
        var o := One(mode, d.value.0, rest);
        if o.None? then UriError else Prepended(o.value.0, Transformed(mode, rest[o.value.1..]))
  }

  // ----- The transform helper and its callbacks -----

  class Transform {
    const s: Text
    var p: nat
    var out: Text

    constructor (s: Text)
      ensures this.s == s && p == 0 && out == []
    {
      this.s, p, out := s, 0, [];
    }

    method EncodeCallback(cp: Word32, table: Table) returns (ok: bool)
      requires p <= |s|
      modifies this
      ensures ok == EncodeOne(cp, old(s[p..]), table).Some?
      ensures ok ==> var o := EncodeOne(cp, old(s[p..]), table).value; p == old(p) + o.1 <= |s| && out == old(out) + o.0
    {
      hide Decode, Encode, Escapes, Has;
      var c := cp;
      if cp >= U31 {
        return false;
      } else if cp < 0x80 && Has(table, cp) {
        out := out + [cp];
        return true;
      } else if Low(cp) {
        return false;
      } else if High(cp) {
        var d := Decode(s[p..]);
        if d.None? { return false; }
        p := p + d.value.1;
        if !Low(d.value.0) { return false; }
        c := Combine(cp, d.value.0);
      } else if cp > 0x10_ffff {
        return false;
      }
      WriteEscapes(Encode(c));
      return true;
    }

    method WriteEscapes(bs: Text)
      modifies `out
      ensures out == old(out) + Escapes(bs)
    {
      hide UpperHex;
      var i := 0;
      assert bs[0..] == bs;
      while i < |bs|
        invariant 0 <= i <= |bs| && out + Escapes(bs[i..]) == old(out) + Escapes(bs)
      {
        EscapesStep(bs, i);
        Assoc(out, Escape(bs[i]), Escapes(bs[i + 1..]));
        out := out + [PERCENT, UpperHex(bs[i] / 16), UpperHex(bs[i] % 16)];
        i := i + 1;
      }
      assert bs[i..] == [];
      Identity(out);
    }

    method DecodeCallback(cp: Word32, table: Table) returns (ok: bool)
      requires p <= |s|
      modifies this
      ensures ok == DecodeOne(cp, old(s[p..]), table).Some?
      ensures ok ==> var o := DecodeOne(cp, old(s[p..]), table).value; p == old(p) + o.1 <= |s| && out == old(out) + o.0
    {
      hide Encode, Hex2, Has, Continued;
      if cp != PERCENT {
        out := out + Encode(cp);
        return true;
      }
      ghost var rest := s[p..];
      var left := |s| - p;
      if left < 2 { return false; }
      var t := Hex2(s[p], s[p + 1]);
      assert s[p] == rest[0] && s[p + 1] == rest[1];
      if t < 0 { return false; }
      if t < 0x80 {
        var b: Byte := t;
        out := out + if Has(table, t) then [PERCENT, s[p], s[p + 1]] else [b];
        p := p + 2;
        return true;
      }
      var a := Announced(t);
      if a.None? { return false; }
      var (n, payload) := a.value;
      if left < n * 3 - 1 { return false; }
      var c := Continuation(payload, n);
      if c.None? { return false; }
      p := p + 3 * n - 1;
      if c.value < Smallest(n) || c.value > 0x10_ffff || 0xd800 <= c.value <= 0xdfff { return false; }
      if c.value >= 0x1_0000 {
        var x := c.value - 0x1_0000;
        Assoc(out, Encode(x / 0x400 + 0xd800), Encode(x % 0x400 + 0xdc00));
        out := out + Encode(x / 0x400 + 0xd800);
        out := out + Encode(x % 0x400 + 0xdc00);
      } else {
        out := out + Encode(c.value);
      }
      return true;
    }

    method Continuation(payload: nat, n: nat) returns (c: Option<int>)
      requires p <= |s| && 1 <= n && 3 * n - 1 <= |s| - p
      ensures c == Continued(s[p..], payload, 1, n)
    {
      hide Hex2;
      var cp: int := payload;
      var i := 1;
      ghost var rest := s[p..];
      while i < n
        invariant 1 <= i <= n && Continued(rest, cp, i, n) == Continued(rest, payload, 1, n)
      {
        assert rest[3 * i] == s[p + 3 * i] && rest[3 * i + 1] == s[p + 3 * i + 1];
        var t := Hex2(s[p + 3 * i], s[p + 3 * i + 1]);
        if t < 0 { return None; }
        if t < 0x80 || t >= 0xc0 { return None; }
        cp := cp * 64 + t % 64;
        i := i + 1;
      }
      return Some(cp);
    }
  }

  lemma EscapesStep(bs: Text, i: nat)
    requires i < |bs|
    ensures Escapes(bs[i..]) == Escape(bs[i]) + Escapes(bs[i + 1..])
  {
    DropDrop(bs, i, 1);
  }

  /** duk__transform_helper with one of the two callbacks. */
  method Run(s: Text, mode: Mode) returns (r: Result)
    ensures r == Transformed(mode, s)
  {
    hide Decode, One;
    var ctx := new Transform(s);
    ghost var result := Transformed(mode, s);
    assert s[0..] == s;
    Unchanged(result);
    while ctx.p < |ctx.s|
      invariant ctx.s == s && ctx.p <= |s| && Prepended(ctx.out, Transformed(mode, s[ctx.p..])) == result
      decreases |s| - ctx.p
    {
      r := StepOnce(ctx, mode, result);
      if !r.Ok? { return; }
    }
    assert s[ctx.p..] == [];
    Identity(ctx.out);
    r := Ok(ctx.out);
  }

  lemma Unchanged(r: Result)
    ensures Prepended([], r) == r
  {
    if r.Ok? { Identity(r.text); }
  }

  method StepOnce(ctx: Transform, mode: Mode, ghost result: Result) returns (r: Result)
    requires ctx.p < |ctx.s| && Prepended(ctx.out, Transformed(mode, ctx.s[ctx.p..])) == result
    modifies ctx
    ensures r.Ok? ==> old(ctx.p) < ctx.p <= |ctx.s| && Prepended(ctx.out, Transformed(mode, ctx.s[ctx.p..])) == result
    ensures !r.Ok? ==> r == result
  {
    hide Decode, EncodeOne, DecodeOne;
    ghost var here := ctx.s[ctx.p..];
    var d := Decode(ctx.s[ctx.p..]);
    if d.None? { return InternalError; }
    ctx.p := ctx.p + d.value.1;
    ghost var rest := here[d.value.1..];
    DropDrop(ctx.s, old(ctx.p), d.value.1);
    var ok;
    match mode {
      case Encoding(table) => ok := ctx.EncodeCallback(d.value.0, table);
      case Decoding(table) => ok := ctx.DecodeCallback(d.value.0, table);
    }
    if !ok { return UriError; }
    ghost var o := One(mode, d.value.0, rest).value;
    DropDrop(ctx.s, old(ctx.p) + d.value.1, o.1);
    PrependedTwice(old(ctx.out), o.0, Transformed(mode, rest[o.1..]));
    return Ok([]);
  }

  lemma PrependedTwice(a: Text, b: Text, r: Result)
    ensures Prepended(a, Prepended(b, r)) == Prepended(a + b, r)
  {
    if r.Ok? { Assoc(a, b, r.text); }
  }

  // ----- Strings of 16-bit units -----

  type Units = seq<Word16>

  /** The string as it is stored: each unit as UTF-8. */
  function Stored(us: Units): Text {
    if us == [] then [] else Encode(us[0]) + Stored(us[1..])
  }

  /** Every surrogate is part of a pair. */
  predicate Paired(us: Units) {
    us == []
    || (High(us[0]) && |us| >= 2 && Low(us[1]) && Paired(us[2..]))
    || (!High(us[0]) && !Low(us[0]) && Paired(us[1..]))
  }

  /** One codepoint in front of the rest. */
  lemma {:induction false} Ahead(mode: Mode, cp: Word32, rest: Text)
    ensures var o := One(mode, cp, rest);
            Transformed(mode, Encode(cp) + rest)
            == if o.None? then UriError else Prepended(o.value.0, Transformed(mode, rest[o.value.1..]))
  {
    hide One, Decode, Encode;
    DecodeEncode(cp, rest);
    AppendSplit(Encode(cp), rest);
  }

  /** A string encodes if and only if its surrogates are paired. */
  lemma {:induction false} EncodesIffPaired(us: Units, table: Table)
    ensures var r := Transformed(Encoding(table), Stored(us)); if Paired(us) then r.Ok? else r == UriError
    decreases |us|
  {
    hide Transformed, Encode, Decode, Has, Escapes;
    if us == [] {
      EmptyText(Encoding(table));
    } else {
      var u, rest := us[0], Stored(us[1..]);
      Ahead(Encoding(table), u, rest);
      if High(u) {
        SecondUnit(us);
        if |us| >= 2 && Low(us[1]) { EncodesIffPaired(us[2..], table); }
      } else if !Low(u) {
        Whole(rest);
        EncodesIffPaired(us[1..], table);
      }
    }
  }

  lemma Whole(t: Text)
    ensures t[0..] == t
  {}

  lemma EmptyText(mode: Mode)
    ensures Transformed(mode, []) == Ok([])
  {}

  /** What the look-ahead after a high surrogate sees. */
  lemma SecondUnit(us: Units)
    requires us != []
    ensures var rest := Stored(us[1..]);
            var d := Decode(rest);
            && (|us| == 1 ==> d.None?)
            && (|us| >= 2 ==> d == Some((us[1] as Word32, |Encode(us[1])|)) && rest[|Encode(us[1])|..] == Stored(us[2..]))
  {
    if |us| >= 2 {
      assert us[1..][1..] == us[2..];
      DecodeEncode(us[1], Stored(us[2..]));
      hide Encode, Decode;
      AppendSplit(Encode(us[1]), Stored(us[2..]));
    }
  }

  // ----- Decoding an escaped codepoint -----

  lemma HexBack(b: Byte)
    ensures Hex2(UpperHex(b / 16), UpperHex(b % 16)) == b
  {}

  lemma {:induction false} EscapedByte(bs: Text, rest: Text, i: nat)
    requires i < |bs|
    ensures var s := Escapes(bs) + rest;
            s[3 * i] == PERCENT && s[3 * i + 1] == UpperHex(bs[i] / 16) && s[3 * i + 2] == UpperHex(bs[i] % 16)
    decreases i
  {
    hide UpperHex;
    if i > 0 {
      EscapedByte(bs[1..], rest, i - 1);
      Assoc(Escape(bs[0]), Escapes(bs[1..]), rest);
    }
  }

  /** The hex digits of byte i, seen from behind the first percent sign. */
  lemma DigitsAt(bs: Text, rest: Text, i: nat)
    requires i < |bs|
    ensures var r := (Escapes(bs) + rest)[1..]; 3 * i + 1 < |r| && Hex2(r[3 * i], r[3 * i + 1]) == bs[i]
  {
    hide Hex2, UpperHex, Escapes;
    EscapedByte(bs, rest, i);
    HexBack(bs[i]);
  }

  lemma {:induction false} AssembledTwo(r: Text, p: int, b1: int)
    requires 5 <= |r| && Hex2(r[3], r[4]) == b1 && 0x80 <= b1 < 0xc0
    ensures Continued(r, p, 1, 2) == Some(p * 64 + b1 % 64)
  {
    assert Continued(r, p * 64 + b1 % 64, 2, 2) == Some(p * 64 + b1 % 64);
  }

  lemma {:induction false} AssembledThree(r: Text, p: int, b1: int, b2: int)
    requires 8 <= |r| && Hex2(r[3], r[4]) == b1 && Hex2(r[6], r[7]) == b2 && 0x80 <= b1 < 0xc0 && 0x80 <= b2 < 0xc0
    ensures Continued(r, p, 1, 3) == Some((p * 64 + b1 % 64) * 64 + b2 % 64)
  {
    var x := p * 64 + b1 % 64;
    assert Continued(r, x, 2, 3) == Continued(r, x * 64 + b2 % 64, 3, 3);
  }

  lemma {:induction false} AssembledFour(r: Text, p: int, b1: int, b2: int, b3: int)
    requires 11 <= |r| && Hex2(r[3], r[4]) == b1 && Hex2(r[6], r[7]) == b2 && Hex2(r[9], r[10]) == b3
    requires 0x80 <= b1 < 0xc0 && 0x80 <= b2 < 0xc0 && 0x80 <= b3 < 0xc0
    ensures Continued(r, p, 1, 4) == Some(((p * 64 + b1 % 64) * 64 + b2 % 64) * 64 + b3 % 64)
  {
    var x := p * 64 + b1 % 64;
    var y := x * 64 + b2 % 64;
    assert Continued(r, y, 3, 4) == Continued(r, y * 64 + b3 % 64, 4, 4);
    assert Continued(r, x, 2, 4) == Continued(r, y, 3, 4);
  }

  predicate Scalar(cp: int) {
    0 <= cp <= 0x10_ffff && !(0xd800 <= cp <= 0xdfff)
  }

  // ----- What is written, and what is accepted -----

  /** Every escape is a percent sign and two upper-case hex digits. */
  lemma EscapeTexts(bs: Text, i: nat)
    requires i < |bs|
    ensures var r := Escapes(bs);
            && r[3 * i] == 0x25 && r[3 * i + 1] == Ascii("0123456789ABCDEF")[bs[i] / 16]
            && r[3 * i + 2] == Ascii("0123456789ABCDEF")[bs[i] % 16]
  {
    hide Escapes, UpperHex, Ascii;
    Identity(Escapes(bs));
    EscapedByte(bs, [], i);
    UpperDigit(bs[i] / 16);
    UpperDigit(bs[i] % 16);
  }

  lemma UpperDigit(x: nat)
    requires x < 16
    ensures UpperHex(x) == Ascii("0123456789ABCDEF")[x]
  {}

  /** Surrogates are those of UTF-16, with the high ten bits first. */
  lemma Surrogates(cp: Word32)
    requires 0x1_0000 <= cp <= 0x10_ffff
    ensures var hi, lo := 0xd800 + (cp - 0x1_0000) / 0x400, 0xdc00 + (cp - 0x1_0000) % 0x400;
            0xd800 <= hi <= 0xdbff && 0xdc00 <= lo <= 0xdfff && High(hi) && Low(lo)
            && Combine(hi, lo) == cp && Units16(cp) == Encode(hi) + Encode(lo)
  {
    hide Encode;
  }

  /** A codepoint of its own is kept if the table has it, and escaped byte by byte if not. */
  lemma EncodedScalar(cp: Word32, rest: Text, table: Table)
    requires Scalar(cp)
    ensures EncodeOne(cp, rest, table) == Some((if cp < 0x80 && Has(table, cp) then [cp] else Escapes(Encode(cp)), 0))
    ensures cp < 0x80 ==> Escapes(Encode(cp)) == [0x25, Ascii("0123456789ABCDEF")[cp / 16], Ascii("0123456789ABCDEF")[cp % 16]]
  {
    if cp < 0x80 {
      assert Encode(cp) == [cp] && [cp][1..] == [];
      UpperDigit(cp / 16);
      UpperDigit(cp % 16);
    }
    hide Has, Encode, UpperHex, Ascii;
  }

  /** A single escaped byte is that character, but for a reserved one, which stays as it was written. */
  lemma DecodedAscii(rest: Text, table: Table)
    requires 2 <= |rest| && 0 <= Hex2(rest[0], rest[1]) < 0x80
    ensures var t := Hex2(rest[0], rest[1]);
            DecodeOne(0x25, rest, table) == Some((if Has(table, t) then [0x25, rest[0], rest[1]] else [t], 2))
  {
    hide Has, Hex2;
  }

  /** The escaped bytes at the start are those of the codepoint. */
  predicate EscapedBytes(rest: Text, bs: Text) {
    3 * |bs| - 1 <= |rest| && forall i :: 0 <= i < |bs| ==> Hex2(rest[3 * i], rest[3 * i + 1]) == bs[i]
  }

  /** Of longer sequences exactly those of RFC 3629 are accepted: no overlong form, no surrogate, nothing past U+10FFFF. */
  lemma {:induction false} StrictUtf8(rest: Text, table: Table)
    requires 2 <= |rest| && Hex2(rest[0], rest[1]) >= 0x80
    ensures DecodeOne(0x25, rest, table).Some? <==> exists cp: Word32 :: Wide(cp, rest)
    ensures forall cp: Word32 :: Wide(cp, rest) ==> DecodeOne(0x25, rest, table) == Some((Units16(cp), 3 * |Encode(cp)| - 1))
  {
    hide DecodeOne, Hex2, EscapedBytes, Units16, Encode;
    if DecodeOne(PERCENT, rest, table).Some? {
      var cp := Assembled(rest, table);
    }
    forall cp: Word32 | Wide(cp, rest)
      ensures DecodeOne(PERCENT, rest, table) == Some((Units16(cp), 3 * |Encode(cp)| - 1))
    {
      Accepted(cp, rest, table);
    }
  }

  /** A codepoint above ASCII whose bytes are escaped at the start. */
  predicate Wide(cp: Word32, rest: Text) {
    Scalar(cp) && cp >= 0x80 && EscapedBytes(rest, Encode(cp))
  }

  lemma EscapedAt(r: Text, bs: Text, i: nat)
    requires EscapedBytes(r, bs) && i < |bs|
    ensures 3 * i + 1 < |r| && Hex2(r[3 * i], r[3 * i + 1]) == bs[i]
  {}

  lemma {:induction false} Accepted(cp: Word32, rest: Text, table: Table)
    requires Wide(cp, rest)
    ensures DecodeOne(PERCENT, rest, table) == Some((Units16(cp), 3 * |Encode(cp)| - 1))
  {
    Utf8Bytes(cp);
    hide Encode, DecodeOne, EscapedBytes;
    if cp < 0x800 { TwoBytes(cp, rest, table); } else if cp < 0x1_0000 { ThreeBytes(cp, rest, table); } else { FourBytes(cp, rest, table); }
  }

  lemma {:induction false} Assembled(rest: Text, table: Table) returns (cp: Word32)
    requires 2 <= |rest| && Hex2(rest[0], rest[1]) >= 0x80 && DecodeOne(PERCENT, rest, table).Some?
    ensures Wide(cp, rest)
  {
    var t := Hex2(rest[0], rest[1]);
    var n, p := Announced(t).value.0, Announced(t).value.1;
    hide Hex2, Units16, Has;
    cp := Continued(rest, p, 1, n).value;
    hide DecodeOne;
    if n == 2 {
      FromTwo(rest, t, p, cp);
    } else if n == 3 {
      FromThree(rest, t, p, cp);
    } else {
      FromFour(rest, t, p, cp);
    }
  }

  lemma {:induction false} FromTwo(rest: Text, t: int, p: nat, cp: Word32)
    requires 5 <= |rest| && Hex2(rest[0], rest[1]) == t && t == 0xc0 + p && Continued(rest, p, 1, 2) == Some(cp)
    requires Scalar(cp) && 0x80 <= cp && p < 0x20
    ensures Wide(cp, rest)
  {
    var b1 := Hex2(rest[3], rest[4]);
    hide Hex2, Encode;
    assert 0x80 <= b1 < 0xc0;
    AssembledTwo(rest, p, b1);
    hide Continued;
    Utf8Bytes(cp);
    Digit64(p, b1);
    assert Encode(cp) == [t, b1];
  }

  lemma {:induction false} FromThree(rest: Text, t: int, p: nat, cp: Word32)
    requires 8 <= |rest| && Hex2(rest[0], rest[1]) == t && t == 0xe0 + p && Continued(rest, p, 1, 3) == Some(cp)
    requires Scalar(cp) && 0x800 <= cp && p < 0x10
    ensures Wide(cp, rest)
  {
    var b1, b2 := Hex2(rest[3], rest[4]), Hex2(rest[6], rest[7]);
    hide Hex2, Encode;
    TwoContinued(rest, p, 3);
    AssembledThree(rest, p, b1, b2);
    hide Continued, EscapedBytes;
    EncodeThree(cp, p, b1, b2);
    ThreeEscaped(rest, t, b1, b2);
  }

  lemma {:induction false} FromFour(rest: Text, t: int, p: nat, cp: Word32)
    requires 11 <= |rest| && Hex2(rest[0], rest[1]) == t && t == 0xf0 + p && Continued(rest, p, 1, 4) == Some(cp)
    requires Scalar(cp) && 0x1_0000 <= cp && p < 0x8
    ensures Wide(cp, rest)
  {
    var b1, b2, b3 := Hex2(rest[3], rest[4]), Hex2(rest[6], rest[7]), Hex2(rest[9], rest[10]);
    hide Hex2, Encode;
    TwoContinued(rest, p, 4);
    ThirdContinued(rest, (p * 64 + b1 % 64) * 64 + b2 % 64);
    AssembledFour(rest, p, b1, b2, b3);
    hide Continued, EscapedBytes;
    EncodeFour(cp, p, b1, b2, b3);
    FourEscaped(rest, t, b1, b2, b3);
  }

  lemma EncodeThree(cp: Word32, p: nat, b1: int, b2: int)
    requires 0x80 <= b1 < 0xc0 && 0x80 <= b2 < 0xc0 && 0x800 <= cp < 0x1_0000
    requires cp == (p * 64 + b1 % 64) * 64 + b2 % 64
    ensures p < 16 && Encode(cp) == [0xe0 + p, b1, b2]
  {
    Utf8Bytes(cp);
    hide Encode;
    Digit64(p * 64 + b1 % 64, b2);
    Digit64(p, b1);
  }

  lemma EncodeFour(cp: Word32, p: nat, b1: int, b2: int, b3: int)
    requires 0x80 <= b1 < 0xc0 && 0x80 <= b2 < 0xc0 && 0x80 <= b3 < 0xc0 && 0x1_0000 <= cp <= 0x10_ffff
    requires cp == ((p * 64 + b1 % 64) * 64 + b2 % 64) * 64 + b3 % 64
    ensures p < 8 && Encode(cp) == [0xf0 + p, b1, b2, b3]
  {
    Utf8Bytes(cp);
    hide Encode;
    var x := p * 64 + b1 % 64;
    Digit64(x * 64 + b2 % 64, b3);
    Digit64(x, b2);
    Digit64(p, b1);
  }

  lemma ThreeEscaped(rest: Text, a: int, b: int, c: int)
    requires 8 <= |rest| && Hex2(rest[0], rest[1]) == a && Hex2(rest[3], rest[4]) == b && Hex2(rest[6], rest[7]) == c
    requires a >= 0 && b >= 0 && c >= 0
    ensures EscapedBytes(rest, [a, b, c])
  {
    hide Hex2;
  }

  lemma FourEscaped(rest: Text, a: int, b: int, c: int, d: int)
    requires 11 <= |rest| && Hex2(rest[0], rest[1]) == a && Hex2(rest[3], rest[4]) == b && Hex2(rest[6], rest[7]) == c
    requires Hex2(rest[9], rest[10]) == d && a >= 0 && b >= 0 && c >= 0 && d >= 0
    ensures EscapedBytes(rest, [a, b, c, d])
  {
    hide Hex2;
  }

  /** The first two continuation bytes have been looked at. */
  lemma {:induction false} TwoContinued(rest: Text, p: nat, n: nat)
    requires 3 <= n <= 4 && 3 * n - 1 <= |rest| && Continued(rest, p, 1, n).Some?
    ensures var b1, b2 := Hex2(rest[3], rest[4]), Hex2(rest[6], rest[7]);
            && 0x80 <= b1 < 0xc0 && 0x80 <= b2 < 0xc0
            && Continued(rest, p, 1, n) == Continued(rest, (p * 64 + b1 % 64) * 64 + b2 % 64, 3, n)
  {
    hide Hex2;
    var x := p * 64 + Hex2(rest[3], rest[4]) % 64;
    assert Continued(rest, p, 1, n) == Continued(rest, x, 2, n);
  }

  lemma {:induction false} ThirdContinued(rest: Text, y: int)
    requires 11 <= |rest| && Continued(rest, y, 3, 4).Some?
    ensures 0x80 <= Hex2(rest[9], rest[10]) < 0xc0
  {
    hide Hex2;
  }

  lemma Digit64(p: nat, b: int)
    requires 0x80 <= b < 0xc0
    ensures (p * 64 + b % 64) / 64 == p && 0x80 + (p * 64 + b % 64) % 64 == b
  {}

  /** All checks of a sequence of two to four bytes pass. */
  lemma {:induction false} MultiByte(r: Text, table: Table, t: int, n: nat, p: nat, cp: int)
    requires 2 <= |r| && 0x80 <= t < 0x100 && Hex2(r[0], r[1]) == t && Announced(t) == Some((n, p)) && 3 * n - 1 <= |r|
    requires Continued(r, p, 1, n) == Some(cp) && Scalar(cp) && Smallest(n) <= cp
    ensures DecodeOne(PERCENT, r, table) == Some((Units16(cp), 3 * n - 1))
  {
    hide Hex2, Continued, Units16, Has;
  }

  lemma {:induction false} TwoBytes(cp: Word32, r: Text, table: Table)
    requires 0x80 <= cp < 0x800 && EscapedBytes(r, Encode(cp))
    ensures DecodeOne(PERCENT, r, table) == Some((Units16(cp), 5))
  {
    hide Encode, EscapedBytes, Hex2, Continued, DecodeOne, Units16;
    var bs := Encode(cp);
    Utf8Bytes(cp);
    EscapedAt(r, bs, 0);
    EscapedAt(r, bs, 1);
    AssembledTwo(r, cp / 64, bs[1]);
    MultiByte(r, table, bs[0], 2, cp / 64, cp);
  }

  lemma {:induction false} ThreeBytes(cp: Word32, r: Text, table: Table)
    requires 0x800 <= cp < 0x1_0000 && Scalar(cp) && EscapedBytes(r, Encode(cp))
    ensures DecodeOne(PERCENT, r, table) == Some((Units16(cp), 8))
  {
    hide Encode, EscapedBytes, Hex2, Continued, DecodeOne, Units16;
    var bs := Encode(cp);
    Utf8Bytes(cp);
    EscapedAt(r, bs, 0);
    EscapedAt(r, bs, 1);
    EscapedAt(r, bs, 2);
    AssembledThree(r, cp / 64 / 64, bs[1], bs[2]);
    MultiByte(r, table, bs[0], 3, cp / 64 / 64, cp);
  }

  lemma {:induction false} FourBytes(cp: Word32, r: Text, table: Table)
    requires 0x1_0000 <= cp <= 0x10_ffff && EscapedBytes(r, Encode(cp))
    ensures DecodeOne(PERCENT, r, table) == Some((Units16(cp), 11))
  {
    hide Encode, EscapedBytes, Hex2, Continued, DecodeOne, Units16;
    var bs := Encode(cp);
    Utf8Bytes(cp);
    EscapedAt(r, bs, 0);
    EscapedAt(r, bs, 1);
    EscapedAt(r, bs, 2);
    EscapedAt(r, bs, 3);
    AssembledFour(r, cp / 64 / 64 / 64, bs[1], bs[2], bs[3]);
    LastSix(cp / 64 / 64);
    LastSix(cp / 64);
    LastSix(cp);
    MultiByte(r, table, bs[0], 4, cp / 64 / 64 / 64, cp);
  }

  lemma {:induction false} DecodeOneEscaped(cp: Word32, rest: Text, table: Table)
    requires Scalar(cp) && (cp < 0x80 ==> !Has(table, cp))
    ensures var bs := Encode(cp);
            DecodeOne(PERCENT, (Escapes(bs) + rest)[1..], table) == Some((Units16(cp), 3 * |bs| - 1))
  {
    Utf8Bytes(cp);
    var bs := Encode(cp);
    hide Encode, Escapes, Hex2, Has, Continued;
    if cp < 0x80 {
      DigitsAt(bs, rest, 0);
    } else {
      hide DecodeOne;
      var r := (Escapes(bs) + rest)[1..];
      forall i | 0 <= i < |bs| ensures 3 * i + 1 < |r| && Hex2(r[3 * i], r[3 * i + 1]) == bs[i] { DigitsAt(bs, rest, i); }
      Accepted(cp, r, table);
    }
  }

  lemma {:induction false} DecodesBack(cp: Word32, rest: Text, table: Table)
    requires Scalar(cp) && (cp < 0x80 ==> !Has(table, cp))
    ensures Transformed(Decoding(table), Escapes(Encode(cp)) + rest) == Prepended(Units16(cp), Transformed(Decoding(table), rest))
  {
    var bs := Encode(cp);
    var s := Escapes(bs) + rest;
    hide Escapes, Encode, DecodeOne, Units16, Transformed, Has, Decode;
    EscapedByte(bs, rest, 0);
    DecodeOneEscaped(cp, rest, table);
    PercentFirst(s[1..]);
    Cons(s);
    Ahead(Decoding(table), PERCENT, s[1..]);
    DropDrop(s, 1, 3 * |bs| - 1);
    AppendSplit(Escapes(bs), rest);
  }

  lemma PercentFirst(t: Text)
    ensures Encode(PERCENT) == [PERCENT]
  {}

  // ----- The main result -----

  /** What decoding leaves escaped, encoding does not escape; and encoding escapes the percent sign. */
  predicate Inverse(enc: Table, dec: Table) {
    !Has(enc, PERCENT) && forall c :: 0 <= c < 0x80 && Has(dec, c) ==> Has(enc, c)
  }

  lemma UriTables()
    ensures Inverse(ENCODE_URI, DECODE_URI) && Inverse(ENCODE_COMPONENT, DECODE_COMPONENT)
  {
    hide Has;
    EncodeUriSet(PERCENT);
    EncodeComponentSet(PERCENT);
    forall c | 0 <= c < 0x80 && Has(DECODE_URI, c) ensures Has(ENCODE_URI, c) {
      DecodeUriSet(c);
      EncodeUriSet(c);
    }
    forall c | 0 <= c < 0x80 ensures !Has(DECODE_COMPONENT, c) {
      DecodeComponentSet(c);
    }
  }

  /** Decoding undoes encoding, for every string with paired surrogates. */
  lemma {:induction false} DecodeEncoded(us: Units, enc: Table, dec: Table)
    requires Paired(us) && Inverse(enc, dec)
    ensures var r := Transformed(Encoding(enc), Stored(us)); r.Ok? && Transformed(Decoding(dec), r.text) == Ok(Stored(us))
    decreases |us|
  {
    hide Transformed, Encode, Decode, Has, Escapes, Units16;
    if us == [] {
      EmptyText(Encoding(enc));
      EmptyText(Decoding(dec));
    } else {
      var u, rest := us[0], Stored(us[1..]);
      Ahead(Encoding(enc), u, rest);
      if High(u) {
        SecondUnit(us);
        DecodeEncoded(us[2..], enc, dec);
        PairBack(us, enc, dec);
      } else {
        Whole(rest);
        DecodeEncoded(us[1..], enc, dec);
        var tail := Transformed(Encoding(enc), rest).text;
        if u < 0x80 && Has(enc, u) {
          OneByte(u);
          Ahead(Decoding(dec), u, tail);
          Whole(tail);
        } else {
          DecodesBack(u, tail, dec);
          OneUnit(u);
        }
      }
    }
  }

  lemma OneByte(u: Word16)
    requires u < 0x80
    ensures Encode(u) == [u]
  {}

  lemma OneUnit(u: Word16)
    ensures Units16(u) == Encode(u)
  {}

  lemma {:induction false} PairBack(us: Units, enc: Table, dec: Table)
    requires |us| >= 2 && High(us[0]) && Low(us[1])
    requires var r := Transformed(Encoding(enc), Stored(us[2..])); r.Ok? && Transformed(Decoding(dec), r.text) == Ok(Stored(us[2..]))
    ensures var cp, tail := Combine(us[0], us[1]), Transformed(Encoding(enc), Stored(us[2..])).text;
            Transformed(Decoding(dec), Escapes(Encode(cp)) + tail) == Ok(Stored(us))
  {
    hide Transformed, Encode, Decode, Has, Escapes;
    var cp, tail := Combine(us[0], us[1]), Transformed(Encoding(enc), Stored(us[2..])).text;
    DecodesBack(cp, tail, dec);
    assert (cp - 0x1_0000) / 0x400 + 0xd800 == us[0] && (cp - 0x1_0000) % 0x400 + 0xdc00 == us[1];
    assert us[1..][1..] == us[2..];
    Assoc(Encode(us[0]), Encode(us[1]), Stored(us[2..]));
  }
}
