/** Base64 (section 4 of RFC 4648): the two encoders and the two decoders of duk_api_codec.c. */
module Base64 {
  import opened Bytes
  import opened Seqs

  // ----- Alphabet -----

  const PAD: Byte := 61  // '='

  /** duk_base64_enctab, given by the ranges that the table-free encoder tests. */
  function EncodeSextet(x: int): (c: Byte)
    requires 0 <= x < 64
  {
    if x <= 25 then x + 65
    else if x <= 51 then x - 26 + 97
    else if x <= 61 then x - 52 + 48
    else if x == 62 then 43
    else 47
  }

  const INVALID: int := -1
  const BLANK: int := -2
  const EQUALS: int := -3

  /** duk_base64_dectab: a sextet, or one of the three negative codes. */
  function DecodeByte(c: Byte): (code: int)
    ensures 0 <= code < 64 || code == INVALID || code == BLANK || code == EQUALS
  {
    if 65 <= c <= 90 then c - 65
    else if 97 <= c <= 122 then c - 97 + 26
    else if 48 <= c <= 57 then c - 48 + 52
    else if c == 43 then 62
    else if c == 47 then 63
    else if c == PAD then EQUALS
    else if c == 9 || c == 10 || c == 13 || c == 32 then BLANK
    else INVALID
  }

  /** The two tables are inverse to each other on the 64 characters of the alphabet. */
  lemma AlphabetInverse(x: int, c: Byte)
    ensures 0 <= x < 64 ==> DecodeByte(EncodeSextet(x)) == x
    ensures 0 <= DecodeByte(c) ==> EncodeSextet(DecodeByte(c)) == c
  {}

  /** Table 1 of RFC 4648: the letters. */
  lemma Letters(x: nat)
    requires x < 26
    ensures EncodeSextet(x) == Ascii("ABCDEFGHIJKLMNOPQRSTUVWXYZ")[x]
    ensures EncodeSextet(26 + x) == Ascii("abcdefghijklmnopqrstuvwxyz")[x]
  {}

  /** The digits and two symbols of that table, the pad character and the four blanks. */
  lemma Symbols(x: nat, c: Byte)
    ensures x < 12 ==> EncodeSextet(52 + x) == Ascii("0123456789+/")[x]
    ensures DecodeByte(c) == EQUALS <==> [c] == Ascii("=")
    ensures DecodeByte(c) == BLANK <==> c in [0x09, 0x0a, 0x0d, 0x20]
  {
    assert Ascii("=") == [61];
  }

  // ----- Reference encoder: three bytes to four characters -----

  function Pack3(a: Byte, b: Byte, c: Byte): (t: int)
    ensures 0 <= t < 0x100_0000
  {
    a * 0x1_0000 + b * 0x100 + c
  }

  function Quad(t: int): (q: seq<Byte>)
    requires 0 <= t < 0x100_0000
    ensures |q| == 4
  {
    [EncodeSextet(t / 0x4_0000), EncodeSextet(t / 0x1000 % 64), EncodeSextet(t / 64 % 64), EncodeSextet(t % 64)]
  }

  /** The encoding of one, two or three bytes. */
  function EncodeGroup(g: seq<Byte>): (q: seq<Byte>)
    requires 1 <= |g| <= 3
    ensures |q| == 4
  {
    if |g| == 3 then Quad(Pack3(g[0], g[1], g[2]))
    else if |g| == 2 then Quad(Pack3(g[0], g[1], 0))[..3] + [PAD]
    else Quad(Pack3(g[0], 0, 0))[..2] + [PAD, PAD]
  }

  function Encode(s: seq<Byte>): (e: seq<Byte>)
    ensures |e| == (|s| + 2) / 3 * 4
  {
    if |s| == 0 then []
    else if |s| <= 3 then EncodeGroup(s)
    else EncodeGroup(s[..3]) + Encode(s[3..])
  }

  // ----- Reference decoder: drop blanks, then decode four codes at a time -----

  type Code = x: int | x == INVALID || x == EQUALS || 0 <= x < 64 witness 0

  function Codes(s: seq<Byte>): (r: seq<Code>)
    ensures |r| <= |s|
  {
    if s == [] then []
    else if DecodeByte(s[0]) == BLANK then Codes(s[1..])
    else [DecodeByte(s[0])] + Codes(s[1..])
  }

  /** Padding and invalid characters contribute zero bits. */
  function Value(u: seq<Code>): int {
    if u == [] then 0
    else Value(u[..|u| - 1]) * 64 + (if u[|u| - 1] < 0 then 0 else u[|u| - 1])
  }

  lemma {:induction false} ValueBound(u: seq<Code>)
    requires |u| <= 4
    ensures 0 <= Value(u)
    ensures Value(u) < (if |u| == 0 then 1 else if |u| == 1 then 64 else if |u| == 2 then 0x1000
                        else if |u| == 3 then 0x4_0000 else 0x100_0000)
  {
    if u != [] { ValueBound(u[..|u| - 1]); }
  }

  function Split3(t: int): (r: seq<Byte>)
    requires 0 <= t < 0x100_0000
    ensures |r| == 3
  {
    [t / 0x1_0000, t / 0x100 % 0x100, t % 0x100]
  }

  /** How many pad characters end the unit; None unless the padding is at its end and at most two long. */
  function Padding(u: seq<Code>): (r: Option<int>)
    requires |u| == 4
    ensures r.Some? ==> 0 <= r.value <= 2
  {
    if u[0] < 0 || u[1] < 0 then None
    else if 0 <= u[2] && 0 <= u[3] then Some(0)
    else if 0 <= u[2] && u[3] == EQUALS then Some(1)
    else if u[2] == EQUALS && u[3] == EQUALS then Some(2)
    else None
  }

  function Prepend(a: seq<Byte>, r: Option<seq<Byte>>): Option<seq<Byte>> {
    if r.None? then None else Some(a + r.value)
  }

  function UnitBytes(u: seq<Code>): (r: Option<seq<Byte>>)
    requires |u| == 4
  {
    ValueBound(u);
    if Padding(u).None? then None else Some(Split3(Value(u))[..3 - Padding(u).value])
  }

  function Units(u: seq<Code>): (r: Option<seq<Byte>>) {
    if |u| == 0 then Some([])
    else if |u| < 4 || UnitBytes(u[..4]).None? then None
    else Prepend(UnitBytes(u[..4]).value, Units(u[4..]))
  }

  function Decode(s: seq<Byte>): (r: Option<seq<Byte>>) {
    Units(Codes(s))
  }

  // ----- The encoders -----

  method Write4(dst: array<Byte>, q: nat, a: Byte, b: Byte, c: Byte, d: Byte)
    requires q + 4 <= dst.Length
    modifies dst
    ensures dst[..q + 4] == old(dst[..q]) + [a, b, c, d]
    ensures dst[q + 4..] == old(dst[q + 4..])
  {
    dst[q] := a;
    dst[q + 1] := b;
    dst[q + 2] := c;
    dst[q + 3] := d;
  }

  /** One full 3-byte to 4-character conversion. */
  method EncodeFull(a: Byte, b: Byte, c: Byte, dst: array<Byte>, q: nat)
    requires q + 4 <= dst.Length
    modifies dst
    ensures dst[..q + 4] == old(dst[..q]) + EncodeGroup([a, b, c])
  {
    var t := Pack3(a, b, c);
    Write4(dst, q, EncodeSextet(t / 0x4_0000), EncodeSextet(t / 0x1000 % 64),
           EncodeSextet(t / 64 % 64), EncodeSextet(t % 64));
  }

  /** duk__base64_encode_helper with DUK_USE_BASE64_FASTPATH: whole groups first, then the rest. */
  method EncodeFast(src: seq<Byte>, dst: array<Byte>)
    requires dst.Length == (|src| + 2) / 3 * 4
    modifies dst
    ensures dst[..] == Encode(src)
  {
    hide Encode, EncodeGroup;
    var nFull := |src| / 3;
    var nFull3 := nFull * 3;
    var p, q := 0, 0;
    ghost var k := 0;
    while p != nFull3
      invariant 0 <= k <= nFull && p == 3 * k && q == 4 * k
      decreases nFull - k
      invariant dst[..q] + Encode(src[p..]) == Encode(src)
    {
      EncodeThree(src, p);
      Assoc(dst[..q], EncodeGroup([src[p], src[p + 1], src[p + 2]]), Encode(src[p + 3..]));
      EncodeFull(src[p], src[p + 1], src[p + 2], dst, q);
      p, q, k := p + 3, q + 4, k + 1;
    }
    EncodeTail(src[p..], dst, q);
    assert dst[..] == dst[..dst.Length];
  }

  /** The switch on the number of bytes left over. */
  method EncodeTail(src: seq<Byte>, dst: array<Byte>, q: nat)
    requires |src| < 3 && dst.Length == q + (if |src| == 0 then 0 else 4)
    modifies dst
    ensures dst[..] == old(dst[..q]) + Encode(src)
  {
    hide Encode, EncodeSextet;
    if |src| == 1 {
      var t: int := src[0];
      TailOne(t);
      assert src == [t];
      Write4(dst, q, EncodeSextet(t / 4), EncodeSextet(t * 16 % 64), PAD, PAD);
    } else if |src| == 2 {
      var t: int := 0x100 * src[0] as int + src[1];
      TailTwo(src[0], src[1]);
      assert src == [src[0], src[1]];
      Write4(dst, q, EncodeSextet(t / 1024), EncodeSextet(t / 16 % 64), EncodeSextet(t * 4 % 64), PAD);
    } else {
      EncodeEmpty();
    }
    assert dst[..] == dst[..dst.Length];
  }

  lemma EncodeEmpty()
    ensures Encode([]) == []
  {}

  lemma TailOne(a: Byte)
    ensures Encode([a]) == [EncodeSextet(a / 4), EncodeSextet(a * 16 % 64), PAD, PAD]
  {}

  lemma TailTwo(a: Byte, b: Byte)
    ensures var t := a * 0x100 + b;
            Encode([a, b]) == [EncodeSextet(t / 1024), EncodeSextet(t / 16 % 64), EncodeSextet(t * 4 % 64), PAD]
  {
    hide EncodeSextet;
    var t := a * 0x100 + b;
    Shift8(t);
    assert Pack3(a, b, 0) == t * 0x100 && Encode([a, b]) == Quad(t * 0x100)[..3] + [PAD];
  }

  lemma Shift8(t: int)
    requires 0 <= t < 0x1_0000
    ensures t * 0x100 / 0x4_0000 == t / 1024
    ensures t * 0x100 / 0x1000 % 64 == t / 16 % 64
    ensures t * 0x100 / 64 % 64 == t * 4 % 64
  {}

  lemma Shift6(t: int)
    requires 0 <= t < 0x100_0000
    ensures t / 0x4_0000 < 64
    ensures t * 64 / 0x4_0000 == t / 0x1000
    ensures t * 0x1000 / 0x4_0000 == t / 64
    ensures t * 0x4_0000 / 0x4_0000 == t
  {}

  function Shifted(t: int, i: nat): int
    requires i <= 4
  {
    t * (if i == 0 then 1 else if i == 1 then 64 else if i == 2 then 0x1000 else if i == 3 then 0x4_0000 else 0x100_0000)
  }

  lemma QuadAt(t: int, i: nat)
    requires 0 <= t < 0x100_0000 && i < 4
    ensures Quad(t)[i] == EncodeSextet(Shifted(t, i) / 0x4_0000 % 64) && Shifted(t, i + 1) == Shifted(t, i) * 64
  {
    hide EncodeSextet;
    Shift6(t);
  }

  lemma EncodeShort(s: seq<Byte>)
    requires 1 <= |s| <= 3
    ensures Encode(s) == EncodeGroup(s)
  {}

  lemma EncodeLong(s: seq<Byte>)
    requires 3 < |s|
    ensures Encode(s) == EncodeGroup(s[..3]) + Encode(s[3..])
  {}

  lemma EncodeSplit(s: seq<Byte>)
    requires s != []
    ensures var n := if |s| < 3 then |s| else 3; Encode(s) == EncodeGroup(s[..n]) + Encode(s[n..])
  {
    hide Encode, EncodeGroup;
    if |s| <= 3 {
      EncodeShort(s);
      EncodeEmpty();
      assert s[..|s|] == s && s[|s|..] == [];
      Identity(EncodeGroup(s));
    } else {
      EncodeLong(s);
    }
  }

  lemma EncodeThree(s: seq<Byte>, p: nat)
    requires p + 3 <= |s|
    ensures Encode(s[p..]) == EncodeGroup([s[p], s[p + 1], s[p + 2]]) + Encode(s[p + 3..])
  {
    hide Encode, EncodeGroup;
    EncodeSplit(s[p..]);
    DropDrop(s, p, 3);
    assert s[p..][..3] == [s[p], s[p + 1], s[p + 2]];
  }

  /** The zero-filled value of a group, as the small encoder shifts it in. */
  function Filled(g: seq<Byte>): (t: int)
    requires 1 <= |g| <= 3
    ensures 0 <= t < 0x100_0000
  {
    Pack3(g[0], if |g| < 2 then 0 else g[1], if |g| < 3 then 0 else g[2])
  }

  /** The inner read loop: shift in up to three bytes, padded by zero. */
  method ReadGroup(src: seq<Byte>, p0: nat) returns (p: nat, t: int, snip: int)
    requires p0 < |src|
    ensures p == (if p0 + 3 <= |src| then p0 + 3 else |src|)
    ensures t == Filled(src[p0..p]) && snip == p - p0 + 1
  {
    p, t, snip := p0, 0, 4;
    var i := 0;
    while i < 3
      invariant 0 <= i <= 3
      invariant p == (if p0 + i <= |src| then p0 + i else |src|) && snip == 4 - (p0 + i - p)
      invariant i == 0 ==> t == 0
      invariant i == 1 ==> t == src[p0]
      invariant i == 2 ==> t == 0x100 * (src[p0] as int) + (if p < p0 + 2 then 0 else src[p0 + 1] as int)
      invariant i == 3 ==> t == Filled(src[p0..p])
    {
      t := t * 0x100;
      if p >= |src| {
        snip := snip - 1;
      } else {
        t := t + src[p];
        p := p + 1;
      }
      i := i + 1;
    }
  }

  /** The inner write loop: four sextets from the top of a 24-bit value, the last ones replaced by '='. */
  method WriteGroup(t0: int, snip: int, dst: array<Byte>, q: nat)
    requires 0 <= t0 < 0x100_0000 && 2 <= snip <= 4 && q + 4 <= dst.Length
    modifies dst
    ensures dst[..q + 4] == old(dst[..q]) + Quad(t0)[..snip] + seq(4 - snip, _ => PAD)
  {
    hide EncodeSextet, Quad;
    ghost var want := Quad(t0)[..snip] + seq(4 - snip, _ => PAD);
    var t, i := t0, 0;
    while i < 4
      invariant 0 <= i <= 4
      invariant t == Shifted(t0, i)
      invariant dst[..q + i] == old(dst[..q]) + want[..i]
    {
      QuadAt(t0, i);
      var x := t / 0x4_0000 % 64;
      t := t * 64;
      dst[q + i] := if i >= snip then PAD else EncodeSextet(x);
      assert dst[q + i] == want[i];
      i := i + 1;
    }
  }

  lemma FilledEncodes(g: seq<Byte>)
    requires 1 <= |g| <= 3
    ensures EncodeGroup(g) == Quad(Filled(g))[..|g| + 1] + seq(3 - |g|, _ => PAD)
  {}

  /** duk__base64_encode_helper without the fast path. */
  lemma GroupStep(src: seq<Byte>, p: nat, p1: nat, done: seq<Byte>)
    requires p < p1 <= |src| && p1 == if p + 3 <= |src| then p + 3 else |src|
    ensures done + Encode(src[p..]) == done + EncodeGroup(src[p..p1]) + Encode(src[p1..])
  {
    hide Encode, EncodeGroup;
    EncodeSplit(src[p..]);
    DropTake(src, p, p1 - p);
    DropDrop(src, p, p1 - p);
    Assoc(done, EncodeGroup(src[p..p1]), Encode(src[p1..]));
  }

  method EncodeSmall(src: seq<Byte>, dst: array<Byte>)
    requires dst.Length == (|src| + 2) / 3 * 4
    modifies dst
    ensures dst[..] == Encode(src)
  {
    hide Encode, EncodeGroup, Quad, Filled;
    var p, q := 0, 0;
    ghost var k := 0;
    while p < |src|
      invariant q == 4 * k && p == (if 3 * k <= |src| then 3 * k else |src|) && 3 * k <= |src| + 2
      invariant dst[..q] + Encode(src[p..]) == Encode(src)
    {
      var p1, t, snip := ReadGroup(src, p);
      GroupStep(src, p, p1, dst[..q]);
      FilledEncodes(src[p..p1]);
      Assoc(dst[..q], Quad(t)[..snip], seq(4 - snip, _ => PAD));
      WriteGroup(t, snip, dst, q);
      p, q, k := p1, q + 4, k + 1;
    }
    EncodeEmpty();
    assert dst[..] == dst[..dst.Length];
  }

  // ----- The decoders -----

  /** A partly read unit: sextets followed by nEqual pad characters. */
  predicate Pending(u: seq<Code>, nEqual: nat) {
    && |u| <= 4 && nEqual <= |u|
    && (forall i :: 0 <= i < |u| - nEqual ==> 0 <= u[i])
    && (forall i :: |u| - nEqual <= i < |u| ==> u[i] == EQUALS)
  }

  lemma CodesCons(s: seq<Byte>)
    requires s != []
    ensures Codes(s) == if DecodeByte(s[0]) == BLANK then Codes(s[1..]) else [DecodeByte(s[0])] + Codes(s[1..])
  {}

  lemma CodesStep(s: seq<Byte>, p: nat)
    requires p < |s|
    ensures Codes(s[p..]) == if DecodeByte(s[p]) == BLANK then Codes(s[p + 1..])
                             else [DecodeByte(s[p])] + Codes(s[p + 1..])
  {
    hide Codes;
    CodesCons(s[p..]);
    DropDrop(s, p, 1);
  }

  /** A bad character makes the whole input undecodable, whatever follows it. */
  lemma BadUnit(u: seq<Code>, nEqual: nat, x: Code, rest: seq<Code>)
    requires Pending(u, nEqual) && |u| < 4
    requires x == INVALID || (0 <= x && 0 < nEqual)
    ensures Units(u + ([x] + rest)).None?
  {
    hide Value;
    var all := u + ([x] + rest);
    if 4 <= |all| {
      assert all[..4][|u|] == x;
      assert forall i :: 0 <= i < |u| ==> all[..4][i] == u[i];
      if 0 < nEqual { assert all[..4][|u| - 1] == EQUALS; }
    }
  }

  lemma GoodUnit(u: seq<Code>, nEqual: nat, rest: seq<Code>)
    requires Pending(u, nEqual) && |u| == 4
    ensures 0 <= Value(u) < 0x100_0000
    ensures Units(u + rest) == if nEqual <= 2 then Prepend(Split3(Value(u))[..3 - nEqual], Units(rest)) else None
  {
    ValueBound(u);
    hide Value;
    assert (u + rest)[..4] == u && (u + rest)[4..] == rest;
  }

  lemma DecodeStart(s: seq<Byte>)
    ensures Decode(s) == Prepend([], Units([] + Codes(s[0..])))
  {
    assert s[0..] == s && [] + Codes(s) == Codes(s);
    if Decode(s).Some? { assert [] + Decode(s).value == Decode(s).value; }
  }

  /** At the end of the input only a whole number of units is accepted. */
  lemma EndOfInput(a: seq<Byte>, u: seq<Code>, s: seq<Byte>)
    requires |u| < 4
    ensures Prepend(a, Units(u + Codes(s[|s|..]))) == if u == [] then Some(a) else None
  {
    assert u + Codes(s[|s|..]) == u && a + [] == a;
  }

  lemma ValueSnoc(u: seq<Code>, x: Code)
    ensures Value(u + [x]) == Value(u) * 64 + (if x < 0 then 0 else x)
  {
    assert (u + [x])[..|u|] == u;
  }

  lemma PrependAssoc(a: seq<Byte>, b: seq<Byte>, r: Option<seq<Byte>>)
    ensures Prepend(a, Prepend(b, r)) == Prepend(a + b, r)
  {
    if r.Some? { assert a + (b + r.value) == a + b + r.value; }
  }

  /** Write three bytes, then step back over the ones that stand for padding. */
  method Emit(t: int, nEqual: nat, dst: array<Byte>, q0: nat) returns (ok: bool, q: nat)
    requires 0 <= t < 0x100_0000 && q0 + 3 <= dst.Length
    modifies dst
    ensures ok <==> nEqual <= 2
    ensures ok ==> q == q0 + 3 - nEqual && dst[..q] == old(dst[..q0]) + Split3(t)[..3 - nEqual]
  {
    dst[q0] := t / 0x1_0000;
    dst[q0 + 1] := t / 0x100 % 0x100;
    dst[q0 + 2] := t % 0x100;
    q, ok := q0 + 3, true;
    assert dst[..q] == old(dst[..q0]) + Split3(t);
    if nEqual > 0 {
      if nEqual == 1 {
        q := q - 1;
      } else if nEqual == 2 {
        q := q - 2;
      } else {
        ok := false;
      }
    }
  }

  /** duk__base64_decode_helper without the fast path. */
  method DecodeSmall(src: seq<Byte>, dst: array<Byte>) returns (ok: bool, q: nat)
    requires dst.Length == (|src| + 3) / 4 * 3
    modifies dst
    ensures ok ==> q <= dst.Length && Decode(src) == Some(dst[..q])
    ensures !ok ==> Decode(src).None?
  {
    hide Codes, Units, Value, DecodeByte;
    var p, t, group, nEqual := 0, 0, 0, 0;
    q := 0;
    ghost var u: seq<Code> := [];
    ValueBound(u);
    DecodeStart(src);
    while p < |src|
      invariant 0 <= p <= |src| && Pending(u, nEqual) && |u| == group < 4 && t == Value(u)
      invariant 4 * q + 3 * group <= 3 * p
      invariant Decode(src) == Prepend(dst[..q], Units(u + Codes(src[p..])))
    {
      var x := DecodeByte(src[p]);
      CodesStep(src, p);
      p := p + 1;
      ghost var rest := Codes(src[p..]);
      if x == BLANK { continue; }
      if x == INVALID || (x != EQUALS && nEqual > 0) {
        BadUnit(u, nEqual, x, rest);
        return false, q;
      }
      ValueSnoc(u, x);
      t := t * 64 + (if x == EQUALS then 0 else x);
      nEqual := if x == EQUALS then nEqual + 1 else nEqual;
      assert u + ([x] + rest) == u + [x] + rest;
      u := u + [x];
      if group == 3 {
        GoodUnit(u, nEqual, rest);
        ghost var before := dst[..q];
        ok, q := Emit(t, nEqual, dst, q);
        if !ok { return; }
        PrependAssoc(before, Split3(t)[..3 - nEqual], Units(rest));
        nEqual, t, group, u := 0, 0, 0, [];
        ValueBound(u);
        assert u + rest == rest;
      } else {
        group := group + 1;
      }
    }
    EndOfInput(dst[..q], u, src);
    ok := group == 0;
  }

  /** (t << 6) | code in 32-bit two's complement: a negative code sets all the bits above its low six. */
  function ShiftOr(t: int, code: int): int {
    if code < 0 then code else t * 64 + code
  }

  lemma ShiftOrIsBitwise(t: bv32, code: bv32)
    ensures 0xffff_ffc0 <= code ==> (t << 6) | code == code
    ensures code < 64 ==> (t << 6) | code == (t << 6) + code
  {}

  /** The sign test on four ORed table entries sees any entry that is not a sextet. */
  lemma SignTest(a: int, b: int, c: int, d: int)
    requires -3 <= a < 64 && -3 <= b < 64 && -3 <= c < 64 && -3 <= d < 64
    ensures var t := ShiftOr(ShiftOr(ShiftOr(a, b), c), d);
            && (t < 0 <==> a < 0 || b < 0 || c < 0 || d < 0)
            && (0 <= t ==> t == Value([a, b, c, d]))
  {
    hide Value;
    if 0 <= a && 0 <= b && 0 <= c && 0 <= d { FourValue(a, b, c, d); }
  }

  lemma CleanCodes(s: seq<Byte>, p: nat)
    requires p + 4 <= |s| && (forall i :: p <= i < p + 4 ==> DecodeByte(s[i]) != BLANK)
    ensures Codes(s[p..]) == [DecodeByte(s[p]), DecodeByte(s[p + 1]), DecodeByte(s[p + 2]), DecodeByte(s[p + 3])]
                             + Codes(s[p + 4..])
  {
    hide Codes, DecodeByte;
    CodesStep(s, p); CodesStep(s, p + 1); CodesStep(s, p + 2); CodesStep(s, p + 3);
  }

  datatype UnitResult = Finished(ok: bool) | Unit(p: nat, q: nat)

  /** One slow path unit of the fast decoder: read four characters that are not blank, or reach the end. */
  method SlowUnit(src: seq<Byte>, p0: nat, dst: array<Byte>, q0: nat) returns (r: UnitResult)
    requires p0 <= |src| && 4 * q0 <= 3 * p0 && dst.Length == (|src| + 3) / 4 * 3
    modifies dst
    ensures r.Finished? ==> Units(Codes(src[p0..])) == if r.ok then Some([]) else None
    ensures r == Finished(true) ==> dst[..q0] == old(dst[..q0])
    ensures r.Unit? ==> p0 < r.p <= |src| && q0 < r.q <= dst.Length && 4 * r.q <= 3 * r.p
    ensures r.Unit? ==> Prepend(old(dst[..q0]), Units(Codes(src[p0..]))) == Prepend(dst[..r.q], Units(Codes(src[r.p..])))
  {
    hide Codes, Units, Value, DecodeByte;
    var p, t, nChars, nEqual := p0, 0, 0, 0;
    ghost var u: seq<Code> := [];
    ValueBound(u);
    assert u + Codes(src[p0..]) == Codes(src[p0..]);
    while true
      invariant p0 <= p <= |src| && Pending(u, nEqual) && |u| == nChars < 4 && t == Value(u)
      invariant nChars <= p - p0
      invariant dst[..] == old(dst[..])
      invariant Units(Codes(src[p0..])) == Units(u + Codes(src[p..]))
      decreases |src| - p
    {
      if p >= |src| {
        EndOfInput([], u, src);
        return Finished(nChars == 0);
      }
      var x := DecodeByte(src[p]);
      CodesStep(src, p);
      p := p + 1;
      ghost var rest := Codes(src[p..]);
      if x == BLANK { continue; }
      if x == INVALID || (x != EQUALS && nEqual > 0) {
        BadUnit(u, nEqual, x, rest);
        return Finished(false);
      }
      ValueSnoc(u, x);
      t := t * 64 + (if x == EQUALS then 0 else x);
      nEqual := if x == EQUALS then nEqual + 1 else nEqual;
      assert u + ([x] + rest) == u + [x] + rest;
      u := u + [x];
      if nChars == 3 {
        GoodUnit(u, nEqual, rest);
        var ok, q := Emit(t, nEqual, dst, q0);
        if !ok { return Finished(false); }
        PrependAssoc(old(dst[..q0]), Split3(t)[..3 - nEqual], Units(rest));
        return Unit(p, q);
      }
      nChars := nChars + 1;
    }
  }

  /** duk__base64_decode_helper with DUK_USE_BASE64_FASTPATH. */
  method DecodeFast(src: seq<Byte>, dst: array<Byte>) returns (ok: bool, q: nat)
    requires dst.Length == (|src| + 3) / 4 * 3
    modifies dst
    ensures ok ==> q <= dst.Length && Decode(src) == Some(dst[..q])
    ensures !ok ==> Decode(src).None?
  {
    hide Codes, Units, Value, DecodeByte;
    var p := 0;
    q := 0;
    DecodeStart(src);
    assert [] + Codes(src[0..]) == Codes(src[0..]);
    while true
      invariant 0 <= p <= |src| && 4 * q <= 3 * p
      invariant Decode(src) == Prepend(dst[..q], Units(Codes(src[p..])))
      decreases |src| - p
    {
      while p <= |src| - 4
        invariant 0 <= p <= |src| && 4 * q <= 3 * p
        invariant Decode(src) == Prepend(dst[..q], Units(Codes(src[p..])))
        decreases |src| - p
      {
        var a, b, c, d := DecodeByte(src[p]), DecodeByte(src[p + 1]), DecodeByte(src[p + 2]), DecodeByte(src[p + 3]);
        var t := ShiftOr(ShiftOr(ShiftOr(a, b), c), d);
        SignTest(a, b, c, d);
        if t < 0 { break; }
        CleanCodes(src, p);
        GoodUnit([a, b, c, d], 0, Codes(src[p + 4..]));
        assert Split3(t)[..3] == Split3(t);
        PrependAssoc(dst[..q], Split3(t), Units(Codes(src[p + 4..])));
        ok, q := Emit(t, 0, dst, q);
        p := p + 4;
      }
      var unit := SlowUnit(src, p, dst, q);
      if unit.Finished? {
        assert dst[..q] + [] == dst[..q];
        return unit.ok, q;
      }
      p, q := unit.p, unit.q;
    }
  }

  // ----- Laws -----

  lemma {:induction false} CodesAppend(a: seq<Byte>, b: seq<Byte>)
    ensures Codes(a + b) == Codes(a) + Codes(b)
  {
    if a == [] {
      Identity(b);
      Identity(Codes(b));
    } else {
      hide Codes, DecodeByte;
      CodesAppend(a[1..], b);
      CodesCons(a);
      CodesCons(a + b);
      HeadTail(a, b);
      if DecodeByte(a[0]) != BLANK { Assoc<Code>([DecodeByte(a[0])], Codes(a[1..]), Codes(b)); }
    }
  }

  lemma {:induction false} UnitsAppend(u: seq<Code>, v: seq<Code>)
    requires Units(u).Some?
    ensures Units(u + v) == Prepend(Units(u).value, Units(v))
  {
    hide UnitBytes;
    if u == [] {
      assert u + v == v;
      if Units(v).Some? { assert [] + Units(v).value == Units(v).value; }
    } else {
      UnitsAppend(u[4..], v);
      assert (u + v)[..4] == u[..4] && (u + v)[4..] == u[4..] + v;
      PrependAssoc(UnitBytes(u[..4]).value, Units(u[4..]).value, Units(v));
    }
  }

  /** Texts that decode may be concatenated, padding and all: their data is concatenated too. */
  lemma DecodeConcat(x: seq<Byte>, y: seq<Byte>)
    requires Decode(x).Some?
    ensures Decode(x + y) == Prepend(Decode(x).value, Decode(y))
  {
    hide Units;
    CodesAppend(x, y);
    UnitsAppend(Codes(x), Codes(y));
  }

  lemma {:induction false} BlanksVanish(w: seq<Byte>)
    requires forall i :: 0 <= i < |w| ==> DecodeByte(w[i]) == BLANK
    ensures Codes(w) == []
  {
    if w != [] { BlanksVanish(w[1..]); }
  }

  /** Whitespace may be inserted at any place of any input without changing the outcome. */
  lemma WhitespaceIgnored(x: seq<Byte>, w: seq<Byte>, y: seq<Byte>)
    requires forall i :: 0 <= i < |w| ==> DecodeByte(w[i]) == BLANK
    ensures Decode(x + w + y) == Decode(x + y)
  {
    hide Codes, Units;
    CodesAppend(x + w, y);
    CodesAppend(x, w);
    CodesAppend(x, y);
    BlanksVanish(w);
    assert Codes(x) + [] == Codes(x);
  }

  lemma FourCodes(q: seq<Byte>)
    requires |q| == 4 && (forall i :: 0 <= i < 4 ==> DecodeByte(q[i]) != BLANK)
    ensures Codes(q) == [DecodeByte(q[0]), DecodeByte(q[1]), DecodeByte(q[2]), DecodeByte(q[3])]
  {
    CleanCodes(q, 0);
    assert q[0..] == q && Codes(q[4..]) == [];
  }

  lemma FourValue(a: Code, b: Code, c: Code, d: Code)
    ensures Value([a, b, c, d]) == (if a < 0 then 0 else a) * 0x4_0000 + (if b < 0 then 0 else b) * 0x1000
                                   + (if c < 0 then 0 else c) * 64 + (if d < 0 then 0 else d)
  {
    ValueSnoc([], a); ValueSnoc([a], b); ValueSnoc([a, b], c); ValueSnoc([a, b, c], d);
    assert Value([]) == 0;
    hide Value;
    assert [] + [a] == [a] && [a] + [b] == [a, b] && [a, b] + [c] == [a, b, c] && [a, b, c] + [d] == [a, b, c, d];
  }

  lemma Sextets(t: int)
    requires 0 <= t < 0x100_0000
    ensures t / 0x4_0000 * 0x4_0000 + t / 0x1000 % 64 * 0x1000 + t / 64 % 64 * 64 + t % 64 == t
    ensures t / 0x4_0000 < 64
    ensures t % 0x1000 == t / 64 % 64 * 64 + t % 64
  {}

  lemma DecodeQuad(t: int, q: seq<Byte>, nEqual: nat)
    requires 0 <= t < 0x100_0000 && nEqual <= 2 && q == Quad(t)[..4 - nEqual] + seq(nEqual, _ => PAD)
    ensures Decode(q) == Some(Split3(if nEqual == 0 then t else if nEqual == 1 then t - t % 64
                                     else t - t % 0x1000)[..3 - nEqual])
  {
    hide Codes, Value, Units, Quad;
    QuadCodes(t, q, nEqual);
    var u := Codes(q);
    GoodUnit(u, nEqual, []);
    Identity(u);
    NoUnits(Split3(Value(u))[..3 - nEqual]);
  }

  lemma QuadCodes(t: int, q: seq<Byte>, nEqual: nat)
    requires 0 <= t < 0x100_0000 && nEqual <= 2 && q == Quad(t)[..4 - nEqual] + seq(nEqual, _ => PAD)
    ensures var u := Codes(q);
            && |u| == 4 && Pending(u, nEqual)
            && Value(u) == if nEqual == 0 then t else if nEqual == 1 then t - t % 64 else t - t % 0x1000
  {
    Sextets(t);
    var a, b, c, d := t / 0x4_0000, t / 0x1000 % 64, t / 64 % 64, t % 64;
    AlphabetInverse(a, 0); AlphabetInverse(b, 0); AlphabetInverse(c, 0); AlphabetInverse(d, 0);
    assert DecodeByte(PAD) == EQUALS;
    hide EncodeSextet, DecodeByte, Codes, Value;
    FourCodes(q);
    var u := Codes(q);
    assert u == [a, b, if nEqual == 2 then EQUALS else c, if nEqual == 0 then d else EQUALS];
    FourValue(u[0], u[1], u[2], u[3]);
  }

  lemma NoUnits(a: seq<Byte>)
    ensures Prepend(a, Units([])) == Some(a)
  {
    assert a + [] == a;
  }

  lemma GroupRoundTrip(g: seq<Byte>)
    requires 1 <= |g| <= 3
    ensures Decode(EncodeGroup(g)) == Some(g)
  {
    hide Decode, EncodeGroup, Filled, Quad;
    var t := Filled(g);
    FilledEncodes(g);
    DecodeQuad(t, EncodeGroup(g), 3 - |g|);
    SplitFilled(g);
    if |g| == 3 { assert Split3(t)[..3] == Split3(t); }
  }

  lemma SplitFilled(g: seq<Byte>)
    requires 1 <= |g| <= 3
    ensures |g| == 3 ==> Split3(Filled(g)) == g
    ensures |g| == 2 ==> Filled(g) % 64 == 0 && Split3(Filled(g))[..2] == g
    ensures |g| == 1 ==> Filled(g) % 0x1000 == 0 && Split3(Filled(g))[..1] == g
  {
    var a, b, c := g[0], if |g| < 2 then 0 else g[1], if |g| < 3 then 0 else g[2];
    PackTop(a, b, c);
    PackMiddle(a, b, c);
    PackLow(a, b, c);
    PackPadding(a, b);
    hide Pack3;
  }

  lemma PackTop(a: Byte, b: Byte, c: Byte)
    ensures Pack3(a, b, c) / 0x1_0000 == a
  {}

  lemma PackMiddle(a: Byte, b: Byte, c: Byte)
    ensures Pack3(a, b, c) / 0x100 % 0x100 == b
  {
    assert Pack3(a, b, c) / 0x100 == 0x100 * a as int + b;
  }

  lemma PackLow(a: Byte, b: Byte, c: Byte)
    ensures Pack3(a, b, c) % 0x100 == c
  {
    assert Pack3(a, b, c) / 0x100 == 0x100 * a as int + b;
  }

  lemma PackPadding(a: Byte, b: Byte)
    ensures Pack3(a, b, 0) % 64 == 0
    ensures Pack3(a, 0, 0) % 0x1000 == 0
  {
    assert Pack3(a, b, 0) / 64 == 0x400 * a as int + 4 * b as int;
    assert Pack3(a, 0, 0) / 0x1000 == 16 * a as int;
  }

  /** Decoding undoes encoding. */
  lemma {:induction false} RoundTrip(s: seq<Byte>)
    ensures Decode(Encode(s)) == Some(s)
  {
    hide EncodeGroup, Codes, Units;
    if s == [] {
      EndOfInput([], [], []);
      assert [] + Codes([][0..]) == Codes([]);
    } else if |s| <= 3 {
      GroupRoundTrip(s);
    } else {
      GroupRoundTrip(s[..3]);
      RoundTrip(s[3..]);
      DecodeConcat(EncodeGroup(s[..3]), Encode(s[3..]));
      assert s[..3] + s[3..] == s;
    }
  }

  // ----- Sizes in duk_base64_encode and duk_base64_decode -----

  const ENCODE_LIMIT: int := 3221225469
  const DECODE_LIMIT: int := 4294967292

  /** The limit on the input length is exactly where the 32-bit output length would wrap. */
  lemma EncodeLengthFits(srclen: int)
    requires 0 <= srclen < U32
    ensures srclen <= ENCODE_LIMIT <==> srclen + 2 < U32 && (srclen + 2) / 3 * 4 < U32
  {}

  lemma DecodeLengthFits(srclen: int)
    requires 0 <= srclen < U32
    ensures srclen <= DECODE_LIMIT <==> srclen + 3 < U32
    ensures srclen <= DECODE_LIMIT ==> (srclen + 3) / 4 * 3 < U32
  {}

  // ----- Section 4 of RFC 4648 on the text -----

  /** Whole groups: the 24 bits of three bytes are those of four characters, from the left. */
  lemma WholeGroup(a: Byte, b: Byte, c: Byte, rest: seq<Byte>)
    ensures var e := Encode([a, b, c] + rest);
            && 4 <= |e| && e[4..] == Encode(rest) && (forall i :: 0 <= i < 4 ==> DecodeByte(e[i]) >= 0)
            && ((DecodeByte(e[0]) * 64 + DecodeByte(e[1])) * 64 + DecodeByte(e[2])) * 64 + DecodeByte(e[3])
               == (a as int * 0x100 + b as int) * 0x100 + c as int
  {
    var s := [a, b, c] + rest;
    AppendSplit([a, b, c], rest);
    EncodeSplit(s);
    Bits(Pack3(a, b, c));
    hide Encode, Quad;
    AppendSplit(EncodeGroup([a, b, c]), Encode(rest));
  }

  lemma Bits(t: int)
    requires 0 <= t < 0x100_0000
    ensures var q := Quad(t);
            && (forall i :: 0 <= i < 4 ==> DecodeByte(q[i]) >= 0)
            && ((DecodeByte(q[0]) * 64 + DecodeByte(q[1])) * 64 + DecodeByte(q[2])) * 64 + DecodeByte(q[3]) == t
  {
    Sextets(t);
    var a, b, c, d := t / 0x4_0000, t / 0x1000 % 64, t / 64 % 64, t % 64;
    AlphabetInverse(a, 0);
    AlphabetInverse(b, 0);
    AlphabetInverse(c, 0);
    AlphabetInverse(d, 0);
    hide EncodeSextet, DecodeByte;
    assert Quad(t) == [EncodeSextet(a), EncodeSextet(b), EncodeSextet(c), EncodeSextet(d)];
  }

  /** Two bytes left over: three characters, their last two bits zero, and one pad. One byte: two characters and two pads. */
  lemma Leftover(a: Byte, b: Byte)
    ensures var e := Encode([a, b]);
            && |e| == 4 && (forall i :: 0 <= i < 3 ==> DecodeByte(e[i]) >= 0) && e[3..] == Ascii("=")
            && (DecodeByte(e[0]) * 64 + DecodeByte(e[1])) * 64 + DecodeByte(e[2]) == (a as int * 0x100 + b as int) * 4
    ensures var e := Encode([a]);
            && |e| == 4 && (forall i :: 0 <= i < 2 ==> DecodeByte(e[i]) >= 0) && e[2..] == Ascii("==")
            && DecodeByte(e[0]) * 64 + DecodeByte(e[1]) == a * 16
  {
    assert Ascii("=") == [PAD] && Ascii("==") == [PAD, PAD];
    Bits(Pack3(a, b, 0));
    Bits(Pack3(a, 0, 0));
    Alphabets(Pack3(a, b, 0));
    Alphabets(Pack3(a, 0, 0));
    hide EncodeSextet, DecodeByte, Quad;
  }

  lemma Alphabets(t: int)
    requires 0 <= t < 0x100_0000
    ensures var q := Quad(t);
            && (forall i :: 0 <= i < 4 ==> DecodeByte(q[i]) < 64)
            && (t % 64 == 0 ==> DecodeByte(q[3]) == 0) && (t % 0x1000 == 0 ==> DecodeByte(q[2]) == DecodeByte(q[3]) == 0)
  {
    Sextets(t);
    var a, b, c, d := t / 0x4_0000, t / 0x1000 % 64, t / 64 % 64, t % 64;
    AlphabetInverse(a, 0);
    AlphabetInverse(b, 0);
    AlphabetInverse(c, 0);
    AlphabetInverse(d, 0);
    hide EncodeSextet, DecodeByte;
    assert Quad(t) == [EncodeSextet(a), EncodeSextet(b), EncodeSextet(c), EncodeSextet(d)];
  }

  /** Four characters of the alphabet, or three and a pad, or two and two pads. */
  predicate GoodFour(u: seq<Code>, k: nat)
    requires k + 4 <= |u|
  {
    u[k] >= 0 && u[k + 1] >= 0 && (if u[k + 2] >= 0 then u[k + 3] >= 0 || u[k + 3] == EQUALS else u[k + 2] == u[k + 3] == EQUALS)
  }

  /** A text decodes if and only if, without its blanks, it is a sequence of such units. */
  lemma DecodesIff(s: seq<Byte>)
    ensures var u := Codes(s);
            Decode(s).Some? <==> |u| % 4 == 0 && forall k :: 0 <= k < |u| / 4 ==> GoodFour(u, 4 * k)
  {
    hide Codes;
    UnitsIff(Codes(s));
  }

  lemma {:induction false} UnitsIff(u: seq<Code>)
    ensures Units(u).Some? <==> |u| % 4 == 0 && forall k :: 0 <= k < |u| / 4 ==> GoodFour(u, 4 * k)
    decreases |u|
  {
    hide Value, Split3;
    if |u| >= 4 {
      var v := u[4..];
      UnitsIff(v);
      assert UnitBytes(u[..4]).Some? <==> GoodFour(u, 4 * 0);
      forall k | 0 <= k < |v| / 4 ensures GoodFour(v, 4 * k) <==> GoodFour(u, 4 * (k + 1)) {}
      if forall k :: 0 <= k < |u| / 4 ==> GoodFour(u, 4 * k) {
        forall k | 0 <= k < |v| / 4 ensures GoodFour(v, 4 * k) { assert GoodFour(u, 4 * (k + 1)); }
      }
      if GoodFour(u, 0) && forall k :: 0 <= k < |v| / 4 ==> GoodFour(v, 4 * k) {
        forall k | 0 <= k < |u| / 4 ensures GoodFour(u, 4 * k) {
          if k > 0 { assert GoodFour(v, 4 * (k - 1)); }
        }
      }
    }
  }
}
