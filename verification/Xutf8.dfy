/** Extended UTF-8 as in duk_unicode_support.c: section 3 of RFC 3629, carried on to 32-bit codepoints. */
module Xutf8 {
  import opened Bytes
  import opened Seqs

  /** The number of continuation bytes of a codepoint. */
  function Extra(cp: Word32): (n: nat)
    ensures n <= 6
  {
    if cp < 0x80 then 0
    else if cp < 0x800 then 1
    else if cp < 0x1_0000 then 2
    else if cp < 0x20_0000 then 3
    else if cp < 0x400_0000 then 4
    else if cp < 0x8000_0000 then 5
    else 6
  }

  function Marker(n: nat): (m: Byte)
    requires n <= 6
  {
    if n == 0 then 0x00 else if n == 1 then 0xc0 else if n == 2 then 0xe0 else if n == 3 then 0xf0
    else if n == 4 then 0xf8 else if n == 5 then 0xfc else 0xfe
  }

  /** What is left of a codepoint after n continuation bytes have been taken off its end. */
  function Lead(x: nat, n: nat): (r: nat) {
    if n == 0 then x else Lead(x / 64, n - 1)
  }

  function Tail(x: nat, n: nat): (r: seq<Byte>)
    ensures |r| == n
    ensures forall i :: 0 <= i < n ==> 0x80 <= r[i] < 0xc0
  {
    if n == 0 then [] else Tail(x / 64, n - 1) + [0x80 + x % 64]
  }

  /** The payload of an initial byte and the number of bytes that follow it. */
  function Initial(b: Byte): (r: Option<(nat, nat)>)
    ensures r.Some? ==> r.value.0 < 128 && r.value.1 <= 6
  {
    if b < 0x80 then Some((b, 0))
    else if b < 0xc0 then None
    else if b < 0xe0 then Some((b - 0xc0, 1))
    else if b < 0xf0 then Some((b - 0xe0, 2))
    else if b < 0xf8 then Some((b - 0xf0, 3))
    else if b < 0xfc then Some((b - 0xf8, 4))
    else if b < 0xfe then Some((b - 0xfc, 5))
    else if b < 0xff then Some((0, 6))
    else None
  }

  lemma LeadFits(cp: Word32)
    ensures Marker(Extra(cp)) + Lead(cp, Extra(cp)) < 256
    ensures Initial(Marker(Extra(cp)) + Lead(cp, Extra(cp))) == Some((Lead(cp, Extra(cp)), Extra(cp)))
    ensures 0x80 <= cp ==> 0xc0 <= Marker(Extra(cp)) + Lead(cp, Extra(cp))
  {
    var n := Extra(cp);
    var a, b, c, d, e, f := cp / 64, cp / 64 / 64, cp / 64 / 64 / 64, cp / 64 / 64 / 64 / 64,
                            cp / 64 / 64 / 64 / 64 / 64, cp / 64 / 64 / 64 / 64 / 64 / 64;
    assert Lead(f, 0) == f && Lead(e, 1) == Lead(f, 0) && Lead(e, 0) == e;
    assert Lead(d, 2) == Lead(e, 1) && Lead(d, 1) == Lead(e, 0) && Lead(d, 0) == d;
    assert Lead(c, 3) == Lead(d, 2) && Lead(c, 2) == Lead(d, 1) && Lead(c, 1) == d && Lead(c, 0) == c;
    assert Lead(b, 4) == Lead(c, 3) && Lead(b, 3) == Lead(c, 2) && Lead(b, 2) == d && Lead(b, 1) == c && Lead(b, 0) == b;
    assert Lead(a, 5) == f && Lead(a, 4) == e && Lead(a, 3) == d && Lead(a, 2) == c && Lead(a, 1) == b && Lead(a, 0) == a;
  }

  function Encode(cp: Word32): (r: seq<Byte>)
    ensures |r| == Extra(cp) + 1
    ensures cp < 0x80 ==> r == [cp]
    ensures 0x80 <= cp ==> 2 <= |r| && forall i :: 0 <= i < |r| ==> 0x80 <= r[i]
  {
    LeadFits(cp);
    [Marker(Extra(cp)) + Lead(cp, Extra(cp))] + Tail(cp, Extra(cp))
  }

  /** Shift continuation bytes into a 32-bit accumulator; their top bits are not looked at. */
  function Shift(res: Word32, bs: seq<Byte>): (r: Word32) {
    if bs == [] then res else (Shift(res, bs[..|bs| - 1]) * 64 + bs[|bs| - 1] % 64) % U32
  }

  /** duk_unicode_decode_xutf8 at the start of s: the codepoint and the length read, or None. */
  function Decode(s: seq<Byte>): (r: Option<(Word32, nat)>)
    ensures r.Some? ==> 1 <= r.value.1 <= |s|
  {
    if s == [] || Initial(s[0]).None? then None
    else
      var (res, n) := Initial(s[0]).value;
      if 1 + n > |s| then None else Some((Shift(res, s[1..1 + n]), 1 + n))
  }

  lemma {:induction false} ShiftTail(x: Word32, n: nat)
    requires Lead(x, n) < U32
    ensures Shift(Lead(x, n), Tail(x, n)) == x
  {
    if n > 0 {
      var t := Tail(x, n);
      assert t[..n - 1] == Tail(x / 64, n - 1) && t[n - 1] == 0x80 + x % 64;
      ShiftTail(x / 64, n - 1);
      LastSix(x);
    }
  }

  lemma LastSix(x: nat)
    ensures x / 64 * 64 + (0x80 + x % 64) % 64 == x
  {
    assert (0x80 + x % 64) % 64 == x % 64;
  }

  lemma LeadBound(x: nat, n: nat)
    ensures Lead(x, n) <= x
    decreases n
  {
    if n > 0 { LeadBound(x / 64, n - 1); }
  }

  /** Every 32-bit codepoint decodes from its own encoding, whatever follows. */
  lemma DecodeEncode(cp: Word32, rest: seq<Byte>)
    ensures Decode(Encode(cp) + rest) == Some((cp, |Encode(cp)|))
  {
    LeadFits(cp);
    LeadBound(cp, Extra(cp));
    ShiftTail(cp, Extra(cp));
    hide Lead, Tail, Shift, Initial, Extra, Marker;
    var s := Encode(cp) + rest;
    assert s[1..|Encode(cp)|] == Tail(cp, Extra(cp));
  }

  /** The bytes of UTF-8, section 3 of RFC 3629. */
  lemma {:induction false} Utf8Bytes(cp: Word32)
    requires cp < 0x20_0000
    ensures var bs := Encode(cp);
            && (cp < 0x80 ==> bs == [cp])
            && (0x80 <= cp < 0x800 ==> bs == [0xc0 + cp / 64, 0x80 + cp % 64])
            && (0x800 <= cp < 0x1_0000 ==> bs == [0xe0 + cp / 64 / 64, 0x80 + cp / 64 % 64, 0x80 + cp % 64])
            && (0x1_0000 <= cp ==> bs == [0xf0 + cp / 64 / 64 / 64, 0x80 + cp / 64 / 64 % 64, 0x80 + cp / 64 % 64, 0x80 + cp % 64])
  {
    TailOne(cp);
    TailTwo(cp);
    TailThree(cp);
    LeadFits(cp);
    hide Lead, Tail;
  }

  lemma TailOne(x: nat)
    ensures Lead(x, 0) == x && Lead(x, 1) == x / 64 && Tail(x, 0) == [] && Tail(x, 1) == [0x80 + x % 64]
  {
    assert Lead(x, 1) == Lead(x / 64, 0) && Tail(x, 1) == Tail(x / 64, 0) + [0x80 + x % 64];
  }

  lemma TailTwo(x: nat)
    ensures Lead(x, 2) == x / 64 / 64 && Tail(x, 2) == [0x80 + x / 64 % 64, 0x80 + x % 64]
  {
    TailOne(x / 64);
    assert Lead(x, 2) == Lead(x / 64, 1) && Tail(x, 2) == Tail(x / 64, 1) + [0x80 + x % 64];
  }

  lemma TailThree(x: nat)
    ensures Lead(x, 3) == x / 64 / 64 / 64 && Tail(x, 3) == [0x80 + x / 64 / 64 % 64, 0x80 + x / 64 % 64, 0x80 + x % 64]
  {
    TailTwo(x / 64);
    assert Lead(x, 3) == Lead(x / 64, 2) && Tail(x, 3) == Tail(x / 64, 2) + [0x80 + x % 64];
  }

  /** The longer forms, for codepoints beyond these. */
  lemma Utf8Long(cp: Word32)
    requires 0x20_0000 <= cp
    ensures var r := Encode(cp);
            if cp < 0x400_0000 then |r| == 5 && 0xf8 <= r[0] <= 0xfb
            else if cp < 0x8000_0000 then |r| == 6 && 0xfc <= r[0] <= 0xfd
            else |r| == 7 && r[0] == 0xfe
  {
    LeadFits(cp);
  }
}
