/** TypedArray.prototype.set() of duk_bi_buffer.c, between integer views of one memory. */
module TypedArray {
  import opened Bytes
  import opened Seqs

  type Octets = seq<Byte>

  datatype Elem = Uint8 | Uint8Clamped | Int8 | Uint16 | Int16 | Uint32 | Int32

  function Shift(e: Elem): nat {
    match e
    case Uint8 => 0 case Uint8Clamped => 0 case Int8 => 0
    case Uint16 => 1 case Int16 => 1
    case Uint32 => 2 case Int32 => 2
  }

  function Size(e: Elem): (n: nat)
    ensures n == 1 || n == 2 || n == 4
  {
    match Shift(e) case 0 => 1 case 1 => 2 case _ => 4
  }

  /** 2 to the number of bits. */
  function Modulus(e: Elem): (m: nat)
    ensures m == 0x100 || m == 0x1_0000 || m == U32
  {
    match Shift(e) case 0 => 0x100 case 1 => 0x1_0000 case _ => U32
  }

  predicate Signed(e: Elem) {
    e.Int8? || e.Int16? || e.Int32?
  }

  // ----- Reading and writing one element (little-endian) -----

  function Unsigned(b: Octets): (x: nat)
    requires |b| == 1 || |b| == 2 || |b| == 4
    ensures |b| == 1 ==> x < 0x100
    ensures |b| == 2 ==> x < 0x1_0000
    ensures |b| == 4 ==> x < U32
  {
    if |b| == 1 then b[0]
    else if |b| == 2 then b[0] as int + 0x100 * b[1] as int
    else b[0] as int + 0x100 * b[1] as int + 0x1_0000 * b[2] as int + 0x100_0000 * b[3] as int
  }

  /** A cast to a signed type of the given modulus. */
  function Signify(x: nat, m: nat): (r: int) {
    if x >= m / 2 then x - m else x
  }

  /** duk_hbufferobject_push_validated_read */
  function Read(e: Elem, b: Octets): (x: int)
    requires |b| == Size(e)
  {
    if Signed(e) then Signify(Unsigned(b), Modulus(e)) else Unsigned(b)
  }

  function ToUint32(x: int): Word32 {
    x % U32
  }

  function ToInt32(x: int): int {
    Signify(x % U32, U32)
  }

  function ToUint8Clamped(x: int): Byte {
    if x < 0 then 0 else if x > 255 then 255 else x
  }

  /** The unsigned integer that is stored; a narrowing cast keeps the low bits. */
  function Stored(e: Elem, x: int): (r: nat)
    ensures r < Modulus(e)
  {
    match e
    case Uint8 => ToUint32(x) % 0x100
    case Uint8Clamped => ToUint8Clamped(x)
    case Int8 => ToInt32(x) % 0x100
    case Uint16 => ToUint32(x) % 0x1_0000
    case Int16 => ToInt32(x) % 0x1_0000
    case Uint32 => ToUint32(x)
    case Int32 => ToInt32(x) % U32
  }

  function LittleEndian(e: Elem, r: nat): (b: Octets)
    requires r < Modulus(e)
    ensures |b| == Size(e)
  {
    match Shift(e)
    case 0 => [r]
    case 1 => [r % 0x100, r / 0x100]
    case _ => [r % 0x100, r / 0x100 % 0x100, r / 0x1_0000 % 0x100, r / 0x100_0000]
  }

  /** duk_hbufferobject_validated_write */
  function Write(e: Elem, x: int): (b: Octets)
    ensures |b| == Size(e)
  {
    LittleEndian(e, Stored(e, x))
  }

  /** The values of one, two and four bytes, least significant byte first. */
  lemma ElementValues(a: Byte, b: Byte, c: Byte, d: Byte)
    ensures var x, y := a as int + 0x100 * b as int, a as int + 0x100 * b as int + 0x1_0000 * c as int + 0x100_0000 * d as int;
            && Read(Uint8, [a]) == Read(Uint8Clamped, [a]) == a && Read(Int8, [a]) == (if a >= 0x80 then a - 0x100 else a)
            && Read(Uint16, [a, b]) == x && Read(Int16, [a, b]) == (if b >= 0x80 then x - 0x1_0000 else x)
            && Read(Uint32, [a, b, c, d]) == y && Read(Int32, [a, b, c, d]) == (if d >= 0x80 then y - 0x1_0000_0000 else y)
  {}

  // ----- What a conversion means -----

  predicate InRange(e: Elem, y: int) {
    if Signed(e) then 0 <= y + Modulus(e) / 2 < Modulus(e) else 0 <= y < Modulus(e)
  }

  /** The value of the type that x becomes: the nearest one if clamped, otherwise the one equal to it modulo 2^bits. */
  predicate Becomes(e: Elem, x: int, y: int) {
    InRange(e, y)
    && if e.Uint8Clamped? then y == (if x < 0 then 0 else if x > 255 then 255 else x) else y % Modulus(e) == x % Modulus(e)
  }

  lemma StoredModulo(e: Elem, x: int)
    requires !e.Uint8Clamped?
    ensures Stored(e, x) == x % Modulus(e)
  {
    if e.Uint8? || e.Int8? {
      ModMod(x, 0x100, 0x100_0000);
    } else if e.Uint16? || e.Int16? {
      ModMod(x, 0x1_0000, 0x1_0000);
    }
  }

  /** Reducing to 32 bits first changes nothing below. */
  lemma ModMod(x: int, m: int, k: int)
    requires (m == 0x100 && k == 0x100_0000) || (m == 0x1_0000 && k == 0x1_0000)
    ensures (x % U32) % m == x % m && Signify(x % U32, U32) % m == x % m
  {
    var q, r := x / U32, x % U32;
    if m == 0x100 {
      Mod8(k * q, r);
      Mod8(-k, r);
    } else {
      Mod16(k * q, r);
      Mod16(-k, r);
    }
  }

  lemma Mod8(k: int, r: int)
    ensures (0x100 * k + r) % 0x100 == r % 0x100
  {}

  lemma Mod16(k: int, r: int)
    ensures (0x1_0000 * k + r) % 0x1_0000 == r % 0x1_0000
  {}

  lemma UnsignedBytes(e: Elem, r: nat)
    requires r < Modulus(e)
    ensures Unsigned(LittleEndian(e, r)) == r
  {
    if Shift(e) == 2 { FourBytes(r); }
  }

  /** Reading back what was written. */
  lemma ReadWrite(e: Elem, x: int)
    ensures Becomes(e, x, Read(e, Write(e, x)))
  {
    UnsignedBytes(e, Stored(e, x));
    if !e.Uint8Clamped? {
      StoredModulo(e, x);
      hide Stored, LittleEndian, Unsigned;
      Wrapped(Stored(e, x), Modulus(e));
    }
  }

  /** A value has one representation, so the meaning determines the bytes. */
  lemma BytesOfRead(e: Elem, b: Octets)
    requires |b| == Size(e)
    ensures LittleEndian(e, Unsigned(b)) == b
  {
    if Shift(e) == 1 {
      var x: nat := Unsigned(b);
      assert x % 0x100 == b[0] && x / 0x100 == b[1];
    } else if Shift(e) == 2 {
      FourDigits(b[0], b[1], b[2], b[3]);
    }
  }

  lemma FourDigits(a: Byte, b: Byte, c: Byte, d: Byte)
    ensures var x := a as int + 0x100 * b as int + 0x1_0000 * c as int + 0x100_0000 * d as int;
            x % 0x100 == a && x / 0x100 % 0x100 == b && x / 0x1_0000 % 0x100 == c && x / 0x100_0000 == d
  {
    var z: int := c as int + 0x100 * d as int;
    var y: int := b as int + 0x100 * z;
    var x: int := a as int + 0x100 * y;
    FourBytes(x);
    Base256(y, a);
    Base256(z, b);
    Base256(d, c);
  }

  // ----- The table of types that can be copied as bytes -----

  function ElemBit(e: Elem): nat {
    match e
    case Uint8 => 0 case Uint8Clamped => 1 case Int8 => 2 case Uint16 => 3 case Int16 => 4 case Uint32 => 5 case Int32 => 6
  }

  /** duk__buffer_elemtype_copy_compatible: the bits of the source types for each target type. */
  function CompMask(dst: Elem): set<nat> {
    match dst
    case Uint8 => {0, 1, 2}
    case Uint8Clamped => {0, 1}
    case Int8 => {0, 1, 2}
    case Uint16 => {3, 4}
    case Int16 => {3, 4}
    case Uint32 => {5, 6}
    case Int32 => {5, 6}
  }

  predicate Compatible(dst: Elem, src: Elem) {
    ElemBit(src) in CompMask(dst)
  }

  predicate Preserves(dst: Elem, src: Elem, b: Octets)
    requires |b| == Size(src)
  {
    Write(dst, Read(src, b)) == b
  }

  lemma CompatiblePreserves(dst: Elem, src: Elem, b: Octets)
    requires Compatible(dst, src) && |b| == Size(src)
    ensures Preserves(dst, src, b)
  {
    var u := Unsigned(b);
    assert Size(dst) == Size(src) && Modulus(dst) == Modulus(src);
    BytesOfRead(dst, b);
    if !dst.Uint8Clamped? {
      StoredModulo(dst, Read(src, b));
      hide Stored, LittleEndian, Unsigned;
      assert Read(src, b) == u || Read(src, b) == u - Modulus(src);
      Wrapped(u, Modulus(src));
    }
  }

  lemma Wrapped(u: nat, m: nat)
    requires (m == 0x100 || m == 0x1_0000 || m == U32) && u < m
    ensures u % m == u && (u - m) % m == u
  {}

  /** The table has exactly the pairs for which reading and writing back preserves every byte. */
  lemma CompatibleIff(dst: Elem, src: Elem)
    ensures Compatible(dst, src) <==> forall b: Octets :: |b| == Size(src) ==> Preserves(dst, src, b)
  {
    hide Write, Read;
    if Compatible(dst, src) {
      forall b: Octets | |b| == Size(src) ensures Preserves(dst, src, b) {
        CompatiblePreserves(dst, src, b);
      }
    } else {
      var b := NotPreserved(dst, src);
      assert !Preserves(dst, src, b);
    }
  }

  lemma NotPreserved(dst: Elem, src: Elem) returns (b: Octets)
    requires !Compatible(dst, src)
    ensures |b| == Size(src) && !Preserves(dst, src, b)
  {
    b := if Size(src) == 1 then [0xff] else if Size(src) == 2 then [0, 0] else [0, 0, 0, 0];
    if Size(dst) == Size(src) {
      assert dst == Uint8Clamped && src == Int8;
      assert Read(src, b) == -1 && Stored(dst, -1) == 0;
    }
  }

  // ----- The conversion of a block -----

  /** The source is read as a whole, and converted element by element. */
  function Converted(b: Octets, src: Elem, dst: Elem): (r: Octets) {
    if |b| < Size(src) then [] else Write(dst, Read(src, b[..Size(src)])) + Converted(b[Size(src)..], src, dst)
  }

  lemma {:induction false} ConvertedLength(b: Octets, src: Elem, dst: Elem)
    ensures |Converted(b, src, dst)| == |b| / Size(src) * Size(dst)
    decreases |b|
  {
    hide Write, Read;
    if |b| >= Size(src) {
      ConvertedLength(b[Size(src)..], src, dst);
      assert (|b| - Size(src)) / Size(src) == |b| / Size(src) - 1;
      Distribute(|b| / Size(src), Size(dst));
    }
  }

  lemma Distribute(n: nat, d: nat)
    ensures n >= 1 ==> d + (n - 1) * d == n * d
  {}

  /** The values of a block. */
  function Elements(b: Octets, e: Elem): (r: seq<int>) {
    if |b| < Size(e) then [] else [Read(e, b[..Size(e)])] + Elements(b[Size(e)..], e)
  }

  /** Each value of the result is what the value of the source at its place becomes. */
  lemma {:induction false} ConvertedElements(b: Octets, src: Elem, dst: Elem)
    ensures var xs, ys := Elements(b, src), Elements(Converted(b, src, dst), dst);
            |xs| == |ys| && forall i :: 0 <= i < |xs| ==> Becomes(dst, xs[i], ys[i])
    decreases |b|
  {
    hide Write, Read, Becomes;
    if |b| >= Size(src) {
      var x := Read(src, b[..Size(src)]);
      AppendSplit(Write(dst, x), Converted(b[Size(src)..], src, dst));
      ReadWrite(dst, x);
      ConvertedElements(b[Size(src)..], src, dst);
    }
  }

  predicate Divides(s: nat, n: nat)
    requires s > 0
  {
    n % s == 0
  }

  lemma SomeLeft(n: nat, s: nat)
    requires (s == 1 || s == 2 || s == 4) && Divides(s, n)
    ensures n == 0 || (n >= s && Divides(s, n - s))
  {}

  /** Between compatible types a conversion is a plain copy. */
  lemma {:induction false} ConvertedCopy(b: Octets, src: Elem, dst: Elem)
    requires Compatible(dst, src) && Divides(Size(src), |b|)
    ensures Converted(b, src, dst) == b
    decreases |b|
  {
    hide Write, Read, Divides, Compatible;
    SomeLeft(|b|, Size(src));
    if |b| >= Size(src) {
      CompatiblePreserves(dst, src, b[..Size(src)]);
      ConvertedCopy(b[Size(src)..], src, dst);
      TakeDrop(b, Size(src));
    }
  }

  // ----- Views -----

  /** A buffer is a region of memory; regions may share bytes. */
  datatype Buffer = Buffer(base: nat, size: nat)

  /** Offset and length count bytes; buf is None for a neutered view. */
  datatype View = View(buf: Option<Buffer>, offset: nat, length: nat, elem: Elem)

  /** Buffers lie in memory and are below 2^31 bytes. */
  predicate Placed(v: View, size: nat) {
    v.offset < U31 && v.length < U31 && (v.buf.Some? ==> v.buf.value.base + v.buf.value.size <= size && v.buf.value.size < U31)
  }

  predicate Covered(v: View) {
    v.buf.Some? && v.offset + v.length <= v.buf.value.size
  }

  function Base(v: View): nat
    requires v.buf.Some?
  {
    v.buf.value.base + v.offset
  }

  datatype Result = Done | TypeError | RangeError

  function Patched(mem: Octets, at: nat, b: Octets): (r: Octets)
    requires at + |b| <= |mem|
    ensures |r| == |mem|
  {
    mem[..at] + b + mem[at + |b|..]
  }

  /** A 32-bit left shift. */
  function Shl(x: Word32, e: Elem): Word32 {
    (x * Size(e)) % U32
  }

  lemma ShlFits(x: Word32, e: Elem)
    ensures Shl(x, e) / Size(e) == x <==> x * Size(e) < U32
  {
    if x * Size(e) >= U32 && Size(e) != 1 {
      assert Shl(x, e) < U32;
      if Size(e) == 2 { assert Shl(x, e) == 2 * x - U32; } else { assert Shl(x, e) / 4 <= 0x3fff_ffff; }
    }
  }

  datatype Plan = Stop(result: Result) | Copy(from: nat, srcLength: nat, to: nat, dstLength: nat)

  /** Where set() copies, in unbounded arithmetic. */
  function Planned(dst: View, src: View, offset: int): (r: Plan) {
    if dst.buf.None? then Stop(Done)
    else if offset < 0 then Stop(TypeError)
    else
      var skip := offset * Size(dst.elem);
      var dstLength := src.length / Size(src.elem) * Size(dst.elem);
      if skip > dst.length then Stop(RangeError)
      else if src.buf.None? then Stop(Done)
      else if dstLength > dst.length - skip then Stop(RangeError)
      else if !Covered(dst) || !Covered(src) then Stop(Done)
      else Copy(Base(src), src.length, Base(dst) + skip, dstLength)
  }

  lemma PlannedFits(dst: View, src: View, offset: int, size: nat)
    requires Placed(dst, size) && Placed(src, size)
    ensures var p := Planned(dst, src, offset); p.Copy? ==> p.from + p.srcLength <= size && p.to + p.dstLength <= size
  {}

  /** Element by element on a copy of the source: what set() must leave in memory, or its error. */
  function SetSpec(mem: Octets, dst: View, src: View, offset: int): (r: (Result, Octets))
    requires Placed(dst, |mem|) && Placed(src, |mem|)
  {
    var p := Planned(dst, src, offset);
    if p.Stop? then (p.result, mem)
    else
      PlannedFits(dst, src, offset, |mem|);
      var block := mem[p.from..p.from + p.srcLength];
      ConvertedLength(block, src.elem, dst.elem);
      (Done, Patched(mem, p.to, Converted(block, src.elem, dst.elem)))
  }

  /** How many bytes n elements take. */
  function Extent(n: nat, e: Elem): (r: nat) {
    match Shift(e) case 0 => n case 1 => 2 * n case _ => 4 * n
  }

  lemma ExtentSize(n: nat, e: Elem)
    ensures Extent(n, e) == n * Size(e)
  {}

  /** Where the elements of a block stand. */
  lemma {:induction false} ElementsAt(b: Octets, e: Elem, i: nat)
    requires Extent(i, e) + Size(e) <= |b|
    ensures i < |Elements(b, e)| && Elements(b, e)[i] == Read(e, b[Extent(i, e)..Extent(i, e) + Size(e)])
    decreases i
  {
    hide Read;
    var n := Size(e);
    if i == 0 {
      assert b[0..n] == b[..n];
    } else {
      ElementsAt(b[n..], e, i - 1);
      DropSlice(b, n, Extent(i - 1, e), Extent(i - 1, e) + n);
    }
  }

  /** Element i of a view. */
  function Element(mem: Octets, v: View, i: nat): (x: int)
    requires v.buf.Some? && Base(v) + Extent(i, v.elem) + Size(v.elem) <= |mem|
  {
    var at := Base(v) + Extent(i, v.elem);
    Read(v.elem, mem[at..at + Size(v.elem)])
  }

  /** Element by element: element i of the source, as it was, becomes element offset + i of the target. */
  lemma SetElements(mem: Octets, dst: View, src: View, offset: nat, i: nat)
    requires Placed(dst, |mem|) && Placed(src, |mem|) && dst.buf.Some? && src.buf.Some? && Covered(dst) && Covered(src)
    requires var n := src.length / Size(src.elem); i < n && Extent(offset + n, dst.elem) <= dst.length
    ensures Base(src) + Extent(i, src.elem) + Size(src.elem) <= |mem|
    ensures Base(dst) + Extent(offset + i, dst.elem) + Size(dst.elem) <= |mem|
    ensures var r := SetSpec(mem, dst, src, offset);
            && r.0 == Done && |r.1| == |mem|
            && Becomes(dst.elem, Element(mem, src, i), Element(r.1, dst, offset + i))
  {
    hide Read, Becomes, Converted, Patched, Planned, SetSpec;
    SetCopies(mem, dst, src, offset);
    var from, to := Base(src), Base(dst) + Extent(offset, dst.elem);
    var block := mem[from..from + src.length];
    ConvertedAt(block, src.elem, dst.elem, i);
    MovedSlices(mem, from, src.length, to, Converted(block, src.elem, dst.elem),
                Extent(i, src.elem), Size(src.elem), Extent(i, dst.elem), Size(dst.elem));
  }

  lemma SetCopies(mem: Octets, dst: View, src: View, offset: nat)
    requires Placed(dst, |mem|) && Placed(src, |mem|) && dst.buf.Some? && src.buf.Some? && Covered(dst) && Covered(src)
    requires Extent(offset + src.length / Size(src.elem), dst.elem) <= dst.length
    ensures var from, to := Base(src), Base(dst) + Extent(offset, dst.elem);
            && from + src.length <= |mem|
            && var conv := Converted(mem[from..from + src.length], src.elem, dst.elem);
               to + |conv| <= |mem| && |conv| == Extent(src.length / Size(src.elem), dst.elem)
               && SetSpec(mem, dst, src, offset) == (Done, Patched(mem, to, conv))
  {
    hide Converted, Patched;
    ExtentSize(offset, dst.elem);
    ExtentSize(src.length / Size(src.elem), dst.elem);
    PlannedFits(dst, src, offset, |mem|);
    ConvertedLength(mem[Base(src)..Base(src) + src.length], src.elem, dst.elem);
  }

  lemma MovedSlices(mem: Octets, from: nat, length: nat, to: nat, conv: Octets, a: nat, s: nat, c: nat, d: nat)
    requires from + length <= |mem| && a + s <= length && to + |conv| <= |mem| && c + d <= |conv|
    ensures mem[from..from + length][a..a + s] == mem[from + a..from + a + s]
    ensures Patched(mem, to, conv)[to + c..to + c + d] == conv[c..c + d]
  {
    SliceSlice(mem, from, from + length, a, a + s);
    PatchedHere(mem, to, conv);
    hide Patched;
    SliceSlice(Patched(mem, to, conv), to, to + |conv|, c, c + d);
  }

  lemma ConvertedAt(b: Octets, src: Elem, dst: Elem, i: nat)
    requires i < |b| / Size(src)
    ensures var c, s, d := Converted(b, src, dst), Extent(i, src), Extent(i, dst);
            && |c| == Extent(|b| / Size(src), dst) && s + Size(src) <= |b| && d + Size(dst) <= |c|
            && Becomes(dst, Read(src, b[s..s + Size(src)]), Read(dst, c[d..d + Size(dst)]))
  {
    hide Read, Becomes, Converted, Elements;
    ConvertedLength(b, src, dst);
    ExtentSize(|b| / Size(src), dst);
    ConvertedElements(b, src, dst);
    ElementsAt(b, src, i);
    ElementsAt(Converted(b, src, dst), dst, i);
  }

  lemma PatchedHere(mem: Octets, at: nat, b: Octets)
    requires at + |b| <= |mem|
    ensures Patched(mem, at, b)[at..at + |b|] == b
    ensures forall k :: 0 <= k < at || at + |b| <= k < |mem| ==> Patched(mem, at, b)[k] == mem[k]
  {}

  predicate Apart(k: nat, lo: nat, hi: nat) {
    k < lo || hi <= k
  }

  /** When set() fails, what it answers, and which bytes it does not touch. */
  lemma SetErrors(mem: Octets, dst: View, src: View, offset: int, k: nat)
    requires Placed(dst, |mem|) && Placed(src, |mem|) && dst.buf.Some?
    ensures var r, n := SetSpec(mem, dst, src, offset), if src.buf.Some? then src.length / Size(src.elem) else 0;
            && (r.0 == TypeError <==> offset < 0)
            && (r.0 == RangeError <==> offset >= 0 && Extent(offset + n, dst.elem) > dst.length)
            && (r.0 != Done ==> r.1 == mem) && |r.1| == |mem|
            && (k < |mem| && offset >= 0 && Apart(k, Base(dst) + Extent(offset, dst.elem), Base(dst) + Extent(offset + n, dst.elem))
                ==> r.1[k] == mem[k])
  {
    hide Converted, Patched;
    if offset >= 0 {
      ExtentSize(offset, dst.elem);
      ExtentSize(src.length / Size(src.elem), dst.elem);
      var p := Planned(dst, src, offset);
      if p.Copy? {
        PlannedFits(dst, src, offset, |mem|);
        var block := mem[p.from..p.from + p.srcLength];
        ConvertedLength(block, src.elem, dst.elem);
        PatchedHere(mem, p.to, Converted(block, src.elem, dst.elem));
      }
    }
  }

  /** The checks of set(), in 32-bit arithmetic; the sums of two numbers below 2^31 do not wrap. */
  method Prepare(dst: View, src: View, offset: int, ghost size: nat) returns (p: Plan)
    requires Placed(dst, size) && Placed(src, size) && offset < U31
    ensures p == Planned(dst, src, offset)
  {
    if dst.buf.None? { return Stop(Done); }
    if offset < 0 { return Stop(TypeError); }
    var offsetBytes := Shl(offset, dst.elem);
    ShlFits(offset, dst.elem);
    if offsetBytes / Size(dst.elem) != offset { return Stop(RangeError); }
    if offsetBytes > dst.length { return Stop(RangeError); }
    if src.buf.None? { return Stop(Done); }
    var dstElems := src.length / Size(src.elem);
    var dstLength := Shl(dstElems, dst.elem);
    ShlFits(dstElems, dst.elem);
    if dstLength / Size(dst.elem) != dstElems { return Stop(RangeError); }
    if dstLength > dst.length - offsetBytes { return Stop(RangeError); }
    if dst.offset + offsetBytes + dstLength > dst.buf.value.size { return Stop(Done); }
    if dst.offset + dst.length > dst.buf.value.size || src.offset + src.length > src.buf.value.size { return Stop(Done); }
    p := Copy(Base(src), src.length, Base(dst) + offsetBytes, dstLength);
  }

  /** duk_bi_typedarray_set for a buffer object; the length of its view is a multiple of the element size. */
  method Set(mem: array<Byte>, dst: View, src: View, offset: int) returns (r: Result)
    requires Placed(dst, mem.Length) && Placed(src, mem.Length) && offset < U31
    requires Divides(Size(src.elem), src.length)
    modifies mem
    ensures (r, mem[..]) == SetSpec(old(mem[..]), dst, src, offset)
  {
    hide Converted, Covered, Patched, Divides;
    var p := Prepare(dst, src, offset, mem.Length);
    if p.Stop? { return p.result; }
    PlannedFits(dst, src, offset, mem.Length);
    PlannedLengths(dst, src, offset);
    hide Planned, Placed;
    ghost var block := mem[p.from..p.from + p.srcLength];
    ConvertedLength(block, src.elem, dst.elem);
    assert mem[..][p.from..p.from + p.srcLength] == block;
    if Compatible(dst.elem, src.elem) {
      ConvertedCopy(block, src.elem, dst.elem);
      Memmove(mem, p.to, p.from, p.dstLength);
    } else if p.from >= p.to + p.dstLength || p.from + p.srcLength <= p.to {
      CopyElements(mem, p.to, mem, p.from, p.srcLength, dst.elem, src.elem);
    } else {
      var copy := Snapshot(mem, p.from, p.srcLength);
      assert copy[0..p.srcLength] == copy[..] == block;
      CopyElements(mem, p.to, copy, 0, p.srcLength, dst.elem, src.elem);
    }
    return Done;
  }

  lemma PlannedLengths(dst: View, src: View, offset: int)
    ensures var p := Planned(dst, src, offset);
            p.Copy? ==> p.srcLength == src.length && p.dstLength == src.length / Size(src.elem) * Size(dst.elem)
  {}

  method Snapshot(mem: array<Byte>, from: nat, n: nat) returns (copy: array<Byte>)
    requires from + n <= mem.Length
    ensures fresh(copy) && copy[..] == mem[from..from + n]
  {
    copy := new Byte[n](_ => 0);
    forall i | 0 <= i < n { copy[i] := mem[from + i]; }
  }

  lemma PatchedIf(m: Octets, m0: Octets, at: nat, b: Octets)
    requires |m| == |m0| && at + |b| <= |m| && m[at..at + |b|] == b
    requires forall k :: 0 <= k < |m| && !(at <= k < at + |b|) ==> m[k] == m0[k]
    ensures m == Patched(m0, at, b)
  {
    assert m[..at] == m0[..at] && m[at + |b|..] == m0[at + |b|..];
    assert m == m[..at] + m[at..at + |b|] + m[at + |b|..];
  }

  /** Forward or backward, so that no byte is overwritten before it is read. */
  method Memmove(mem: array<Byte>, to: nat, from: nat, n: nat)
    requires to + n <= mem.Length && from + n <= mem.Length
    modifies mem
    ensures mem[..] == Patched(old(mem[..]), to, old(mem[from..from + n]))
  {
    hide Patched;
    ghost var block := mem[from..from + n];
    if to <= from {
      MoveForward(mem, to, from, n, block);
    } else {
      MoveBackward(mem, to, from, n, block);
    }
    assert mem[..][to..to + n] == block;
    PatchedIf(mem[..], old(mem[..]), to, block);
  }

  method MoveForward(mem: array<Byte>, to: nat, from: nat, n: nat, ghost block: Octets)
    requires to <= from && from + n <= mem.Length && block == mem[from..from + n]
    modifies mem
    ensures forall k :: 0 <= k < n ==> mem[to + k] == block[k]
    ensures forall k :: 0 <= k < to || to + n <= k < mem.Length ==> mem[k] == old(mem[k])
  {
    var i := 0;
    while i < n
      invariant 0 <= i <= n
      invariant forall k :: 0 <= k < i ==> mem[to + k] == block[k]
      invariant forall k :: 0 <= k < to || to + i <= k < mem.Length ==> mem[k] == old(mem[k])
    {
      mem[to + i] := mem[from + i];
      i := i + 1;
    }
  }

  method MoveBackward(mem: array<Byte>, to: nat, from: nat, n: nat, ghost block: Octets)
    requires from <= to && to + n <= mem.Length && block == mem[from..from + n]
    modifies mem
    ensures forall k :: 0 <= k < n ==> mem[to + k] == block[k]
    ensures forall k :: 0 <= k < to || to + n <= k < mem.Length ==> mem[k] == old(mem[k])
  {
    var i := n;
    while i > 0
      invariant 0 <= i <= n
      invariant forall k :: i <= k < n ==> mem[to + k] == block[k]
      invariant forall k :: 0 <= k < to + i || to + n <= k < mem.Length ==> mem[k] == old(mem[k])
    {
      i := i - 1;
      mem[to + i] := mem[from + i];
    }
  }

  method Store(mem: array<Byte>, at: nat, b: Octets)
    requires at + |b| <= mem.Length
    modifies mem
    ensures forall k :: 0 <= k < mem.Length ==> mem[k] == if at <= k < at + |b| then b[k - at] else old(mem[k])
  {
    var i := 0;
    while i < |b|
      invariant 0 <= i <= |b|
      invariant forall k :: 0 <= k < mem.Length ==> mem[k] == if at <= k < at + i then b[k - at] else old(mem[k])
    {
      mem[at + i] := b[i];
      i := i + 1;
    }
  }

  method ConvertOne(mem: array<Byte>, at: nat, a: array<Byte>, pos: nat, dst: Elem, src: Elem)
    requires at + Size(dst) <= mem.Length && pos + Size(src) <= a.Length
    modifies mem
    ensures mem[..] == Patched(old(mem[..]), at, Write(dst, Read(src, old(a[pos..pos + Size(src)]))))
  {
    hide Read, Write, Patched;
    var w := Write(dst, Read(src, a[pos..pos + Size(src)]));
    Store(mem, at, w);
    assert mem[..][at..at + |w|] == w;
    PatchedIf(mem[..], old(mem[..]), at, w);
  }

  lemma PatchedTwice(m: Octets, at: nat, b: Octets, c: Octets)
    requires at + |b| + |c| <= |m|
    ensures Patched(Patched(m, at, b), at + |b|, c) == Patched(m, at, b + c)
  {
    var p := Patched(m, at, b);
    AppendSplit(m[..at] + b, m[at + |b|..]);
    DropDrop(m, at + |b|, |c|);
    assert p[at + |b| + |c|..] == m[at + |b| + |c|..];
    Assoc(m[..at], b, c);
  }

  lemma PatchedNothing(m: Octets, at: nat)
    requires at <= |m|
    ensures Patched(m, at, []) == m
  {}

  lemma PatchedOutside(m: Octets, at: nat, b: Octets, from: nat, n: nat)
    requires at + |b| <= |m| && from + n <= |m| && (from + n <= at || at + |b| <= from)
    ensures Patched(m, at, b)[from..from + n] == m[from..from + n]
  {
    var p := Patched(m, at, b);
    forall k | from <= k < from + n ensures p[k] == m[k] {}
  }

  lemma ConvertStep(b: Octets, p: nat, src: Elem, dst: Elem)
    requires p + Size(src) <= |b|
    ensures Converted(b[p..], src, dst) == Write(dst, Read(src, b[p..p + Size(src)])) + Converted(b[p + Size(src)..], src, dst)
  {
    hide Read, Write;
    DropSlice(b, p, 0, Size(src));
    assert b[p..][..Size(src)] == b[p..][0..Size(src)];
    DropDrop(b, p, Size(src));
  }

  lemma ConvertEnd(b: Octets, src: Elem, dst: Elem)
    ensures Converted(b[|b|..], src, dst) == []
  {}

  /** From an array that is another one, or from a part of memory that the target does not meet. */
  method CopyElements(mem: array<Byte>, to: nat, a: array<Byte>, from: nat, n: nat, dst: Elem, src: Elem)
    requires from + n <= a.Length && Divides(Size(src), n)
    requires to + |Converted(a[from..from + n], src, dst)| <= mem.Length
    requires a != mem || from + n <= to || to + |Converted(a[from..from + n], src, dst)| <= from
    modifies mem
    ensures mem[..] == Patched(old(mem[..]), to, Converted(old(a[from..from + n]), src, dst))
  {
    hide Converted, Read, Write, Patched, Divides;
    ghost var block := a[from..from + n];
    ghost var result := Converted(block, src, dst);
    ghost var m, done := mem[..], [];
    var p, q := 0, 0;
    PatchedNothing(m, to);
    Identity(result);
    assert block[0..] == block;
    while p != n
      invariant 0 <= p <= n && Divides(Size(src), n - p) && a[from..from + n] == block
      invariant q == |done| <= |result| && done + Converted(block[p..], src, dst) == result
      invariant mem[..] == Patched(m, to, done)
      decreases n - p
    {
      SomeLeft(n - p, Size(src));
      ConvertStep(block, p, src, dst);
      DropTakeBlock(a[..], from, n, p, Size(src));
      ghost var w := Write(dst, Read(src, block[p..p + Size(src)]));
      Assoc(done, w, Converted(block[p + Size(src)..], src, dst));
      PatchedTwice(m, to, done, w);
      ConvertOne(mem, to + q, a, from + p, dst, src);
      done := done + w;
      if a == mem { PatchedOutside(m, to, done, from, n); }
      p := p + Size(src);
      q := q + Size(dst);
    }
    ConvertEnd(block, src, dst);
    Identity(done);
  }

  lemma DropTakeBlock(a: Octets, from: nat, n: nat, p: nat, s: nat)
    requires from + n <= |a| && p + s <= n
    ensures a[from + p..from + p + s] == a[from..from + n][p..p + s]
  {
    SliceSlice(a, from, from + n, p, p + s);
  }
}
