/** The writer and the reader that carry out the dump and load of module Bytecode. */
module BytecodeIo {
  import opened Bytes
  import opened Seqs
  import opened Bytecode

  // ----- The growing buffer -----

  class BufWriter {
    var buf: array<Byte>
    var p: nat

    constructor (size: nat)
      ensures Valid() && Contents() == [] && fresh(buf) && buf.Length == size
    {
      buf := new Byte[size](_ => 0);
      p := 0;
    }

    ghost predicate Valid()
      reads this
    {
      p <= buf.Length
    }

    ghost function Contents(): Octets
      requires Valid()
      reads this, buf
    {
      buf[..p]
    }

    /** DUK_BW_ENSURE_RAW and duk_bw_resize: room for sz more bytes, with some to spare. */
    method Ensure(sz: nat)
      requires Valid()
      modifies `buf
      ensures Valid() && p + sz <= buf.Length && Contents() == old(Contents()) && (buf == old(buf) || fresh(buf))
    {
      if buf.Length - p >= sz { return; }
      var bigger := new Byte[p + sz + p / 16 + 64](_ => 0);
      forall i | 0 <= i < p { bigger[i] := buf[i]; }
      buf := bigger;
    }

    // The raw writes below do not look for room.

    method WriteByte(b: Byte)
      requires p < buf.Length
      modifies `p, buf
      ensures Valid() && p == old(p) + 1 && Contents() == old(buf[..p]) + [b]
    {
      buf[p] := b;
      p := p + 1;
    }

    method WriteBytes(bs: Octets)
      requires p + |bs| <= buf.Length
      modifies `p, buf
      ensures Valid() && p == old(p) + |bs| && Contents() == old(buf[..p]) + bs
    {
      var start := p;
      ghost var head := buf[..p];
      var i := 0;
      while i < |bs|
        invariant i <= |bs| && p == start + i && start + |bs| <= buf.Length && buf[..p] == head + bs[..i]
      {
        buf[p] := bs[i];
        p := p + 1;
        i := i + 1;
      }
      assert bs[..i] == bs;
    }

    method WriteU32(x: Word32)
      requires p + 4 <= buf.Length
      modifies `p, buf
      ensures Valid() && p == old(p) + 4 && Contents() == old(buf[..p]) + BE32(x)
    {
      WriteByte(x / 0x100_0000);
      WriteByte(x / 0x1_0000 % 0x100);
      WriteByte(x / 0x100 % 0x100);
      WriteByte(x % 0x100);
    }

    method WriteU16(x: Word16)
      requires p + 2 <= buf.Length
      modifies `p, buf
      ensures Valid() && p == old(p) + 2 && Contents() == old(buf[..p]) + BE16(x)
    {
      WriteByte(x / 0x100);
      WriteByte(x % 0x100);
    }

    /** Without room for the bytes and their length this write would run past the end. */
    method WriteStr(s: Octets)
      requires |s| < U31 && p + 4 + |s| <= buf.Length
      modifies `p, buf
      ensures Valid() && p == old(p) + 4 + |s| && Contents() == old(buf[..p]) + Str(s)
    {
      hide BE32;
      Assoc(buf[..p], BE32(|s|), s);
      WriteU32(|s|);
      WriteBytes(s);
    }

    // ----- Dumping -----

    method DumpStrProp(s: Option<Octets>)
      requires Valid() && SizedName(s)
      modifies this, buf
      ensures Valid() && Contents() == old(Contents()) + Str(Value(s, [])) && (buf == old(buf) || fresh(buf))
    {
      var t := if s.Some? then s.value else [];
      Ensure(4 + |t|);
      WriteStr(t);
    }

    method DumpBufferProp(s: Option<Octets>)
      requires Valid() && SizedName(s)
      modifies this, buf
      ensures Valid() && Contents() == old(Contents()) + Str(Value(s, [])) && (buf == old(buf) || fresh(buf))
    {
      hide BE32;
      if s.Some? {
        Ensure(4 + |s.value|);
        WriteStr(s.value);
      } else {
        Ensure(4);
        WriteU32(0);
        Identity(BE32(0));
      }
    }

    method DumpU32Prop(x: Option<Word32>, default: Word32)
      requires Valid()
      modifies this, buf
      ensures Valid() && Contents() == old(Contents()) + BE32(Value(x, default)) && (buf == old(buf) || fresh(buf))
    {
      Ensure(4);
      WriteU32(if x.Some? then x.value else default);
    }

    method DumpVarmap(varmap: Option<seq<Var>>)
      requires Valid() && (varmap.Some? ==> forall i :: 0 <= i < |varmap.value| ==> |varmap.value[i].name| < U31)
      modifies this, buf
      ensures Valid() && Contents() == old(Contents()) + DumpVars(Value(varmap, [])) && (buf == old(buf) || fresh(buf))
    {
      hide DumpVars, BE32, Str;
      NoMoreVars();
      if varmap.Some? {
        var vs := varmap.value;
        ghost var all := old(Contents()) + DumpVars(vs);
        assert vs[0..] == vs;
        var i := 0;
        while i < |vs|
          invariant i <= |vs| && Valid() && (buf == old(buf) || fresh(buf))
          invariant Contents() + DumpVars(vs[i..]) == all
        {
          VarStep(Contents(), vs, i);
          Ensure(4 + |vs[i].name| + 4);
          WriteStr(vs[i].name);
          WriteU32(vs[i].reg);
          i := i + 1;
        }
        assert vs[i..] == [];
      }
      Ensure(4);
      WriteU32(0);
    }

    method DumpFormals(formals: Option<seq<Option<Octets>>>)
      requires Valid() && (formals.Some? ==> forall i :: 0 <= i < |formals.value| ==> SizedName(formals.value[i]))
      modifies this, buf
      ensures Valid() && Contents() == old(Contents()) + DumpNames(Value(formals, [])) && (buf == old(buf) || fresh(buf))
    {
      hide DumpNames, BE32, Str;
      NoMoreNames();
      if formals.Some? {
        var ns := formals.value;
        ghost var all := old(Contents()) + DumpNames(ns);
        assert ns[0..] == ns;
        var i := 0;
        while i < |ns|
          invariant i <= |ns| && Valid() && (buf == old(buf) || fresh(buf))
          invariant Contents() + DumpNames(ns[i..]) == all
        {
          assert SizedName(ns[i]);
          NameStep(Contents(), ns, i);
          if ns[i].Some? {
            Ensure(4 + |ns[i].value|);
            WriteStr(ns[i].value);
          }
          i := i + 1;
        }
        assert ns[i..] == [];
      }
      Ensure(4);
      WriteU32(0);
    }

    method DumpProps(f: Func)
      requires Valid() && SizedProps(f)
      modifies this, buf
      ensures Valid() && Contents() == old(Contents()) + Props(f) && (buf == old(buf) || fresh(buf))
    {
      hide DumpNames, DumpVars, BE32, Str;
      SixParts(Contents(), BE32(Value(f.length, f.nargs)), Str(Value(f.name, [])), Str(Value(f.fileName, [])),
        Str(Value(f.pc2line, [])), DumpVars(Value(f.varmap, [])), DumpNames(Value(f.formals, [])));
      DumpU32Prop(f.length, f.nargs);
      DumpStrProp(f.name);
      DumpStrProp(f.fileName);
      DumpBufferProp(f.pc2line);
      DumpVarmap(f.varmap);
      DumpFormals(f.formals);
    }

    /** The fixed part and the instructions share one room check. */
    method DumpHead(f: Func)
      requires Valid() && SizedCounts(f)
      modifies this, buf
      ensures Valid() && Contents() == old(Contents()) + (Head(f) + DumpCode(f.code)) && (buf == old(buf) || fresh(buf))
    {
      hide Head, DumpCode;
      Assoc(Contents(), Head(f), DumpCode(f.code));
      Ensure(3 * 4 + 2 * 2 + 3 * 4 + |f.code| * 4);
      WriteHead(f);
      WriteCode(f.code);
    }

    method WriteHead(f: Func)
      requires SizedCounts(f) && p + 28 <= buf.Length
      modifies `p, buf
      ensures Valid() && p == old(p) + 28 && Contents() == old(buf[..p]) + Head(f)
    {
      hide BE32, BE16;
      HeadParts(buf[..p], f);
      WriteCounts(|f.code|, |f.consts|, |f.funcs|);
      WriteU16(f.nregs);
      WriteU16(f.nargs);
      WriteLines(f.header - f.header % 4);
    }

    method WriteCounts(nCode: Word32, nConsts: Word32, nFuncs: Word32)
      requires p + 12 <= buf.Length
      modifies `p, buf
      ensures Valid() && p == old(p) + 12 && Contents() == old(buf[..p]) + (BE32(nCode) + BE32(nConsts) + BE32(nFuncs))
    {
      hide BE32;
      Assoc3(buf[..p], BE32(nCode), BE32(nConsts), BE32(nFuncs));
      WriteU32(nCode);
      WriteU32(nConsts);
      WriteU32(nFuncs);
    }

    /** No line numbers, then the flags. */
    method WriteLines(flags: Word32)
      requires p + 12 <= buf.Length
      modifies `p, buf
      ensures Valid() && p == old(p) + 12 && Contents() == old(buf[..p]) + (BE32(0) + BE32(0) + BE32(flags))
    {
      hide BE32;
      Assoc3(buf[..p], BE32(0), BE32(0), BE32(flags));
      WriteU32(0);
      WriteU32(0);
      WriteU32(flags);
    }

    method WriteCode(code: seq<Word32>)
      requires p + 4 * |code| <= buf.Length
      modifies `p, buf
      ensures Valid() && p == old(p) + 4 * |code| && Contents() == old(buf[..p]) + DumpCode(code)
    {
      hide BE32, DumpCode;
      ghost var all := buf[..p] + DumpCode(code);
      assert code[0..] == code;
      var i := 0;
      while i < |code|
        invariant i <= |code| && p == old(p) + 4 * i && Valid()
        invariant Contents() + DumpCode(code[i..]) == all
      {
        CodeStep(Contents(), code, i);
        WriteU32(code[i]);
        i := i + 1;
      }
      CodeDone(Contents(), code);
    }

    method DumpConstants(cs: seq<Const>)
      requires Valid() && forall i :: 0 <= i < |cs| ==> SizedConst(cs[i])
      modifies this, buf
      ensures Valid() && Contents() == old(Contents()) + DumpConsts(cs) && (buf == old(buf) || fresh(buf))
    {
      hide DumpConsts, DumpConst;
      ghost var all := old(Contents()) + DumpConsts(cs);
      assert cs[0..] == cs;
      var i := 0;
      while i < |cs|
        invariant i <= |cs| && Valid() && (buf == old(buf) || fresh(buf))
        invariant Contents() + DumpConsts(cs[i..]) == all
      {
        ConstStep(Contents(), cs, i);
        DumpOneConst(cs[i]);
        i := i + 1;
      }
      ConstsDone(Contents(), cs);
    }

    method DumpOneConst(c: Const)
      requires Valid() && SizedConst(c)
      modifies this, buf
      ensures Valid() && Contents() == old(Contents()) + DumpConst(c) && (buf == old(buf) || fresh(buf))
    {
      hide Str;
      match c
      case StrConst(s) =>
        Ensure(1 + 4 + |s|);
        WriteByte(0);
        WriteStr(s);
        Assoc(old(Contents()), [0], Str(s));
      case NumConst(d) =>
        Ensure(1 + 8);
        WriteByte(1);
        WriteBytes(d);
        Assoc(old(Contents()), [1], d);
    }

    method DumpFunc(f: Func)
      requires Valid() && Sized(f)
      modifies this, buf
      ensures Valid() && Contents() == old(Contents()) + Dump(f) && (buf == old(buf) || fresh(buf))
      decreases f
    {
      hide Head, Props, DumpCode, DumpConsts, DumpFuncs, SizedProps, SizedCounts, SizedConst;
      FiveParts(Contents(), Head(f), DumpCode(f.code), DumpConsts(f.consts), DumpFuncs(f.funcs), Props(f));
      DumpHead(f);
      DumpConstants(f.consts);
      ghost var all := Contents() + DumpFuncs(f.funcs);
      assert f.funcs[0..] == f.funcs;
      var i := 0;
      while i < |f.funcs|
        invariant i <= |f.funcs| && Valid() && (buf == old(buf) || fresh(buf))
        invariant Contents() + DumpFuncs(f.funcs[i..]) == all
      {
        FuncStep(Contents(), f.funcs, i);
        DumpFunc(f.funcs[i]);
        i := i + 1;
      }
      FuncsDone(Contents(), f.funcs);
      DumpProps(f);
    }
  }

  method DumpFunction(f: Func) returns (s: Octets)
    requires Sized(f)
    ensures s == DumpFile(f)
  {
    hide Dump, Sized;
    var w := new BufWriter(256);
    w.WriteByte(MARKER);
    w.WriteByte(VERSION);
    w.DumpFunc(f);
    s := w.buf[..w.p];
  }

  // ----- One step of each dumping loop -----

  lemma NoMoreVars()
    ensures DumpVars([]) == BE32(0)
  {}

  lemma NoMoreNames()
    ensures DumpNames([]) == BE32(0)
  {}

  lemma VarStep(t: Octets, vs: seq<Var>, i: nat)
    requires i < |vs| && forall i :: 0 <= i < |vs| ==> |vs[i].name| < U31
    ensures t + DumpVars(vs[i..]) == t + Str(vs[i].name) + BE32(vs[i].reg) + DumpVars(vs[i + 1..])
  {
    hide BE32, Str;
    DropDrop(vs, i, 1);
    Assoc3(t, Str(vs[i].name), BE32(vs[i].reg), DumpVars(vs[i + 1..]));
  }

  lemma NameStep(t: Octets, ns: seq<Option<Octets>>, i: nat)
    requires i < |ns| && (forall i :: 0 <= i < |ns| ==> SizedName(ns[i])) && SizedName(ns[i])
    ensures t + DumpNames(ns[i..]) == (if ns[i].Some? then t + Str(ns[i].value) else t) + DumpNames(ns[i + 1..])
  {
    hide BE32, Str;
    DropDrop(ns, i, 1);
    if ns[i].Some? {
      Assoc(t, Str(ns[i].value), DumpNames(ns[i + 1..]));
    } else {
      Identity(DumpNames(ns[i + 1..]));
    }
  }

  lemma CodeStep(t: Octets, code: seq<Word32>, i: nat)
    requires i < |code|
    ensures t + DumpCode(code[i..]) == t + BE32(code[i]) + DumpCode(code[i + 1..])
  {
    hide BE32;
    DropDrop(code, i, 1);
    Assoc(t, BE32(code[i]), DumpCode(code[i + 1..]));
  }

  lemma CodeDone(t: Octets, code: seq<Word32>)
    ensures t + DumpCode(code[|code|..]) == t
  {}

  lemma ConstStep(t: Octets, cs: seq<Const>, i: nat)
    requires i < |cs| && forall i :: 0 <= i < |cs| ==> SizedConst(cs[i])
    ensures t + DumpConsts(cs[i..]) == t + DumpConst(cs[i]) + DumpConsts(cs[i + 1..])
  {
    hide DumpConst;
    DropDrop(cs, i, 1);
    Assoc(t, DumpConst(cs[i]), DumpConsts(cs[i + 1..]));
  }

  lemma ConstsDone(t: Octets, cs: seq<Const>)
    ensures t + DumpConsts(cs[|cs|..]) == t
  {}

  lemma FuncStep(t: Octets, fs: seq<Func>, i: nat)
    requires i < |fs| && forall i :: 0 <= i < |fs| ==> Sized(fs[i])
    ensures t + DumpFuncs(fs[i..]) == t + Dump(fs[i]) + DumpFuncs(fs[i + 1..])
  {
    hide Dump, Sized;
    DropDrop(fs, i, 1);
    Assoc(t, Dump(fs[i]), DumpFuncs(fs[i + 1..]));
  }

  lemma FuncsDone(t: Octets, fs: seq<Func>)
    ensures t + DumpFuncs(fs[|fs|..]) == t
  {}

  lemma Assoc3(t: Octets, a: Octets, b: Octets, c: Octets)
    ensures t + (a + b + c) == t + a + b + c
  {}

  lemma FiveParts(t: Octets, a: Octets, b: Octets, c: Octets, d: Octets, e: Octets)
    ensures t + (a + b + c + d + e) == t + (a + b) + c + d + e
  {}

  lemma SixParts(t: Octets, a: Octets, b: Octets, c: Octets, d: Octets, e: Octets, f: Octets)
    ensures t + (a + b + c + d + e + f) == t + a + b + c + d + e + f
  {
    FiveParts(t, a + b, c, d, e, f);
  }

  lemma HeadParts(t: Octets, f: Func)
    requires SizedCounts(f)
    ensures t + (BE32(|f.code|) + BE32(|f.consts|) + BE32(|f.funcs|)) + BE16(f.nregs) + BE16(f.nargs)
            + (BE32(0) + BE32(0) + BE32(f.header - f.header % 4)) == t + Head(f)
  {
    hide BE32, BE16;
    var a, b := BE32(|f.code|) + BE32(|f.consts|) + BE32(|f.funcs|), BE32(f.header - f.header % 4);
    SixParts(t, a, BE16(f.nregs), BE16(f.nargs), BE32(0), BE32(0), b);
    Assoc3(t + a + BE16(f.nregs) + BE16(f.nargs), BE32(0), BE32(0), b);
  }

  // ----- Loading -----

  function Appended<T>(done: seq<T>, r: Outcome<seq<T>>): Outcome<seq<T>> {
    if r.Loaded? then Loaded(done + r.value, r.next) else r
  }

  lemma Started<T>(r: Outcome<seq<T>>)
    ensures Appended([], r) == r
  {
    if r.Loaded? { Identity(r.value); }
  }

  lemma Advanced<T>(done: seq<T>, x: T, r: Outcome<seq<T>>)
    ensures Appended(done, Prepended(x, r)) == Appended(done + [x], r)
  {
    if r.Loaded? { Assoc(done, [x], r.value); }
  }

  lemma Finished<T>(done: seq<T>, p: nat)
    ensures Appended(done, Loaded([], p)) == Loaded(done, p)
  {
    Identity(done);
  }

  /** The reads of the loader are unchecked: the caller vouches for the input. */
  method ReadStr(s: Octets, p: nat) returns (x: Octets, next: nat)
    requires LoadStr(s, p).Loaded?
    ensures LoadStr(s, p) == Loaded(x, next)
  {
    var len := Read32(s, p);
    x := s[p + 4..p + 4 + len];
    next := p + 4 + len;
  }

  method ReadCode(s: Octets, p: nat, n: nat) returns (code: seq<Word32>)
    requires p + 4 * n <= |s|
    ensures code == LoadCode(s, p, n)
  {
    hide Read32, LoadCode;
    code := [];
    var q := p;
    var k: nat := n;
    Identity(LoadCode(s, p, n));
    while k > 0
      invariant q + 4 * k == p + 4 * n && code + LoadCode(s, q, k) == LoadCode(s, p, n)
    {
      CodeFirst(s, q, k);
      Assoc(code, [Read32(s, q)], LoadCode(s, q + 4, k - 1));
      code := code + [Read32(s, q)];
      q := q + 4;
      k := k - 1;
    }
    CodeEnd(s, q, code);
  }

  lemma CodeFirst(s: Octets, p: nat, n: nat)
    requires n > 0 && p + 4 * n <= |s|
    ensures LoadCode(s, p, n) == [Read32(s, p)] + LoadCode(s, p + 4, n - 1)
  {}

  lemma CodeEnd(s: Octets, p: nat, code: seq<Word32>)
    requires p <= |s|
    ensures code + LoadCode(s, p, 0) == code
  {}

  method ReadConst(s: Octets, p: nat) returns (r: Outcome<Const>)
    requires !LoadConst(s, p).OutOfBounds?
    ensures r == LoadConst(s, p)
  {
    if s[p] == 0 {
      var x, next := ReadStr(s, p + 1);
      r := Loaded(StrConst(x), next);
    } else if s[p] == 1 {
      r := Loaded(NumConst(s[p + 1..p + 9]), p + 9);
    } else {
      r := FormatError;
    }
  }

  method ReadConsts(s: Octets, p: nat, n: nat) returns (r: Outcome<seq<Const>>)
    requires !LoadConsts(s, p, n).OutOfBounds?
    ensures r == LoadConsts(s, p, n)
  {
    hide LoadConst, Prepended, Appended;
    var q, done := p, [];
    var k: nat := n;
    Started(LoadConsts(s, p, n));
    while k > 0
      invariant k <= n && Appended(done, LoadConsts(s, q, k)) == LoadConsts(s, p, n)
    {
      StillFine(done, LoadConsts(s, q, k));
      ConstFirst(s, q, k);
      var c := ReadConst(s, q);
      if !c.Loaded? { return FormatError; }
      Advanced(done, c.value, LoadConsts(s, c.next, k - 1));
      done := done + [c.value];
      q := c.next;
      k := k - 1;
    }
    Finished(done, q);
    r := Loaded(done, q);
  }

  lemma StillFine<T>(done: seq<T>, r: Outcome<seq<T>>)
    ensures Appended(done, r).OutOfBounds? <==> r.OutOfBounds?
    ensures r.FormatError? ==> Appended(done, r) == r
  {}

  lemma ConstFirst(s: Octets, p: nat, n: nat)
    requires n > 0
    ensures LoadConst(s, p).OutOfBounds? ==> LoadConsts(s, p, n).OutOfBounds?
    ensures LoadConst(s, p).FormatError? ==> LoadConsts(s, p, n).FormatError?
  {}

  method ReadVars(s: Octets, p: nat) returns (m: seq<Var>, next: nat)
    requires LoadVars(s, p, []).Loaded?
    ensures LoadVars(s, p, []) == Loaded(m, next)
  {
    hide LoadStr, Put;
    m := [];
    var q := p;
    while true
      invariant LoadVars(s, q, m) == LoadVars(s, p, [])
      decreases |s| - q
    {
      var name, at := ReadStr(s, q);
      if |name| == 0 { return m, at; }
      m := Put(m, name, Read32(s, at));
      q := at + 4;
    }
  }

  method ReadNames(s: Octets, p: nat) returns (ns: seq<Option<Octets>>, next: nat)
    requires LoadNames(s, p).Loaded?
    ensures LoadNames(s, p) == Loaded(ns, next)
  {
    hide LoadStr, Appended;
    ns := [];
    var q := p;
    Started(LoadNames(s, p));
    while true
      invariant Appended(ns, LoadNames(s, q)) == LoadNames(s, p)
      decreases |s| - q
    {
      StillFine(ns, LoadNames(s, q));
      var name, at := ReadStr(s, q);
      if |name| == 0 {
        Finished(ns, at);
        return ns, at;
      }
      Advanced(ns, Some(name), LoadNames(s, at));
      ns := ns + [Some(name)];
      q := at;
    }
  }

  method ReadProps(s: Octets, p: nat) returns (e: Extra, next: nat)
    requires LoadProps(s, p).Loaded?
    ensures LoadProps(s, p) == Loaded(e, next)
  {
    hide LoadStr, LoadVars, LoadNames, Read32;
    var length := Read32(s, p);
    var q := p + 4;
    var name, fileName, pc2line, varmap, formals;
    name, q := ReadStr(s, q);
    fileName, q := ReadStr(s, q);
    pc2line, q := ReadStr(s, q);
    varmap, q := ReadVars(s, q);
    formals, q := ReadNames(s, q);
    return Extra(length, name, fileName, pc2line, varmap, formals), q;
  }

  method ReadFunc(s: Octets, p: nat) returns (r: Outcome<Func>)
    requires !LoadFunc(s, p).OutOfBounds?
    ensures r == LoadFunc(s, p)
    decreases |s| - p, 0
  {
    hide LoadConsts, LoadFuncs, LoadProps, LoadCode, Read32, Read16, SetFlags;
    var nCode: int, nConsts, nFuncs := Read32(s, p), Read32(s, p + 4), Read32(s, p + 8);
    var code := ReadCode(s, p + 28, nCode);
    var consts := ReadConsts(s, p + 28 + 4 * nCode, nConsts);
    if !consts.Loaded? { return FormatError; }
    var funcs := ReadFuncs(s, consts.next, nFuncs);
    if !funcs.Loaded? { return FormatError; }
    var e, next := ReadProps(s, funcs.next);
    r := Loaded(Assemble(s, p, code, consts.value, funcs.value, e), next);
  }

  method ReadFuncs(s: Octets, p: nat, n: nat) returns (r: Outcome<seq<Func>>)
    requires !LoadFuncs(s, p, n).OutOfBounds? && p <= |s|
    ensures r == LoadFuncs(s, p, n)
    decreases |s| - p, 1
  {
    hide LoadFunc, Prepended, Appended;
    var q, done := p, [];
    var k: nat := n;
    Started(LoadFuncs(s, p, n));
    while k > 0
      invariant k <= n && p <= q <= |s| && Appended(done, LoadFuncs(s, q, k)) == LoadFuncs(s, p, n)
    {
      StillFine(done, LoadFuncs(s, q, k));
      FuncFirst(s, q, k);
      var f := ReadFunc(s, q);
      if !f.Loaded? { return FormatError; }
      Advanced(done, f.value, LoadFuncs(s, f.next, k - 1));
      done := done + [f.value];
      q := f.next;
      k := k - 1;
    }
    Finished(done, q);
    r := Loaded(done, q);
  }

  lemma FuncFirst(s: Octets, p: nat, n: nat)
    requires n > 0
    ensures LoadFunc(s, p).OutOfBounds? ==> LoadFuncs(s, p, n).OutOfBounds?
    ensures LoadFunc(s, p).FormatError? ==> LoadFuncs(s, p, n).FormatError?
  {
    hide LoadFunc;
  }

  method LoadFunction(s: Octets) returns (r: Outcome<Func>)
    requires !LoadFile(s).OutOfBounds?
    ensures r == LoadFile(s)
  {
    hide LoadFunc;
    if |s| < 2 || s[0] != MARKER || s[1] != VERSION { return FormatError; }
    r := ReadFunc(s, 2);
  }

  /** The two methods one after the other. */
  method DumpThenLoad(f: Func, suffix: Octets) returns (g: Func)
    requires Sized(f) && Headed(f) && Named(f)
    ensures g == Normal(f)
  {
    hide Dump, Sized, Headed, Named, Normal, LoadFile;
    var s := DumpFunction(f);
    LoadDump(f, suffix);
    var r := LoadFunction(s + suffix);
    g := r.value;
  }
}
