/** The bytes of a function dump, told by position, and what a function keeps when it is dumped and loaded. */
module BytecodeFormat {
  import opened Bytes
  import opened Seqs
  import opened Bytecode

  // ----- Big-endian fields -----

  predicate U16At(s: Octets, p: nat, x: int) {
    p + 2 <= |s| && s[p] as int * 0x100 + s[p + 1] as int == x
  }

  predicate U32At(s: Octets, p: nat, x: int) {
    p + 4 <= |s| && s[p] as int * 0x100_0000 + s[p + 1] as int * 0x1_0000 + s[p + 2] as int * 0x100 + s[p + 3] as int == x
  }

  /** A length and as many bytes. */
  predicate StringAt(s: Octets, p: nat, x: Octets) {
    U32At(s, p, |x|) && At(s, p + 4, x)
  }

  // ----- The format -----

  predicate CodeLayout(s: Octets, p: nat, code: seq<Word32>) {
    forall i :: 0 <= i < |code| ==> U32At(s, p + 4 * i, code[i])
  }

  /** A tag byte, and a string or the eight bytes of a double. */
  predicate ConstLayout(s: Octets, p: nat, c: Const) {
    p < |s|
    && match c
       case StrConst(x) => s[p] == 0x00 && StringAt(s, p + 1, x)
       case NumConst(d) => s[p] == 0x01 && At(s, p + 1, d)
  }

  predicate ConstsLayout(s: Octets, p: nat, cs: seq<Const>, end: nat)
    decreases |cs|
  {
    if cs == [] then p == end
    else
      var size := match cs[0] case StrConst(x) => 1 + 4 + |x| case NumConst(_) => 1 + 8;
      ConstLayout(s, p, cs[0]) && ConstsLayout(s, p + size, cs[1..], end)
  }

  /** Pairs of name and register, up to an empty name. */
  predicate VarsLayout(s: Octets, p: nat, vs: seq<Var>, end: nat)
    decreases |vs|
  {
    if vs == [] then U32At(s, p, 0) && end == p + 4
    else
      var q := p + 4 + |vs[0].name|;
      StringAt(s, p, vs[0].name) && U32At(s, q, vs[0].reg) && VarsLayout(s, q + 4, vs[1..], end)
  }

  /** Names of the used slots, up to an empty name. */
  predicate NamesLayout(s: Octets, p: nat, ns: seq<Option<Octets>>, end: nat)
    decreases |ns|
  {
    if ns == [] then U32At(s, p, 0) && end == p + 4
    else if ns[0].None? then NamesLayout(s, p, ns[1..], end)
    else StringAt(s, p, ns[0].value) && NamesLayout(s, p + 4 + |ns[0].value|, ns[1..], end)
  }

  predicate HeadLayout(s: Octets, p: nat, f: Func) {
    && U32At(s, p, |f.code|) && U32At(s, p + 4, |f.consts|) && U32At(s, p + 8, |f.funcs|)
    && U16At(s, p + 12, f.nregs) && U16At(s, p + 14, f.nargs) && U32At(s, p + 16, 0) && U32At(s, p + 20, 0)
    && U32At(s, p + 24, f.header / 4 * 4)
  }

  function OrEmpty(o: Option<Octets>): (r: Octets) {
    match o case Some(x) => x case None => []
  }

  /** length, name, fileName and pc2line, then variables up to v and formals up to end. */
  predicate PropsLayout(s: Octets, p: nat, f: Func, v: nat, end: nat) {
    var name, file, pc := OrEmpty(f.name), OrEmpty(f.fileName), OrEmpty(f.pc2line);
    && U32At(s, p, match f.length case Some(n) => n case None => f.nargs)
    && StringAt(s, p + 4, name) && StringAt(s, p + 8 + |name|, file) && StringAt(s, p + 12 + |name| + |file|, pc)
    && VarsLayout(s, p + 16 + |name| + |file| + |pc|, if f.varmap.Some? then f.varmap.value else [], v)
    && NamesLayout(s, v, if f.formals.Some? then f.formals.value else [], end)
  }

  /** Header, instructions, constants, inner functions and properties. */
  ghost predicate Layout(s: Octets, p: nat, f: Func, end: nat)
    decreases f, 0
  {
    HeadLayout(s, p, f) && CodeLayout(s, p + 28, f.code)
    && exists q, r, v ::
         ConstsLayout(s, p + 28 + 4 * |f.code|, f.consts, q) && FuncsLayout(s, q, f.funcs, r) && PropsLayout(s, r, f, v, end)
  }

  ghost predicate FuncsLayout(s: Octets, p: nat, fs: seq<Func>, end: nat)
    decreases fs, 1
  {
    if fs == [] then p == end else exists q :: Layout(s, p, fs[0], q) && FuncsLayout(s, q, fs[1..], end)
  }

  // ----- A dump has the format -----

  lemma U32Here(s: Octets, p: nat, x: Word32)
    requires At(s, p, BE32(x))
    ensures U32At(s, p, x)
  {
    Read32At(s, p, x);
  }

  lemma StringHere(s: Octets, p: nat, x: Octets)
    requires |x| < U31 && At(s, p, Str(x))
    ensures StringAt(s, p, x)
  {
    AtAppend(s, p, BE32(|x|), x);
    U32Here(s, p, |x|);
  }

  lemma {:induction false} CodeHere(s: Octets, p: nat, code: seq<Word32>)
    requires At(s, p, DumpCode(code))
    ensures CodeLayout(s, p, code)
    decreases |code|
  {
    hide U32At, BE32, At;
    if code != [] {
      AtAppend(s, p, BE32(code[0]), DumpCode(code[1..]));
      U32Here(s, p, code[0]);
      CodeHere(s, p + 4, code[1..]);
      forall i | 0 <= i < |code| ensures U32At(s, p + 4 * i, code[i]) {
        if i > 0 { assert U32At(s, p + 4 + 4 * (i - 1), code[1..][i - 1]); }
      }
    }
  }

  lemma ConstHere(s: Octets, p: nat, c: Const)
    requires SizedConst(c) && At(s, p, DumpConst(c))
    ensures ConstLayout(s, p, c)
  {
    hide At, Str, StringAt;
    match c
    case StrConst(x) =>
      AtAppend(s, p, [0], Str(x));
      AtOne(s, p, 0);
      StringHere(s, p + 1, x);
    case NumConst(d) =>
      AtAppend(s, p, [1], d);
      AtOne(s, p, 1);
  }

  lemma {:induction false} ConstsHere(s: Octets, p: nat, cs: seq<Const>)
    requires (forall i :: 0 <= i < |cs| ==> SizedConst(cs[i])) && At(s, p, DumpConsts(cs))
    ensures ConstsLayout(s, p, cs, p + |DumpConsts(cs)|)
    decreases |cs|
  {
    hide At, Str, ConstLayout;
    if cs != [] {
      AtAppend(s, p, DumpConst(cs[0]), DumpConsts(cs[1..]));
      ConstHere(s, p, cs[0]);
      ConstsHere(s, p + |DumpConst(cs[0])|, cs[1..]);
    }
  }

  lemma {:induction false} VarsHere(s: Octets, p: nat, vs: seq<Var>)
    requires (forall i :: 0 <= i < |vs| ==> |vs[i].name| < U31) && At(s, p, DumpVars(vs))
    ensures VarsLayout(s, p, vs, p + |DumpVars(vs)|)
    decreases |vs|
  {
    hide At, Str, BE32, U32At, StringAt;
    if vs == [] {
      U32Here(s, p, 0);
    } else {
      var v := vs[0];
      AtAppend(s, p, Str(v.name) + BE32(v.reg), DumpVars(vs[1..]));
      AtAppend(s, p, Str(v.name), BE32(v.reg));
      StringHere(s, p, v.name);
      U32Here(s, p + |Str(v.name)|, v.reg);
      VarsHere(s, p + |Str(v.name)| + 4, vs[1..]);
    }
  }

  lemma {:induction false} NamesHere(s: Octets, p: nat, ns: seq<Option<Octets>>)
    requires (forall i :: 0 <= i < |ns| ==> SizedName(ns[i])) && At(s, p, DumpNames(ns))
    ensures NamesLayout(s, p, ns, p + |DumpNames(ns)|)
    decreases |ns|
  {
    hide At, Str, BE32, U32At, StringAt;
    if ns == [] {
      U32Here(s, p, 0);
    } else {
      assert SizedName(ns[0]);
      var first := if ns[0].Some? then Str(ns[0].value) else [];
      AtAppend(s, p, first, DumpNames(ns[1..]));
      if ns[0].Some? { StringHere(s, p, ns[0].value); }
      NamesHere(s, p + |first|, ns[1..]);
    }
  }

  lemma HeadHere(s: Octets, p: nat, f: Func)
    requires SizedCounts(f) && At(s, p, Head(f))
    ensures HeadLayout(s, p, f)
  {
    hide At, BE32, BE16, U32At;
    var counts := BE32(|f.code|) + BE32(|f.consts|) + BE32(|f.funcs|);
    var flags := f.header - f.header % 4;
    AtSix(s, p, counts, BE16(f.nregs), BE16(f.nargs), BE32(0), BE32(0), BE32(flags));
    AtAppend(s, p, BE32(|f.code|) + BE32(|f.consts|), BE32(|f.funcs|));
    AtAppend(s, p, BE32(|f.code|), BE32(|f.consts|));
    U32Here(s, p, |f.code|);
    U32Here(s, p + 4, |f.consts|);
    U32Here(s, p + 8, |f.funcs|);
    U16Here(s, p + 12, f.nregs);
    U16Here(s, p + 14, f.nargs);
    U32Here(s, p + 16, 0);
    U32Here(s, p + 20, 0);
    U32Here(s, p + 24, flags);
  }

  lemma U16Here(s: Octets, p: nat, x: Word16)
    requires At(s, p, BE16(x))
    ensures U16At(s, p, x)
  {
    Read16At(s, p, x);
  }

  lemma PropsHere(s: Octets, p: nat, f: Func) returns (v: nat)
    requires SizedProps(f) && At(s, p, Props(f))
    ensures PropsLayout(s, p, f, v, p + |Props(f)|)
  {
    hide At, BE32, DumpVars, DumpNames, Str, U32At, StringAt, VarsLayout, NamesLayout;
    var len, name, file, pc := Value(f.length, f.nargs), Value(f.name, []), Value(f.fileName, []), Value(f.pc2line, []);
    var vars, formals := Value(f.varmap, []), Value(f.formals, []);
    AtSix(s, p, BE32(len), Str(name), Str(file), Str(pc), DumpVars(vars), DumpNames(formals));
    U32Here(s, p, len);
    StringHere(s, p + 4, name);
    StringHere(s, p + 8 + |name|, file);
    StringHere(s, p + 12 + |name| + |file|, pc);
    VarsHere(s, p + 16 + |name| + |file| + |pc|, vars);
    v := p + 16 + |name| + |file| + |pc| + |DumpVars(vars)|;
    NamesHere(s, v, formals);
  }

  lemma {:induction false} DumpHere(s: Octets, p: nat, f: Func)
    requires Sized(f) && At(s, p, Dump(f))
    ensures Layout(s, p, f, p + |Dump(f)|)
    decreases f, 0
  {
    hide At, Head, Props, DumpCode, DumpConsts, DumpFuncs, SizedProps, SizedCounts;
    hide HeadLayout, CodeLayout, ConstsLayout, FuncsLayout, PropsLayout;
    Identity(Dump(f));
    AtSix(s, p, Head(f), DumpCode(f.code), DumpConsts(f.consts), DumpFuncs(f.funcs), Props(f), []);
    HeadHere(s, p, f);
    CodeHere(s, p + 28, f.code);
    var q := p + 28 + 4 * |f.code|;
    ConstsHere(s, q, f.consts);
    var r := q + |DumpConsts(f.consts)|;
    FuncsHere(s, r, f.funcs);
    var t := r + |DumpFuncs(f.funcs)|;
    var v := PropsHere(s, t, f);
    assert PropsLayout(s, t, f, v, p + |Dump(f)|);
  }

  lemma {:induction false} FuncsHere(s: Octets, p: nat, fs: seq<Func>)
    requires (forall i :: 0 <= i < |fs| ==> Sized(fs[i])) && At(s, p, DumpFuncs(fs))
    ensures FuncsLayout(s, p, fs, p + |DumpFuncs(fs)|)
    decreases fs, 1
  {
    hide At, Sized, Dump, Layout;
    if fs != [] {
      AtAppend(s, p, Dump(fs[0]), DumpFuncs(fs[1..]));
      DumpHere(s, p, fs[0]);
      FuncsHere(s, p + |Dump(fs[0])|, fs[1..]);
    }
  }

  /** duk_dump_function writes 0xff, 0x00 and the function in this format. */
  lemma FileLayout(f: Func)
    requires Sized(f)
    ensures var s := DumpFile(f); 2 <= |s| && s[0] == 0xff && s[1] == 0x00 && Layout(s, 2, f, |s|)
  {
    hide Sized, Dump, Layout;
    var s := DumpFile(f);
    AppendSplit([MARKER, VERSION], Dump(f));
    assert At(s, 2, Dump(f));
    DumpHere(s, 2, f);
  }

  /** Nothing else is loaded: another start, and a constant with another tag, are format errors. */
  lemma Rejects(s: Octets, p: nat)
    ensures LoadFile(s).Loaded? ==> 2 <= |s| && s[0] == 0xff && s[1] == 0x00
    ensures |s| < 2 || s[..2] != [0xff, 0x00] ==> LoadFile(s) == FormatError
    ensures p < |s| && s[p] > 0x01 ==> LoadConst(s, p) == FormatError
  {
    hide LoadFunc, LoadStr;
  }

  // ----- What is kept -----

  /** The slots of a that are used. */
  predicate UsedOnly(a: seq<Option<Octets>>, b: seq<Option<Octets>>)
    decreases |a|
  {
    if a == [] then b == []
    else if a[0].None? then UsedOnly(a[1..], b)
    else b != [] && b[0] == a[0] && UsedOnly(a[1..], b[1..])
  }

  /** g is f with every missing property at its default, here and inside. */
  predicate Restores(f: Func, g: Func) {
    && g.code == f.code && g.consts == f.consts && g.nregs == f.nregs && g.nargs == f.nargs && g.header == f.header
    && (f.length.Some? ==> g.length == f.length) && (f.length.None? ==> g.length == Some(f.nargs))
    && (f.name.Some? ==> g.name == f.name) && (f.name.None? ==> g.name == Some([]))
    && (f.fileName.Some? ==> g.fileName == f.fileName) && (f.fileName.None? ==> g.fileName == Some([]))
    && (f.pc2line.Some? ==> g.pc2line == f.pc2line) && (f.pc2line.None? ==> g.pc2line == Some([]))
    && (f.varmap.Some? ==> g.varmap == f.varmap) && (f.varmap.None? ==> g.varmap == Some([]))
    && g.formals.Some? && UsedOnly(if f.formals.Some? then f.formals.value else [], g.formals.value)
    && |g.funcs| == |f.funcs| && forall i :: 0 <= i < |f.funcs| ==> Restores(f.funcs[i], g.funcs[i])
  }

  lemma {:induction false} UsedRestores(ns: seq<Option<Octets>>)
    ensures UsedOnly(ns, Used(ns))
    decreases |ns|
  {
    if ns != [] {
      UsedRestores(ns[1..]);
      if ns[0].Some? {
        assert Used(ns)[0] == ns[0] && Used(ns)[1..] == Used(ns[1..]);
      } else {
        Identity(Used(ns[1..]));
      }
    }
  }

  lemma {:induction false} NormalRestores(f: Func)
    ensures Restores(f, Normal(f))
    decreases f, 0
  {
    hide Used, UsedOnly;
    UsedRestores(Value(f.formals, []));
    NormalAllRestore(f.funcs);
  }

  lemma {:induction false} NormalAllRestore(fs: seq<Func>)
    ensures forall i :: 0 <= i < |fs| ==> Restores(fs[i], NormalAll(fs)[i])
    decreases fs, 1
  {
    hide Normal, Restores;
    if fs != [] {
      NormalRestores(fs[0]);
      NormalAllRestore(fs[1..]);
    }
  }

  /** Field by field, what comes back when the dump of any function is loaded. */
  lemma LoadRestores(f: Func, suffix: Octets)
    requires Sized(f) && Headed(f) && Named(f)
    ensures var r := LoadFile(DumpFile(f) + suffix); r.Loaded? && Restores(f, r.value) && r.next == |DumpFile(f)|
  {
    hide Sized, Headed, Named, Normal, LoadFile, DumpFile, Restores;
    LoadDump(f, suffix);
    NormalRestores(f);
  }

  /** All six properties are there, and no unused formals slot, here and inside. */
  predicate Whole(f: Func) {
    && f.length.Some? && f.name.Some? && f.fileName.Some? && f.pc2line.Some? && f.varmap.Some? && f.formals.Some?
    && (forall i :: 0 <= i < |f.formals.value| ==> f.formals.value[i].Some?)
    && (forall i :: 0 <= i < |f.funcs| ==> Whole(f.funcs[i]))
  }

  lemma {:induction false} RestoresSame(f: Func, g: Func)
    requires Whole(f) && Restores(f, g)
    ensures g == f
    decreases f
  {
    UsedSame(f.formals.value, g.formals.value);
    forall i | 0 <= i < |f.funcs| ensures g.funcs[i] == f.funcs[i] { RestoresSame(f.funcs[i], g.funcs[i]); }
    assert g.funcs == f.funcs;
  }

  lemma {:induction false} UsedSame(a: seq<Option<Octets>>, b: seq<Option<Octets>>)
    requires UsedOnly(a, b) && forall i :: 0 <= i < |a| ==> a[i].Some?
    ensures a == b
    decreases |a|
  {
    if a != [] {
      UsedSame(a[1..], b[1..]);
      Cons(a);
      Cons(b);
    }
  }

  /** A function with all its properties comes back as itself. */
  lemma LoadIsInverse(f: Func, suffix: Octets)
    requires Sized(f) && Headed(f) && Named(f) && Whole(f)
    ensures LoadFile(DumpFile(f) + suffix) == Loaded(f, |DumpFile(f)|) && Normal(f) == f
  {
    hide Sized, Headed, Named, Whole, Normal, LoadFile, DumpFile, Restores;
    LoadDump(f, suffix);
    NormalRestores(f);
    RestoresSame(f, Normal(f));
  }

  /** So two such functions with the same dump are the same. */
  lemma DumpInjective(f: Func, g: Func, x: Octets, y: Octets)
    requires Sized(f) && Headed(f) && Named(f) && Whole(f) && Sized(g) && Headed(g) && Named(g) && Whole(g)
    requires DumpFile(f) + x == DumpFile(g) + y
    ensures f == g && x == y
  {
    hide Sized, Headed, Named, Whole, Normal, LoadFile, DumpFile;
    SelfDelimiting(f, g, x, y);
    LoadIsInverse(f, x);
    LoadIsInverse(g, y);
  }
}
