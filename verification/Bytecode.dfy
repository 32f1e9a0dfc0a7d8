/** Function bytecode dump and load of duk_api_bytecode.c. */
module Bytecode {
  import opened Bytes
  import opened Seqs

  type Octets = seq<Byte>

  /** An IEEE double, as the eight bytes in which it is written. */
  type Double = d: Octets | |d| == 8 witness [0, 0, 0, 0, 0, 0, 0, 0]

  datatype Const = StrConst(s: Octets) | NumConst(d: Double)

  datatype Var = Var(name: Octets, reg: Word32)

  /** A property that is missing or of another type is None; an unused formals slot is None. */
  datatype Func = Func(
    nregs: Word16, nargs: Word16, header: Word32, code: seq<Word32>, consts: seq<Const>, funcs: seq<Func>,
    length: Option<Word32>, name: Option<Octets>, fileName: Option<Octets>, pc2line: Option<Octets>,
    varmap: Option<seq<Var>>, formals: Option<seq<Option<Octets>>>)

  const TYPE_OBJECT: int := 2
  const PROTO: Octets := [0x5f, 0x5f, 0x70, 0x72, 0x6f, 0x74, 0x6f, 0x5f, 0x5f]  // "__proto__"

  // ----- Big-endian integers -----

  function BE16(x: Word16): (r: Octets)
    ensures |r| == 2
  {
    [x / 0x100, x % 0x100]
  }

  function BE32(x: Word32): (r: Octets)
    ensures |r| == 4
  {
    [x / 0x100_0000, x / 0x1_0000 % 0x100, x / 0x100 % 0x100, x % 0x100]
  }

  function Read16(s: Octets, p: nat): Word16
    requires p + 2 <= |s|
  {
    s[p] as int * 0x100 + s[p + 1] as int
  }

  function Read32(s: Octets, p: nat): Word32
    requires p + 4 <= |s|
  {
    s[p] as int * 0x100_0000 + s[p + 1] as int * 0x1_0000 + s[p + 2] as int * 0x100 + s[p + 3] as int
  }

  lemma Read16At(s: Octets, p: nat, x: Word16)
    requires At(s, p, BE16(x))
    ensures Read16(s, p) == x
  {
    AtIndex(s, p, BE16(x), 0);
    AtIndex(s, p, BE16(x), 1);
  }

  lemma Read32At(s: Octets, p: nat, x: Word32)
    requires At(s, p, BE32(x))
    ensures p + 4 <= |s| && Read32(s, p) == x
  {
    AtIndex(s, p, BE32(x), 0);
    AtIndex(s, p, BE32(x), 1);
    AtIndex(s, p, BE32(x), 2);
    AtIndex(s, p, BE32(x), 3);
    FourBytes(x);
  }

  // ----- What is dumped -----

  function Str(s: Octets): (r: Octets)
    requires |s| < U32
    ensures |r| == 4 + |s|
  {
    BE32(|s|) + s
  }

  function DumpCode(code: seq<Word32>): (r: Octets)
    ensures |r| == 4 * |code|
  {
    if code == [] then [] else BE32(code[0]) + DumpCode(code[1..])
  }

  function DumpConst(c: Const): Octets
    requires SizedConst(c)
  {
    match c
    case StrConst(s) => [0] + Str(s)
    case NumConst(d) => [1] + d
  }

  function DumpConsts(cs: seq<Const>): Octets
    requires forall i :: 0 <= i < |cs| ==> SizedConst(cs[i])
  {
    if cs == [] then [] else DumpConst(cs[0]) + DumpConsts(cs[1..])
  }

  function DumpVars(vs: seq<Var>): Octets
    requires forall i :: 0 <= i < |vs| ==> |vs[i].name| < U31
  {
    if vs == [] then BE32(0) else Str(vs[0].name) + BE32(vs[0].reg) + DumpVars(vs[1..])
  }

  function DumpNames(ns: seq<Option<Octets>>): Octets
    requires forall i :: 0 <= i < |ns| ==> SizedName(ns[i])
  {
    if ns == [] then BE32(0)
    else
      assert SizedName(ns[0]);
      (if ns[0].Some? then Str(ns[0].value) else []) + DumpNames(ns[1..])
  }

  function Value<T>(o: Option<T>, default: T): T {
    if o.Some? then o.value else default
  }

  function Head(f: Func): (r: Octets)
    requires SizedCounts(f)
    ensures |r| == 28
  {
    BE32(|f.code|) + BE32(|f.consts|) + BE32(|f.funcs|) + BE16(f.nregs) + BE16(f.nargs) + BE32(0) + BE32(0)
    + BE32(f.header - f.header % 4)
  }

  function Props(f: Func): Octets
    requires SizedProps(f)
  {
    BE32(Value(f.length, f.nargs)) + Str(Value(f.name, [])) + Str(Value(f.fileName, [])) + Str(Value(f.pc2line, []))
    + DumpVars(Value(f.varmap, [])) + DumpNames(Value(f.formals, []))
  }

  function Dump(f: Func): Octets
    requires Sized(f)
    decreases f, 0
  {
    Head(f) + DumpCode(f.code) + DumpConsts(f.consts) + DumpFuncs(f.funcs) + Props(f)
  }

  function DumpFuncs(fs: seq<Func>): Octets
    requires forall i :: 0 <= i < |fs| ==> Sized(fs[i])
    decreases fs, 1
  {
    if fs == [] then [] else Dump(fs[0]) + DumpFuncs(fs[1..])
  }

  // ----- Size limits of strings, buffers and functions -----

  predicate SizedName(n: Option<Octets>) {
    n.Some? ==> |n.value| < U31
  }

  predicate SizedConst(c: Const) {
    c.StrConst? ==> |c.s| < U31
  }

  predicate SizedCounts(f: Func) {
    |f.code| < U31 / 4 && |f.consts| < U32 && |f.funcs| < U32
  }

  predicate SizedProps(f: Func) {
    && SizedName(f.name) && SizedName(f.fileName) && SizedName(f.pc2line)
    && (f.varmap.Some? ==> forall i :: 0 <= i < |f.varmap.value| ==> |f.varmap.value[i].name| < U31)
    && (f.formals.Some? ==> forall i :: 0 <= i < |f.formals.value| ==> SizedName(f.formals.value[i]))
  }

  predicate Sized(f: Func) {
    && SizedCounts(f) && SizedProps(f)
    && (forall i :: 0 <= i < |f.consts| ==> SizedConst(f.consts[i]))
    && (forall i :: 0 <= i < |f.funcs| ==> Sized(f.funcs[i]))
  }

  // ----- What is loaded -----

  /** The loader has no bounds checks: OutOfBounds stands for a read past the end. */
  datatype Outcome<T> = Loaded(value: T, next: nat) | FormatError | OutOfBounds

  function LoadStr(s: Octets, p: nat): (r: Outcome<Octets>)
    ensures r.Loaded? ==> p + 4 <= r.next <= |s| && r.value == s[p + 4..r.next]
    ensures !r.FormatError?
  {
    if p + 4 > |s| then OutOfBounds
    else
      var end := p + 4 + Read32(s, p);
      if end > |s| then OutOfBounds else Loaded(s[p + 4..end], end)
  }

  function LoadCode(s: Octets, p: nat, n: nat): (r: seq<Word32>)
    requires p + 4 * n <= |s|
    ensures |r| == n
    decreases n
  {
    if n == 0 then [] else [Read32(s, p)] + LoadCode(s, p + 4, n - 1)
  }

  function LoadConst(s: Octets, p: nat): (r: Outcome<Const>)
    ensures r.Loaded? ==> p < r.next <= |s|
  {
    if p >= |s| then OutOfBounds
    else if s[p] == 0 then
      var t := LoadStr(s, p + 1);
      if t.Loaded? then Loaded(StrConst(t.value), t.next) else OutOfBounds
    else if s[p] == 1 then
      if p + 9 > |s| then OutOfBounds else Loaded(NumConst(s[p + 1..p + 9]), p + 9)
    else FormatError
  }

  function LoadConsts(s: Octets, p: nat, n: nat): (r: Outcome<seq<Const>>)
    ensures r.Loaded? && p <= |s| ==> p <= r.next <= |s| && |r.value| == n
    decreases n
  {
    if n == 0 then Loaded([], p)
    else
      var c := LoadConst(s, p);
      if !c.Loaded? then (if c.FormatError? then FormatError else OutOfBounds)
      else Prepended(c.value, LoadConsts(s, c.next, n - 1))
  }

  function Prepended<T>(x: T, r: Outcome<seq<T>>): Outcome<seq<T>> {
    if r.Loaded? then Loaded([x] + r.value, r.next) else r
  }

  /** An ordinary property put: the inherited setter takes "__proto__", and a number changes nothing there. */
  function Put(m: seq<Var>, name: Octets, reg: Word32): (r: seq<Var>) {
    if name == PROTO then m
    else if m == [] then [Var(name, reg)]
    else if m[0].name == name then [Var(name, reg)] + m[1..]
    else [m[0]] + Put(m[1..], name, reg)
  }

  function LoadVars(s: Octets, p: nat, m: seq<Var>): (r: Outcome<seq<Var>>)
    ensures !r.FormatError? && (r.Loaded? && p <= |s| ==> p <= r.next <= |s|)
    decreases |s| - p
  {
    var k := LoadStr(s, p);
    if !k.Loaded? then OutOfBounds
    else if k.value == [] then Loaded(m, k.next)
    else if k.next + 4 > |s| then OutOfBounds
    else LoadVars(s, k.next + 4, Put(m, k.value, Read32(s, k.next)))
  }

  function LoadNames(s: Octets, p: nat): (r: Outcome<seq<Option<Octets>>>)
    ensures !r.FormatError? && (r.Loaded? && p <= |s| ==> p <= r.next <= |s|)
    decreases |s| - p
  {
    var k := LoadStr(s, p);
    if !k.Loaded? then OutOfBounds
    else if k.value == [] then Loaded([], k.next)
    else Prepended(Some(k.value), LoadNames(s, k.next))
  }

  /** The header of a new function object takes over the flags that are read. */
  function SetFlags(flags: Word32): (h: Word32)
    ensures h / 4 == flags / 4 && h / 2 % 2 == 1
  {
    if flags / 2 % 2 == 1 then flags else flags + TYPE_OBJECT
  }

  datatype Extra = Extra(length: Word32, name: Octets, fileName: Octets, pc2line: Octets, varmap: seq<Var>, formals: seq<Option<Octets>>)

  function LoadProps(s: Octets, p: nat): (r: Outcome<Extra>)
    ensures !r.FormatError? && (r.Loaded? && p <= |s| ==> p <= r.next <= |s|)
  {
    if p + 4 > |s| then OutOfBounds
    else
      var name := LoadStr(s, p + 4);
      if !name.Loaded? then OutOfBounds
      else
        var file := LoadStr(s, name.next);
        if !file.Loaded? then OutOfBounds
        else
          var pc := LoadStr(s, file.next);
          if !pc.Loaded? then OutOfBounds
          else
            var vars := LoadVars(s, pc.next, []);
            if !vars.Loaded? then OutOfBounds
            else
              var formals := LoadNames(s, vars.next);
              if !formals.Loaded? then OutOfBounds
              else Loaded(Extra(Read32(s, p), name.value, file.value, pc.value, vars.value, formals.value), formals.next)
  }

  function LoadFunc(s: Octets, p: nat): (r: Outcome<Func>)
    ensures r.Loaded? ==> p + 28 <= r.next <= |s|
    decreases |s| - p, 0
  {
    if p + 28 > |s| then OutOfBounds
    else
      var nCode, nConsts, nFuncs := Read32(s, p), Read32(s, p + 4), Read32(s, p + 8);
      if p + 28 + 4 * nCode > |s| then OutOfBounds
      else
        var consts := LoadConsts(s, p + 28 + 4 * nCode, nConsts);
        if !consts.Loaded? then (if consts.FormatError? then FormatError else OutOfBounds)
        else
          var funcs := LoadFuncs(s, consts.next, nFuncs);
          if !funcs.Loaded? then (if funcs.FormatError? then FormatError else OutOfBounds)
          else
            var extra := LoadProps(s, funcs.next);
            if !extra.Loaded? then OutOfBounds
            else Loaded(Assemble(s, p, LoadCode(s, p + 28, nCode), consts.value, funcs.value, extra.value), extra.next)
  }

  function Assemble(s: Octets, p: nat, code: seq<Word32>, consts: seq<Const>, funcs: seq<Func>, e: Extra): Func
    requires p + 28 <= |s|
  {
    Func(Read16(s, p + 12), Read16(s, p + 14), SetFlags(Read32(s, p + 24)), code, consts, funcs,
         Some(e.length), Some(e.name), Some(e.fileName), Some(e.pc2line), Some(e.varmap), Some(e.formals))
  }

  function LoadFuncs(s: Octets, p: nat, n: nat): (r: Outcome<seq<Func>>)
    ensures r.Loaded? && p <= |s| ==> p <= r.next <= |s| && |r.value| == n
    decreases |s| - p, n + 1
  {
    if n == 0 then Loaded([], p)
    else
      var f := LoadFunc(s, p);
      if !f.Loaded? then (if f.FormatError? then FormatError else OutOfBounds)
      else Prepended(f.value, LoadFuncs(s, f.next, n - 1))
  }

  // ----- Round trip -----

  predicate NamedVars(vs: seq<Var>) {
    && (forall i :: 0 <= i < |vs| ==> vs[i].name != [] && vs[i].name != PROTO)
    && (forall i, j :: 0 <= i < j < |vs| ==> vs[i].name != vs[j].name)
  }

  predicate NamedFormals(ns: seq<Option<Octets>>) {
    forall i :: 0 <= i < |ns| ==> ns[i] != Some([])
  }

  /** No empty variable or formal name, no variable twice, and no variable that an inherited setter takes. */
  predicate Named(f: Func) {
    && (f.varmap.Some? ==> NamedVars(f.varmap.value))
    && (f.formals.Some? ==> NamedFormals(f.formals.value))
    && (forall i :: 0 <= i < |f.funcs| ==> Named(f.funcs[i]))
  }

  /** The header of a function object, here and inside. */
  predicate Headed(f: Func) {
    f.header % 4 == TYPE_OBJECT && forall i :: 0 <= i < |f.funcs| ==> Headed(f.funcs[i])
  }

  function Used(ns: seq<Option<Octets>>): (r: seq<Option<Octets>>)
    ensures forall i :: 0 <= i < |r| ==> r[i].Some?
  {
    if ns == [] then [] else (if ns[0].Some? then [ns[0]] else []) + Used(ns[1..])
  }

  /** A missing property comes back with the value that stands for it in the dump. */
  function Normal(f: Func): Func
    decreases f, 0
  {
    f.(funcs := NormalAll(f.funcs), length := Some(Value(f.length, f.nargs)), name := Some(Value(f.name, [])),
       fileName := Some(Value(f.fileName, [])), pc2line := Some(Value(f.pc2line, [])),
       varmap := Some(Value(f.varmap, [])), formals := Some(Used(Value(f.formals, []))))
  }

  function NormalAll(fs: seq<Func>): (r: seq<Func>)
    ensures |r| == |fs|
    decreases fs, 1
  {
    if fs == [] then [] else [Normal(fs[0])] + NormalAll(fs[1..])
  }

  lemma StrAt(s: Octets, p: nat, x: Octets)
    requires |x| < U31 && At(s, p, Str(x))
    ensures LoadStr(s, p) == Loaded(x, p + |Str(x)|)
  {
    hide BE32, Read32;
    AtAppend(s, p, BE32(|x|), x);
    Read32At(s, p, |x|);
  }

  lemma {:induction false} CodeAt(s: Octets, p: nat, code: seq<Word32>)
    requires At(s, p, DumpCode(code))
    ensures LoadCode(s, p, |code|) == code
    decreases |code|
  {
    hide BE32, Read32;
    if code != [] {
      AtAppend(s, p, BE32(code[0]), DumpCode(code[1..]));
      Read32At(s, p, code[0]);
      CodeAt(s, p + 4, code[1..]);
    }
  }

  lemma {:induction false} ConstAt(s: Octets, p: nat, c: Const)
    requires SizedConst(c) && At(s, p, DumpConst(c))
    ensures LoadConst(s, p) == Loaded(c, p + |DumpConst(c)|)
  {
    hide LoadStr;
    match c
    case StrConst(x) =>
      AtAppend(s, p, [0], Str(x));
      AtIndex(s, p, [0], 0);
      StrAt(s, p + 1, x);
    case NumConst(d) =>
      AtAppend(s, p, [1], d);
      AtIndex(s, p, [1], 0);
  }

  lemma {:induction false} ConstsAt(s: Octets, p: nat, cs: seq<Const>)
    requires (forall i :: 0 <= i < |cs| ==> SizedConst(cs[i])) && At(s, p, DumpConsts(cs))
    ensures LoadConsts(s, p, |cs|) == Loaded(cs, p + |DumpConsts(cs)|)
    decreases |cs|
  {
    hide LoadConst, DumpConst;
    if cs != [] {
      AtAppend(s, p, DumpConst(cs[0]), DumpConsts(cs[1..]));
      ConstAt(s, p, cs[0]);
      Cons(cs);
      ConstsAt(s, p + |DumpConst(cs[0])|, cs[1..]);
    }
  }

  lemma {:induction false} PutNew(m: seq<Var>, v: Var)
    requires v.name != PROTO && forall i :: 0 <= i < |m| ==> m[i].name != v.name
    ensures Put(m, v.name, v.reg) == m + [v]
    decreases |m|
  {
    if m != [] {
      PutNew(m[1..], v);
      Cons(m);
      Assoc([m[0]], m[1..], [v]);
    }
  }

  lemma {:induction false} VarsAt(s: Octets, p: nat, m: seq<Var>, vs: seq<Var>)
    requires (forall i :: 0 <= i < |vs| ==> |vs[i].name| < U31) && At(s, p, DumpVars(vs))
    requires NamedVars(m + vs)
    ensures LoadVars(s, p, m) == Loaded(m + vs, p + |DumpVars(vs)|)
    decreases |vs|
  {
    hide At, LoadStr, Put, BE32, Read32;
    if vs == [] {
      EmptyAt(s, p);
      Identity(m);
    } else {
      var v := vs[0];
      var rest := DumpVars(vs[1..]);
      AtAppend(s, p, Str(v.name) + BE32(v.reg), rest);
      AtAppend(s, p, Str(v.name), BE32(v.reg));
      StrAt(s, p, v.name);
      Read32At(s, p + |Str(v.name)|, v.reg);
      NamedSplit(m, vs);
      PutNew(m, v);
      VarsAt(s, p + |Str(v.name)| + 4, m + [v], vs[1..]);
    }
  }

  /** The first of the variables that are still to come. */
  lemma NamedSplit(m: seq<Var>, vs: seq<Var>)
    requires vs != [] && NamedVars(m + vs)
    ensures m + [vs[0]] + vs[1..] == m + vs && vs[0].name != [] && vs[0].name != PROTO
    ensures forall i :: 0 <= i < |m| ==> m[i].name != vs[0].name
  {
    var all := m + vs;
    assert all[|m|] == vs[0] && forall i :: 0 <= i < |m| ==> all[i] == m[i];
    Cons(vs);
    Assoc(m, [vs[0]], vs[1..]);
  }

  /** A zero length ends a list. */
  lemma EmptyAt(s: Octets, p: nat)
    requires At(s, p, BE32(0))
    ensures LoadStr(s, p) == Loaded([], p + 4)
  {
    Read32At(s, p, 0);
    assert s[p + 4..p + 4] == [];
  }

  lemma {:induction false} NamesAt(s: Octets, p: nat, ns: seq<Option<Octets>>)
    requires (forall i :: 0 <= i < |ns| ==> SizedName(ns[i])) && NamedFormals(ns) && At(s, p, DumpNames(ns))
    ensures LoadNames(s, p) == Loaded(Used(ns), p + |DumpNames(ns)|)
    decreases |ns|
  {
    hide At, Str, LoadStr;
    if ns == [] {
      EmptyAt(s, p);
    } else {
      assert SizedName(ns[0]);
      var first := if ns[0].Some? then Str(ns[0].value) else [];
      AtAppend(s, p, first, DumpNames(ns[1..]));
      if ns[0].Some? { StrAt(s, p, ns[0].value); }
      NamesAt(s, p + |first|, ns[1..]);
      Identity(Used(ns[1..]));
    }
  }

  /** Six parts one after the other. */
  lemma AtSix(s: Octets, p: nat, a: Octets, b: Octets, c: Octets, d: Octets, e: Octets, f: Octets)
    requires At(s, p, a + b + c + d + e + f)
    ensures At(s, p, a) && At(s, p + |a|, b) && At(s, p + |a| + |b|, c) && At(s, p + |a| + |b| + |c|, d)
    ensures At(s, p + |a| + |b| + |c| + |d|, e) && At(s, p + |a| + |b| + |c| + |d| + |e|, f)
  {
    AtAppend(s, p, a + b + c + d + e, f);
    AtAppend(s, p, a + b + c + d, e);
    AtAppend(s, p, a + b + c, d);
    AtAppend(s, p, a + b, c);
    AtAppend(s, p, a, b);
  }

  function ExtraOf(f: Func): Extra {
    Extra(Value(f.length, f.nargs), Value(f.name, []), Value(f.fileName, []), Value(f.pc2line, []),
          Value(f.varmap, []), Used(Value(f.formals, [])))
  }

  lemma {:induction false} PropsAt(s: Octets, p: nat, f: Func)
    requires SizedProps(f) && At(s, p, Props(f))
    requires NamedVars(Value(f.varmap, [])) && NamedFormals(Value(f.formals, []))
    ensures LoadProps(s, p) == Loaded(ExtraOf(f), p + |Props(f)|)
  {
    hide At, LoadStr, LoadVars, LoadNames, BE32, Read32, DumpVars, DumpNames, Str, Used, NamedVars, NamedFormals;
    var len, name, file, pc := Value(f.length, f.nargs), Value(f.name, []), Value(f.fileName, []), Value(f.pc2line, []);
    var vars, formals := Value(f.varmap, []), Value(f.formals, []);
    AtSix(s, p, BE32(len), Str(name), Str(file), Str(pc), DumpVars(vars), DumpNames(formals));
    Read32At(s, p, len);
    var q := p + 4;
    StrAt(s, q, name);
    q := q + |Str(name)|;
    StrAt(s, q, file);
    q := q + |Str(file)|;
    StrAt(s, q, pc);
    q := q + |Str(pc)|;
    Identity(vars);
    VarsAt(s, q, [], vars);
    q := q + |DumpVars(vars)|;
    NamesAt(s, q, formals);
  }

  lemma {:induction false} HeadAt(s: Octets, p: nat, f: Func)
    requires SizedCounts(f) && At(s, p, Head(f))
    ensures p + 28 <= |s| && Read32(s, p) == |f.code| && Read32(s, p + 4) == |f.consts| && Read32(s, p + 8) == |f.funcs|
    ensures Read16(s, p + 12) == f.nregs && Read16(s, p + 14) == f.nargs && Read32(s, p + 24) == f.header - f.header % 4
  {
    hide At, BE32, BE16, Read32, Read16;
    var counts := BE32(|f.code|) + BE32(|f.consts|) + BE32(|f.funcs|);
    var flags := f.header - f.header % 4;
    AtSix(s, p, counts, BE16(f.nregs), BE16(f.nargs), BE32(0), BE32(0), BE32(flags));
    AtAppend(s, p, BE32(|f.code|) + BE32(|f.consts|), BE32(|f.funcs|));
    AtAppend(s, p, BE32(|f.code|), BE32(|f.consts|));
    Read32At(s, p, |f.code|);
    Read32At(s, p + 4, |f.consts|);
    Read32At(s, p + 8, |f.funcs|);
    Read16At(s, p + 12, f.nregs);
    Read16At(s, p + 14, f.nargs);
    Read32At(s, p + 24, flags);
  }

  lemma {:induction false} FuncAt(s: Octets, p: nat, f: Func)
    requires Sized(f) && Headed(f) && Named(f) && At(s, p, Dump(f))
    ensures LoadFunc(s, p) == Loaded(Normal(f), p + |Dump(f)|)
    decreases f, 0
  {
    hide At, LoadConsts, LoadFuncs, LoadProps, LoadCode, Read32, Read16, Head, Props, DumpCode, DumpConsts, DumpFuncs,
      SizedProps, SizedCounts, NamedVars, NamedFormals, NormalAll, Used;
    Identity(Dump(f));
    AtSix(s, p, Head(f), DumpCode(f.code), DumpConsts(f.consts), DumpFuncs(f.funcs), Props(f), []);
    HeadAt(s, p, f);
    var q := p + 28;
    CodeAt(s, q, f.code);
    q := q + |DumpCode(f.code)|;
    ConstsAt(s, q, f.consts);
    q := q + |DumpConsts(f.consts)|;
    FuncsAt(s, q, f.funcs);
    q := q + |DumpFuncs(f.funcs)|;
    NoNames();
    PropsAt(s, q, f);
  }

  lemma NoNames()
    ensures NamedVars([]) && NamedFormals([])
  {}

  lemma {:induction false} FuncsAt(s: Octets, p: nat, fs: seq<Func>)
    requires forall i :: 0 <= i < |fs| ==> Sized(fs[i]) && Headed(fs[i]) && Named(fs[i])
    requires At(s, p, DumpFuncs(fs))
    ensures LoadFuncs(s, p, |fs|) == Loaded(NormalAll(fs), p + |DumpFuncs(fs)|)
    decreases fs, 1
  {
    hide At, LoadFunc, Sized, Headed, Named, Normal, Dump;
    if fs != [] {
      AtAppend(s, p, Dump(fs[0]), DumpFuncs(fs[1..]));
      FuncAt(s, p, fs[0]);
      FuncsAt(s, p + |Dump(fs[0])|, fs[1..]);
    }
  }

  // ----- Dumping again -----

  lemma {:induction false} UsedDump(ns: seq<Option<Octets>>)
    requires forall i :: 0 <= i < |ns| ==> SizedName(ns[i])
    ensures (forall i :: 0 <= i < |Used(ns)| ==> SizedName(Used(ns)[i])) && DumpNames(Used(ns)) == DumpNames(ns)
    decreases |ns|
  {
    hide BE32, Str;
    if ns != [] {
      assert SizedName(ns[0]);
      UsedDump(ns[1..]);
      if ns[0].Some? {
        assert Used(ns)[0] == ns[0] && Used(ns)[1..] == Used(ns[1..]);
      } else {
        Identity(Used(ns[1..]));
        Identity(DumpNames(ns[1..]));
      }
    }
  }

  lemma {:induction false} Redump(f: Func)
    requires Sized(f)
    ensures Sized(Normal(f)) && Dump(Normal(f)) == Dump(f)
    decreases f, 0
  {
    hide DumpNames, DumpVars, DumpCode, DumpConsts, DumpFuncs, BE32, BE16, Str, Used;
    UsedDump(Value(f.formals, []));
    RedumpAll(f.funcs);
    assert SizedProps(Normal(f)) && SizedCounts(Normal(f));
    assert Head(Normal(f)) == Head(f) && Props(Normal(f)) == Props(f);
  }

  lemma {:induction false} RedumpAll(fs: seq<Func>)
    requires forall i :: 0 <= i < |fs| ==> Sized(fs[i])
    ensures (forall i :: 0 <= i < |fs| ==> Sized(NormalAll(fs)[i])) && DumpFuncs(NormalAll(fs)) == DumpFuncs(fs)
    decreases fs, 1
  {
    hide Sized, Normal, Dump;
    if fs != [] {
      Redump(fs[0]);
      RedumpAll(fs[1..]);
      assert NormalAll(fs)[1..] == NormalAll(fs[1..]);
    }
  }

  // ----- Whatever is loaded has proper names -----

  lemma VarsCons(v: Var, m: seq<Var>)
    ensures NamedVars([v] + m) <==> v.name != [] && v.name != PROTO && Lacks(m, v.name) && NamedVars(m)
  {
    var all := [v] + m;
    assert all[0] == v && forall i :: 0 <= i < |m| ==> all[i + 1] == m[i];
    assert forall i :: 1 <= i < |all| ==> all[i] == m[i - 1];
  }

  lemma LacksCons(v: Var, m: seq<Var>, x: Octets)
    ensures Lacks([v] + m, x) <==> v.name != x && Lacks(m, x)
  {
    var all := [v] + m;
    assert all[0] == v && forall i :: 0 <= i < |m| ==> all[i + 1] == m[i];
  }

  lemma {:induction false} PutLacks(m: seq<Var>, name: Octets, reg: Word32, x: Octets)
    requires x != name && Lacks(m, x)
    ensures Lacks(Put(m, name, reg), x)
    decreases |m|
  {
    if name != PROTO && m != [] {
      Cons(m);
      LacksCons(m[0], m[1..], x);
      LacksCons(Var(name, reg), m[1..], x);
      PutLacks(m[1..], name, reg, x);
      LacksCons(m[0], Put(m[1..], name, reg), x);
    }
  }

  lemma {:induction false} PutNamed(m: seq<Var>, name: Octets, reg: Word32)
    requires NamedVars(m) && name != []
    ensures NamedVars(Put(m, name, reg))
    decreases |m|
  {
    if name != PROTO && m != [] {
      hide NamedVars, Lacks;
      Cons(m);
      VarsCons(m[0], m[1..]);
      VarsCons(Var(name, reg), m[1..]);
      if m[0].name != name {
        PutNamed(m[1..], name, reg);
        PutLacks(m[1..], name, reg, m[0].name);
        VarsCons(m[0], Put(m[1..], name, reg));
      }
    }
  }

  predicate Lacks(m: seq<Var>, name: Octets) {
    forall i :: 0 <= i < |m| ==> m[i].name != name
  }

  lemma {:induction false} VarsNamed(s: Octets, p: nat, m: seq<Var>)
    requires NamedVars(m)
    ensures LoadVars(s, p, m).Loaded? ==> NamedVars(LoadVars(s, p, m).value)
    decreases |s| - p
  {
    hide NamedVars, LoadStr, Put;
    var k := LoadStr(s, p);
    if k.Loaded? && k.value != [] && k.next + 4 <= |s| {
      PutNamed(m, k.value, Read32(s, k.next));
      VarsNamed(s, k.next + 4, Put(m, k.value, Read32(s, k.next)));
    }
  }

  lemma {:induction false} NamesNamed(s: Octets, p: nat)
    ensures LoadNames(s, p).Loaded? ==> NamedFormals(LoadNames(s, p).value)
    decreases |s| - p
  {
    hide LoadStr;
    var k := LoadStr(s, p);
    if k.Loaded? && k.value != [] { NamesNamed(s, k.next); }
  }

  lemma {:induction false} LoadedNamed(s: Octets, p: nat)
    ensures LoadFunc(s, p).Loaded? ==> Named(LoadFunc(s, p).value)
    decreases |s| - p, 0
  {
    hide LoadStr, LoadVars, LoadNames, LoadCode, LoadConsts, LoadFuncs, NamedVars, NamedFormals, Read32, Read16, SetFlags;
    if LoadFunc(s, p).Loaded? {
      var consts := LoadConsts(s, p + 28 + 4 * Read32(s, p), Read32(s, p + 4));
      var funcs := LoadFuncs(s, consts.next, Read32(s, p + 8));
      FuncsNamed(s, consts.next, Read32(s, p + 8));
      PropsNamed(s, funcs.next);
    }
  }

  lemma {:induction false} PropsNamed(s: Octets, p: nat)
    ensures var e := LoadProps(s, p); e.Loaded? ==> NamedVars(e.value.varmap) && NamedFormals(e.value.formals)
  {
    hide LoadStr, LoadVars, LoadNames, NamedVars, NamedFormals;
    if LoadProps(s, p).Loaded? {
      var pc := LoadStr(s, LoadStr(s, LoadStr(s, p + 4).next).next);
      NoNames();
      VarsNamed(s, pc.next, []);
      NamesNamed(s, LoadVars(s, pc.next, []).next);
    }
  }

  lemma {:induction false} FuncsNamed(s: Octets, p: nat, n: nat)
    ensures var r := LoadFuncs(s, p, n); r.Loaded? ==> forall i :: 0 <= i < |r.value| ==> Named(r.value[i])
    decreases |s| - p, n + 1
  {
    hide LoadFunc, Named;
    if n > 0 {
      LoadedNamed(s, p);
      var f := LoadFunc(s, p);
      if f.Loaded? { FuncsNamed(s, f.next, n - 1); }
    }
  }

  lemma {:induction false} UsedNamed(ns: seq<Option<Octets>>)
    ensures NamedFormals(Used(ns)) <==> NamedFormals(ns)
    decreases |ns|
  {
    if ns != [] {
      UsedNamed(ns[1..]);
      if ns[0].Some? {
        assert Used(ns)[0] == ns[0] && Used(ns)[1..] == Used(ns[1..]);
        NamedCons(ns);
        NamedCons(Used(ns));
      } else {
        Identity(Used(ns[1..]));
        NamedCons(ns);
      }
    }
  }

  lemma NamedCons(ns: seq<Option<Octets>>)
    requires ns != []
    ensures NamedFormals(ns) <==> ns[0] != Some([]) && NamedFormals(ns[1..])
  {
    if NamedFormals(ns[1..]) {
      forall i | 1 <= i < |ns| ensures ns[i] != Some([]) || ns[0] == Some([]) {
        assert ns[i] == ns[1..][i - 1];
      }
    }
  }

  lemma {:induction false} NormalNamed(f: Func)
    ensures Named(Normal(f)) <==> Named(f)
    decreases f, 0
  {
    hide NamedVars, NamedFormals, Used;
    NoNames();
    UsedNamed(Value(f.formals, []));
    NormalAllNamed(f.funcs);
  }

  lemma {:induction false} NormalAllNamed(fs: seq<Func>)
    ensures forall i :: 0 <= i < |fs| ==> (Named(NormalAll(fs)[i]) <==> Named(fs[i]))
    decreases fs, 1
  {
    hide Named, Normal;
    if fs != [] {
      NormalNamed(fs[0]);
      NormalAllNamed(fs[1..]);
    }
  }

  // ----- The main results -----

  const MARKER: Byte := 0xff
  const VERSION: Byte := 0x00

  /** duk_dump_function */
  function DumpFile(f: Func): Octets
    requires Sized(f)
  {
    [MARKER, VERSION] + Dump(f)
  }

  /** duk_load_function */
  function LoadFile(s: Octets): Outcome<Func> {
    if |s| < 2 || s[0] != MARKER || s[1] != VERSION then FormatError else LoadFunc(s, 2)
  }

  /** Loading undoes dumping, whatever follows the dump, if and only if the names are proper. */
  lemma {:induction false} LoadDump(f: Func, suffix: Octets)
    requires Sized(f) && Headed(f)
    ensures LoadFile(DumpFile(f) + suffix) == Loaded(Normal(f), |DumpFile(f)|) <==> Named(f)
  {
    hide Sized, Headed, Named, Normal, LoadFunc, Dump;
    var s := DumpFile(f) + suffix;
    assert s[0] == MARKER && s[1] == VERSION;
    if Named(f) {
      assert s == [MARKER, VERSION] + Dump(f) + suffix;
      assert At(s, 2, Dump(f));
      FuncAt(s, 2, f);
    } else {
      LoadedNamed(s, 2);
      NormalNamed(f);
    }
  }

  /** A loaded function dumps to the bytes it was loaded from, and loads as itself. */
  lemma {:induction false} LoadDumpAgain(f: Func, suffix: Octets)
    requires Sized(f) && Headed(f) && Named(f)
    ensures var g := LoadFile(DumpFile(f) + suffix);
            g.Loaded? && Sized(g.value) && DumpFile(g.value) == DumpFile(f) && Normal(g.value) == g.value
  {
    hide Sized, Headed, Named, Normal, LoadFile, Dump;
    LoadDump(f, suffix);
    Redump(f);
    NormalTwice(f);
  }

  /** The format delimits itself: no dump is a proper prefix of another, and equal dumps mean equal functions. */
  lemma {:induction false} SelfDelimiting(f: Func, g: Func, x: Octets, y: Octets)
    requires Sized(f) && Headed(f) && Named(f) && Sized(g) && Headed(g) && Named(g)
    requires DumpFile(f) + x == DumpFile(g) + y
    ensures Normal(f) == Normal(g) && x == y
  {
    hide Sized, Headed, Named, Normal, LoadFile, DumpFile;
    LoadDump(f, x);
    LoadDump(g, y);
    AppendSplit(DumpFile(f), x);
    AppendSplit(DumpFile(g), y);
  }

  lemma {:induction false} NormalTwice(f: Func)
    ensures Normal(Normal(f)) == Normal(f)
    decreases f, 0
  {
    hide Used;
    UsedTwice(Value(f.formals, []));
    NormalAllTwice(f.funcs);
  }

  lemma {:induction false} NormalAllTwice(fs: seq<Func>)
    ensures NormalAll(NormalAll(fs)) == NormalAll(fs)
    decreases fs, 1
  {
    hide Normal;
    if fs != [] {
      NormalTwice(fs[0]);
      NormalAllTwice(fs[1..]);
      assert NormalAll(fs)[1..] == NormalAll(fs[1..]);
    }
  }

  lemma {:induction false} UsedTwice(ns: seq<Option<Octets>>)
    ensures Used(Used(ns)) == Used(ns)
    decreases |ns|
  {
    if ns != [] {
      UsedTwice(ns[1..]);
      if ns[0].Some? {
        assert Used(ns)[0] == ns[0] && Used(ns)[1..] == Used(ns[1..]);
      } else {
        Identity(Used(ns[1..]));
      }
    }
  }
}
