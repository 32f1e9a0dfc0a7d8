/** CommonJS module id resolution of duk_bi_global.c. */
module ModuleId {
  import opened Bytes
  import opened Seqs

  type Text = seq<Byte>

  const SLASH: Byte := 0x2f
  const DOT: Byte := 0x2e
  const LIMIT: nat := 256  // DUK_BI_COMMONJS_MODULE_ID_LIMIT

  // ----- Terms -----

  /** The position of the first slash, or the length. */
  function FirstSlash(s: Text): (i: nat)
    ensures i <= |s| && SLASH !in s[..i] && (i < |s| ==> s[i] == SLASH)
  {
    if s == [] || s[0] == SLASH then 0
    else
      Cons(s);
      assert s[..1 + FirstSlash(s[1..])] == [s[0]] + s[1..][..FirstSlash(s[1..])];
      1 + FirstSlash(s[1..])
  }

  function Split(s: Text): (ts: seq<Text>)
    ensures ts != []
    decreases |s|
  {
    var i := FirstSlash(s);
    if i == |s| then [s] else [s[..i]] + Split(s[i + 1..])
  }

  /** Terms, each with a slash after it. */
  function Slashed(ts: seq<Text>): Text {
    if ts == [] then [] else Slashed(ts[..|ts| - 1]) + (ts[|ts| - 1] + [SLASH])
  }

  function Join(ts: seq<Text>): Text
    requires ts != []
  {
    Slashed(ts[..|ts| - 1]) + ts[|ts| - 1]
  }

  // ----- Resolution on terms -----

  /**
   * '.' is skipped, '..' goes up, an empty term is a duplicate slash; other terms must not begin with a period,
   * and the last one must be an ordinary term. None is an error.
   */
  function Walk(ts: seq<Text>, stack: seq<Text>): (r: Option<seq<Text>>)
    requires ts != []
    ensures r.Some? ==> r.value != []
    decreases |ts|
  {
    var t := ts[0];
    if |ts| == 1 then (if t == [] || t[0] == DOT then None else Some(stack + [t]))
    else if t == [] || t == [DOT] then Walk(ts[1..], stack)
    else if t == [DOT, DOT] then (if stack == [] then None else Walk(ts[1..], stack[..|stack| - 1]))
    else if t[0] == DOT then None
    else Walk(ts[1..], stack + [t])
  }

  /** A leading slash is an error. */
  function Resolve(s: Text): Option<Text> {
    if s != [] && s[0] == SLASH then None
    else
      var r := Walk(Split(s), []);
      if r.None? then None else Some(Join(r.value))
  }

  /** What is resolved: a relative id is taken from the parent of the current module. None if it is too long. */
  function Input(req: Text, mod: Option<Text>): Option<Text> {
    if mod.Some? && req != [] && req[0] == DOT then
      (if |mod.value| + 4 + |req| + 1 >= LIMIT then None else Some(mod.value + [SLASH, DOT, DOT, SLASH] + req))
    else if |req| + 1 >= LIMIT then None
    else Some(req)
  }

  function ResolveId(req: Text, mod: Option<Text>): Option<Text> {
    var s := Input(req, mod);
    if s.None? then None else Resolve(s.value)
  }

  // ----- Lemmas about terms -----

  lemma FirstSlashAt(s: Text, i: nat)
    requires i <= |s| && SLASH !in s[..i] && (i < |s| ==> s[i] == SLASH)
    ensures FirstSlash(s) == i
  {
    var j := FirstSlash(s);
    forall k | 0 <= k < j ensures s[k] != SLASH { assert s[k] == s[..j][k]; }
    forall k | 0 <= k < i ensures s[k] != SLASH { assert s[k] == s[..i][k]; }
  }

  lemma SplitTerm(t: Text, s: Text)
    requires SLASH !in t
    ensures Split(t + [SLASH] + s) == [t] + Split(s)
  {
    var u := t + [SLASH] + s;
    assert u[..|t|] == t && u[|t| + 1..] == s;
    FirstSlashAt(u, |t|);
  }

  lemma SplitLast(t: Text)
    requires SLASH !in t
    ensures Split(t) == [t]
  {
    assert t[..|t|] == t;
    FirstSlashAt(t, |t|);
  }

  /** An ordinary term. */
  predicate Plain(t: Text) {
    t != [] && t[0] != DOT && SLASH !in t
  }

  predicate AllPlain(ts: seq<Text>) {
    forall i :: 0 <= i < |ts| ==> Plain(ts[i])
  }

  predicate NoSlashes(ts: seq<Text>) {
    forall i :: 0 <= i < |ts| ==> SLASH !in ts[i]
  }

  lemma {:induction false} SplitNoSlashes(s: Text)
    ensures NoSlashes(Split(s))
    decreases |s|
  {
    var i := FirstSlash(s);
    if i < |s| { SplitNoSlashes(s[i + 1..]); } else { assert s[..i] == s; }
  }

  lemma {:induction false} WalkPlain(ts: seq<Text>, stack: seq<Text>)
    requires ts != [] && NoSlashes(ts) && AllPlain(stack)
    ensures Walk(ts, stack).Some? ==> AllPlain(Walk(ts, stack).value)
    decreases |ts|
  {
    var t := ts[0];
    if |ts| > 1 {
      if t == [] || t == [DOT] {
        WalkPlain(ts[1..], stack);
      } else if t == [DOT, DOT] {
        if stack != [] { WalkPlain(ts[1..], stack[..|stack| - 1]); }
      } else if t[0] != DOT {
        WalkPlain(ts[1..], stack + [t]);
      }
    }
  }

  /** Walking over ordinary terms only collects them. */
  lemma {:induction false} WalkOver(a: seq<Text>, b: seq<Text>, stack: seq<Text>)
    requires AllPlain(a) && b != []
    ensures Walk(a + b, stack) == Walk(b, stack + a)
    decreases |a|
  {
    if a == [] {
      Identity(b);
      Identity(stack);
    } else {
      HeadTail(a, b);
      WalkOver(a[1..], b, stack + [a[0]]);
      Cons(a);
      Assoc(stack, [a[0]], a[1..]);
    }
  }

  lemma {:induction false} SplitSlashed(ts: seq<Text>, s: Text)
    requires AllPlain(ts)
    ensures Split(Slashed(ts) + s) == ts + Split(s)
    decreases |ts|
  {
    if ts == [] {
      Identity(s);
      Identity(Split(s));
    } else {
      var a, t := ts[..|ts| - 1], ts[|ts| - 1];
      Assoc(Slashed(a), t + [SLASH], s);
      SplitSlashed(a, t + [SLASH] + s);
      SplitTerm(t, s);
      Assoc(a, [t], Split(s));
      assert a + [t] == ts;
    }
  }

  lemma SplitJoin(ts: seq<Text>)
    requires AllPlain(ts) && ts != []
    ensures Split(Join(ts)) == ts
  {
    var a, t := ts[..|ts| - 1], ts[|ts| - 1];
    SplitSlashed(a, t);
    SplitLast(t);
    assert a + [t] == ts;
  }

  lemma {:induction false} JoinStart(ts: seq<Text>)
    requires AllPlain(ts) && ts != []
    ensures Join(ts) != [] && Join(ts)[0] != SLASH && Join(ts)[0] != DOT
  {
    if |ts| == 1 {
      assert ts[..0] == [];
    } else {
      SlashedStart(ts[..|ts| - 1]);
    }
  }

  lemma {:induction false} SlashedStart(ts: seq<Text>)
    requires AllPlain(ts) && ts != []
    ensures Slashed(ts) != [] && Slashed(ts)[0] != SLASH && Slashed(ts)[0] != DOT
    decreases |ts|
  {
    if |ts| > 1 { SlashedStart(ts[..|ts| - 1]); }
  }

  /** A path of ordinary terms resolves to itself. */
  lemma JoinResolves(ts: seq<Text>)
    requires AllPlain(ts) && ts != []
    ensures Resolve(Join(ts)) == Some(Join(ts))
  {
    JoinStart(ts);
    SplitJoin(ts);
    var a, t := ts[..|ts| - 1], ts[|ts| - 1];
    assert a + [t] == ts;
    WalkOver(a, [t], []);
    Identity(a);
  }

  /** Resolution is idempotent. */
  lemma Idempotent(s: Text)
    requires Resolve(s).Some?
    ensures Resolve(Resolve(s).value) == Resolve(s) && Resolve(s).value != [] && Resolve(s).value[0] != DOT
  {
    SplitNoSlashes(s);
    WalkPlain(Split(s), []);
    var ts := Walk(Split(s), []).value;
    JoinResolves(ts);
    JoinStart(ts);
  }

  /** The text of the terms on the stack and of those to come never grows. */
  lemma {:induction false} WalkLength(s: Text, stack: seq<Text>)
    ensures var r := Walk(Split(s), stack); r.Some? ==> |Join(r.value)| <= |Slashed(stack)| + |s|
    decreases |s|
  {
    hide Slashed, Join;
    var i := FirstSlash(s);
    if i == |s| {
      JoinSnoc(stack, s);
    } else {
      var t, rest := s[..i], s[i + 1..];
      HeadTail([t], Split(rest));
      Identity(Split(rest));
      if t == [] || t == [DOT] {
        WalkLength(rest, stack);
      } else if t == [DOT, DOT] {
        if stack != [] {
          WalkLength(rest, stack[..|stack| - 1]);
          SlashedShrinks(stack);
        }
      } else if t[0] != DOT {
        WalkLength(rest, stack + [t]);
        SlashedSnoc(stack, t);
      }
    }
  }

  lemma JoinSnoc(stack: seq<Text>, t: Text)
    ensures Join(stack + [t]) == Slashed(stack) + t
  {
    assert (stack + [t])[..|stack|] == stack;
  }

  lemma SlashedShrinks(stack: seq<Text>)
    requires stack != []
    ensures |Slashed(stack[..|stack| - 1])| <= |Slashed(stack)|
  {}

  /** An id that require() has resolved resolves to itself, from every module. */
  lemma IdempotentId(req: Text, mod: Option<Text>, mod2: Option<Text>)
    requires ResolveId(req, mod).Some?
    ensures ResolveId(ResolveId(req, mod).value, mod2) == ResolveId(req, mod)
  {
    hide Walk, Split, Join, Slashed;
    var s := Input(req, mod).value;
    WalkLength(s, []);
    NothingYet();
    Idempotent(s);
  }

  /** A relative id is walked from the terms of the current module without the last one. */
  lemma Relative(ts: seq<Text>, req: Text)
    requires AllPlain(ts) && ts != [] && |Join(ts)| + 4 + |req| + 1 < LIMIT && req != [] && req[0] == DOT
    ensures var r := Walk(Split(req), ts[..|ts| - 1]);
            ResolveId(req, Some(Join(ts))) == if r.None? then None else Some(Join(r.value))
  {
    hide Walk, Split;
    var up: Text := [DOT, DOT];
    var s := Join(ts) + [SLASH, DOT, DOT, SLASH] + req;
    assert [SLASH, DOT, DOT, SLASH] == [SLASH] + up + [SLASH];
    JoinSlashed(ts);
    assert s == Slashed(ts) + (up + [SLASH] + req);
    JoinStart(ts);
    SplitSlashed(ts, up + [SLASH] + req);
    SplitTerm(up, req);
    WalkOver(ts, [up] + Split(req), []);
    Identity(ts);
    WalkUp(Split(req), ts);
  }

  /** An id that is not relative does not depend on the current module; a relative one without it is taken from the root. */
  lemma FromRoot(req: Text, mod: Option<Text>, t: Text)
    ensures req == [] || req[0] != DOT ==> ResolveId(req, mod) == ResolveId(req, None)
    ensures Plain(t) && req != [] && req[0] == DOT && |t| + 4 + |req| + 1 < LIMIT ==> ResolveId(req, Some(t)) == ResolveId(req, None)
  {
    hide Walk, Split, Join;
    if Plain(t) && req != [] && req[0] == DOT && |t| + 4 + |req| + 1 < LIMIT {
      OneTerm(t);
      Relative([t], req);
      assert [t][..0] == [];
    }
  }

  lemma OneTerm(t: Text)
    ensures Join([t]) == t
  {
    assert [t][..0] == [];
    Identity(t);
  }

  /** Laws of the terms: '.' and empty terms vanish, '..' takes the term before it away. */
  lemma TermLaws(a: seq<Text>, t: Text, b: seq<Text>)
    requires AllPlain(a) && Plain(t) && b != []
    ensures Walk(a + [[0x2e]] + b, []) == Walk(a + [[]] + b, []) == Walk(a + [t, [0x2e, 0x2e]] + b, []) == Walk(a + b, [])
    ensures Walk([[0x2e, 0x2e]] + b, []) == None
  {
    hide Plain;
    Identity(a);
    WalkOver(a, b, []);
    Assoc(a, [[DOT]], b);
    WalkOver(a, [[DOT]] + b, []);
    Assoc(a, [[]], b);
    WalkOver(a, [[]] + b, []);
    var c := a + [t];
    assert a + [t, [DOT, DOT]] + b == c + ([[DOT, DOT]] + b);
    Identity(c);
    WalkOver(c, [[DOT, DOT]] + b, []);
    WalkUp(b, c);
    assert c[..|c| - 1] == a;
    Skipped(b, a);
    NoParent(b);
  }

  lemma Skipped(b: seq<Text>, stack: seq<Text>)
    requires b != []
    ensures Walk([[DOT]] + b, stack) == Walk([[]] + b, stack) == Walk(b, stack)
  {
    HeadTail([[DOT]], b);
    HeadTail<Text>([[]], b);
    Identity(b);
  }

  lemma NoParent(b: seq<Text>)
    requires b != []
    ensures Walk([[DOT, DOT]] + b, []) == None
  {
    HeadTail([[DOT, DOT]], b);
  }

  /** Other terms that begin with a period are errors, and so is a last term that is empty or begins with one. */
  lemma BadTerms(a: seq<Text>, t: Text, b: seq<Text>)
    requires AllPlain(a)
    ensures t == [] || t[0] == 0x2e ==> Walk(a + [t], []) == None
    ensures b != [] && t != [] && t[0] == 0x2e && t != [0x2e] && t != [0x2e, 0x2e] ==> Walk(a + [t] + b, []) == None
  {
    WalkOver(a, [t], []);
    if b != [] {
      Assoc(a, [t], b);
      WalkOver(a, [t] + b, []);
      HeadTail([t], b);
    }
  }

  lemma WalkUp(ts: seq<Text>, stack: seq<Text>)
    requires ts != [] && stack != []
    ensures Walk([[DOT, DOT]] + ts, stack) == Walk(ts, stack[..|stack| - 1])
  {
    var all := [[DOT, DOT]] + ts;
    assert all[0] == [DOT, DOT] && all[1..] == ts && |all| > 1;
  }

  lemma JoinSlashed(ts: seq<Text>)
    requires ts != []
    ensures Join(ts) + [SLASH] == Slashed(ts)
  {
    Assoc(Slashed(ts[..|ts| - 1]), ts[|ts| - 1], [SLASH]);
  }

  // ----- The resolver on bytes -----

  /** buf holds a text and its NUL. */
  ghost predicate Holds(buf: array<Byte>, s: Text)
    reads buf
  {
    |s| < buf.Length && buf[..|s|] == s && buf[|s|] == 0 && 0 !in s
  }

  lemma Follows(buf: array<Byte>, s: Text, p: nat)
    requires Holds(buf, s) && p <= |s|
    ensures p < |s| ==> buf[p] == s[p] && buf[p] != 0
    ensures p == |s| ==> buf[p] == 0
  {
    if p < |s| { assert buf[p] == buf[..|s|][p]; }
  }

  method Fill(s: Text) returns (buf: array<Byte>)
    requires |s| + 1 < LIMIT && 0 !in s
    ensures fresh(buf) && buf.Length == LIMIT && Holds(buf, s)
  {
    buf := new Byte[LIMIT](_ => 0);
    var i := 0;
    while i < |s|
      invariant 0 <= i <= |s| && buf[..i] == s[..i]
    {
      buf[i] := s[i];
      i := i + 1;
    }
    buf[i] := 0;
    assert buf[..|s|] == s[..|s|] == s;
  }

  /** Skips slashes before the next term. */
  method EatSlashes(buf: array<Byte>, p: nat, ghost s: Text, ghost stack: seq<Text>) returns (q: nat)
    requires Holds(buf, s) && p <= |s|
    ensures p <= q <= |s| && (q < |s| ==> s[q] != SLASH)
    ensures Walk(Split(s[q..]), stack) == Walk(Split(s[p..]), stack)
  {
    hide Walk, Split;
    q := p;
    while true
      invariant p <= q <= |s| && Walk(Split(s[q..]), stack) == Walk(Split(s[p..]), stack)
      decreases |s| - q
    {
      Follows(buf, s, q);
      if buf[q] != SLASH { break; }
      SkipSlash(s, q, stack);
      q := q + 1;
    }
  }

  lemma SkipSlash(s: Text, p: nat, stack: seq<Text>)
    requires p < |s| && s[p] == SLASH
    ensures Walk(Split(s[p..]), stack) == Walk(Split(s[p + 1..]), stack)
  {
    assert s[p..] == [] + [SLASH] + s[p + 1..];
    SplitTerm([], s[p + 1..]);
    WalkSkip([], Split(s[p + 1..]), stack);
  }

  lemma WalkSkip(t: Text, ts: seq<Text>, stack: seq<Text>)
    requires ts != [] && (t == [] || t == [DOT])
    ensures Walk([t] + ts, stack) == Walk(ts, stack)
  {
    var all := [t] + ts;
    assert all[0] == t && all[1..] == ts && |all| > 1;
  }

  /** Back to the slash before the last term, or to the start. */
  method Backtrack(out: array<Byte>, q0: nat, ghost stack: seq<Text>) returns (q: nat)
    requires 0 < q0 <= out.Length && out[..q0] == Slashed(stack) && stack != [] && AllPlain(stack)
    ensures q < q0 && out[..q] == Slashed(stack[..|stack| - 1])
  {
    ghost var a, t := Slashed(stack[..|stack| - 1]), stack[|stack| - 1];
    assert out[..q0] == a + (t + [SLASH]);
    BeforeTerm(stack[..|stack| - 1]);
    forall k | |a| <= k < q0 - 1 ensures out[k] != SLASH {
      assert out[k] == out[..q0][k] == t[k - |a|];
      assert t[k - |a|] in t;
    }
    assert |a| > 0 ==> out[|a| - 1] == out[..q0][|a| - 1] == SLASH;
    q := q0 - 1;
    while q > 0 && out[q - 1] != SLASH
      invariant |a| <= q < q0
    {
      q := q - 1;
    }
    assert out[..q] == out[..q0][..q] == a;
  }

  /** What comes before a term is empty or ends with a slash. */
  lemma BeforeTerm(ts: seq<Text>)
    ensures var a := Slashed(ts); a == [] || a[|a| - 1] == SLASH
  {}

  /** The term of s from p to e. */
  predicate TermAt(s: Text, p: nat, e: nat) {
    p < e <= |s| && SLASH !in s[p..e] && (e < |s| ==> s[e] == SLASH)
  }

  /** Copies a term and its slash; at the end of the input there is no slash. */
  method CopyTerm(buf: array<Byte>, p: nat, out: array<Byte>, q0: nat, ghost s: Text) returns (e: nat, q: nat)
    requires buf != out && Holds(buf, s) && p < |s| && s[p] != SLASH && q0 <= p && out.Length == buf.Length
    modifies out
    ensures TermAt(s, p, e) && q <= e + 1 <= out.Length && (e == |s| ==> q <= e)
    ensures out[..q] == old(out[..q0]) + (s[p..e] + if e == |s| then [] else [SLASH])
  {
    ghost var head := out[..q0];
    e, q := p, q0;
    while true
      invariant p <= e < |s| && q == q0 + (e - p) && s[e] != SLASH && SLASH !in s[p..e]
      invariant out[..q] == head + s[p..e]
      decreases |s| - e
    {
      Follows(buf, s, e);
      Follows(buf, s, e + 1);
      OneMore(s, p, e);
      Assoc(head, s[p..e], [s[e]]);
      out[q] := buf[e];
      assert out[..q + 1] == out[..q] + [s[e]];
      q := q + 1;
      e := e + 1;
      if buf[e] == 0 {
        Identity(s[p..e]);
        return;
      } else if buf[e] == SLASH {
        out[q] := SLASH;
        assert out[..q + 1] == out[..q] + [SLASH];
        Assoc(head, s[p..e], [SLASH]);
        q := q + 1;
        return;
      }
    }
  }

  lemma OneMore(s: Text, p: nat, e: nat)
    requires p <= e < |s|
    ensures s[p..e + 1] == s[p..e] + [s[e]]
  {}

  /** A term that is not the last one. */
  lemma SplitAt(s: Text, p: nat, e: nat)
    requires p <= e < |s| && SLASH !in s[p..e] && s[e] == SLASH
    ensures Split(s[p..]) == [s[p..e]] + Split(s[e + 1..])
  {
    assert s[p..] == s[p..e] + [SLASH] + s[e + 1..];
    SplitTerm(s[p..e], s[e + 1..]);
  }

  method ResolveBytes(req: Text, mod: Option<Text>) returns (r: Option<Text>)
    requires 0 !in req && (mod.Some? ==> 0 !in mod.value)
    ensures r == ResolveId(req, mod)
    ensures r.Some? ==> |r.value| <= |Input(req, mod).value|
  {
    hide Walk, Split, Resolve;
    var text := Input(req, mod);
    if text.None? { return None; }
    var s := text.value;
    var buf := Fill(s);
    var out := new Byte[LIMIT](_ => 0);
    r := Loop(buf, out, s);
  }

  /** What the resolver has at the start of each term. */
  ghost predicate Progress(out: array<Byte>, s: Text, p: nat, q: nat, stack: seq<Text>)
    reads out
  {
    && q <= p <= |s| && q <= out.Length && AllPlain(stack) && out[..q] == Slashed(stack)
    && (p == 0 ==> stack == []) && (p > 0 ==> s[0] != SLASH && (p < |s| ==> s[p] != SLASH))
    && Walk(Split(s[p..]), stack) == Walk(Split(s), [])
  }

  method Loop(buf: array<Byte>, out: array<Byte>, ghost s: Text) returns (r: Option<Text>)
    requires Holds(buf, s) && buf != out && out.Length == buf.Length
    modifies out
    ensures r == Resolve(s) && (r.Some? ==> |r.value| <= |s|)
  {
    hide Walk, Split, Slashed, Join;
    var p, q := 0, 0;
    ghost var stack: seq<Text> := [];
    assert s[0..] == s && out[..0] == [];
    NothingYet();
    while true
      invariant 0 <= p && 0 <= q && Progress(out, s, p, q, stack)
      decreases |s| - p
    {
      Follows(buf, s, p);
      if buf[p] == 0 {
        EmptyEnd(s, stack);
        return None;
      } else if buf[p] == DOT {
        var ok;
        ok, p, q, stack := DotTerm(buf, p, out, q, s, stack);
        if !ok { return None; }
      } else if buf[p] == SLASH {
        return None;
      } else {
        var e;
        e, q := CopyTerm(buf, p, out, q, s);
        PlainTerm(s, p, e, stack);
        if buf[e] == 0 {
          Follows(buf, s, e);
          LastTerm(s, p, stack);
          Identity(s[p..e]);
          return Some(out[..q]);
        }
        Follows(buf, s, e);
        SlashedSnoc(stack, s[p..e]);
        stack := stack + [s[p..e]];
        p := EatSlashes(buf, e + 1, s, stack);
      }
    }
  }

  lemma PlainTerm(s: Text, p: nat, e: nat, stack: seq<Text>)
    requires TermAt(s, p, e) && s[p] != DOT && AllPlain(stack)
    ensures AllPlain(stack + [s[p..e]])
    ensures e < |s| ==> Walk(Split(s[p..]), stack) == Walk(Split(s[e + 1..]), stack + [s[p..e]])
  {
    var t := s[p..e];
    assert t[0] == s[p];
    if e < |s| {
      SplitAt(s, p, e);
      assert AllPlain([t]);
      WalkOver([t], Split(s[e + 1..]), stack);
    }
  }

  lemma LastTerm(s: Text, p: nat, stack: seq<Text>)
    requires TermAt(s, p, |s|) && s[p] != DOT
    ensures Walk(Split(s[p..]), stack) == Some(stack + [s[p..]]) && Join(stack + [s[p..]]) == Slashed(stack) + s[p..]
    ensures s[p..|s|] == s[p..]
  {
    var t := s[p..];
    assert t == s[p..|s|] && t[0] == s[p];
    SplitLast(t);
    JoinSnoc(stack, t);
  }

  lemma SlashedSnoc(stack: seq<Text>, t: Text)
    ensures Slashed(stack + [t]) == Slashed(stack) + (t + [SLASH])
  {
    assert (stack + [t])[..|stack|] == stack;
  }

  lemma NothingYet()
    ensures Slashed([]) == []
  {}

  /** An id that ends with a slash, or is empty. */
  lemma EmptyEnd(s: Text, stack: seq<Text>)
    ensures Walk(Split(s[|s|..]), stack) == None
  {
    assert s[|s|..] == [];
    SplitLast([]);
  }

  method DotTerm(buf: array<Byte>, p0: nat, out: array<Byte>, q0: nat, ghost s: Text, ghost stack0: seq<Text>)
    returns (ok: bool, p: nat, q: nat, ghost stack: seq<Text>)
    requires Holds(buf, s) && Progress(out, s, p0, q0, stack0) && p0 < |s| && s[p0] == DOT
    ensures ok ==> p > p0 && Progress(out, s, p, q, stack)
    ensures !ok ==> Walk(Split(s), []) == None
  {
    hide Walk, Split, Slashed;
    p, q, stack := p0, q0, stack0;
    Follows(buf, s, p + 1);
    if buf[p + 1] == SLASH {
      assert s[p..p + 1] == [DOT];
      SplitAt(s, p, p + 1);
      WalkSkip([DOT], Split(s[p + 2..]), stack);
      p := EatSlashes(buf, p + 2, s, stack);
      ok := true;
    } else if buf[p + 1] == DOT && buf[p + 2] == SLASH {
      Follows(buf, s, p + 2);
      assert s[p..p + 2] == [DOT, DOT];
      SplitAt(s, p, p + 2);
      if q == 0 {
        NoTerms(stack);
        CannotGoUp(Split(s[p + 3..]));
        return false, p, q, stack;
      }
      SomeTerms(stack);
      WalkUp(Split(s[p + 3..]), stack);
      q := Backtrack(out, q, stack);
      stack := stack[..|stack| - 1];
      p := EatSlashes(buf, p + 3, s, stack);
      ok := true;
    } else {
      BadDot(s, p, stack);
      ok := false;
    }
  }

  lemma NoTerms(stack: seq<Text>)
    requires Slashed(stack) == []
    ensures stack == []
  {}

  lemma SomeTerms(stack: seq<Text>)
    requires Slashed(stack) != []
    ensures stack != []
  {}

  lemma CannotGoUp(ts: seq<Text>)
    requires ts != []
    ensures Walk([[DOT, DOT]] + ts, []) == None
  {
    var all := [[DOT, DOT]] + ts;
    assert all[0] == [DOT, DOT] && |all| > 1;
  }

  /** A term that begins with a period but is neither '.' nor '..', or is one of them at the end. */
  lemma BadDot(s: Text, p: nat, stack: seq<Text>)
    requires p < |s| && s[p] == DOT
    requires !(p + 1 < |s| && s[p + 1] == SLASH) && !(p + 2 < |s| && s[p + 1] == DOT && s[p + 2] == SLASH)
    ensures Walk(Split(s[p..]), stack) == None
  {
    var u := s[p..];
    var n := FirstSlash(u);
    assert u[0] == DOT && forall k :: 0 <= k < |u| ==> u[k] == s[p + k];
    if n < |u| {
      assert u[n] == SLASH && n > 0;
      var t := u[..n];
      assert t[0] == DOT && t != [];
      assert t != [DOT] && t != [DOT, DOT];
      assert Split(u) == [t] + Split(u[n + 1..]);
    }
  }
}
