/** JSON.stringify() of duk_bi_json.c: the slow printer, the fast printer and the cycle detector they share. */
module JsonEncoder {
  import opened Bytes
  import opened Seqs
  import opened JsonTree
  import opened JsonPrint
  import opened JsonHeap
  import JsonInjective
  import JsonParse

  const LOOPARRAY: nat := 64  // DUK_JSON_ENC_LOOPARRAY

  datatype Outcome = Done | Thrown(error: Error)
  datatype FastOutcome = Emitted | Nothing | Aborted(error: Error)

  predicate Distinct(path: seq<Id>) {
    forall i, j :: 0 <= i < j < |path| ==> path[i] != path[j]
  }

  function Overflow(path: seq<Id>): set<Id> {
    set i | LOOPARRAY <= i < |path| :: path[i]
  }

  // ----- Items and members as far as they have been printed -----

  function Printed(items: seq<Json>, gap: Text, depth: nat): (r: Text) {
    if items == [] then [] else PrintItem(items[0], gap, depth) + PrintItems(items[1..], gap, depth)
  }

  function PrintedMembers(ms: seq<Member>, gap: Text, depth: nat): (r: Text) {
    if ms == [] then [] else PrintMember(ms[0], gap, depth) + PrintMembers(ms[1..], gap, depth)
  }

  function Separator(first: bool): Text {
    if first then [] else [COMMA]
  }

  lemma {:induction false} ItemsSnoc(items: seq<Json>, v: Json, gap: Text, depth: nat)
    ensures PrintItems(items + [v], gap, depth) == PrintItems(items, gap, depth) + [COMMA] + PrintItem(v, gap, depth)
    decreases |items|
  {
    hide PrintItem;
    if items == [] {
      assert items + [v] == [v] && [v][1..] == [];
      assert PrintItems([v], gap, depth) == [COMMA] + PrintItem(v, gap, depth) + [];
    } else {
      var x, rest := PrintItem(items[0], gap, depth), PrintItems(items[1..], gap, depth);
      HeadTail(items, [v]);
      ItemsSnoc(items[1..], v, gap, depth);
      PrintItemsStep(items, gap, depth);
      PrintItemsStep(items + [v], gap, depth);
      hide PrintItems;
      AssocThree([COMMA] + x, rest, [COMMA], PrintItem(v, gap, depth));
    }
  }

  lemma AssocThree(a: Text, b: Text, c: Text, d: Text)
    ensures a + (b + c + d) == a + b + c + d
  {}

  lemma {:induction false} PrintedSnoc(items: seq<Json>, v: Json, gap: Text, depth: nat)
    ensures Printed(items + [v], gap, depth)
            == Printed(items, gap, depth) + Separator(items == []) + Break(gap, depth) + Print(v, gap, depth)
  {
    hide Print, Break, PrintItems;
    if items == [] {
      assert items + [v] == [v] && [v][1..] == [];
      NoItemsLeft(gap, depth);
      Identity(PrintItem(v, gap, depth));
    } else {
      HeadTail(items, [v]);
      ItemsSnoc(items[1..], v, gap, depth);
      SnocText(PrintItem(items[0], gap, depth), PrintItems(items[1..], gap, depth), Break(gap, depth), Print(v, gap, depth));
    }
  }

  lemma SnocText(a: Text, b: Text, c: Text, d: Text)
    ensures a + (b + [COMMA] + (c + d)) == a + b + [COMMA] + c + d
  {}

  lemma {:induction false} MembersSnoc(ms: seq<Member>, m: Member, gap: Text, depth: nat)
    ensures PrintMembers(ms + [m], gap, depth) == PrintMembers(ms, gap, depth) + [COMMA] + PrintMember(m, gap, depth)
    decreases |ms|
  {
    hide PrintMember;
    if ms == [] {
      assert ms + [m] == [m] && [m][1..] == [];
      assert PrintMembers([m], gap, depth) == [COMMA] + PrintMember(m, gap, depth) + [];
    } else {
      var x, rest := PrintMember(ms[0], gap, depth), PrintMembers(ms[1..], gap, depth);
      HeadTail(ms, [m]);
      MembersSnoc(ms[1..], m, gap, depth);
      PrintMembersStep(ms, gap, depth);
      PrintMembersStep(ms + [m], gap, depth);
      hide PrintMembers;
      AssocThree([COMMA] + x, rest, [COMMA], PrintMember(m, gap, depth));
    }
  }

  lemma {:induction false} PrintedMembersSnoc(ms: seq<Member>, m: Member, gap: Text, depth: nat)
    ensures PrintedMembers(ms + [m], gap, depth)
            == PrintedMembers(ms, gap, depth) + Separator(ms == []) + PrintMember(m, gap, depth)
  {
    hide PrintMember, PrintMembers;
    if ms == [] {
      assert ms + [m] == [m] && [m][1..] == [];
      NoMembersLeft(gap, depth);
      Identity(PrintMember(m, gap, depth));
    } else {
      HeadTail(ms, [m]);
      MembersSnoc(ms[1..], m, gap, depth);
      AssocThree(PrintMember(ms[0], gap, depth), PrintMembers(ms[1..], gap, depth), [COMMA], PrintMember(m, gap, depth));
    }
  }

  lemma {:induction false} ArrayText(items: seq<Json>, gap: Text, depth: nat)
    ensures Print(Arr(items), gap, depth)
            == [LBRACKET] + Printed(items, gap, depth + 1) + (if items == [] then [] else Break(gap, depth)) + [RBRACKET]
  {
    hide PrintItem, PrintItems, Break;
    if items != [] { Assoc([LBRACKET], PrintItem(items[0], gap, depth + 1), PrintItems(items[1..], gap, depth + 1)); }
  }

  lemma {:induction false} ObjectText(ms: seq<Member>, gap: Text, depth: nat)
    ensures Print(Obj(ms), gap, depth)
            == [LCURLY] + PrintedMembers(ms, gap, depth + 1) + (if ms == [] then [] else Break(gap, depth)) + [RCURLY]
  {
    hide PrintMember, PrintMembers, Break;
    if ms != [] { Assoc([LCURLY], PrintMember(ms[0], gap, depth + 1), PrintMembers(ms[1..], gap, depth + 1)); }
  }

  // ----- Walking the slots of an array and the properties of an object -----

  /** The JSON value at one array slot: never absent. */
  function SlotTree(heap: Heap, slot: Slot, path: seq<Id>, limit: nat, fast: bool): (r: Projection)
    requires |path| <= limit
    ensures !r.Absent?
  {
    var v := if slot.Hole? then Absent else Project(heap, slot.v, path, limit, fast);
    if v.Absent? then Tree(Null) else v
  }

  function MemberTree(heap: Heap, p: Prop, path: seq<Id>, limit: nat, fast: bool): Projection
    requires |path| <= limit
  {
    if Listed(p) then Project(heap, p.value, path, limit, fast) else Absent
  }

  function Joined(done: seq<Json>, rest: Items): Items {
    if rest.BadItems? then rest else Items(done + rest.items)
  }

  function JoinedMembers(done: seq<Member>, rest: Members): Members {
    if rest.BadMembers? then rest else Members(done + rest.members)
  }

  lemma {:induction false} ItemsAdvance(heap: Heap, slots: seq<Slot>, i: nat, done: seq<Json>, path: seq<Id>, limit: nat, fast: bool)
    requires |path| <= limit && i < |slots|
    ensures var x, rest := SlotTree(heap, slots[i], path, limit, fast), ProjectItems(heap, slots[i..], path, limit, fast);
            && (x.Bad? ==> Joined(done, rest) == BadItems(x.error))
            && (x.Tree? ==> Joined(done, rest) == Joined(done + [x.tree], ProjectItems(heap, slots[i + 1..], path, limit, fast)))
  {
    hide Project;
    var x, rest := SlotTree(heap, slots[i], path, limit, fast), ProjectItems(heap, slots[i + 1..], path, limit, fast);
    DropDrop(slots, i, 1);
    if x.Tree? && rest.Items? { Assoc(done, [x.tree], rest.items); }
  }

  lemma {:induction false} MembersAdvance(heap: Heap, props: seq<Prop>, i: nat, done: seq<Member>, path: seq<Id>, limit: nat, fast: bool)
    requires |path| <= limit && i < |props|
    ensures var x, rest := MemberTree(heap, props[i], path, limit, fast), ProjectMembers(heap, props[i..], path, limit, fast);
            var next := ProjectMembers(heap, props[i + 1..], path, limit, fast);
            && (x.Bad? ==> JoinedMembers(done, rest) == BadMembers(x.error))
            && (x.Absent? ==> JoinedMembers(done, rest) == JoinedMembers(done, next))
            && (x.Tree? ==> JoinedMembers(done, rest) == JoinedMembers(done + [Member(props[i].key, x.tree)], next))
  {
    hide Project;
    var x, rest := MemberTree(heap, props[i], path, limit, fast), ProjectMembers(heap, props[i + 1..], path, limit, fast);
    DropDrop(props, i, 1);
    if x.Tree? && rest.Members? { Assoc(done, [Member(props[i].key, x.tree)], rest.members); }
  }

  // ----- Indentation and strings -----

  lemma {:induction false} RepeatAdd(gap: Text, m: nat, n: nat)
    ensures Repeat(gap, m) + Repeat(gap, n) == Repeat(gap, m + n)
    decreases m
  {
    if m == 0 {
      Identity(Repeat(gap, n));
    } else {
      RepeatAdd(gap, m - 1, n);
      Assoc(gap, Repeat(gap, m - 1), Repeat(gap, n));
    }
  }

  lemma {:induction false} RepeatPrefix(gap: Text, m: nat, n: nat)
    requires m <= n
    ensures m * |gap| <= |Repeat(gap, n)| && Repeat(gap, n)[..m * |gap|] == Repeat(gap, m)
  {
    RepeatAdd(gap, m, n - m);
    hide Repeat;
    AppendSplit(Repeat(gap, m), Repeat(gap, n - m));
  }

  lemma {:induction false} QuoteStep(s: Text, p: nat)
    requires p < |s|
    ensures s[p] < 0x7f ==> QuoteBody(s[p..]) == QuoteAscii(s[p]) + QuoteBody(s[p + 1..])
    ensures s[p] >= 0x7f ==> var c := Codepoint(s[p..]); QuoteBody(s[p..]) == QuoteWide(c.0) + QuoteBody(s[p + c.1..])
  {
    DropDrop(s, p, 1);
    DropDrop(s, p, Codepoint(s[p..]).1);
  }

  lemma QuoteAll(s: Text)
    ensures s[0..] == s
  {}

  lemma QuoteDone(s: Text, p: nat, t: Text)
    requires p == |s|
    ensures t + QuoteBody(s[p..]) == t
  {}

  lemma BreakText(gap: Text, d: nat)
    requires gap != []
    ensures Break(gap, d) == [0x0a] + Repeat(gap, d) && (d == 0 ==> Break(gap, d) == [0x0a])
  {}

  lemma RepeatOne(gap: Text)
    ensures Repeat(gap, 1) == gap
  {
    assert Repeat(gap, 1) == gap + Repeat(gap, 0);
  }

  /** A product that proofs do not look into. */
  function Times(n: int, g: int): int {
    n * g
  }

  lemma Doubled(head: Text, gap: Text, k: nat, m: nat)
    requires m <= k
    ensures var all := head + Repeat(gap, k); var end := |head| + Times(m, |gap|);
            |head| <= end <= |all| && all + all[|head|..end] == head + Repeat(gap, k + m)
  {
    RepeatPrefix(gap, m, k);
    RepeatAdd(gap, k, m);
    hide Repeat;
    Assoc(head, Repeat(gap, k), Repeat(gap, m));
    AppendSplit(head, Repeat(gap, k));
    DropTake(head + Repeat(gap, k), |head|, Times(m, |gap|));
  }

  lemma MoreCopies(k: nat, d: nat, g: nat)
    requires k <= d && g > 0
    ensures Times(d - k, g) >= Times(k, g) <==> d - k >= k
    ensures Times(d - k, g) - Times(k, g) == Times(d - 2 * k, g) && 2 * Times(k, g) == Times(2 * k, g)
    ensures k >= 1 ==> Times(k, g) > 0
  {
    if d - k >= k {
      assert (d - k) * g == k * g + (d - 2 * k) * g;
    } else {
      assert k * g == (d - k) * g + (2 * k - d) * g;
    }
  }

  lemma OneCopy(d: nat, g: nat)
    ensures g * d - g == Times(d - 1, g) && g == Times(1, g)
  {}

  lemma OverflowSnoc(path: seq<Id>, h: Id)
    ensures Overflow(path + [h]) == Overflow(path) + if |path| >= LOOPARRAY then {h} else {}
    ensures Distinct(path + [h]) <==> Distinct(path) && h !in path
    ensures h !in path ==> h !in Overflow(path)
  {
    var all := path + [h];
    assert forall i :: 0 <= i < |path| ==> all[i] == path[i];
    assert all[|path|] == h;
    forall x | x in Overflow(path) ensures x in Overflow(all) {
      var i :| LOOPARRAY <= i < |path| && path[i] == x;
      assert all[i] == x;
    }
  }

  // ----- The value that step 1 to 4 of Str() leaves -----

  datatype Unboxing = Omit | Keep(v: Val) | Throw(error: Error)

  /** duk__enc_value1: left out, unboxed, or an error of the coercion. */
  function Unboxed(heap: Heap, v: Val): (r: Unboxing)
    ensures r.Keep? ==> Serialisable(heap, r.v)
  {
    match v
    case NullVal => Keep(v)
    case P(_) => Keep(v)
    case Ref(id) =>
      (match heap(id)
       case ArrayObj(_, _) => Keep(v)
       case PlainObj(_, _) => Keep(v)
       case BoxedObj(inner, coerced) =>
         if inner.PBool? then Keep(P(inner)) else if coerced.Some? then Keep(P(coerced.value)) else Throw(CoercionThrows)
       case BufferObj(detached) => if detached then Keep(NullVal) else Omit
       case _ => Omit)
    case _ => Omit
  }

  predicate Serialisable(heap: Heap, v: Val) {
    v.NullVal? || v.P? || (v.Ref? && (heap(v.id).ArrayObj? || heap(v.id).PlainObj?))
  }

  lemma UnboxedProject(heap: Heap, v: Val, path: seq<Id>, limit: nat)
    requires |path| <= limit
    ensures var p, u := Project(heap, v, path, limit, false), Unboxed(heap, v);
            && (u.Omit? ==> p == Absent)
            && (u.Throw? ==> p == Bad(u.error))
            && (u.Keep? ==> p == Project(heap, u.v, path, limit, false) != Absent)
  {}

  // ----- Steps of the array and object loops -----

  lemma PrintNull(gap: Text, depth: nat)
    ensures Print(Null, gap, depth) == NULL
  {}

  lemma StartItems(heap: Heap, slots: seq<Slot>, path: seq<Id>, limit: nat, head: Text, gap: Text, depth: nat, fast: bool)
    requires |path| <= limit
    ensures head == head + Printed([], gap, depth)
    ensures var a := ProjectItems(heap, slots, path, limit, fast); slots[0..] == slots && a == Joined([], a)
  {
    hide ProjectItems;
    var a := ProjectItems(heap, slots, path, limit, fast);
    if a.Items? { Identity(a.items); }
  }

  lemma EndItems(heap: Heap, slots: seq<Slot>, done: seq<Json>, path: seq<Id>, limit: nat, fast: bool)
    requires |path| <= limit
    ensures Joined(done, ProjectItems(heap, slots[|slots|..], path, limit, fast)) == Items(done)
  {
    assert slots[|slots|..] == [];
    Identity(done);
  }

  lemma AppendItem(head: Text, done: seq<Json>, x: Json, gap: Text, depth: nat)
    ensures head + Printed(done, gap, depth) + Separator(done == []) + Break(gap, depth) + Print(x, gap, depth)
            == head + Printed(done + [x], gap, depth)
  {
    PrintedSnoc(done, x, gap, depth);
    hide Printed, Break, Print, Separator;
    AssocFour(head, Printed(done, gap, depth), Separator(done == []), Break(gap, depth), Print(x, gap, depth));
  }

  lemma AssocFour(h: Text, a: Text, b: Text, c: Text, d: Text)
    ensures h + a + b + c + d == h + (a + b + c + d)
  {}

  lemma CloseArray(before: Text, done: seq<Json>, gap: Text, depth: nat)
    ensures before + [LBRACKET] + Printed(done, gap, depth + 1) + (if done == [] then [] else Break(gap, depth)) + [RBRACKET]
            == before + Print(Arr(done), gap, depth)
  {
    ArrayText(done, gap, depth);
    hide Printed, Break, Print;
    AssocFour(before, [LBRACKET], Printed(done, gap, depth + 1), if done == [] then [] else Break(gap, depth), [RBRACKET]);
  }

  lemma StartMembers(heap: Heap, props: seq<Prop>, path: seq<Id>, limit: nat, head: Text, gap: Text, depth: nat, fast: bool)
    requires |path| <= limit
    ensures head == head + PrintedMembers([], gap, depth)
    ensures var o := ProjectMembers(heap, props, path, limit, fast); props[0..] == props && o == JoinedMembers([], o)
  {
    hide ProjectMembers;
    var o := ProjectMembers(heap, props, path, limit, fast);
    if o.Members? { Identity(o.members); }
  }

  lemma EndMembers(heap: Heap, props: seq<Prop>, done: seq<Member>, path: seq<Id>, limit: nat, fast: bool)
    requires |path| <= limit
    ensures JoinedMembers(done, ProjectMembers(heap, props[|props|..], path, limit, fast)) == Members(done)
  {
    assert props[|props|..] == [];
    Identity(done);
  }

  lemma MemberParts(head: Text, key: Text, v: Json, gap: Text, depth: nat)
    ensures head + Break(gap, depth) + Quote(key) + Colon(gap) + Print(v, gap, depth)
            == head + PrintMember(Member(key, v), gap, depth)
  {
    hide Break, Quote, Colon, Print;
    AssocFour(head, Break(gap, depth), Quote(key), Colon(gap), Print(v, gap, depth));
  }

  lemma AppendMember(head: Text, done: seq<Member>, m: Member, gap: Text, depth: nat)
    ensures head + PrintedMembers(done, gap, depth) + Separator(done == []) + PrintMember(m, gap, depth)
            == head + PrintedMembers(done + [m], gap, depth)
  {
    PrintedMembersSnoc(done, m, gap, depth);
    hide PrintedMembers, PrintMember, Separator;
    AssocThree(head, PrintedMembers(done, gap, depth), Separator(done == []), PrintMember(m, gap, depth));
  }

  lemma CloseObject(before: Text, done: seq<Member>, gap: Text, depth: nat)
    ensures before + [LCURLY] + PrintedMembers(done, gap, depth + 1) + (if done == [] then [] else Break(gap, depth)) + [RCURLY]
            == before + Print(Obj(done), gap, depth)
  {
    ObjectText(done, gap, depth);
    hide PrintedMembers, Break, Print;
    AssocFour(before, [LCURLY], PrintedMembers(done, gap, depth + 1), if done == [] then [] else Break(gap, depth), [RCURLY]);
  }

  lemma NoSeparator(t: Text)
    ensures t == t + Separator(true)
  {}

  // ----- The encoder -----

  class Encoder {
    const heap: Heap
    const gap: Text
    const visiting: array<Id>
    var out: Text
    var depth: nat
    var limit: nat
    var loop: set<Id>

    constructor (heap: Heap, gap: Text)
      ensures this.heap == heap && this.gap == gap && fresh(visiting)
      ensures out == [] && depth == 0 && limit == 0 && Tracks([])
    {
      this.heap, this.gap := heap, gap;
      visiting := new Id[LOOPARRAY](_ => 0);
      out, depth, limit, loop := [], 0, 0, {};
    }

    /** The open objects are exactly path: the outer ones in visiting, the inner ones in loop. */
    ghost predicate Tracks(path: seq<Id>)
      reads this, visiting
    {
      && visiting.Length == LOOPARRAY && |path| == depth <= limit && Distinct(path)
      && (forall i :: 0 <= i < |path| && i < LOOPARRAY ==> visiting[i] == path[i])
      && loop == Overflow(path)
    }

    method Enter(h: Id, ghost path: seq<Id>) returns (r: Outcome)
      requires Tracks(path)
      modifies `depth, `loop, visiting
      ensures h in path ==> r == Thrown(CyclicInput)
      ensures h !in path && |path| >= limit ==> r == Thrown(DepthLimit)
      ensures h !in path && |path| < limit ==> r == Done && Tracks(path + [h])
    {
      var n := if depth > LOOPARRAY then LOOPARRAY else depth;
      for i := 0 to n
        invariant forall k :: 0 <= k < i ==> path[k] != h
      {
        if visiting[i] == h { return Thrown(CyclicInput); }
      }
      if depth < LOOPARRAY {
        visiting[depth] := h;
      } else {
        if h in loop { return Thrown(CyclicInput); }
        loop := loop + {h};
      }
      OverflowSnoc(path, h);
      if depth >= limit { return Thrown(DepthLimit); }
      depth := depth + 1;
      return Done;
    }

    method Exit(h: Id, ghost path: seq<Id>)
      requires Tracks(path + [h])
      modifies `depth, `loop
      ensures Tracks(path)
    {
      OverflowSnoc(path, h);
      depth := depth - 1;
      if depth >= LOOPARRAY {
        loop := loop - {h};
      }
      assert forall i :: 0 <= i < |path| ==> (path + [h])[i] == path[i];
    }

    /** The indent is copied from itself, twice as much each time. */
    method NewlineIndent(d: nat)
      requires gap != []
      modifies `out
      ensures out == old(out) + Break(gap, d)
    {
      BreakText(gap, d);
      hide Times, Repeat, Break;
      out := out + [0x0a];
      if d == 0 { return; }
      var start := |out|;
      ghost var head, k := out, 1;
      out := out + gap;
      var avail := |gap|;
      var need := |gap| * d - |gap|;
      OneCopy(d, |gap|);
      RepeatOne(gap);
      while need >= avail
        invariant 1 <= k <= d && avail == Times(k, |gap|) && need == Times(d - k, |gap|)
        invariant out == head + Repeat(gap, k)
        decreases need
      {
        Doubled(head, gap, k, k);
        MoreCopies(k, d, |gap|);
        out := out + out[start..start + avail];
        need := need - avail;
        avail := 2 * avail;
        k := 2 * k;
      }
      MoreCopies(k, d, |gap|);
      Doubled(head, gap, k, d - k);
      out := out + out[start..start + need];
      Assoc(old(out), [0x0a], Repeat(gap, d));
    }

    method LineBreak(d: nat)
      modifies `out
      ensures out == old(out) + Break(gap, d)
    {
      if gap != [] { NewlineIndent(d); } else { Identity(out); }
    }

    /** In chunks of 64 bytes; a codepoint may reach past the end of its chunk. */
    method QuoteString(s: Text)
      modifies `out
      ensures out == old(out) + Quote(s)
    {
      hide QuoteBody, QuoteAscii, QuoteWide, Codepoint;
      out := out + [QUOTE];
      ghost var head := out;
      var p := 0;
      QuoteAll(s);
      while p < |s|
        invariant p <= |s| && out + QuoteBody(s[p..]) == head + QuoteBody(s)
        decreases |s| - p
      {
        var now := p + if |s| - p > 64 then 64 else |s| - p;
        ghost var start := p;
        while p < now
          invariant start <= p <= |s| && out + QuoteBody(s[p..]) == head + QuoteBody(s)
          decreases |s| - p
        {
          QuoteStep(s, p);
          if s[p] < 0x7f {
            Assoc(out, QuoteAscii(s[p]), QuoteBody(s[p + 1..]));
            out := out + QuoteAscii(s[p]);
            p := p + 1;
          } else {
            var c := Codepoint(s[p..]);
            Assoc(out, QuoteWide(c.0), QuoteBody(s[p + c.1..]));
            out := out + QuoteWide(c.0);
            p := p + c.1;
          }
        }
      }
      QuoteDone(s, p, out);
      out := out + [QUOTE];
      Assoc(old(out), [QUOTE], QuoteBody(s));
      Assoc(old(out), [QUOTE] + QuoteBody(s), [QUOTE]);
    }

    // ----- The slow path -----

    /** Appends the text of the value, or throws its error; the open objects are as before. */
    ghost predicate Finished(r: Outcome, spec: Projection, before: Text, path: seq<Id>)
      reads this, visiting
    {
      && (spec.Tree? ==> r == Done && Tracks(path) && out == before + Print(spec.tree, gap, depth))
      && (spec.Bad? ==> r == Thrown(spec.error))
    }

    method EncodeValue(v: Val, ghost path: seq<Id>) returns (r: Outcome)
      requires Tracks(path) && Serialisable(heap, v)
      modifies `out, `depth, `loop, visiting
      ensures Finished(r, Project(heap, v, path, limit, false), old(out), path)
      decreases limit - |path|, 1
    {
      match v
      case NullVal => out := out + NULL; r := Done;
      case P(p) => EncodePrim(p); r := Done;
      case Ref(id) =>
        if heap(id).ArrayObj? {
          r := EncodeArray(id, path);
        } else {
          r := EncodeObject(id, path);
        }
    }

    method EncodePrim(p: Prim)
      modifies `out
      ensures out == old(out) + Print(PrimTree(p), gap, depth)
    {
      match p
      case PBool(b) => out := out + if b then TRUE else FALSE;
      case PNum(n) => out := out + NumberText(n);
      case PNonFinite => out := out + NULL;
      case PStr(s) => QuoteString(s);
    }

    method EncodeArray(id: Id, ghost path: seq<Id>) returns (r: Outcome)
      requires Tracks(path) && heap(id).ArrayObj?
      modifies `out, `depth, `loop, visiting
      ensures Finished(r, Project(heap, Ref(id), path, limit, false), old(out), path)
      decreases limit - |path|, 0
    {
      hide ProjectItems, Printed, Break, Print;
      r := Enter(id, path);
      if r.Thrown? { return; }
      ghost var inner, done, before := path + [id], [], out;
      var slots := heap(id).slots;
      out := out + [LBRACKET];
      ghost var head := out;
      StartItems(heap, slots, inner, limit, head, gap, depth, false);
      var i := 0;
      while i < |slots|
        invariant i <= |slots| && |done| == i && Tracks(inner)
        invariant out == head + Printed(done, gap, depth)
        invariant ProjectItems(heap, slots, inner, limit, false)
                  == Joined(done, ProjectItems(heap, slots[i..], inner, limit, false))
      {
        ItemsAdvance(heap, slots, i, done, inner, limit, false);
        r := EncodeItem(slots[i], i == 0, inner);
        if r.Thrown? { return; }
        ghost var x := SlotTree(heap, slots[i], inner, limit, false).tree;
        AppendItem(head, done, x, gap, depth);
        done := done + [x];
        i := i + 1;
      }
      EndItems(heap, slots, done, inner, limit, false);
      if |slots| > 0 { LineBreak(depth - 1); } else { Identity(out); }
      out := out + [RBRACKET];
      Exit(id, path);
      CloseArray(before, done, gap, depth);
      r := Done;
    }

    method EncodeItem(slot: Slot, first: bool, ghost path: seq<Id>) returns (r: Outcome)
      requires Tracks(path)
      modifies `out, `depth, `loop, visiting
      ensures Finished(r, SlotTree(heap, slot, path, limit, false), old(out) + Separator(first) + Break(gap, depth), path)
      decreases limit - |path|, 2
    {
      hide Project, Print, Break;
      out := out + Separator(first);
      LineBreak(depth);
      var u := if slot.Hole? then Omit else Unboxed(heap, slot.v);
      if slot.Item? { UnboxedProject(heap, slot.v, path, limit); }
      match u
      case Throw(error) => r := Thrown(error);
      case Omit =>
        out := out + NULL;
        PrintNull(gap, depth);
        r := Done;
      case Keep(v) => r := EncodeValue(v, path);
    }

    method EncodeObject(id: Id, ghost path: seq<Id>) returns (r: Outcome)
      requires Tracks(path) && heap(id).PlainObj?
      modifies `out, `depth, `loop, visiting
      ensures Finished(r, Project(heap, Ref(id), path, limit, false), old(out), path)
      decreases limit - |path|, 0
    {
      hide ProjectMembers, PrintedMembers, Break, Print;
      r := Enter(id, path);
      if r.Thrown? { return; }
      ghost var inner, done, before := path + [id], [], out;
      var props, first := heap(id).props, true;
      out := out + [LCURLY];
      ghost var head := out;
      StartMembers(heap, props, inner, limit, head, gap, depth, false);
      var i := 0;
      while i < |props|
        invariant i <= |props| && first == (done == []) && Tracks(inner)
        invariant out == head + PrintedMembers(done, gap, depth)
        invariant ProjectMembers(heap, props, inner, limit, false)
                  == JoinedMembers(done, ProjectMembers(heap, props[i..], inner, limit, false))
      {
        MembersAdvance(heap, props, i, done, inner, limit, false);
        var emitted;
        r, emitted := EncodeMember(props[i], first, inner);
        if r.Thrown? { return; }
        if emitted {
          ghost var m := Member(props[i].key, MemberTree(heap, props[i], inner, limit, false).tree);
          AppendMember(head, done, m, gap, depth);
          done := done + [m];
          first := false;
        }
        i := i + 1;
      }
      EndMembers(heap, props, done, inner, limit, false);
      if !first { LineBreak(depth - 1); } else { Identity(out); }
      out := out + [RCURLY];
      Exit(id, path);
      CloseObject(before, done, gap, depth);
      r := Done;
    }

    /** A member whose value is left out leaves no trace, neither key nor comma. */
    method EncodeMember(p: Prop, first: bool, ghost path: seq<Id>) returns (r: Outcome, emitted: bool)
      requires Tracks(path)
      modifies `out, `depth, `loop, visiting
      ensures var spec := MemberTree(heap, p, path, limit, false);
              && (spec.Tree? ==> r == Done && emitted && Tracks(path)
                                 && out == old(out) + Separator(first) + PrintMember(Member(p.key, spec.tree), gap, depth))
              && (spec.Absent? ==> r == Done && !emitted && Tracks(path) && out == old(out))
              && (spec.Bad? ==> r == Thrown(spec.error))
      decreases limit - |path|, 2
    {
      hide Project, Print, Break, Quote, Colon;
      var u := if Listed(p) then Unboxed(heap, p.value) else Omit;
      UnboxedProject(heap, p.value, path, limit);
      if u.Throw? { return Thrown(u.error), false; }
      if u.Omit? { return Done, false; }
      out := out + Separator(first);
      LineBreak(depth);
      QuoteString(p.key);
      out := out + Colon(gap);
      r := EncodeValue(u.v, path);
      emitted := true;
      if r.Done? {
        ghost var spec := Project(heap, p.value, path, limit, false);
        MemberParts(old(out) + Separator(first), p.key, spec.tree, gap, depth);
      }
    }

    // ----- The fast path -----

    /** As Finished, and a value that is left out leaves the output as it was. */
    ghost predicate FastFinished(r: FastOutcome, spec: Projection, before: Text, path: seq<Id>)
      reads this, visiting
    {
      && (spec.Tree? ==> r == Emitted && Tracks(path) && out == before + Print(spec.tree, gap, depth))
      && (spec.Absent? ==> r == Nothing && Tracks(path) && out == before)
      && (spec.Bad? ==> r == Aborted(spec.error))
    }

    method FastValue(v: Val, ghost path: seq<Id>) returns (r: FastOutcome)
      requires Tracks(path) && limit <= LOOPARRAY
      modifies `out, `depth, visiting
      ensures FastFinished(r, Project(heap, v, path, limit, true), old(out), path)
      decreases limit - |path|, 1
    {
      match v
      case NullVal => out := out + NULL; r := Emitted;
      case P(p) => EncodePrim(p); r := Emitted;
      case Lightfunc => r := Aborted(Abandoned);
      case Ref(id) => r := FastRef(id, path);
      case _ => r := Nothing;
    }

    method FastRef(id: Id, ghost path: seq<Id>) returns (r: FastOutcome)
      requires Tracks(path) && limit <= LOOPARRAY
      modifies `out, `depth, visiting
      ensures FastFinished(r, Project(heap, Ref(id), path, limit, true), old(out), path)
      decreases limit - |path|, 0
    {
      hide ProjectItems, ProjectMembers, Print;
      if depth >= limit { return Aborted(DepthLimit); }
      for i := 0 to depth
        invariant forall k :: 0 <= k < i ==> path[k] != id
      {
        if visiting[i] == id { return Aborted(CyclicInput); }
      }
      visiting[depth] := id;
      depth := depth + 1;
      OverflowSnoc(path, id);
      ghost var inner := path + [id];
      match heap(id)
      case PlainObj(props, abandon) =>
        if abandon { return Aborted(Abandoned); }
        r := FastObject(props, inner);
        if r.Aborted? { return; }
        depth := depth - 1;
        FastLeave(path, id);
      case ArrayObj(slots, abandon) =>
        if abandon { return Aborted(Abandoned); }
        r := FastArray(slots, inner);
        if r.Aborted? { return; }
        depth := depth - 1;
        FastLeave(path, id);
      case BoxedObj(inner, _) =>
        depth := depth - 1;
        EncodePrim(inner);
        r := Emitted;
      case _ =>
        depth := depth - 1;
        r := Nothing;
    }

    /** Dropping the innermost open object. */
    lemma FastLeave(path: seq<Id>, id: Id)
      requires visiting.Length == LOOPARRAY && depth == |path| < limit <= LOOPARRAY && Distinct(path + [id])
      requires loop == Overflow(path + [id])
      requires forall i :: 0 <= i <= |path| ==> visiting[i] == (path + [id])[i]
      ensures Tracks(path)
    {
      OverflowSnoc(path, id);
      assert forall i :: 0 <= i < |path| ==> (path + [id])[i] == path[i];
    }

    method FastComma()
      modifies `out
      ensures out == old(out) + Separator(false)
    {
      out := out + [COMMA];
    }

    /** Takes back the comma after the last value, and closes. */
    method FastClose(emitted: bool, close: Byte, ghost text: Text)
      requires depth > 0 && out == text + Separator(!emitted)
      modifies `out
      ensures out == text + (if emitted then Break(gap, depth - 1) else []) + [close]
    {
      hide Break;
      if emitted {
        AppendSplit(text, [COMMA]);
        out := out[..|out| - 1];
        LineBreak(depth - 1);
      }
      out := out + [close];
    }

    /** Each value is followed by a comma; the last one is taken back. */
    method FastArray(slots: seq<Slot>, ghost path: seq<Id>) returns (r: FastOutcome)
      requires Tracks(path) && limit <= LOOPARRAY && path != []
      modifies `out, `depth, visiting
      ensures var a := ProjectItems(heap, slots, path, limit, true);
              && (a.Items? ==> r == Emitted && Tracks(path) && out == old(out) + Print(Arr(a.items), gap, depth - 1))
              && (a.BadItems? ==> r == Aborted(a.error))
      decreases limit - |path|, 3
    {
      hide ProjectItems, Printed, Break, Print, Separator, Joined;
      ghost var done, before := [], out;
      out := out + [LBRACKET];
      ghost var head := out;
      StartItems(heap, slots, path, limit, head, gap, depth, true);
      NoSeparator(head);
      var i := 0;
      while i < |slots|
        invariant i <= |slots| && |done| == i && Tracks(path)
        invariant out == head + Printed(done, gap, depth) + Separator(done == [])
        invariant ProjectItems(heap, slots, path, limit, true)
                  == Joined(done, ProjectItems(heap, slots[i..], path, limit, true))
      {
        ItemsAdvance(heap, slots, i, done, path, limit, true);
        r := FastItem(slots[i], path);
        if r.Aborted? { return; }
        ghost var x := SlotTree(heap, slots[i], path, limit, true).tree;
        AppendItem(head, done, x, gap, depth);
        done := done + [x];
        FastComma();
        i := i + 1;
      }
      EndItems(heap, slots, done, path, limit, true);
      FastClose(|slots| > 0, RBRACKET, head + Printed(done, gap, depth));
      CloseArray(before, done, gap, depth - 1);
      r := Emitted;
    }

    method FastItem(slot: Slot, ghost path: seq<Id>) returns (r: FastOutcome)
      requires Tracks(path) && limit <= LOOPARRAY
      modifies `out, `depth, visiting
      ensures var spec := SlotTree(heap, slot, path, limit, true);
              && (spec.Tree? ==> r == Emitted && Tracks(path) && out == old(out) + Break(gap, depth) + Print(spec.tree, gap, depth))
              && (spec.Bad? ==> r == Aborted(spec.error))
      decreases limit - |path|, 2
    {
      hide Project, Print, Break;
      LineBreak(depth);
      PrintNull(gap, depth);
      if slot.Hole? {
        out := out + NULL;
        return Emitted;
      }
      r := FastValue(slot.v, path);
      if r.Nothing? {
        out := out + NULL;
        r := Emitted;
      }
    }

    method FastObject(props: seq<Prop>, ghost path: seq<Id>) returns (r: FastOutcome)
      requires Tracks(path) && limit <= LOOPARRAY && path != []
      modifies `out, `depth, visiting
      ensures var o := ProjectMembers(heap, props, path, limit, true);
              && (o.Members? ==> r == Emitted && Tracks(path) && out == old(out) + Print(Obj(o.members), gap, depth - 1))
              && (o.BadMembers? ==> r == Aborted(o.error))
      decreases limit - |path|, 3
    {
      hide ProjectMembers, PrintedMembers, PrintMember, Break, Print, Separator, JoinedMembers;
      ghost var done, before := [], out;
      out := out + [LCURLY];
      ghost var head := out;
      var emitted := false;
      StartMembers(heap, props, path, limit, head, gap, depth, true);
      NoSeparator(head);
      var i := 0;
      while i < |props|
        invariant i <= |props| && emitted == (done != []) && Tracks(path)
        invariant out == head + PrintedMembers(done, gap, depth) + Separator(done == [])
        invariant ProjectMembers(heap, props, path, limit, true)
                  == JoinedMembers(done, ProjectMembers(heap, props[i..], path, limit, true))
      {
        MembersAdvance(heap, props, i, done, path, limit, true);
        r := FastMember(props[i], path);
        if r.Aborted? { return; }
        if r.Emitted? {
          ghost var m := Member(props[i].key, MemberTree(heap, props[i], path, limit, true).tree);
          AppendMember(head, done, m, gap, depth);
          done := done + [m];
          FastComma();
          emitted := true;
        }
        i := i + 1;
      }
      EndMembers(heap, props, done, path, limit, true);
      FastClose(emitted, RCURLY, head + PrintedMembers(done, gap, depth));
      CloseObject(before, done, gap, depth - 1);
      r := Emitted;
    }

    /** The key is written first, and taken back if its value is left out. */
    method FastMember(p: Prop, ghost path: seq<Id>) returns (r: FastOutcome)
      requires Tracks(path) && limit <= LOOPARRAY
      modifies `out, `depth, visiting
      ensures var spec := MemberTree(heap, p, path, limit, true);
              && (spec.Tree? ==> r == Emitted && Tracks(path) && out == old(out) + PrintMember(Member(p.key, spec.tree), gap, depth))
              && (spec.Absent? ==> r == Nothing && Tracks(path) && out == old(out))
              && (spec.Bad? ==> r == Aborted(spec.error))
      decreases limit - |path|, 2
    {
      hide Project, Print, Break, Quote, Colon;
      if !Listed(p) { return Nothing; }
      var prev := |out|;
      LineBreak(depth);
      QuoteString(p.key);
      out := out + Colon(gap);
      r := FastValue(p.value, path);
      if r.Nothing? {
        out := out[..prev];
      } else if r.Emitted? {
        ghost var spec := Project(heap, p.value, path, limit, true);
        MemberParts(old(out), p.key, spec.tree, gap, depth);
      }
    }
  }
  // ----- JSON.stringify() -----

  const RECLIMIT: nat := 1000  // DUK_USE_JSON_ENC_RECLIMIT

  datatype Result = Undef | String(text: Text) | Error(error: Error)

  function Rendered(p: Projection, gap: Text): Result {
    match p
    case Absent => Undef
    case Tree(t) => String(Print(t, gap, 0))
    case Bad(e) => Error(e)
  }

  /** What the slow path alone answers. */
  function SlowResult(heap: Heap, v: Val, gap: Text): Result {
    Rendered(Project(heap, v, [], RECLIMIT, false), gap)
  }

  /** The fast path gets through, and meets something that the slow path treats differently. */
  predicate FastMeets(heap: Heap, v: Val) {
    !Stops(heap, v, [], LOOPARRAY) && Meets(heap, v, [], LOOPARRAY)
  }

  /**
   * The fast path is first; any failure of it starts over on the slow path.
   * The answer is that of the slow path alone if FastMeets does not hold, and in a proper heap only then.
   */
  method Stringify(heap: Heap, v: Val, gap: Text) returns (r: Result)
    ensures !FastMeets(heap, v) ==> r == SlowResult(heap, v, gap)
    ensures FastMeets(heap, v) ==> r == Rendered(Project(heap, v, [], LOOPARRAY, true), gap)
    ensures GoodHeap(heap) && GoodVal(v) ==> (r == SlowResult(heap, v, gap) <==> !FastMeets(heap, v))
  {
    hide Project, Meets, Stops, Print, GoodHeap;
    var e := new Encoder(heap, gap);
    e.limit := LOOPARRAY;
    var fast := e.FastValue(v, []);
    FastSlow(heap, v, [], LOOPARRAY, RECLIMIT);
    if fast.Emitted? {
      Identity(e.out);
      if GoodHeap(heap) && GoodVal(v) { TextsDiffer(heap, v, gap); }
      return String(e.out);
    }
    e.out, e.depth, e.limit := [], 0, RECLIMIT;
    var u := Unboxed(heap, v);
    UnboxedProject(heap, v, [], RECLIMIT);
    if u.Throw? { return Error(u.error); }
    if u.Omit? { return Undef; }
    var slow := e.EncodeValue(u.v, []);
    match slow
    case Thrown(error) => r := Error(error);
    case Done => Identity(e.out); r := String(e.out);
  }

  /** In a proper heap different projections have different texts. */
  lemma TextsDiffer(heap: Heap, v: Val, gap: Text)
    requires GoodHeap(heap) && GoodVal(v)
    ensures var f, s := Project(heap, v, [], LOOPARRAY, true), Project(heap, v, [], RECLIMIT, false);
            f.Tree? && Rendered(f, gap) == Rendered(s, gap) ==> f == s
  {
    hide Project, Print, Printable, Nesting, GoodHeap;
    var f, s := Project(heap, v, [], LOOPARRAY, true), Project(heap, v, [], RECLIMIT, false);
    ProjectPrintable(heap, v, [], LOOPARRAY, true);
    ProjectPrintable(heap, v, [], RECLIMIT, false);
    if f.Tree? && s.Tree? && Print(f.tree, gap, 0) == Print(s.tree, gap, 0) { JsonInjective.PrintInjective(f.tree, s.tree, gap); }
  }

  /** The two paths differ: a Number object with a valueOf of its own. */
  lemma OverriddenMember(heap: Heap, key: Text, x: Number, y: Number)
    requires heap(0) == PlainObj([Prop(key, true, Ref(1))], false) && heap(1) == BoxedObj(PNum(x), Some(PNum(y)))
    requires (key == [] || key[0] != 0xff) && x != y
    ensures Project(heap, Ref(0), [], LOOPARRAY, true) == Tree(Obj([Member(key, Num(x))]))
    ensures Project(heap, Ref(0), [], RECLIMIT, false) == Tree(Obj([Member(key, Num(y))]))
    ensures FastMeets(heap, Ref(0))
  {
    var props := heap(0).props;
    var path: seq<Id> := [] + [0];
    OneMember(heap, props[0], path, LOOPARRAY, true);
    OneMember(heap, props[0], path, RECLIMIT, false);
    assert props == [props[0]];
    assert Project(heap, Ref(1), path, LOOPARRAY, true) == Tree(Num(x));
    assert Project(heap, Ref(1), path, RECLIMIT, false) == Tree(Num(y));
    FastSlow(heap, Ref(0), [], LOOPARRAY, RECLIMIT);
  }

  lemma OneMember(heap: Heap, p: Prop, path: seq<Id>, limit: nat, fast: bool)
    requires |path| <= limit && Listed(p) && Project(heap, p.value, path, limit, fast).Tree?
    ensures ProjectMembers(heap, [p], path, limit, fast) == Members([Member(p.key, Project(heap, p.value, path, limit, fast).tree)])
  {
    hide Project;
    assert [p][1..] == [];
    assert ProjectMembers(heap, [p][1..], path, limit, fast) == Members([]);
    Identity([Member(p.key, Project(heap, p.value, path, limit, fast).tree)]);
  }

  /** The two paths differ: an object whose one member holds a detached buffer. */
  lemma DetachedMember(heap: Heap, key: Text)
    requires heap(0) == PlainObj([Prop(key, true, Ref(1))], false) && heap(1) == BufferObj(true)
    requires key == [] || key[0] != 0xff
    ensures Project(heap, Ref(0), [], LOOPARRAY, true) == Tree(Obj([]))
    ensures Project(heap, Ref(0), [], RECLIMIT, false) == Tree(Obj([Member(key, Null)]))
  {
    var props := heap(0).props;
    var path: seq<Id> := [] + [0];
    assert props[1..] == [];
    assert Project(heap, Ref(1), path, RECLIMIT, false) == Tree(Null);
    assert ProjectMembers(heap, props, path, LOOPARRAY, true) == Members([]);
    assert ProjectMembers(heap, props[1..], path, RECLIMIT, false) == Members([]);
    assert [Member(key, Null)] + [] == [Member(key, Null)];
    assert ProjectMembers(heap, props, path, RECLIMIT, false) == Members([Member(key, Null)]);
  }

  // ----- JSON.parse() of JSON.stringify() -----

  predicate GoodPrim(p: Prim) {
    (p.PStr? ==> Canonical(p.s)) && (p.PNum? ==> Readable(p.n))
  }

  predicate GoodVal(v: Val) {
    v.P? ==> GoodPrim(v.p)
  }

  predicate GoodSlots(slots: seq<Slot>) {
    forall i :: 0 <= i < |slots| && slots[i].Item? ==> GoodVal(slots[i].v)
  }

  predicate GoodProps(props: seq<Prop>) {
    && (forall i :: 0 <= i < |props| ==> Canonical(props[i].key) && GoodVal(props[i].value))
    && (forall i, j :: 0 <= i < j < |props| ==> props[i].key != props[j].key)
  }

  /** Strings are in shortest form, numbers read back, and keys are unique in each object, as in every Ecmascript heap. */
  ghost predicate GoodHeap(heap: Heap) {
    forall id ::
      match heap(id)
      case ArrayObj(slots, _) => GoodSlots(slots)
      case PlainObj(props, _) => GoodProps(props)
      case BoxedObj(inner, coerced) => GoodPrim(inner) && (coerced.Some? ==> GoodPrim(coerced.value))
      case _ => true
  }

  lemma {:induction false} ProjectPrintable(heap: Heap, v: Val, path: seq<Id>, limit: nat, fast: bool)
    requires |path| <= limit && GoodHeap(heap) && GoodVal(v)
    ensures var p := Project(heap, v, path, limit, fast); p.Tree? ==> Printable(p.tree) && |path| + Nesting(p.tree) <= limit
    decreases limit - |path|, 0
  {
    hide ProjectItems, ProjectMembers;
    if v.Ref? && |path| < limit {
      match heap(v.id)
      case ArrayObj(slots, _) => ItemsPrintable(heap, slots, path + [v.id], limit, fast);
      case PlainObj(props, _) => MembersPrintable(heap, props, path + [v.id], limit, fast);
      case _ =>
    }
  }

  lemma {:induction false} ItemsPrintable(heap: Heap, slots: seq<Slot>, path: seq<Id>, limit: nat, fast: bool)
    requires |path| <= limit && GoodHeap(heap) && GoodSlots(slots)
    ensures var a := ProjectItems(heap, slots, path, limit, fast);
            a.Items? ==> (forall i :: 0 <= i < |a.items| ==> Printable(a.items[i])) && |path| + ItemsNesting(a.items) <= limit
    decreases limit - |path|, |slots| + 1
  {
    hide Project, GoodHeap;
    if slots != [] {
      if slots[0].Item? { ProjectPrintable(heap, slots[0].v, path, limit, fast); }
      ItemsPrintable(heap, slots[1..], path, limit, fast);
      var a, rest := ProjectItems(heap, slots, path, limit, fast), ProjectItems(heap, slots[1..], path, limit, fast);
      if a.Items? { assert a.items[1..] == rest.items; }
    }
  }

  lemma {:induction false} MembersPrintable(heap: Heap, props: seq<Prop>, path: seq<Id>, limit: nat, fast: bool)
    requires |path| <= limit && GoodHeap(heap) && GoodProps(props)
    ensures var o := ProjectMembers(heap, props, path, limit, fast);
            o.Members? ==>
              && (forall i :: 0 <= i < |o.members| ==> PrintableMember(o.members[i]))
              && (forall i :: 0 <= i < |o.members| ==> exists j :: 0 <= j < |props| && props[j].key == o.members[i].key)
              && UniqueKeys(o.members) && |path| + MembersNesting(o.members) <= limit
    decreases limit - |path|, |props| + 1
  {
    hide Project, GoodHeap, Canonical, Printable, Nesting;
    if props != [] {
      if Listed(props[0]) { ProjectPrintable(heap, props[0].value, path, limit, fast); }
      MembersPrintable(heap, props[1..], path, limit, fast);
      var o, rest := ProjectMembers(heap, props, path, limit, fast), ProjectMembers(heap, props[1..], path, limit, fast);
      assert forall j :: 0 <= j < |props| - 1 ==> props[1..][j] == props[j + 1];
      if o.Members? && o != rest { assert o.members[1..] == rest.members; }
    }
  }

  /** What JSON.stringify() answers on either path, JSON.parse() reads back as the value that was projected. */
  lemma StringifyParses(heap: Heap, v: Val, gap: Text, limit: nat, fast: bool)
    requires AllWhite(gap) && GoodHeap(heap) && GoodVal(v) && limit <= RECLIMIT
    ensures var p := Project(heap, v, [], limit, fast);
            p.Tree? ==> var s := Rendered(p, gap).text; JsonParse.ParseText(s, RECLIMIT) == JsonParse.Ok(p.tree, |s|)
  {
    hide Project, Print, Nesting, Printable, GoodHeap;
    var p := Project(heap, v, [], limit, fast);
    ProjectPrintable(heap, v, [], limit, fast);
    if p.Tree? { ParsePrint(p.tree, gap, RECLIMIT); }
  }
}
