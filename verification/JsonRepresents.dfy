/** Which JSON value a value of the heap stands for, told from the JSON value; and that JSON.stringify() finds it. */
module JsonRepresents {
  import opened Bytes
  import opened Seqs
  import opened JsonTree
  import opened JsonPrint
  import opened JsonHeap
  import opened JsonEncoder
  import JsonDecoder

  /** v is the primitive p, or an object around it: its internal value if fast, else what coercion answers. */
  predicate Holds(heap: Heap, v: Val, p: Prim, fast: bool) {
    v == P(p)
    || (v.Ref? && heap(v.id).BoxedObj?
        && if fast || heap(v.id).inner.PBool? then heap(v.id).inner == p else heap(v.id).coerced == Some(p))
  }

  /** Values that have no JSON value: undefined, functions, pointers and buffers. */
  predicate LeftOut(heap: Heap, v: Val, fast: bool) {
    v == Undefined || v == PointerVal || v == BufferVal || v == Lightfunc
    || (v.Ref? && (heap(v.id) == FunctionObj || heap(v.id) == PointerObj || heap(v.id) == BufferObj(false)
                   || (fast && heap(v.id) == BufferObj(true))))
  }

  predicate Represents(heap: Heap, v: Val, j: Json, fast: bool)
    decreases j, 0
  {
    match j
    case Null =>
      v == NullVal || Holds(heap, v, PNonFinite, fast) || (!fast && v.Ref? && heap(v.id) == BufferObj(true))
    case Bool(b) => Holds(heap, v, PBool(b), fast)
    case Num(n) => Holds(heap, v, PNum(n), fast)
    case Str(s) => Holds(heap, v, PStr(s), fast)
    case Arr(items) => v.Ref? && heap(v.id).ArrayObj? && ItemsRepresent(heap, heap(v.id).slots, items, fast)
    case Obj(ms) => v.Ref? && heap(v.id).PlainObj? && MembersRepresent(heap, heap(v.id).props, ms, fast)
  }

  /** An item for every slot; null for a hole and for a value without a JSON value. */
  predicate ItemsRepresent(heap: Heap, slots: seq<Slot>, items: seq<Json>, fast: bool)
    decreases items, 1
  {
    |slots| == |items|
    && forall i :: 0 <= i < |items| ==> SlotRepresents(heap, slots[i], items[i], fast)
  }

  predicate SlotRepresents(heap: Heap, s: Slot, j: Json, fast: bool)
    decreases j, 1
  {
    if s == Hole || LeftOut(heap, s.v, fast) then j == Null else Represents(heap, s.v, j, fast)
  }

  /** A property that is not enumerable, has an internal key or has no JSON value makes no member. */
  predicate Skipped(heap: Heap, p: Prop, fast: bool) {
    !p.enumerable || (p.key != [] && p.key[0] == 0xff) || LeftOut(heap, p.value, fast)
  }

  /** The members are the other properties, in order. */
  predicate MembersRepresent(heap: Heap, props: seq<Prop>, ms: seq<Member>, fast: bool)
    decreases ms, |props|
  {
    if props == [] then ms == []
    else if Skipped(heap, props[0], fast) then MembersRepresent(heap, props[1..], ms, fast)
    else
      ms != [] && ms[0].key == props[0].key && Represents(heap, props[0].value, ms[0].value, fast)
      && MembersRepresent(heap, props[1..], ms[1..], fast)
  }

  // ----- One JSON value at most -----

  lemma {:induction false} Unique(heap: Heap, v: Val, j: Json, k: Json, fast: bool)
    requires Represents(heap, v, j, fast) && Represents(heap, v, k, fast)
    ensures j == k && !LeftOut(heap, v, fast)
    decreases j, 0
  {
    hide ItemsRepresent, MembersRepresent;
    match j
    case Arr(items) => ItemsUnique(heap, heap(v.id).slots, items, k.items, fast);
    case Obj(ms) => MembersUnique(heap, heap(v.id).props, ms, k.members, fast);
    case _ =>
  }

  lemma {:induction false} ItemsUnique(heap: Heap, slots: seq<Slot>, a: seq<Json>, b: seq<Json>, fast: bool)
    requires ItemsRepresent(heap, slots, a, fast) && ItemsRepresent(heap, slots, b, fast)
    ensures a == b
    decreases a, 1
  {
    hide Represents, LeftOut;
    forall i | 0 <= i < |a| ensures a[i] == b[i] {
      assert SlotRepresents(heap, slots[i], a[i], fast) && SlotRepresents(heap, slots[i], b[i], fast);
      if slots[i] != Hole && !LeftOut(heap, slots[i].v, fast) { Unique(heap, slots[i].v, a[i], b[i], fast); }
    }
  }

  lemma {:induction false} MembersUnique(heap: Heap, props: seq<Prop>, a: seq<Member>, b: seq<Member>, fast: bool)
    requires MembersRepresent(heap, props, a, fast) && MembersRepresent(heap, props, b, fast)
    ensures a == b
    decreases a, |props|
  {
    hide Represents, Skipped;
    if props != [] {
      if Skipped(heap, props[0], fast) {
        MembersUnique(heap, props[1..], a, b, fast);
      } else {
        Unique(heap, props[0].value, a[0].value, b[0].value, fast);
        MembersUnique(heap, props[1..], a[1..], b[1..], fast);
        Cons(a);
        Cons(b);
      }
    }
  }

  // ----- What is found is represented -----

  lemma {:induction false} Found(heap: Heap, v: Val, path: seq<Id>, limit: nat, fast: bool)
    requires |path| <= limit
    ensures var p := Project(heap, v, path, limit, fast);
            && (p.Tree? ==> Represents(heap, v, p.tree, fast) && |path| + Nesting(p.tree) <= limit && !LeftOut(heap, v, fast))
            && (p.Absent? ==> LeftOut(heap, v, fast))
    decreases limit - |path|, 0
  {
    hide ProjectItems, ProjectMembers, ItemsRepresent, MembersRepresent;
    if v.Ref? && |path| < limit {
      match heap(v.id)
      case ArrayObj(slots, _) => FoundItems(heap, slots, path + [v.id], limit, fast);
      case PlainObj(props, _) => FoundMembers(heap, props, path + [v.id], limit, fast);
      case _ =>
    }
  }

  lemma {:induction false} FoundItems(heap: Heap, slots: seq<Slot>, path: seq<Id>, limit: nat, fast: bool)
    requires |path| <= limit
    ensures var a := ProjectItems(heap, slots, path, limit, fast);
            a.Items? ==> ItemsRepresent(heap, slots, a.items, fast) && |path| + ItemsNesting(a.items) <= limit
    decreases limit - |path|, |slots| + 1
  {
    hide Project, Represents, LeftOut;
    if slots != [] {
      if slots[0].Item? { Found(heap, slots[0].v, path, limit, fast); }
      FoundItems(heap, slots[1..], path, limit, fast);
      var a, rest := ProjectItems(heap, slots, path, limit, fast), ProjectItems(heap, slots[1..], path, limit, fast);
      if a.Items? {
        assert a.items[1..] == rest.items;
        assert SlotRepresents(heap, slots[0], a.items[0], fast);
        forall i | 0 <= i < |slots| ensures SlotRepresents(heap, slots[i], a.items[i], fast) {
          if i > 0 { assert SlotRepresents(heap, slots[1..][i - 1], rest.items[i - 1], fast); }
        }
      }
    }
  }

  lemma {:induction false} FoundMembers(heap: Heap, props: seq<Prop>, path: seq<Id>, limit: nat, fast: bool)
    requires |path| <= limit
    ensures var o := ProjectMembers(heap, props, path, limit, fast);
            o.Members? ==> MembersRepresent(heap, props, o.members, fast) && |path| + MembersNesting(o.members) <= limit
    decreases limit - |path|, |props| + 1
  {
    hide Project, Represents, LeftOut, Nesting;
    if props != [] {
      if Listed(props[0]) { Found(heap, props[0].value, path, limit, fast); }
      FoundMembers(heap, props[1..], path, limit, fast);
      var o, rest := ProjectMembers(heap, props, path, limit, fast), ProjectMembers(heap, props[1..], path, limit, fast);
      if o.Members? && !Skipped(heap, props[0], fast) { assert o.members[1..] == rest.members; }
    }
  }

  // ----- What is represented is found -----

  /** The object represents a value that nests deeper than n. */
  ghost predicate Deeper(heap: Heap, id: Id, n: int) {
    exists k :: Represents(heap, Ref(id), k, false) && Nesting(k) > n
  }

  /** All open objects do. */
  ghost predicate Above(heap: Heap, path: seq<Id>, n: int) {
    forall i :: 0 <= i < |path| ==> Deeper(heap, path[i], n)
  }

  lemma DeeperLess(heap: Heap, id: Id, n: int, m: int)
    requires Deeper(heap, id, n) && m <= n
    ensures Deeper(heap, id, m)
  {
    hide Represents, Nesting;
    var k :| Represents(heap, Ref(id), k, false) && Nesting(k) > n;
    assert Represents(heap, Ref(id), k, false) && Nesting(k) > m;
  }

  lemma AboveLess(heap: Heap, path: seq<Id>, n: int, m: int)
    requires Above(heap, path, n) && m <= n
    ensures Above(heap, path, m)
  {
    hide Deeper;
    forall i | 0 <= i < |path| ensures Deeper(heap, path[i], m) { DeeperLess(heap, path[i], n, m); }
  }

  lemma AboveNext(heap: Heap, path: seq<Id>, id: Id, j: Json, n: int)
    requires Above(heap, path, Nesting(j)) && Represents(heap, Ref(id), j, false) && n < Nesting(j)
    ensures Above(heap, path + [id], n)
  {
    hide Represents, Nesting;
    AboveLess(heap, path, Nesting(j), n);
    assert Deeper(heap, id, n);
    hide Deeper;
  }

  /** Since a value represents one JSON value only, none that is represented is inside itself. */
  lemma NotOpen(heap: Heap, path: seq<Id>, id: Id, j: Json)
    requires Above(heap, path, Nesting(j)) && Represents(heap, Ref(id), j, false)
    ensures id !in path
  {
    hide Represents, Nesting;
    if id in path {
      assert Deeper(heap, id, Nesting(j));
      var k :| Represents(heap, Ref(id), k, false) && Nesting(k) > Nesting(j);
      Unique(heap, Ref(id), j, k, false);
      assert false;
    }
  }

  lemma {:induction false} Finds(heap: Heap, v: Val, j: Json, path: seq<Id>, limit: nat)
    requires Represents(heap, v, j, false) && |path| + Nesting(j) <= limit && Above(heap, path, Nesting(j))
    ensures Project(heap, v, path, limit, false) == Tree(j)
    decreases j, 2
  {
    hide ProjectItems, ProjectMembers, ItemsRepresent, MembersRepresent, Above;
    if j.Arr? {
      NotOpen(heap, path, v.id, j);
      AboveNext(heap, path, v.id, j, ItemsNesting(j.items));
      FindsItems(heap, heap(v.id).slots, j.items, path + [v.id], limit);
    } else if j.Obj? {
      NotOpen(heap, path, v.id, j);
      AboveNext(heap, path, v.id, j, MembersNesting(j.members));
      FindsMembers(heap, heap(v.id).props, j.members, path + [v.id], limit);
    }
  }

  lemma ProjectLeftOut(heap: Heap, v: Val, path: seq<Id>, limit: nat)
    requires |path| <= limit && LeftOut(heap, v, false)
    ensures Project(heap, v, path, limit, false) == Absent
  {}

  lemma {:induction false} FindsItems(heap: Heap, slots: seq<Slot>, items: seq<Json>, path: seq<Id>, limit: nat)
    requires ItemsRepresent(heap, slots, items, false) && |path| + ItemsNesting(items) <= limit
    requires Above(heap, path, ItemsNesting(items))
    ensures ProjectItems(heap, slots, path, limit, false) == Items(items)
    decreases items, 1
  {
    hide Project, Represents, LeftOut, Above, Nesting;
    if items != [] {
      AboveLess(heap, path, ItemsNesting(items), Nesting(items[0]));
      AboveLess(heap, path, ItemsNesting(items), ItemsNesting(items[1..]));
      assert SlotRepresents(heap, slots[0], items[0], false);
      forall i | 0 <= i < |items| - 1 ensures SlotRepresents(heap, slots[1..][i], items[1..][i], false) {
        assert SlotRepresents(heap, slots[i + 1], items[i + 1], false);
      }
      FindsItems(heap, slots[1..], items[1..], path, limit);
      if slots[0] != Hole {
        if LeftOut(heap, slots[0].v, false) {
          ProjectLeftOut(heap, slots[0].v, path, limit);
        } else {
          Finds(heap, slots[0].v, items[0], path, limit);
        }
      }
      Cons(items);
    }
  }

  lemma {:induction false} FindsMembers(heap: Heap, props: seq<Prop>, ms: seq<Member>, path: seq<Id>, limit: nat)
    requires MembersRepresent(heap, props, ms, false) && |path| + MembersNesting(ms) <= limit
    requires Above(heap, path, MembersNesting(ms))
    ensures ProjectMembers(heap, props, path, limit, false) == Members(ms)
    decreases ms, |props|
  {
    hide Project, Represents, LeftOut, Above, Nesting;
    if props != [] {
      if Skipped(heap, props[0], false) {
        FindsMembers(heap, props[1..], ms, path, limit);
        if LeftOut(heap, props[0].value, false) { ProjectLeftOut(heap, props[0].value, path, limit); }
      } else {
        AboveLess(heap, path, MembersNesting(ms), Nesting(ms[0].value));
        AboveLess(heap, path, MembersNesting(ms), MembersNesting(ms[1..]));
        FindsMembers(heap, props[1..], ms[1..], path, limit);
        Finds(heap, props[0].value, ms[0].value, path, limit);
        Cons(ms);
      }
    }
  }

  // ----- JSON.stringify() -----

  /** The slow path sees j exactly in what represents j and does not nest too deep. */
  lemma SlowSees(heap: Heap, v: Val, j: Json, limit: nat)
    ensures Project(heap, v, [], limit, false) == Tree(j) <==> Represents(heap, v, j, false) && Nesting(j) <= limit
    ensures Project(heap, v, [], limit, false) == Absent <==> LeftOut(heap, v, false)
  {
    hide Project, Represents, LeftOut, Nesting;
    Found(heap, v, [], limit, false);
    if LeftOut(heap, v, false) { ProjectLeftOut(heap, v, [], limit); }
    if Represents(heap, v, j, false) && Nesting(j) <= limit { Finds(heap, v, j, [], limit); }
  }

  /** So does the fast path, wherever it does not stop. */
  lemma FastSees(heap: Heap, v: Val, j: Json, limit: nat)
    requires !Stops(heap, v, [], limit)
    ensures Project(heap, v, [], limit, true) == Tree(j) <==> Represents(heap, v, j, true)
    ensures Project(heap, v, [], limit, true) == Absent <==> LeftOut(heap, v, true)
  {
    hide Project, Represents, LeftOut, Stops, Nesting;
    FastSlow(heap, v, [], limit, limit);
    Found(heap, v, [], limit, true);
    var p := Project(heap, v, [], limit, true);
    if Represents(heap, v, j, true) {
      Unique(heap, v, j, j, true);
      if p.Tree? { Unique(heap, v, p.tree, j, true); }
    }
  }

  /** undefined for a value without a JSON value, the text of the JSON value, or an error. */
  lemma SlowAnswers(heap: Heap, v: Val, gap: Text)
    ensures SlowResult(heap, v, gap) == Undef <==> LeftOut(heap, v, false)
    ensures forall j :: Represents(heap, v, j, false) && Nesting(j) <= RECLIMIT ==> SlowResult(heap, v, gap) == String(Print(j, gap, 0))
    ensures SlowResult(heap, v, gap).Error? <==>
              !LeftOut(heap, v, false) && !exists j :: Represents(heap, v, j, false) && Nesting(j) <= RECLIMIT
  {
    hide Project, Represents, LeftOut, Nesting, Print;
    Found(heap, v, [], RECLIMIT, false);
    SlowSees(heap, v, Null, RECLIMIT);
    forall j | Represents(heap, v, j, false) && Nesting(j) <= RECLIMIT
      ensures Project(heap, v, [], RECLIMIT, false) == Tree(j)
    {
      SlowSees(heap, v, j, RECLIMIT);
    }
  }

  /** A value of the heap that stands for j comes back as j, whichever path wrote it. */
  method StringifyThenParse(heap: Heap, v: Val, j: Json, gap: Text) returns (r: Result, back: JsonDecoder.Outcome<Json>)
    requires AllWhite(gap) && GoodHeap(heap) && GoodVal(v)
    requires Represents(heap, v, j, FastMeets(heap, v)) && Nesting(j) <= RECLIMIT
    ensures r.String? && back == JsonDecoder.Value(j)
  {
    hide Project, Represents, Nesting, Stops, Meets, GoodHeap, Print;
    r := Stringify(heap, v, gap);
    if FastMeets(heap, v) {
      FastSees(heap, v, j, LOOPARRAY);
      StringifyParses(heap, v, gap, LOOPARRAY, true);
    } else {
      SlowSees(heap, v, j, RECLIMIT);
      StringifyParses(heap, v, gap, RECLIMIT, false);
    }
    back := JsonDecoder.Parse(r.text, RECLIMIT);
  }
}
