/** When JSON.stringify() reports cyclic input: exactly when it runs into a cycle of the object graph. */
module JsonCycles {
  import opened Bytes
  import opened Seqs
  import opened JsonTree
  import opened JsonHeap
  import opened JsonEncoder

  /** Object b is an element or a listed member of object a. */
  predicate Edge(heap: Heap, a: Id, b: Id) {
    match heap(a)
    case ArrayObj(slots, _) => Item(Ref(b)) in slots
    case PlainObj(props, _) => exists i :: 0 <= i < |props| && Listed(props[i]) && props[i].value == Ref(b)
    case _ => false
  }

  predicate Chain(heap: Heap, c: seq<Id>) {
    forall i :: 0 <= i < |c| - 1 ==> Edge(heap, c[i], c[i + 1])
  }

  lemma ChainSnoc(heap: Heap, c: seq<Id>, b: Id)
    requires Chain(heap, c) && c != [] && Edge(heap, c[|c| - 1], b)
    ensures Chain(heap, c + [b])
  {
    var d := c + [b];
    forall i | 0 <= i < |d| - 1 ensures Edge(heap, d[i], d[i + 1]) {
      assert d[i] == c[i];
    }
  }

  /** A chain of objects that the error is about: one that comes back, one that is too long, one that ends in a throw. */
  predicate Cause(heap: Heap, c: seq<Id>, limit: nat, e: Error) {
    c != []
    && match e
       case CyclicInput => !Distinct(c)
       case DepthLimit => |c| == limit + 1
       case CoercionThrows => var o := heap(c[|c| - 1]); o.BoxedObj? && !o.inner.PBool? && o.coerced.None?
       case Abandoned => true
  }

  /** Every error has its cause in a chain that continues the open objects. */
  lemma {:induction false} ErrorHasCause(heap: Heap, id: Id, path: seq<Id>, limit: nat, fast: bool) returns (c: seq<Id>)
    requires |path| <= limit && Chain(heap, path + [id])
    requires var p := Project(heap, Ref(id), path, limit, fast); p.Bad? && p.error != Abandoned
    ensures path + [id] <= c && Chain(heap, c) && Cause(heap, c, limit, Project(heap, Ref(id), path, limit, fast).error)
    decreases limit - |path|, 0
  {
    hide ProjectItems, ProjectMembers;
    var open := path + [id];
    if id in path {
      var i :| 0 <= i < |path| && path[i] == id;
      assert open[i] == open[|path|];
      return open;
    }
    if |path| == limit || heap(id).BoxedObj? { return open; }
    match heap(id)
    case ArrayObj(slots, _) =>
      c := ReportedItems(heap, slots, 0, open, limit, fast);
    case PlainObj(props, _) =>
      c := ReportedMembers(heap, props, 0, open, limit, fast);
  }

  lemma {:induction false} ReportedItems(heap: Heap, slots: seq<Slot>, i: nat, path: seq<Id>, limit: nat, fast: bool)
    returns (c: seq<Id>)
    requires |path| <= limit && path != [] && Chain(heap, path) && i <= |slots|
    requires heap(path[|path| - 1]).ArrayObj? && heap(path[|path| - 1]).slots == slots
    requires var a := ProjectItems(heap, slots[i..], path, limit, fast); a.BadItems? && a.error != Abandoned
    ensures path <= c && Chain(heap, c) && Cause(heap, c, limit, ProjectItems(heap, slots[i..], path, limit, fast).error)
    decreases limit - |path|, |slots| - i + 1
  {
    hide Project, Cause, Chain;
    DropDrop(slots, i, 1);
    if slots[i].Item? && Project(heap, slots[i].v, path, limit, fast).Bad? {
      BadIsRef(heap, slots[i].v, path, limit, fast);
      assert slots[i] in slots;
      ChainSnoc(heap, path, slots[i].v.id);
      c := ErrorHasCause(heap, slots[i].v.id, path, limit, fast);
    } else {
      c := ReportedItems(heap, slots, i + 1, path, limit, fast);
    }
  }

  lemma {:induction false} ReportedMembers(heap: Heap, props: seq<Prop>, i: nat, path: seq<Id>, limit: nat, fast: bool)
    returns (c: seq<Id>)
    requires |path| <= limit && path != [] && Chain(heap, path) && i <= |props|
    requires heap(path[|path| - 1]).PlainObj? && heap(path[|path| - 1]).props == props
    requires var o := ProjectMembers(heap, props[i..], path, limit, fast); o.BadMembers? && o.error != Abandoned
    ensures path <= c && Chain(heap, c) && Cause(heap, c, limit, ProjectMembers(heap, props[i..], path, limit, fast).error)
    decreases limit - |path|, |props| - i + 1
  {
    hide Project, Cause, Chain;
    DropDrop(props, i, 1);
    var v := props[i].value;
    if Listed(props[i]) && Project(heap, v, path, limit, fast).Bad? {
      BadIsRef(heap, v, path, limit, fast);
      ChainSnoc(heap, path, v.id);
      c := ErrorHasCause(heap, v.id, path, limit, fast);
    } else {
      c := ReportedMembers(heap, props, i + 1, path, limit, fast);
    }
  }

  lemma BadIsRef(heap: Heap, v: Val, path: seq<Id>, limit: nat, fast: bool)
    requires |path| <= limit && Project(heap, v, path, limit, fast).Bad? && Project(heap, v, path, limit, fast) != Bad(Abandoned)
    ensures v.Ref?
  {}

  // ----- Nothing cyclic goes unreported -----

  lemma {:induction false} ItemGood(heap: Heap, slots: seq<Slot>, v: Val, path: seq<Id>, limit: nat)
    requires |path| <= limit && ProjectItems(heap, slots, path, limit, false).Items? && Item(v) in slots
    ensures !Project(heap, v, path, limit, false).Bad?
    decreases |slots|
  {
    hide Project;
    if slots[0] != Item(v) {
      ItemGood(heap, slots[1..], v, path, limit);
    }
  }

  lemma {:induction false} MemberGood(heap: Heap, props: seq<Prop>, i: nat, path: seq<Id>, limit: nat)
    requires |path| <= limit && ProjectMembers(heap, props, path, limit, false).Members? && i < |props| && Listed(props[i])
    ensures !Project(heap, props[i].value, path, limit, false).Bad?
    decreases i
  {
    hide Project;
    if i > 0 {
      MemberGood(heap, props[1..], i - 1, path, limit);
    }
  }

  /** The traversal follows every chain. */
  lemma {:induction false} Follows(heap: Heap, c: seq<Id>, k: nat, limit: nat)
    requires k < |c| && Chain(heap, c) && !Project(heap, Ref(c[0]), [], limit, false).Bad?
    ensures k <= limit && !Project(heap, Ref(c[k]), c[..k], limit, false).Bad?
    decreases k
  {
    hide ProjectItems, ProjectMembers;
    if k == 0 {
      assert c[..0] == [];
    } else {
      Follows(heap, c, k - 1, limit);
      var a, path := c[k - 1], c[..k - 1];
      assert Edge(heap, c[k - 1], c[k - 1 + 1]);
      assert c[..k] == path + [a];
      match heap(a)
      case ArrayObj(slots, _) => ItemGood(heap, slots, Ref(c[k]), path + [a], limit);
      case PlainObj(props, _) =>
        var i :| 0 <= i < |props| && Listed(props[i]) && props[i].value == Ref(c[k]);
        MemberGood(heap, props, i, path + [a], limit);
    }
  }

  /** If the slow path answers a text, no chain from the value comes back to one of its own objects. */
  lemma {:induction false} AnsweredIsAcyclic(heap: Heap, id: Id, limit: nat, c: seq<Id>)
    requires !Project(heap, Ref(id), [], limit, false).Bad?
    requires Chain(heap, c) && c != [] && c[0] == id
    ensures Distinct(c)
  {
    hide ProjectItems, ProjectMembers;
    forall i, j | 0 <= i < j < |c| ensures c[i] != c[j] {
      Follows(heap, c, j, limit);
      assert Edge(heap, c[i], c[i + 1]);
      assert c[..j][i] == c[i];
    }
  }

  /** Unless the limit is hit or a coercion throws first, input is reported cyclic if and only if it is. */
  lemma {:induction false} CyclicIff(heap: Heap, id: Id, limit: nat)
    requires var p := Project(heap, Ref(id), [], limit, false); p != Bad(DepthLimit) && p != Bad(CoercionThrows)
    ensures Project(heap, Ref(id), [], limit, false) == Bad(CyclicInput)
            <==> exists c :: Chain(heap, c) && c != [] && c[0] == id && !Distinct(c)
  {
    hide Project;
    if Project(heap, Ref(id), [], limit, false).Bad? {
      SlowErrors(heap, Ref(id), [], limit);
      assert Project(heap, Ref(id), [], limit, false).error.CyclicInput?;
      assert [] + [id] == [id];
      var c := ErrorHasCause(heap, id, [], limit, false);
      assert c[0] == id;
    } else {
      forall c | Chain(heap, c) && c != [] && c[0] == id ensures Distinct(c) {
        AnsweredIsAcyclic(heap, id, limit, c);
      }
    }
  }

  lemma {:induction false} SlowErrors(heap: Heap, v: Val, path: seq<Id>, limit: nat)
    requires |path| <= limit
    ensures Project(heap, v, path, limit, false) != Bad(Abandoned)
    decreases limit - |path|, 0
  {
    hide ProjectItems, ProjectMembers;
    if v.Ref? && |path| < limit {
      match heap(v.id)
      case ArrayObj(slots, _) => SlowItems(heap, slots, path + [v.id], limit);
      case PlainObj(props, _) => SlowMembers(heap, props, path + [v.id], limit);
      case _ =>
    }
  }

  lemma {:induction false} SlowItems(heap: Heap, slots: seq<Slot>, path: seq<Id>, limit: nat)
    requires |path| <= limit
    ensures ProjectItems(heap, slots, path, limit, false) != BadItems(Abandoned)
    decreases limit - |path|, |slots| + 1
  {
    hide Project;
    if slots != [] {
      if slots[0].Item? { SlowErrors(heap, slots[0].v, path, limit); }
      SlowItems(heap, slots[1..], path, limit);
    }
  }

  lemma {:induction false} SlowMembers(heap: Heap, props: seq<Prop>, path: seq<Id>, limit: nat)
    requires |path| <= limit
    ensures ProjectMembers(heap, props, path, limit, false) != BadMembers(Abandoned)
    decreases limit - |path|, |props| + 1
  {
    hide Project;
    if props != [] {
      SlowErrors(heap, props[0].value, path, limit);
      SlowMembers(heap, props[1..], path, limit);
    }
  }
}
