/** Ecmascript values as a heap of objects, and the JSON value that JSON.stringify() sees in them. */
module JsonHeap {
  import opened Bytes
  import opened Seqs
  import opened JsonTree
  import opened JsonPrint

  type Id = nat

  datatype Prim = PBool(b: bool) | PNum(n: Number) | PNonFinite | PStr(s: Text)

  datatype Val = Undefined | NullVal | P(p: Prim) | Ref(id: Id) | PointerVal | BufferVal | Lightfunc

  datatype Slot = Hole | Item(v: Val)

  datatype Prop = Prop(key: Text, enumerable: bool, value: Val)

  /**
   * abandon: a sparse array, or an object with an array part; the fast path gives up on it.
   * A boxed object has its internal value, and what ToNumber or ToString answers for it, which a valueOf or toString
   * of its own can change; None if that throws.
   */
  datatype Object =
    | ArrayObj(slots: seq<Slot>, abandon: bool)
    | PlainObj(props: seq<Prop>, abandon: bool)
    | FunctionObj
    | BoxedObj(inner: Prim, coerced: Option<Prim>)
    | PointerObj
    | BufferObj(detached: bool)

  type Heap = Id -> Object

  datatype Error = CyclicInput | DepthLimit | Abandoned | CoercionThrows

  datatype Projection = Absent | Tree(tree: Json) | Bad(error: Error)
  datatype Items = Items(items: seq<Json>) | BadItems(error: Error)
  datatype Members = Members(members: seq<Member>) | BadMembers(error: Error)

  function PrimTree(p: Prim): (t: Json) {
    match p
    case PBool(b) => Bool(b)
    case PNum(n) => Num(n)
    case PNonFinite => Null
    case PStr(s) => Str(s)
  }

  /** The slow path coerces Number and String objects, and takes the internal value of Boolean objects. */
  function Unwrapped(inner: Prim, coerced: Option<Prim>): Option<Prim> {
    if inner.PBool? then Some(inner) else coerced
  }

  /** Own enumerable properties whose key is not internal. */
  predicate Listed(p: Prop) {
    p.enumerable && !(p.key != [] && p.key[0] == 0xff)
  }

  /**
   * The JSON value of v below the open objects of path: Absent if it is left out.
   * The fast path tests the depth first, abandons some objects, leaves out detached buffers, and reads internal values.
   */
  function Project(heap: Heap, v: Val, path: seq<Id>, limit: nat, fast: bool): (r: Projection)
    requires |path| <= limit
    decreases limit - |path|, 0
  {
    match v
    case Undefined => Absent
    case PointerVal => Absent
    case BufferVal => Absent
    case Lightfunc => if fast then Bad(Abandoned) else Absent
    case NullVal => Tree(Null)
    case P(p) => Tree(PrimTree(p))
    case Ref(id) =>
      if fast && |path| >= limit then Bad(DepthLimit)
      else if fast && id in path then Bad(CyclicInput)
      else
        match heap(id)
        case FunctionObj => Absent
        case PointerObj => Absent
        case BoxedObj(inner, coerced) =>
          var p := if fast then Some(inner) else Unwrapped(inner, coerced);
          if p.None? then Bad(CoercionThrows) else Tree(PrimTree(p.value))
        case BufferObj(detached) => if detached && !fast then Tree(Null) else Absent
        case ArrayObj(slots, abandon) =>
          if id in path then Bad(CyclicInput)
          else if |path| >= limit then Bad(DepthLimit)
          else if fast && abandon then Bad(Abandoned)
          else
            var a := ProjectItems(heap, slots, path + [id], limit, fast);
            if a.BadItems? then Bad(a.error) else Tree(Arr(a.items))
        case PlainObj(props, abandon) =>
          if id in path then Bad(CyclicInput)
          else if |path| >= limit then Bad(DepthLimit)
          else if fast && abandon then Bad(Abandoned)
          else
            var o := ProjectMembers(heap, props, path + [id], limit, fast);
            if o.BadMembers? then Bad(o.error) else Tree(Obj(o.members))
  }

  /** Holes and values that are left out become null in an array. */
  function ProjectItems(heap: Heap, slots: seq<Slot>, path: seq<Id>, limit: nat, fast: bool): (r: Items)
    requires |path| <= limit
    decreases limit - |path|, |slots| + 1
  {
    if slots == [] then Items([])
    else
      var first := if slots[0].Hole? then Tree(Null) else Project(heap, slots[0].v, path, limit, fast);
      if first.Bad? then BadItems(first.error)
      else
        var rest := ProjectItems(heap, slots[1..], path, limit, fast);
        if rest.BadItems? then rest
        else Items([if first.Absent? then Null else first.tree] + rest.items)
  }

  /** Members whose value is left out are left out with their key. */
  function ProjectMembers(heap: Heap, props: seq<Prop>, path: seq<Id>, limit: nat, fast: bool): (r: Members)
    requires |path| <= limit
    decreases limit - |path|, |props| + 1
  {
    if props == [] then Members([])
    else
      var first := if Listed(props[0]) then Project(heap, props[0].value, path, limit, fast) else Absent;
      if first.Bad? then BadMembers(first.error)
      else
        var rest := ProjectMembers(heap, props[1..], path, limit, fast);
        if rest.BadMembers? || first.Absent? then rest
        else Members([Member(props[0].key, first.tree)] + rest.members)
  }

  // ----- Where the fast path gives up -----

  /** A lightfunc, an abandoned object, an open object or an object at the limit is reached. */
  predicate Stops(heap: Heap, v: Val, path: seq<Id>, limit: nat)
    requires |path| <= limit
    decreases limit - |path|, 0
  {
    v.Lightfunc?
    || (v.Ref?
        && (|path| >= limit || v.id in path
            || match heap(v.id)
               case ArrayObj(slots, abandon) => abandon || ItemsStop(heap, slots, path + [v.id], limit)
               case PlainObj(props, abandon) => abandon || MembersStop(heap, props, path + [v.id], limit)
               case _ => false))
  }

  predicate ItemsStop(heap: Heap, slots: seq<Slot>, path: seq<Id>, limit: nat)
    requires |path| <= limit
    decreases limit - |path|, |slots| + 1
  {
    slots != [] && ((slots[0].Item? && Stops(heap, slots[0].v, path, limit)) || ItemsStop(heap, slots[1..], path, limit))
  }

  predicate MembersStop(heap: Heap, props: seq<Prop>, path: seq<Id>, limit: nat)
    requires |path| <= limit
    decreases limit - |path|, |props| + 1
  {
    props != [] && ((Listed(props[0]) && Stops(heap, props[0].value, path, limit)) || MembersStop(heap, props[1..], path, limit))
  }

  // ----- Where the fast path and the slow path see the same value -----

  predicate Detached(heap: Heap, v: Val) {
    v.Ref? && heap(v.id) == BufferObj(true)
  }

  /** The internal value and the coerced one do not print alike, or coercion throws. */
  predicate Overridden(inner: Prim, coerced: Option<Prim>) {
    var p := Unwrapped(inner, coerced);
    p.None? || PrimTree(p.value) != PrimTree(inner)
  }

  /** An overridden boxed object is reached, or a listed member of an object that holds a detached buffer. */
  predicate Meets(heap: Heap, v: Val, path: seq<Id>, limit: nat)
    requires |path| <= limit
    decreases limit - |path|, 0
  {
    v.Ref? && |path| < limit && v.id !in path
    && match heap(v.id)
       case ArrayObj(slots, _) => ItemsMeet(heap, slots, path + [v.id], limit)
       case PlainObj(props, _) => MembersMeet(heap, props, path + [v.id], limit)
       case BoxedObj(inner, coerced) => Overridden(inner, coerced)
       case _ => false
  }

  predicate ItemsMeet(heap: Heap, slots: seq<Slot>, path: seq<Id>, limit: nat)
    requires |path| <= limit
    decreases limit - |path|, |slots| + 1
  {
    slots != [] && ((slots[0].Item? && Meets(heap, slots[0].v, path, limit)) || ItemsMeet(heap, slots[1..], path, limit))
  }

  predicate MembersMeet(heap: Heap, props: seq<Prop>, path: seq<Id>, limit: nat)
    requires |path| <= limit
    decreases limit - |path|, |props| + 1
  {
    props != []
    && ((Listed(props[0]) && (Detached(heap, props[0].value) || Meets(heap, props[0].value, path, limit)))
        || MembersMeet(heap, props[1..], path, limit))
  }

  /**
   * The fast path fails exactly where it stops. Otherwise it sees what the slow path sees, with a limit at least as large,
   * exactly if it meets nothing that they treat differently.
   */
  lemma {:induction false} FastSlow(heap: Heap, v: Val, path: seq<Id>, limit: nat, limit2: nat)
    requires |path| <= limit <= limit2
    ensures var f, s := Project(heap, v, path, limit, true), Project(heap, v, path, limit2, false);
            && (f.Bad? <==> Stops(heap, v, path, limit))
            && (f.Absent? ==> s == if Detached(heap, v) then Tree(Null) else Absent)
            && (f.Absent? ==> !Meets(heap, v, path, limit)) && (f.Tree? ==> !Detached(heap, v) && !s.Absent?)
            && (f.Tree? ==> (s == f <==> !Meets(heap, v, path, limit)))
    decreases limit - |path|, 0
  {
    hide ProjectItems, ProjectMembers, ItemsStop, MembersStop, ItemsMeet, MembersMeet;
    if v.Ref? && |path| < limit {
      match heap(v.id)
      case ArrayObj(slots, abandon) => ItemsFastSlow(heap, slots, path + [v.id], limit, limit2);
      case PlainObj(props, abandon) => MembersFastSlow(heap, props, path + [v.id], limit, limit2);
      case _ =>
    }
  }

  lemma {:induction false} ItemsFastSlow(heap: Heap, slots: seq<Slot>, path: seq<Id>, limit: nat, limit2: nat)
    requires |path| <= limit <= limit2
    ensures var f, s := ProjectItems(heap, slots, path, limit, true), ProjectItems(heap, slots, path, limit2, false);
            && (f.BadItems? <==> ItemsStop(heap, slots, path, limit))
            && (f.Items? ==> (s == f <==> !ItemsMeet(heap, slots, path, limit)))
    decreases limit - |path|, |slots| + 1
  {
    hide Project, Meets, Stops, Detached;
    if slots != [] {
      ItemsFastSlow(heap, slots[1..], path, limit, limit2);
      if slots[0].Item? { FastSlow(heap, slots[0].v, path, limit, limit2); }
      var f := if slots[0].Hole? then Tree(Null) else Project(heap, slots[0].v, path, limit, true);
      var s := if slots[0].Hole? then Tree(Null) else Project(heap, slots[0].v, path, limit2, false);
      var p, q := ProjectItems(heap, slots[1..], path, limit, true), ProjectItems(heap, slots[1..], path, limit2, false);
      if !f.Bad? && !s.Bad? && p.Items? && q.Items? {
        SameCons(if f.Absent? then Null else f.tree, if s.Absent? then Null else s.tree, p.items, q.items);
      }
    }
  }

  lemma SameCons<T>(x: T, y: T, p: seq<T>, q: seq<T>)
    ensures [x] + p == [y] + q <==> x == y && p == q
  {
    HeadTail([x], p);
    HeadTail([y], q);
    Identity(p);
    Identity(q);
  }

  lemma {:induction false} MembersFastSlow(heap: Heap, props: seq<Prop>, path: seq<Id>, limit: nat, limit2: nat)
    requires |path| <= limit <= limit2
    ensures var f, s := ProjectMembers(heap, props, path, limit, true), ProjectMembers(heap, props, path, limit2, false);
            && (f.BadMembers? <==> MembersStop(heap, props, path, limit))
            && (f.Members? && s.Members? ==> |s.members| >= |f.members|)
            && (f.Members? ==> (s == f <==> !MembersMeet(heap, props, path, limit)))
    decreases limit - |path|, |props| + 1
  {
    hide Project, Meets, Stops, Detached;
    if props != [] {
      MembersFastSlow(heap, props[1..], path, limit, limit2);
      if Listed(props[0]) {
        FastSlow(heap, props[0].value, path, limit, limit2);
        var f, s := Project(heap, props[0].value, path, limit, true), Project(heap, props[0].value, path, limit2, false);
        var p, q := ProjectMembers(heap, props[1..], path, limit, true), ProjectMembers(heap, props[1..], path, limit2, false);
        if f.Tree? && s.Tree? && p.Members? && q.Members? {
          SameCons(Member(props[0].key, f.tree), Member(props[0].key, s.tree), p.members, q.members);
        }
      }
    }
  }
}
