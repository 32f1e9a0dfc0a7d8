/**
 * The value stack of duk_api_stack.c: two stacks in one heap, reference counts,
 * and finalizers that run whenever a count reaches zero and may use and resize the same stacks.
 */
module ValueStack {
  import opened Bytes
  import opened Seqs

  type Id = nat
  datatype TVal = Undefined | Primitive(n: int) | Object(h: Id)

  const VALSTACK_MAX: nat := 1_000_000
  const GROW_STEP: nat := 128
  const SHRINK_THRESHOLD: nat := 256
  const SHRINK_SPARE: nat := 64
  const INTERNAL_EXTRA: nat := 64

  /** duk_idx_t */
  type Index = i: int | -U31 <= i < U31

  // ----- References held by values -----

  function RefOf(v: TVal): multiset<Id> {
    if v.Object? then multiset{v.h} else multiset{}
  }

  /** How often each object is held. */
  function Refs(s: seq<TVal>): (r: multiset<Id>) {
    if s == [] then multiset{} else RefOf(s[0]) + Refs(s[1..])
  }

  lemma {:induction false} RefsAppend(s: seq<TVal>, t: seq<TVal>)
    ensures Refs(s + t) == Refs(s) + Refs(t)
    decreases |s|
  {
    if s == [] {
      Identity(t);
    } else {
      HeadTail(s, t);
      RefsAppend(s[1..], t);
    }
  }

  lemma RefsOne(v: TVal)
    ensures Refs([v]) == RefOf(v)
  {
    assert [v][1..] == [];
  }

  lemma {:induction false} RefsUndefined(s: seq<TVal>)
    requires forall i :: 0 <= i < |s| ==> s[i] == Undefined
    ensures Refs(s) == multiset{}
    decreases |s|
  {
    if s != [] { RefsUndefined(s[1..]); }
  }

  /** The number of slots that hold h. */
  function Count(s: seq<TVal>, h: Id): nat {
    if s == [] then 0 else (if s[0] == Object(h) then 1 else 0) + Count(s[1..], h)
  }

  lemma {:induction false} RefsCount(s: seq<TVal>, h: Id)
    ensures Refs(s)[h] == Count(s, h)
    decreases |s|
  {
    if s != [] { RefsCount(s[1..], h); }
  }

  lemma RefsSplit(s: seq<TVal>, i: nat)
    requires i < |s|
    ensures Refs(s) == Refs(s[..i]) + RefOf(s[i]) + Refs(s[i + 1..])
  {
    TakeDrop(s, i);
    RefsAppend(s[..i], s[i..]);
    DropDrop(s, i, 1);
  }

  lemma RefsUpdate(s: seq<TVal>, i: nat, v: TVal)
    requires i < |s|
    ensures Refs(s[i := v]) + RefOf(s[i]) == Refs(s) + RefOf(v)
  {
    var t := s[i := v];
    RefsSplit(s, i);
    RefsSplit(t, i);
    assert t[..i] == s[..i] && t[i + 1..] == s[i + 1..];
  }

  // ----- Index normalisation -----

  /** 32-bit unsigned sum of the frame size and a negative index, or the index itself. */
  function Unsigned(size: Word32, index: Index): Word32 {
    if index < 0 then (size + (index + U32)) % U32 else index
  }

  /** duk_normalize_index */
  function Normalize(size: nat, index: Index): (r: Option<nat>)
    requires size <= VALSTACK_MAX
    ensures r == if 0 <= index < size then Some(index) else if index < 0 <= size + index then Some(size + index) else None
  {
    var u := Unsigned(size, index);
    if u < size then Some(u) else None
  }

  // ----- What the operations do to the values of a frame -----

  function Inserted(f: seq<TVal>, i: nat): seq<TVal>
    requires i < |f|
  {
    f[..i] + [f[|f| - 1]] + f[i..|f| - 1]
  }

  function Removed(f: seq<TVal>, i: nat): seq<TVal>
    requires i < |f|
  {
    f[..i] + f[i + 1..]
  }

  function Resized(f: seq<TVal>, n: nat): seq<TVal> {
    if n <= |f| then f[..n] else f + seq(n - |f|, _ => Undefined)
  }

  lemma RemoveUndoesInsert(f: seq<TVal>, i: nat)
    requires i < |f|
    ensures Removed(Inserted(f, i), i) == f[..|f| - 1] && Inserted(f, i)[i] == f[|f| - 1]
  {}

  lemma RefsThree(x: seq<TVal>, y: seq<TVal>, z: seq<TVal>)
    ensures Refs(x + y + z) == Refs(x) + Refs(y) + Refs(z)
  {
    RefsAppend(x + y, z);
    RefsAppend(x, y);
  }

  lemma InsertRefs(f: seq<TVal>, i: nat)
    requires i < |f|
    ensures Refs(Inserted(f, i)) == Refs(f)
  {
    hide Refs;
    var n := |f| - 1;
    var x, y, z := f[..i], f[i..n], [f[n]];
    RefsThree(x, y, z);
    RefsThree(x, z, y);
    assert x + y + z == f;
  }

  /** Moving the top slot down to p, in a whole stack and in its frame. */
  lemma InsertSlots(s: seq<TVal>, bottom: nat, top: nat, p: nat)
    requires bottom <= p < top <= |s|
    ensures var s2 := s[..p] + [s[top - 1]] + s[p..top - 1] + s[top..];
            && |s2| == |s| && s2[..top] == Inserted(s[..top], p) && s2[bottom..top] == Inserted(s[bottom..top], p - bottom)
            && s2[..bottom] == s[..bottom] && (forall i :: top <= i < |s| ==> s2[i] == s[i])
            && (p == top - 1 ==> s2 == s)
  {
    var x, y, z := s[..p], [s[top - 1]], s[p..top - 1];
    var live, f := s[..top], s[bottom..top];
    var s2 := x + y + z + s[top..];
    AppendSplit(x + y + z, s[top..]);
    SliceSlice(s, 0, top, p, top - 1);
    SliceSlice(s, bottom, top, p - bottom, |f| - 1);
    assert live[..p] == x && live[p..top - 1] == z && s2[..top] == Inserted(live, p);
    assert f[..p - bottom] == x[bottom..] && f[p - bottom..|f| - 1] == z && Inserted(f, p - bottom) == x[bottom..] + y + z;
    assert s2[bottom..top] == (x + y + z)[bottom..] == x[bottom..] + y + z;
  }

  lemma RemoveRefs(f: seq<TVal>, i: nat)
    requires i < |f|
    ensures Refs(Removed(f, i)) + RefOf(f[i]) == Refs(f)
  {
    RefsSplit(f, i);
    RefsAppend(f[..i], f[i + 1..]);
  }

  /** The top value of a stack and the rest. */
  lemma RefsTop(s: seq<TVal>, n: nat)
    requires n < |s|
    ensures Refs(s[..n + 1]) == Refs(s[..n]) + Refs([s[n]])
  {
    assert s[..n + 1] == s[..n] + [s[n]];
    RefsAppend(s[..n], [s[n]]);
  }

  /** Undefined values count nothing. */
  lemma RefsPadded(s: seq<TVal>, m: nat, n: nat)
    requires m <= n <= |s| && forall i :: m <= i < n ==> s[i] == Undefined
    ensures Refs(s[..n]) == Refs(s[..m])
  {
    assert s[..n] == s[..m] + s[m..n];
    RefsAppend(s[..m], s[m..n]);
    RefsUndefined(s[m..n]);
  }

  // ----- Counts and slots agree -----

  /** Every count is the number of slots of the two stacks that hold the object, and of values in transit. */
  predicate Balanced(refs: multiset<Id>, x: seq<TVal>, y: seq<TVal>, transit: seq<TVal>) {
    refs == Refs(x) + Refs(y) + Refs(transit)
  }

  lemma BalancedSwap(refs: multiset<Id>, x: seq<TVal>, y: seq<TVal>, transit: seq<TVal>)
    requires Balanced(refs, x, y, transit)
    ensures Balanced(refs, y, x, transit)
  {}

  lemma BalancedCount(refs: multiset<Id>, x: seq<TVal>, y: seq<TVal>, h: Id)
    requires Balanced(refs, x, y, [])
    ensures refs[h] == Count(x, h) + Count(y, h)
  {
    RefsCount(x, h);
    RefsCount(y, h);
  }

  /** The slots of the first stack are other values, which hold the same. */
  lemma Regroup(refs: multiset<Id>, x: seq<TVal>, x2: seq<TVal>, y: seq<TVal>, t: seq<TVal>, t2: seq<TVal>)
    requires Balanced(refs, x, y, t) && Refs(x) + Refs(t) == Refs(x2) + Refs(t2)
    ensures Balanced(refs, x2, y, t2)
  {
    hide Refs;
    assert refs == Refs(x) + Refs(t) + Refs(y);
  }

  lemma Drop(refs: multiset<Id>, x: seq<TVal>, y: seq<TVal>, v: TVal)
    requires Balanced(refs, x, y, [v])
    ensures Balanced(refs - RefOf(v), x, y, []) && RefOf(v) <= refs
  {
    RefsOne(v);
  }

  lemma Cancel(p: multiset<Id>, q: multiset<Id>, r: multiset<Id>)
    requires p + r == q + r
    ensures p == q
  {
    assert (p + r) - r == p && (q + r) - r == q;
  }

  lemma Shuffle(refs: multiset<Id>, x: multiset<Id>, y: multiset<Id>, x2: multiset<Id>, t: multiset<Id>, v: multiset<Id>)
    requires refs == x + y && x2 + t == x + v
    ensures refs + v == x2 + y + t
  {
    assert refs + v == x + v + y;
  }

  lemma PopBalanced(refs: multiset<Id>, s: seq<TVal>, n: nat, y: seq<TVal>)
    requires n < |s| && Balanced(refs, s[..n + 1], y, [])
    ensures Balanced(refs, s[..n], y, [s[n]])
  {
    RefsTop(s, n);
    Regroup(refs, s[..n + 1], s[..n], y, [], [s[n]]);
  }

  lemma RaiseBalanced(refs: multiset<Id>, s: seq<TVal>, m: nat, n: nat, y: seq<TVal>)
    requires m <= n <= |s| && (forall i :: m <= i < n ==> s[i] == Undefined) && Balanced(refs, s[..m], y, [])
    ensures Balanced(refs, s[..n], y, [])
  {
    RefsPadded(s, m, n);
    Regroup(refs, s[..m], s[..n], y, [], []);
  }

  lemma PushBalanced(refs: multiset<Id>, s: seq<TVal>, n: nat, y: seq<TVal>, v: TVal)
    requires n < |s| && Balanced(refs, s[..n], y, [])
    ensures Balanced(refs + RefOf(v), s[n := v][..n + 1], y, [])
  {
    var s2 := s[n := v];
    RefsTop(s2, n);
    RefsOne(v);
    assert s2[..n] == s[..n];
  }

  lemma PermuteBalanced(refs: multiset<Id>, x: seq<TVal>, x2: seq<TVal>, y: seq<TVal>)
    requires Refs(x) == Refs(x2) && Balanced(refs, x, y, [])
    ensures Balanced(refs, x2, y, [])
  {}

  lemma InsertBalanced(refs: multiset<Id>, x: seq<TVal>, i: nat, y: seq<TVal>)
    requires i < |x| && Balanced(refs, x, y, [])
    ensures Balanced(refs, Inserted(x, i), y, [])
  {
    InsertRefs(x, i);
    PermuteBalanced(refs, x, Inserted(x, i), y);
  }

  lemma RemoveBalanced(refs: multiset<Id>, x: seq<TVal>, i: nat, y: seq<TVal>)
    requires i < |x| && Balanced(refs, x, y, [])
    ensures Balanced(refs, Removed(x, i), y, [x[i]])
  {
    RemoveRefs(x, i);
    RefsOne(x[i]);
    Regroup(refs, x, Removed(x, i), y, [], [x[i]]);
  }

  lemma SwapBalanced(refs: multiset<Id>, x: seq<TVal>, i: nat, j: nat, y: seq<TVal>)
    requires i < |x| && j < |x| && Balanced(refs, x, y, [])
    ensures Balanced(refs, x[i := x[j]][j := x[i]], y, [])
  {
    var x1 := x[i := x[j]];
    var x2 := x1[j := x[i]];
    RefsUpdate(x, i, x[j]);
    RefsUpdate(x1, j, x[i]);
    hide Refs;
    if i == j {
      assert x2 == x;
    } else {
      Cancel(Refs(x2), Refs(x), RefOf(x[j]));
    }
  }

  lemma StoreBalanced(refs: multiset<Id>, x: seq<TVal>, i: nat, y: seq<TVal>, v: TVal)
    requires i < |x| && Balanced(refs, x, y, [])
    ensures Balanced(refs + RefOf(v), x[i := v], y, [x[i]])
  {
    RefsUpdate(x, i, v);
    RefsOne(x[i]);
    assert Refs([]) == multiset{};
    hide Refs;
    Shuffle(refs, Refs(x), Refs(y), Refs(x[i := v]), Refs([x[i]]), RefOf(v));
  }

  /** The last value replaces the one at i, which is then in transit. */
  lemma ReplaceBalanced(refs: multiset<Id>, x: seq<TVal>, i: nat, y: seq<TVal>)
    requires i < |x| && Balanced(refs, x, y, [])
    ensures var n := |x| - 1; Balanced(refs, x[i := x[n]][..n], y, [x[i]])
  {
    ReplaceRefs(x, i);
    Regroup(refs, x, x[i := x[|x| - 1]][..|x| - 1], y, [], [x[i]]);
  }

  /** The slots from bottom on, when the value at q replaces the one at p. */
  lemma ReplaceFrame(s: seq<TVal>, bottom: nat, p: nat, q: nat)
    requires bottom <= p <= q < |s|
    ensures var f := s[bottom..q + 1]; s[p := s[q]][q := Undefined][bottom..q] == f[p - bottom := f[q - bottom]][..q - bottom]
  {}

  lemma ReplaceRefs(x: seq<TVal>, i: nat)
    requires i < |x|
    ensures var n := |x| - 1; Refs(x[i := x[n]][..n]) + Refs([x[i]]) == Refs(x)
  {
    hide Refs;
    var n := |x| - 1;
    var x2 := x[i := x[n]];
    RefsUpdate(x, i, x[n]);
    RefsTop(x2, n);
    RefsOne(x[n]);
    RefsOne(x[i]);
    assert x2[..n + 1] == x2 && x2[n] == x[n];
    Cancel(Refs(x2[..n]) + RefOf(x[i]), Refs(x), RefOf(x[n]));
  }

  lemma MoveBalanced(refs: multiset<Id>, x: seq<TVal>, y: seq<TVal>, k: nat)
    requires k <= |y| && Balanced(refs, x, y, [])
    ensures Balanced(refs, x + y[k..], y[..k], [])
  {
    TakeDrop(y, k);
    RefsAppend(y[..k], y[k..]);
    RefsAppend(x, y[k..]);
  }

  lemma CopyBalanced(refs: multiset<Id>, x: seq<TVal>, y: seq<TVal>, k: nat)
    requires k <= |y| && Balanced(refs, x, y, [])
    ensures Balanced(refs + Refs(y[k..]), x + y[k..], y, [])
  {
    RefsAppend(x, y[k..]);
  }

  // ----- Programs -----

  datatype Which = A | B

  datatype Op =
    | Push(v: TVal)
    | Dup(i: Index)
    | DupTop
    | Swap(i: Index, j: Index)
    | Insert(i: Index)
    | Replace(i: Index)
    | Copy(i: Index, j: Index)
    | Remove(i: Index)
    | Pop
    | PopN(n: Index)
    | SetTop(i: Index)
    | XCopyMove(n: Index, isCopy: bool, itself: bool)
    | CheckStack(extra: Index, granted: bool)
    | Resize(spare: nat, shrink: bool, compact: bool, granted: bool)

  /** One operation, and what the finalizers that it sets off do, in the order in which they run. */
  datatype Step = Step(on: Which, op: Op, finalizers: seq<Script>)

  /** A finalizer: a call frame on both stacks, and the finalizers that clearing that frame sets off. */
  datatype Script = Script(steps: seq<Step>, closing: seq<Script>)

  function Size(s: Script): nat
    decreases s, 0
  {
    1 + StepsSize(s.steps) + ScriptsSize(s.closing)
  }

  function ScriptsSize(fs: seq<Script>): nat
    decreases fs, 1
  {
    if fs == [] then 0 else 1 + Size(fs[0]) + ScriptsSize(fs[1..])
  }

  function StepsSize(steps: seq<Step>): nat
    decreases steps, 1
  {
    if steps == [] then 0 else 1 + ScriptsSize(steps[0].finalizers) + StepsSize(steps[1..])
  }

  datatype Status = Okay | NoSpace | BadIndex | BadCount | BadContext | Refused

  /** What an operation answers and leaves in the frame f of its stack and the frame g of the other, with room for more. */
  function Effect(op: Op, f: seq<TVal>, g: seq<TVal>, room: nat): (r: (Status, seq<TVal>, seq<TVal>))
    requires |f| + room <= VALSTACK_MAX && |g| <= VALSTACK_MAX
    ensures r.0 != Refused
  {
    match op
    case Push(v) => if room == 0 then (NoSpace, f, g) else (Okay, f + [v], g)
    case Dup(i) =>
      if room == 0 then (NoSpace, f, g)
      else if !Addresses(f, i) then (BadIndex, f, g)
      else (Okay, f + [f[Place(f, i)]], g)
    case DupTop =>
      if room == 0 then (NoSpace, f, g)
      else if f == [] then (BadIndex, f, g)
      else (Okay, f + [f[|f| - 1]], g)
    case Swap(i, j) =>
      if !Addresses(f, i) || !Addresses(f, j) then (BadIndex, f, g)
      else (Okay, f[Place(f, i) := f[Place(f, j)]][Place(f, j) := f[Place(f, i)]], g)
    case Insert(i) =>
      if !Addresses(f, i) then (BadIndex, f, g) else (Okay, Inserted(f, Place(f, i)), g)
    case Replace(i) =>
      if !Addresses(f, i) then (BadIndex, f, g)
      else (Okay, f[Place(f, i) := f[|f| - 1]][..|f| - 1], g)
    case Copy(i, j) =>
      if !Addresses(f, i) || !Addresses(f, j) then (BadIndex, f, g)
      else (Okay, f[Place(f, j) := f[Place(f, i)]], g)
    case Remove(i) =>
      if !Addresses(f, i) then (BadIndex, f, g) else (Okay, Removed(f, Place(f, i)), g)
    case Pop => if f == [] then (BadCount, f, g) else (Okay, f[..|f| - 1], g)
    case PopN(n) => if 0 <= n <= |f| then (Okay, f[..|f| - n], g) else (BadCount, f, g)
    case SetTop(i) =>
      if -|f| <= i <= |f| + room then (Okay, Resized(f, if i < 0 then |f| + i else i), g) else (BadIndex, f, g)
    case XCopyMove(n, isCopy, itself) =>
      if itself then (BadContext, f, g)
      else if !(0 <= n <= VALSTACK_MAX) then (BadCount, f, g)
      else if n > room then (NoSpace, f, g)
      else if n > |g| then (BadCount, f, g)
      else (Okay, f + g[|g| - n..], if isCopy then g else g[..|g| - n])
    case CheckStack(_, _) => (Okay, f, g)
    case Resize(_, _, _, _) => (Okay, f, g)
  }

  lemma Idle(op: Op, f: seq<TVal>, g: seq<TVal>, room: nat)
    requires |f| + room <= VALSTACK_MAX && |g| <= VALSTACK_MAX
    requires op.CheckStack? || op.Resize? || (op.XCopyMove? && op.itself)
    ensures Effect(op, f, g, room) == (if op.XCopyMove? then BadContext else Okay, f, g)
  {}

  /** Refused or not, a check or a resize leaves the frames. */
  lemma Settled(op: Op, f: seq<TVal>, g: seq<TVal>, room: nat)
    requires |f| + room <= VALSTACK_MAX && |g| <= VALSTACK_MAX
    ensures op.CheckStack? || op.Resize? ==> Effect(op, f, g, room) == (Okay, f, g)
  {}

  /** An index counts from the bottom of the frame, or from its top if negative. */
  predicate Addresses(f: seq<TVal>, i: Index) {
    -|f| <= i < |f|
  }

  function Place(f: seq<TVal>, i: Index): (k: nat)
    requires Addresses(f, i)
    ensures k < |f|
  {
    if i < 0 then |f| + i else i
  }

  /** The step takes the frames f and g of the two stacks to f2 and g2, with room for more on the stack that it is on. */
  ghost predicate Takes(s: Step, f: seq<TVal>, g: seq<TVal>, room: nat, f2: seq<TVal>, g2: seq<TVal>) {
    match s.on
    case A =>
      |f| + room <= VALSTACK_MAX && |g| <= VALSTACK_MAX
      && var e := Effect(s.op, f, g, room); f2 == e.1 && g2 == e.2
    case B =>
      |g| + room <= VALSTACK_MAX && |f| <= VALSTACK_MAX
      && var e := Effect(s.op, g, f, room); g2 == e.1 && f2 == e.2
  }

  /** The steps, one after the other, take f and g to f2 and g2; the ends of the stacks may move on the way. */
  ghost predicate Reaches(steps: seq<Step>, f: seq<TVal>, g: seq<TVal>, f2: seq<TVal>, g2: seq<TVal>) {
    if steps == [] then f2 == f && g2 == g
    else
      var n := |steps| - 1;
      exists f1, g1, room: nat :: Reaches(steps[..n], f, g, f1, g1) && Takes(steps[n], f1, g1, room, f2, g2)
  }

  lemma ReachesNone(f: seq<TVal>, g: seq<TVal>)
    ensures Reaches([], f, g, f, g)
  {}

  lemma ReachesNext(steps: seq<Step>, i: nat, f: seq<TVal>, g: seq<TVal>, f1: seq<TVal>, g1: seq<TVal>, room: nat,
                    f2: seq<TVal>, g2: seq<TVal>)
    requires i < |steps| && Reaches(steps[..i], f, g, f1, g1) && Takes(steps[i], f1, g1, room, f2, g2)
    ensures Reaches(steps[..i + 1], f, g, f2, g2)
  {
    hide Takes;
    var now := steps[..i + 1];
    assert now[..i] == steps[..i] && now[i] == steps[i];
  }

  // ----- Threads and their heap -----

  class Thread {
    var valstack: seq<TVal>
    var bottom: nat
    var top: nat

    constructor (size: nat)
      requires size <= VALSTACK_MAX
      ensures Ok() && bottom == 0 && Live() == [] && |valstack| == size
    {
      valstack := seq(size, _ => Undefined);
      bottom, top := 0, 0;
    }

    /** The cursors are in order, and all slots above top are undefined. */
    ghost predicate Ok()
      reads this
    {
      && bottom <= top <= |valstack| <= VALSTACK_MAX
      && forall i :: top <= i < |valstack| ==> valstack[i] == Undefined
    }

    ghost function Live(): seq<TVal>
      requires top <= |valstack|
      reads this
    {
      valstack[..top]
    }

    /** The values that the running function can address. */
    ghost function Frame(): seq<TVal>
      requires bottom <= top <= |valstack|
      reads this
    {
      valstack[bottom..top]
    }
  }

  /** The heap, and its operations on a stack t while there is another stack o. */
  class Heap {
    /** The reference count field of every object. */
    var refs: multiset<Id>
    /** What a reallocated block holds beyond the old contents. */
    const junk: nat -> TVal

    constructor (t: Thread, o: Thread, junk: nat -> TVal)
      requires t != o && t.Ok() && o.Ok() && t.Live() == o.Live() == []
      ensures Inv(t, o)
    {
      this.junk := junk;
      refs := multiset{};
    }

    /** Both stacks are in order, and each count is the number of live slots and of values in transit. */
    ghost predicate Counted(t: Thread, o: Thread, transit: seq<TVal>)
      reads this, t, o
    {
      t != o && t.Ok() && o.Ok() && Balanced(refs, t.Live(), o.Live(), transit)
    }

    ghost predicate Inv(t: Thread, o: Thread)
      reads this, t, o
    {
      Counted(t, o, [])
    }

    /** Each object's count is the number of live slots that hold it. */
    lemma CountsAreSlots(t: Thread, o: Thread, h: Id)
      requires Inv(t, o)
      ensures refs[h] == Count(t.Live(), h) + Count(o.Live(), h)
    {
      BalancedCount(refs, t.Live(), o.Live(), h);
    }

    lemma Mirror(t: Thread, o: Thread)
      requires Inv(t, o)
      ensures Inv(o, t)
    {
      BalancedSwap(refs, t.Live(), o.Live(), []);
    }

    /** Cursors and live values of t are as before; the end of the stack may have moved. */
    static twostate predicate Same(t: Thread)
      reads t
    {
      t.bottom == old(t.bottom) && t.top == old(t.top) && t.top <= |t.valstack| && old(t.top <= |t.valstack|)
      && t.Live() == old(t.Live())
    }

    /** The callers' part of t is as before. */
    static twostate predicate Below(t: Thread)
      reads t
    {
      t.bottom == old(t.bottom) && t.bottom <= |t.valstack| && old(t.bottom <= |t.valstack|)
      && t.valstack[..t.bottom] == old(t.valstack[..t.bottom])
    }

    static twostate lemma SameFrame(t: Thread)
      requires Same(t) && t.bottom <= t.top
      ensures t.Frame() == old(t.Frame())
    {
      assert t.Frame() == t.Live()[t.bottom..] && old(t.Frame()) == old(t.Live()[t.bottom..]);
    }

    method Incref(v: TVal)
      modifies `refs
      ensures refs == old(refs) + RefOf(v)
    {
      if v.Object? { refs := refs[v.h := refs[v.h] + 1]; }
    }

    /** The invariant holds again before any finalizer runs. */
    method Decref(t: Thread, o: Thread, v: TVal, fs: seq<Script>) returns (rest: seq<Script>)
      requires Counted(t, o, [v])
      modifies this, t, o
      ensures Inv(t, o) && Same(t) && Same(o) && ScriptsSize(rest) <= ScriptsSize(fs)
      decreases ScriptsSize(fs), 0
    {
      hide Balanced;
      Drop(refs, t.Live(), o.Live(), v);
      rest := fs;
      if v.Object? {
        assert RefOf(v)[v.h] <= refs[v.h];
        refs := refs[v.h := refs[v.h] - 1];
        assert refs == old(refs) - RefOf(v);
        if refs[v.h] == 0 && fs != [] {
          RunFinalizer(t, o, fs[0]);
          rest := fs[1..];
        }
      } else {
        assert refs - RefOf(v) == refs;
      }
    }

    /** A finalizer runs above all live values, and its frame is cleared when it ends. */
    method RunFinalizer(t: Thread, o: Thread, s: Script)
      requires Inv(t, o)
      modifies this, t, o
      ensures Inv(t, o) && Same(t) && Same(o)
      decreases Size(s)
    {
      hide Balanced;
      var bottomT, bottomO := t.bottom, o.bottom;
      t.bottom, o.bottom := t.top, o.top;
      RunFrame(t, o, s);
      t.bottom, o.bottom := bottomT, bottomO;
    }

    method RunFrame(t: Thread, o: Thread, s: Script)
      requires Inv(t, o)
      modifies this, t, o
      ensures Inv(t, o) && Below(t) && Below(o) && t.top == t.bottom && o.top == o.bottom
      decreases Size(s), 0
    {
      hide Balanced;
      Run(t, o, s.steps);
      var ok, rest := SetTopOf(t, o, 0, s.closing);
      Mirror(t, o);
      ok, rest := SetTopOf(o, t, 0, rest);
      Mirror(o, t);
    }

    method SetTopOf(t: Thread, o: Thread, index: Index, fs: seq<Script>) returns (ok: bool, rest: seq<Script>)
      requires Inv(t, o)
      modifies this, t, o
      ensures Inv(t, o) && Below(t) && Same(o) && ScriptsSize(rest) <= ScriptsSize(fs)
      ensures ok <==> -old(|t.Frame()|) <= index <= old(|t.valstack| - t.bottom)
      ensures !ok ==> Same(t)
      ensures ok ==> t.Frame() == Resized(old(t.Frame()), if index < 0 then old(|t.Frame()|) + index else index)
      decreases ScriptsSize(fs), 3
    {
      hide Balanced;
      rest := fs;
      var size, limit := t.top - t.bottom, |t.valstack| - t.bottom;
      var u := Unsigned(size, index);
      if u > limit { return false, fs; }
      ok := true;
      if u >= size {
        RaiseBalanced(refs, t.valstack, t.top, t.bottom + u, o.Live());
        t.top := t.bottom + u;
      } else {
        rest := PopCount(t, o, size - u, fs);
        assert t.Frame() == old(t.Frame())[..u];
      }
    }

    method SetTopStatus(t: Thread, o: Thread, i: Index, fs: seq<Script>) returns (r: Status)
      requires Inv(t, o)
      modifies this, t, o
      ensures Inv(t, o) && Below(t) && Same(o)
      ensures (r, t.Frame(), o.Frame()) == old(Effect(SetTop(i), t.Frame(), o.Frame(), |t.valstack| - t.top))
      decreases ScriptsSize(fs), 4
    {
      var ok, rest := SetTopOf(t, o, i, fs);
      r := if ok then Okay else BadIndex;
    }

    /** Each value is out of the stack before its count drops; the stack is looked up again after each. */
    method PopCount(t: Thread, o: Thread, n: nat, fs: seq<Script>) returns (rest: seq<Script>)
      requires Inv(t, o) && n <= t.top - t.bottom
      modifies this, t, o
      ensures Inv(t, o) && Below(t) && Same(o) && ScriptsSize(rest) <= ScriptsSize(fs)
      ensures t.top == old(t.top) - n && t.Live() == old(t.Live())[..t.top]
      decreases ScriptsSize(fs), 2
    {
      hide Balanced;
      var count := n;
      rest := fs;
      while count > 0
        invariant Inv(t, o) && Below(t) && Same(o) && ScriptsSize(rest) <= ScriptsSize(fs)
        invariant t.top == old(t.top) - n + count && t.Live() == old(t.Live())[..t.top]
      {
        count := count - 1;
        rest := PopOne(t, o, rest);
      }
    }

    method PopOne(t: Thread, o: Thread, fs: seq<Script>) returns (rest: seq<Script>)
      requires Inv(t, o) && t.bottom < t.top
      modifies this, t, o
      ensures Inv(t, o) && Below(t) && Same(o) && ScriptsSize(rest) <= ScriptsSize(fs)
      ensures t.top == old(t.top) - 1 && t.Live() == old(t.Live())[..t.top]
      decreases ScriptsSize(fs), 1
    {
      hide Balanced;
      t.top := t.top - 1;
      var v := t.valstack[t.top];
      PopBalanced(refs, t.valstack, t.top, o.Live());
      t.valstack := t.valstack[t.top := Undefined];
      assert t.Live() == old(t.Live())[..t.top];
      rest := Decref(t, o, v, fs);
    }

    // ----- Operations that run no finalizer -----

    method PushValue(t: Thread, o: Thread, v: TVal) returns (r: Status)
      requires Inv(t, o)
      modifies `refs, t
      ensures Inv(t, o) && Below(t) && (r, t.Frame(), o.Frame()) == old(Effect(Push(v), t.Frame(), o.Frame(), |t.valstack| - t.top))
      ensures |t.valstack| == old(|t.valstack|)
    {
      hide Balanced;
      if t.top >= |t.valstack| { return NoSpace; }
      PushBalanced(refs, t.valstack, t.top, o.Live(), v);
      t.valstack := t.valstack[t.top := v];
      t.top := t.top + 1;
      Incref(v);
      assert t.Frame() == old(t.Frame()) + [v];
      return Okay;
    }

    method DupAt(t: Thread, o: Thread, i: Index) returns (r: Status)
      requires Inv(t, o)
      modifies `refs, t
      ensures Inv(t, o) && Below(t) && (r, t.Frame(), o.Frame()) == old(Effect(Dup(i), t.Frame(), o.Frame(), |t.valstack| - t.top))
    {
      if t.top >= |t.valstack| { return NoSpace; }
      var k := Normalize(t.top - t.bottom, i);
      if k.None? { return BadIndex; }
      r := PushValue(t, o, t.valstack[t.bottom + k.value]);
    }

    method DupLast(t: Thread, o: Thread) returns (r: Status)
      requires Inv(t, o)
      modifies `refs, t
      ensures Inv(t, o) && Below(t) && (r, t.Frame(), o.Frame()) == old(Effect(DupTop, t.Frame(), o.Frame(), |t.valstack| - t.top))
    {
      if t.top >= |t.valstack| { return NoSpace; }
      if t.top - t.bottom <= 0 { return BadIndex; }
      r := PushValue(t, o, t.valstack[t.top - 1]);
    }

    method SwapAt(t: Thread, o: Thread, i: Index, j: Index) returns (r: Status)
      requires Inv(t, o)
      modifies t
      ensures Inv(t, o) && Below(t) && (r, t.Frame(), o.Frame()) == old(Effect(Swap(i, j), t.Frame(), o.Frame(), |t.valstack| - t.top))
    {
      hide Balanced;
      var k1 := Normalize(t.top - t.bottom, i);
      if k1.None? { return BadIndex; }
      var k2 := Normalize(t.top - t.bottom, j);
      if k2.None? { return BadIndex; }
      var p, q := t.bottom + k1.value, t.bottom + k2.value;
      SwapBalanced(refs, t.Live(), p, q, o.Live());
      t.valstack := t.valstack[p := t.valstack[q]][q := t.valstack[p]];
      assert t.Live() == old(t.Live()[p := t.Live()[q]][q := t.Live()[p]]);
      return Okay;
    }

    method InsertAt(t: Thread, o: Thread, i: Index) returns (r: Status)
      requires Inv(t, o)
      modifies t
      ensures Inv(t, o) && Below(t) && (r, t.Frame(), o.Frame()) == old(Effect(Insert(i), t.Frame(), o.Frame(), |t.valstack| - t.top))
    {
      hide Balanced;
      var k := Normalize(t.top - t.bottom, i);
      if k.None? { return BadIndex; }
      var p, q := t.bottom + k.value, t.top - 1;
      InsertBalanced(refs, t.Live(), p, o.Live());
      InsertSlots(t.valstack, t.bottom, t.top, p);
      if q > p {
        var tmp := t.valstack[q];
        t.valstack := t.valstack[..p] + [tmp] + t.valstack[p..q] + t.valstack[q + 1..];
      }
      return Okay;
    }

    // ----- Operations that may run finalizers -----

    method ReplaceAt(t: Thread, o: Thread, i: Index, fs: seq<Script>) returns (r: Status)
      requires Inv(t, o)
      modifies this, t, o
      ensures Inv(t, o) && Below(t) && Same(o)
      ensures (r, t.Frame(), o.Frame()) == old(Effect(Replace(i), t.Frame(), o.Frame(), |t.valstack| - t.top))
      decreases ScriptsSize(fs), 1
    {
      hide Balanced;
      if t.top == t.bottom { return BadIndex; }
      var k := Normalize(t.top - t.bottom, i);
      if k.None? { return BadIndex; }
      var p, q := t.bottom + k.value, t.top - 1;
      ReplaceBalanced(refs, t.Live(), p, o.Live());
      var tmp := t.valstack[p];
      t.valstack := t.valstack[p := t.valstack[q]][q := Undefined];
      t.top := t.top - 1;
      assert t.Live() == old(t.Live()[p := t.Live()[q]][..q]);
      ReplaceFrame(old(t.valstack), t.bottom, p, q);
      var rest := Decref(t, o, tmp, fs);
      return Okay;
    }

    method CopyTo(t: Thread, o: Thread, i: Index, j: Index, fs: seq<Script>) returns (r: Status)
      requires Inv(t, o)
      modifies this, t, o
      ensures Inv(t, o) && Below(t) && Same(o)
      ensures (r, t.Frame(), o.Frame()) == old(Effect(Copy(i, j), t.Frame(), o.Frame(), |t.valstack| - t.top))
      decreases ScriptsSize(fs), 1
    {
      hide Balanced;
      var k1 := Normalize(t.top - t.bottom, i);
      if k1.None? { return BadIndex; }
      var k2 := Normalize(t.top - t.bottom, j);
      if k2.None? { return BadIndex; }
      var p, q := t.bottom + k1.value, t.bottom + k2.value;
      var v, tmp := t.valstack[p], t.valstack[q];
      StoreBalanced(refs, t.Live(), q, o.Live(), v);
      t.valstack := t.valstack[q := v];
      Incref(v);
      assert t.Live() == old(t.Live())[q := v];
      var rest := Decref(t, o, tmp, fs);
      return Okay;
    }

    method RemoveAt(t: Thread, o: Thread, i: Index, fs: seq<Script>) returns (r: Status)
      requires Inv(t, o)
      modifies this, t, o
      ensures Inv(t, o) && Below(t) && Same(o)
      ensures (r, t.Frame(), o.Frame()) == old(Effect(Remove(i), t.Frame(), o.Frame(), |t.valstack| - t.top))
      decreases ScriptsSize(fs), 1
    {
      hide Balanced;
      var k := Normalize(t.top - t.bottom, i);
      if k.None? { return BadIndex; }
      var p, q := t.bottom + k.value, t.top - 1;
      RemoveBalanced(refs, t.Live(), p, o.Live());
      var tmp := t.valstack[p];
      t.valstack := t.valstack[..p] + t.valstack[p + 1..q + 1] + [Undefined] + t.valstack[q + 1..];
      t.top := t.top - 1;
      assert t.Live() == old(Removed(t.Live(), p));
      assert t.Frame() == old(Removed(t.Frame(), p - t.bottom));
      var rest := Decref(t, o, tmp, fs);
      return Okay;
    }

    method PopMany(t: Thread, o: Thread, n: Index, fs: seq<Script>) returns (r: Status)
      requires Inv(t, o)
      modifies this, t, o
      ensures Inv(t, o) && Below(t) && Same(o)
      ensures (r, t.Frame(), o.Frame()) == old(Effect(PopN(n), t.Frame(), o.Frame(), |t.valstack| - t.top))
      decreases ScriptsSize(fs), 3
    {
      hide Balanced;
      if n < 0 { return BadCount; }
      if t.top - t.bottom < n { return BadCount; }
      var rest := PopCount(t, o, n, fs);
      assert t.Frame() == old(t.Frame())[..old(|t.Frame()|) - n];
      return Okay;
    }

    method PopLast(t: Thread, o: Thread, fs: seq<Script>) returns (r: Status)
      requires Inv(t, o)
      modifies this, t, o
      ensures Inv(t, o) && Below(t) && Same(o)
      ensures (r, t.Frame(), o.Frame()) == old(Effect(Pop, t.Frame(), o.Frame(), |t.valstack| - t.top))
      decreases ScriptsSize(fs), 3
    {
      hide Balanced;
      if t.top == t.bottom { return BadCount; }
      var rest := PopOne(t, o, fs);
      assert t.Frame() == old(t.Frame())[..old(|t.Frame()|) - 1];
      return Okay;
    }

    // ----- Between the stacks -----

    /** Copies or moves the top n values of o to t. */
    method XCopyMoveRaw(t: Thread, o: Thread, n: Index, isCopy: bool) returns (r: Status)
      requires Inv(t, o)
      modifies `refs, t, o
      ensures Inv(t, o) && Below(t) && Below(o)
      ensures (r, t.Frame(), o.Frame()) == old(Effect(XCopyMove(n, isCopy, false), t.Frame(), o.Frame(), |t.valstack| - t.top))
    {
      hide Balanced;
      if n < 0 || n > VALSTACK_MAX { return BadCount; }
      if n == 0 {
        assert t.Frame() == t.Frame() + o.Frame()[|o.Frame()|..] && o.Frame() == o.Frame()[..|o.Frame()|];
        return Okay;
      }
      if |t.valstack| - t.top < n { return NoSpace; }
      if o.top - o.bottom < n { return BadCount; }
      var src := o.top - n;
      var block := o.valstack[src..o.top];
      assert block == o.Live()[src..] && block == o.Frame()[src - o.bottom..];
      if isCopy {
        CopyBalanced(refs, t.Live(), o.Live(), src);
        PutBlock(t, block);
        IncrefAll(block);
      } else {
        MoveBalanced(refs, t.Live(), o.Live(), src);
        PutBlock(t, block);
        Clear(o, src);
      }
      return Okay;
    }

    static method PutBlock(t: Thread, block: seq<TVal>)
      requires t.Ok() && |block| <= |t.valstack| - t.top
      modifies t
      ensures t.Ok() && t.bottom == old(t.bottom) && t.Live() == old(t.Live()) + block && t.Frame() == old(t.Frame()) + block
      ensures Below(t)
    {
      t.valstack := t.valstack[..t.top] + block + t.valstack[t.top + |block|..];
      t.top := t.top + |block|;
    }

    method IncrefAll(block: seq<TVal>)
      modifies `refs
      ensures refs == old(refs) + Refs(block)
    {
      var i := 0;
      while i < |block|
        invariant i <= |block| && refs == old(refs) + Refs(block[..i])
      {
        RefsTop(block, i);
        RefsOne(block[i]);
        Incref(block[i]);
        i := i + 1;
      }
      assert block[..i] == block;
    }

    /** The values from position src on become undefined. */
    static method Clear(o: Thread, src: nat)
      requires o.Ok() && o.bottom <= src <= o.top
      modifies o
      ensures o.Ok() && o.bottom == old(o.bottom) && o.top == src && o.Live() == old(o.Live())[..src] && Below(o)
      ensures o.Frame() == old(o.Frame())[..src - o.bottom]
    {
      var p := o.top;
      o.top := src;
      while p > src
        invariant src <= p <= old(o.top) && o.bottom == old(o.bottom) && o.top == src && |o.valstack| == old(|o.valstack|)
        invariant o.valstack[..p] == old(o.valstack)[..p]
        invariant forall i :: p <= i < |o.valstack| ==> o.valstack[i] == Undefined
      {
        p := p - 1;
        o.valstack := o.valstack[p := Undefined];
      }
    }

    // ----- Resizing -----

    /** Garbage collection: runs any number of finalizers. */
    method Collect(t: Thread, o: Thread, fs: seq<Script>)
      requires Inv(t, o)
      modifies this, t, o
      ensures Inv(t, o) && Same(t) && Same(o)
      decreases ScriptsSize(fs), 0
    {
      hide Balanced;
      var rest := fs;
      while rest != []
        invariant Inv(t, o) && Same(t) && Same(o) && ScriptsSize(rest) <= ScriptsSize(fs)
        decreases |rest|
      {
        RunFinalizer(t, o, rest[0]);
        rest := rest[1..];
      }
    }

    /** The reallocation collects garbage first, which may move the end of this very stack. */
    method ResizeValstack(t: Thread, o: Thread, newSize: nat, granted: bool, fs: seq<Script>) returns (ok: bool)
      requires Inv(t, o) && t.top <= newSize <= VALSTACK_MAX
      modifies this, t, o
      ensures Inv(t, o) && Same(t) && Same(o) && ok == granted
      ensures ok ==> |t.valstack| == newSize
      decreases ScriptsSize(fs), 1
    {
      hide Balanced;
      Collect(t, o, fs);
      if !granted { return false; }
      var oldEnd := |t.valstack|;
      Reallocate(t, newSize);
      Initialise(t, oldEnd);
      return true;
    }

    method Reallocate(t: Thread, newSize: nat)
      requires t.bottom <= t.top <= |t.valstack| && t.top <= newSize
      modifies t
      ensures t.bottom == old(t.bottom) && t.top == old(t.top) && |t.valstack| == newSize && t.Live() == old(t.Live())
      ensures forall i :: 0 <= i < newSize && i < old(|t.valstack|) ==> t.valstack[i] == old(t.valstack[i])
    {
      var keep := if newSize < |t.valstack| then newSize else |t.valstack|;
      t.valstack := t.valstack[..keep] + seq(newSize - keep, junk);
    }

    /** Only the newly allocated slots. */
    static method Initialise(t: Thread, oldEnd: nat)
      requires t.bottom <= t.top <= |t.valstack| <= VALSTACK_MAX && t.top <= oldEnd
      requires forall i :: t.top <= i < oldEnd && i < |t.valstack| ==> t.valstack[i] == Undefined
      modifies t
      ensures t.Ok() && t.bottom == old(t.bottom) && t.top == old(t.top) && t.Live() == old(t.Live())
      ensures |t.valstack| == old(|t.valstack|)
    {
      var p := oldEnd;
      while p < |t.valstack|
        invariant t.bottom == old(t.bottom) && t.top == old(t.top) && |t.valstack| == old(|t.valstack|)
        invariant oldEnd <= p && t.valstack[..t.top] == old(t.valstack[..t.top])
        invariant forall i :: t.top <= i < p && i < |t.valstack| ==> t.valstack[i] == Undefined
      {
        t.valstack := t.valstack[p := Undefined];
        p := p + 1;
      }
    }

    method ResizeRaw(t: Thread, o: Thread, minSize: nat, shrink: bool, compact: bool, granted: bool, fs: seq<Script>)
      returns (ok: bool)
      requires Inv(t, o) && t.top <= minSize
      modifies this, t, o
      ensures Inv(t, o) && Same(t) && Same(o)
      ensures ok && !shrink ==> |t.valstack| >= minSize
      ensures !ok ==> (minSize > old(|t.valstack|) && (!granted || minSize + GROW_STEP > VALSTACK_MAX))
                      || (shrink && minSize + SHRINK_SPARE + GROW_STEP > VALSTACK_MAX)
      decreases ScriptsSize(fs), 2
    {
      var oldSize, isShrink, newSize := |t.valstack|, false, minSize;
      if minSize <= oldSize {
        isShrink := true;
        if !shrink || oldSize - minSize < SHRINK_THRESHOLD { return true; }
      }
      if !compact {
        if isShrink { newSize := newSize + SHRINK_SPARE; }
        newSize := (newSize / GROW_STEP + 1) * GROW_STEP;
      }
      if newSize > VALSTACK_MAX { return false; }
      ok := ResizeValstack(t, o, newSize, granted, fs);
      if !ok && isShrink { ok := true; }
    }

    /** A positive answer leaves room for as many pushes as were asked for. */
    method CheckRoom(t: Thread, o: Thread, extra: Index, granted: bool, fs: seq<Script>) returns (ok: bool)
      requires Inv(t, o)
      modifies this, t, o
      ensures Inv(t, o) && Same(t) && Same(o)
      ensures ok ==> t.top + extra + INTERNAL_EXTRA <= |t.valstack|
      ensures granted && t.top + (if extra < 0 then 0 else extra) + INTERNAL_EXTRA + GROW_STEP <= VALSTACK_MAX ==> ok
      decreases ScriptsSize(fs), 3
    {
      var n: nat := if extra < 0 then 0 else extra;
      ok := ResizeRaw(t, o, t.top + n + INTERNAL_EXTRA, false, false, granted, fs);
    }

    /** Pushes after a check: if the check answers yes, none of them fails. */
    method CheckedPushes(t: Thread, o: Thread, vs: seq<TVal>, granted: bool, fs: seq<Script>) returns (ok: bool)
      requires Inv(t, o) && |vs| < U31
      modifies this, t, o
      ensures Inv(t, o) && Below(t) && Same(o)
      ensures t.Frame() == old(t.Frame()) + if ok then vs else []
    {
      hide Balanced;
      ok := CheckRoom(t, o, |vs|, granted, fs);
      if !ok { return; }
      var i := 0;
      while i < |vs|
        invariant i <= |vs| && Inv(t, o) && Below(t) && Same(o)
        invariant t.Frame() == old(t.Frame()) + vs[..i] && |vs| - i <= |t.valstack| - t.top
      {
        var r := PushValue(t, o, vs[i]);
        i := i + 1;
      }
    }

    // ----- Programs -----

    method Perform(t: Thread, o: Thread, op: Op, fs: seq<Script>) returns (r: Status)
      requires Inv(t, o)
      modifies this, t, o
      ensures Inv(t, o) && Below(t) && Below(o)
      ensures r != Refused ==> (r, t.Frame(), o.Frame()) == old(Effect(op, t.Frame(), o.Frame(), |t.valstack| - t.top))
      ensures r == Refused ==> t.Frame() == old(t.Frame()) && o.Frame() == old(o.Frame()) && (op.CheckStack? || op.Resize?)
      decreases ScriptsSize(fs), 6
    {
      hide Balanced, Effect;
      match op
      case Push(v) => r := PushValue(t, o, v);
      case Dup(i) => r := DupAt(t, o, i);
      case DupTop => r := DupLast(t, o);
      case Swap(i, j) => r := SwapAt(t, o, i, j);
      case Insert(i) => r := InsertAt(t, o, i);
      case XCopyMove(n, isCopy, itself) =>
        if itself {
          Idle(op, t.Frame(), o.Frame(), |t.valstack| - t.top);
          r := BadContext;
        } else {
          r := XCopyMoveRaw(t, o, n, isCopy);
        }
      case CheckStack(_, _) => r := PerformResize(t, o, op, fs);
      case Resize(_, _, _, _) => r := PerformResize(t, o, op, fs);
      case _ => r := PerformDecref(t, o, op, fs);
    }

    method PerformDecref(t: Thread, o: Thread, op: Op, fs: seq<Script>) returns (r: Status)
      requires Inv(t, o) && (op.Replace? || op.Copy? || op.Remove? || op.Pop? || op.PopN? || op.SetTop?)
      modifies this, t, o
      ensures Inv(t, o) && Below(t) && Same(o)
      ensures (r, t.Frame(), o.Frame()) == old(Effect(op, t.Frame(), o.Frame(), |t.valstack| - t.top))
      decreases ScriptsSize(fs), 5
    {
      hide Balanced, Effect;
      match op
      case Replace(i) => r := ReplaceAt(t, o, i, fs);
      case Copy(i, j) => r := CopyTo(t, o, i, j, fs);
      case Remove(i) => r := RemoveAt(t, o, i, fs);
      case Pop => r := PopLast(t, o, fs);
      case PopN(n) => r := PopMany(t, o, n, fs);
      case SetTop(i) => r := SetTopStatus(t, o, i, fs);
    }

    method PerformResize(t: Thread, o: Thread, op: Op, fs: seq<Script>) returns (r: Status)
      requires Inv(t, o) && (op.CheckStack? || op.Resize?)
      modifies this, t, o
      ensures Inv(t, o) && Same(t) && Same(o) && t.Frame() == old(t.Frame()) && o.Frame() == old(o.Frame())
      ensures r == Refused || r == Okay
      ensures r == Okay ==> old(Effect(op, t.Frame(), o.Frame(), |t.valstack| - t.top)) == (Okay, t.Frame(), o.Frame())
      decreases ScriptsSize(fs), 5
    {
      hide Balanced, Effect;
      Idle(op, t.Frame(), o.Frame(), |t.valstack| - t.top);
      var ok;
      if op.CheckStack? {
        ok := CheckRoom(t, o, op.extra, op.granted, fs);
      } else {
        ok := ResizeRaw(t, o, t.top + op.spare, op.shrink, op.compact, op.granted, fs);
      }
      SameFrame(t);
      SameFrame(o);
      r := if ok then Okay else Refused;
    }

    /** Every run, with every nesting of finalizers, leaves in the frames what its own steps make of them. */
    method Run(t: Thread, o: Thread, steps: seq<Step>)
      requires Inv(t, o)
      modifies this, t, o
      ensures Inv(t, o) && Below(t) && Below(o)
      ensures Reaches(steps, old(t.Frame()), old(o.Frame()), t.Frame(), o.Frame())
      decreases StepsSize(steps)
    {
      hide Balanced, Reaches, Takes;
      var i := 0;
      ReachesNone(t.Frame(), o.Frame());
      while i < |steps|
        invariant i <= |steps| && Inv(t, o) && Below(t) && Below(o)
        invariant i < |steps| ==> StepsSize(steps[i..]) <= StepsSize(steps)
        invariant Reaches(steps[..i], old(t.Frame()), old(o.Frame()), t.Frame(), o.Frame())
      {
        ghost var f, g := t.Frame(), o.Frame();
        ghost var room := PerformStep(t, o, steps[i]);
        ReachesNext(steps, i, old(t.Frame()), old(o.Frame()), f, g, room, t.Frame(), o.Frame());
        i := i + 1;
      }
      assert steps[..i] == steps;
    }

    method PerformStep(t: Thread, o: Thread, s: Step) returns (ghost room: nat)
      requires Inv(t, o)
      modifies this, t, o
      ensures Inv(t, o) && Below(t) && Below(o)
      ensures Takes(s, old(t.Frame()), old(o.Frame()), room, t.Frame(), o.Frame())
      decreases ScriptsSize(s.finalizers), 7
    {
      hide Balanced, Effect;
      var r;
      if s.on == A {
        room := |t.valstack| - t.top;
        Settled(s.op, t.Frame(), o.Frame(), room);
        r := Perform(t, o, s.op, s.finalizers);
      } else {
        room := |o.valstack| - o.top;
        Settled(s.op, o.Frame(), t.Frame(), room);
        Mirror(t, o);
        r := Perform(o, t, s.op, s.finalizers);
        Mirror(o, t);
      }
    }
  }
}
