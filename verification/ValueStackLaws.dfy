/** What the stack operations do, on frames that are put together from their parts, and laws between the operations. */
module ValueStackLaws {
  import opened Seqs
  import opened ValueStack

  type Frame = f: seq<TVal> | |f| <= VALSTACK_MAX

  // ----- One value -----

  /** The value v at index i, counted from the bottom or, if negative, from the top. */
  lemma AtIndexed(a: Frame, v: TVal, b: Frame, g: Frame, room: nat, i: Index)
    requires |a| + 1 + |b| + room <= VALSTACK_MAX && (i == |a| || i == -1 - |b|)
    ensures var f := a + [v] + b;
            && Effect(Dup(i), f, g, room) == (if room == 0 then (NoSpace, f, g) else (Okay, f + [v], g))
            && Effect(Remove(i), f, g, room) == (Okay, a + b, g)
            && Effect(Swap(i, i), f, g, room) == Effect(Copy(i, i), f, g, room) == (Okay, f, g)
  {
    var f := a + [v] + b;
    assert Place(f, i) == |a| && f[|a|] == v;
    assert f[..|a|] == a && f[|a| + 1..] == b;
    assert f[|a| := v] == f;
  }

  /** The value v at index i, below the last value w. */
  lemma BelowLast(a: Frame, v: TVal, b: Frame, w: TVal, g: Frame, room: nat, i: Index)
    requires |a| + 1 + |b| + 1 + room <= VALSTACK_MAX && (i == |a| || i == -2 - |b|)
    ensures var f := a + [v] + b + [w];
            && Effect(Replace(i), f, g, room) == (Okay, a + [w] + b, g)
            && Effect(Insert(i), f, g, room) == (Okay, a + [w] + ([v] + b), g)
  {
    var f := a + [v] + b + [w];
    assert Place(f, i) == |a| && f[|f| - 1] == w;
    assert f[|a| := w][..|f| - 1] == a + [w] + b;
    assert f[..|a|] == a && f[|a|..|f| - 1] == [v] + b;
  }

  lemma AtLast(a: Frame, w: TVal, g: Frame, room: nat, i: Index)
    requires |a| + 1 + room <= VALSTACK_MAX && (i == |a| || i == -1)
    ensures var f := a + [w];
            && Effect(Replace(i), f, g, room) == Effect(Pop, f, g, room) == (Okay, a, g)
            && Effect(Insert(i), f, g, room) == (Okay, f, g)
            && Effect(DupTop, f, g, room) == (if room == 0 then (NoSpace, f, g) else (Okay, f + [w], g))
  {
    var f := a + [w];
    assert Place(f, i) == |a| && f[|a|] == w && f[..|a|] == a && f[|a|..|a|] == [];
    assert f[|a| := w] == f == a + [w] + [];
  }

  lemma PushThenPop(f: Frame, g: Frame, v: TVal, room: nat)
    requires |f| + room <= VALSTACK_MAX && room > 0
    ensures Effect(Push(v), f, g, room) == (Okay, f + [v], g) && Effect(Pop, f + [v], g, room - 1) == (Okay, f, g)
  {
    AtLast(f, v, g, room - 1, -1);
  }

  // ----- Two values -----

  /** The value v at index i, and the value w further up at index j. */
  lemma SwapTwo(a: Frame, v: TVal, b: Frame, w: TVal, c: Frame, g: Frame, room: nat, i: Index, j: Index)
    requires |a| + 1 + |b| + 1 + |c| + room <= VALSTACK_MAX
    requires (i == |a| || i == -2 - |b| - |c|) && (j == |a| + 1 + |b| || j == -1 - |c|)
    ensures var f := a + [v] + b + [w] + c;
            Effect(Swap(i, j), f, g, room) == Effect(Swap(j, i), f, g, room) == (Okay, a + [w] + b + [v] + c, g)
  {
    var f := a + [v] + b + [w] + c;
    var p, q := |a|, |a| + 1 + |b|;
    assert Place(f, i) == p && Place(f, j) == q && f[p] == v && f[q] == w;
    assert f[p := w][q := v] == f[q := v][p := w] == a + [w] + b + [v] + c;
  }

  lemma CopyTwo(a: Frame, v: TVal, b: Frame, w: TVal, c: Frame, g: Frame, room: nat, i: Index, j: Index)
    requires |a| + 1 + |b| + 1 + |c| + room <= VALSTACK_MAX
    requires (i == |a| || i == -2 - |b| - |c|) && (j == |a| + 1 + |b| || j == -1 - |c|)
    ensures var f := a + [v] + b + [w] + c;
            && Effect(Copy(i, j), f, g, room) == (Okay, a + [v] + b + [v] + c, g)
            && Effect(Copy(j, i), f, g, room) == (Okay, a + [w] + b + [w] + c, g)
  {
    var f := a + [v] + b + [w] + c;
    var p, q := |a|, |a| + 1 + |b|;
    assert Place(f, i) == p && Place(f, j) == q && f[p] == v && f[q] == w;
    assert f[q := v] == a + [v] + b + [v] + c;
    assert f[p := w] == a + [w] + b + [w] + c;
  }

  // ----- The top of a frame -----

  lemma TopPart(a: Frame, b: Frame, g: Frame, room: nat)
    requires |a| + |b| + room <= VALSTACK_MAX
    ensures Effect(PopN(|b|), a + b, g, room) == Effect(SetTop(|a|), a + b, g, room) == (Okay, a, g)
    ensures b != [] ==> Effect(SetTop(-|b|), a + b, g, room) == (Okay, a, g)
    ensures (forall i :: 0 <= i < |b| ==> b[i] == Undefined) ==> Effect(SetTop(|a| + |b|), a, g, |b| + room) == (Okay, a + b, g)
  {
    assert (a + b)[..|a|] == a;
    if forall i :: 0 <= i < |b| ==> b[i] == Undefined {
      assert b == seq(|b|, _ => Undefined);
      Identity(a);
    }
  }

  /** The part b on top of the other frame. */
  lemma Transferred(f: Frame, a: Frame, b: Frame, room: nat)
    requires |f| + room <= VALSTACK_MAX && |a| + |b| <= VALSTACK_MAX && |b| <= room
    ensures Effect(XCopyMove(|b|, true, false), f, a + b, room) == (Okay, f + b, a + b)
    ensures Effect(XCopyMove(|b|, false, false), f, a + b, room) == (Okay, f + b, a)
  {
    AppendSplit(a, b);
  }

  // ----- Failures -----

  predicate Outside(f: Frame, i: Index) {
    i < -|f| || |f| <= i
  }

  /** An operation that fails leaves both frames; an index must lie in the frame, and a full stack is found first. */
  lemma Failure(op: Op, f: Frame, g: Frame, room: nat)
    requires |f| + room <= VALSTACK_MAX
    ensures var e := Effect(op, f, g, room);
            && (e.0 != Okay ==> e.1 == f && e.2 == g)
            && (e.0 == NoSpace <==> match op
                case Push(_) => room == 0
                case Dup(_) => room == 0
                case DupTop => room == 0
                case XCopyMove(n, _, itself) => !itself && room < n <= VALSTACK_MAX
                case _ => false)
            && (e.0 == BadIndex <==> match op
                case Dup(i) => room != 0 && Outside(f, i)
                case DupTop => room != 0 && f == []
                case Swap(i, j) => Outside(f, i) || Outside(f, j)
                case Insert(i) => Outside(f, i)
                case Replace(i) => Outside(f, i)
                case Copy(i, j) => Outside(f, i) || Outside(f, j)
                case Remove(i) => Outside(f, i)
                case SetTop(i) => i < -|f| || i > |f| + room
                case _ => false)
            && (e.0 == BadCount <==> match op
                case Pop => f == []
                case PopN(n) => n < 0 || n > |f|
                case XCopyMove(n, _, itself) => !itself && (n < 0 || n > VALSTACK_MAX || |g| < n <= room)
                case _ => false)
            && (e.0 == BadContext <==> op.XCopyMove? && op.itself)
  {}

  // ----- Laws between operations -----

  lemma DupTopIsDup(f: Frame, g: Frame, room: nat)
    requires |f| + room <= VALSTACK_MAX
    ensures Effect(DupTop, f, g, room) == Effect(Dup(-1), f, g, room)
  {}

  lemma ReplaceIsCopyPop(f: Frame, g: Frame, room: nat, i: Index)
    requires |f| + room <= VALSTACK_MAX
    ensures var e := Effect(Copy(-1, i), f, g, room);
            Effect(Replace(i), f, g, room) == if e.0 == Okay then Effect(Pop, e.1, g, room) else e
  {}

  lemma SwapTwice(f: Frame, g: Frame, room: nat, i: Index, j: Index)
    requires |f| + room <= VALSTACK_MAX && !Outside(f, i) && !Outside(f, j)
    ensures var e := Effect(Swap(i, j), f, g, room);
            |e.1| == |f| && e.0 == Okay && Effect(Swap(i, j), e.1, g, room) == (Okay, f, g)
  {
    var p, q := Place(f, i), Place(f, j);
    var s: seq<TVal> := f;
    var t := s[p := s[q]][q := s[p]];
    assert t[p := t[q]][q := t[p]] == s;
  }

  /** The last value trades places with the one where it is inserted, which is then inserted one place further up. */
  lemma InsertIsSwaps(f: Frame, g: Frame, room: nat, i: nat)
    requires |f| + room <= VALSTACK_MAX && i + 1 < |f|
    ensures var e := Effect(Swap(i, -1), f, g, room);
            |e.1| == |f| && Effect(Insert(i), f, g, room) == Effect(Insert(i + 1), e.1, g, room)
  {
    var n := |f| - 1;
    var s: seq<TVal> := f;
    var t := s[i := s[n]][n := s[i]];
    assert Effect(Swap(i, -1), f, g, room).1 == t;
    assert s[..i] + [s[n]] + s[i..n] == t[..i + 1] + [t[n]] + t[i + 1..n];
  }

  /** A value is removed by swapping it up to the top and popping it. */
  lemma RemoveIsSwaps(f: Frame, g: Frame, room: nat, i: nat)
    requires |f| + room <= VALSTACK_MAX && i < |f|
    ensures i + 1 == |f| ==> Effect(Remove(i), f, g, room) == Effect(Pop, f, g, room)
    ensures i + 1 < |f| ==>
              var e := Effect(Swap(i, i + 1), f, g, room);
              |e.1| == |f| && Effect(Remove(i), f, g, room) == Effect(Remove(i + 1), e.1, g, room)
  {
    if i + 1 == |f| {
      assert f[..i] + f[i + 1..] == f[..|f| - 1];
    } else {
      var s: seq<TVal> := f;
      var t := s[i := s[i + 1]][i + 1 := s[i]];
      assert Effect(Swap(i, i + 1), f, g, room).1 == t;
      assert s[..i] + s[i + 1..] == t[..i + 1] + t[i + 2..];
    }
  }

  lemma PopNIsSetTop(f: Frame, g: Frame, room: nat, n: Index)
    requires |f| + room <= VALSTACK_MAX && 1 <= n
    ensures var p, s := Effect(PopN(n), f, g, room), Effect(SetTop(-n), f, g, room);
            p.1 == s.1 && p.2 == s.2 && (p.0 == Okay <==> s.0 == Okay)
  {}

  lemma PopNIsPops(f: Frame, g: Frame, room: nat, n: Index)
    requires |f| + room <= VALSTACK_MAX && 1 <= n <= |f|
    ensures var e := Effect(Pop, f, g, room);
            |e.1| <= |f| && Effect(PopN(n), f, g, room) == Effect(PopN(n - 1), e.1, g, room)
  {
    assert f[..|f| - 1][..|f| - n] == f[..|f| - n];
  }

  lemma MoveIsCopyPop(f: Frame, g: Frame, room: nat, n: Index)
    requires |f| + room <= VALSTACK_MAX
    ensures var c, m := Effect(XCopyMove(n, true, false), f, g, room), Effect(XCopyMove(n, false, false), f, g, room);
            && m.0 == c.0 && m.1 == c.1 && c.2 == g
            && (c.0 == Okay ==> m.2 == Effect(PopN(n), g, f, 0).1)
  {}
}
