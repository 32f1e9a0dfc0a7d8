/** Facts about sequences that proofs name instead of leaving to the solver. */
module Seqs {

  lemma Assoc<T>(a: seq<T>, b: seq<T>, c: seq<T>)
    ensures a + (b + c) == a + b + c
  {}

  lemma Identity<T>(a: seq<T>)
    ensures a + [] == a && [] + a == a
  {}

  lemma HeadTail<T>(a: seq<T>, b: seq<T>)
    requires a != []
    ensures (a + b)[0] == a[0] && (a + b)[1..] == a[1..] + b
  {}

  lemma Cons<T>(a: seq<T>)
    requires a != []
    ensures [a[0]] + a[1..] == a
  {}

  /** Where a concatenation is cut at its seam. */
  lemma AppendSplit<T>(a: seq<T>, b: seq<T>)
    ensures (a + b)[..|a|] == a && (a + b)[|a|..] == b
  {}

  lemma TakeDrop<T>(a: seq<T>, i: nat)
    requires i <= |a|
    ensures a[..i] + a[i..] == a
  {}

  lemma DropDrop<T>(a: seq<T>, i: nat, j: nat)
    requires i + j <= |a|
    ensures a[i..][j..] == a[i + j..]
  {}

  lemma DropTake<T>(a: seq<T>, i: nat, j: nat)
    requires i + j <= |a|
    ensures a[i..][..j] == a[i..i + j]
  {}

  lemma SliceSlice<T>(a: seq<T>, i: nat, j: nat, k: nat, l: nat)
    requires i <= j <= |a| && k <= l <= j - i
    ensures a[i..j][k..l] == a[i + k..i + l]
  {
    var s, t := a[i..j][k..l], a[i + k..i + l];
    forall x | 0 <= x < l - k ensures s[x] == t[x] {
      assert s[x] == a[i..j][k + x];
    }
  }

  lemma DropSlice<T>(a: seq<T>, i: nat, k: nat, l: nat)
    requires i <= |a| && k <= l <= |a| - i
    ensures a[i..][k..l] == a[i + k..i + l]
  {
    var s, t := a[i..][k..l], a[i + k..i + l];
    forall x | 0 <= x < l - k ensures s[x] == t[x] {
      assert s[x] == a[i..][k + x];
    }
  }

  /** The text t stands in s at position p. */
  predicate At<T(==)>(s: seq<T>, p: nat, t: seq<T>) {
    p + |t| <= |s| && s[p..p + |t|] == t
  }

  lemma AtAppend<T>(s: seq<T>, p: nat, a: seq<T>, b: seq<T>)
    ensures At(s, p, a + b) <==> At(s, p, a) && At(s, p + |a|, b)
  {
    if p + |a| + |b| <= |s| {
      assert s[p..p + |a| + |b|] == s[p..p + |a|] + s[p + |a|..p + |a| + |b|];
      assert (a + b)[..|a|] == a && (a + b)[|a|..] == b;
    }
  }

  lemma AtOne<T>(s: seq<T>, p: nat, x: T)
    ensures At(s, p, [x]) <==> p < |s| && s[p] == x
  {}

  lemma AtIndex<T>(s: seq<T>, p: nat, t: seq<T>, i: nat)
    requires At(s, p, t) && i < |t|
    ensures s[p + i] == t[i]
  {
    assert s[p..p + |t|][i] == t[i];
  }

  lemma AtSlice<T>(s: seq<T>, p: nat, q: nat)
    requires p <= q <= |s|
    ensures At(s, p, s[p..q])
  {}
}
