/** Array.prototype.sort() and splice() of duk_bi_array.c, on array objects with holes. */
module ArraySort {
  import opened Bytes
  import opened Seqs

  datatype Val<+T> = Undefined | V(x: T)

  /** A missing element is a hole. */
  type Slot<+T> = Option<Val<T>>

  // ----- Comparing -----

  function Sign(d: int): int {
    if d < 0 then -1 else if d > 0 then 1 else 0
  }

  /** The k-th call of a compare function that may answer differently each time. */
  type Comparator<!T> = (nat, T, T) -> int

  /** Values first, then undefined, then holes. */
  function Order<T>(cmp: Comparator<T>, k: nat, a: Slot<T>, b: Slot<T>): (r: int) {
    if a.None? || b.None? then (if a.Some? then -1 else if b.Some? then 1 else 0)
    else if a.value.Undefined? || b.value.Undefined? then
      (if !a.value.Undefined? then -1 else if !b.value.Undefined? then 1 else 0)
    else Sign(cmp(k, a.value.x, b.value.x))
  }

  /** A consistent compare function: always the same answer, and a total preorder. */
  ghost predicate Consistent<T(!new)>(cmp: Comparator<T>) {
    && (forall j, k, x, y :: Sign(cmp(j, x, y)) == Sign(cmp(k, x, y)))
    && (forall k, x, y :: Sign(cmp(k, x, y)) == -Sign(cmp(k, y, x)))
    && (forall k, x, y, z :: cmp(k, x, y) <= 0 && cmp(k, y, z) <= 0 ==> cmp(k, x, z) <= 0)
  }

  predicate Leq<T>(cmp: Comparator<T>, a: Slot<T>, b: Slot<T>) {
    Order(cmp, 0, a, b) <= 0
  }

  lemma OrderLeq<T(!new)>(cmp: Comparator<T>, k: nat, a: Slot<T>, b: Slot<T>)
    requires Consistent(cmp)
    ensures Order(cmp, k, a, b) <= 0 <==> Leq(cmp, a, b)
    ensures Order(cmp, k, a, b) >= 0 <==> Leq(cmp, b, a)
  {
    if a.Some? && b.Some? && a.value.V? && b.value.V? {
      var x, y := a.value.x, b.value.x;
      assert Sign(cmp(k, x, y)) == Sign(cmp(0, x, y)) && Sign(cmp(0, x, y)) == -Sign(cmp(0, y, x));
    }
  }

  lemma LeqTrans<T(!new)>(cmp: Comparator<T>, a: Slot<T>, b: Slot<T>, c: Slot<T>)
    requires Consistent(cmp) && Leq(cmp, a, b) && Leq(cmp, b, c)
    ensures Leq(cmp, a, c)
  {
    if a.Some? && b.Some? && c.Some? && a.value.V? && b.value.V? && c.value.V? {
      assert cmp(0, a.value.x, b.value.x) <= 0 && cmp(0, b.value.x, c.value.x) <= 0;
    }
  }

  // ----- Permutations of a range -----

  /** t is s with the slots from lo up to, not including, hi permuted. */
  predicate Permuted<T(==)>(s: seq<Slot<T>>, t: seq<Slot<T>>, lo: nat, hi: nat) {
    lo <= hi <= |s| == |t| && s[..lo] == t[..lo] && s[hi..] == t[hi..] && multiset(s[lo..hi]) == multiset(t[lo..hi])
  }

  lemma PermutedSelf<T>(s: seq<Slot<T>>, lo: nat, hi: nat)
    requires lo <= hi <= |s|
    ensures Permuted(s, s, lo, hi)
  {}

  lemma PermutedTrans<T>(s: seq<Slot<T>>, t: seq<Slot<T>>, u: seq<Slot<T>>, lo: nat, hi: nat)
    requires Permuted(s, t, lo, hi) && Permuted(t, u, lo, hi)
    ensures Permuted(s, u, lo, hi)
  {}

  lemma PermutedSwap<T>(s: seq<Slot<T>>, i: nat, j: nat, lo: nat, hi: nat)
    requires lo <= i < hi <= |s| && lo <= j < hi
    ensures Permuted(s, Swapped(s, i, j), lo, hi)
  {
    var t := Swapped(s, i, j);
    var a, b := s[lo..hi], t[lo..hi];
    assert b == a[i - lo := a[j - lo]][j - lo := a[i - lo]];
    SwapMultiset(a, i - lo, j - lo);
  }

  function Swapped<T>(s: seq<T>, i: nat, j: nat): (t: seq<T>)
    requires i < |s| && j < |s|
    ensures |t| == |s|
  {
    s[i := s[j]][j := s[i]]
  }

  lemma SwapMultiset<T>(a: seq<T>, i: nat, j: nat)
    requires i < |a| && j < |a|
    ensures multiset(a[i := a[j]][j := a[i]]) == multiset(a)
  {
    var b := a[i := a[j]];
    assert multiset(b) == multiset(a) - multiset{a[i]} + multiset{a[j]};
  }

  lemma PermutedWiden<T>(s: seq<Slot<T>>, t: seq<Slot<T>>, lo: nat, hi: nat, lo2: nat, hi2: nat)
    requires Permuted(s, t, lo, hi) && lo2 <= lo && hi <= hi2 <= |s|
    ensures Permuted(s, t, lo2, hi2)
  {
    ThreeSlices(s, lo2, lo, hi, hi2);
    ThreeSlices(t, lo2, lo, hi, hi2);
    SameOutside(s, t, lo, hi);
    assert s[lo2..lo] == t[lo2..lo] && s[hi..hi2] == t[hi..hi2] && s[..lo2] == t[..lo2] && s[hi2..] == t[hi2..];
  }

  lemma SameOutside<T>(s: seq<Slot<T>>, t: seq<Slot<T>>, lo: nat, hi: nat)
    requires lo <= hi <= |s| == |t| && s[..lo] == t[..lo] && s[hi..] == t[hi..]
    ensures forall i :: 0 <= i < lo || hi <= i < |s| ==> s[i] == t[i]
  {
    forall i | 0 <= i < lo || hi <= i < |s| ensures s[i] == t[i] {
      if i < lo {
        assert s[..lo][i] == t[..lo][i];
      } else {
        assert s[hi..][i - hi] == t[hi..][i - hi];
      }
    }
  }

  lemma ThreeSlices<T>(s: seq<T>, i: nat, j: nat, k: nat, l: nat)
    requires i <= j <= k <= l <= |s|
    ensures multiset(s[i..l]) == multiset(s[i..j]) + multiset(s[j..k]) + multiset(s[k..l])
  {
    assert s[i..l] == s[i..j] + s[j..k] + s[k..l];
  }

  // ----- Bounds and order of a range -----

  predicate AllBelow<T>(cmp: Comparator<T>, s: seq<Slot<T>>, lo: nat, hi: nat, x: Slot<T>)
    requires lo <= hi <= |s|
  {
    forall i :: lo <= i < hi ==> Leq(cmp, s[i], x)
  }

  predicate AllAbove<T>(cmp: Comparator<T>, s: seq<Slot<T>>, lo: nat, hi: nat, x: Slot<T>)
    requires lo <= hi <= |s|
  {
    forall i :: lo <= i < hi ==> Leq(cmp, x, s[i])
  }

  predicate Ordered<T>(cmp: Comparator<T>, s: seq<Slot<T>>, lo: nat, hi: nat)
    requires lo <= hi <= |s|
  {
    forall i, j :: lo <= i < j < hi ==> Leq(cmp, s[i], s[j])
  }

  lemma PermutedMember<T>(s: seq<Slot<T>>, t: seq<Slot<T>>, lo: nat, hi: nat, i: nat) returns (j: nat)
    requires Permuted(s, t, lo, hi) && lo <= i < hi
    ensures lo <= j < hi && s[j] == t[i]
  {
    assert t[i] == t[lo..hi][i - lo];
    assert t[i] in multiset(t[lo..hi]);
    assert t[i] in s[lo..hi];
    var k :| 0 <= k < hi - lo && s[lo..hi][k] == t[i];
    j := lo + k;
  }

  lemma PermutedBelow<T>(cmp: Comparator<T>, s: seq<Slot<T>>, t: seq<Slot<T>>, lo: nat, hi: nat, x: Slot<T>)
    requires Permuted(s, t, lo, hi) && AllBelow(cmp, s, lo, hi, x)
    ensures AllBelow(cmp, t, lo, hi, x)
  {
    hide Leq;
    forall i | lo <= i < hi ensures Leq(cmp, t[i], x) {
      var j := PermutedMember(s, t, lo, hi, i);
    }
  }

  lemma PermutedAbove<T>(cmp: Comparator<T>, s: seq<Slot<T>>, t: seq<Slot<T>>, lo: nat, hi: nat, x: Slot<T>)
    requires Permuted(s, t, lo, hi) && AllAbove(cmp, s, lo, hi, x)
    ensures AllAbove(cmp, t, lo, hi, x)
  {
    hide Leq;
    forall i | lo <= i < hi ensures Leq(cmp, x, t[i]) {
      var j := PermutedMember(s, t, lo, hi, i);
    }
  }

  /** Outside the range nothing moves. */
  lemma PermutedOutside<T>(s: seq<Slot<T>>, t: seq<Slot<T>>, lo: nat, hi: nat, i: nat)
    requires Permuted(s, t, lo, hi) && i < |s| && (i < lo || hi <= i)
    ensures t[i] == s[i]
  {
    SameOutside(s, t, lo, hi);
  }

  /** A pivot between two ordered halves. */
  lemma OrderedJoin<T(!new)>(cmp: Comparator<T>, s: seq<Slot<T>>, lo: nat, p: nat, hi: nat)
    requires Consistent(cmp) && lo <= p < hi <= |s|
    requires Ordered(cmp, s, lo, p) && Ordered(cmp, s, p + 1, hi)
    requires AllBelow(cmp, s, lo, p, s[p]) && AllAbove(cmp, s, p + 1, hi, s[p])
    ensures Ordered(cmp, s, lo, hi)
  {
    hide Leq;
    forall i, j | lo <= i < j < hi ensures Leq(cmp, s[i], s[j]) {
      if i < p < j { LeqTrans(cmp, s[i], s[p], s[j]); }
    }
  }

  /** In an ordered array all holes are last, and all undefined values are just before them. */
  lemma OrderedLayout<T>(cmp: Comparator<T>, s: seq<Slot<T>>, i: nat, j: nat)
    requires Ordered(cmp, s, 0, |s|) && i < j < |s|
    ensures s[i].None? ==> s[j].None?
    ensures s[i] == Some(Undefined) ==> s[j].None? || s[j] == Some(Undefined)
    ensures s[i].Some? && s[i].value.V? && s[j].Some? && s[j].value.V? ==> cmp(0, s[i].value.x, s[j].value.x) <= 0
  {
    assert Leq(cmp, s[i], s[j]);
  }

  // ----- The array object -----

  class ArrayObject<T(!new,==)> {
    var slots: seq<Slot<T>>
    /** How often the compare function was called. */
    var calls: nat

    constructor (slots: seq<Slot<T>>)
      ensures this.slots == slots && calls == 0
    {
      this.slots, calls := slots, 0;
    }

    method Put(i: nat, v: Val<T>)
      modifies `slots
      ensures |slots| == if i < old(|slots|) then old(|slots|) else i + 1
      ensures forall k: nat :: SlotAt(slots, k) == if k == i then Some(v) else SlotAt(old(slots), k)
    {
      if i >= |slots| { slots := slots + seq(i + 1 - |slots|, _ => None); }
      slots := slots[i := Some(v)];
    }

    method Delete(i: nat)
      modifies `slots
      ensures |slots| == old(|slots|)
      ensures forall k: nat :: SlotAt(slots, k) == if k == i then None else SlotAt(old(slots), k)
    {
      if i < |slots| { slots := slots[i := None]; }
    }

    method SetLength(n: nat)
      modifies `slots
      ensures |slots| == n && forall k: nat :: SlotAt(slots, k) == if k < n then SlotAt(old(slots), k) else None
    {
      slots := if n <= |slots| then slots[..n] else slots + seq(n - |slots|, _ => None);
    }

    /** Comparing a slot with itself calls nothing. */
    method Compare(cmp: Comparator<T>, i: nat, j: nat) returns (r: int)
      requires i < |slots| && j < |slots|
      modifies `calls
      ensures i == j ==> r == 0
      ensures i != j ==> r == Order(cmp, old(calls), slots[i], slots[j])
    {
      if i == j { return 0; }
      var a, b := slots[i], slots[j];
      if a.Some? {
        if b.None? { return -1; }
      } else {
        return if b.Some? then 1 else 0;
      }
      if a.value.Undefined? {
        return if b.value.Undefined? then 0 else 1;
      } else if b.value.Undefined? {
        return -1;
      }
      var d := cmp(calls, a.value.x, b.value.x);
      calls := calls + 1;
      return if d < 0 then -1 else if d > 0 then 1 else 0;
    }

    method Swap(l: nat, r: nat)
      requires l < |slots| && r < |slots|
      modifies `slots
      ensures slots == Swapped(old(slots), l, r)
    {
      if l == r { return; }
      var a, b := slots[l], slots[r];
      if b.Some? { Put(l, b.value); } else { Delete(l); }
      if a.Some? { Put(r, a.value); } else { Delete(r); }
      Extensional(slots, Swapped(old(slots), l, r));
    }

    /** Up from i, over the slots that come before the pivot at lo. */
    method ScanLeft(cmp: Comparator<T>, lo: nat, i: nat, hi: nat) returns (l: nat)
      requires lo < i <= hi < |slots|
      modifies `calls
      ensures i <= l <= hi
      ensures Consistent(cmp) ==> AllBelow(cmp, slots, i, l, slots[lo]) && (l < hi ==> Leq(cmp, slots[lo], slots[l]))
    {
      hide Consistent, Leq, Order;
      l := i;
      while l < hi
        invariant i <= l <= hi && (Consistent(cmp) ==> AllBelow(cmp, slots, i, l, slots[lo]))
      {
        ghost var k := calls;
        var c := Compare(cmp, l, lo);
        if Consistent(cmp) { OrderLeq(cmp, k, slots[l], slots[lo]); }
        if c >= 0 { return; }
        l := l + 1;
      }
    }

    method ScanRight(cmp: Comparator<T>, lo: nat, i: nat, hi: nat) returns (r: nat)
      requires lo <= i <= hi < |slots|
      modifies `calls
      ensures lo <= r <= i
      ensures Consistent(cmp) ==> AllAbove(cmp, slots, r + 1, i + 1, slots[lo]) && (lo < r ==> Leq(cmp, slots[r], slots[lo]))
    {
      hide Consistent, Leq, Order;
      r := i;
      while r > lo
        invariant lo <= r <= i && (Consistent(cmp) ==> AllAbove(cmp, slots, r + 1, i + 1, slots[lo]))
      {
        ghost var k := calls;
        var c := Compare(cmp, lo, r);
        if Consistent(cmp) { OrderLeq(cmp, k, slots[lo], slots[r]); }
        if c >= 0 { return; }
        r := r - 1;
      }
    }

    /** The pivot is at lo; its final place is r. Both cursors stay within [lo, hi]. */
    method Partition(cmp: Comparator<T>, lo: nat, hi: nat) returns (r: nat)
      requires lo < hi < |slots|
      modifies this
      ensures lo <= r <= hi && Permuted(old(slots), slots, lo, hi + 1)
      ensures Consistent(cmp) ==> AllBelow(cmp, slots, lo, r, slots[r]) && AllAbove(cmp, slots, r + 1, hi + 1, slots[r])
    {
      hide Consistent, Leq, Order, Permuted, AllBelow, AllAbove, Swapped, Sides;
      var l := lo + 1;
      r := hi;
      PermutedSelf(slots, lo, hi + 1);
      NoSides(cmp, slots, lo, hi);
      while true
        invariant lo < l <= hi && lo <= r <= hi && hi < |slots| && Permuted(old(slots), slots, lo, hi + 1)
        invariant Consistent(cmp) ==> Sides(cmp, slots, lo, l, r, hi)
        decreases r - l
      {
        ghost var l0, r0, s := l, r, slots;
        l := ScanLeft(cmp, lo, l, hi);
        r := ScanRight(cmp, lo, r, hi);
        if Consistent(cmp) { Scanned(cmp, slots, lo, l0, l, r, r0, hi); }
        if l >= r { break; }
        SwapWithin(l, r, lo, hi + 1, old(slots));
        if Consistent(cmp) { Exchanged(cmp, s, lo, l, r, hi); }
        l := l + 1;
        r := r - 1;
      }
      if Consistent(cmp) { Placed(cmp, slots, lo, l, r, hi); }
      SwapWithin(lo, r, lo, hi + 1, old(slots));
    }

    /** A swap within a range of slots that is already a permutation of s. */
    method SwapWithin(i: nat, j: nat, lo: nat, hi: nat, ghost s: seq<Slot<T>>)
      requires lo <= i < hi <= |slots| && lo <= j < hi && Permuted(s, slots, lo, hi)
      modifies `slots
      ensures Permuted(s, slots, lo, hi) && slots == Swapped(old(slots), i, j)
    {
      hide Permuted, Swapped;
      PermutedSwap(slots, i, j, lo, hi);
      Swap(i, j);
      PermutedTrans(s, old(slots), slots, lo, hi);
    }

    /** Any pivot will do; lo and hi may be crossed. The range is [lo, hi]. */
    method QSort(cmp: Comparator<T>, lo: nat, hi: int, pivots: nat -> nat)
      requires lo <= hi + 1 <= |slots|
      modifies this
      ensures Permuted(old(slots), slots, lo, hi + 1)
      ensures Consistent(cmp) ==> Ordered(cmp, slots, lo, hi + 1)
      decreases hi - lo + 1
    {
      hide Permuted, Ordered, Consistent, AllBelow, AllAbove, Swapped;
      if hi - lo < 1 {
        PermutedSelf(slots, lo, hi + 1);
        Trivial(cmp, slots, lo, hi + 1);
        return;
      }
      var p := Pivot(lo, hi, pivots(calls));
      ghost var s0 := slots;
      PermutedSelf(s0, lo, hi + 1);
      SwapWithin(p, lo, lo, hi + 1, s0);
      ghost var s1 := slots;
      var r := Partition(cmp, lo, hi);
      ghost var s2 := slots;
      PermutedLength(s1, s2, lo, hi + 1);
      QSort(cmp, lo, (r as int) - 1, pivots);
      ghost var s3 := slots;
      PermutedLength(s2, s3, lo, r);
      QSort(cmp, r + 1, hi, pivots);
      PermutedLength(s3, slots, r + 1, hi + 1);
      AllPermuted(s0, s1, s2, s3, slots, lo, r, hi);
      if Consistent(cmp) { Combined(cmp, s2, s3, slots, lo, r, hi); }
    }

    /** Indices are signed: 2^31 elements or more are refused. */
    method Sort(cmp: Comparator<T>, pivots: nat -> nat) returns (ok: bool)
      modifies this
      ensures ok <==> old(|slots|) < U31
      ensures !ok ==> slots == old(slots)
      ensures |slots| == old(|slots|) && multiset(slots) == multiset(old(slots))
      ensures ok && Consistent(cmp) ==> Ordered(cmp, slots, 0, |slots|)
    {
      if |slots| >= U31 { return false; }
      ok := true;
      if |slots| > 0 {
        QSort(cmp, 0, |slots| - 1, pivots);
        assert slots[0..|slots|] == slots && old(slots[0..|slots|]) == old(slots);
      }
    }

    // ----- splice() -----

    /** The elements that are deleted, with their holes. */
    method CopyOut(s: nat, n: nat) returns (r: seq<Slot<T>>)
      requires s + n <= |slots|
      ensures r == slots[s..s + n]
    {
      var a := new ArrayObject<T>([]);
      var i := 0;
      while i < n
        invariant i <= n && |a.slots| <= i && fresh(a)
        invariant forall k: nat :: SlotAt(a.slots, k) == if k < i then slots[s + k] else None
      {
        if slots[s + i].Some? { a.Put(i, slots[s + i].value); }
        i := i + 1;
      }
      a.SetLength(n);
      r := a.slots;
      forall k | 0 <= k < n ensures r[k] == slots[s + k] {
        assert SlotAt(r, k) == slots[s + k];
      }
    }

    method Move(from: nat, to: nat)
      requires from < |slots|
      modifies `slots
      ensures |slots| == old(|slots|) || (|slots| == to + 1 && old(|slots|) <= to)
      ensures forall k: nat :: SlotAt(slots, k) == if k == to then old(slots[from]) else SlotAt(old(slots), k)
    {
      if slots[from].Some? { Put(to, slots[from].value); } else { Delete(to); }
    }

    /** Fewer items than deletions: from the front, then the tail is deleted. */
    method MoveDown(s: nat, n: nat, m: nat)
      requires s + n <= |slots| && m < n
      modifies `slots
      ensures |slots| == old(|slots|) && Moved(old(slots), slots, s, n, m)
    {
      var len := |slots|;
      var i := s;
      while i < len - n
        invariant s <= i <= len - n && |slots| == len
        invariant forall k: nat :: SlotAt(slots, k) == if s + m <= k < i + m then old(slots[k - m + n]) else SlotAt(old(slots), k)
      {
        assert SlotAt(slots, i + n) == SlotAt(old(slots), i + n);
        Move(i + n, i + m);
        i := i + 1;
      }
      var j := len - 1;
      while j >= len - n + m
        invariant len - n + m - 1 <= j < len && |slots| == len
        invariant forall k: nat :: SlotAt(slots, k) == if s + m <= k < len - n + m then old(slots[k - m + n])
                                              else if k > j then None else SlotAt(old(slots), k)
      {
        Delete(j);
        j := j - 1;
      }
    }

    /** More items than deletions: from the back. */
    method MoveUp(s: nat, n: nat, m: nat)
      requires s + n <= |slots| && m > n
      modifies `slots
      ensures |slots| <= old(|slots|) - n + m && Moved(old(slots), slots, s, n, m)
    {
      var len := |slots|;
      var i := len - n - 1;
      while i >= s
        invariant s - 1 <= i < len - n && len <= |slots| <= len - n + m
        invariant forall k: nat :: SlotAt(slots, k) == if i + m < k < len - n + m then old(slots[k - m + n]) else SlotAt(old(slots), k)
      {
        assert SlotAt(slots, i + n) == SlotAt(old(slots), i + n);
        Move(i + n, i + m);
        i := i - 1;
      }
    }

    method PutItems(s: nat, items: seq<Val<T>>)
      modifies `slots
      ensures forall k: nat :: SlotAt(slots, k) == if s <= k < s + |items| then Some(items[k - s]) else SlotAt(old(slots), k)
    {
      var i := 0;
      while i < |items|
        invariant i <= |items|
        invariant forall k: nat :: SlotAt(slots, k) == if s <= k < s + i then Some(items[k - s]) else SlotAt(old(slots), k)
      {
        Put(s + i, items[i]);
        i := i + 1;
      }
    }

    static function Clamp(x: int, lo: int, hi: int): (r: int)
      requires lo <= hi
      ensures lo <= r <= hi
    {
      if x < lo then lo else if x > hi then hi else x
    }

    static function Start(len: nat, start: int): (r: nat)
      ensures r <= len
    {
      var n: int := len;
      var c := Clamp(start, -n, n);
      if c < 0 then len + c else c
    }

    static function DelCount(len: nat, start: nat, del: Option<int>): (r: nat)
      requires start <= len
      ensures start + r <= len
    {
      if del.None? then len - start else Clamp(del.value, 0, len - start)
    }

    /** Steps 5 to 7 of E5.1 section 15.4.4.12, where a negative start counts from the end; but a missing count means all the rest. */
    static lemma SpliceArguments(len: nat, start: int, del: Option<int>)
      ensures var s := Start(len, start);
              && (0 <= start <= len ==> s == start) && (start > len ==> s == len)
              && (start < 0 <= len + start ==> s == len + start) && (len + start < 0 ==> s == 0)
              && (del.None? ==> s + DelCount(len, s, del) == len)
              && (del.Some? ==>
                    && (del.value <= 0 ==> DelCount(len, s, del) == 0)
                    && (0 <= del.value <= len - s ==> DelCount(len, s, del) == del.value)
                    && (del.value > len - s ==> s + DelCount(len, s, del) == len))
    {}

    /** A missing delete count means all the rest. None is a RangeError. */
    method Splice(start: int, del: Option<int>, items: seq<Val<T>>) returns (removed: Option<seq<Slot<T>>>)
      modifies `slots
      ensures var s := Start(old(|slots|), start);
              var n := DelCount(old(|slots|), s, del);
              if old(|slots|) >= U31 || old(|slots|) - n + |items| >= U32
              then removed.None? && slots == old(slots)
              else removed == Some(old(slots)[s..s + n])
                   && slots == old(slots)[..s] + seq(|items|, i requires 0 <= i < |items| => Some(items[i])) + old(slots)[s + n..]
    {
      var len := |slots|;
      if len >= U31 { return None; }
      var s := Start(len, start);
      var n := DelCount(len, s, del);
      if len - n + |items| >= U32 { return None; }
      var copy := CopyOut(s, n);
      removed := Some(copy);
      if |items| < n {
        MoveDown(s, n, |items|);
      } else if |items| > n {
        MoveUp(s, n, |items|);
      }
      ghost var mid := slots;
      assert Moved(old(slots), mid, s, n, |items|);
      PutItems(s, items);
      SetLength(len - n + |items|);
      Spliced(old(slots), mid, slots, s, n, items);
    }
  }

  function SlotAt<T>(s: seq<Slot<T>>, k: nat): Slot<T> {
    if k < |s| then s[k] else None
  }

  /** t is s with the part after s[from + n] moved to from + m; the items' places are open. */
  predicate Moved<T(==)>(s: seq<Slot<T>>, t: seq<Slot<T>>, from: nat, n: nat, m: nat)
    requires from + n <= |s|
  {
    && (forall k :: 0 <= k < from ==> SlotAt(t, k) == s[k])
    && (forall k :: from + m <= k < |s| - n + m ==> SlotAt(t, k) == s[k - m + n])
  }

  lemma Spliced<T>(s: seq<Slot<T>>, mid: seq<Slot<T>>, t: seq<Slot<T>>, from: nat, n: nat, items: seq<Val<T>>)
    requires from + n <= |s| && |t| == |s| - n + |items| && Moved(s, mid, from, n, |items|)
    requires forall k :: 0 <= k < |t| ==> SlotAt(t, k) == if from <= k < from + |items| then Some(items[k - from]) else SlotAt(mid, k)
    ensures t == s[..from] + seq(|items|, i requires 0 <= i < |items| => Some(items[i])) + s[from + n..]
  {
    forall k | 0 <= k < |t|
      ensures t[k] == (s[..from] + seq(|items|, i requires 0 <= i < |items| => Some(items[i])) + s[from + n..])[k]
    {
      assert t[k] == SlotAt(t, k);
    }
  }

  lemma Extensional<T>(s: seq<Slot<T>>, t: seq<Slot<T>>)
    requires |s| == |t| && forall k: nat :: SlotAt(s, k) == SlotAt(t, k)
    ensures s == t
  {
    forall k | 0 <= k < |s| ensures s[k] == t[k] {
      assert SlotAt(s, k) == SlotAt(t, k);
    }
  }

  // ----- Steps of the partition -----

  lemma Trivial<T>(cmp: Comparator<T>, s: seq<Slot<T>>, lo: nat, hi: nat)
    requires lo <= hi <= |s| && hi - lo < 2
    ensures Ordered(cmp, s, lo, hi)
  {}

  lemma NoSides<T>(cmp: Comparator<T>, s: seq<Slot<T>>, lo: nat, hi: nat)
    requires lo < hi < |s|
    ensures Sides(cmp, s, lo, lo + 1, hi, hi)
  {}

  lemma PermutedLength<T>(s: seq<Slot<T>>, t: seq<Slot<T>>, lo: nat, hi: nat)
    requires Permuted(s, t, lo, hi)
    ensures |s| == |t|
  {}

  /** What is left of l is not after the pivot, what is right of r is not before it. */
  predicate Sides<T>(cmp: Comparator<T>, s: seq<Slot<T>>, lo: nat, l: nat, r: nat, hi: nat)
    requires lo < l <= hi < |s| && lo <= r <= hi
  {
    AllBelow(cmp, s, lo + 1, l, s[lo]) && AllAbove(cmp, s, r + 1, hi + 1, s[lo])
  }

  lemma Scanned<T>(cmp: Comparator<T>, s: seq<Slot<T>>, lo: nat, l0: nat, l: nat, r: nat, r0: nat, hi: nat)
    requires lo < l0 <= l <= hi < |s| && lo <= r <= r0 <= hi && Sides(cmp, s, lo, l0, r0, hi)
    requires AllBelow(cmp, s, l0, l, s[lo]) && AllAbove(cmp, s, r + 1, r0 + 1, s[lo])
    ensures Sides(cmp, s, lo, l, r, hi)
  {
    hide Leq;
  }

  lemma Exchanged<T>(cmp: Comparator<T>, s: seq<Slot<T>>, lo: nat, l: nat, r: nat, hi: nat)
    requires lo < l < r <= hi < |s| && Sides(cmp, s, lo, l, r, hi) && Leq(cmp, s[lo], s[l]) && Leq(cmp, s[r], s[lo])
    ensures Sides(cmp, Swapped(s, l, r), lo, l + 1, r - 1, hi)
  {
    hide Leq;
  }

  lemma Placed<T>(cmp: Comparator<T>, s: seq<Slot<T>>, lo: nat, l: nat, r: nat, hi: nat)
    requires lo < l <= hi < |s| && lo <= r <= l && Sides(cmp, s, lo, l, r, hi) && (lo < r ==> Leq(cmp, s[r], s[lo]))
    ensures var t := Swapped(s, lo, r); AllBelow(cmp, t, lo, r, t[r]) && AllAbove(cmp, t, r + 1, hi + 1, t[r])
  {
    hide Leq;
  }

  /** A random number reduced to the range. */
  function Pivot(lo: nat, hi: nat, bits: nat): (p: nat)
    requires lo <= hi
    ensures lo <= p <= hi
  {
    lo + bits % (hi - lo + 1)
  }

  lemma AllPermuted<T>(s: seq<Slot<T>>, s1: seq<Slot<T>>, s2: seq<Slot<T>>, s3: seq<Slot<T>>, t: seq<Slot<T>>, lo: nat, r: nat, hi: nat)
    requires lo <= r <= hi < |s2| == |s3|
    requires Permuted(s, s1, lo, hi + 1) && Permuted(s1, s2, lo, hi + 1) && Permuted(s2, s3, lo, r) && Permuted(s3, t, r + 1, hi + 1)
    ensures Permuted(s, t, lo, hi + 1)
  {
    hide Permuted;
    PermutedTrans(s, s1, s2, lo, hi + 1);
    PermutedWiden(s2, s3, lo, r, lo, hi + 1);
    PermutedTrans(s, s2, s3, lo, hi + 1);
    PermutedWiden(s3, t, r + 1, hi + 1, lo, hi + 1);
    PermutedTrans(s, s3, t, lo, hi + 1);
  }

  lemma Combined<T(!new)>(cmp: Comparator<T>, s: seq<Slot<T>>, t: seq<Slot<T>>, u: seq<Slot<T>>, lo: nat, r: nat, hi: nat)
    requires Consistent(cmp) && lo <= r <= hi < |s| == |t| == |u|
    requires AllBelow(cmp, s, lo, r, s[r]) && AllAbove(cmp, s, r + 1, hi + 1, s[r])
    requires Permuted(s, t, lo, r) && Ordered(cmp, t, lo, r)
    requires Permuted(t, u, r + 1, hi + 1) && Ordered(cmp, u, r + 1, hi + 1)
    ensures Ordered(cmp, u, lo, hi + 1)
  {
    hide Leq, Consistent;
    PermutedBelow(cmp, s, t, lo, r, s[r]);
    assert AllAbove(cmp, t, r + 1, hi + 1, s[r]) by {
      forall i | r + 1 <= i < hi + 1 ensures t[i] == s[i] { PermutedOutside(s, t, lo, r, i); }
    }
    PermutedAbove(cmp, t, u, r + 1, hi + 1, s[r]);
    PermutedOutside(s, t, lo, r, r);
    hide Permuted;
    forall i | lo <= i <= r ensures u[i] == t[i] { PermutedOutside(t, u, r + 1, hi + 1, i); }
    OrderedJoin(cmp, u, lo, r, hi + 1);
  }
}
