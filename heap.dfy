/**
 * The heap algorithms `std::push_heap` and `std::make_heap` that
 * `thread_priority_queue` runs over its vector, as specified by the heap
 * operations section of ISO/IEC 14882:2014 (section 25.4.6,
 * [alg.heap.operations]): a range [0, n) is a heap under `comp` when
 * `comp(a[(i - 1) / 2], a[i])` is false for every 0 < i < n.
 *
 * Each algorithm is given twice: as a function on sequences, about which the
 * lemmas below prove the standard's promises (a heap, a permutation), and as
 * an in-place method on an array, proved to compute that function.
 */
module Heap {

  /** Position of the parent of slot i of a binary heap. */
  function Parent(i: nat): nat
    requires i > 0
  {
    (i - 1) / 2
  }

  /** a and b are equivalent under comp: neither comes before the other. */
  predicate Incomparable<T>(comp: (T, T) -> bool, a: T, b: T) {
    !comp(a, b) && !comp(b, a)
  }

  /**
   * What the standard requires of every `Compare` (section 25.4 of
   * ISO/IEC 14882:2014): an irreflexive, transitive relation whose
   * incomparability is transitive as well.
   */
  ghost predicate StrictWeakOrder<T(!new)>(comp: (T, T) -> bool) {
    && (forall a :: !comp(a, a))
    && (forall a, b, c :: comp(a, b) && comp(b, c) ==> comp(a, c))
    && (forall a, b, c :: Incomparable(comp, a, b) && Incomparable(comp, b, c) ==> Incomparable(comp, a, c))
  }

  /** The binary-heap property: no slot's element comes before its child's under comp. */
  predicate IsHeap<T>(s: seq<T>, comp: (T, T) -> bool) {
    forall i :: 0 < i < |s| ==> !comp(s[Parent(i)], s[i])
  }

  /** A strict weak order is asymmetric. */
  lemma Asymmetric<T(!new)>(comp: (T, T) -> bool, a: T, b: T)
    requires StrictWeakOrder(comp)
    requires comp(a, b)
    ensures !comp(b, a)
  {
  }

  /** "Does not come before" is transitive under a strict weak order. */
  lemma NotBeforeTransitive<T(!new)>(comp: (T, T) -> bool, a: T, b: T, c: T)
    requires StrictWeakOrder(comp)
    requires !comp(a, b) && !comp(b, c)
    ensures !comp(a, c)
  {
    if comp(b, a) {
      // comp(a, c) would give comp(b, c) by transitivity
      assert !comp(a, c);
    } else if comp(c, b) {
      // comp(a, c) would give comp(a, b) by transitivity
      assert !comp(a, c);
    } else {
      assert Incomparable(comp, a, b) && Incomparable(comp, b, c);
    }
  }

  /**
   * Sift-up, as `std::push_heap` does it: while the element at k comes after
   * its parent's under comp, swap the two and continue from the parent.
   */
  function SiftUp<T>(s: seq<T>, k: nat, comp: (T, T) -> bool): (r: seq<T>)
    requires k < |s|
    ensures |r| == |s| && multiset(r) == multiset(s)
    decreases k
  {
    if k == 0 || !comp(s[Parent(k)], s[k]) then s
    else SiftUp(s[Parent(k) := s[k]][k := s[Parent(k)]], Parent(k), comp)
  }

  /**
   * `std::make_heap` over the first n elements of s, done as one sift-up per
   * slot: the prefix [0, m) is made a heap for m = 2, ..., n in turn.
   */
  function Heapify<T>(s: seq<T>, n: nat, comp: (T, T) -> bool): (r: seq<T>)
    requires n <= |s|
    ensures |r| == |s| && multiset(r) == multiset(s)
    ensures r[n..] == s[n..]
    decreases n
  {
    if n <= 1 then s
    else
      var t := Heapify(s, n - 1, comp);
      assert t == t[..n] + t[n..];
      SiftUp(t[..n], n - 1, comp) + t[n..]
  }

  lemma HeapifyStep<T>(s: seq<T>, n: nat, comp: (T, T) -> bool)
    requires 1 < n <= |s|
    ensures Heapify(s, n, comp) == SiftUp(Heapify(s, n - 1, comp)[..n], n - 1, comp) + Heapify(s, n - 1, comp)[n..]
  {
  }

  /** The heap property holds everywhere except, possibly, between slot k and its parent. */
  ghost predicate HeapExceptAt<T>(s: seq<T>, k: nat, comp: (T, T) -> bool)
    requires k < |s|
  {
    && (forall i :: 0 < i < |s| && i != k ==> !comp(s[Parent(i)], s[i]))
    && (k > 0 ==> forall i :: 0 < i < |s| && Parent(i) == k ==> !comp(s[Parent(k)], s[i]))
  }

  /** One swap of sift-up moves the only possible violation one level up. */
  lemma SwapWithParent<T(!new)>(s: seq<T>, k: nat, comp: (T, T) -> bool)
    requires StrictWeakOrder(comp)
    requires 0 < k < |s| && HeapExceptAt(s, k, comp)
    requires comp(s[Parent(k)], s[k])
    ensures HeapExceptAt(s[Parent(k) := s[k]][k := s[Parent(k)]], Parent(k), comp)
  {
    var p := Parent(k);
    var x, y := s[k], s[p];
    var t := s[p := x][k := y];
    forall i | 0 < i < |t| && i != p
      ensures !comp(t[Parent(i)], t[i])
    {
      if i == k {
        Asymmetric(comp, y, x);
      } else if Parent(i) == k {
        assert t[i] == s[i];
      } else if Parent(i) == p {
        // comp(x, s[i]) would give comp(y, s[i]) by transitivity, as comp(y, x)
        assert t[i] == s[i] && !comp(y, s[i]);
      } else {
        assert t[i] == s[i] && t[Parent(i)] == s[Parent(i)];
      }
    }
    if p > 0 {
      var g := Parent(p);
      forall i | 0 < i < |t| && Parent(i) == p
        ensures !comp(t[g], t[i])
      {
        assert t[g] == s[g] && !comp(s[g], y);
        if i != k {
          assert t[i] == s[i] && !comp(y, s[i]);
          NotBeforeTransitive(comp, s[g], y, s[i]);
        }
      }
    }
  }

  /** Sift-up from the only violation leaves a heap. */
  lemma {:induction false} SiftUpRestoresHeap<T(!new)>(s: seq<T>, k: nat, comp: (T, T) -> bool)
    requires StrictWeakOrder(comp)
    requires k < |s| && HeapExceptAt(s, k, comp)
    ensures IsHeap(SiftUp(s, k, comp), comp)
    decreases k
  {
    if k == 0 || !comp(s[Parent(k)], s[k]) {
      assert forall i :: 0 < i < |s| ==> !comp(s[Parent(i)], s[i]);
    } else {
      SwapWithParent(s, k, comp);
      SiftUpRestoresHeap(s[Parent(k) := s[k]][k := s[Parent(k)]], Parent(k), comp);
    }
  }

  /** Appending one element to a heap and sifting it up (`push_heap`) gives a heap again. */
  lemma PushKeepsHeap<T(!new)>(s: seq<T>, x: T, comp: (T, T) -> bool)
    requires StrictWeakOrder(comp)
    requires IsHeap(s, comp)
    ensures IsHeap(SiftUp(s + [x], |s|, comp), comp)
  {
    var t := s + [x];
    assert forall i :: 0 < i < |t| && i != |s| ==> t[i] == s[i] && t[Parent(i)] == s[Parent(i)];
    assert HeapExceptAt(t, |s|, comp);
    SiftUpRestoresHeap(t, |s|, comp);
  }

  /** `make_heap` leaves the range it was given a heap. */
  lemma {:induction false} HeapifyMakesHeap<T(!new)>(s: seq<T>, n: nat, comp: (T, T) -> bool)
    requires StrictWeakOrder(comp)
    requires n <= |s|
    ensures IsHeap(Heapify(s, n, comp)[..n], comp)
  {
    if n > 1 {
      var t := Heapify(s, n - 1, comp);
      var u := SiftUp(t[..n], n - 1, comp);
      HeapifyStep(s, n, comp);
      assert Heapify(s, n, comp)[..n] == u;
      HeapifyMakesHeap(s, n - 1, comp);
      assert t[..n] == t[..n - 1] + [t[n - 1]];
      PushKeepsHeap(t[..n - 1], t[n - 1], comp);
    }
  }

  /** No element of a heap comes after the element at its slot 0: the root ranks highest. */
  lemma HeapRootRanksHighest<T(!new)>(s: seq<T>, comp: (T, T) -> bool)
    requires StrictWeakOrder(comp)
    requires IsHeap(s, comp)
    ensures forall i :: 0 <= i < |s| ==> !comp(s[0], s[i])
  {
    forall i | 0 <= i < |s|
      ensures !comp(s[0], s[i])
    {
      RootNotBefore(s, i, comp);
    }
  }

  lemma {:induction false} RootNotBefore<T(!new)>(s: seq<T>, i: nat, comp: (T, T) -> bool)
    requires StrictWeakOrder(comp)
    requires IsHeap(s, comp) && i < |s|
    ensures !comp(s[0], s[i])
    decreases i
  {
    if i > 0 {
      RootNotBefore(s, Parent(i), comp);
      NotBeforeTransitive(comp, s[0], s[Parent(i)], s[i]);
    }
  }

  /** `std::push_heap(a, a + n, comp)`: sifts a[n - 1] up into the heap a[0, n - 1). */
  method PushHeap<T>(a: array<T>, n: nat, comp: (T, T) -> bool)
    requires 1 <= n <= a.Length
    modifies a
    ensures a[..n] == SiftUp(old(a[..n]), n - 1, comp)
    ensures a[n..] == old(a[n..])
  {
    var k := n - 1;
    while k > 0 && comp(a[Parent(k)], a[k])
      invariant k < n
      invariant SiftUp(a[..n], k, comp) == SiftUp(old(a[..n]), n - 1, comp)
      invariant a[n..] == old(a[n..])
      decreases k
    {
      var p := Parent(k);
      ghost var before := a[..n];
      a[p], a[k] := a[k], a[p];
      assert a[..n] == before[p := before[k]][k := before[p]];
      k := p;
    }
  }

  /** If a and b agree from position m on, then they agree from n on, and a's first n are a's first m followed by b's [m, n). */
  lemma SpliceAt<T>(a: seq<T>, b: seq<T>, m: nat, n: nat)
    requires m <= n <= |a| == |b|
    requires a[m..] == b[m..]
    ensures a[..n] == a[..m] + b[m..n]
    ensures a[n..] == b[n..]
  {
    assert forall i :: m <= i < |a| ==> a[i] == a[m..][i - m] == b[m..][i - m] == b[i];
  }

  /** `std::make_heap(a, a + n, comp)`: arranges a[0, n) as a heap. */
  method MakeHeap<T>(a: array<T>, n: nat, comp: (T, T) -> bool)
    requires n <= a.Length
    modifies a
    ensures a[..n] == Heapify(old(a[..n]), n, comp)
    ensures a[n..] == old(a[n..])
  {
    if n == 0 {
      return;
    }
    ghost var s := a[..n];
    ghost var rest := a[n..];
    var m := 1;
    while m < n
      invariant 1 <= m <= n
      invariant a[..n] == Heapify(s, m, comp)
      invariant a[n..] == rest
    {
      ghost var t := a[..n];
      ghost var whole := a[..];
      PushHeap(a, m + 1, comp);
      ghost var after := a[..];
      assert after[..m + 1] == SiftUp(whole[..m + 1], m, comp);
      assert after[m + 1..] == whole[m + 1..];
      SpliceAt(after, whole, m + 1, n);
      HeapifyStep(s, m + 1, comp);
      assert whole[..m + 1] == t[..m + 1] && whole[m + 1..n] == t[m + 1..];
      m := m + 1;
    }
  }
}
