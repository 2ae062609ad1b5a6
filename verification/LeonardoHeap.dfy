/** Heaps on Leonardo trees stored in post-order in a sequence, and the two repairs
    smoothsort makes, as functions from sequence to sequence. */
module LeonardoHeap {
  import opened Leonardo

  /** A three-way comparison whose sign is a total preorder, as `qsort` asks for. The
      two laws are named, so that a proof says which instances it uses. */
  ghost predicate TotalPreorder<T(!new)>(cmp: (T, T) -> int) {
    && (forall x, y :: Mirror(cmp, x, y))
    && (forall x, y, z :: Chain(cmp, x, y, z))
  }

  ghost predicate Mirror<T>(cmp: (T, T) -> int, x: T, y: T) {
    cmp(x, y) >= 0 <==> cmp(y, x) <= 0
  }

  ghost predicate Chain<T>(cmp: (T, T) -> int, x: T, y: T, z: T) {
    cmp(x, y) <= 0 && cmp(y, z) <= 0 ==> cmp(x, z) <= 0
  }

  function Swap<T>(s: seq<T>, i: nat, j: nat): (t: seq<T>)
    requires i < |s| && j < |s|
    ensures |t| == |s|
  {
    s[i := s[j]][j := s[i]]
  }

  lemma SwapPermutes<T>(s: seq<T>, i: nat, j: nat)
    requires i < |s| && j < |s|
    ensures multiset(Swap(s, i, j)) == multiset(s)
  {
  }

  /** Root positions of the two subtrees of a tree of order k rooted at r. */
  function Rt(r: nat, k: nat): nat
    requires k >= 2 && L(k) <= r + 1
  {
    r - 1
  }

  function Lf(r: nat, k: nat): nat
    requires k >= 2 && L(k) <= r + 1
  {
    r - 1 - L(k - 2)
  }

  ghost predicate ChildrenHeaps<T>(cmp: (T, T) -> int, s: seq<T>, r: nat, k: nat)
    requires L(k) <= r + 1 <= |s|
    decreases k, 0
  {
    k >= 2 ==> Heap(cmp, s, Lf(r, k), k - 1) && Heap(cmp, s, Rt(r, k), k - 2)
  }

  ghost predicate Heap<T>(cmp: (T, T) -> int, s: seq<T>, r: nat, k: nat)
    requires L(k) <= r + 1 <= |s|
    decreases k, 1
  {
    && ChildrenHeaps(cmp, s, r, k)
    && (k >= 2 ==> cmp(s[Lf(r, k)], s[r]) <= 0 && cmp(s[Rt(r, k)], s[r]) <= 0)
  }

  lemma {:induction false} HeapFrame<T>(cmp: (T, T) -> int, s: seq<T>, t: seq<T>, r: nat, k: nat)
    requires L(k) <= r + 1 <= |s| == |t|
    requires forall i :: r + 1 - L(k) <= i <= r ==> s[i] == t[i]
    ensures Heap(cmp, s, r, k) <==> Heap(cmp, t, r, k)
    decreases k
  {
    if k >= 2 {
      HeapFrame(cmp, s, t, Lf(r, k), k - 1);
      HeapFrame(cmp, s, t, Rt(r, k), k - 2);
    }
  }

  lemma {:induction false} HeapMax<T(!new)>(cmp: (T, T) -> int, s: seq<T>, r: nat, k: nat)
    requires TotalPreorder(cmp) && L(k) <= r + 1 <= |s| && Heap(cmp, s, r, k)
    ensures forall i :: r + 1 - L(k) <= i <= r ==> cmp(s[i], s[r]) <= 0
    decreases k
  {
    assert Mirror(cmp, s[r], s[r]);
    if k >= 2 {
      var lf, rt := Lf(r, k), Rt(r, k);
      HeapMax(cmp, s, lf, k - 1);
      HeapMax(cmp, s, rt, k - 2);
      assert forall i :: lf + 1 - L(k - 1) <= i <= lf ==> Chain(cmp, s[i], s[lf], s[r]);
      assert forall i :: rt + 1 - L(k - 2) <= i <= rt ==> Chain(cmp, s[i], s[rt], s[r]);
    }
  }

  // Sifting the root of one tree down.

  function Sift<T>(cmp: (T, T) -> int, s: seq<T>, r: nat, k: nat): (t: seq<T>)
    requires L(k) <= r + 1 <= |s|
    ensures |t| == |s|
    decreases k
  {
    if k < 2 then s
    else if cmp(s[r], s[Lf(r, k)]) >= 0 && cmp(s[r], s[Rt(r, k)]) >= 0 then s
    else if cmp(s[Lf(r, k)], s[Rt(r, k)]) >= 0 then Sift(cmp, Swap(s, r, Lf(r, k)), Lf(r, k), k - 1)
    else Sift(cmp, Swap(s, r, Rt(r, k)), Rt(r, k), k - 2)
  }

  lemma {:induction false} SiftFrame<T>(cmp: (T, T) -> int, s: seq<T>, r: nat, k: nat)
    requires L(k) <= r + 1 <= |s|
    ensures multiset(Sift(cmp, s, r, k)) == multiset(s)
    ensures forall i :: 0 <= i < |s| && !(r + 1 - L(k) <= i <= r) ==> Sift(cmp, s, r, k)[i] == s[i]
    decreases k
  {
    if k < 2 {
    } else if cmp(s[r], s[Lf(r, k)]) >= 0 && cmp(s[r], s[Rt(r, k)]) >= 0 {
    } else if cmp(s[Lf(r, k)], s[Rt(r, k)]) >= 0 {
      SwapPermutes(s, r, Lf(r, k));
      SiftFrame(cmp, Swap(s, r, Lf(r, k)), Lf(r, k), k - 1);
    } else {
      SwapPermutes(s, r, Rt(r, k));
      SiftFrame(cmp, Swap(s, r, Rt(r, k)), Rt(r, k), k - 2);
    }
  }

  /** Everything below position hi is at most v. */
  ghost predicate Bounded<T>(cmp: (T, T) -> int, s: seq<T>, hi: nat, v: T)
    requires hi <= |s|
  {
    forall i :: 0 <= i < hi ==> cmp(s[i], v) <= 0
  }

  lemma {:induction false} SiftBounded<T>(cmp: (T, T) -> int, s: seq<T>, r: nat, k: nat, hi: nat, v: T)
    requires L(k) <= r + 1 <= hi <= |s| && Bounded(cmp, s, hi, v)
    ensures Bounded(cmp, Sift(cmp, s, r, k), hi, v)
    decreases k
  {
    if k < 2 {
    } else if cmp(s[r], s[Lf(r, k)]) >= 0 && cmp(s[r], s[Rt(r, k)]) >= 0 {
    } else if cmp(s[Lf(r, k)], s[Rt(r, k)]) >= 0 {
      SiftBounded(cmp, Swap(s, r, Lf(r, k)), Lf(r, k), k - 1, hi, v);
    } else {
      SiftBounded(cmp, Swap(s, r, Rt(r, k)), Rt(r, k), k - 2, hi, v);
    }
  }

  /** The new root is at least the old root and the old roots of both subtrees. */
  lemma SiftRoot<T(!new)>(cmp: (T, T) -> int, s: seq<T>, r: nat, k: nat)
    requires TotalPreorder(cmp) && L(k) <= r + 1 <= |s|
    ensures var t := Sift(cmp, s, r, k);
            && cmp(s[r], t[r]) <= 0
            && (k >= 2 ==> cmp(s[Lf(r, k)], t[r]) <= 0 && cmp(s[Rt(r, k)], t[r]) <= 0)
  {
    assert Mirror(cmp, s[r], s[r]);
    if k >= 2 {
      var lf, rt := Lf(r, k), Rt(r, k);
      assert Mirror(cmp, s[lf], s[lf]) && Mirror(cmp, s[rt], s[rt]);
      assert Mirror(cmp, s[r], s[lf]) && Mirror(cmp, s[r], s[rt]) && Mirror(cmp, s[lf], s[rt]);
      assert Chain(cmp, s[r], s[lf], s[rt]) && Chain(cmp, s[r], s[rt], s[lf]);
      if cmp(s[r], s[lf]) >= 0 && cmp(s[r], s[rt]) >= 0 {
      } else if cmp(s[lf], s[rt]) >= 0 {
        SiftFrame(cmp, Swap(s, r, lf), lf, k - 1);
      } else {
        SiftFrame(cmp, Swap(s, r, rt), rt, k - 2);
      }
    }
  }

  /** Sifting turns a root over two heaps into a heap. */
  lemma {:induction false} SiftMakesHeap<T(!new)>(cmp: (T, T) -> int, s: seq<T>, r: nat, k: nat)
    requires TotalPreorder(cmp) && L(k) <= r + 1 <= |s| && ChildrenHeaps(cmp, s, r, k)
    ensures Heap(cmp, Sift(cmp, s, r, k), r, k)
    decreases k
  {
    if k >= 2 {
      var lf, rt := Lf(r, k), Rt(r, k);
      assert Mirror(cmp, s[r], s[lf]) && Mirror(cmp, s[r], s[rt]) && Mirror(cmp, s[lf], s[rt]);
      assert Chain(cmp, s[r], s[lf], s[rt]) && Chain(cmp, s[r], s[rt], s[lf]);
      if cmp(s[r], s[lf]) >= 0 && cmp(s[r], s[rt]) >= 0 {
      } else if cmp(s[lf], s[rt]) >= 0 {
        SiftChild(cmp, s, r, k, lf, k - 1, rt, k - 2);
      } else {
        SiftChild(cmp, s, r, k, rt, k - 2, lf, k - 1);
      }
    }
  }

  /** One sifting step: c is the subtree the old root goes to, o the other one. */
  lemma {:induction false} SiftChild<T(!new)>(cmp: (T, T) -> int, s: seq<T>, r: nat, k: nat, c: nat, kc: nat, o: nat,
                                       ko: nat)
    requires TotalPreorder(cmp) && kc < k && L(kc) <= c + 1 && L(ko) <= o + 1
    requires c < r < |s| && o < r && (o < c + 1 - L(kc) || c < o + 1 - L(ko))
    requires Heap(cmp, s, c, kc) && Heap(cmp, s, o, ko)
    requires cmp(s[o], s[c]) <= 0 && cmp(s[r], s[c]) <= 0
    ensures var t := Sift(cmp, Swap(s, r, c), c, kc);
            && Heap(cmp, t, c, kc) && Heap(cmp, t, o, ko)
            && cmp(t[c], t[r]) <= 0 && cmp(t[o], t[r]) <= 0
    decreases k, 0
  {
    var s1 := Swap(s, r, c);
    SiftFrame(cmp, s1, c, kc);
    SwappedChildren(cmp, s, r, c, kc);
    SiftMakesHeap(cmp, s1, c, kc);
    HeapFrame(cmp, s, Sift(cmp, s1, c, kc), o, ko);
    SwappedRootBelow(cmp, s, r, c, kc);
  }

  lemma SwappedChildren<T>(cmp: (T, T) -> int, s: seq<T>, r: nat, c: nat, k: nat)
    requires L(k) <= c + 1 && c < r < |s| && ChildrenHeaps(cmp, s, c, k)
    ensures ChildrenHeaps(cmp, Swap(s, r, c), c, k)
  {
    ChildrenFrame(cmp, s, Swap(s, r, c), c, k);
  }

  lemma SwappedRootBelow<T(!new)>(cmp: (T, T) -> int, s: seq<T>, r: nat, c: nat, k: nat)
    requires TotalPreorder(cmp) && L(k) <= c + 1 && c < r < |s|
    requires Heap(cmp, s, c, k) && cmp(s[r], s[c]) <= 0
    ensures cmp(Sift(cmp, Swap(s, r, c), c, k)[c], s[c]) <= 0
  {
    HeapMax(cmp, s, c, k);
    SiftRootBelow(cmp, Swap(s, r, c), c, k, s[c]);
  }

  lemma ChildrenFrame<T>(cmp: (T, T) -> int, s: seq<T>, t: seq<T>, r: nat, k: nat)
    requires L(k) <= r + 1 <= |s| == |t|
    requires forall i :: r + 1 - L(k) <= i < r ==> s[i] == t[i]
    ensures ChildrenHeaps(cmp, s, r, k) <==> ChildrenHeaps(cmp, t, r, k)
  {
    if k >= 2 {
      HeapFrame(cmp, s, t, Lf(r, k), k - 1);
      HeapFrame(cmp, s, t, Rt(r, k), k - 2);
    }
  }

  /** A bound on the whole tree bounds the new root. */
  lemma {:induction false} SiftRootBelow<T>(cmp: (T, T) -> int, s: seq<T>, r: nat, k: nat, v: T)
    requires L(k) <= r + 1 <= |s|
    requires forall i :: r + 1 - L(k) <= i <= r ==> cmp(s[i], v) <= 0
    ensures cmp(Sift(cmp, s, r, k)[r], v) <= 0
    decreases k
  {
    if k >= 2 {
      var lf, rt := Lf(r, k), Rt(r, k);
      if cmp(s[r], s[lf]) >= 0 && cmp(s[r], s[rt]) >= 0 {
      } else if cmp(s[lf], s[rt]) >= 0 {
        SiftFrame(cmp, Swap(s, r, lf), lf, k - 1);
      } else {
        SiftFrame(cmp, Swap(s, r, rt), rt, k - 2);
      }
    }
  }

  // A row of trees.

  ghost predicate Heaps<T>(cmp: (T, T) -> int, s: seq<T>, os: Orders)
    requires Size(os) <= |s|
  {
    os.Row? ==> Heaps(cmp, s, os.front) && Heap(cmp, s, Size(os) - 1, os.last)
  }

  /** With n elements in all, a tree of order k ending at position `end` can no longer
      become the left part of a larger tree. */
  predicate Final(k: nat, end: nat, n: nat) {
    k == 0 || L(k - 1) + end >= n
  }

  /** The root of every final tree is at least the root of the tree before it. */
  ghost predicate Ascending<T>(cmp: (T, T) -> int, s: seq<T>, os: Orders, n: nat)
    requires Size(os) <= |s|
  {
    Many(os) ==>
      && Ascending(cmp, s, os.front, n)
      && (Final(os.last, Size(os), n) ==> cmp(s[Size(os.front) - 1], s[Size(os) - 1]) <= 0)
  }

  lemma {:induction false} RowFrame<T>(cmp: (T, T) -> int, s: seq<T>, t: seq<T>, os: Orders, n: nat)
    requires Size(os) <= |s| == |t|
    requires forall i :: 0 <= i < Size(os) ==> s[i] == t[i]
    ensures Heaps(cmp, s, os) <==> Heaps(cmp, t, os)
    ensures Ascending(cmp, s, os, n) <==> Ascending(cmp, t, os, n)
  {
    if os.Row? {
      RowFrame(cmp, s, t, os.front, n);
      HeapFrame(cmp, s, t, Size(os) - 1, os.last);
    }
  }

  /** In a row of heaps with ascending roots the last root is the largest element. */
  lemma {:induction false} RowMax<T(!new)>(cmp: (T, T) -> int, s: seq<T>, os: Orders)
    requires TotalPreorder(cmp) && Size(os) <= |s| && os.Row?
    requires Heaps(cmp, s, os) && Ascending(cmp, s, os, 0)
    ensures Bounded(cmp, s, Size(os), s[Size(os) - 1])
  {
    var r := Size(os) - 1;
    HeapMax(cmp, s, r, os.last);
    if Many(os) {
      RowMax(cmp, s, os.front);
      var q := Size(os.front) - 1;
      assert forall i :: 0 <= i <= q ==> Chain(cmp, s[i], s[q], s[r]);
    }
  }

  /** If the last tree is final then so are all others: their roots all ascend. */
  lemma {:induction false} FinalPrefix<T>(cmp: (T, T) -> int, s: seq<T>, os: Orders, n: nat)
    requires Shape(os) && os.Row? && Size(os) <= |s|
    requires Ascending(cmp, s, os, n) && Final(os.last, Size(os), n)
    requires Many(os) ==> os.last >= 1 && os.front.last >= os.last + 2
    ensures Ascending(cmp, s, os, 0)
  {
    if Many(os) {
      LMono(os.last + 1, os.front.last - 1);
      FinalPrefix(cmp, s, os.front, n);
    }
  }

  // Moving the last root of a row to its place.

  /** Whether an element x on its way to the root at r of a tree of order k gives way to
      the root at q of the tree before and goes on. */
  predicate Steps<T>(cmp: (T, T) -> int, s: seq<T>, x: T, q: nat, r: nat, k: nat, trusty: bool)
    requires q < |s| && L(k) <= r + 1 <= |s|
  {
    && cmp(s[q], x) > 0
    && !(!trusty && k > 1 && (cmp(s[Rt(r, k)], s[q]) >= 0 || cmp(s[Lf(r, k)], s[q]) >= 0))
  }

  /** f is the row before the last tree, whose order is k and whose root is at r. */
  ghost predicate Placed(f: Orders, k: nat, r: nat) {
    Size(f) + L(k) == r + 1
  }

  function Trinkle<T>(cmp: (T, T) -> int, s: seq<T>, f: Orders, k: nat, r: nat, trusty: bool): (t: seq<T>)
    requires Placed(f, k, r) && r < |s|
    ensures |t| == |s|
    decreases f
  {
    var q := r - L(k);
    if f.Row? && Steps(cmp, s, s[r], q, r, k, trusty) then
      Trinkle(cmp, Swap(s, r, q), f.front, f.last, q, false)
    else if trusty then s
    else Sift(cmp, s, r, k)
  }

  lemma {:induction false} TrinklePermutes<T>(cmp: (T, T) -> int, s: seq<T>, f: Orders, k: nat, r: nat, trusty: bool)
    requires Placed(f, k, r) && r < |s|
    ensures multiset(Trinkle(cmp, s, f, k, r, trusty)) == multiset(s)
    decreases f
  {
    var q := r - L(k);
    if f.Row? && Steps(cmp, s, s[r], q, r, k, trusty) {
      SwapPermutes(s, r, q);
      TrinklePermutes(cmp, Swap(s, r, q), f.front, f.last, q, false);
    } else if !trusty {
      SiftFrame(cmp, s, r, k);
    }
  }

  lemma {:induction false} TrinkleFrame<T>(cmp: (T, T) -> int, s: seq<T>, f: Orders, k: nat, r: nat, trusty: bool)
    requires Placed(f, k, r) && r < |s|
    ensures forall i :: r < i < |s| ==> Trinkle(cmp, s, f, k, r, trusty)[i] == s[i]
    decreases f
  {
    var q := r - L(k);
    if f.Row? && Steps(cmp, s, s[r], q, r, k, trusty) {
      TrinkleFrame(cmp, Swap(s, r, q), f.front, f.last, q, false);
    } else if !trusty {
      SiftFrame(cmp, s, r, k);
    }
  }

  lemma {:induction false} TrinkleBounded<T>(cmp: (T, T) -> int, s: seq<T>, f: Orders, k: nat, r: nat, trusty: bool,
                                             v: T)
    requires Placed(f, k, r) && r < |s| && Bounded(cmp, s, r + 1, v)
    ensures Bounded(cmp, Trinkle(cmp, s, f, k, r, trusty), r + 1, v)
    decreases f
  {
    var q := r - L(k);
    if f.Row? && Steps(cmp, s, s[r], q, r, k, trusty) {
      TrinkleBounded(cmp, Swap(s, r, q), f.front, f.last, q, false, v);
      TrinkleFrame(cmp, Swap(s, r, q), f.front, f.last, q, false);
    } else if !trusty {
      SiftBounded(cmp, s, r, k, r + 1, v);
    }
  }

  /** A row of heaps with ascending roots, given as the row before the last tree and
      that tree. */
  ghost predicate Repaired<T>(cmp: (T, T) -> int, t: seq<T>, f: Orders, k: nat, r: nat)
    requires Placed(f, k, r) && r < |t|
  {
    && Heaps(cmp, t, f) && Ascending(cmp, t, f, 0) && Heap(cmp, t, r, k)
    && (f.Row? ==> cmp(t[r - L(k)], t[r]) <= 0)
  }

  lemma RepairedRow<T>(cmp: (T, T) -> int, t: seq<T>, f: Orders, k: nat, r: nat)
    requires Placed(f, k, r) && r < |t| && Repaired(cmp, t, f, k, r)
    ensures Heaps(cmp, t, Row(f, k)) && Ascending(cmp, t, Row(f, k), 0)
  {
  }

  /** The repair: with all trees but the last heaps and their roots ascending, and the
      last a heap but for its root (or a heap, when trusty), `Trinkle` makes every tree
      a heap and all roots ascend. */
  lemma {:induction false} TrinkleRepairs<T(!new)>(cmp: (T, T) -> int, s: seq<T>, f: Orders, k: nat, r: nat,
                                            trusty: bool)
    requires TotalPreorder(cmp) && Placed(f, k, r) && r < |s|
    requires Heaps(cmp, s, f) && Ascending(cmp, s, f, 0) && ChildrenHeaps(cmp, s, r, k)
    requires trusty ==> Heap(cmp, s, r, k)
    ensures Repaired(cmp, Trinkle(cmp, s, f, k, r, trusty), f, k, r)
    decreases f
  {
    if f.Row? && Steps(cmp, s, s[r], r - L(k), r, k, trusty) {
      RepairedBySteps(cmp, s, f, k, r, trusty);
    } else if trusty {
      RepairedAlready(cmp, s, f, k, r);
    } else {
      RepairedByStop(cmp, s, f, k, r);
    }
  }

  lemma {:induction false} RepairedBySteps<T(!new)>(cmp: (T, T) -> int, s: seq<T>, f: Orders, k: nat, r: nat,
                                             trusty: bool)
    requires TotalPreorder(cmp) && f.Row? && Placed(f, k, r) && r < |s|
    requires Heaps(cmp, s, f) && Ascending(cmp, s, f, 0) && ChildrenHeaps(cmp, s, r, k)
    requires trusty ==> Heap(cmp, s, r, k)
    requires Steps(cmp, s, s[r], r - L(k), r, k, trusty)
    ensures Repaired(cmp, Trinkle(cmp, Swap(s, r, r - L(k)), f.front, f.last, r - L(k), false), f, k, r)
    decreases f, 1
  {
    StepsRootAbove(cmp, s, r - L(k), r, k, trusty);
    TrinkleSteps(cmp, s, f, k, r);
    RestRepaired(cmp, s, f, r, r - L(k));
    RepairedAlready(cmp, Trinkle(cmp, Swap(s, r, r - L(k)), f.front, f.last, r - L(k), false), f, k, r);
  }

  /** The trees before, once the element has moved into the root of the last of them. */
  lemma {:induction false} RestRepaired<T(!new)>(cmp: (T, T) -> int, s: seq<T>, f: Orders, r: nat, q: nat)
    requires TotalPreorder(cmp) && f.Row? && Size(f) == q + 1 <= r < |s|
    requires Heaps(cmp, s, f) && Ascending(cmp, s, f, 0)
    ensures Placed(f.front, f.last, q)
    ensures var t := Trinkle(cmp, Swap(s, r, q), f.front, f.last, q, false);
            Heaps(cmp, t, f) && Ascending(cmp, t, f, 0)
    decreases f, 0
  {
    SwappedRow(cmp, s, r, f);
    TrinkleRepairs(cmp, Swap(s, r, q), f.front, f.last, q, false);
    RepairedRow(cmp, Trinkle(cmp, Swap(s, r, q), f.front, f.last, q, false), f.front, f.last, q);
  }

  lemma RepairedAlready<T(!new)>(cmp: (T, T) -> int, s: seq<T>, f: Orders, k: nat, r: nat)
    requires TotalPreorder(cmp) && Placed(f, k, r) && r < |s|
    requires Heaps(cmp, s, f) && Ascending(cmp, s, f, 0) && Heap(cmp, s, r, k)
    requires f.Row? ==> cmp(s[r - L(k)], s[r]) <= 0
    ensures Repaired(cmp, s, f, k, r)
  {
  }

  /** Where the element stops, sifting makes a heap whose root is at least that of the
      tree before. */
  lemma RepairedByStop<T(!new)>(cmp: (T, T) -> int, s: seq<T>, f: Orders, k: nat, r: nat)
    requires TotalPreorder(cmp) && Placed(f, k, r) && r < |s|
    requires Heaps(cmp, s, f) && Ascending(cmp, s, f, 0) && ChildrenHeaps(cmp, s, r, k)
    requires f.Row? ==> !Steps(cmp, s, s[r], r - L(k), r, k, false)
    ensures Repaired(cmp, Sift(cmp, s, r, k), f, k, r)
  {
    hide Sift, Heap, Heaps, Ascending, Steps, L;
    if f.Row? {
      StopsRootAbove(cmp, s, r - L(k), r, k);
    }
    SiftedRow(cmp, s, f, k, r);
    RepairedAlready(cmp, Sift(cmp, s, r, k), f, k, r);
  }

  lemma SiftedRow<T(!new)>(cmp: (T, T) -> int, s: seq<T>, f: Orders, k: nat, r: nat)
    requires TotalPreorder(cmp) && Placed(f, k, r) && r < |s|
    requires Heaps(cmp, s, f) && Ascending(cmp, s, f, 0) && ChildrenHeaps(cmp, s, r, k)
    ensures var t := Sift(cmp, s, r, k);
            && Heaps(cmp, t, f) && Ascending(cmp, t, f, 0) && Heap(cmp, t, r, k)
            && (f.Row? ==> t[r - L(k)] == s[r - L(k)])
  {
    SiftMakesHeap(cmp, s, r, k);
    SiftFrame(cmp, s, r, k);
    RowFrame(cmp, s, Sift(cmp, s, r, k), f, 0);
  }

  /** Both subtrees of the root at r hold nothing larger than element q. */
  ghost predicate ChildrenBelow<T>(cmp: (T, T) -> int, s: seq<T>, q: nat, r: nat, k: nat)
    requires q < |s| && L(k) <= r + 1 <= |s|
  {
    k >= 2 ==> cmp(s[Lf(r, k)], s[q]) <= 0 && cmp(s[Rt(r, k)], s[q]) <= 0
  }

  lemma StepsRootAbove<T(!new)>(cmp: (T, T) -> int, s: seq<T>, q: nat, r: nat, k: nat, trusty: bool)
    requires TotalPreorder(cmp) && q < |s| && L(k) <= r + 1 <= |s| && Steps(cmp, s, s[r], q, r, k, trusty)
    requires trusty ==> Heap(cmp, s, r, k)
    ensures ChildrenBelow(cmp, s, q, r, k) && cmp(s[r], s[q]) <= 0
  {
    assert Mirror(cmp, s[q], s[r]);
    if k >= 2 {
      var lf, rt := Lf(r, k), Rt(r, k);
      assert Chain(cmp, s[lf], s[r], s[q]) && Chain(cmp, s[rt], s[r], s[q]);
      assert Mirror(cmp, s[lf], s[q]) && Mirror(cmp, s[rt], s[q]);
    }
  }

  lemma SwappedRow<T>(cmp: (T, T) -> int, s: seq<T>, r: nat, pre: Orders)
    requires pre.Row? && Size(pre) <= r < |s|
    requires Heaps(cmp, s, pre) && Ascending(cmp, s, pre, 0)
    ensures Placed(pre.front, pre.last, Size(pre) - 1)
    ensures var s1 := Swap(s, r, Size(pre) - 1);
            && Heaps(cmp, s1, pre.front) && Ascending(cmp, s1, pre.front, 0)
            && ChildrenHeaps(cmp, s1, Size(pre) - 1, pre.last)
  {
    RowFrame(cmp, s, Swap(s, r, Size(pre) - 1), pre.front, 0);
    SwappedChildren(cmp, s, r, Size(pre) - 1, pre.last);
  }

  /** The root left behind is at most the one moved up. */
  lemma TrinkleRootBelow<T(!new)>(cmp: (T, T) -> int, s: seq<T>, r: nat, pre: Orders, q: nat)
    requires TotalPreorder(cmp) && pre.Row? && Size(pre) == q + 1 <= r < |s|
    requires Heaps(cmp, s, pre) && Ascending(cmp, s, pre, 0)
    requires cmp(s[r], s[q]) <= 0
    ensures cmp(Trinkle(cmp, Swap(s, r, q), pre.front, pre.last, q, false)[q], s[q]) <= 0
  {
    RowMax(cmp, s, pre);
    assert Bounded(cmp, Swap(s, r, q), q + 1, s[q]);
    TrinkleBounded(cmp, Swap(s, r, q), pre.front, pre.last, q, false, s[q]);
  }

  /** The tree whose root was replaced by a larger one is a heap, and its root is at
      least that of the tree before. */
  lemma TrinkleSteps<T(!new)>(cmp: (T, T) -> int, s: seq<T>, f: Orders, k: nat, r: nat)
    requires TotalPreorder(cmp) && f.Row? && Placed(f, k, r) && r < |s|
    requires Heaps(cmp, s, f) && Ascending(cmp, s, f, 0) && ChildrenHeaps(cmp, s, r, k)
    requires ChildrenBelow(cmp, s, r - L(k), r, k) && cmp(s[r], s[r - L(k)]) <= 0
    ensures var q := r - L(k);
            var t := Trinkle(cmp, Swap(s, r, q), f.front, f.last, q, false);
            Heap(cmp, t, r, k) && cmp(t[q], t[r]) <= 0
  {
    var q := r - L(k);
    TrinkleFrame(cmp, Swap(s, r, q), f.front, f.last, q, false);
    ChildrenFrame(cmp, s, Trinkle(cmp, Swap(s, r, q), f.front, f.last, q, false), r, k);
    TrinkleRootBelow(cmp, s, r, f, q);
  }

  lemma StopsRootAbove<T(!new)>(cmp: (T, T) -> int, s: seq<T>, q: nat, r: nat, k: nat)
    requires TotalPreorder(cmp) && q < |s| && L(k) <= r + 1 <= |s| && !Steps(cmp, s, s[r], q, r, k, false)
    ensures cmp(s[q], Sift(cmp, s, r, k)[r]) <= 0
  {
    SiftRoot(cmp, s, r, k);
    var root := Sift(cmp, s, r, k)[r];
    assert Chain(cmp, s[q], s[r], root);
    if k >= 2 {
      var lf, rt := Lf(r, k), Rt(r, k);
      assert Mirror(cmp, s[lf], s[q]) && Mirror(cmp, s[rt], s[q]);
      assert Chain(cmp, s[q], s[lf], root) && Chain(cmp, s[q], s[rt], root);
    }
  }
}
