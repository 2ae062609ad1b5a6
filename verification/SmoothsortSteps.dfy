/** What one step of each smoothsort loop does to the forest: to the list of orders,
    to its code, and to the elements. */
module SmoothsortSteps {
  import opened Bits
  import opened WordPair
  import opened Leonardo
  import opened LeonardoHeap

  // Codes under the shifts of the two loops.

  lemma CodeFits(os: Orders, base: nat)
    requires Shape(os) && os.Row? && base <= os.last && Size(os) <= MAX_ELEMENTS
    ensures Code(os, base) < W * W
  {
    OrdersBound(os);
    CodeBound(os, base);
    Pow2Mono(First(os) - base, 34);
    Pow2OfWord();
    Pow2Add(2, WORD_BITS);
  }

  lemma OrdersBound(os: Orders)
    requires Shape(os) && os.Row? && Size(os) <= MAX_ELEMENTS
    ensures os.last <= First(os) <= 34
    ensures Many(os) ==> First(os) <= if Size(os) <= SAFE_ELEMENTS then 32 else 33
  {
    FirstIsLargest(os);
    LLarge();
    if First(os) > 32 {
      LMono(33, First(os));
    }
    if First(os) > 33 {
      LMono(34, First(os));
    }
  }

  lemma CodeDouble(os: Orders, base: nat)
    requires Shape(os) && (os.Row? ==> base + 1 <= os.last)
    ensures Code(os, base) == 2 * Code(os, base + 1)
  {
    CodeScale(os, base + 1, 1);
    assert Pow2(1) == 2;
  }

  /** Joining the last two trees under a new root. */
  lemma MergedShape(f: Orders, k: nat)
    requires Shape(Row(Row(f, k + 1), k))
    ensures Shape(Row(f, k + 2)) && Size(Row(f, k + 2)) == Size(Row(Row(f, k + 1), k)) + 1
  {
  }

  lemma MergedCode(f: Orders, k: nat)
    requires Shape(Row(Row(f, k + 1), k)) && Shape(Row(f, k + 2))
    ensures var p := Code(Row(Row(f, k + 1), k), k) / 4;
            p % 2 == 0 && p + 1 == Code(Row(f, k + 2), k + 2)
  {
    CodeDouble(f, k);
    CodeDouble(f, k + 1);
    CodeDouble(f, k + 2);
    assert Code(Row(Row(f, k + 1), k), k) == Code(f, k) + 3;
  }

  /** The order of the tree a new element starts. */
  function Started(k: nat): nat
    requires k >= 1
  {
    if k == 1 then 0 else 1
  }

  /** The last tree, of order k, and the one before it merge under the next element. */
  ghost predicate Adjacent(f: Orders, k: nat) {
    f.Row? && f.last == k + 1
  }

  lemma GrownShape(f: Orders, k: nat, b: nat)
    requires Shape(Row(f, k)) && k >= 1 && b == Started(k) && !Adjacent(f, k)
    ensures Shape(Row(Row(f, k), b)) && Size(Row(Row(f, k), b)) == Size(Row(f, k)) + 1
  {
  }

  lemma GrownCode(os: Orders, k: nat, b: nat)
    requires Shape(os) && os.Row? && os.last == k && b < k && Shape(Row(os, b))
    ensures Code(os, b) == Code(os, k) * Pow2(k - b)
    ensures Code(os, b) % 2 == 0 && Code(os, b) + 1 == Code(Row(os, b), b)
  {
    CodeScale(os, k, k - b);
    CodeEven(os, b);
  }

  /** Taking off the last root: its left subtree joins the row, and then the right one. */
  lemma SplitShape(f: Orders, k: nat)
    requires Shape(Row(f, k)) && k >= 2
    ensures Shape(Row(f, k - 1)) && Shape(Row(Row(f, k - 1), k - 2))
    ensures Size(Row(Row(f, k - 1), k - 2)) == Size(Row(f, k)) - 1
  {
  }

  lemma SplitLeftCode(f: Orders, k: nat)
    requires Shape(Row(f, k)) && k >= 2
    ensures Code(Row(f, k), k) * 4 == Code(f, k - 2) + 4
    ensures Code(f, k - 2) % 8 == 0 && (Code(f, k - 2) + 3) / 2 == Code(f, k - 1) + 1
  {
    CodeDouble(f, k - 2);
    CodeDouble(f, k - 1);
    CodeDouble(f, k);
    Eightfold(Code(f, k - 2), Code(f, k + 1));
  }

  lemma Eightfold(x: nat, y: nat)
    requires x == 2 * (2 * (2 * y))
    ensures x % 8 == 0 && (x + 3) / 2 == 4 * y + 1
  {
    DivExact(y, 8);
    DivUnique(x + 3, 2, 4 * y + 1, 1);
  }

  lemma SplitRightCode(f: Orders, k: nat)
    requires Shape(Row(f, k)) && k >= 2
    ensures Shape(Row(f, k - 1)) && Shape(Row(Row(f, k - 1), k - 2))
    ensures Code(Row(f, k - 1), k - 1) == Code(f, k - 1) + 1
    ensures Code(Row(f, k - 1), k - 1) * 2 == Code(Row(Row(f, k - 1), k - 2), k - 2) - 1
  {
    CodeDouble(Row(f, k - 1), k - 2);
  }

  // Elements under the steps of the building loop.

  /** Before the last tree is sifted: the trees before it are heaps, those of them that
      are final have ascending roots, and the last tree lacks only its root. */
  ghost predicate Building<T>(cmp: (T, T) -> int, s: seq<T>, f: Orders, k: nat, r: nat, n: nat)
    requires Placed(f, k, r) && r < |s|
  {
    Heaps(cmp, s, f) && Ascending(cmp, s, f, n) && ChildrenHeaps(cmp, s, r, k)
  }

  /** The row holds once more, and the next element is the root of a tree of order k. */
  lemma Joined<T>(cmp: (T, T) -> int, t: seq<T>, r: nat, k: nat)
    requires L(k) + L(k + 1) <= r + 1 < |t|
    requires Heap(cmp, t, r - L(k), k + 1) && Heap(cmp, t, r, k)
    ensures L(k + 2) <= r + 2 && ChildrenHeaps(cmp, t, r + 1, k + 2)
  {
    assert Lf(r + 1, k + 2) == r - L(k) && Rt(r + 1, k + 2) == r;
  }

  /** Sifting the last tree makes it a heap and leaves the others alone. */
  lemma SiftLast<T(!new)>(cmp: (T, T) -> int, s: seq<T>, f: Orders, k: nat, r: nat, n: nat)
    requires TotalPreorder(cmp) && Placed(f, k, r) && r < |s| && Building(cmp, s, f, k, r, n)
    ensures var t := Sift(cmp, s, r, k);
            Heaps(cmp, t, f) && Ascending(cmp, t, f, n) && Heap(cmp, t, r, k)
  {
    SiftMakesHeap(cmp, s, r, k);
    SiftFrame(cmp, s, r, k);
    RowFrame(cmp, s, Sift(cmp, s, r, k), f, n);
  }

  lemma MergePlaced(f: Orders, k: nat, r: nat)
    requires Placed(Row(f, k + 1), k, r)
    ensures r >= L(k) && Placed(f, k + 1, r - L(k)) && Placed(f, k + 2, r + 1)
  {
  }

  lemma RowParts<T>(cmp: (T, T) -> int, t: seq<T>, f: Orders, k: nat, r: nat, n: nat)
    requires Placed(f, k, r) && r < |t| && Heaps(cmp, t, Row(f, k)) && Ascending(cmp, t, Row(f, k), n)
    ensures Heaps(cmp, t, f) && Ascending(cmp, t, f, n) && Heap(cmp, t, r, k)
  {
  }

  lemma MergeHeaps<T>(cmp: (T, T) -> int, t: seq<T>, f: Orders, k: nat, r: nat, n: nat)
    requires L(k) <= r < |t| - 1 && Placed(f, k + 1, r - L(k))
    requires Heaps(cmp, t, Row(f, k + 1)) && Ascending(cmp, t, Row(f, k + 1), n) && Heap(cmp, t, r, k)
    ensures Heaps(cmp, t, f) && Ascending(cmp, t, f, n)
    ensures L(k + 2) <= r + 2 && ChildrenHeaps(cmp, t, r + 1, k + 2)
  {
    RowParts(cmp, t, f, k + 1, r - L(k), n);
    Joined(cmp, t, r, k);
  }

  lemma MergeStep<T(!new)>(cmp: (T, T) -> int, s: seq<T>, f: Orders, k: nat, r: nat, n: nat)
    requires TotalPreorder(cmp) && Placed(Row(f, k + 1), k, r) && r + 1 < |s|
    requires Building(cmp, s, Row(f, k + 1), k, r, n)
    ensures Placed(f, k + 2, r + 1)
    ensures Building(cmp, Sift(cmp, s, r, k), f, k + 2, r + 1, n)
  {
    MergePlaced(f, k, r);
    SiftLast(cmp, s, Row(f, k + 1), k, r, n);
    MergeHeaps(cmp, Sift(cmp, s, r, k), f, k, r, n);
  }

  lemma {:induction false} AscendingAll<T>(cmp: (T, T) -> int, s: seq<T>, os: Orders, n: nat)
    requires Size(os) <= |s| && Ascending(cmp, s, os, 0)
    ensures Ascending(cmp, s, os, n)
  {
    if Many(os) {
      AscendingAll(cmp, s, os.front, n);
    }
  }

  /** When the last tree is final, or is the last of all, the trees before it are final. */
  lemma FrontAscends<T>(cmp: (T, T) -> int, s: seq<T>, f: Orders, k: nat, r: nat, n: nat)
    requires Shape(Row(f, k)) && Placed(f, k, r) && r < |s| && Ascending(cmp, s, f, n)
    requires n <= r + 1 || (k >= 1 && Final(k, r + 1, n) && !Adjacent(f, k))
    ensures Ascending(cmp, s, f, 0)
  {
    if f.Row? {
      if n <= r + 1 {
        LMono(k, f.last - 1);
      } else {
        LMono(k + 1, f.last - 1);
      }
      FinalPrefix(cmp, s, f, n);
    }
  }

  function Settled<T>(cmp: (T, T) -> int, s: seq<T>, f: Orders, k: nat, r: nat, n: nat): (t: seq<T>)
    requires Placed(f, k, r) && r < |s|
    ensures |t| == |s|
  {
    if Final(k, r + 1, n) then Trinkle(cmp, s, f, k, r, false) else Sift(cmp, s, r, k)
  }

  lemma SettledPermutes<T>(cmp: (T, T) -> int, s: seq<T>, f: Orders, k: nat, r: nat, n: nat)
    requires Placed(f, k, r) && r < |s|
    ensures multiset(Settled(cmp, s, f, k, r, n)) == multiset(s)
  {
    TrinklePermutes(cmp, s, f, k, r, false);
    SiftFrame(cmp, s, r, k);
  }

  lemma GrowStep<T(!new)>(cmp: (T, T) -> int, s: seq<T>, f: Orders, k: nat, r: nat, n: nat)
    requires TotalPreorder(cmp) && Shape(Row(f, k)) && k >= 1 && !Adjacent(f, k)
    requires Placed(f, k, r) && r + 1 < |s| && Building(cmp, s, f, k, r, n)
    ensures Placed(Row(f, k), Started(k), r + 1)
    ensures Building(cmp, Settled(cmp, s, f, k, r, n), Row(f, k), Started(k), r + 1, n)
  {
    hide Trinkle, Sift, Heap, ChildrenHeaps, Ascending, Heaps, Repaired, Final, L, Size, Shape, Adjacent;
    GrownPlaced(f, k, r);
    StartsEmpty(cmp, Settled(cmp, s, f, k, r, n), k, r);
    if Final(k, r + 1, n) {
      FrontAscends(cmp, s, f, k, r, n);
      TrinkleRepairs(cmp, s, f, k, r, false);
      RepairedRow(cmp, Trinkle(cmp, s, f, k, r, false), f, k, r);
      AscendingAll(cmp, Trinkle(cmp, s, f, k, r, false), Row(f, k), n);
    } else {
      SiftLast(cmp, s, f, k, r, n);
      GrownRow(cmp, Sift(cmp, s, r, k), f, k, r, n);
    }
  }

  lemma GrownPlaced(f: Orders, k: nat, r: nat)
    requires Placed(f, k, r) && k >= 1
    ensures Placed(Row(f, k), Started(k), r + 1)
  {
  }

  lemma StartsEmpty<T>(cmp: (T, T) -> int, t: seq<T>, k: nat, r: nat)
    requires k >= 1 && r + 1 < |t|
    ensures ChildrenHeaps(cmp, t, r + 1, Started(k))
  {
  }

  /** A tree that is not final puts no condition on its root. */
  lemma GrownRow<T>(cmp: (T, T) -> int, t: seq<T>, f: Orders, k: nat, r: nat, n: nat)
    requires Placed(f, k, r) && r < |t| && Heaps(cmp, t, f) && Ascending(cmp, t, f, n) && Heap(cmp, t, r, k)
    requires !Final(k, r + 1, n)
    ensures Heaps(cmp, t, Row(f, k)) && Ascending(cmp, t, Row(f, k), n)
  {
  }

  // Elements under the steps of the draining loop.

  /** Every element from position m on is at least everything to its left. */
  ghost predicate SortedFrom<T>(cmp: (T, T) -> int, s: seq<T>, m: nat) {
    forall i, j :: 0 <= i < j < |s| && m <= j ==> cmp(s[i], s[j]) <= 0
  }

  ghost predicate Draining<T>(cmp: (T, T) -> int, s: seq<T>, f: Orders, k: nat, r: nat)
    requires Placed(f, k, r) && r < |s|
  {
    Repaired(cmp, s, f, k, r) && SortedFrom(cmp, s, r + 1)
  }

  lemma LastIsPlaced<T(!new)>(cmp: (T, T) -> int, s: seq<T>, f: Orders, k: nat, r: nat)
    requires TotalPreorder(cmp) && Placed(f, k, r) && r < |s| && Draining(cmp, s, f, k, r)
    ensures SortedFrom(cmp, s, r)
  {
    RepairedRow(cmp, s, f, k, r);
    RowMax(cmp, s, Row(f, k));
  }

  lemma TrinkleKeepsSorted<T>(cmp: (T, T) -> int, s: seq<T>, f: Orders, k: nat, r: nat, trusty: bool, m: nat)
    requires Placed(f, k, r) && r < m <= |s| && SortedFrom(cmp, s, m)
    ensures SortedFrom(cmp, Trinkle(cmp, s, f, k, r, trusty), m)
  {
    var t := Trinkle(cmp, s, f, k, r, trusty);
    TrinkleFrame(cmp, s, f, k, r, trusty);
    forall i, j | 0 <= i < j < |t| && m <= j
      ensures cmp(t[i], t[j]) <= 0
    {
      if i <= r {
        TrinkleBounded(cmp, s, f, k, r, trusty, s[j]);
      }
    }
  }

  lemma DropStep<T(!new)>(cmp: (T, T) -> int, s: seq<T>, f: Orders, k: nat, r: nat)
    requires TotalPreorder(cmp) && Placed(f, k, r) && r < |s| && Draining(cmp, s, f, k, r)
    requires k <= 1 && f.Row?
    ensures r >= 1 && Placed(f.front, f.last, r - 1) && Draining(cmp, s, f.front, f.last, r - 1)
  {
    LastIsPlaced(cmp, s, f, k, r);
  }

  /** Where the root's two subtrees stand in the split row. */
  lemma SplitPlaced(f: Orders, k: nat, r: nat)
    requires k >= 2 && Placed(f, k, r)
    ensures r >= 1 + L(k - 2) && Placed(f, k - 1, r - 1 - L(k - 2)) && Placed(Row(f, k - 1), k - 2, r - 1)
  {
  }

  /** The trees of orders j and k, rooted at q and r, trinkled one after the other. */
  function Twice<T>(cmp: (T, T) -> int, s: seq<T>, f: Orders, j: nat, q: nat, k: nat, r: nat): (t: seq<T>)
    requires Placed(f, j, q) && Placed(Row(f, j), k, r) && q < r < |s|
    ensures |t| == |s|
  {
    Trinkle(cmp, Trinkle(cmp, s, f, j, q, true), Row(f, j), k, r, true)
  }

  lemma TwicePermutes<T>(cmp: (T, T) -> int, s: seq<T>, f: Orders, j: nat, q: nat, k: nat, r: nat)
    requires Placed(f, j, q) && Placed(Row(f, j), k, r) && q < r < |s|
    ensures multiset(Twice(cmp, s, f, j, q, k, r)) == multiset(s)
  {
    hide L;
    TrinklePermutes(cmp, s, f, j, q, true);
    TrinklePermutes(cmp, Trinkle(cmp, s, f, j, q, true), Row(f, j), k, r, true);
  }

  /** Two heaps put after a row of heaps with ascending roots, each trinkled. */
  lemma TwiceRepairs<T(!new)>(cmp: (T, T) -> int, s: seq<T>, f: Orders, j: nat, q: nat, k: nat, r: nat)
    requires TotalPreorder(cmp) && Placed(f, j, q) && Placed(Row(f, j), k, r) && q + L(k) == r < |s|
    requires Heaps(cmp, s, f) && Ascending(cmp, s, f, 0) && Heap(cmp, s, q, j) && Heap(cmp, s, r, k)
    ensures Repaired(cmp, Twice(cmp, s, f, j, q, k, r), Row(f, j), k, r)
  {
    hide L;
    var t := Trinkle(cmp, s, f, j, q, true);
    TrinkleRepairs(cmp, s, f, j, q, true);
    RepairedRow(cmp, t, f, j, q);
    TrinkleFrame(cmp, s, f, j, q, true);
    HeapFrame(cmp, s, t, r, k);
    TrinkleRepairs(cmp, t, Row(f, j), k, r, true);
  }

  lemma TwiceKeepsSorted<T>(cmp: (T, T) -> int, s: seq<T>, f: Orders, j: nat, q: nat, k: nat, r: nat)
    requires Placed(f, j, q) && Placed(Row(f, j), k, r) && q < r < |s| && SortedFrom(cmp, s, r + 1)
    ensures SortedFrom(cmp, Twice(cmp, s, f, j, q, k, r), r + 1)
  {
    hide L;
    TrinkleKeepsSorted(cmp, s, f, j, q, true, r + 1);
    TrinkleKeepsSorted(cmp, Trinkle(cmp, s, f, j, q, true), Row(f, j), k, r, true, r + 1);
  }

  lemma SplitHeaps<T>(cmp: (T, T) -> int, s: seq<T>, r: nat, k: nat)
    requires k >= 2 && L(k) <= r + 1 <= |s| && Heap(cmp, s, r, k)
    ensures L(k) == L(k - 1) + L(k - 2) + 1
    ensures Heap(cmp, s, r - 1 - L(k - 2), k - 1) && Heap(cmp, s, r - 1, k - 2)
  {
    assert ChildrenHeaps(cmp, s, r, k);
    assert Lf(r, k) == r - 1 - L(k - 2);
  }

  /** Taking the root at r + 1 off a tree with subtrees of orders j and k. */
  lemma SplitStep<T(!new)>(cmp: (T, T) -> int, s: seq<T>, f: Orders, j: nat, q: nat, k: nat, r: nat)
    requires TotalPreorder(cmp) && j == k + 1 && q + L(k) == r < |s| - 1
    requires Placed(f, k + 2, r + 1) && Placed(f, j, q) && Placed(Row(f, j), k, r)
    requires Draining(cmp, s, f, k + 2, r + 1)
    ensures Draining(cmp, Twice(cmp, s, f, j, q, k, r), Row(f, j), k, r)
  {
    hide L, Size, ChildrenHeaps;
    LastIsPlaced(cmp, s, f, k + 2, r + 1);
    TwiceKeepsSorted(cmp, s, f, j, q, k, r);
    SplitHeaps(cmp, s, r + 1, k + 2);
    TwiceRepairs(cmp, s, f, j, q, k, r);
  }
}
