/** Smoothsort on an array of whole elements: the loops that collect the positions to
    rotate, the forest kept in `p` and `pshift`, and the sort. */
module Smoothsort {
  import opened Bits
  import opened WordPair
  import opened Leonardo
  import opened LeonardoHeap
  import opened SmoothsortSteps

  // Rotation along a list of positions.

  function Init(path: seq<nat>): seq<nat>
    requires path != []
  {
    path[..|path| - 1]
  }

  function End(path: seq<nat>): nat
    requires path != []
  {
    path[|path| - 1]
  }

  ghost predicate Descends(path: seq<nat>, n: nat) {
    && (forall i :: 0 <= i < |path| ==> path[i] < n)
    && (forall i, j :: 0 <= i < j < |path| ==> path[i] > path[j])
  }

  /** The first element of a path moved to its end, one exchange at a time. */
  ghost function Cycled<T>(s: seq<T>, path: seq<nat>): (t: seq<T>)
    requires Descends(path, |s|)
    ensures |t| == |s|
  {
    if |path| < 2 then s
    else Swap(Cycled(s, Init(path)), End(Init(path)), End(path))
  }

  /** Element i of the path ends up holding the old element i + 1. */
  lemma {:induction false} CycledMoves<T>(s: seq<T>, path: seq<nat>, i: nat)
    requires Descends(path, |s|) && i < |path|
    ensures Cycled(s, path)[path[i]] == if i + 1 < |path| then s[path[i + 1]] else s[path[0]]
    decreases |path|
  {
    if |path| >= 2 {
      var x := End(path);
      if i < |path| - 1 {
        CycledMoves(s, Init(path), i);
        if i == |path| - 2 {
          CycledKeeps(s, Init(path), x);
        }
      } else {
        CycledMoves(s, Init(path), i - 1);
      }
    }
  }

  lemma {:induction false} CycledKeeps<T>(s: seq<T>, path: seq<nat>, k: nat)
    requires Descends(path, |s|) && k < |s| && k !in path
    ensures Cycled(s, path)[k] == s[k]
    decreases |path|
  {
    if |path| >= 2 {
      assert path == Init(path) + [End(path)];
      CycledKeeps(s, Init(path), k);
    }
  }

  /** What the collecting loops know of the rotated sequence: it carries the first
      element at the end of the path and is untouched before it. */
  lemma CycledFacts<T>(s: seq<T>, path: seq<nat>)
    requires Descends(path, |s|) && path != []
    ensures Cycled(s, path)[End(path)] == s[path[0]]
    ensures forall k :: 0 <= k < End(path) ==> Cycled(s, path)[k] == s[k]
  {
    CycledMoves(s, path, |path| - 1);
    forall k | 0 <= k < End(path)
      ensures Cycled(s, path)[k] == s[k]
    {
      CycledKeeps(s, path, k);
    }
  }

  lemma CycledExtend<T>(s: seq<T>, path: seq<nat>, x: nat)
    requires Descends(path, |s|) && path != [] && x < End(path)
    ensures Descends(path + [x], |s|)
    ensures Cycled(s, path + [x]) == Swap(Cycled(s, path), End(path), x)
  {
    assert Init(path + [x]) == path;
  }

  method Cycle<T>(a: array<T>, ar: seq<nat>)
    requires ar != [] && Descends(ar, a.Length)
    modifies a
    ensures a[..] == Cycled(old(a[..]), ar)
  {
    var n := |ar|;
    if n < 2 {
      return;
    }
    ghost var s := a[..];
    var tmp := a[ar[0]];
    for i := 0 to n - 1
      invariant forall j :: 0 <= j < i ==> a[ar[j]] == s[ar[j + 1]]
      invariant forall j :: i <= j < n ==> a[ar[j]] == s[ar[j]]
      invariant forall k :: 0 <= k < a.Length && k !in ar ==> a[k] == s[k]
    {
      a[ar[i]] := a[ar[i + 1]];
    }
    a[ar[n - 1]] := tmp;
    forall k | 0 <= k < a.Length
      ensures a[k] == Cycled(s, ar)[k]
    {
      if k in ar {
        var i :| 0 <= i < n && ar[i] == k;
        CycledMoves(s, ar, i);
      } else {
        CycledKeeps(s, ar, k);
      }
    }
  }

  /** The table of Leonardo numbers holds those that the sort of n elements looks up. */
  ghost predicate Entry(lp: seq<nat>, n: nat, k: nat) {
    L(k) <= n ==> k < |lp| && lp[k] == L(k)
  }

  ghost predicate Table(lp: seq<nat>, n: nat) {
    forall k: nat :: Entry(lp, n, k)
  }

  // One round of the collecting loop of `sift`, which reads the array as it was before any
  // rotation.

  lemma SiftStays<T>(cmp: (T, T) -> int, s: seq<T>, ar: seq<nat>, r: nat, k: nat)
    requires Descends(ar, |s|) && ar != [] && End(ar) == r && k >= 2 && L(k) <= r + 1
    requires cmp(s[ar[0]], s[Lf(r, k)]) >= 0 && cmp(s[ar[0]], s[Rt(r, k)]) >= 0
    ensures Sift(cmp, Cycled(s, ar), r, k) == Cycled(s, ar)
  {
    CycledFacts(s, ar);
  }

  lemma SiftGoes<T>(cmp: (T, T) -> int, s: seq<T>, ar: seq<nat>, r: nat, k: nat)
    requires Descends(ar, |s|) && ar != [] && End(ar) == r && k >= 2 && L(k) <= r + 1
    requires !(cmp(s[ar[0]], s[Lf(r, k)]) >= 0 && cmp(s[ar[0]], s[Rt(r, k)]) >= 0)
    ensures Descends(ar + [Lf(r, k)], |s|) && Descends(ar + [Rt(r, k)], |s|)
    ensures Sift(cmp, Cycled(s, ar), r, k)
         == if cmp(s[Lf(r, k)], s[Rt(r, k)]) >= 0 then Sift(cmp, Cycled(s, ar + [Lf(r, k)]), Lf(r, k), k - 1)
            else Sift(cmp, Cycled(s, ar + [Rt(r, k)]), Rt(r, k), k - 2)
  {
    CycledFacts(s, ar);
    CycledExtend(s, ar, Lf(r, k));
    CycledExtend(s, ar, Rt(r, k));
  }

  /** One round of the collecting loop of `sift`: whether the element on its way goes on,
      and to which subtree. */
  method SiftRound<T>(a: array<T>, cmp: (T, T) -> int, ar: seq<nat>, head: nat, pshift: nat, lp: array<nat>)
    returns (goes: bool, child: nat, order: nat)
    requires L(pshift) <= head + 1 <= a.Length && pshift > 1 && Table(lp[..], a.Length)
    requires ar != [] && Descends(ar, a.Length) && End(ar) == head
    ensures !goes ==> Sift(cmp, Cycled(a[..], ar), head, pshift) == Cycled(a[..], ar)
    ensures goes ==> order < pshift && L(order) <= child + 1 && Descends(ar + [child], a.Length)
    ensures goes ==> Sift(cmp, Cycled(a[..], ar), head, pshift) == Sift(cmp, Cycled(a[..], ar + [child]), child, order)
  {
    hide Cycled, Sift;
    var rt := head - 1;
    assert Entry(lp[..], a.Length, pshift - 2);
    var lf := head - 1 - lp[pshift - 2];
    if cmp(a[ar[0]], a[lf]) >= 0 && cmp(a[ar[0]], a[rt]) >= 0 {
      SiftStays(cmp, a[..], ar, head, pshift);
      return false, head, pshift;
    }
    SiftGoes(cmp, a[..], ar, head, pshift);
    if cmp(a[lf], a[rt]) >= 0 {
      return true, lf, pshift - 1;
    } else {
      return true, rt, pshift - 2;
    }
  }

  /** The collecting loop of `sift`: rotating along `ar` is what sifting does. */
  method SiftPath<T>(a: array<T>, cmp: (T, T) -> int, head: nat, pshift: nat, lp: array<nat>) returns (ar: seq<nat>)
    requires L(pshift) <= head + 1 <= a.Length && Table(lp[..], a.Length)
    ensures ar != [] && Descends(ar, a.Length)
    ensures Sift(cmp, a[..], head, pshift) == Cycled(a[..], ar)
  {
    ghost var target := Sift(cmp, a[..], head, pshift);
    ar := [head];
    var head', pshift' := head, pshift;
    while pshift' > 1
      invariant L(pshift') <= head' + 1 <= a.Length
      invariant ar != [] && Descends(ar, a.Length) && End(ar) == head'
      invariant target == Sift(cmp, Cycled(a[..], ar), head', pshift')
      decreases pshift'
    {
      var goes, child, order := SiftRound(a, cmp, ar, head', pshift', lp);
      if !goes {
        return;
      }
      ar := ar + [child];
      head', pshift' := child, order;
    }
  }

  method SiftDown<T>(a: array<T>, cmp: (T, T) -> int, head: nat, pshift: nat, lp: array<nat>)
    requires L(pshift) <= head + 1 <= a.Length && Table(lp[..], a.Length)
    modifies a
    ensures a[..] == Sift(cmp, old(a[..]), head, pshift)
  {
    var ar := SiftPath(a, cmp, head, pshift, lp);
    Cycle(a, ar);
  }

  // The forest encoded in two words.

  /** `p` encodes the row f followed by a tree of order pshift. */
  ghost predicate Encodes(p: seq<Word>, f: Orders, pshift: nat)
    requires |p| == 2
  {
    Shape(Row(f, pshift)) && Value(p) == Code(Row(f, pshift), pshift)
  }

  /** Within the bound on the number of elements the next tree is no more than a word up. */
  lemma NextIsNear(f: Orders, k: nat)
    requires Shape(Row(f, k)) && f.Row? && Size(Row(f, k)) <= MAX_ELEMENTS
    ensures 0 < f.last - k <= if Size(Row(f, k)) <= SAFE_ELEMENTS then WORD_BITS - 1 else WORD_BITS
  {
    OrdersBound(Row(f, k));
    FirstIsLargest(f);
  }

  /** Within reach `pntz` is exact. */
  lemma PntzReads(p: seq<Word>, f: Orders, pshift: nat, ctz0: nat)
    requires |p| == 2 && Encodes(p, f, pshift) && f.Row? && InReach(Size(Row(f, pshift)), ctz0)
    ensures Pntz(p, ctz0) == f.last - pshift
  {
    hide Code, Shape, L, Size, Pntz, Ctz, Pow2;
    EncodedShape(p, f, pshift);
    CodeReads(Row(f, pshift));
    LowWord(p);
    NextIsNear(f, pshift);
    if p[0] == 1 {
      WordGap(p);
    }
    PntzExact(p, ctz0);
  }

  /** Steps from the last tree to the one before it. */
  method NextTree(p: array<Word>, ghost f: Orders, pshift: nat, ctz0: nat) returns (trail: nat)
    requires p.Length == 2 && Encodes(p[..], f, pshift) && f.Row? && InReach(Size(Row(f, pshift)), ctz0)
    modifies p
    ensures pshift + trail == f.last && Encodes(p[..], f.front, f.last)
  {
    hide Code, Size, L, Pntz, Ctz, Pow2;
    PntzReads(p[..], f, pshift, ctz0);
    NextIsNear(f, pshift);
    CodeReads(Row(f, pshift));
    trail := Pntz(p[..], ctz0);
    Shr(p, trail);
  }

  lemma ReadsOne(p: seq<Word>, f: Orders, pshift: nat)
    requires |p| == 2 && Encodes(p, f, pshift)
    ensures p[0] == 1 && p[1] == 0 <==> f.Empty?
  {
    CodeReads(Row(f, pshift));
  }

  lemma ReadsAdjacent(p: seq<Word>, f: Orders, pshift: nat)
    requires |p| == 2 && Encodes(p, f, pshift)
    ensures BitAnd(p[0], 3) == 3 <==> Adjacent(f, pshift)
  {
    CodeReads(Row(f, pshift));
    LowWord(p);
    AndThree(p[0]);
  }

  /** One element more, and `pntz` can be asked for a bit a whole word up: trees of
      orders 33 and 1 side by side make 11405774 elements, and where `ctz(0)` is 0 it
      misses the second tree. */
  lemma PntzBoundIsTight(p: seq<Word>)
    requires |p| == 2 && Encodes(p, Row(Empty, 33), 1)
    ensures Size(Row(Row(Empty, 33), 1)) == SAFE_ELEMENTS + 1
    ensures p == [1, 1] && Pntz(p, 0) == 0
  {
    LLarge();
    CodeStep(Row(Row(Empty, 33), 1));
    CodeStep(Row(Empty, 33));
    Pow2OfWord();
  }

  /** On WebAssembly the bound is higher, and as tight: trees of orders 34 and 1 side by
      side make 18454930 elements, and `pntz` takes 32 steps for 33. */
  lemma PntzMissesTree(p: seq<Word>)
    requires |p| == 2 && Encodes(p, Row(Empty, 34), 1)
    ensures Size(Row(Row(Empty, 34), 1)) == MAX_ELEMENTS + 1
    ensures p == [1, 2] && Pntz(p, WORD_BITS) == 32 == 34 - 1 - 1
  {
    LLarge();
    CodeStep(Row(Row(Empty, 34), 1));
    CodeStep(Row(Empty, 34));
    Pow2OfWord();
    PntzMisses();
  }

  // Trinkle.

  lemma TrinkleGoes<T>(cmp: (T, T) -> int, s: seq<T>, ar: seq<nat>, f: Orders, k: nat, r: nat, trusty: bool)
    requires f.Row? && Placed(f, k, r) && Descends(ar, |s|) && ar != [] && End(ar) == r
    requires Steps(cmp, s, s[ar[0]], r - L(k), r, k, trusty)
    ensures Descends(ar + [r - L(k)], |s|)
    ensures Trinkle(cmp, Cycled(s, ar), f, k, r, trusty)
         == Trinkle(cmp, Cycled(s, ar + [r - L(k)]), f.front, f.last, r - L(k), false)
  {
    CycledFacts(s, ar);
    CycledExtend(s, ar, r - L(k));
  }

  lemma TrinkleStays<T>(cmp: (T, T) -> int, s: seq<T>, ar: seq<nat>, f: Orders, k: nat, r: nat, trusty: bool)
    requires f.Row? && Placed(f, k, r) && Descends(ar, |s|) && ar != [] && End(ar) == r
    requires !Steps(cmp, s, s[ar[0]], r - L(k), r, k, trusty)
    ensures Trinkle(cmp, Cycled(s, ar), f, k, r, trusty)
         == if trusty then Cycled(s, ar) else Sift(cmp, Cycled(s, ar), r, k)
  {
    CycledFacts(s, ar);
  }

  /** The tests of one round of `trinkle`: whether the element x on its way goes on to the
      tree before, whose root is stepson. */
  method StepsOn<T>(a: array<T>, cmp: (T, T) -> int, x: T, head: nat, pshift: nat, trusty: bool, lp: array<nat>)
    returns (steps: bool, stepson: nat)
    requires L(pshift) <= head < a.Length && Table(lp[..], a.Length)
    ensures stepson == head - L(pshift)
    ensures steps == Steps(cmp, a[..], x, stepson, head, pshift, trusty)
  {
    assert Entry(lp[..], a.Length, pshift);
    stepson := head - lp[pshift];
    if cmp(a[stepson], x) <= 0 {
      return false, stepson;
    }
    if !trusty && pshift > 1 {
      assert Entry(lp[..], a.Length, pshift - 2);
      var rt := head - 1;
      var lf := head - 1 - lp[pshift - 2];
      if cmp(a[rt], a[stepson]) >= 0 || cmp(a[lf], a[stepson]) >= 0 {
        return false, stepson;
      }
    }
    return true, stepson;
  }

  /** One round of the collecting loop of `trinkle`. */
  method TrinkleRound<T>(a: array<T>, cmp: (T, T) -> int, ar: seq<nat>, head: nat, pshift: nat, trusty: bool,
                         lp: array<nat>, ghost f: Orders)
    returns (steps: bool, stepson: nat)
    requires f.Row? && Placed(f, pshift, head) && head < a.Length && Table(lp[..], a.Length)
    requires ar != [] && Descends(ar, a.Length) && End(ar) == head
    ensures stepson == head - L(pshift)
    ensures steps ==> Descends(ar + [stepson], a.Length)
    ensures Trinkle(cmp, Cycled(a[..], ar), f, pshift, head, trusty)
         == if steps then Trinkle(cmp, Cycled(a[..], ar + [stepson]), f.front, f.last, stepson, false)
            else if trusty then Cycled(a[..], ar) else Sift(cmp, Cycled(a[..], ar), head, pshift)
  {
    steps, stepson := StepsOn(a, cmp, a[ar[0]], head, pshift, trusty, lp);
    if steps {
      TrinkleGoes(cmp, a[..], ar, f, pshift, head, trusty);
    } else {
      TrinkleStays(cmp, a[..], ar, f, pshift, head, trusty);
    }
  }

  /** The collecting loop of `trinkle`: where the element on its way stops. */
  method TrinklePath<T>(a: array<T>, cmp: (T, T) -> int, head: nat, p: array<Word>, pshift: nat, trusty: bool,
                        lp: array<nat>, ctz0: nat, ghost f: Orders)
    returns (ar: seq<nat>, head': nat, pshift': nat, trusty': bool)
    requires p.Length == 2 && p as object != a && p as object != lp && Encodes(p[..], f, pshift)
    requires Placed(f, pshift, head) && head < a.Length && InReach(a.Length, ctz0) && Table(lp[..], a.Length)
    modifies p
    ensures a[..] == old(a[..]) && ar != [] && Descends(ar, a.Length) && L(pshift') <= head' + 1 <= a.Length
    ensures Trinkle(cmp, a[..], f, pshift, head, trusty)
         == if trusty' then a[..] else Sift(cmp, Cycled(a[..], ar), head', pshift')
  {
    hide L, Size, Trinkle, Sift, Cycled, Table, Encodes, InReach, Placed, Shape;
    ghost var s := a[..];
    ghost var target := Trinkle(cmp, s, f, pshift, head, trusty);
    ar, head', pshift', trusty' := [head], head, pshift, trusty;
    ghost var f' := f;
    CycledAlone(s, head);
    while p[0] != 1 || p[1] != 0
      invariant ar != [] && Descends(ar, |s|) && End(ar) == head' && Placed(f', pshift', head')
      invariant Encodes(p[..], f', pshift') && head' <= head
      invariant a[..] == s && lp[..] == old(lp[..])
      invariant target == Trinkle(cmp, Cycled(s, ar), f', pshift', head', trusty')
      invariant trusty' ==> ar == [head]
      decreases f'
    {
      ReadsOne(p[..], f', pshift');
      TreeFits(f', pshift', head');
      PlacedFits(f', pshift', head', a.Length, ctz0);
      var steps, stepson := TrinkleRound(a, cmp, ar, head', pshift', trusty', lp, f');
      if !steps {
        return;
      }
      ar := ar + [stepson];
      head', trusty' := stepson, false;
      var trail := NextTree(p, f', pshift', ctz0);
      pshift', f' := pshift' + trail, f'.front;
    }
    ReadsOne(p[..], f', pshift');
    TreeFits(f', pshift', head');
    TrinkleEnds(cmp, Cycled(s, ar), pshift', head', trusty');
  }

  lemma CycledAlone<T>(s: seq<T>, r: nat)
    requires r < |s|
    ensures Descends([r], |s|) && Cycled(s, [r]) == s
  {
  }

  lemma TrinkleEnds<T>(cmp: (T, T) -> int, s: seq<T>, k: nat, r: nat, trusty: bool)
    requires Placed(Empty, k, r) && r < |s|
    ensures Trinkle(cmp, s, Empty, k, r, trusty) == if trusty then s else Sift(cmp, s, r, k)
  {
  }

  lemma TreeFits(f: Orders, k: nat, r: nat)
    requires Placed(f, k, r)
    ensures L(k) <= r + 1
    ensures f.Row? ==> L(k) <= r && Placed(f.front, f.last, r - L(k))
  {
  }

  method TrinkleDown<T>(a: array<T>, cmp: (T, T) -> int, head: nat, pp: array<Word>, pshift: nat, trusty: bool,
                        lp: array<nat>, ctz0: nat, ghost f: Orders)
    requires pp.Length == 2 && Encodes(pp[..], f, pshift)
    requires Placed(f, pshift, head) && head < a.Length && InReach(a.Length, ctz0) && Table(lp[..], a.Length)
    requires lp as object != a
    modifies a
    ensures a[..] == Trinkle(cmp, old(a[..]), f, pshift, head, trusty)
  {
    var p := new Word[2](i requires 0 <= i < 2 reads pp => pp[i]);
    assert p[..] == pp[..];
    var ar, head', pshift', trusty' := TrinklePath(a, cmp, head, p, pshift, trusty, lp, ctz0, f);
    if !trusty' {
      Cycle(a, ar);
      SiftDown(a, cmp, head', pshift', lp);
    }
  }

  // The two words under the bit operations of the sort.

  lemma AndThree(x: nat)
    ensures BitAnd(x, 3) == x % 4
  {
    assert BitAnd(x / 2, 1) == x / 2 % 2;
  }

  /** The low bits of a pair are those of its low word. */
  lemma LowWord(p: seq<Word>)
    requires |p| == 2
    ensures Value(p) % 2 == p[0] % 2 && Value(p) % 4 == p[0] % 4 && Value(p) % 8 == p[0] % 8
  {
    var high: nat := p[1];
    ModDrops(p[0], 0x8000_0000 * high, 2);
    ModDrops(p[0], 0x4000_0000 * high, 4);
    ModDrops(p[0], 0x2000_0000 * high, 8);
  }

  lemma XorSeven(x: nat)
    requires x % 8 == 4
    ensures BitXor(x, 7) == x - 1
  {
    var h := x / 2;
    assert BitXor(h / 2, 1) == h / 2 - 1;
    assert BitXor(h, 3) == h - 1;
  }

  lemma OrOne(x: Word)
    requires x % 2 == 0
    ensures BitOr(x, 1) == x + 1 < W
  {
    assert BitOr(x / 2, 0) == x / 2;
    assert W % 2 == 0;
  }

  method SetBit0(p: array<Word>)
    requires p.Length == 2 && Value(p[..]) % 2 == 0
    modifies p
    ensures Value(p[..]) == old(Value(p[..])) + 1
  {
    LowWord(p[..]);
    OrOne(p[0]);
    p[0] := BitOr(p[0], 1);
  }

  method FlipLow3(p: array<Word>)
    requires p.Length == 2 && Value(p[..]) % 8 == 4
    modifies p
    ensures Value(p[..]) == old(Value(p[..])) - 1
  {
    LowWord(p[..]);
    XorSeven(p[0]);
    p[0] := BitXor(p[0], 7);
  }

  /** A left shift that loses nothing. */
  method ShlExact(p: array<Word>, n: nat, ghost v: nat)
    requires p.Length == 2 && 0 < n < 2 * WORD_BITS
    requires Value(p[..]) * Pow2(n) == v < W * W
    modifies p
    ensures Value(p[..]) == v
  {
    Shl(p, n);
  }

  /** Joins the last two trees in the code. */
  method MergeCode(p: array<Word>, ghost f: Orders, k: nat)
    requires p.Length == 2 && Encodes(p[..], Row(f, k + 1), k)
    modifies p
    ensures Encodes(p[..], f, k + 2)
  {
    MergedShape(f, k);
    MergedCode(f, k);
    assert Pow2(2) == 4;
    Shr(p, 2);
    SetBit0(p);
  }

  /** Adds a tree of one element to the code. */
  method GrowCode(p: array<Word>, ghost f: Orders, k: nat) returns (b: nat)
    requires p.Length == 2 && Encodes(p[..], f, k) && k >= 1 && !Adjacent(f, k)
    requires Size(Row(f, k)) <= MAX_ELEMENTS
    modifies p
    ensures b == Started(k) && Encodes(p[..], Row(f, k), b)
  {
    GrownShape(f, k, Started(k));
    GrownCode(Row(f, k), k, Started(k));
    CodeFits(Row(f, k), Started(k));
    OrdersBound(Row(f, k));
    if k == 1 {
      ShlExact(p, 1, Code(Row(f, k), 0));
      b := 0;
    } else {
      ShlExact(p, k - 1, Code(Row(f, k), 1));
      b := 1;
    }
    SetBit0(p);
  }

  /** Takes the last root off and keeps its left subtree. */
  method SplitLeftPart(p: array<Word>, ghost f: Orders, k: nat)
    requires p.Length == 2 && Encodes(p[..], f, k) && k >= 2 && Size(Row(f, k)) <= MAX_ELEMENTS
    modifies p
    ensures Encodes(p[..], f, k - 1)
  {
    assert Pow2(1) == 2;
    hide L, Size, Code, Shape, Pow2;
    SplitCodeFits(f, k);
    ShlExact(p, 2, Code(f, k - 2) + 4);
    FlipLow3(p);
    Shr(p, 1);
  }

  lemma SplitCodeReads(f: Orders, k: nat)
    requires Shape(Row(f, k)) && k >= 2 && Code(f, k - 2) % 8 == 0
    ensures (Code(f, k - 2) + 4) % 8 == 4
  {
    var c := Code(f, k - 2);
    DivUnique(c + 4, 8, c / 8, 4);
  }

  lemma Four()
    ensures Pow2(2) == 4
  {
  }

  lemma SplitCodeFits(f: Orders, k: nat)
    requires Shape(Row(f, k)) && k >= 2 && Size(Row(f, k)) <= MAX_ELEMENTS
    ensures Code(Row(f, k), k) * Pow2(2) == Code(f, k - 2) + 4 < W * W
    ensures (Code(f, k - 2) + 4) % 8 == 4
    ensures Shape(Row(f, k - 1)) && (Code(f, k - 2) + 3) / 2 == Code(Row(f, k - 1), k - 1)
  {
    hide *;
    SplitLeftCode(f, k);
    SplitRightCode(f, k);
    CodeScale(Row(f, k), k, 2);
    CodeFits(Row(f, k), k - 2);
    Four();
    SplitCodeReads(f, k);
  }

  method SplitRightPart(p: array<Word>, ghost f: Orders, k: nat)
    requires p.Length == 2 && k >= 2 && Encodes(p[..], f, k - 1) && Shape(Row(f, k))
    requires Size(Row(f, k)) <= MAX_ELEMENTS
    modifies p
    ensures Encodes(p[..], Row(f, k - 1), k - 2)
  {
    hide L, Size, Code, Shape, Pow2;
    SplitRightFits(f, k);
    ShlExact(p, 1, Code(Row(Row(f, k - 1), k - 2), k - 2) - 1);
    SetBit0(p);
  }

  lemma SplitRightFits(f: Orders, k: nat)
    requires Shape(Row(f, k)) && k >= 2 && Size(Row(f, k)) <= MAX_ELEMENTS
    ensures Shape(Row(f, k - 1)) && Shape(Row(Row(f, k - 1), k - 2))
    ensures var c := Code(Row(Row(f, k - 1), k - 2), k - 2);
            Code(Row(f, k - 1), k - 1) * Pow2(1) == c - 1 < W * W && (c - 1) % 2 == 0
  {
    SplitRightCode(f, k);
    SplitShape(f, k);
    CodeFits(Row(Row(f, k - 1), k - 2), k - 2);
    assert Pow2(1) == 2;
  }

  // The sort.

  /** Precomputes the Leonardo numbers the sort looks up. */
  method FillTable(lp: array<nat>, size: nat)
    requires lp.Length == 48 && 0 < size <= MAX_ELEMENTS
    modifies lp
    ensures Table(lp[..], size)
  {
    hide Table, Entry;
    LLarge();
    lp[0], lp[1] := 1, 1;
    var i := 2;
    while true
      invariant 2 <= i <= 34
      invariant forall k :: 0 <= k < i ==> lp[k] == L(k)
      invariant i > 2 ==> L(i - 1) < size
      decreases 34 - i
    {
      lp[i] := lp[i - 2] + lp[i - 1] + 1;
      if lp[i] >= size {
        break;
      }
      i := i + 1;
    }
    Filled(lp[..], i, size);
  }

  lemma Filled(lp: seq<nat>, last: nat, size: nat)
    requires 1 <= last < |lp| && (forall k :: 0 <= k <= last ==> lp[k] == L(k)) && L(last) >= size
    ensures Table(lp, size)
  {
    assert L(last + 1) > L(last);
    hide L;
    forall k: nat
      ensures Entry(lp, size, k)
    {
      if k > last {
        LMono(last + 1, k);
      }
    }
  }

  /** Makes the last tree a heap, and puts its root in place when the tree is final. */
  method SettleLast<T>(a: array<T>, cmp: (T, T) -> int, head: nat, p: array<Word>, pshift: nat,
                       lp: array<nat>, ctz0: nat, ghost f: Orders)
    requires p.Length == 2 && Encodes(p[..], f, pshift) && pshift >= 1
    requires Placed(f, pshift, head) && head + 1 < a.Length && InReach(a.Length, ctz0) && Table(lp[..], a.Length)
    requires lp as object != a
    modifies a
    ensures a[..] == Settled(cmp, old(a[..]), f, pshift, head, a.Length)
  {
    LMono(pshift - 1, pshift);
    assert Entry(lp[..], a.Length, pshift - 1);
    if lp[pshift - 1] >= a.Length - 1 - head {
      TrinkleDown(a, cmp, head, p, pshift, false, lp, ctz0, f);
    } else {
      SiftDown(a, cmp, head, pshift, lp);
    }
  }

  /** Two trees of adjacent orders become one under the next element. */
  method MergeRound<T(!new)>(a: array<T>, cmp: (T, T) -> int, head: nat, p: array<Word>, pshift: nat,
                             lp: array<nat>, ctz0: nat, ghost f: Orders)
    requires TotalPreorder(cmp) && p.Length == 2 && Encodes(p[..], Row(f, pshift + 1), pshift)
    requires Placed(Row(f, pshift + 1), pshift, head) && head + 1 < a.Length && Table(lp[..], a.Length)
    requires lp as object != a && p as object != a && lp as object != p
    requires Building(cmp, a[..], Row(f, pshift + 1), pshift, head, a.Length)
    modifies a, p
    ensures Encodes(p[..], f, pshift + 2) && Placed(f, pshift + 2, head + 1)
    ensures Building(cmp, a[..], f, pshift + 2, head + 1, a.Length)
    ensures multiset(a[..]) == multiset(old(a[..]))
  {
    hide *;
    MergePlaced(f, pshift, head);
    MergeStep(cmp, a[..], f, pshift, head, a.Length);
    SiftFrame(cmp, a[..], head, pshift);
    SiftDown(a, cmp, head, pshift, lp);
    MergeCode(p, f, pshift);
  }

  /** The last tree is settled, and the next element starts another. */
  method GrowRound<T(!new)>(a: array<T>, cmp: (T, T) -> int, head: nat, p: array<Word>, pshift: nat,
                            lp: array<nat>, ctz0: nat, ghost f: Orders)
    returns (pshift': nat)
    requires TotalPreorder(cmp) && p.Length == 2 && Encodes(p[..], f, pshift) && !Adjacent(f, pshift) && pshift >= 1
    requires Placed(f, pshift, head) && head + 1 < a.Length && InReach(a.Length, ctz0) && Table(lp[..], a.Length)
    requires lp as object != a && p as object != a && lp as object != p
    requires Building(cmp, a[..], f, pshift, head, a.Length)
    modifies a, p
    ensures Encodes(p[..], Row(f, pshift), pshift') && Placed(Row(f, pshift), pshift', head + 1)
    ensures Building(cmp, a[..], Row(f, pshift), pshift', head + 1, a.Length)
    ensures multiset(a[..]) == multiset(old(a[..]))
  {
    hide *;
    EncodedShape(p[..], f, pshift);
    PlacedFits(f, pshift, head, a.Length, ctz0);
    GrowStep(cmp, a[..], f, pshift, head, a.Length);
    SettledPermutes(cmp, a[..], f, pshift, head, a.Length);
    SettleLast(a, cmp, head, p, pshift, lp, ctz0, f);
    pshift' := GrowCode(p, f, pshift);
  }

  lemma EncodedShape(p: seq<Word>, f: Orders, k: nat)
    requires |p| == 2 && Encodes(p, f, k)
    ensures Shape(Row(f, k)) && (k == 0 ==> Adjacent(f, k))
  {
  }

  /** One round of the building loop, for the element at `head`. */
  method BuildRound<T(!new)>(a: array<T>, cmp: (T, T) -> int, head: nat, p: array<Word>, pshift: nat,
                             lp: array<nat>, ctz0: nat, ghost f: Orders)
    returns (pshift': nat, ghost f': Orders)
    requires TotalPreorder(cmp) && p.Length == 2 && Encodes(p[..], f, pshift)
    requires Placed(f, pshift, head) && head + 1 < a.Length && InReach(a.Length, ctz0) && Table(lp[..], a.Length)
    requires lp as object != a && p as object != a && lp as object != p
    requires Building(cmp, a[..], f, pshift, head, a.Length)
    modifies a, p
    ensures Encodes(p[..], f', pshift') && Placed(f', pshift', head + 1)
    ensures Building(cmp, a[..], f', pshift', head + 1, a.Length)
    ensures multiset(a[..]) == multiset(old(a[..]))
  {
    hide Building, Encodes, Placed, Table, Entry, TotalPreorder, InReach;
    ReadsAdjacent(p[..], f, pshift);
    EncodedShape(p[..], f, pshift);
    if BitAnd(p[0], 3) == 3 {
      f', pshift' := f.front, pshift + 2;
      assert f == Row(f', pshift + 1);
      MergeRound(a, cmp, head, p, pshift, lp, ctz0, f');
    } else {
      pshift' := GrowRound(a, cmp, head, p, pshift, lp, ctz0, f);
      f' := Row(f, pshift);
    }
  }

  lemma PlacedFits(f: Orders, k: nat, r: nat, n: nat, ctz0: nat)
    requires Placed(f, k, r) && r < n && InReach(n, ctz0)
    ensures InReach(Size(Row(f, k)), ctz0) && Size(Row(f, k)) <= MAX_ELEMENTS
  {
  }

  lemma OneElement(r: nat)
    requires Placed(Empty, 1, r)
    ensures r == 0
  {
  }

  /** Splits the tree at `head`, of order j + 1 == k + 2 with left subtree rooted at q,
      leaving its root in place. */
  method SplitTwice<T>(a: array<T>, cmp: (T, T) -> int, head: nat, p: array<Word>, pshift: nat,
                       lp: array<nat>, ctz0: nat, ghost f: Orders, ghost q: nat)
    requires p.Length == 2 && Encodes(p[..], f, pshift) && pshift >= 2 && Size(Row(f, pshift)) <= MAX_ELEMENTS
    requires 1 <= head < a.Length && InReach(a.Length, ctz0) && Table(lp[..], a.Length)
    requires lp as object != a && p as object != a && lp as object != p
    requires q + L(pshift - 2) == head - 1
    requires Placed(f, pshift - 1, q) && Placed(Row(f, pshift - 1), pshift - 2, head - 1)
    modifies a, p
    ensures Encodes(p[..], Row(f, pshift - 1), pshift - 2)
    ensures a[..] == Twice(cmp, old(a[..]), f, pshift - 1, q, pshift - 2, head - 1)
  {
    hide L, Size;
    var pshift' := pshift - 2;
    SplitLeftPart(p, f, pshift);
    assert Entry(lp[..], a.Length, pshift');
    TrinkleDown(a, cmp, head - lp[pshift'] - 1, p, pshift' + 1, true, lp, ctz0, f);
    SplitRightPart(p, f, pshift);
    TrinkleDown(a, cmp, head - 1, p, pshift', true, lp, ctz0, Row(f, pshift - 1));
  }

  method SplitRound<T(!new)>(a: array<T>, cmp: (T, T) -> int, head: nat, p: array<Word>, pshift: nat,
                       lp: array<nat>, ctz0: nat, ghost f: Orders)
    requires TotalPreorder(cmp) && p.Length == 2 && Encodes(p[..], f, pshift) && pshift >= 2
    requires Placed(f, pshift, head) && head < a.Length && InReach(a.Length, ctz0) && Table(lp[..], a.Length)
    requires lp as object != a && p as object != a && lp as object != p
    requires Draining(cmp, a[..], f, pshift, head)
    modifies a, p
    ensures head >= 1 && Encodes(p[..], Row(f, pshift - 1), pshift - 2)
    ensures Placed(Row(f, pshift - 1), pshift - 2, head - 1)
    ensures Draining(cmp, a[..], Row(f, pshift - 1), pshift - 2, head - 1)
    ensures multiset(a[..]) == multiset(old(a[..]))
  {
    hide *;
    PlacedFits(f, pshift, head, a.Length, ctz0);
    SplitPlaced(f, pshift, head);
    ghost var q := head - 1 - L(pshift - 2);
    ghost var s := a[..];
    SplitStep(cmp, s, f, pshift - 1, q, pshift - 2, head - 1);
    SplitTwice(a, cmp, head, p, pshift, lp, ctz0, f, q);
    assert a[..] == Twice(cmp, s, f, pshift - 1, q, pshift - 2, head - 1);
    TwicePermutes(cmp, s, f, pshift - 1, q, pshift - 2, head - 1);
  }

  /** One round of the draining loop, which leaves the element at `head` in its place. */
  method DrainRound<T(!new)>(a: array<T>, cmp: (T, T) -> int, head: nat, p: array<Word>, pshift: nat,
                       lp: array<nat>, ctz0: nat, ghost f: Orders)
    returns (pshift': nat, ghost f': Orders)
    requires TotalPreorder(cmp) && p.Length == 2 && Encodes(p[..], f, pshift)
    requires Placed(f, pshift, head) && head < a.Length && InReach(a.Length, ctz0) && Table(lp[..], a.Length)
    requires lp as object != a && p as object != a && lp as object != p
    requires Draining(cmp, a[..], f, pshift, head) && (pshift <= 1 ==> f.Row?)
    modifies a, p
    ensures head >= 1 && Encodes(p[..], f', pshift') && Placed(f', pshift', head - 1)
    ensures Draining(cmp, a[..], f', pshift', head - 1)
    ensures multiset(a[..]) == multiset(old(a[..]))
  {
    hide L, Size, Placed, Encodes, Draining, Repaired, SortedFrom, Table, InReach, Shape;
    PlacedFits(f, pshift, head, a.Length, ctz0);
    if pshift <= 1 {
      DropStep(cmp, a[..], f, pshift, head);
      var trail := NextTree(p, f, pshift, ctz0);
      pshift', f' := pshift + trail, f.front;
    } else {
      SplitRound(a, cmp, head, p, pshift, lp, ctz0, f);
      pshift', f' := pshift - 2, Row(f, pshift - 1);
    }
  }

  /** The building loop and the trinkle after it: the whole array becomes one row of
      heaps with ascending roots. */
  method BuildForest<T(!new)>(a: array<T>, cmp: (T, T) -> int, p: array<Word>, lp: array<nat>, ctz0: nat)
    returns (pshift: nat, ghost f: Orders)
    requires TotalPreorder(cmp) && 0 < a.Length && InReach(a.Length, ctz0) && Table(lp[..], a.Length)
    requires lp as object != a && p as object != a && lp as object != p
    requires p.Length == 2 && p[0] == 1 && p[1] == 0
    modifies a, p
    ensures Encodes(p[..], f, pshift) && Placed(f, pshift, a.Length - 1)
    ensures Draining(cmp, a[..], f, pshift, a.Length - 1)
    ensures multiset(a[..]) == multiset(old(a[..]))
  {
    var head, high := 0, a.Length - 1;
    pshift, f := 1, Empty;
    CodeStep(Row(Empty, 1));
    while head < high
      invariant head <= high && Placed(f, pshift, head)
      invariant Encodes(p[..], f, pshift) && Building(cmp, a[..], f, pshift, head, a.Length)
      invariant multiset(a[..]) == multiset(old(a[..])) && Table(lp[..], a.Length)
    {
      pshift, f := BuildRound(a, cmp, head, p, pshift, lp, ctz0, f);
      head := head + 1;
    }
    FrontAscends(cmp, a[..], f, pshift, head, a.Length);
    TrinkleRepairs(cmp, a[..], f, pshift, head, false);
    TrinklePermutes(cmp, a[..], f, pshift, head, false);
    TrinkleDown(a, cmp, head, p, pshift, false, lp, ctz0, f);
  }

  /** The draining loop: the row shrinks to one element, and the rest is sorted. */
  method DrainForest<T(!new)>(a: array<T>, cmp: (T, T) -> int, p: array<Word>, pshift: nat, lp: array<nat>,
                        ctz0: nat, ghost f: Orders)
    requires TotalPreorder(cmp) && 0 < a.Length && InReach(a.Length, ctz0) && Table(lp[..], a.Length)
    requires lp as object != a && p as object != a && lp as object != p && p.Length == 2
    requires Encodes(p[..], f, pshift) && Placed(f, pshift, a.Length - 1)
    requires Draining(cmp, a[..], f, pshift, a.Length - 1)
    modifies a, p
    ensures SortedFrom(cmp, a[..], 0)
    ensures multiset(a[..]) == multiset(old(a[..]))
  {
    hide L, Size, Placed, Encodes, Draining, Repaired, SortedFrom, Table, InReach, Shape;
    var head: nat, pshift' := a.Length - 1, pshift;
    ghost var f' := f;
    while pshift' != 1 || p[0] != 1 || p[1] != 0
      invariant head < a.Length && Placed(f', pshift', head)
      invariant Encodes(p[..], f', pshift') && Draining(cmp, a[..], f', pshift', head)
      invariant multiset(a[..]) == multiset(old(a[..])) && Table(lp[..], a.Length)
      decreases head
    {
      EncodedShape(p[..], f', pshift');
      ReadsOne(p[..], f', pshift');
      pshift', f' := DrainRound(a, cmp, head, p, pshift', lp, ctz0, f');
      head := head - 1;
    }
    ReadsOne(p[..], f', pshift');
    OneElement(head);
    LastIsPlaced(cmp, a[..], f', pshift', head);
  }

  /** `__qsort_r`: the array ends up sorted, and a permutation of what it was. */
  method Qsort<T(!new)>(a: array<T>, cmp: (T, T) -> int, ctz0: nat)
    requires TotalPreorder(cmp) && InReach(a.Length, ctz0)
    modifies a
    ensures forall i, j :: 0 <= i < j < a.Length ==> cmp(a[i], a[j]) <= 0
    ensures multiset(a[..]) == multiset(old(a[..]))
  {
    if a.Length == 0 {
      return;
    }
    var lp := new nat[48];
    FillTable(lp, a.Length);
    var p := new Word[2];
    p[0], p[1] := 1, 0;
    var pshift, f := BuildForest(a, cmp, p, lp, ctz0);
    DrainForest(a, cmp, p, pshift, lp, ctz0, f);
    assert forall i :: 0 <= i < a.Length ==> a[..][i] == a[i];
  }
}
