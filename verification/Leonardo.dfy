/** Leonardo numbers, and the orders of a row of Leonardo trees with the bit
    vector that encodes them. */
module Leonardo {
  import opened Bits

  function L(k: nat): (r: nat)
    ensures r >= 1
  {
    if k <= 1 then 1 else L(k - 1) + L(k - 2) + 1
  }

  lemma {:induction false} LMono(j: nat, k: nat)
    requires j <= k
    ensures L(j) <= L(k)
    ensures 1 <= j < k ==> L(j) < L(k)
    decreases k
  {
    if j < k && k >= 2 {
      LMono(j, k - 1);
    }
  }

  /** The largest number of elements for which no reachable forest asks `pntz` for a bit
      a whole word up, the 33rd Leonardo number, or more than a word up, the 34th. */
  const SAFE_ELEMENTS: nat := 11405773
  const MAX_ELEMENTS: nat := 18454929

  /** So many elements can be sorted. Where `ctz(0)` is the word size, as on WebAssembly,
      a bit a whole word up is found all the same. */
  predicate InReach(n: nat, ctz0: nat) {
    n <= SAFE_ELEMENTS || (ctz0 == WORD_BITS && n <= MAX_ELEMENTS)
  }

  lemma LLarge()
    ensures L(32) == 7049155 && L(33) == SAFE_ELEMENTS && L(34) == MAX_ELEMENTS
  {
    assert L(10) == 177 && L(11) == 287;
    assert L(18) == 8361 && L(19) == 13529;
    assert L(26) == 392835 && L(27) == 635621;
  }

  /** A row of trees given by their orders, the rightmost tree outermost. */
  datatype Orders = Empty | Row(front: Orders, last: nat)

  predicate One(os: Orders) {
    os.Row? && os.front.Empty?
  }

  predicate Many(os: Orders) {
    os.Row? && os.front.Row?
  }

  function First(os: Orders): nat
    requires os.Row?
  {
    if os.front.Empty? then os.last else First(os.front)
  }

  /** The number of elements in the trees of a list. */
  function Size(os: Orders): nat {
    if os.Empty? then 0 else Size(os.front) + L(os.last)
  }

  /** Orders fall from left to right, by two or more except at the right end, and a
      tree of order 0 only ever follows one of order 1. */
  ghost predicate Shape(os: Orders) {
    os.Row? ==>
      && Shape(os.front)
      && (One(os) ==> os.last >= 1)
      && (Many(os) ==> os.front.last > os.last && (os.last == 0 ==> os.front.last == 1))
      && (Many(os.front) ==> os.front.front.last >= os.front.last + 2)
  }

  lemma {:induction false} FirstIsLargest(os: Orders)
    requires Shape(os) && os.Row?
    ensures First(os) >= os.last && L(First(os)) <= Size(os)
    ensures Many(os) ==> L(First(os)) < Size(os)
  {
    if Many(os) {
      FirstIsLargest(os.front);
    }
  }

  /** The bit vector of a list of orders, relative to a base order. */
  function Code(os: Orders, base: nat): nat
    requires Shape(os) && (os.Row? ==> base <= os.last)
  {
    if os.Empty? then 0 else Code(os.front, base) + Pow2(os.last - base)
  }

  lemma {:induction false} CodeScale(os: Orders, base: nat, d: nat)
    requires Shape(os) && (os.Row? ==> base <= os.last) && d <= base
    ensures Code(os, base) * Pow2(d) == Code(os, base - d)
  {
    if os.Row? {
      CodeScale(os.front, base, d);
      Pow2Add(os.last - base, d);
      Distribute(Code(os.front, base), Pow2(os.last - base), Pow2(d));
    }
  }

  /** The code of a forest has its own bit 0 set, and above it the code of the trees
      before. */
  lemma CodeStep(os: Orders)
    requires Shape(os) && os.Row?
    ensures One(os) ==> Code(os, os.last) == 1
    ensures Many(os) ==>
              var d := os.front.last - os.last;
              d > 0 && Code(os, os.last) == 1 + Code(os.front, os.front.last) * Pow2(d)
  {
    if Many(os) {
      CodeScale(os.front, os.front.last, os.front.last - os.last);
    }
  }

  lemma {:induction false} CodeEven(os: Orders, base: nat)
    requires Shape(os) && (os.Row? ==> base < os.last)
    ensures Code(os, base) % 2 == 0
  {
    if os.Row? {
      CodeEven(os.front, base);
    }
  }

  lemma CodeOdd(os: Orders)
    requires Shape(os) && os.Row?
    ensures Code(os, os.last) % 2 == 1
  {
    CodeEven(os.front, os.last);
  }

  /** What smoothsort reads off the code: whether one tree is left, whether the last
      two trees merge, the distance to the next tree, and the code without the last
      tree. */
  lemma CodeReads(os: Orders)
    requires Shape(os) && os.Row?
    ensures var p := Code(os, os.last);
            && p % 2 == 1
            && (p == 1 <==> One(os))
            && (p % 4 == 3 <==> Many(os) && os.front.last == os.last + 1)
    ensures Many(os) ==>
              var p, d := Code(os, os.last), os.front.last - os.last;
              Ctz(p - 1) == d && p / Pow2(d) == Code(os.front, os.front.last)
  {
    CodeStep(os);
    CodeOdd(os);
    hide Code, Pow2, Ctz;
    if Many(os) {
      var d := os.front.last - os.last;
      var c := Code(os.front, os.front.last);
      CodeOdd(os.front);
      CtzScaled(c, d);
      DivUnique(1 + c * Pow2(d), Pow2(d), c, 1);
      SecondBit(c, d);
    }
  }

  lemma SecondBit(c: nat, d: nat)
    requires d > 0 && c % 2 == 1
    ensures (1 + c * Pow2(d)) % 4 == 3 <==> d == 1
  {
    if d > 1 {
      assert Pow2(d) == 4 * Pow2(d - 2);
      Regroup(c, 4, Pow2(d - 2));
    }
  }

  /** A code stays below the double of its highest bit. */
  lemma {:induction false} CodeBound(os: Orders, base: nat)
    requires Shape(os) && os.Row? && base <= os.last
    ensures First(os) >= base
    ensures Code(os, base) + Pow2(os.last - base) <= 2 * Pow2(First(os) - base)
  {
    FirstIsLargest(os);
    if Many(os) {
      CodeBound(os.front, base);
      Pow2Mono(os.last - base + 1, os.front.last - base);
    }
  }
}
