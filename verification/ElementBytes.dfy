/** Elements of any width: in memory, `cycle` moves them in pieces of at most 256 bytes,
    and what comes out is the rotation of whole elements that the sort is proved with. */
module ElementBytes {
  import opened Bits
  import opened Bytes
  import opened Smoothsort

  const PIECE: nat := 256

  /** Where byte t of element e is. */
  function At(e: nat, w: nat, t: nat): nat {
    e * w + t
  }

  lemma AtInside(e: nat, w: nat, t: nat, n: nat)
    requires e < n && t < w
    ensures At(e, w, t) < n * w
  {
    Distribute(n - e - 1, e + 1, w);
    NotNegative(n - e - 1, w);
    Distribute(e, 1, w);
  }

  lemma AtApart(e: nat, f: nat, w: nat, t: nat, u: nat)
    requires t < w && u < w && At(e, w, t) == At(f, w, u)
    ensures e == f && t == u
  {
    DivUnique(At(e, w, t), w, e, t);
    DivUnique(At(f, w, u), w, f, u);
  }

  /** n elements of w bytes. */
  ghost predicate Holds(m: seq<byte>, n: nat, w: nat) {
    w > 0 && |m| == n * w
  }

  ghost function ByteOf(m: seq<byte>, n: nat, w: nat, e: nat, t: nat): byte
    requires Holds(m, n, w) && e < n && t < w
  {
    AtInside(e, w, t, n);
    m[At(e, w, t)]
  }

  ghost function Element(m: seq<byte>, n: nat, w: nat, e: nat): (x: seq<byte>)
    requires Holds(m, n, w) && e < n
    ensures |x| == w && forall t :: 0 <= t < w ==> x[t] == ByteOf(m, n, w, e, t)
  {
    seq(w, t requires 0 <= t < w => ByteOf(m, n, w, e, t))
  }

  ghost function Elements(m: seq<byte>, n: nat, w: nat): (s: seq<seq<byte>>)
    requires Holds(m, n, w)
    ensures |s| == n && forall e :: 0 <= e < n ==> s[e] == Element(m, n, w, e)
  {
    seq(n, e requires 0 <= e < n => Element(m, n, w, e))
  }

  method PutByte(mem: array<byte>, ghost n: nat, w: nat, to: nat, u: nat, b: byte)
    requires Holds(mem[..], n, w) && to < n && u < w
    modifies mem
    ensures Gets(mem[..], old(mem[..]), n, w, to, u, [b])
  {
    AtInside(to, w, u, n);
    hide At;
    ghost var s := mem[..];
    mem[At(to, w, u)] := b;
    forall e, t | 0 <= e < n && 0 <= t < w
      ensures ByteOf(mem[..], n, w, e, t) == if e == to && t == u then b else ByteOf(s, n, w, e, t)
    {
      AtInside(e, w, t, n);
      if At(e, w, t) == At(to, w, u) {
        AtApart(e, to, w, t, u);
      }
    }
  }

  /** Bytes `done` up to `done + l` of an element. */
  ghost function Piece(m: seq<byte>, n: nat, w: nat, e: nat, done: nat, l: nat): (x: seq<byte>)
    requires Holds(m, n, w) && e < n && done + l <= w
    ensures |x| == l
  {
    Element(m, n, w, e)[done..done + l]
  }

  /** One element has got this piece, and nothing else has changed. */
  ghost predicate Gets(m2: seq<byte>, m: seq<byte>, n: nat, w: nat, to: nat, done: nat, piece: seq<byte>)
    requires to < n && done + |piece| <= w
  {
    && Holds(m, n, w) && Holds(m2, n, w)
    && forall e, t :: 0 <= e < n && 0 <= t < w ==>
         ByteOf(m2, n, w, e, t)
         == if e == to && done <= t < done + |piece| then piece[t - done] else ByteOf(m, n, w, e, t)
  }

  lemma GetsNothing(m: seq<byte>, n: nat, w: nat, to: nat, done: nat, piece: seq<byte>)
    requires Holds(m, n, w) && to < n && done + |piece| <= w
    ensures Gets(m, m, n, w, to, done, piece[..0])
  {
  }

  lemma GetsOne(m3: seq<byte>, m2: seq<byte>, m: seq<byte>, n: nat, w: nat, to: nat, done: nat, piece: seq<byte>,
                i: nat)
    requires to < n && done + |piece| <= w && i < |piece| && Gets(m2, m, n, w, to, done, piece[..i])
    requires Gets(m3, m2, n, w, to, done + i, [piece[i]])
    ensures Gets(m3, m, n, w, to, done, piece[..i + 1])
  {
    hide Holds, ByteOf;
  }

  /** `memcpy` of a piece from one element to another. */
  method CopyPiece(mem: array<byte>, ghost n: nat, w: nat, to: nat, from: nat, done: nat, l: nat)
    requires Holds(mem[..], n, w) && to < n && from < n && to != from && done + l <= w
    modifies mem
    ensures Gets(mem[..], old(mem[..]), n, w, to, done, Piece(old(mem[..]), n, w, from, done, l))
  {
    hide At, Holds, ByteOf, Gets, Piece;
    ghost var s := mem[..];
    ghost var piece := Piece(s, n, w, from, done, l);
    GetsNothing(s, n, w, to, done, piece);
    var i := 0;
    while i < l
      invariant i <= l && Gets(mem[..], s, n, w, to, done, piece[..i])
    {
      ghost var m := mem[..];
      SourceByte(m, s, n, w, to, from, done, l, i);
      CopyByte(mem, n, w, to, from, done + i);
      GetsOne(mem[..], m, s, n, w, to, done, piece, i);
      i := i + 1;
    }
    assert piece[..l] == piece;
  }

  /** Copying into another element leaves the source as it was. */
  lemma SourceByte(m: seq<byte>, s: seq<byte>, n: nat, w: nat, to: nat, from: nat, done: nat, l: nat, i: nat)
    requires Holds(s, n, w) && to < n && from < n && to != from && done + l <= w && i < l
    requires Gets(m, s, n, w, to, done, Piece(s, n, w, from, done, l)[..i])
    ensures Holds(m, n, w) && ByteOf(m, n, w, from, done + i) == Piece(s, n, w, from, done, l)[i]
  {
  }

  method CopyByte(mem: array<byte>, ghost n: nat, w: nat, to: nat, from: nat, u: nat)
    requires Holds(mem[..], n, w) && to < n && from < n && to != from && u < w
    modifies mem
    ensures Gets(mem[..], old(mem[..]), n, w, to, u, [ByteOf(old(mem[..]), n, w, from, u)])
  {
    AtInside(from, w, u, n);
    PutByte(mem, n, w, to, u, mem[At(from, w, u)]);
  }

  /** The element that moves to place i of a path. */
  function Source(ar: seq<nat>, i: nat): nat
    requires i < |ar|
  {
    if i + 1 < |ar| then ar[i + 1] else ar[0]
  }

  /** The first `done` bytes of every element on the path have moved, and l more of the
      first k elements on it. */
  ghost predicate Moved(m: seq<byte>, s: seq<byte>, n: nat, w: nat, ar: seq<nat>, done: nat, l: nat, k: nat)
    requires Descends(ar, n)
  {
    && Holds(m, n, w) && Holds(s, n, w)
    && (forall i, t :: 0 <= i < |ar| && 0 <= t < w ==>
          ByteOf(m, n, w, ar[i], t)
          == ByteOf(s, n, w, if t < done || (t < done + l && i < k) then Source(ar, i) else ar[i], t))
    && (forall e, t :: 0 <= e < n && e !in ar && 0 <= t < w ==> ByteOf(m, n, w, e, t) == ByteOf(s, n, w, e, t))
  }

  lemma NothingMoved(s: seq<byte>, n: nat, w: nat, ar: seq<nat>)
    requires Descends(ar, n) && Holds(s, n, w)
    ensures Moved(s, s, n, w, ar, 0, 0, 0)
  {
  }

  /** A piece begins, and ends. */
  lemma MovedPiece(m: seq<byte>, s: seq<byte>, n: nat, w: nat, ar: seq<nat>, done: nat, l: nat)
    requires Descends(ar, n)
    ensures Moved(m, s, n, w, ar, done, 0, 0) ==> Moved(m, s, n, w, ar, done, l, 0)
    ensures Moved(m, s, n, w, ar, done, l, |ar|) ==> Moved(m, s, n, w, ar, done + l, 0, 0)
  {
    hide ByteOf, Holds;
  }

  /** The k-th element on the path has got its piece. */
  lemma MovedOne(m: seq<byte>, m2: seq<byte>, s: seq<byte>, n: nat, w: nat, ar: seq<nat>, done: nat, l: nat, k: nat)
    requires Descends(ar, n) && Moved(m, s, n, w, ar, done, l, k) && k < |ar| && done + l <= w
    requires Gets(m2, m, n, w, ar[k], done, Piece(s, n, w, Source(ar, k), done, l))
    ensures Moved(m2, s, n, w, ar, done, l, k + 1)
  {
    hide ByteOf, Holds;
    var piece := Piece(s, n, w, Source(ar, k), done, l);
    forall i, t | 0 <= i < |ar| && 0 <= t < w
      ensures ByteOf(m2, n, w, ar[i], t)
              == ByteOf(s, n, w, if t < done || (t < done + l && i < k + 1) then Source(ar, i) else ar[i], t)
    {
      assert i != k ==> ar[i] != ar[k];
      assert i == k && done <= t < done + l ==> piece[t - done] == ByteOf(s, n, w, Source(ar, k), t);
    }
  }

  /** What has not moved yet is as it was. */
  lemma Unmoved(m: seq<byte>, s: seq<byte>, n: nat, w: nat, ar: seq<nat>, done: nat, l: nat, k: nat, j: nat)
    requires Descends(ar, n) && Moved(m, s, n, w, ar, done, l, k) && k <= j < |ar| && done + l <= w
    ensures Piece(m, n, w, ar[j], done, l) == Piece(s, n, w, ar[j], done, l)
  {
    hide ByteOf, Holds;
  }

  /** Saves a piece of an element. */
  method SavePiece(mem: array<byte>, ghost n: nat, w: nat, from: nat, done: nat, l: nat) returns (tmp: array<byte>)
    requires Holds(mem[..], n, w) && from < n && done + l <= w && l <= PIECE
    ensures fresh(tmp) && tmp.Length == PIECE && tmp[..l] == Piece(mem[..], n, w, from, done, l)
  {
    tmp := new byte[PIECE];
    var i := 0;
    while i < l
      invariant i <= l && forall t :: 0 <= t < i ==> tmp[t] == ByteOf(mem[..], n, w, from, done + t)
    {
      AtInside(from, w, done + i, n);
      tmp[i] := mem[At(from, w, done + i)];
      i := i + 1;
    }
  }

  /** Puts a saved piece into an element. */
  method RestorePiece(mem: array<byte>, ghost n: nat, w: nat, to: nat, done: nat, l: nat, tmp: array<byte>)
    requires Holds(mem[..], n, w) && to < n && done + l <= w && l <= tmp.Length && tmp != mem
    modifies mem
    ensures Gets(mem[..], old(mem[..]), n, w, to, done, tmp[..l])
  {
    hide At, Holds, ByteOf, Gets;
    ghost var s, piece := mem[..], tmp[..l];
    GetsNothing(s, n, w, to, done, piece);
    var i := 0;
    while i < l
      invariant i <= l && Gets(mem[..], s, n, w, to, done, piece[..i])
    {
      ghost var m := mem[..];
      StillHolds(m, s, n, w, to, done, piece[..i]);
      PutByte(mem, n, w, to, done + i, tmp[i]);
      GetsOne(mem[..], m, s, n, w, to, done, piece, i);
      i := i + 1;
    }
    assert piece[..l] == piece;
  }

  lemma StillHolds(m: seq<byte>, s: seq<byte>, n: nat, w: nat, to: nat, done: nat, piece: seq<byte>)
    requires to < n && done + |piece| <= w && Gets(m, s, n, w, to, done, piece)
    ensures Holds(m, n, w)
  {
  }

  lemma MovedHolds(m: seq<byte>, s: seq<byte>, n: nat, w: nat, ar: seq<nat>, done: nat, l: nat, k: nat)
    requires Descends(ar, n) && Moved(m, s, n, w, ar, done, l, k)
    ensures Holds(m, n, w) && Holds(s, n, w)
  {
  }

  /** Rotates one piece of every element on the path. */
  method CyclePiece(mem: array<byte>, ghost n: nat, w: nat, ar: seq<nat>, done: nat, l: nat, ghost s: seq<byte>)
    requires Descends(ar, n) && |ar| >= 2 && done + l <= w && l <= PIECE && Moved(mem[..], s, n, w, ar, done, 0, 0)
    modifies mem
    ensures Moved(mem[..], s, n, w, ar, done + l, 0, 0)
  {
    hide Holds, ByteOf, Gets, Piece, Moved;
    MovedPiece(mem[..], s, n, w, ar, done, l);
    MovedHolds(mem[..], s, n, w, ar, done, l, 0);
    Unmoved(mem[..], s, n, w, ar, done, l, 0, 0);
    var tmp := SavePiece(mem, n, w, ar[0], done, l);
    ghost var saved := tmp[..l];
    for i := 0 to |ar| - 1
      invariant Moved(mem[..], s, n, w, ar, done, l, i) && tmp[..l] == saved
    {
      ghost var m := mem[..];
      MovedHolds(m, s, n, w, ar, done, l, i);
      Unmoved(m, s, n, w, ar, done, l, i, i + 1);
      CopyPiece(mem, n, w, ar[i], ar[i + 1], done, l);
      MovedOne(m, mem[..], s, n, w, ar, done, l, i);
    }
    ghost var m := mem[..];
    MovedHolds(m, s, n, w, ar, done, l, |ar| - 1);
    RestorePiece(mem, n, w, ar[|ar| - 1], done, l, tmp);
    MovedOne(m, mem[..], s, n, w, ar, done, l, |ar| - 1);
    MovedPiece(mem[..], s, n, w, ar, done, l);
  }

  /** `cycle` on n elements of w bytes each. */
  method CycleBytes(mem: array<byte>, ghost n: nat, w: nat, ar: seq<nat>)
    requires Holds(mem[..], n, w) && ar != [] && Descends(ar, n)
    modifies mem
    ensures Holds(mem[..], n, w)
    ensures Elements(mem[..], n, w) == Cycled(Elements(old(mem[..]), n, w), ar)
  {
    ghost var s := mem[..];
    if |ar| < 2 {
      return;
    }
    NothingMoved(s, n, w, ar);
    var done := 0;
    while done < w
      invariant done <= w && Moved(mem[..], s, n, w, ar, done, 0, 0)
    {
      var l := if PIECE < w - done then PIECE else w - done;
      CyclePiece(mem, n, w, ar, done, l, s);
      done := done + l;
    }
    AllMoved(mem[..], s, n, w, ar);
  }

  lemma AllMoved(m: seq<byte>, s: seq<byte>, n: nat, w: nat, ar: seq<nat>)
    requires Descends(ar, n) && Moved(m, s, n, w, ar, w, 0, 0) && ar != []
    ensures Holds(m, n, w) && Holds(s, n, w) && Elements(m, n, w) == Cycled(Elements(s, n, w), ar)
  {
    hide Cycled, ByteOf;
    var was, now := Elements(s, n, w), Elements(m, n, w);
    forall e | 0 <= e < n
      ensures now[e] == Cycled(was, ar)[e]
    {
      if i :| 0 <= i < |ar| && ar[i] == e {
        CycledMoves(was, ar, i);
        assert forall t :: 0 <= t < w ==> ByteOf(m, n, w, ar[i], t) == ByteOf(s, n, w, Source(ar, i), t);
        assert now[e] == was[Source(ar, i)];
      } else {
        CycledKeeps(was, ar, e);
        assert now[e] == was[e];
      }
    }
  }
}
