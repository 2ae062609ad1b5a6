/** Binary search over a sorted array, and its use after the sort. */
module Bsearch {
  import opened Common
  import opened Leonardo
  import opened LeonardoHeap
  import Smoothsort

  /** `bsearch`. It stops for every array and comparison. Whatever it returns compares
      equal to the key, and in a sorted array it finds a match whenever there is one. */
  method Bsearch<T(!new)>(key: T, a: array<T>, cmp: (T, T) -> int) returns (r: Option<nat>)
    ensures r.Some? ==> r.value < a.Length && cmp(key, a[r.value]) == 0
    ensures TotalPreorder(cmp) && (forall i, j :: 0 <= i < j < a.Length ==> cmp(a[i], a[j]) <= 0)
            ==> (r.Some? <==> exists i :: 0 <= i < a.Length && cmp(key, a[i]) == 0)
  {
    ghost var sorted := TotalPreorder(cmp) && forall i, j :: 0 <= i < j < a.Length ==> cmp(a[i], a[j]) <= 0;
    var base, nel := 0, a.Length;
    while nel > 0
      invariant 0 <= base <= base + nel <= a.Length
      invariant sorted ==> forall i :: 0 <= i < a.Length && !(base <= i < base + nel) ==> cmp(key, a[i]) != 0
    {
      var try := base + nel / 2;
      var sign := cmp(key, a[try]);
      if sign < 0 {
        if sorted {
          NoMatchAbove(key, a[..], cmp, try);
        }
        nel := nel / 2;
      } else if sign > 0 {
        if sorted {
          NoMatchBelow(key, a[..], cmp, try);
        }
        base := try + 1;
        nel := nel - (nel / 2 + 1);
      } else {
        return Some(try);
      }
    }
    return None;
  }

  lemma NoMatchAbove<T(!new)>(key: T, s: seq<T>, cmp: (T, T) -> int, t: nat)
    requires TotalPreorder(cmp) && (forall i, j :: 0 <= i < j < |s| ==> cmp(s[i], s[j]) <= 0)
    requires t < |s| && cmp(key, s[t]) < 0
    ensures forall i :: t <= i < |s| ==> cmp(key, s[i]) != 0
  {
    forall i | t <= i < |s|
      ensures cmp(key, s[i]) != 0
    {
      assert Mirror(cmp, key, s[i]) && Mirror(cmp, key, s[t]);
      assert Chain(cmp, s[t], s[i], key);
    }
  }

  lemma NoMatchBelow<T(!new)>(key: T, s: seq<T>, cmp: (T, T) -> int, t: nat)
    requires TotalPreorder(cmp) && (forall i, j :: 0 <= i < j < |s| ==> cmp(s[i], s[j]) <= 0)
    requires t < |s| && cmp(key, s[t]) > 0
    ensures forall i :: 0 <= i <= t ==> cmp(key, s[i]) != 0
  {
    forall i | 0 <= i <= t
      ensures cmp(key, s[i]) != 0
    {
      assert Chain(cmp, key, s[i], s[t]);
    }
  }

  /** Sorting an array and then searching it finds a match exactly when the original array
      held one. */
  method SortAndSearch<T(!new)>(key: T, a: array<T>, cmp: (T, T) -> int, ctz0: nat) returns (r: Option<nat>)
    requires TotalPreorder(cmp) && InReach(a.Length, ctz0)
    modifies a
    ensures r.Some? <==> exists x :: x in old(a[..]) && cmp(key, x) == 0
  {
    ghost var s := a[..];
    Smoothsort.Qsort(a, cmp, ctz0);
    assert forall x :: x in s <==> x in a[..] by {
      assert forall x :: x in s <==> x in multiset(s);
      assert forall x :: x in a[..] <==> x in multiset(a[..]);
    }
    r := Bsearch(key, a, cmp);
    if r.Some? {
      assert a[r.value] in a[..];
    }
  }
}
