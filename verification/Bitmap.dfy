/**
  Bitmaps as the other modules see them: a bitmap is a seq<bool>, searched by
  NextZero / NextOne and counted by Count.
 */
module Bitmap {

  /** Least clear index at or after start, or the length when there is none. */
  function NextZero(s: seq<bool>, start: nat): (r: nat)
    ensures r <= |s|
    ensures forall i :: start <= i < r ==> s[i]
    ensures r < |s| ==> start <= r && !s[r]
    decreases |s| - start
  {
    if start >= |s| then |s|
    else if !s[start] then start
    else NextZero(s, start + 1)
  }

  lemma NextZeroIs(s: seq<bool>, start: nat, r: nat)
    requires r <= |s|
    requires forall i :: start <= i < r ==> s[i]
    requires r < |s| ==> start <= r && !s[r]
    ensures r == NextZero(s, start)
    decreases |s| - start
  {
    if start < r { NextZeroIs(s, start + 1, r); }
  }

  /** Least set index at or after start, or the length when there is none. */
  function NextOne(s: seq<bool>, start: nat): (r: nat)
    ensures r <= |s|
    ensures forall i :: start <= i < r ==> !s[i]
    ensures r < |s| ==> start <= r && s[r]
    decreases |s| - start
  {
    if start >= |s| then |s|
    else if s[start] then start
    else NextOne(s, start + 1)
  }

  lemma NextOneIs(s: seq<bool>, start: nat, r: nat)
    requires r <= |s|
    requires forall i :: start <= i < r ==> !s[i]
    requires r < |s| ==> start <= r && s[r]
    ensures r == NextOne(s, start)
    decreases |s| - start
  {
    if start < r { NextOneIs(s, start + 1, r); }
  }

  /** Number of set bits. */
  function Count(s: seq<bool>): (n: nat)
    ensures n <= |s|
  {
    if s == [] then 0 else Count(s[..|s| - 1]) + (if s[|s| - 1] then 1 else 0)
  }

  function Union(a: seq<bool>, b: seq<bool>): (u: seq<bool>)
    requires |a| == |b|
    ensures |u| == |a|
    ensures forall i :: 0 <= i < |a| ==> u[i] == (a[i] || b[i])
  {
    seq(|a|, i requires 0 <= i < |a| => a[i] || b[i])
  }

  function Clear(n: nat): (s: seq<bool>)
    ensures |s| == n
    ensures forall i :: 0 <= i < n ==> !s[i]
  {
    seq(n, _ => false)
  }

  lemma {:induction false} CountUpdate(s: seq<bool>, k: nat, b: bool)
    requires k < |s|
    ensures Count(s[k := b]) == Count(s) - (if s[k] then 1 else 0) + (if b then 1 else 0)
  {
    var last := |s| - 1;
    if k == last {
      assert s[k := b][..last] == s[..last];
    } else {
      assert s[k := b][..last] == s[..last][k := b];
      CountUpdate(s[..last], k, b);
    }
  }

  /** No bit is set exactly when the count is zero, every bit exactly when it is the length. */
  lemma {:induction false} CountExtremes(s: seq<bool>)
    ensures Count(s) == 0 <==> forall i :: 0 <= i < |s| ==> !s[i]
    ensures Count(s) == |s| <==> forall i :: 0 <= i < |s| ==> s[i]
  {
    if s != [] {
      var last := |s| - 1;
      CountExtremes(s[..last]);
      assert forall i :: 0 <= i < last ==> s[..last][i] == s[i];
    }
  }
}
