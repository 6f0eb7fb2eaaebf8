// The nearest-luminance resolver: the scan over the ascending atlas keys
// that picks the key whose tile stands for a pixel's brightness.
module Resolver {

  predicate StrictlyAscending(s: seq<int>) {
    forall i, j | 0 <= i < j < |s| :: s[i] < s[j]
  }

  function Dist(a: int, b: int): nat {
    if a >= b then a - b else b - a
  }

  /**
   * k is a key of keys that is nearest to y, and of two keys equally near
   * to y it is the larger one.
   */
  ghost predicate NearestTiesUp(keys: seq<int>, y: int, k: int) {
    && k in keys
    && (forall k' | k' in keys :: Dist(k, y) <= Dist(k', y))
    && (forall k' | k' in keys && Dist(k', y) == Dist(k, y) :: k' <= k)
  }

  /** At most one key is nearest with ties going up. */
  lemma NearestUnique(keys: seq<int>, y: int, a: int, b: int)
    requires NearestTiesUp(keys, y, a) && NearestTiesUp(keys, y, b)
    ensures a == b
  {
  }

  /**
   * Reference definition, independent of key order: fold over the keys,
   * keeping the nearer key and, on a tie, the larger one.
   */
  function NearestOf(keys: seq<int>, y: int): (k: int)
    requires |keys| > 0
    ensures k in keys
  {
    if |keys| == 1 then keys[0]
    else
      var rest := NearestOf(keys[1..], y);
      if Dist(keys[0], y) < Dist(rest, y) || (Dist(keys[0], y) == Dist(rest, y) && keys[0] > rest)
      then keys[0]
      else rest
  }

  lemma {:induction false} NearestOfIsNearest(keys: seq<int>, y: int)
    requires |keys| > 0
    ensures NearestTiesUp(keys, y, NearestOf(keys, y))
  {
    if |keys| > 1 {
      var tail := keys[1..];
      NearestOfIsNearest(tail, y);
      forall k' | k' in keys
        ensures k' == keys[0] || k' in tail
      {
        var q :| 0 <= q < |keys| && keys[q] == k';
        if q > 0 { assert tail[q - 1] == k'; }
      }
    }
  }

  /**
   * When y lies between two neighbouring keys, the nearer of the two is the
   * answer, and the upper one on a tie.
   */
  lemma Bracketed(keys: seq<int>, y: int, p: int)
    requires StrictlyAscending(keys)
    requires 0 < p < |keys| && keys[p - 1] <= y < keys[p]
    ensures NearestTiesUp(keys, y, if Dist(keys[p], y) > Dist(keys[p - 1], y) then keys[p - 1] else keys[p])
  {
    forall k' | k' in keys
      ensures Dist(keys[p - 1], y) < Dist(k', y) || Dist(keys[p], y) < Dist(k', y) || k' == keys[p - 1] || k' == keys[p]
    {
      var q :| 0 <= q < |keys| && keys[q] == k';
      if q < p - 1 { assert keys[q] < keys[p - 1]; }
      else if q > p { assert keys[q] > keys[p]; }
    }
  }

  /** When no key exceeds y, the largest key is the answer. */
  lemma AboveAll(keys: seq<int>, y: int)
    requires StrictlyAscending(keys) && |keys| > 0
    requires forall q | 0 <= q < |keys| :: keys[q] <= y
    ensures NearestTiesUp(keys, y, keys[|keys| - 1])
  {
    forall k' | k' in keys
      ensures k' == keys[|keys| - 1] || k' < keys[|keys| - 1]
    {
      var q :| 0 <= q < |keys| && keys[q] == k';
    }
  }

  /**
   * The scan over the ascending keys (main.go, both copies): remember the
   * last key not above y; at the first key above y, keep that key unless it
   * is strictly farther from y than the remembered one, and stop.
   */
  method Resolve(keys: seq<int>, y: int) returns (dist: int)
    requires StrictlyAscending(keys) && 0 in keys && 0 <= y
    ensures NearestTiesUp(keys, y, dist)
    ensures dist == NearestOf(keys, y)
  {
    dist := 0;
    var last := 0;
    ghost var broke := false;
    for n := 0 to |keys|
      invariant !broke
      invariant forall q | 0 <= q < n :: keys[q] <= y
      invariant n == 0 ==> dist == 0 && last == 0
      invariant n > 0 ==> dist == keys[n - 1] && last == keys[n - 1]
    {
      var key := keys[n];
      if key > y {
        var x := Dist(key, y);
        var d := Dist(last, y);
        assert n > 0 by {
          var z :| 0 <= z < |keys| && keys[z] == 0;
          assert keys[0] <= keys[z];
        }
        dist := key;
        if x > d {
          dist := last;
        }
        Bracketed(keys, y, n);
        broke := true;
        break;
      }
      dist := key;
      last := key;
    }
    if !broke {
      AboveAll(keys, y);
    }
    NearestOfIsNearest(keys, y);
    NearestUnique(keys, y, dist, NearestOf(keys, y));
  }

  /** A brightness of 0 always resolves to the key 0. */
  lemma ZeroResolvesToZero(keys: seq<int>)
    requires 0 in keys
    ensures NearestOf(keys, 0) == 0
  {
    NearestOfIsNearest(keys, 0);
    var k := NearestOf(keys, 0);
    assert Dist(k, 0) <= Dist(0, 0);
  }

  /** A brightness at or above every key resolves to the largest key. */
  lemma AboveMaximum(keys: seq<int>, y: int)
    requires StrictlyAscending(keys) && |keys| > 0
    requires forall q | 0 <= q < |keys| :: keys[q] <= y
    ensures NearestOf(keys, y) == keys[|keys| - 1]
  {
    AboveAll(keys, y);
    NearestOfIsNearest(keys, y);
    NearestUnique(keys, y, keys[|keys| - 1], NearestOf(keys, y));
  }

  /**
   * Keys 0, 30 and 200: 15 is as near to 0 as to 30 and goes up to 30,
   * 5 goes down to 0, and 250, above every key, goes to 200.
   */
  lemma ThreeKeys()
    ensures NearestOf([0, 30, 200], 15) == 30
    ensures NearestOf([0, 30, 200], 5) == 0
    ensures NearestOf([0, 30, 200], 250) == 200
  {
  }
}
