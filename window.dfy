/**
 * The front-trimming step shared by the rate limiter and the log-flood
 * guard: timestamps are kept oldest first, and every timestamp at or
 * before the start of the window is dropped from the front.
 */
module SlidingWindow {

  predicate Sorted(s: seq<int>)
  {
    forall i, j :: 0 <= i < j < |s| ==> s[i] <= s[j]
  }

  /** Every element of `s` is at most `bound`. */
  predicate AllAtMost(s: seq<int>, bound: int)
  {
    forall i :: 0 <= i < |s| ==> s[i] <= bound
  }

  /**
   * The `while (ts.length > 0 && ts[0] <= windowStart) ts.shift()` loop as a
   * value: the result is the suffix left once the longest prefix of
   * timestamps at or before `windowStart` is gone.
   */
  function DropStale(ts: seq<int>, windowStart: int): (kept: seq<int>)
  {
    if |ts| > 0 && ts[0] <= windowStart then DropStale(ts[1..], windowStart) else ts
  }

  /**
   * What `DropStale` removes is a prefix of timestamps all at or before the
   * window start, and what it keeps starts after it (or is empty).
   */
  lemma {:induction false} DropStaleCut(ts: seq<int>, windowStart: int)
    ensures var r := DropStale(ts, windowStart);
      && |r| <= |ts| && r == ts[|ts| - |r|..]
      && (forall i :: 0 <= i < |ts| - |r| ==> ts[i] <= windowStart)
      && (|r| > 0 ==> r[0] > windowStart)
  {
    if |ts| > 0 && ts[0] <= windowStart {
      DropStaleCut(ts[1..], windowStart);
      var r := DropStale(ts, windowStart);
      assert r == DropStale(ts[1..], windowStart);
      forall i | 0 <= i < |ts| - |r| ensures ts[i] <= windowStart {
        if i > 0 { assert ts[i] == ts[1..][i - 1]; }
      }
    }
  }

  /** On sorted input every retained timestamp lies strictly after the window start, and order is kept. */
  lemma DropStaleSorted(ts: seq<int>, windowStart: int)
    requires Sorted(ts)
    ensures Sorted(DropStale(ts, windowStart))
    ensures forall i :: 0 <= i < |DropStale(ts, windowStart)| ==> DropStale(ts, windowStart)[i] > windowStart
  {
    DropStaleCut(ts, windowStart);
    var r := DropStale(ts, windowStart);
    var k := |ts| - |r|;
    forall i | 0 <= i < |r| ensures r[i] > windowStart {
      assert r[i] == ts[k + i] && r[0] == ts[k];
    }
  }

  /** The cut is unique: any prefix length `k` that meets the cut condition is the one `DropStale` takes. */
  lemma DropStaleIsLongestPrefix(ts: seq<int>, windowStart: int, k: nat)
    requires k <= |ts|
    requires forall i :: 0 <= i < k ==> ts[i] <= windowStart
    requires k < |ts| ==> ts[k] > windowStart
    ensures DropStale(ts, windowStart) == ts[k..]
  {
    DropStaleCut(ts, windowStart);
    var r := DropStale(ts, windowStart);
    var c := |ts| - |r|;
    assert c <= k by {
      if |r| > 0 { assert r[0] == ts[c]; }
    }
  }

  /** Nothing is dropped when the oldest timestamp is already inside the window. */
  lemma DropStaleKeepsFresh(ts: seq<int>, windowStart: int)
    requires |ts| > 0 ==> ts[0] > windowStart
    ensures DropStale(ts, windowStart) == ts
  {
  }

  /** Trimming keeps an upper bound on the timestamps. */
  lemma DropStaleAtMost(ts: seq<int>, windowStart: int, bound: int)
    requires AllAtMost(ts, bound)
    ensures AllAtMost(DropStale(ts, windowStart), bound)
  {
    DropStaleCut(ts, windowStart);
    var r := DropStale(ts, windowStart);
    var k := |ts| - |r|;
    forall i | 0 <= i < |r| ensures r[i] <= bound {
      assert r[i] == ts[k + i];
    }
  }

  /** Appending a timestamp no earlier than all others keeps the order and the bound. */
  lemma AppendSorted(ts: seq<int>, now: int)
    requires Sorted(ts) && AllAtMost(ts, now)
    ensures Sorted(ts + [now]) && AllAtMost(ts + [now], now)
  {
  }
}
