/**
  The server's `messages` array and its retention rule. Five of the servers
  push each accepted message and then, when the array has grown past 100,
  replace it with `messages.slice(-100)`; app/api/socketio/route.ts pushes
  and never trims.
 */
module History {

  /** A history cap. JavaScript's `slice(-0)` would keep everything, so a cap
      of 0 does not mean "keep nothing"; the servers only ever use 100. */
  type Capacity = n: nat | 0 < n witness 100

  datatype Retention = KeepLast(limit: Capacity) | KeepAll

  /** The cap the five trimming servers use. */
  const ServerCap: Capacity := 100

  /** The history is within the retention bound. */
  predicate Fits<T>(ret: Retention, h: seq<T>)
  {
    ret.KeepLast? ==> |h| <= ret.limit
  }

  /** `if (h.length > limit) h = h.slice(-limit)`, or nothing for `KeepAll`:
      the result is the longest suffix of `h` that fits, so the newest entries
      are kept in their arrival order and only the oldest are evicted. */
  function Retain<T>(ret: Retention, h: seq<T>): (r: seq<T>)
    ensures Fits(ret, r)
    ensures |r| <= |h| && r == h[|h| - |r|..]
    ensures ret.KeepLast? ==> |r| == if |h| <= ret.limit then |h| else ret.limit
    ensures ret.KeepAll? ==> r == h
  {
    match ret
    case KeepAll => h
    case KeepLast(n) => if |h| > n then h[|h| - n..] else h
  }

  /** A history that already fits is left alone. */
  lemma RetainFitting<T>(ret: Retention, h: seq<T>)
    requires Fits(ret, h)
    ensures Retain(ret, h) == h
  {
  }

  /** Trimming after every append is the same as trimming once at the end:
      retaining, appending more and retaining again keeps exactly the newest
      entries of the whole concatenation. */
  lemma RetainAppend<T>(ret: Retention, a: seq<T>, b: seq<T>)
    ensures Retain(ret, Retain(ret, a) + b) == Retain(ret, a + b)
  {
    if ret.KeepLast? {
      var n := ret.limit;
      var ra := Retain(ret, a);
      if |a| + |b| <= n {
        assert ra == a;
      } else {
        assert |ra| + |b| >= n;
        RetainLast(n, a + b);
        RetainLast(n, ra + b);
        SuffixOfConcat(ra, b, n);
        SuffixOfConcat(a, b, n);
        if |b| < n {
          var k := n - |b|;
          assert |ra| >= k;
          assert ra[|ra| - k..] == a[|a| - k..];
        }
      }
    }
  }

  /** Once `h` has at least `n` entries, keeping the last `n` is a plain
      suffix of length `n`. */
  lemma RetainLast<T>(n: Capacity, h: seq<T>)
    requires n <= |h|
    ensures Retain(KeepLast(n), h) == h[|h| - n..]
  {
    if |h| == n {
      assert h[0..] == h;
    }
  }

  /** The last `k` entries of `p + b`, when `b` has at most `k` entries, are
      the last `k - |b|` entries of `p` followed by all of `b`. */
  lemma SuffixOfConcat<T>(p: seq<T>, b: seq<T>, k: nat)
    requires k <= |p| + |b|
    ensures |b| <= k ==> (p + b)[|p| + |b| - k..] == p[|p| - (k - |b|)..] + b
    ensures k <= |b| ==> (p + b)[|p| + |b| - k..] == b[|b| - k..]
  {
    if |b| <= k {
      assert (p + b)[|p| + |b| - k..] == p[|p| - (k - |b|)..] + b;
    } else {
      assert (p + b)[|p| + |b| - k..] == b[|b| - k..];
    }
  }

}
