/** The bounded oldest-first retention the handler applies to each of its three lists. */
module Retention {

  /** The most recent `n` elements of `s`, in their original order. */
  function LastN<T>(s: seq<T>, n: nat): seq<T> {
    if |s| <= n then s else s[|s| - n..]
  }

  /** `buf.append(x)` followed by `if len(buf) > cap: buf.pop(0)`: append, then
      drop the oldest element at most once. */
  function Push<T>(buf: seq<T>, x: T, cap: nat): (r: seq<T>)
    requires 0 < cap
    ensures |buf| <= cap ==> r == LastN(buf + [x], cap) && |r| <= cap
    ensures |buf| < cap ==> r == buf + [x]
    ensures |buf| >= cap ==> |r| == |buf|
    ensures r != [] && r[|r| - 1] == x
  {
    var b := buf + [x];
    if |b| > cap then b[1..] else b
  }

  /** Trimming to the last `n` elements and then appending and trimming again keeps
      the same elements as appending everything first and trimming once. */
  lemma LastNAppend<T>(a: seq<T>, b: seq<T>, n: nat)
    ensures LastN(LastN(a, n) + b, n) == LastN(a + b, n)
  {
    if |a| > n {
      if |b| < n {
        LastNShortTail(a, b, n);
      } else {
        LastNLongTail(a, b, n);
      }
    }
  }

  lemma {:induction false} LastNShortTail<T>(a: seq<T>, b: seq<T>, n: nat)
    requires |a| > n > |b|
    ensures LastN(a[|a| - n..] + b, n) == LastN(a + b, n)
  {
    var t := a[|a| - n..];
    var m := |a| - n + |b|;
    assert LastN(t + b, n) == (t + b)[|b|..];
    assert LastN(a + b, n) == (a + b)[m..];
    DropAppend(t, b, |b|);
    DropAppend(a, b, m);
    assert t[|b|..] == a[m..];
  }

  /** Dropping a prefix of the first part of a concatenation. */
  lemma {:induction false} DropAppend<T>(a: seq<T>, b: seq<T>, k: nat)
    requires k <= |a|
    ensures (a + b)[k..] == a[k..] + b
  {
  }

  lemma {:induction false} LastNLongTail<T>(a: seq<T>, b: seq<T>, n: nat)
    requires |a| > n && |b| >= n
    ensures LastN(a[|a| - n..] + b, n) == LastN(a + b, n)
  {
    var t, ab := a[|a| - n..], a + b;
    assert (t + b)[|t + b| - n..] == b[|b| - n..];
    assert ab[|ab| - n..] == b[|b| - n..];
  }

  lemma AppendAssoc<T>(a: seq<T>, b: seq<T>, c: seq<T>)
    ensures a + b + c == a + (b + c)
  {
  }
}
