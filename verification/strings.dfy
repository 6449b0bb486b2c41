/** Facts about sequences that the scanners share. */
module Strings {

  /** Concatenation is associative. */
  lemma Associate<T>(a: seq<T>, b: seq<T>, c: seq<T>)
    ensures a + b + c == a + (b + c)
  {
  }

  /** `s` is its prefix, the element at `n`, and the rest. */
  lemma SplitAround<T>(s: seq<T>, n: nat)
    requires n < |s|
    ensures s == s[..n] + [s[n]] + s[n + 1..]
  {
  }

  /** One step of a prefix-copying argument: when `out` is `u[0]` followed by
      `tail`, and `tail` starts with the next `k - 1` elements of `u` and then
      continues with `rest`, then `out` starts with `k` elements of `u` and
      then continues with `rest`. */
  lemma PrefixJoin<T>(u: seq<T>, out: seq<T>, tail: seq<T>, rest: seq<T>, k: nat)
    requires 0 < k && 0 < |u| && out == [u[0]] + tail
    requires k - 1 <= |u[1..]| && k - 1 <= |tail| && u[1..][..k - 1] == tail[..k - 1]
    requires tail == u[1..][..k - 1] + rest
    ensures k <= |u| && u[..k] == out[..k] && out == u[..k] + rest
    ensures u[1..][k - 1..] == u[k..]
  {
    assert u[..k] == [u[0]] + u[1..][..k - 1];
  }

  /** Regrouping after a common head: if `a` is `head + b` and `b` splits as
      `c + mid + d`, then `a` is `(head + c) + mid + d`. */
  lemma Regroup<T>(a: seq<T>, b: seq<T>, c: seq<T>, d: seq<T>, head: seq<T>, mid: seq<T>, l: seq<T>)
    requires a == head + b && b == c + mid + d && l == head + c
    ensures a == l + mid + d
  {
    Associate(head, c + mid, d);
    Associate(head, c, mid);
  }

  /** Regrouping after a common head: if `a` is `head + b` and `b` splits as
      `c + d`, then `a` is `(head + c) + d`. */
  lemma RegroupPair<T>(a: seq<T>, b: seq<T>, c: seq<T>, d: seq<T>, head: seq<T>, l: seq<T>)
    requires a == head + b && b == c + d && l == head + c
    ensures a == l + d
  {
    Associate(head, c, d);
  }
}
