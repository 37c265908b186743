/**
The least-recently-used cache of the counters, as a list of keys with the most recently
used one first.  A capacity of zero means that the cache never evicts.
 */
module Lru {
  import opened Sequences

  function Remove<K(==,!new)>(s: seq<K>, k: K): (r: seq<K>)
    ensures k !in r && |r| <= |s|
    ensures forall x :: x in r <==> x in s && x != k
  {
    if s == [] then [] else if s[0] == k then Remove(s[1..], k) else [s[0]] + Remove(s[1..], k)
  }

  function Truncate<K>(s: seq<K>, cap: nat): seq<K> {
    if cap != 0 && |s| > cap then s[..cap] else s
  }

  /** Looks k up and adds it: k becomes the most recent, and the oldest key goes if there is no room for it. */
  function Touch<K(==,!new)>(order: seq<K>, k: K, cap: nat): seq<K> {
    Truncate([k] + Remove(order, k), cap)
  }

  /** The cache after the keys of h were touched in turn. */
  function Run<K(==,!new)>(h: seq<K>, cap: nat): seq<K> {
    if h == [] then [] else Touch(Run(h[..|h| - 1], cap), h[|h| - 1], cap)
  }

  /** All keys of h, each once, the latest touched first. */
  ghost function Recent<K(!new)>(h: seq<K>): seq<K> {
    if h == [] then [] else [h[|h| - 1]] + Remove(Recent(h[..|h| - 1]), h[|h| - 1])
  }

  lemma {:induction false} RemoveConcat<K(!new)>(a: seq<K>, b: seq<K>, k: K)
    ensures Remove(a + b, k) == Remove(a, k) + Remove(b, k)
  {
    if a == [] {
      assert a + b == b;
    } else {
      assert (a + b)[1..] == a[1..] + b;
      RemoveConcat(a[1..], b, k);
    }
  }

  lemma {:induction false} RemoveDistinct<K(!new)>(s: seq<K>, k: K)
    requires Distinct(s)
    ensures Distinct(Remove(s, k))
    ensures |Remove(s, k)| == |s| - if k in s then 1 else 0
  {
    if s != [] {
      var t := s[1..];
      assert forall i :: 0 <= i < |t| ==> t[i] == s[i + 1];
      assert s[0] !in t;
      RemoveDistinct(t, k);
      assert k in s <==> k == s[0] || k in t;
    }
  }

  lemma RemoveAbsent<K(!new)>(s: seq<K>, k: K)
    requires k !in s
    ensures Remove(s, k) == s
  {}

  lemma {:induction false} RecentFacts<K(!new)>(h: seq<K>)
    ensures Distinct(Recent(h)) && |Recent(h)| <= |h|
    ensures forall k :: k in Recent(h) <==> k in h
  {
    if h != [] {
      var p, x := h[..|h| - 1], h[|h| - 1];
      assert h == p + [x];
      RecentFacts(p);
      RemoveDistinct(Recent(p), x);
    }
  }

  lemma {:induction false} RecentCount<K(!new)>(h: seq<K>)
    ensures |Recent(h)| == |Elements(h)|
  {
    if h != [] {
      var p, x := h[..|h| - 1], h[|h| - 1];
      RecentCount(p);
      RecentFacts(p);
      RemoveDistinct(Recent(p), x);
      hide Distinct, Remove;
      assert h == p + [x];
      assert Elements(h) == Elements(p) + {x};
    }
  }

  lemma {:induction false} CountDistinct<K(!new)>(h: seq<K>)
    requires Distinct(h)
    ensures |Elements(h)| == |h|
  {
    if h != [] {
      var p, x := h[..|h| - 1], h[|h| - 1];
      CountDistinct(p);
      assert h == p + [x];
      assert x !in p;
      assert Elements(h) == Elements(p) + {x};
    }
  }

  /** Dropping the tail first and touching then loses nothing that touching first would keep. */
  lemma TouchTruncated<K(!new)>(l: seq<K>, k: K, cap: nat)
    requires Distinct(l)
    ensures Touch(Truncate(l, cap), k, cap) == Truncate([k] + Remove(l, k), cap)
  {
    if cap != 0 && |l| > cap {
      var p, q := l[..cap], l[cap..];
      assert l == p + q;
      RemoveConcat(p, q, k);
      RemoveDistinct(p, k);
      RemoveDistinct(l, k);
      var a, b := [k] + Remove(p, k), [k] + Remove(l, k);
      assert b == a + Remove(q, k);
      assert Truncate(a, cap) == a[..cap] == b[..cap];
    }
  }

  /** The cache is the list of all touched keys by recency, cut off at the capacity. */
  lemma {:induction false} StackProperty<K(!new)>(h: seq<K>, cap: nat)
    ensures Run(h, cap) == Truncate(Recent(h), cap)
  {
    if h != [] {
      var p, x := h[..|h| - 1], h[|h| - 1];
      StackProperty(p, cap);
      RecentFacts(p);
      TouchTruncated(Recent(p), x, cap);
    }
  }

  lemma RemoveAfter<K(!new)>(front: seq<K>, k: K, l: seq<K>, x: K)
    requires front + [k] <= l && k != x
    ensures Remove(front, x) + [k] <= Remove(l, x)
  {
    var rest := l[|front| + 1..];
    assert l == front + ([k] + rest);
    RemoveConcat(front, [k] + rest, x);
    assert ([k] + rest)[1..] == rest;
  }

  /** The keys touched after the last touch of k are exactly those ahead of it. */
  lemma {:induction false} AheadOf<K(!new)>(a: seq<K>, k: K, s: seq<K>)
    requires k !in s
    ensures Recent(s) + [k] <= Recent(a + [k] + s)
  {
    var h := a + [k] + s;
    if s == [] {
      assert h == a + [k];
      assert h[..|h| - 1] == a;
    } else {
      var p, x := s[..|s| - 1], s[|s| - 1];
      assert s == p + [x];
      assert h[..|h| - 1] == a + [k] + p && h[|h| - 1] == x;
      AheadOf(a, k, p);
      RemoveAfter(Recent(p), k, Recent(a + [k] + p), x);
      assert Recent(h) == [x] + Remove(Recent(a + [k] + p), x);
      assert Recent(s) + [k] == [x] + (Remove(Recent(p), x) + [k]);
    }
  }

  /** Exactly when a key is still cached: fewer than `cap` other keys were touched since. */
  lemma ResidentIff<K(!new)>(a: seq<K>, k: K, s: seq<K>, cap: nat)
    requires k !in s
    ensures k in Run(a + [k] + s, cap) <==> cap == 0 || |Recent(s)| < cap
  {
    var h := a + [k] + s;
    StackProperty(h, cap);
    AheadOf(a, k, s);
    RecentFacts(h);
    var r := Recent(h);
    assert r[|Recent(s)|] == k;
    assert cap != 0 && |r| > cap ==> (k in r[..cap] <==> |Recent(s)| < cap);
  }

  /** The last position of k in s. */
  ghost function LastIndex<K>(s: seq<K>, k: K): (i: nat)
    requires k in s
    ensures i < |s| && s[i] == k && k !in s[i + 1..]
  {
    if s[|s| - 1] == k then |s| - 1 else
      assert s == s[..|s| - 1] + [s[|s| - 1]];
      var i := LastIndex(s[..|s| - 1], k);
      assert s[i + 1..] == s[..|s| - 1][i + 1..] + [s[|s| - 1]];
      i
  }

  /** A key is cached as long as no more than `cap` keys, itself included, were touched from some time before on. */
  lemma RecentlyTouchedIsResident<K(!new)>(a: seq<K>, s: seq<K>, k: K, cap: nat)
    requires k in s && (cap == 0 || |Elements(s)| <= cap)
    ensures k in Run(a + s, cap)
  {
    var i := LastIndex(s, k);
    var t := s[i + 1..];
    assert s == s[..i] + [k] + t;
    assert a + s == (a + s[..i]) + [k] + t;
    AheadOf(s[..i], k, t);
    RecentCount(s);
    ResidentIff(a + s[..i], k, t, cap);
  }
}
