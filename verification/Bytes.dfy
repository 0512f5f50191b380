/** Bytes, and unsigned little-endian integers of a fixed number of bytes. */
module Bytes {

  type Byte = b: int | 0 <= b < 256

  function Pow256(k: nat): (r: nat)
    ensures r >= 1
  {
    if k == 0 then 1 else 256 * Pow256(k - 1)
  }

  /** The value of a little-endian byte string. */
  function Le(s: seq<Byte>): nat {
    if s == [] then 0 else s[0] + 256 * Le(s[1..])
  }

  /** The low `k` bytes of `n`, least significant first. */
  function LeBytes(n: nat, k: nat): (s: seq<Byte>)
    ensures |s| == k
  {
    if k == 0 then [] else [n % 256] + LeBytes(n / 256, k - 1)
  }

  lemma {:induction false} LeBound(s: seq<Byte>)
    ensures Le(s) < Pow256(|s|)
  {
    if s != [] {
      LeBound(s[1..]);
    }
  }

  lemma {:induction false} LeOfLeBytes(n: nat, k: nat)
    requires n < Pow256(k)
    ensures Le(LeBytes(n, k)) == n
  {
    if k > 0 {
      LeOfLeBytes(n / 256, k - 1);
      assert LeBytes(n, k)[1..] == LeBytes(n / 256, k - 1);
    }
  }

  /** Truncation to `k` bytes is reduction modulo 256^k. */
  lemma {:induction false} LeBytesTruncates(n: nat, k: nat)
    ensures Le(LeBytes(n, k)) == n % Pow256(k)
  {
    if k > 0 {
      LeBytesTruncates(n / 256, k - 1);
      assert LeBytes(n, k)[1..] == LeBytes(n / 256, k - 1);
      ModByParts(n, Pow256(k - 1));
    }
  }

  lemma ModByParts(n: nat, p: nat)
    requires p > 0
    ensures n % (256 * p) == n % 256 + 256 * ((n / 256) % p)
  {
    var m := n / 256;
    var q := m / p;
    var r := n % 256 + 256 * (m % p);
    assert m == p * q + m % p;
    assert n == 256 * m + n % 256;
    assert 256 * (p * q) == (256 * p) * q;
    ModOf(n, 256 * p, q, r);
  }

  lemma ModOf(n: int, d: nat, q: int, r: nat)
    requires d > 0 && r < d && n == d * q + r
    ensures n % d == r && n / d == q
  {
    var a := n / d;
    assert n == d * a + n % d;
    assert d * (a - q) == d * a - d * q;
    Multiple(d, a - q);
  }

  lemma Multiple(d: int, x: int)
    requires d > 0
    ensures x >= 1 ==> d * x >= d
    ensures x <= -1 ==> d * x <= -d
  {
    if x >= 1 { assert d * (x - 1) >= 0; }
    if x <= -1 { assert d * (-x - 1) >= 0; }
  }

  lemma Assoc<T>(a: seq<T>, b: seq<T>, c: seq<T>)
    ensures (a + b) + c == a + (b + c)
  {
  }

  function Flatten<T>(ss: seq<seq<T>>): seq<T> {
    if ss == [] then [] else ss[0] + Flatten(ss[1..])
  }

  lemma {:induction false} FlattenSnoc<T>(ss: seq<seq<T>>, s: seq<T>)
    ensures Flatten(ss + [s]) == Flatten(ss) + s
    decreases |ss|
  {
    if ss == [] {
      assert ss + [s] == [s] && [s][1..] == [] && Flatten([s]) == s + Flatten<T>([]);
    } else {
      FlattenSnoc(ss[1..], s);
      assert (ss + [s])[1..] == ss[1..] + [s];
    }
  }

  lemma SliceOfPrefix<T>(s: seq<T>, m: nat, a: nat, b: nat)
    requires a <= b <= m <= |s|
    ensures s[..m][a..b] == s[a..b]
  {
    forall k | 0 <= k < b - a ensures s[..m][a..b][k] == s[a..b][k] {
    }
  }

  lemma SliceOfSuffix<T>(s: seq<T>, m: nat, a: nat, b: nat)
    requires m <= a <= b <= |s|
    ensures s[m..][a - m..b - m] == s[a..b]
  {
    forall k | 0 <= k < b - a ensures s[m..][a - m..b - m][k] == s[a..b][k] {
    }
  }

  lemma SliceOfSlice<T>(w: seq<T>, a: nat, c: nat, x: nat, y: nat)
    requires a <= c <= |w| && x <= y <= c - a
    ensures w[a..c][x..y] == w[a + x..a + y]
  {
    assert w[a..c] == w[a..][..c - a];
    SliceOfPrefix(w[a..], c - a, x, y);
    SliceOfSuffix(w, a, a + x, a + y);
  }

  /** `now` and `was` differ at most between `lo` and `hi`. */
  ghost predicate Untouched<T>(now: seq<T>, was: seq<T>, lo: nat, hi: nat) {
    |now| == |was| && lo <= hi <= |was| && now[..lo] == was[..lo] && now[hi..] == was[hi..]
  }

  /** Two changes in a row, one inside `lo..m`, one inside `l..h`, both inside `lo..hi`. */
  lemma UntouchedTrans<T>(c: seq<T>, b: seq<T>, a: seq<T>, l: nat, h: nat, lo: nat, m: nat, hi: nat)
    requires Untouched(b, a, lo, m) && Untouched(c, b, l, h)
    requires lo <= l && h <= hi && m <= hi <= |a|
    ensures Untouched(c, a, lo, hi)
  {
    forall k | 0 <= k < lo ensures c[..lo][k] == a[..lo][k] {
      assert c[..l][k] == b[..l][k];
      assert b[..lo][k] == a[..lo][k];
    }
    forall k | 0 <= k < |a| - hi ensures c[hi..][k] == a[hi..][k] {
      assert c[h..][hi - h + k] == b[h..][hi - h + k];
      assert b[m..][hi - m + k] == a[m..][hi - m + k];
    }
  }

  lemma UntouchedSlice<T>(now: seq<T>, was: seq<T>, lo: nat, hi: nat, a: nat, b: nat)
    requires Untouched(now, was, lo, hi)
    requires a <= b <= |was| && (b <= lo || hi <= a)
    ensures now[a..b] == was[a..b]
  {
    if b <= lo {
      SliceOfPrefix(now, lo, a, b);
      SliceOfPrefix(was, lo, a, b);
    } else {
      SliceOfSuffix(now, hi, a, b);
      SliceOfSuffix(was, hi, a, b);
    }
  }
}
