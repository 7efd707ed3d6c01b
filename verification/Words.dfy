/** Optional values, fixed-width unsigned integers, powers of two and the division facts the other modules share. */
module Words {
  datatype Option<T> = None | Some(value: T)

  type byte = x: nat | x < 0x100
  type u16 = x: nat | x < 0x1_0000
  type u32 = x: nat | x < 0x1_0000_0000
  type u64 = x: nat | x < 0x1_0000_0000_0000_0000

  function Min(x: nat, y: nat): nat { if x < y then x else y }

  function Repeat(v: byte, n: nat): (s: seq<byte>)
    ensures |s| == n
    ensures forall i :: 0 <= i < n ==> s[i] == v
  {
    seq(n, _ => v)
  }

  function Pow2(n: nat): (p: nat)
    ensures p > 0
  {
    if n == 0 then 1 else 2 * Pow2(n - 1)
  }

  lemma {:induction false} Pow2Add(m: nat, n: nat)
    ensures Pow2(m + n) == Pow2(m) * Pow2(n)
  {
    if m == 0 {
    } else {
      Pow2Add(m - 1, n);
      assert 2 * (Pow2(m - 1) * Pow2(n)) == 2 * Pow2(m - 1) * Pow2(n);
    }
  }

  lemma {:induction false} Pow2Monotone(m: nat, n: nat)
    requires m <= n
    ensures Pow2(m) <= Pow2(n)
  {
    if m < n {
      Pow2Monotone(m, n - 1);
    }
  }

  lemma Pow2UpTo8()
    ensures Pow2(0) == 1 && Pow2(1) == 2 && Pow2(2) == 4 && Pow2(3) == 8 && Pow2(4) == 16
    ensures Pow2(5) == 32 && Pow2(6) == 64 && Pow2(7) == 128 && Pow2(8) == 256
  {
  }

  lemma Pow2Bytes()
    ensures Pow2(16) == 0x1_0000 && Pow2(24) == 0x100_0000
    ensures Pow2(31) == 0x8000_0000 && Pow2(32) == 0x1_0000_0000
  {
    Pow2UpTo8();
    Pow2Add(8, 8);
    Pow2Add(16, 8);
    Pow2Add(16, 16);
    Pow2Add(31, 1);
  }

  lemma Pow2Double()
    ensures Pow2(52) == 0x10_0000_0000_0000 && Pow2(53) == 0x20_0000_0000_0000
  {
    Pow2UpTo8();
    Pow2Bytes();
    Pow2Add(32, 16);
    Pow2Add(48, 4);
    Pow2Add(52, 1);
  }

  lemma Pow2Word()
    ensures Pow2(62) == 0x4000_0000_0000_0000
    ensures Pow2(63) == 0x8000_0000_0000_0000
    ensures Pow2(64) == 0x1_0000_0000_0000_0000
  {
    Pow2UpTo8();
    Pow2Bytes();
    Pow2Add(32, 32);
    Pow2Add(62, 2);
    Pow2Add(63, 1);
  }

  lemma MulMonotone(x: nat, y: nat, z: nat)
    requires x <= y
    ensures x * z <= y * z
  {
  }

  lemma DivMod(a: nat, p: nat)
    requires p > 0
    ensures 0 <= a / p && a == (a / p) * p + a % p && 0 <= a % p < p
  {
  }

  lemma DivUnique(a: nat, p: nat, q: nat, r: nat)
    requires r < p && a == q * p + r
    ensures a / p == q && a % p == r
  {
    DivMod(a, p);
    var q' := a / p;
    if q' > q {
      MulMonotone(q + 1, q', p);
    } else if q' < q {
      MulMonotone(q' + 1, q, p);
    }
  }

  lemma SliceOfSlice<T>(s: seq<T>, a: nat, b: nat, c: nat, d: nat)
    requires c <= d && a + d <= b <= |s|
    ensures s[a..b][c..d] == s[a + c..a + d]
  {
    assert forall i :: 0 <= i < d - c ==> s[a..b][c..d][i] == s[a..b][c + i] == s[a + c..a + d][i];
  }

  lemma SplitSlice<T>(s: seq<T>, a: nat, b: nat, c: nat)
    requires a <= b <= c <= |s|
    ensures s[a..c] == s[a..b] + s[b..c]
  {
  }

  /** A stream that starts with `p + e` reads `e` right after `p`. */
  lemma ReadAfter<T>(s: seq<T>, p: seq<T>, e: seq<T>)
    requires p + e <= s
    ensures s[|p|..|p| + |e|] == e
  {
    SliceOfSlice(s, 0, |p| + |e|, |p|, |p| + |e|);
    assert s[0..|p| + |e|] == p + e;
  }

  lemma WholeSlice<T>(s: seq<T>)
    ensures s[..|s|] == s
  {
  }

  lemma PrefixOfPrefix<T>(s: seq<T>, n: nat, p: seq<T>, t: seq<T>)
    requires n <= |s| && s[..n] == p + t
    ensures p <= s
  {
    assert p == (p + t)[..|p|];
  }

  lemma PrefixTransitive<T>(p: seq<T>, q: seq<T>, s: seq<T>)
    requires p <= q <= s
    ensures p <= s
  {
  }

  function Flatten<T>(ss: seq<seq<T>>): (s: seq<T>)
  {
    if ss == [] then [] else Flatten(ss[..|ss| - 1]) + ss[|ss| - 1]
  }

  lemma FlattenExtend<T>(ss: seq<seq<T>>, x: seq<T>)
    ensures Flatten(ss + [x]) == Flatten(ss) + x
  {
    assert (ss + [x])[..|ss|] == ss;
  }

  lemma {:induction false} FlattenPrefix<T>(ss: seq<seq<T>>, n: nat)
    requires n <= |ss|
    ensures Flatten(ss[..n]) <= Flatten(ss)
  {
    if n == |ss| {
      assert ss[..n] == ss;
    } else {
      var init := ss[..|ss| - 1];
      FlattenPrefix(init, n);
      assert init[..n] == ss[..n];
    }
  }

  /** Element `i` follows the flattened elements before it. */
  lemma FlattenStep<T>(ss: seq<seq<T>>, i: nat)
    requires i < |ss|
    ensures Flatten(ss[..i]) + ss[i] <= Flatten(ss)
  {
    hide Flatten;
    FlattenExtend(ss[..i], ss[i]);
    assert ss[..i] + [ss[i]] == ss[..i + 1];
    FlattenPrefix(ss, i + 1);
  }

  lemma {:induction false} FlattenLength<T>(ss: seq<seq<T>>, lo: nat, hi: nat)
    requires forall i :: 0 <= i < |ss| ==> lo <= |ss[i]| <= hi
    ensures lo * |ss| <= |Flatten(ss)| <= hi * |ss|
  {
    if ss != [] {
      var n := |ss| - 1;
      FlattenLength(ss[..n], lo, hi);
      assert lo * (n + 1) == lo * n + lo && hi * (n + 1) == hi * n + hi;
    }
  }
}
