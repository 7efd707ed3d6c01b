/**
 Skipping the dynamic table size updates that may open an HPACK block
 (bpf/common/h2_defs.h:107-144; sections 4.2, 5.1 and 6.3 of RFC 7541).
 */
module HpackSizeUpdate {
  import opened Words

  const WINDOW: nat := 16
  const PREFIX_MAX: nat := 0x1f
  const MORE: nat := 0x80
  const MAX_OCTETS: nat := 5

  // ------------------------------------------------------- what an update is

  predicate IsSizeUpdate(b: byte) { b / 0x20 == 1 }

  /** One complete size update: a prefix octet and up to five continuation octets. */
  predicate Update(u: seq<byte>) {
    && 0 < |u| && IsSizeUpdate(u[0])
    && if u[0] % 0x20 != PREFIX_MAX then |u| == 1
       else 2 <= |u| <= 1 + MAX_OCTETS && u[|u| - 1] < MORE && forall k :: 0 < k < |u| - 1 ==> u[k] >= MORE
  }

  /** The integer representation with a 5-bit prefix. */
  function EncodeUpdate(size: u32): (u: seq<byte>) {
    if size < PREFIX_MAX then [0x20 + size] else [0x20 + PREFIX_MAX] + Continuation(size - PREFIX_MAX)
  }

  function Continuation(v: nat): (s: seq<byte>) {
    if v < MORE then [v] else [MORE + v % MORE] + Continuation(v / MORE)
  }

  function ContinuationValue(s: seq<byte>): (v: nat) {
    if s == [] then 0 else s[0] % MORE + MORE * ContinuationValue(s[1..])
  }

  function DecodeUpdate(u: seq<byte>): (size: nat)
    requires Update(u)
  {
    if u[0] % 0x20 != PREFIX_MAX then u[0] % 0x20 else PREFIX_MAX + ContinuationValue(u[1..])
  }

  lemma {:induction false} ContinuationForm(v: nat, n: nat)
    requires n > 0 && v < Pow2(7 * n)
    ensures 1 <= |Continuation(v)| <= n
    ensures Continuation(v)[|Continuation(v)| - 1] < MORE
    ensures forall k :: 0 <= k < |Continuation(v)| - 1 ==> Continuation(v)[k] >= MORE
    ensures ContinuationValue(Continuation(v)) == v
    decreases n
  {
    if v >= MORE {
      Pow2UpTo8();
      if n > 1 {
        Pow2Add(7, 7 * (n - 1));
      }
      ContinuationForm(v / MORE, n - 1);
      assert Continuation(v)[1..] == Continuation(v / MORE);
    }
  }

  /** Every 32-bit size has an update of at most six octets that decodes to it. */
  lemma EncodeUpdateRoundTrip(size: u32)
    ensures Update(EncodeUpdate(size)) && DecodeUpdate(EncodeUpdate(size)) == size
  {
    hide Continuation, Pow2;
    if size >= PREFIX_MAX {
      assert 0x1_0000_0000 <= Pow2(35) by {
        Pow2Bytes();
        Pow2Monotone(32, 35);
      }
      ContinuationForm(size - PREFIX_MAX, 5);
      assert EncodeUpdate(size)[1..] == Continuation(size - PREFIX_MAX);
    }
  }

  // -------------------------------------------------------------- the skipper

  function OctetsFrom(w: seq<byte>, i: nat, have: nat, octets: nat): (n: nat)
    requires |w| == WINDOW && 1 <= octets <= MAX_OCTETS
    ensures octets <= n <= MAX_OCTETS
    decreases MAX_OCTETS - octets
  {
    if octets < MAX_OCTETS && i + octets < have && w[(i + octets) % WINDOW] >= MORE
    then OctetsFrom(w, i, have, octets + 1) else octets
  }

  function UpdateLen(w: seq<byte>, i: nat, have: nat): (n: nat)
    requires |w| == WINDOW
    ensures 1 <= n <= 1 + MAX_OCTETS
  {
    if w[i % WINDOW] % 0x20 != PREFIX_MAX then 1 else 1 + OctetsFrom(w, i, have, 1)
  }

  method SizeUpdateLen(w: seq<byte>, i: nat, have: nat) returns (n: nat)
    requires |w| == WINDOW
    ensures n == UpdateLen(w, i, have)
  {
    if w[i % WINDOW] % 0x20 != PREFIX_MAX {
      return 1;
    }
    var octets := 1;
    while octets < MAX_OCTETS && i + octets < have && w[(i + octets) % WINDOW] >= MORE
      invariant 1 <= octets <= MAX_OCTETS
      invariant OctetsFrom(w, i, have, 1) == OctetsFrom(w, i, have, octets)
    {
      octets := octets + 1;
    }
    n := 1 + octets;
  }

  /** Where the code stops after skipping at most one update at `i`. */
  function SkipOne(w: seq<byte>, have: nat, i: nat): nat
    requires |w| == WINDOW
  {
    if i < have && IsSizeUpdate(w[i % WINDOW]) then i + UpdateLen(w, i, have) else i
  }

  method SkipSizeUpdates(w: seq<byte>, have: nat) returns (i: nat)
    requires |w| == WINDOW
    ensures i == SkipOne(w, have, SkipOne(w, have, 0))
    ensures have <= WINDOW ==>
              forall us, field :: Opening(us, field) && Flatten(us) + [field] <= w[..have] ==> i == |Flatten(us)|
  {
    if have <= WINDOW {
      forall us, field | Opening(us, field) && Flatten(us) + [field] <= w[..have]
        ensures SkipOne(w, have, SkipOne(w, have, 0)) == |Flatten(us)|
      {
        SkipsToFirstField(us, field, w, have);
      }
    }
    i := 0;
    if i < have && IsSizeUpdate(w[i % WINDOW]) {
      var n := SizeUpdateLen(w, i, have);
      i := i + n;
    }
    if i < have && IsSizeUpdate(w[i % WINDOW]) {
      var n := SizeUpdateLen(w, i, have);
      i := i + n;
    }
  }

  // ------------------------------------------------------------- correctness

  lemma {:induction false} OctetsOf(w: seq<byte>, i: nat, have: nat, u: seq<byte>, k: nat)
    requires |w| == WINDOW && Update(u) && |u| >= 2
    requires i + |u| <= have <= WINDOW && w[i..i + |u|] == u && 1 <= k <= |u| - 1
    ensures OctetsFrom(w, i, have, k) == |u| - 1
    decreases |u| - k
  {
    assert w[i..i + |u|][k] == w[i + k];
    if k < |u| - 1 {
      OctetsOf(w, i, have, u, k + 1);
    }
  }

  lemma SkipsUpdate(w: seq<byte>, have: nat, i: nat, u: seq<byte>)
    requires |w| == WINDOW && Update(u)
    requires i + |u| <= have <= WINDOW && w[i..i + |u|] == u
    ensures SkipOne(w, have, i) == i + |u|
  {
    assert w[i..i + |u|][0] == w[i];
    if |u| >= 2 {
      OctetsOf(w, i, have, u, 1);
    }
  }

  /** A block opening: up to two updates and a first field that is not one. */
  ghost predicate Opening(us: seq<seq<byte>>, field: byte) {
    && |us| <= 2 && !IsSizeUpdate(field)
    && forall k :: 0 <= k < |us| ==> Update(us[k])
  }

  /** Two maximal updates and the opener of the first field always fit the window. */
  lemma OpeningFits(us: seq<seq<byte>>, field: byte)
    requires Opening(us, field)
    ensures |Flatten(us)| + 1 <= 13 < WINDOW
  {
    FlattenLength(us, 1, 6);
  }

  lemma StaysAt(w: seq<byte>, have: nat, i: nat)
    requires |w| == WINDOW && i < have <= WINDOW && !IsSizeUpdate(w[i])
    ensures SkipOne(w, have, i) == i
  {
  }

  lemma PrefixParts(p: seq<byte>, field: byte, w: seq<byte>, have: nat)
    requires have <= |w| && p + [field] <= w[..have]
    ensures |p| < have && w[..|p|] == p && w[|p|] == field
  {
    assert (p + [field])[|p|] == field;
    assert (p + [field])[..|p|] == p;
  }

  lemma FlattenSmall(us: seq<seq<byte>>)
    ensures us == [] ==> Flatten(us) == []
    ensures |us| == 1 ==> Flatten(us) == us[0]
    ensures |us| == 2 ==> Flatten(us) == us[0] + us[1]
  {
    if |us| == 1 {
      assert us[..0] == [];
    } else if |us| == 2 {
      assert us[..1] == [us[0]] && us[..1][..0] == [];
    }
  }

  /** The result is exactly the offset of the first field. */
  lemma SkipsToFirstField(us: seq<seq<byte>>, field: byte, w: seq<byte>, have: nat)
    requires Opening(us, field) && |w| == WINDOW && have <= WINDOW
    requires Flatten(us) + [field] <= w[..have]
    ensures SkipOne(w, have, SkipOne(w, have, 0)) == |Flatten(us)|
  {
    hide SkipOne, Update, Flatten;
    var p := Flatten(us);
    PrefixParts(p, field, w, have);
    StaysAt(w, have, |p|);
    FlattenSmall(us);
    if |us| == 1 {
      SkipsUpdate(w, have, 0, us[0]);
    } else if |us| == 2 {
      SkipsTwo(w, have, us[0], us[1]);
    }
  }

  lemma SkipsTwo(w: seq<byte>, have: nat, u: seq<byte>, v: seq<byte>)
    requires |w| == WINDOW && Update(u) && Update(v)
    requires |u + v| <= have <= WINDOW && w[..|u + v|] == u + v
    ensures SkipOne(w, have, SkipOne(w, have, 0)) == |u + v|
  {
    hide SkipOne, Update;
    assert w[0..|u|] == (u + v)[..|u|];
    assert w[|u|..|u| + |v|] == (u + v)[|u|..];
    SkipsUpdate(w, have, 0, u);
    SkipsUpdate(w, have, |u|, v);
  }
}
