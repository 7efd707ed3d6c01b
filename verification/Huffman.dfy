/**
 Huffman-coded traceparent values (bpf/common/h2_tp_huffman.h), against the string
 representation of section 5.2 and Appendix B of RFC 7541.
 */
module Huffman {
  import opened Words

  const VALUE_LEN: nat := 55                // characters of a traceparent value
  const WINDOW: nat := 64
  const MIN_OCTETS: nat := 35
  const MAX_OCTETS: nat := 42
  const DASH1: nat := 2
  const DASH2: nat := 35
  const DASH3: nat := 52

  // ------------------------------------------------------------- the encoder

  /** The characters a traceparent value is written with. */
  predicate InAlphabet(c: byte) {
    0x30 <= c <= 0x39 || 0x61 <= c <= 0x66 || c == 0x2d
  }

  /** Code of each character as a number and a width in bits (RFC 7541, Appendix B). */
  function CodeWidth(c: byte): (n: nat)
    requires InAlphabet(c)
    ensures n == 5 || n == 6
  {
    if c in {0x30, 0x31, 0x32, 0x61, 0x63, 0x65} then 5 else 6
  }

  function CodeValue(c: byte): (v: nat)
    requires InAlphabet(c)
    ensures v < 32 * (CodeWidth(c) - 4)
  {
    if c <= 0x2d then 0x16
    else if c <= 0x32 then c - 0x30
    else if c <= 0x39 then 0x19 + (c - 0x33)
    else match c
      case 0x61 => 3
      case 0x62 => 0x23
      case 0x63 => 4
      case 0x64 => 0x24
      case 0x65 => 5
      case _ => 0x25
  }

  /** The lowest `width` bits of `v`, most significant first. */
  function Bits(v: nat, width: nat): (s: seq<bool>)
    ensures |s| == width
  {
    if width == 0 then [] else Bits(v / 2, width - 1) + [v % 2 == 1]
  }

  function Ones(n: nat): (s: seq<bool>)
    ensures |s| == n
    ensures forall i :: 0 <= i < n ==> s[i]
  {
    seq(n, _ => true)
  }

  function Code(c: byte): (s: seq<bool>)
    requires InAlphabet(c)
    ensures |s| == CodeWidth(c)
  {
    Bits(CodeValue(c), CodeWidth(c))
  }

  predicate Encodable(s: seq<byte>) {
    forall i :: 0 <= i < |s| ==> InAlphabet(s[i])
  }

  function Codes(s: seq<byte>): (cs: seq<seq<bool>>)
    requires Encodable(s)
    ensures |cs| == |s|
    ensures forall i :: 0 <= i < |s| ==> cs[i] == Code(s[i])
  {
    seq(|s|, i requires 0 <= i < |s| => Code(s[i]))
  }

  /** Concatenated codes. */
  function CodeBits(s: seq<byte>): (b: seq<bool>)
    requires Encodable(s)
    ensures 5 * |s| <= |b| <= 6 * |s|
  {
    FlattenLength(Codes(s), 5, 6);
    Flatten(Codes(s))
  }

  function Octets(octets: seq<byte>): (bs: seq<seq<bool>>)
    ensures |bs| == |octets|
    ensures forall i :: 0 <= i < |bs| ==> bs[i] == Bits(octets[i], 8)
  {
    seq(|octets|, i requires 0 <= i < |octets| => Bits(octets[i], 8))
  }

  function OctetBits(octets: seq<byte>): (b: seq<bool>)
    ensures |b| == 8 * |octets|
  {
    FlattenLength(Octets(octets), 8, 8);
    Flatten(Octets(octets))
  }

  function Number(b: seq<bool>): (n: nat)
    ensures n < Pow2(|b|)
  {
    if b == [] then 0 else 2 * Number(b[..|b| - 1]) + (if b[|b| - 1] then 1 else 0)
  }

  /** Bits the last octet has left after `n` bits. */
  function PadLen(n: nat): (p: nat)
    ensures p < 8 && n + p == 8 * ((n + 7) / 8)
  {
    8 * ((n + 7) / 8) - n
  }

  /** The octets whose bits are `b`, padded at the end with ones (leading bits of EOS). */
  function PackOctets(b: seq<bool>): (octets: seq<byte>)
    ensures |octets| == (|b| + 7) / 8
    decreases |b|
  {
    if b == [] then []
    else
      var full := (|b| - 1) / 8 * 8;
      var last := b[full..] + Ones(PadLen(|b|));
      PackOctets(b[..full]) + [(Pow2UpTo8(); Number(last))]
  }

  /** String literal octets of section 5.2 of RFC 7541. */
  function Encode(s: seq<byte>): (octets: seq<byte>)
    requires Encodable(s)
  {
    PackOctets(CodeBits(s))
  }

  /** The layout every version 00 traceparent value has. */
  predicate TraceparentLayout(s: seq<byte>) {
    && |s| == VALUE_LEN && Encodable(s)
    && s[0] == 0x30 && s[1] == 0x30
    && s[DASH1] == 0x2d && s[DASH2] == 0x2d && s[DASH3] == 0x2d
  }

  // --------------------------------------------------- octets as a bit stream

  lemma {:induction false} BitsNumber(b: seq<bool>)
    ensures Bits(Number(b), |b|) == b
  {
    if b != [] {
      BitsNumber(b[..|b| - 1]);
    }
  }

  lemma {:induction false} NumberBits(v: nat, width: nat)
    requires v < Pow2(width)
    ensures Number(Bits(v, width)) == v
  {
    if width > 0 {
      NumberBits(v / 2, width - 1);
      assert Bits(v, width)[..width - 1] == Bits(v / 2, width - 1);
    }
  }

  lemma OctetBitsExtend(octets: seq<byte>, x: byte)
    ensures OctetBits(octets + [x]) == OctetBits(octets) + Bits(x, 8)
  {
    assert Octets(octets + [x]) == Octets(octets) + [Bits(x, 8)];
    FlattenExtend(Octets(octets), Bits(x, 8));
  }

  lemma PadFacts(n: nat)
    requires n > 0
    ensures var full := (n - 1) / 8 * 8;
            full < n && n - full + PadLen(n) == 8 && PadLen(full) == 0
  {
  }

  /** Packing loses no bit and adds fewer than eight ones. */
  lemma {:induction false} PackedBits(b: seq<bool>)
    ensures OctetBits(PackOctets(b)) == b + Ones(PadLen(|b|))
    decreases |b|
  {
    if b != [] {
      PadFacts(|b|);
      hide PadLen, OctetBits, Number, Bits, Ones;
      var full := (|b| - 1) / 8 * 8;
      var last := b[full..] + Ones(PadLen(|b|));
      PackedBits(b[..full]);
      LastOctet(PackOctets(b[..full]), b[..full], last);
      assert PackOctets(b) == PackOctets(b[..full]) + [(Pow2UpTo8(); Number(last))];
      JoinTail(b, full, Ones(PadLen(|b|)));
    }
  }

  lemma JoinTail(b: seq<bool>, n: nat, t: seq<bool>)
    requires n <= |b|
    ensures b[..n] + (b[n..] + t) == b + t
  {
  }

  lemma LastOctet(octets: seq<byte>, b: seq<bool>, last: seq<bool>)
    requires OctetBits(octets) == b + Ones(PadLen(|b|)) && PadLen(|b|) == 0 && |last| == 8
    ensures Number(last) < 0x100
    ensures OctetBits(octets + [Number(last)]) == b + last
  {
    hide *;
    Pow2UpTo8();
    BitsNumber(last);
    OctetBitsExtend(octets, Number(last));
  }

  lemma OctetBitsPrefix(octets: seq<byte>, n: nat)
    requires n <= |octets|
    ensures OctetBits(octets)[..8 * n] == OctetBits(octets[..n])
  {
    FlattenPrefix(Octets(octets), n);
    assert Octets(octets)[..n] == Octets(octets[..n]);
  }

  lemma OctetAt(octets: seq<byte>, i: nat)
    requires i < |octets|
    ensures OctetBits(octets)[8 * i..8 * i + 8] == Bits(octets[i], 8)
  {
    FlattenStep(Octets(octets), i);
    assert Octets(octets)[..i] == Octets(octets[..i]);
    ReadAfter(OctetBits(octets), OctetBits(octets[..i]), Octets(octets)[i]);
  }

  lemma OctetBitsInjective(x: seq<byte>, y: seq<byte>)
    requires OctetBits(x) == OctetBits(y)
    ensures x == y
  {
    assert |x| == |y|;
    forall i | 0 <= i < |x| ensures x[i] == y[i] {
      OctetAt(x, i);
      OctetAt(y, i);
      Pow2UpTo8();
      NumberBits(x[i], 8);
      NumberBits(y[i], 8);
    }
  }

  /** `octets` is the encoding of `s` exactly when its bits are the codes of `s` and short padding of ones. */
  lemma EncodesBits(s: seq<byte>, octets: seq<byte>)
    requires Encodable(s)
    ensures octets == Encode(s) <==> OctetBits(octets) == CodeBits(s) + Ones(PadLen(|CodeBits(s)|))
    ensures |Encode(s)| == (|CodeBits(s)| + 7) / 8
  {
    PackedBits(CodeBits(s));
    if OctetBits(octets) == OctetBits(Encode(s)) {
      OctetBitsInjective(octets, Encode(s));
    }
  }

  /** The low bits of a number are the last bits of its expansion. */
  lemma {:induction false} BitsLow(v: nat, n: nat, j: nat)
    requires j <= n
    ensures Bits(v, n)[n - j..] == Bits(v, j)
  {
    if j > 0 {
      BitsLow(v / 2, n - 1, j - 1);
      assert Bits(v, n)[n - j..] == Bits(v / 2, n - 1)[n - j..] + [v % 2 == 1];
    }
  }

  /** Shifting right drops the last bits. */
  lemma {:induction false} BitsHigh(v: nat, n: nat, j: nat)
    requires j <= n
    ensures 0 <= v / Pow2(j)
    ensures Bits(v, n)[..n - j] == Bits(v / Pow2(j), n - j)
  {
    DivMod(v, Pow2(j));
    if j == 0 {
      assert v / 1 == v;
    } else {
      BitsHigh(v / 2, n - 1, j - 1);
      DivTwice(v, Pow2(j - 1));
      assert Bits(v, n)[..n - j] == Bits(v / 2, n - 1)[..n - j];
    }
  }

  lemma DivTwice(v: nat, p: nat)
    requires p > 0
    ensures v / (2 * p) == (v / 2) / p
  {
    DivMod(v / 2, p);
    var q, r := (v / 2) / p, (v / 2) % p;
    assert v == q * (2 * p) + (2 * r + v % 2);
    DivUnique(v, 2 * p, q, 2 * r + v % 2);
  }

  lemma ModTwice(v: nat, p: nat)
    requires p > 0
    ensures v % (2 * p) / 2 == (v / 2) % p && v % (2 * p) % 2 == v % 2
  {
    DivMod(v / 2, p);
    var q, r := (v / 2) / p, (v / 2) % p;
    assert v == q * (2 * p) + (2 * r + v % 2);
    DivUnique(v, 2 * p, q, 2 * r + v % 2);
  }

  lemma {:induction false} BitsModulo(v: nat, j: nat)
    ensures 0 <= v % Pow2(j)
    ensures Bits(v % Pow2(j), j) == Bits(v, j)
  {
    DivMod(v, Pow2(j));
    if j > 0 {
      var p := Pow2(j - 1);
      BitsModulo(v / 2, j - 1);
      ModTwice(v, p);
    }
  }

  lemma {:induction false} AllOnes(v: nat, j: nat)
    ensures Bits(v, j) == Ones(j) <==> v % Pow2(j) == Pow2(j) - 1
  {
    hide Bits, Ones, Number, Pow2;
    BitsModulo(v, j);
    DivMod(v, Pow2(j));
    OnesValue(j);
    NumberBits(v % Pow2(j), j);
    NumberBits(Pow2(j) - 1, j);
  }

  lemma {:induction false} OnesValue(j: nat)
    ensures Bits(Pow2(j) - 1, j) == Ones(j)
  {
    if j > 0 {
      assert (Pow2(j) - 1) / 2 == Pow2(j - 1) - 1;
      OnesValue(j - 1);
    }
  }

  // ------------------------------------------------------------- the decoder

  /** Decode table indexed by six bits of lookahead; a 6-bit code carries the wide flag 0x80. */
  const TABLE: seq<byte> := ROW0 + ROW1 + ROW2 + ROW3 + ROW4 + Repeat(0, 24)

  const ROW0: seq<byte> := [0x30, 0x30, 0x31, 0x31, 0x32, 0x32, 0x61, 0x61]   // '0' '1' '2' 'a'
  const ROW1: seq<byte> := [0x63, 0x63, 0x65, 0x65, 0x00, 0x00, 0x00, 0x00]   // 'c' 'e'
  const ROW2: seq<byte> := [0x00, 0x00, 0x00, 0x00, 0x00, 0x00, 0xad, 0x00]   // '-'
  const ROW3: seq<byte> := [0x00, 0xb3, 0xb4, 0xb5, 0xb6, 0xb7, 0xb8, 0xb9]   // '3'..'9'
  const ROW4: seq<byte> := [0x00, 0x00, 0x00, 0xe2, 0xe4, 0xe6, 0x00, 0x00]   // 'b' 'd' 'f'

  const WIDE: nat := 0x80

  predicate IsWide(entry: byte) { entry >= WIDE }
  function EntryWidth(entry: byte): nat { if IsWide(entry) then 6 else 5 }
  function EntryChar(entry: byte): byte { entry % WIDE }

  lemma TableRow(v: nat)
    requires v < 64
    ensures |TABLE| == 64
    ensures v < 8 ==> TABLE[v] == ROW0[v]
    ensures 8 <= v < 16 ==> TABLE[v] == ROW1[v - 8]
    ensures 16 <= v < 24 ==> TABLE[v] == ROW2[v - 16]
    ensures 24 <= v < 32 ==> TABLE[v] == ROW3[v - 24]
    ensures 32 <= v < 40 ==> TABLE[v] == ROW4[v - 32]
    ensures 40 <= v ==> TABLE[v] == 0
  {
  }

  /** A nonzero entry names the character whose code starts the lookahead. */
  lemma TableSound(v: nat)
    requires v < 64 && TABLE[v] != 0
    ensures InAlphabet(EntryChar(TABLE[v]))
    ensures CodeWidth(EntryChar(TABLE[v])) == EntryWidth(TABLE[v])
    ensures CodeValue(EntryChar(TABLE[v])) == if IsWide(TABLE[v]) then v else v / 2
  {
    TableRow(v);
  }

  /** Every code is found, whatever bit follows a five-bit one. */
  lemma TableComplete(c: byte, v: nat)
    requires InAlphabet(c) && v < 64
    requires CodeValue(c) == if CodeWidth(c) == 6 then v else v / 2
    ensures TABLE[v] == c + (if CodeWidth(c) == 6 then WIDE else 0)
  {
    TableRow(v);
  }

  function Join(x: byte, y: byte): (v: nat)
    ensures v < 0x1_0000 && v / 0x100 == x && v % 0x100 == y
  {
    var hi: nat := x;
    hi * 0x100 + y
  }

  lemma JoinOctets(x: byte, y: byte)
    ensures Bits(Join(x, y), 16) == Bits(x, 8) + Bits(y, 8)
  {
    var v := Join(x, y);
    Pow2UpTo8();
    BitsHigh(v, 16, 8);
    BitsLow(v, 16, 8);
    BitsModulo(v, 8);
    assert Bits(v, 16) == Bits(v, 16)[..8] + Bits(v, 16)[8..];
  }

  /** Six bits at the cursor, read from the two window octets they straddle. */
  function Lookahead(w: seq<byte>, bit: nat): (v: nat)
    requires |w| == WINDOW
    ensures v < 64
  {
    var firstByte := (bit / 8) % WINDOW;
    var twoBytes := Join(w[firstByte], w[(firstByte + 1) % WINDOW]);
    DivMod(twoBytes, Pow2(10 - bit % 8));
    (twoBytes / Pow2(10 - bit % 8)) % 64
  }

  lemma PairBits(w: seq<byte>, i: nat)
    requires i + 1 < |w|
    ensures OctetBits(w)[8 * i..8 * i + 16] == Bits(Join(w[i], w[i + 1]), 16)
  {
    OctetAt(w, i);
    OctetAt(w, i + 1);
    JoinOctets(w[i], w[i + 1]);
    SplitSlice(OctetBits(w), 8 * i, 8 * i + 8, 8 * i + 16);
  }

  /** Bits `k` to `k + 6` of a 16-bit number. */
  lemma MiddleBits(two: nat, k: nat)
    requires k < 8
    ensures 0 <= (two / Pow2(10 - k)) % 64
    ensures Bits(two, 16)[k..k + 6] == Bits((two / Pow2(10 - k)) % 64, 6)
  {
    BitsHigh(two, 16, 10 - k);
    var x := two / Pow2(10 - k);
    BitsLow(x, k + 6, 6);
    Pow2UpTo8();
    BitsModulo(x, 6);
    SliceOfSlice(Bits(two, 16), 0, k + 6, k, k + 6);
  }

  lemma LookaheadBits(w: seq<byte>, bit: nat)
    requires |w| == WINDOW && bit / 8 + 1 < WINDOW
    ensures OctetBits(w)[bit..bit + 6] == Bits(Lookahead(w, bit), 6)
  {
    hide *;
    var i, k := bit / 8, bit % 8;
    LookaheadValue(w, i, k);
    PairBits(w, i);
    MiddleBits(Join(w[i], w[i + 1]), k);
    ReadMiddle(OctetBits(w), i, k, Bits(Join(w[i], w[i + 1]), 16));
    assert bit == 8 * i + k;
  }

  lemma LookaheadValue(w: seq<byte>, i: nat, k: nat)
    requires |w| == WINDOW && i + 1 < WINDOW && k < 8
    ensures Lookahead(w, 8 * i + k) == (Join(w[i], w[i + 1]) / Pow2(10 - k)) % 64
  {
    hide Join, Pow2;
    assert (8 * i + k) / 8 == i && (8 * i + k) % 8 == k;
    assert i % WINDOW == i && (i + 1) % WINDOW == i + 1;
  }

  lemma ReadMiddle(stream: seq<bool>, i: nat, k: nat, pair: seq<bool>)
    requires k < 8 && 8 * i + 16 <= |stream| && stream[8 * i..8 * i + 16] == pair
    ensures stream[8 * i + k..8 * i + k + 6] == pair[k..k + 6]
  {
    SliceOfSlice(stream, 8 * i, 8 * i + 16, k, k + 6);
  }

  lemma CodeBitsExtend(s: seq<byte>, c: byte)
    requires Encodable(s) && InAlphabet(c)
    ensures CodeBits(s + [c]) == CodeBits(s) + Code(c)
  {
    assert Codes(s + [c]) == Codes(s) + [Code(c)];
    FlattenExtend(Codes(s), Code(c));
  }

  /** The code of character `i` follows the codes of the characters before it. */
  lemma CodeBitsStep(s: seq<byte>, i: nat)
    requires Encodable(s) && i < |s|
    ensures CodeBits(s[..i]) + Code(s[i]) <= CodeBits(s)
  {
    FlattenStep(Codes(s), i);
    assert Codes(s)[..i] == Codes(s[..i]);
  }

  /** A table hit consumes exactly the code of the character it names. */
  lemma StepSound(w: seq<byte>, bit: nat, entry: byte)
    requires |w| == WINDOW && bit / 8 + 1 < WINDOW
    requires entry == TABLE[Lookahead(w, bit)] && entry != 0
    ensures InAlphabet(EntryChar(entry)) && CodeWidth(EntryChar(entry)) == EntryWidth(entry)
    ensures OctetBits(w)[bit..bit + EntryWidth(entry)] == Code(EntryChar(entry))
  {
    var v := Lookahead(w, bit);
    LookaheadBits(w, bit);
    TableSound(v);
    if !IsWide(entry) {
      assert OctetBits(w)[bit..bit + 5] == OctetBits(w)[bit..bit + 6][..5];
      assert Bits(v, 6)[..5] == Bits(v / 2, 5);
    }
  }

  /** A stream that continues with the code of `c` makes the table name `c`. */
  lemma StepComplete(w: seq<byte>, bit: nat, c: byte)
    requires |w| == WINDOW && bit / 8 + 1 < WINDOW && InAlphabet(c)
    requires OctetBits(w)[bit..bit + CodeWidth(c)] == Code(c)
    ensures TABLE[Lookahead(w, bit)] == c + (if CodeWidth(c) == 6 then WIDE else 0)
  {
    var v, n := Lookahead(w, bit), CodeWidth(c);
    LookaheadBits(w, bit);
    assert OctetBits(w)[bit..bit + n] == OctetBits(w)[bit..bit + 6][..n];
    var x := if n == 6 then v else v / 2;
    assert Bits(v, 6)[..n] == Bits(x, n);
    Pow2UpTo8();
    NumberBits(x, n);
    NumberBits(CodeValue(c), n);
    TableComplete(c, v);
  }

  /** Some traceparent value encodes to these octets. */
  ghost predicate IsEncoded(octets: seq<byte>) {
    exists s :: TraceparentLayout(s) && Encode(s) == octets
  }

  /** The next character of an encoded value sits right after the codes already read. */
  lemma NextCode(w: seq<byte>, len: nat, s: seq<byte>, i: nat)
    requires |w| == WINDOW && len <= WINDOW && Encodable(s) && i < |s|
    requires Encode(s) == w[..len]
    ensures var bit := |CodeBits(s[..i])|;
            bit + CodeWidth(s[i]) <= 8 * len && OctetBits(w)[bit..bit + CodeWidth(s[i])] == Code(s[i])
  {
    EncodedPrefix(w, len, s);
    CodeBitsStep(s, i);
    ReadCode(OctetBits(w), CodeBits(s), CodeBits(s[..i]), Code(s[i]));
  }

  lemma ReadCode(stream: seq<bool>, code: seq<bool>, p: seq<bool>, e: seq<bool>)
    requires p + e <= code <= stream
    ensures |p| + |e| <= |code| && stream[|p|..|p| + |e|] == e
  {
    PrefixTransitive(p + e, code, stream);
    ReadAfter(stream, p, e);
  }

  lemma EncodedPrefix(w: seq<byte>, len: nat, s: seq<byte>)
    requires len <= |w| && Encodable(s) && Encode(s) == w[..len]
    ensures CodeBits(s) <= OctetBits(w) && |CodeBits(s)| <= 8 * len
    ensures (|CodeBits(s)| + 7) / 8 == len
  {
    EncodesBits(s, w[..len]);
    OctetBitsPrefix(w, len);
    PrefixOfPrefix(OctetBits(w), 8 * len, CodeBits(s), Ones(PadLen(|CodeBits(s)|)));
  }

  /** What the final length and padding checks establish. */
  lemma PaddingDecides(w: seq<byte>, len: nat, s: seq<byte>)
    requires 0 < len <= |w| && Encodable(s) && |CodeBits(s)| <= 8 * len
    requires CodeBits(s) <= OctetBits(w)
    requires (|CodeBits(s)| + 7) / 8 == len
    ensures var pad := 8 * len - |CodeBits(s)|;
            Encode(s) == w[..len] <==> w[len - 1] % Pow2(pad) == Pow2(pad) - 1
  {
    hide *;
    var stream, code := OctetBits(w), CodeBits(s);
    var pad := 8 * len - |code|;
    PaddingBits(w, len, pad);
    OctetBitsPrefix(w, len);
    EncodesBits(s, w[..len]);
    SplitSlice(stream, 0, |code|, 8 * len);
    SameTail(code, stream[|code|..8 * len], Ones(pad));
  }

  lemma SameTail(p: seq<bool>, t: seq<bool>, u: seq<bool>)
    ensures p + t == p + u <==> t == u
  {
    assert (p + t)[|p|..] == t && (p + u)[|p|..] == u;
  }

  lemma PaddingBits(w: seq<byte>, len: nat, pad: nat)
    requires 0 < len <= |w| && pad < 8
    ensures OctetBits(w)[8 * len - pad..8 * len] == Ones(pad)
            <==> w[len - 1] % Pow2(pad) == Pow2(pad) - 1
  {
    OctetAt(w, len - 1);
    BitsLow(w[len - 1], 8, pad);
    AllOnes(w[len - 1], pad);
    SliceOfSlice(OctetBits(w), 8 * len - 8, 8 * len, 8 - pad, 8);
  }

  /** A traceparent value always encodes to 35 to 42 octets. */
  lemma EncodedLength(s: seq<byte>)
    requires Encodable(s) && |s| == VALUE_LEN
    ensures MIN_OCTETS <= |Encode(s)| <= MAX_OCTETS
  {
  }

  function EntryOf(c: byte): (entry: nat)
    requires InAlphabet(c)
  {
    if CodeWidth(c) == 6 then c + WIDE else c
  }

  lemma EntryRoundTrip(c: byte)
    requires InAlphabet(c)
    ensures 0 < EntryOf(c) < 0x100
    ensures EntryChar(EntryOf(c)) == c && EntryWidth(EntryOf(c)) == CodeWidth(c)
  {
  }

  /** After the codes of a prefix, the table names the next character. */
  lemma NextEntry(w: seq<byte>, len: nat, s: seq<byte>, i: nat, bit: nat)
    requires |w| == WINDOW && len < WINDOW && Encodable(s) && i < |s|
    requires Encode(s) == w[..len] && bit == |CodeBits(s[..i])|
    ensures TABLE[Lookahead(w, bit)] == EntryOf(s[i])
  {
    NextCode(w, len, s, i);
    StepComplete(w, bit, s[i]);
  }

  lemma SameNext(w: seq<byte>, len: nat, s: seq<byte>, t: seq<byte>, i: nat)
    requires |w| == WINDOW && len < WINDOW && Encodable(s) && Encodable(t) && i < |s| == |t|
    requires Encode(s) == w[..len] == Encode(t) && s[..i] == t[..i]
    ensures s[i] == t[i]
  {
    var bit := |CodeBits(s[..i])|;
    NextEntry(w, len, s, i, bit);
    NextEntry(w, len, t, i, bit);
    EntryRoundTrip(s[i]);
    EntryRoundTrip(t[i]);
  }

  /** Two values with the same encoding agree character by character. */
  lemma {:induction false} SamePrefix(w: seq<byte>, len: nat, s: seq<byte>, t: seq<byte>, i: nat)
    requires |w| == WINDOW && len < WINDOW && Encodable(s) && Encodable(t) && i <= |s| == |t|
    requires Encode(s) == w[..len] == Encode(t)
    ensures s[..i] == t[..i]
  {
    hide *;
    if i > 0 {
      SamePrefix(w, len, s, t, i - 1);
      SameNext(w, len, s, t, i - 1);
      assert s[..i] == s[..i - 1] + [s[i - 1]] && t[..i] == t[..i - 1] + [t[i - 1]];
    }
  }

  lemma EncodeInjective(s: seq<byte>, t: seq<byte>)
    requires Encodable(s) && Encodable(t) && |s| == |t| == VALUE_LEN
    requires Encode(s) == Encode(t)
    ensures s == t
  {
    EncodedLength(s);
    var w := Encode(s) + Repeat(0, WINDOW - |Encode(s)|);
    SamePrefix(w, |Encode(s)|, s, t, |s|);
    assert s[..|s|] == s && t[..|s|] == t;
  }

  /** The value some octets encode; only the octets decide it. */
  ghost function Decoded(octets: seq<byte>): (s: seq<byte>)
    requires IsEncoded(octets)
    ensures TraceparentLayout(s) && Encode(s) == octets
  {
    var s :| TraceparentLayout(s) && Encode(s) == octets;
    s
  }

  /** Encoding and decoding are mutual inverses. */
  lemma DecodedInverts(s: seq<byte>)
    requires TraceparentLayout(s)
    ensures IsEncoded(Encode(s)) && Decoded(Encode(s)) == s
  {
    EncodeInjective(Decoded(Encode(s)), s);
  }

  /** What was read so far is what the codes at the start of the window spell, unless invalid. */
  ghost predicate Consumed(w: seq<byte>, read: seq<byte>, bit: nat, invalid: nat) {
    && 5 * |read| <= bit <= 6 * |read|
    && (invalid == 0 ==> Encodable(read) && bit == |CodeBits(read)| && CodeBits(read) <= OctetBits(w))
  }

  /** If the announced octets do encode a value, its characters are being read. */
  ghost predicate OnTrack(octets: seq<byte>, read: seq<byte>, invalid: nat) {
    IsEncoded(octets) ==> invalid == 0 && |read| <= VALUE_LEN && read == Decoded(octets)[..|read|]
  }

  lemma StepConsumed(w: seq<byte>, read: seq<byte>, bit: nat, invalid: nat, entry: byte)
    requires |w| == WINDOW && |read| < VALUE_LEN && Consumed(w, read, bit, invalid)
    requires entry == TABLE[Lookahead(w, bit)]
    ensures Consumed(w, read + [EntryChar(entry)], bit + EntryWidth(entry),
                     invalid + (if entry == 0 then 1 else 0))
  {
    if invalid == 0 && entry != 0 {
      StepSound(w, bit, entry);
      ConsumeCode(w, read, EntryChar(entry));
    }
  }

  lemma ConsumeCode(w: seq<byte>, read: seq<byte>, c: byte)
    requires Encodable(read) && InAlphabet(c) && CodeBits(read) <= OctetBits(w)
    requires |CodeBits(read)| + CodeWidth(c) <= 8 * |w|
    requires OctetBits(w)[|CodeBits(read)|..|CodeBits(read)| + CodeWidth(c)] == Code(c)
    ensures Encodable(read + [c]) && CodeBits(read + [c]) <= OctetBits(w)
    ensures |CodeBits(read + [c])| == |CodeBits(read)| + CodeWidth(c)
  {
    hide CodeBits, OctetBits, Code;
    CodeBitsExtend(read, c);
    SplitSlice(OctetBits(w), 0, |CodeBits(read)|, |CodeBits(read)| + CodeWidth(c));
  }

  lemma StepOnTrack(w: seq<byte>, len: nat, read: seq<byte>, bit: nat, invalid: nat, entry: byte)
    requires |w| == WINDOW && len < WINDOW && |read| < VALUE_LEN && Consumed(w, read, bit, invalid)
    requires OnTrack(w[..len], read, invalid)
    requires entry == TABLE[Lookahead(w, bit)]
    ensures OnTrack(w[..len], read + [EntryChar(entry)], invalid + (if entry == 0 then 1 else 0))
  {
    hide CodeBits, OctetBits, Encode, Lookahead, TABLE, Code;
    if IsEncoded(w[..len]) {
      var s := Decoded(w[..len]);
      NextEntry(w, len, s, |read|, bit);
      EntryRoundTrip(s[|read|]);
      assert s[..|read| + 1] == read + [s[|read|]];
    }
  }

  /** The checks made after the loop decide exactly whether the octets encode a value. */
  lemma Finish(w: seq<byte>, len: nat, read: seq<byte>, bit: nat, invalid: nat)
    requires |w| == WINDOW && 0 < len <= WINDOW && |read| == VALUE_LEN
    requires Consumed(w, read, bit, invalid) && OnTrack(w[..len], read, invalid)
    ensures IsEncoded(w[..len]) ==>
              && invalid == 0 && (bit + 7) / 8 == len && TraceparentLayout(read) && read == Decoded(w[..len])
              && w[len - 1] % Pow2(8 * len - bit) == Pow2(8 * len - bit) - 1
    ensures (invalid == 0 && (bit + 7) / 8 == len && TraceparentLayout(read) &&
             w[len - 1] % Pow2(8 * len - bit) == Pow2(8 * len - bit) - 1)
            ==> IsEncoded(w[..len])
    ensures invalid == 0 ==> Encodable(read)
  {
    if IsEncoded(w[..len]) {
      var s := Decoded(w[..len]);
      assert s[..VALUE_LEN] == s;
      EncodedPrefix(w, len, s);
    }
    if invalid == 0 && (bit + 7) / 8 == len {
      PaddingDecides(w, len, read);
    }
  }

  lemma StartOnTrack(w: seq<byte>, len: nat)
    requires len <= |w|
    ensures Consumed(w, [], 0, 0) && OnTrack(w[..len], [], 0)
  {
    assert Codes([]) == [];
  }

  /** The bpf_loop of 55 steps, each advancing the cursor by the width of the code it read. */
  method DecodeLoop(w: array<byte>, ghost len: nat, out: array<byte>) returns (bit: nat, invalid: nat)
    requires w.Length == WINDOW && out.Length >= VALUE_LEN && w != out && len < WINDOW
    modifies out
    ensures Consumed(w[..], out[..VALUE_LEN], bit, invalid)
    ensures OnTrack(w[..len], out[..VALUE_LEN], invalid)
  {
    hide Consumed, OnTrack, Join, Pow2;
    bit, invalid := 0, 0;
    var i := 0;
    ghost var window := w[..];
    assert window[..len] == w[..len];
    assert out[..0] == [];
    StartOnTrack(window, len);
    while i < VALUE_LEN
      invariant 0 <= i <= VALUE_LEN
      invariant w[..] == window
      invariant Consumed(window, out[..i], bit, invalid)
      invariant OnTrack(window[..len], out[..i], invalid)
    {
      var firstByte := (bit / 8) % WINDOW;
      var bitsIntoByte := bit % 8;
      var twoBytes := Join(w[firstByte], w[(firstByte + 1) % WINDOW]);
      DivMod(twoBytes, Pow2(16 - 6 - bitsIntoByte));
      var lookahead := (twoBytes / Pow2(16 - 6 - bitsIntoByte)) % 64;
      var entry := TABLE[lookahead];
      ghost var read := out[..i];
      StepConsumed(window, read, bit, invalid, entry);
      StepOnTrack(window, len, read, bit, invalid, entry);
      out[i] := EntryChar(entry);
      assert out[..i + 1] == read + [EntryChar(entry)];
      bit := bit + 5 + (if IsWide(entry) then 1 else 0);
      invalid := invalid + (if entry == 0 then 1 else 0);
      i := i + 1;
    }
    assert w[..len] == window[..len];
  }

  lemma LengthRefused(octets: seq<byte>)
    requires |octets| < MIN_OCTETS || |octets| > MAX_OCTETS
    ensures !IsEncoded(octets)
  {
    if IsEncoded(octets) {
      EncodedLength(Decoded(octets));
    }
  }

  method DecodeTp(w: array<byte>, len: nat, out: array<byte>) returns (ok: bool)
    requires w.Length == WINDOW && out.Length >= VALUE_LEN && w != out
    modifies out
    ensures ok <==> len <= WINDOW && IsEncoded(w[..len])
    ensures ok ==> out[..VALUE_LEN] == Decoded(w[..len])
  {
    hide Consumed, OnTrack, IsEncoded, Encode, Encodable, Pow2;
    if len < MIN_OCTETS || len > MAX_OCTETS {
      if len <= WINDOW {
        LengthRefused(w[..len]);
      }
      return false;
    }
    var bit, invalid := DecodeLoop(w, len, out);
    ghost var window, read := w[..], out[..VALUE_LEN];
    assert window[..len] == w[..len];
    Finish(window, len, read, bit, invalid);
    assert invalid == 0 && (bit + 7) / 8 == len && bit == len * 8 ==> window[len - 1] % Pow2(0) == Pow2(0) - 1 by {
      assert Pow2(0) == 1 by { Pow2UpTo8(); }
    }
    if invalid != 0 || (bit + 7) / 8 != len {
      return false;
    }
    var pad := len * 8 - bit;
    if pad > 7 {
      return false;
    }
    if pad > 0 {
      var padMask := Pow2(pad) - 1;
      if w[len - 1] % Pow2(pad) != padMask {
        return false;
      }
    }
    ok := out[0] == 0x30 && out[1] == 0x30 &&
          out[DASH1] == 0x2d && out[DASH2] == 0x2d && out[DASH3] == 0x2d;
  }
}
