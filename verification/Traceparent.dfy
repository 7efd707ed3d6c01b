/**
 The W3C traceparent value: hexadecimal codec (bpf/common/trace_util.h), writer
 (bpf/common/tracing.h) and reader (bpf/generictracer/hpack_traceparent_parse.h).
 */
module Traceparent {
  import opened Words
  import Huffman

  const TRACE_ID_LEN: nat := 16
  const SPAN_ID_LEN: nat := 8
  const VALUE_LEN: nat := Huffman.VALUE_LEN
  const DASH: byte := 0x2d
  const ZERO: byte := 0x30

  // ------------------------------------------------------------- hexadecimal

  function HexDigit(n: nat): (c: byte)
    requires n < 16
  {
    if n < 10 then 0x30 + n else 0x61 + (n - 10)
  }

  /** The value of a hexadecimal character of either case, 0xff for any other. */
  function ReverseHex(c: byte): (n: byte) {
    if 0x30 <= c <= 0x39 then c - 0x30
    else if 0x41 <= c <= 0x46 then c - 0x41 + 10
    else if 0x61 <= c <= 0x66 then c - 0x61 + 10
    else 0xff
  }

  function HexString(src: seq<byte>): (s: seq<byte>)
    ensures |s| == 2 * |src|
    ensures forall i :: 0 <= i < |src| ==> s[2 * i] == HexDigit(src[i] / 16) && s[2 * i + 1] == HexDigit(src[i] % 16)
  {
    if src == [] then []
    else HexString(src[..|src| - 1]) + [HexDigit(src[|src| - 1] / 16), HexDigit(src[|src| - 1] % 16)]
  }

  function HexByte(p: byte, q: byte): (b: byte) {
    ReverseHex(p) % 16 * 16 + ReverseHex(q) % 16
  }

  /** Pairs of characters read as bytes; an odd last character is ignored. */
  function HexBytes(src: seq<byte>): (b: seq<byte>)
    ensures |b| == |src| / 2
    ensures forall i :: 0 <= i < |b| ==> b[i] == HexByte(src[2 * i], src[2 * i + 1])
  {
    seq(|src| / 2, i requires 0 <= i < |src| / 2 => HexByte(src[2 * i], src[2 * i + 1]))
  }

  lemma ByteRoundTrip(b: byte)
    ensures HexByte(HexDigit(b / 16), HexDigit(b % 16)) == b
  {
  }

  lemma HexRoundTrip(src: seq<byte>)
    ensures HexBytes(HexString(src)) == src
  {
    hide HexByte, HexDigit, HexString, HexBytes;
    var s := HexString(src);
    forall i | 0 <= i < |src| ensures HexBytes(s)[i] == src[i] {
      assert s[2 * i] == HexDigit(src[i] / 16);
      ByteRoundTrip(src[i]);
    }
  }

  method DecodeHex(src: seq<byte>) returns (dst: seq<byte>)
    ensures dst == HexBytes(src)
  {
    dst := [];
    var i := 1;
    while i < |src|
      invariant i % 2 == 1 && i <= |src| + 1
      invariant |dst| == i / 2
      invariant forall k :: 0 <= k < |dst| ==> dst[k] == HexByte(src[2 * k], src[2 * k + 1])
    {
      var a, b := ReverseHex(src[i - 1]), ReverseHex(src[i]);
      a, b := a % 16, b % 16;
      dst := dst + [(a * 16 + b) % 0x100];
      i := i + 2;
    }
  }

  lemma HexStringStep(src: seq<byte>, i: nat)
    requires i < |src|
    ensures HexString(src[..i + 1]) == HexString(src[..i]) + [HexDigit(src[i] / 16), HexDigit(src[i] % 16)]
  {
    assert src[..i + 1][..i] == src[..i];
  }

  method EncodeHex(dst: array<byte>, at: nat, src: seq<byte>)
    requires at + 2 * |src| <= dst.Length
    modifies dst
    ensures dst[..at] == old(dst[..at])
    ensures dst[at..at + 2 * |src|] == HexString(src)
  {
    hide HexString, HexDigit;
    var i, j := 0, at;
    while i < |src|
      invariant 0 <= i <= |src| && j == at + 2 * i
      invariant dst[..at] == old(dst[..at])
      invariant dst[at..j] == HexString(src[..i])
    {
      ghost var done := dst[at..j];
      dst[j] := HexDigit(src[i] / 16);
      dst[j + 1] := HexDigit(src[i] % 16);
      HexStringStep(src, i);
      assert dst[at..j + 2] == done + [HexDigit(src[i] / 16), HexDigit(src[i] % 16)];
      i, j := i + 1, j + 2;
    }
    assert src[..|src|] == src;
  }

  // ------------------------------------------------------------ the value

  /** The fields of a trace context that a traceparent value carries. */
  datatype Context = Context(traceId: seq<byte>, spanId: seq<byte>, flags: byte) {
    predicate Valid() { |traceId| == TRACE_ID_LEN && |spanId| == SPAN_ID_LEN }
  }

  /** Version 00, both identifiers in hexadecimal, and the sampled bit alone. */
  function TpString(c: Context): (s: seq<byte>)
    requires c.Valid()
    ensures |s| == VALUE_LEN
  {
    [ZERO, ZERO, DASH] + HexString(c.traceId) + [DASH] + HexString(c.spanId) + [DASH, ZERO, ZERO + c.flags % 2]
  }

  function ParseTpValue(val: seq<byte>): (r: Option<Context>)
    requires |val| == VALUE_LEN
  {
    if val[2] != DASH || val[35] != DASH || val[52] != DASH then None
    else Some(Context(HexBytes(val[3..35]), HexBytes(val[36..52]), HexBytes(val[53..55])[0]))
  }

  lemma TpStringParts(c: Context)
    requires c.Valid()
    ensures TpString(c)[3..35] == HexString(c.traceId)
    ensures TpString(c)[36..52] == HexString(c.spanId)
    ensures TpString(c)[53..55] == [ZERO, ZERO + c.flags % 2]
    ensures TpString(c)[0] == ZERO && TpString(c)[1] == ZERO
    ensures TpString(c)[2] == DASH && TpString(c)[35] == DASH && TpString(c)[52] == DASH
  {
  }

  /** What the writer emits, the reader recovers: both identifiers and the sampled flag. */
  lemma ValueRoundTrip(c: Context)
    requires c.Valid()
    ensures ParseTpValue(TpString(c)) == Some(c.(flags := c.flags % 2))
  {
    hide HexString, HexBytes, TpString;
    TpStringParts(c);
    HexRoundTrip(c.traceId);
    HexRoundTrip(c.spanId);
    assert HexBytes([ZERO, ZERO + c.flags % 2])[0] == c.flags % 2;
  }

  lemma HexAlphabet(src: seq<byte>)
    ensures Huffman.Encodable(HexString(src))
  {
    var s := HexString(src);
    forall i | 0 <= i < |s| ensures Huffman.InAlphabet(s[i]) {
      assert s[2 * (i / 2)] == HexDigit(src[i / 2] / 16);
    }
  }

  /** Every written value has the layout the Huffman decoder accepts. */
  lemma TpStringLayout(c: Context)
    requires c.Valid()
    ensures Huffman.TraceparentLayout(TpString(c))
  {
    HexAlphabet(c.traceId);
    HexAlphabet(c.spanId);
    TpStringParts(c);
  }

  /** The mutable trace context record. */
  class TpInfo {
    var traceId: seq<byte>
    var spanId: seq<byte>
    var parentId: seq<byte>
    var ts: u64
    var flags: byte

    /** The remote context as parsed: the sender's span becomes the parent. */
    ghost function Remote(): Context
      reads this
    {
      Context(traceId, parentId, flags)
    }
  }

  method MakeTpString(buf: array<byte>, tp: TpInfo)
    requires buf.Length >= VALUE_LEN && |tp.traceId| == TRACE_ID_LEN && |tp.spanId| == SPAN_ID_LEN
    modifies buf
    ensures buf[..VALUE_LEN] == TpString(Context(tp.traceId, tp.spanId, tp.flags))
  {
    hide HexString;
    buf[0], buf[1], buf[2] := ZERO, ZERO, DASH;
    assert buf[..3] == [ZERO, ZERO, DASH];
    EncodeHex(buf, 3, tp.traceId);
    ghost var head := [ZERO, ZERO, DASH] + HexString(tp.traceId);
    assert buf[..35] == head by { assert buf[..35] == buf[..3] + buf[3..35]; }
    buf[35] := DASH;
    assert buf[..36] == head + [DASH];
    EncodeHex(buf, 36, tp.spanId);
    assert buf[..52] == head + [DASH] + HexString(tp.spanId) by {
      assert buf[..52] == buf[..36] + buf[36..52];
    }
    buf[52], buf[53], buf[54] := DASH, ZERO, ZERO + tp.flags % 2;
    assert buf[..VALUE_LEN] == buf[..52] + [DASH, ZERO, ZERO + tp.flags % 2];
  }

  /** A read either fails and changes nothing, or leaves exactly the context it found. */
  predicate Adopted(found: bool, c: Option<Context>, before: Context, after: Context) {
    found == c.Some? && after == if c.Some? then c.value else before
  }

  method TryParseTpValue(val: seq<byte>, tp: TpInfo) returns (ok: bool)
    requires |val| == VALUE_LEN
    modifies tp`traceId, tp`parentId, tp`flags
    ensures Adopted(ok, ParseTpValue(val), old(tp.Remote()), tp.Remote())
  {
    if val[2] != DASH || val[35] != DASH || val[52] != DASH {
      return false;
    }
    tp.traceId := DecodeHex(val[3..35]);
    tp.parentId := DecodeHex(val[36..52]);
    var flags := DecodeHex(val[53..55]);
    tp.flags := flags[0];
    return true;
  }
}
