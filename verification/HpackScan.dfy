/**
 Locating and reading a traceparent field in an HPACK block
 (bpf/generictracer/hpack_traceparent_parse.h), and the egress classifier of
 bpf/common/h2_tp_scan.h. Literal fields follow section 6.2 of RFC 7541.
 */
module HpackScan {
  import opened Words
  import opened Traceparent
  import Huffman

  const NAME: seq<byte> := [0x74, 0x72, 0x61, 0x63, 0x65, 0x70, 0x61, 0x72, 0x65, 0x6e, 0x74]
  const NAME_HUFFMAN: seq<byte> := [0x4d, 0x83, 0x21, 0x6b, 0x1d, 0x85, 0xa9, 0x3f]
  const HUFFMAN_FLAG: nat := 0x80
  const MAX_SCAN: nat := 247
  const MIN_FIELD: nat := 46        // Huffman name, Huffman value of 35 octets
  const MAX_VALUE_AT: nat := 261    // MAX_SCAN plus the widest value offset

  predicate IsLiteral(b: byte) { b == 0x00 || b == 0x10 || b == 0x40 }

  /** A length byte announcing a Huffman string that could hold a traceparent. */
  predicate PlausibleLen(b: byte) {
    b >= HUFFMAN_FLAG && Huffman.MIN_OCTETS <= b - HUFFMAN_FLAG <= Huffman.MAX_OCTETS
  }

  // -------------------------------------------------------- the sender's side

  /** Length byte and octets of the field name, plain or Huffman coded. */
  function NameOctets(huffman: bool): (s: seq<byte>) {
    if huffman then [0x88] + NAME_HUFFMAN else [0x0b] + NAME
  }

  lemma ValueLenByte(s: seq<byte>)
    requires Huffman.TraceparentLayout(s)
    ensures HUFFMAN_FLAG + |Huffman.Encode(s)| < 0x100
  {
    Huffman.EncodedLength(s);
  }

  /** The value as it travels. */
  function ValueBody(c: Context, huffman: bool): (s: seq<byte>)
    requires c.Valid()
  {
    TpStringLayout(c);
    if huffman then Huffman.Encode(TpString(c)) else TpString(c)
  }

  function ValueLenOctet(c: Context, huffman: bool): (b: byte)
    requires c.Valid()
  {
    TpStringLayout(c);
    ValueLenByte(TpString(c));
    if huffman then HUFFMAN_FLAG + |ValueBody(c, true)| else VALUE_LEN
  }

  /** Length byte and octets of the value, plain or Huffman coded. */
  function ValueOctets(c: Context, huffman: bool): (s: seq<byte>)
    requires c.Valid()
  {
    [ValueLenOctet(c, huffman)] + ValueBody(c, huffman)
  }

  /** A complete literal field carrying a trace context. */
  function Field(form: byte, nameHuffman: bool, valueHuffman: bool, c: Context): (s: seq<byte>)
    requires c.Valid() && IsLiteral(form)
  {
    [form] + NameOctets(nameHuffman) + ValueOctets(c, valueHuffman)
  }

  // ------------------------------------------------------ the receiver's side

  datatype Shape =
    | NoShape
    | PlainValue(at: nat)
    | HuffmanValue(at: nat, len: nat)

  /** What the value length byte just before `at` announces. */
  function ValueShape(data: seq<byte>, at: nat): Shape
    requires 0 < at <= |data|
  {
    var lenByte := data[at - 1];
    if lenByte == VALUE_LEN then
      if at + VALUE_LEN > |data| then NoShape else PlainValue(at)
    else if PlausibleLen(lenByte) then HuffmanValue(at, lenByte - HUFFMAN_FLAG)
    else NoShape
  }

  /** The traceparent field that starts at `i`, if its name and value length match. */
  function ShapeAt(data: seq<byte>, i: nat): (s: Shape)
    requires i + MIN_FIELD <= |data|
    ensures s.PlainValue? ==> s.at + VALUE_LEN <= |data|
    ensures s.HuffmanValue? ==> Huffman.MIN_OCTETS <= s.len <= Huffman.MAX_OCTETS && s.at <= i + 14
  {
    if !IsLiteral(data[i]) then NoShape
    else if data[i + 1] == 0x0b && data[i + 2..i + 13] == NAME then ValueShape(data, i + 14)
    else if data[i + 1] == 0x88 && data[i + 2..i + 10] == NAME_HUFFMAN then ValueShape(data, i + 11)
    else NoShape
  }

  predicate Scanned(data: seq<byte>, i: nat) { i < MAX_SCAN && i + MIN_FIELD <= |data| }

  /** The first field shape at or after `i` within the scan bound. */
  function FirstShape(data: seq<byte>, i: nat): (s: Shape)
    ensures s.PlainValue? ==> s.at + VALUE_LEN <= |data|
    ensures s.HuffmanValue? ==> Huffman.MIN_OCTETS <= s.len <= Huffman.MAX_OCTETS && s.at <= MAX_VALUE_AT
    decreases MAX_SCAN - i
  {
    if !Scanned(data, i) then NoShape
    else if ShapeAt(data, i) != NoShape then ShapeAt(data, i)
    else FirstShape(data, i + 1)
  }

  lemma {:induction false} FirstShapeIs(data: seq<byte>, i: nat, k: nat)
    requires i <= k && Scanned(data, k) && ShapeAt(data, k) != NoShape
    requires forall j :: i <= j < k && Scanned(data, j) ==> ShapeAt(data, j) == NoShape
    ensures FirstShape(data, i) == ShapeAt(data, k)
    decreases k - i
  {
    if i < k {
      assert Scanned(data, i);
      FirstShapeIs(data, i + 1, k);
    }
  }

  /** Octets announced by a Huffman candidate, when the block holds all of them. */
  ghost function HuffmanContext(data: seq<byte>, at: nat, len: nat): Option<Context> {
    if len > 0 && at + len <= |data| && Huffman.IsEncoded(data[at..at + len])
    then ParseTpValue(Huffman.Decoded(data[at..at + len]))
    else None
  }

  /** The context a block carries under a matching name. */
  ghost function Recovered(data: seq<byte>): Option<Context> {
    match FirstShape(data, 0)
    case NoShape => None
    case PlainValue(at) => ParseTpValue(data[at..at + VALUE_LEN])
    case HuffmanValue(at, len) => HuffmanContext(data, at, len)
  }

  /** Located but not decoded value; no octets when the scan found none. */
  class Candidate {
    var at: nat
    var len: nat

    constructor ()
      ensures at == 0 && len == 0
    {
      at, len := 0, 0;
    }
  }

  /** The name and value length checks the scan makes at one position. */
  method MatchAt(data: seq<byte>, i: nat) returns (s: Shape)
    requires i + MIN_FIELD <= |data|
    ensures s == ShapeAt(data, i)
  {
    if !IsLiteral(data[i]) {
      return NoShape;
    }
    var nameLenByte := data[i + 1];
    if nameLenByte == 0x0b {
      if i + 14 > |data| || data[i + 2..i + 13] != NAME {
        return NoShape;
      }
      s := MatchValue(data, i + 14);
    } else if nameLenByte == 0x88 {
      if i + 11 > |data| || data[i + 2..i + 10] != NAME_HUFFMAN {
        return NoShape;
      }
      s := MatchValue(data, i + 11);
    } else {
      s := NoShape;
    }
  }

  method MatchValue(data: seq<byte>, at: nat) returns (s: Shape)
    requires 0 < at <= |data|
    ensures s == ValueShape(data, at)
  {
    var lenByte := data[at - 1];
    s := NoShape;
    if lenByte == VALUE_LEN {
      if at + VALUE_LEN <= |data| {
        s := PlainValue(at);
      }
    } else if PlausibleLen(lenByte) {
      s := HuffmanValue(at, lenByte - HUFFMAN_FLAG);
    }
  }

  /** The context the name scan reads by itself: only a plain value. */
  ghost function PlainContext(data: seq<byte>): Option<Context> {
    match FirstShape(data, 0)
    case PlainValue(at) => ParseTpValue(data[at..at + VALUE_LEN])
    case _ => None
  }

  method ParseHpackTraceparent(data: seq<byte>, tp: TpInfo, huff: Candidate) returns (found: bool)
    modifies tp`traceId, tp`parentId, tp`flags, huff
    ensures Adopted(found, PlainContext(data), old(tp.Remote()), tp.Remote())
    ensures if FirstShape(data, 0).HuffmanValue? then HuffmanValue(huff.at, huff.len) == FirstShape(data, 0)
            else huff.len == 0
  {
    hide ParseTpValue, ShapeAt;
    huff.at, huff.len := 0, 0;
    var i := 0;
    while i < MAX_SCAN && i + MIN_FIELD <= |data|
      invariant i <= MAX_SCAN && huff.len == 0
      invariant FirstShape(data, 0) == FirstShape(data, i)
      invariant tp.Remote() == old(tp.Remote())
    {
      var s := MatchAt(data, i);
      if s.PlainValue? {
        found := TryParseTpValue(data[s.at..s.at + VALUE_LEN], tp);
        return;
      }
      if s.HuffmanValue? {
        huff.at, huff.len := s.at, s.len;
        return false;
      }
      i := i + 1;
    }
    return false;
  }

  method TryParseHuffmanValue(data: seq<byte>, huff: Candidate, w: array<byte>, out: array<byte>, tp: TpInfo)
    returns (found: bool)
    requires w.Length == Huffman.WINDOW && out.Length >= VALUE_LEN && w != out
    requires huff.len == 0 || Huffman.MIN_OCTETS <= huff.len <= Huffman.MAX_OCTETS
    modifies w, out, tp`traceId, tp`parentId, tp`flags
    ensures Adopted(found, HuffmanContext(data, Min(huff.at, MAX_VALUE_AT), huff.len),
                    old(tp.Remote()), tp.Remote())
  {
    hide ParseTpValue, Huffman.IsEncoded, Huffman.TraceparentLayout, Huffman.Encode;
    var at := Min(huff.at, MAX_VALUE_AT);
    var len := huff.len;
    if len == 0 || at + len > |data| {
      return false;
    }
    FillWindow(data, at, len, w);
    var ok := Huffman.DecodeTp(w, len, out);
    if !ok {
      return false;
    }
    ghost var octets := data[at..at + len];
    assert out[..VALUE_LEN] == Huffman.Decoded(octets);
    found := TryParseTpValue(out[..VALUE_LEN], tp);
  }

  /** Copies the floor of 35 octets, then up to 42 of whatever follows, into the zeroed window. */
  method FillWindow(data: seq<byte>, at: nat, len: nat, w: array<byte>)
    requires w.Length == Huffman.WINDOW
    requires Huffman.MIN_OCTETS <= len <= Huffman.MAX_OCTETS && at + len <= |data|
    modifies w
    ensures w[..len] == data[at..at + len]
  {
    var i := 0;
    while i < Huffman.WINDOW
      invariant 0 <= i <= Huffman.WINDOW
    {
      w[i] := 0;
      i := i + 1;
    }
    i := 0;
    while i < Huffman.MIN_OCTETS
      invariant 0 <= i <= Huffman.MIN_OCTETS
      invariant forall k :: 0 <= k < i ==> w[k] == data[at + k]
    {
      w[i] := data[at + i];
      i := i + 1;
    }
    while i < Huffman.MAX_OCTETS
      invariant Huffman.MIN_OCTETS <= i <= Huffman.MAX_OCTETS
      invariant forall k :: 0 <= k < i && at + k < |data| ==> w[k] == data[at + k]
    {
      w[i] := if at + i < |data| then data[at + i] else 0;
      i := i + 1;
    }
  }

  /** The server's two stages: name scan, then the Huffman step for a located value. */
  method RecoverTraceparent(data: seq<byte>, w: array<byte>, out: array<byte>, tp: TpInfo) returns (found: bool)
    requires w.Length == Huffman.WINDOW && out.Length >= VALUE_LEN && w != out
    modifies w, out, tp`traceId, tp`parentId, tp`flags
    ensures Adopted(found, Recovered(data), old(tp.Remote()), tp.Remote())
  {
    var huff := new Candidate();
    found := ParseHpackTraceparent(data, tp, huff);
    if !found && huff.len != 0 {
      found := TryParseHuffmanValue(data, huff, w, out, tp);
    }
  }

  // ------------------------------------------------------------- round trip

  function ValueOffset(nameHuffman: bool): nat { if nameHuffman then 11 else 14 }

  lemma FieldParts(form: byte, nameHuffman: bool, valueHuffman: bool, c: Context)
    requires c.Valid() && IsLiteral(form)
    ensures Field(form, nameHuffman, valueHuffman, c) ==
            [form] + NameOctets(nameHuffman) + [ValueLenOctet(c, valueHuffman)] + ValueBody(c, valueHuffman)
    ensures |Field(form, nameHuffman, valueHuffman, c)| >= MIN_FIELD
    ensures Huffman.MIN_OCTETS <= |ValueBody(c, true)| <= Huffman.MAX_OCTETS && |ValueBody(c, false)| == VALUE_LEN
  {
    hide Huffman.Encode, TpString, Huffman.TraceparentLayout;
    TpStringLayout(c);
    assert Huffman.Encodable(TpString(c)) by { TpStringLayout(c); }
    Huffman.EncodedLength(TpString(c));
  }

  /** A field laid out inside a block reads back piece by piece. */
  lemma PlacedField(pre: seq<byte>, form: byte, name: seq<byte>, lenByte: byte, body: seq<byte>, post: seq<byte>)
    requires |name| > 0
    ensures var data := pre + ([form] + name + [lenByte] + body) + post;
            var k, at := |pre|, |pre| + 2 + |name|;
            && |data| >= at + |body|
            && data[k] == form && data[k + 1] == name[0] && data[k + 2..at - 1] == name[1..]
            && data[at - 1] == lenByte && data[at..at + |body|] == body
  {
    var field := [form] + name + [lenByte] + body;
    var data := pre + field + post;
    var k, at := |pre|, |pre| + 2 + |name|;
    SliceInside(pre, field, post, 2, |name| + 1);
    SliceInside(pre, field, post, |name| + 2, |field|);
    assert field[2..|name| + 1] == name[1..];
    assert field[|name| + 2..] == body;
  }

  lemma SliceInside(pre: seq<byte>, field: seq<byte>, post: seq<byte>, a: nat, b: nat)
    requires a <= b <= |field|
    ensures (pre + field + post)[|pre| + a..|pre| + b] == field[a..b]
  {
  }

  /**
   End to end: any trace context, sent in any literal form with a plain or Huffman name and a
   plain or Huffman value, behind any bytes that hold no earlier field shape and before any
   others, is recovered: trace id, the sender's span id as parent id, and the sampled flag.
   */
  lemma RoundTrip(pre: seq<byte>, form: byte, nameHuffman: bool, valueHuffman: bool, c: Context, post: seq<byte>)
    requires c.Valid() && IsLiteral(form) && |pre| < MAX_SCAN
    requires var data := pre + Field(form, nameHuffman, valueHuffman, c) + post;
             forall i :: 0 <= i < |pre| && Scanned(data, i) ==> ShapeAt(data, i) == NoShape
    ensures Recovered(pre + Field(form, nameHuffman, valueHuffman, c) + post) == Some(c.(flags := c.flags % 2))
  {
    hide ShapeAt, Field, FirstShape, ParseTpValue, HuffmanContext, IsLiteral, ValueBody;
    var data := pre + Field(form, nameHuffman, valueHuffman, c) + post;
    var k, at := |pre|, |pre| + ValueOffset(nameHuffman);
    FieldShape(pre, form, nameHuffman, valueHuffman, c, post);
    FirstShapeIs(data, 0, k);
    BodyContext(data, at, valueHuffman, c);
    assert ValueBody(c, false) == TpString(c) by { PlainBody(c); }
  }

  lemma PlainBody(c: Context)
    requires c.Valid()
    ensures ValueBody(c, false) == TpString(c)
  {
  }

  /** A field placed in a block shows its shape at its first octet, and its value where the shape says. */
  lemma FieldShape(pre: seq<byte>, form: byte, nameHuffman: bool, valueHuffman: bool, c: Context, post: seq<byte>)
    requires c.Valid() && IsLiteral(form)
    ensures var data := pre + Field(form, nameHuffman, valueHuffman, c) + post;
            var at, body := |pre| + ValueOffset(nameHuffman), ValueBody(c, valueHuffman);
            && |pre| + MIN_FIELD <= |data| && data[|pre|] == form
            && at + |body| <= |data| && data[at..at + |body|] == body
            && ShapeAt(data, |pre|) == (if valueHuffman then HuffmanValue(at, |body|) else PlainValue(at))
  {
    hide ShapeAt, Field, IsLiteral, ValueLenOctet, ValueBody, NameOctets;
    var data := pre + Field(form, nameHuffman, valueHuffman, c) + post;
    var name, lenByte, body := NameOctets(nameHuffman), ValueLenOctet(c, valueHuffman), ValueBody(c, valueHuffman);
    NameLength(nameHuffman);
    FieldParts(form, nameHuffman, valueHuffman, c);
    PlacedField(pre, form, name, lenByte, body, post);
    PlacedShape(data, |pre|, form, nameHuffman, valueHuffman, c);
  }

  lemma NameLength(nameHuffman: bool)
    ensures |NameOctets(nameHuffman)| == ValueOffset(nameHuffman) - 2
  {
  }

  lemma PlacedShape(data: seq<byte>, k: nat, form: byte, nameHuffman: bool, valueHuffman: bool, c: Context)
    requires c.Valid() && IsLiteral(form) && k + MIN_FIELD <= |data|
    requires var name, at, body := NameOctets(nameHuffman), k + ValueOffset(nameHuffman), ValueBody(c, valueHuffman);
             && |data| >= at + |body| && data[k] == form && data[k + 1] == name[0]
             && data[k + 2..at - 1] == name[1..] && data[at - 1] == ValueLenOctet(c, valueHuffman)
    ensures ShapeAt(data, k) ==
            if valueHuffman then HuffmanValue(k + ValueOffset(nameHuffman), |ValueBody(c, true)|)
            else PlainValue(k + ValueOffset(nameHuffman))
  {
    hide Huffman.Encode, TpString;
    FieldParts(form, nameHuffman, valueHuffman, c);
    assert NameOctets(nameHuffman)[1..] == if nameHuffman then NAME_HUFFMAN else NAME;
  }

  lemma BodyContext(data: seq<byte>, at: nat, valueHuffman: bool, c: Context)
    requires c.Valid() && at + |ValueBody(c, valueHuffman)| <= |data|
    requires data[at..at + |ValueBody(c, valueHuffman)|] == ValueBody(c, valueHuffman)
    ensures !valueHuffman ==> ParseTpValue(TpString(c)) == Some(c.(flags := c.flags % 2))
    ensures valueHuffman ==> HuffmanContext(data, at, |ValueBody(c, true)|) == Some(c.(flags := c.flags % 2))
  {
    hide ParseTpValue, TpString, Huffman.Encode, Huffman.IsEncoded;
    ValueRoundTrip(c);
    TpStringLayout(c);
    FieldParts(0, true, valueHuffman, c);
    Huffman.DecodedInverts(TpString(c));
  }

  // ----------------------------------------------- the egress classifier

  datatype Kind = Absent | Present | Adoptable

  function Classify(p: seq<byte>): Kind {
    if |p| < 10 then Absent
    else if p[0] == VALUE_LEN then
      if |p| >= 1 + VALUE_LEN && p[1] == ZERO && p[2] == ZERO && p[3] == DASH && p[36] == DASH && p[53] == DASH
      then Present else Absent
    else if p[1] == 0x88 then
      if |p| >= 66 && p[2..10] == NAME_HUFFMAN && p[10] == VALUE_LEN then Adoptable
      else if p[2..10] == NAME_HUFFMAN then Present else Absent
    else if p[1] == 0x0b && |p| >= 13 then
      if |p| >= 69 && p[2..13] == NAME && p[13] == VALUE_LEN then Adoptable
      else if p[2..13] == NAME then Present else Absent
    else Absent
  }

  /** The cheap per-position test that decides whether the classifier runs at all. */
  predicate IsCandidate(b0: byte, b1: byte, b2: byte) {
    if b0 == VALUE_LEN then b1 == ZERO && b2 == ZERO
    else IsLiteral(b0) && ((b1 == 0x0b && b2 == NAME[0]) || (b1 == 0x88 && b2 == NAME_HUFFMAN[0]))
  }

  /**
   Sender and receiver agree: on a literal field the classifier says adoptable exactly when the
   server's scan would read a plain value there, and never misses one it would have to decode.
   */
  lemma ClassifierMatchesScan(p: seq<byte>)
    requires |p| >= MIN_FIELD && IsLiteral(p[0])
    ensures Classify(p) == Adoptable <==> ShapeAt(p, 0).PlainValue?
    ensures ShapeAt(p, 0).HuffmanValue? ==> Classify(p) == Present
    ensures Classify(p) != Absent ==> IsCandidate(p[0], p[1], p[2])
  {
    assert p[2..13][0] == p[2] && p[2..10][0] == p[2];
  }

  /** Every field a sender can write is seen, and adoptable exactly when its value is plain. */
  lemma ClassifyField(form: byte, nameHuffman: bool, valueHuffman: bool, c: Context, post: seq<byte>)
    requires c.Valid() && IsLiteral(form)
    ensures Classify(Field(form, nameHuffman, valueHuffman, c) + post) == if valueHuffman then Present else Adoptable
  {
    hide *;
    var field := Field(form, nameHuffman, valueHuffman, c);
    FieldShape([], form, nameHuffman, valueHuffman, c, post);
    assert [] + field + post == field + post;
    ClassifierMatchesScan(field + post);
  }
}
