/**
 Recognising HTTP/2 in the middle of a connection: a strict frame walk
 (bpf/common/h2_defs.h:203-341, bpf/generictracer/http2_grpc.h:76-104) against a grammar of
 whole frames (sections 4.1 and 6.1 to 6.10 of RFC 7540).
 */
module H2Sniff {
  import opened Words

  const HEADER_LEN: nat := 9
  const MAX_FRAMES: nat := 8
  const MAX_FRAME_LEN: nat := 65535
  const MAX_TYPE: nat := 0x1f

  const DATA: nat := 0
  const HEADERS: nat := 1
  const PRIORITY: nat := 2
  const RST_STREAM: nat := 3
  const SETTINGS: nat := 4
  const PUSH_PROMISE: nat := 5
  const PING: nat := 6
  const GOAWAY: nat := 7
  const WINDOW_UPDATE: nat := 8
  const CONTINUATION: nat := 9

  const END_STREAM: bv8 := 0x01
  const ACK: bv8 := 0x01
  const END_HEADERS: bv8 := 0x04
  const PADDED: bv8 := 0x08
  const PRIORITY_FLAG: bv8 := 0x20

  // -------------------------------------------------------------- the grammar

  datatype Header = Header(length: nat, typ: nat, flags: byte, reserved: bool, stream: nat)

  datatype Frame = Frame(header: Header, payload: seq<byte>) {
    predicate WellFormed() {
      header.length == |payload| < 0x100_0000 && header.typ < 0x100 && header.stream < 0x8000_0000
    }
  }

  predicate Has(flags: byte, flag: bv8) { (flags as bv8) & flag != 0 }
  predicate Only(flags: byte, allowed: bv8) { (flags as bv8) & !allowed == 0 }

  /** Flags each frame type may carry. */
  function AllowedFlags(typ: nat): bv8 {
    match typ
    case DATA => END_STREAM | PADDED
    case HEADERS => END_STREAM | END_HEADERS | PRIORITY_FLAG | PADDED
    case SETTINGS => ACK
    case PUSH_PROMISE => END_HEADERS | PADDED
    case PING => ACK
    case CONTINUATION => END_HEADERS
    case _ => 0
  }

  /** Stream identifiers: connection frames use 0, request HEADERS an odd one. */
  predicate StreamRule(h: Header) {
    match h.typ
    case DATA => h.stream != 0
    case HEADERS => h.stream % 2 == 1
    case PRIORITY => h.stream != 0
    case RST_STREAM => h.stream != 0
    case SETTINGS => h.stream == 0
    case PUSH_PROMISE => h.stream != 0
    case PING => h.stream == 0
    case GOAWAY => h.stream == 0
    case _ => true
  }

  predicate LengthRule(h: Header) {
    match h.typ
    case DATA => h.length > 0 || Has(h.flags, END_STREAM)
    case HEADERS => h.length > 0
    case PRIORITY => h.length == 5
    case RST_STREAM => h.length == 4
    case SETTINGS => h.length % 6 == 0 && (Has(h.flags, ACK) ==> h.length == 0)
    case PUSH_PROMISE => h.length >= 4
    case PING => h.length == 8
    case GOAWAY => h.length >= 8
    case WINDOW_UPDATE => h.length == 4
    case CONTINUATION => h.length > 0 || Has(h.flags, END_HEADERS)
    case _ => true
  }

  /** What a frame must satisfy on its own; types above the known ten are extensions. */
  predicate LegalAlone(h: Header) {
    && !h.reserved && h.length <= MAX_FRAME_LEN && h.typ <= MAX_TYPE
    && (h.typ <= CONTINUATION ==> Only(h.flags, AllowedFlags(h.typ)))
    && StreamRule(h) && LengthRule(h)
  }

  predicate CarriesBlock(h: Header) { h.typ == HEADERS || h.typ == PUSH_PROMISE || h.typ == CONTINUATION }

  /** The frame leaves its header block open. */
  predicate LeavesOpen(h: Header) { CarriesBlock(h) && !Has(h.flags, END_HEADERS) }

  /** Two consecutive frames: an open block is continued on its own stream, a closed one is not. */
  predicate Follows(prev: Header, next: Header) {
    if LeavesOpen(prev) then next.typ == CONTINUATION && next.stream == prev.stream
    else next.typ != CONTINUATION
  }

  predicate LegalSequence(fs: seq<Frame>) {
    && (forall i :: 0 <= i < |fs| ==> fs[i].WellFormed() && LegalAlone(fs[i].header))
    && (|fs| > 0 ==> fs[0].header.typ != CONTINUATION)
    && (forall i :: 0 < i < |fs| ==> Follows(fs[i - 1].header, fs[i].header))
  }

  function HeaderBytes(h: Header): (s: seq<byte>)
    requires h.length < 0x100_0000 && h.typ < 0x100 && h.stream < 0x8000_0000
    ensures |s| == HEADER_LEN
  {
    [h.length / 0x1_0000, h.length / 0x100 % 0x100, h.length % 0x100, h.typ, h.flags,
     h.stream / 0x100_0000 + (if h.reserved then 0x80 else 0), h.stream / 0x1_0000 % 0x100,
     h.stream / 0x100 % 0x100, h.stream % 0x100]
  }

  function Serialize(f: Frame): (s: seq<byte>)
    requires f.WellFormed()
    ensures |s| == HEADER_LEN + |f.payload|
  {
    HeaderBytes(f.header) + f.payload
  }

  predicate AllWellFormed(fs: seq<Frame>) { forall i :: 0 <= i < |fs| ==> fs[i].WellFormed() }

  /** Concatenated frames. */
  function Wire(fs: seq<Frame>): (s: seq<byte>)
    requires AllWellFormed(fs)
    ensures |s| >= HEADER_LEN * |fs|
  {
    if fs == [] then [] else Wire(fs[..|fs| - 1]) + Serialize(fs[|fs| - 1])
  }

  predicate HasHeaders(fs: seq<Frame>) { exists i :: 0 <= i < |fs| && fs[i].header.typ == HEADERS }

  predicate Closed(fs: seq<Frame>) { |fs| > 0 && !LeavesOpen(fs[|fs| - 1].header) }

  /** The buffer is these frames, end to end. */
  ghost predicate Tiling(buf: seq<byte>, fs: seq<Frame>) {
    && LegalSequence(fs) && Wire(fs) == buf
    && 1 <= |fs| <= MAX_FRAMES && HasHeaders(fs) && Closed(fs)
  }

  ghost predicate IsHttp2(buf: seq<byte>) { exists fs :: Tiling(buf, fs) }

  // ------------------------------------------------------- reading a header

  function HeaderAt(d: seq<byte>): Header
    requires |d| >= HEADER_LEN
  {
    Header(Word3(d[0], d[1], d[2]), d[3], d[4], d[5] >= 0x80, Word4(d[5] % 0x80, d[6], d[7], d[8]))
  }

  function Word3(a: nat, b: nat, c: nat): nat { a * 0x1_0000 + b * 0x100 + c }
  function Word4(a: nat, b: nat, c: nat, d: nat): nat { a * 0x100_0000 + b * 0x1_0000 + c * 0x100 + d }

  lemma Digits3(v: nat)
    requires v < 0x100_0000
    ensures Word3(v / 0x1_0000, v / 0x100 % 0x100, v % 0x100) == v
  {
  }

  lemma Digits4(v: nat)
    requires v < 0x8000_0000
    ensures Word4(v / 0x100_0000, v / 0x1_0000 % 0x100, v / 0x100 % 0x100, v % 0x100) == v
  {
    var high := v / 0x100;
    var top := high / 0x100;
    assert v / 0x1_0000 == top by { DivUnique(v, 0x1_0000, top, high % 0x100 * 0x100 + v % 0x100); }
    var first := top / 0x100;
    assert v / 0x100_0000 == first by {
      DivUnique(v, 0x100_0000, first, top % 0x100 * 0x1_0000 + high % 0x100 * 0x100 + v % 0x100);
    }
  }

  lemma Bytes3(a: nat, b: nat, c: nat)
    requires a < 0x100 && b < 0x100 && c < 0x100
    ensures var v := Word3(a, b, c);
            v < 0x100_0000 && v / 0x1_0000 == a && v / 0x100 % 0x100 == b && v % 0x100 == c
  {
    var v := Word3(a, b, c);
    var hi: nat := a * 0x100 + b;
    assert v / 0x100 == hi && v % 0x100 == c by { assert v == hi * 0x100 + c; }
    assert v / 0x1_0000 == a by { assert v == a * 0x1_0000 + (b * 0x100 + c); }
  }

  lemma Bytes4(a: nat, b: nat, c: nat, d: nat)
    requires a < 0x80 && b < 0x100 && c < 0x100 && d < 0x100
    ensures var v := Word4(a, b, c, d);
            && v < 0x8000_0000 && v / 0x100_0000 == a && v / 0x1_0000 % 0x100 == b
            && v / 0x100 % 0x100 == c && v % 0x100 == d
  {
    var v := Word4(a, b, c, d);
    var top: nat := a * 0x100 + b;
    var hi: nat := top * 0x100 + c;
    assert v / 0x100 == hi && v % 0x100 == d by { assert v == hi * 0x100 + d; }
    assert v / 0x1_0000 == top by { assert v == top * 0x1_0000 + (c * 0x100 + d); }
    assert v / 0x100_0000 == a by { assert v == a * 0x100_0000 + (b * 0x1_0000 + c * 0x100 + d); }
  }

  lemma HeaderBytesRead(h: Header)
    requires h.length < 0x100_0000 && h.typ < 0x100 && h.stream < 0x8000_0000
    ensures HeaderAt(HeaderBytes(h)) == h
  {
    hide Word3, Word4;
    Digits3(h.length);
    Digits4(h.stream);
  }

  lemma HeaderBytesWritten(d: seq<byte>)
    requires |d| == HEADER_LEN
    ensures HeaderAt(d).length < 0x100_0000 && HeaderAt(d).typ < 0x100 && HeaderAt(d).stream < 0x8000_0000
    ensures HeaderBytes(HeaderAt(d)) == d
  {
    hide Word3, Word4;
    Bytes3(d[0], d[1], d[2]);
    Bytes4(d[5] % 0x80, d[6], d[7], d[8]);
  }

  /** The header a frame starts with is read back from the bytes at its position. */
  lemma HeaderPrefix(h: Header, d: seq<byte>)
    requires h.length < 0x100_0000 && h.typ < 0x100 && h.stream < 0x8000_0000
    requires HeaderBytes(h) <= d
    ensures HeaderAt(d) == h
  {
    hide HeaderBytes;
    HeaderBytesRead(h);
    assert forall i :: 0 <= i < HEADER_LEN ==> HeaderBytes(h)[i] == d[i];
  }

  /** The frame whose header and payload the bytes hold. */
  function FrameAt(d: seq<byte>): (f: Frame)
    requires |d| >= HEADER_LEN && |d| == HEADER_LEN + HeaderAt(d).length
  {
    Frame(HeaderAt(d), d[HEADER_LEN..])
  }

  lemma FrameAtSerializes(d: seq<byte>)
    requires |d| >= HEADER_LEN && |d| == HEADER_LEN + HeaderAt(d).length
    ensures FrameAt(d).WellFormed() && Serialize(FrameAt(d)) == d
  {
    hide HeaderBytes, Word3, Word4;
    HeaderBytesWritten(d[..HEADER_LEN]);
    assert HeaderAt(d) == HeaderAt(d[..HEADER_LEN]);
    assert d == d[..HEADER_LEN] + d[HEADER_LEN..];
  }

  // ------------------------------------------------------- frames on the wire

  lemma WireExtend(fs: seq<Frame>, f: Frame)
    requires AllWellFormed(fs) && f.WellFormed()
    ensures AllWellFormed(fs + [f]) && Wire(fs + [f]) == Wire(fs) + Serialize(f)
  {
    assert (fs + [f])[..|fs|] == fs;
  }

  lemma {:induction false} WirePrefix(fs: seq<Frame>, n: nat)
    requires AllWellFormed(fs) && n <= |fs|
    ensures Wire(fs[..n]) <= Wire(fs)
  {
    if n == |fs| {
      assert fs[..n] == fs;
    } else {
      var init := fs[..|fs| - 1];
      WirePrefix(init, n);
      assert init[..n] == fs[..n];
      PrefixTransitive(Wire(fs[..n]), Wire(init), Wire(fs));
    }
  }

  /** Frame `n` sits right behind the frames before it. */
  lemma NextFrame(fs: seq<Frame>, n: nat)
    requires AllWellFormed(fs) && n < |fs|
    ensures Wire(fs[..n]) + Serialize(fs[n]) <= Wire(fs)
    ensures HeaderAt(Wire(fs)[|Wire(fs[..n])|..]) == fs[n].header
    ensures Wire(fs)[|Wire(fs[..n])|..][..HEADER_LEN + fs[n].header.length] == Serialize(fs[n])
  {
    assert fs[..n + 1] == fs[..n] + [fs[n]];
    WireExtend(fs[..n], fs[n]);
    WirePrefix(fs, n + 1);
    var p, e, w := Wire(fs[..n]), Serialize(fs[n]), Wire(fs);
    ReadAfter(w, p, e);
    HeaderPrefix(fs[n].header, w[|p|..]);
  }

  // ------------------------------------------------------------- the walker

  class SniffState {
    var continuationStream: nat
    var seenHeaders: bool
    var expectContinuation: bool

    constructor ()
      ensures !seenHeaders && !expectContinuation
    {
      continuationStream, seenHeaders, expectContinuation := 0, false, false;
    }

    /** The state left by a legal sequence of frames. */
    ghost predicate After(fs: seq<Frame>)
      reads this
    {
      && seenHeaders == HasHeaders(fs)
      && expectContinuation == (|fs| > 0 && LeavesOpen(fs[|fs| - 1].header))
      && (expectContinuation ==> continuationStream == fs[|fs| - 1].header.stream)
    }

    method CheckFrame(h: Header) returns (ok: bool)
      modifies this
      ensures ok <==>
                && LegalAlone(h)
                && (if old(expectContinuation) then h.typ == CONTINUATION && h.stream == old(continuationStream)
                    else h.typ != CONTINUATION)
      ensures ok ==> seenHeaders == (old(seenHeaders) || h.typ == HEADERS) && expectContinuation == LeavesOpen(h)
      ensures ok && LeavesOpen(h) ==> continuationStream == h.stream
      ensures !ok ==> unchanged(this)
    {
      if h.length > MAX_FRAME_LEN || h.reserved {
        return false;
      }
      if expectContinuation {
        if h.typ != CONTINUATION || h.stream != continuationStream {
          return false;
        }
      } else if h.typ == CONTINUATION {
        return false;
      }
      ok := CheckType(h);
    }

    /** The switch over the frame type. */
    method CheckType(h: Header) returns (ok: bool)
      requires h.length <= MAX_FRAME_LEN && !h.reserved
      requires if expectContinuation then h.typ == CONTINUATION && h.stream == continuationStream
               else h.typ != CONTINUATION
      modifies this
      ensures ok <==> LegalAlone(h)
      ensures ok ==> seenHeaders == (old(seenHeaders) || h.typ == HEADERS) && expectContinuation == LeavesOpen(h)
      ensures ok && LeavesOpen(h) ==> continuationStream == h.stream
      ensures !ok ==> unchanged(this)
    {
      match h.typ {
        case DATA =>
          ok := Only(h.flags, END_STREAM | PADDED) && h.stream != 0 && (h.length != 0 || Has(h.flags, END_STREAM));
        case HEADERS =>
          ok := Only(h.flags, END_STREAM | END_HEADERS | PRIORITY_FLAG | PADDED) && h.stream % 2 == 1 && h.length != 0;
          if ok {
            seenHeaders := true;
            expectContinuation := !Has(h.flags, END_HEADERS);
            continuationStream := h.stream;
          }
        case PRIORITY =>
          ok := Only(h.flags, 0) && h.length == 5 && h.stream != 0;
        case RST_STREAM =>
          ok := Only(h.flags, 0) && h.length == 4 && h.stream != 0;
        case SETTINGS =>
          ok := Only(h.flags, ACK) && h.stream == 0 && h.length % 6 == 0 && !(Has(h.flags, ACK) && h.length != 0);
        case PUSH_PROMISE =>
          ok := Only(h.flags, END_HEADERS | PADDED) && h.stream != 0 && h.length >= 4;
          if ok {
            expectContinuation := !Has(h.flags, END_HEADERS);
            continuationStream := h.stream;
          }
        case PING =>
          ok := Only(h.flags, ACK) && h.stream == 0 && h.length == 8;
        case GOAWAY =>
          ok := Only(h.flags, 0) && h.stream == 0 && h.length >= 8;
        case WINDOW_UPDATE =>
          ok := Only(h.flags, 0) && h.length == 4;
        case CONTINUATION =>
          ok := Only(h.flags, END_HEADERS) && (h.length != 0 || Has(h.flags, END_HEADERS));
          if ok {
            expectContinuation := !Has(h.flags, END_HEADERS);
          }
        case _ =>
          ok := h.typ <= MAX_TYPE;
      }
    }
  }

  /** Extending a legal sequence by a frame the state admits. */
  lemma LegalExtend(fs: seq<Frame>, f: Frame)
    requires LegalSequence(fs) && f.WellFormed() && LegalAlone(f.header)
    requires if |fs| > 0 then Follows(fs[|fs| - 1].header, f.header) else f.header.typ != CONTINUATION
    ensures LegalSequence(fs + [f])
    ensures HasHeaders(fs + [f]) <==> HasHeaders(fs) || f.header.typ == HEADERS
  {
    var gs := fs + [f];
    if HasHeaders(fs) {
      var i :| 0 <= i < |fs| && fs[i].header.typ == HEADERS;
      assert gs[i].header.typ == HEADERS;
    }
    if f.header.typ == HEADERS {
      assert gs[|fs|].header.typ == HEADERS;
    }
  }

  /** What the walk has established about the first `pos` bytes. */
  ghost predicate Walked(buf: seq<byte>, pos: nat, fs: seq<Frame>) {
    && LegalSequence(fs)
    && pos <= |buf| && Wire(fs) == buf[..pos]
    && forall gs :: Tiling(buf, gs) ==> fs <= gs
  }

  /** Any tiling of the buffer continues with the frame whose header is read at `pos`. */
  lemma TilingContinues(buf: seq<byte>, pos: nat, fs: seq<Frame>, gs: seq<Frame>)
    requires Walked(buf, pos, fs) && pos < |buf| && Tiling(buf, gs)
    ensures |fs| < |gs| && pos + HEADER_LEN <= |buf|
    ensures var h := HeaderAt(buf[pos..]);
            && h == gs[|fs|].header && pos + HEADER_LEN + h.length <= |buf|
            && buf[pos..pos + HEADER_LEN + h.length] == Serialize(gs[|fs|])
    ensures LegalAlone(gs[|fs|].header)
    ensures if |fs| > 0 then Follows(fs[|fs| - 1].header, gs[|fs|].header)
            else gs[|fs|].header.typ != CONTINUATION
  {
    hide HeaderAt, Serialize, LegalAlone, Follows;
    var n := |fs|;
    assert gs[..n] == fs;
    WholeSlice(gs);
    NextFrame(gs, n);
    SliceOfSlice(buf, pos, |buf|, 0, HEADER_LEN + gs[n].header.length);
  }

  /** What the state machine asks of the next header. */
  predicate Admissible(fs: seq<Frame>, h: Header) {
    LegalAlone(h) && if |fs| > 0 then Follows(fs[|fs| - 1].header, h) else h.typ != CONTINUATION
  }

  /** Every rejection inside the walk is justified: no tiling exists. */
  lemma Rejected(buf: seq<byte>, pos: nat, fs: seq<Frame>)
    requires Walked(buf, pos, fs) && pos < |buf|
    requires || pos + HEADER_LEN > |buf|
             || !Admissible(fs, HeaderAt(buf[pos..]))
             || pos + HEADER_LEN + HeaderAt(buf[pos..]).length > |buf|
             || |fs| == MAX_FRAMES
    ensures !IsHttp2(buf)
  {
    forall gs | Tiling(buf, gs) ensures false {
      TilingContinues(buf, pos, fs, gs);
    }
  }

  lemma Advance(buf: seq<byte>, pos: nat, fs: seq<Frame>, f: Frame)
    requires Walked(buf, pos, fs) && pos < |buf| && pos + HEADER_LEN <= |buf|
    requires Admissible(fs, HeaderAt(buf[pos..])) && pos + HEADER_LEN + HeaderAt(buf[pos..]).length <= |buf|
    requires f == Frame(HeaderAt(buf[pos..]), buf[pos + HEADER_LEN..pos + HEADER_LEN + HeaderAt(buf[pos..]).length])
    ensures f.WellFormed() && Walked(buf, pos + HEADER_LEN + f.header.length, fs + [f])
  {
    hide HeaderAt, LegalAlone, Follows, HeaderBytes;
    var next := pos + HEADER_LEN + f.header.length;
    var d := buf[pos..next];
    assert HeaderAt(d) == f.header by { SameHeader(buf[pos..], d); }
    assert d[HEADER_LEN..] == f.payload;
    FrameAtSerializes(d);
    LegalExtend(fs, f);
    WireExtend(fs, f);
    SplitSlice(buf, 0, pos, next);
    forall gs | Tiling(buf, gs) ensures fs + [f] <= gs {
      TilingTakes(buf, pos, fs, f, gs);
    }
  }

  /** A frame serialised at `pos` is the next frame of every tiling. */
  lemma TilingTakes(buf: seq<byte>, pos: nat, fs: seq<Frame>, f: Frame, gs: seq<Frame>)
    requires Walked(buf, pos, fs) && pos < |buf| && Tiling(buf, gs) && f.WellFormed()
    requires pos + HEADER_LEN + f.header.length <= |buf| && f.header == HeaderAt(buf[pos..])
    requires buf[pos..pos + HEADER_LEN + f.header.length] == Serialize(f)
    ensures fs + [f] <= gs
  {
    hide HeaderAt, LegalAlone, Follows, HeaderBytes, Serialize;
    TilingContinues(buf, pos, fs, gs);
    SerializeInjective(gs[|fs|], f);
  }

  lemma SameHeader(a: seq<byte>, b: seq<byte>)
    requires |a| >= |b| >= HEADER_LEN && forall i :: 0 <= i < |b| ==> a[i] == b[i]
    ensures HeaderAt(a) == HeaderAt(b)
  {
  }

  lemma SerializeInjective(f: Frame, g: Frame)
    requires f.WellFormed() && g.WellFormed() && Serialize(f) == Serialize(g)
    ensures f == g
  {
    hide HeaderBytes;
    HeaderPrefix(f.header, Serialize(f));
    HeaderPrefix(g.header, Serialize(g));
    assert Serialize(f)[HEADER_LEN..] == f.payload && Serialize(g)[HEADER_LEN..] == g.payload;
  }

  /** Frames that already fill the buffer are its only possible tiling. */
  lemma OnlyTiling(buf: seq<byte>, fs: seq<Frame>, gs: seq<Frame>)
    requires Walked(buf, |buf|, fs) && Tiling(buf, gs)
    ensures gs == fs
  {
    assert gs[..|fs|] == fs;
    if |fs| < |gs| {
      NextFrame(gs, |fs|);
    }
  }

  lemma ShortBuffer(buf: seq<byte>)
    requires |buf| < HEADER_LEN
    ensures !IsHttp2(buf)
  {
  }

  lemma Start(buf: seq<byte>)
    ensures Walked(buf, 0, []) && !HasHeaders([])
  {
  }

  method LooksLikeHttp2Frames(buf: seq<byte>) returns (accepted: bool)
    ensures accepted <==> IsHttp2(buf)
  {
    hide LegalAlone, HeaderAt, HasHeaders, Tiling, Wire;
    if |buf| < HEADER_LEN {
      ShortBuffer(buf);
      return false;
    }
    Start(buf);
    var pos: nat, i: nat := 0, 0;
    var st := new SniffState();
    ghost var fs: seq<Frame> := [];
    while i < MAX_FRAMES && pos < |buf|
      invariant i <= MAX_FRAMES && (pos == 0 <==> i == 0)
      invariant pos <= |buf| ==> |fs| == i && Walked(buf, pos, fs) && st.After(fs)
      invariant pos > |buf| ==> !IsHttp2(buf)
    {
      if pos + HEADER_LEN > |buf| {
        Rejected(buf, pos, fs);
        return false;
      }
      var h := HeaderAt(buf[pos..]);
      var ok := st.CheckFrame(h);
      if !ok {
        Rejected(buf, pos, fs);
        return false;
      }
      if pos + HEADER_LEN + h.length <= |buf| {
        ghost var f := Frame(h, buf[pos + HEADER_LEN..pos + HEADER_LEN + h.length]);
        Advance(buf, pos, fs, f);
        LegalExtend(fs, f);
        fs := fs + [f];
      } else {
        Rejected(buf, pos, fs);
      }
      pos := pos + HEADER_LEN + h.length;
      i := i + 1;
    }
    if pos == |buf| {
      Decided(buf, fs);
    } else if pos < |buf| {
      Rejected(buf, pos, fs);
    }
    accepted := st.seenHeaders && |buf| != 0 && pos == |buf| && !st.expectContinuation;
  }

  lemma Decided(buf: seq<byte>, fs: seq<Frame>)
    requires Walked(buf, |buf|, fs) && 1 <= |fs| <= MAX_FRAMES
    ensures IsHttp2(buf) <==> HasHeaders(fs) && Closed(fs)
  {
    assert buf[..|buf|] == buf;
    if HasHeaders(fs) && Closed(fs) {
      assert Tiling(buf, fs);
    }
    forall gs | Tiling(buf, gs) ensures gs == fs {
      OnlyTiling(buf, fs, gs);
    }
  }

  // ----------------------------------------------------- what acceptance means

  lemma SameFrame(fs: seq<Frame>, gs: seq<Frame>, n: nat)
    requires AllWellFormed(fs) && AllWellFormed(gs) && n < |fs| && n < |gs|
    requires Wire(fs) == Wire(gs) && fs[..n] == gs[..n]
    ensures fs[n] == gs[n]
  {
    hide Serialize, HeaderAt;
    NextFrame(fs, n);
    NextFrame(gs, n);
    SerializeInjective(fs[n], gs[n]);
  }

  lemma {:induction false} CommonPrefix(fs: seq<Frame>, gs: seq<Frame>, n: nat)
    requires AllWellFormed(fs) && AllWellFormed(gs) && n <= |fs| && n <= |gs|
    requires Wire(fs) == Wire(gs)
    ensures fs[..n] == gs[..n]
  {
    hide Wire;
    if n > 0 {
      CommonPrefix(fs, gs, n - 1);
      SameFrame(fs, gs, n - 1);
      assert fs[..n] == fs[..n - 1] + [fs[n - 1]] && gs[..n] == gs[..n - 1] + [gs[n - 1]];
    }
  }

  /** The tiling of a buffer is unique. */
  lemma TilingUnique(buf: seq<byte>, fs: seq<Frame>, gs: seq<Frame>)
    requires Tiling(buf, fs) && Tiling(buf, gs)
    ensures fs == gs
  {
    var n := Min(|fs|, |gs|);
    CommonPrefix(fs, gs, n);
    assert (|fs| == n ==> fs[..n] == fs) && (|gs| == n ==> gs[..n] == gs);
    if |fs| > n {
      NextFrame(fs, n);
    } else if |gs| > n {
      NextFrame(gs, n);
    }
  }

  /** An opened header block runs through CONTINUATION frames of its own stream up to END_HEADERS. */
  lemma {:induction false} BlockIsContiguous(buf: seq<byte>, fs: seq<Frame>, i: nat) returns (j: nat)
    requires Tiling(buf, fs) && i < |fs| && LeavesOpen(fs[i].header)
    ensures i < j < |fs| && Has(fs[j].header.flags, END_HEADERS)
    ensures forall k :: i < k <= j ==> fs[k].header.typ == CONTINUATION && fs[k].header.stream == fs[i].header.stream
    ensures forall k :: i < k < j ==> !Has(fs[k].header.flags, END_HEADERS)
    decreases |fs| - i
  {
    hide Has, Wire, HasHeaders;
    assert Follows(fs[i].header, fs[i + 1].header);
    if LeavesOpen(fs[i + 1].header) {
      j := BlockIsContiguous(buf, fs, i + 1);
    } else {
      j := i + 1;
    }
  }
}
