/**
 Chunked capture of payloads under a byte budget (bpf/common/large_buf_emit.h and its MSSQL
 caller, bpf/generictracer/protocol_mssql.h:177-224).

 A memory read or ring write may fail; `good` is the number of chunks of an emission that
 succeed before the first failure.
 */
module LargeBuffer {
  import opened Words

  const PAYLOAD_MAX: nat := 0x4000        // one ring buffer chunk
  const PER_EMIT_MAX: nat := 0x1_0000     // one emission
  const CAPTURE_MAX: nat := 0x1_0000      // largest valid *_max_captured_bytes

  datatype Action = Init | Append

  datatype Chunk = Chunk(action: Action, bytes: seq<byte>)

  class Ring {
    var events: seq<Chunk>
  }

  /** How a payload is cut: full chunks and a remainder, only the first with the caller's action. */
  function Pieces(s: seq<byte>, action: Action): (cs: seq<Chunk>)
    ensures |cs| == ChunkCount(|s|)
    decreases |s|
  {
    if s == [] then []
    else
      var n := Min(|s|, PAYLOAD_MAX);
      [Chunk(action, s[..n])] + Pieces(s[n..], Append)
  }

  function Payload(cs: seq<Chunk>): (s: seq<byte>) {
    if cs == [] then [] else cs[0].bytes + Payload(cs[1..])
  }

  function ChunkCount(n: nat): nat { n / PAYLOAD_MAX + (if n % PAYLOAD_MAX > 0 then 1 else 0) }

  /** Where chunk `b` starts. */
  function Offset(b: nat): nat { b * PAYLOAD_MAX }

  /** Bytes delivered when the first `good` chunks succeed. */
  function Delivered(n: nat, good: nat): (d: nat)
    ensures d <= n
  {
    if good >= ChunkCount(n) then n else Offset(good)
  }

  lemma ChunkStep(n: nat)
    requires n > 0
    ensures ChunkCount(n) == 1 + ChunkCount(n - Min(n, PAYLOAD_MAX))
  {
  }

  lemma OffsetStep(b: nat)
    requires b > 0
    ensures Offset(b) == Offset(b - 1) + PAYLOAD_MAX
  {
  }

  lemma OffsetZero()
    ensures Offset(0) == 0
  {
  }

  lemma DeliveredStep(n: nat, k: nat)
    requires n > 0 && k > 0
    ensures var m := Min(n, PAYLOAD_MAX);
            Delivered(n, k) == m + Delivered(n - m, k - 1)
  {
    ChunkStep(n);
    OffsetStep(k);
    hide ChunkCount;
    if n <= PAYLOAD_MAX {
      assert ChunkCount(0) == 0 by { EmptyCount(); }
    }
  }

  lemma EmptyCount()
    ensures ChunkCount(0) == 0
  {
  }

  /** The first piece, and the pieces of what follows it. */
  lemma PieceStep(s: seq<byte>, action: Action)
    requires s != []
    ensures var n := Min(|s|, PAYLOAD_MAX);
            && Pieces(s, action) != []
            && Pieces(s, action)[0] == Chunk(action, s[..n])
            && Pieces(s, action)[1..] == Pieces(s[n..], Append)
  {
  }

  /** Piece `b` starts at its own multiple of the chunk size. */
  lemma {:induction false} PieceAt(s: seq<byte>, action: Action, b: nat)
    requires Offset(b) < |s|
    ensures b < |Pieces(s, action)|
    ensures var lo := Offset(b);
            Pieces(s, action)[b] == Chunk(if b == 0 then action else Append, s[lo..lo + Min(|s| - lo, PAYLOAD_MAX)])
    decreases |s|
  {
    PieceStep(s, action);
    hide Pieces, ChunkCount, Offset;
    assert Offset(0) == 0 by { OffsetZero(); }
    if b > 0 {
      var n := PAYLOAD_MAX;
      var lo := Offset(b - 1);
      OffsetStep(b);
      PieceAt(s[n..], Append, b - 1);
      RestSlice(s, n, lo, Min(|s| - (lo + n), n));
    }
  }

  lemma RestSlice(s: seq<byte>, n: nat, lo: nat, m: nat)
    requires n + lo + m <= |s|
    ensures s[n..][lo..lo + m] == s[lo + n..lo + n + m]
  {
  }

  /** The chunks emitted before a failure carry exactly a prefix of the payload. */
  lemma {:induction false} PayloadIsPrefix(s: seq<byte>, action: Action, k: nat)
    requires k <= |Pieces(s, action)|
    ensures Payload(Pieces(s, action)[..k]) == s[..Delivered(|s|, k)]
    decreases |s|
  {
    hide Pieces, Delivered, ChunkCount;
    if k == 0 {
      NothingDelivered(|s|, 0);
    } else {
      var n := Min(|s|, PAYLOAD_MAX);
      var cs, rest := Pieces(s, action), s[n..];
      if s == [] {
        NothingDelivered(0, 0);
      }
      PieceStep(s, action);
      PayloadIsPrefix(rest, Append, k - 1);
      DeliveredStep(|s|, k);
      assert cs[..k][1..] == cs[1..][..k - 1];
      var d := Delivered(|rest|, k - 1);
      SplitSlice(s, 0, n, n + d);
      SliceOfSlice(s, n, |s|, 0, d);
    }
  }

  /** Only the first chunk of an emission can carry the init action. */
  lemma {:induction false} InitOnlyFirst(s: seq<byte>, action: Action, b: nat)
    requires 0 < b < |Pieces(s, action)|
    ensures Pieces(s, action)[b].action == Append
    decreases |s|
  {
    var n := Min(|s|, PAYLOAD_MAX);
    if b > 1 {
      InitOnlyFirst(s[n..], Append, b - 1);
    }
  }

  method EmitChunks(ring: Ring, buf: seq<byte>, available: nat, action0: Action, good: nat) returns (consumed: nat)
    requires available <= |buf|
    modifies ring
    ensures var n := Min(available, PER_EMIT_MAX);
            && consumed == Delivered(n, good)
            && ring.events == old(ring.events) + Pieces(buf[..n], action0)[..Min(good, ChunkCount(n))]
  {
    var remaining := Min(available, PER_EMIT_MAX);
    ghost var n := remaining;
    ghost var cs := Pieces(buf[..n], action0);
    var count := ChunkCount(remaining);
    consumed := 0;
    var action := action0;
    var b := 0;
    while b < count
      invariant 0 <= b <= count == |cs| && b <= good
      invariant consumed == Min(n, Offset(b)) && remaining == n - consumed
      invariant b < count ==> consumed == Offset(b)
      invariant action == if b == 0 then action0 else Append
      invariant ring.events == old(ring.events) + cs[..b]
    {
      var offset := Offset(b);
      var readSize := Min(remaining, PAYLOAD_MAX);
      if b >= good {
        break;
      }
      PieceAt(buf[..n], action0, b);
      ring.events := ring.events + [Chunk(action, buf[offset..offset + readSize])];
      assert cs[..b + 1] == cs[..b] + [cs[b]];
      assert cs[b] == Chunk(action, buf[offset..offset + readSize]) by {
        SliceOfSlice(buf, 0, n, offset, offset + readSize);
      }
      remaining := remaining - readSize;
      consumed := consumed + readSize;
      action := Append;
      b := b + 1;
    }
  }

  // ------------------------------------------------------- the byte budget

  /** Bytes of a buffer that one emission may still carry. */
  function Budget(sent: nat, cap: nat, len: nat): (n: nat)
    ensures n <= len && (sent <= cap ==> sent + n <= cap)
  {
    if sent < cap then Min(len, Min(cap - sent, CAPTURE_MAX)) else 0
  }

  /** The chunks one call puts on the ring. */
  function Emission(sent: nat, cap: nat, buf: seq<byte>, action: Action, good: nat): (cs: seq<Chunk>) {
    var n := Budget(sent, cap, |buf|);
    Pieces(buf[..n], action)[..Min(good, ChunkCount(n))]
  }

  /** Each emission carries a prefix of its buffer, with init at most on its first chunk. */
  lemma EmissionIsPrefix(sent: nat, cap: nat, buf: seq<byte>, action: Action, good: nat)
    ensures var cs := Emission(sent, cap, buf, action, good);
            && Payload(cs) == buf[..Delivered(Budget(sent, cap, |buf|), good)]
            && forall b :: 0 < b < |cs| ==> cs[b].action == Append
  {
    var n := Budget(sent, cap, |buf|);
    var s := buf[..n];
    var k := Min(good, ChunkCount(n));
    PayloadIsPrefix(s, action, k);
    assert Delivered(n, k) == Delivered(n, good);
    assert s[..Delivered(n, good)] == buf[..Delivered(n, good)];
    forall b | 0 < b < k ensures Pieces(s, action)[b].action == Append {
      InitOnlyFirst(s, action, b);
    }
  }

  class TcpReq {
    var lbReqBytes: nat
    var lbResBytes: nat
    var hasLargeBuffers: bool
    var endMonotime: nat

    function Sent(isRequest: bool): nat
      reads this
    {
      if isRequest then lbReqBytes else lbResBytes
    }
  }

  lemma NothingDelivered(n: nat, good: nat)
    ensures Delivered(n, 0) == 0
    ensures n == 0 ==> Delivered(n, good) == 0 && ChunkCount(n) == 0
  {
  }

  /** `scratch` is whether the per-CPU scratch buffer was available. */
  method MssqlSendLargeBuffer(req: TcpReq, ring: Ring, buf: seq<byte>, isRequest: bool, action: Action,
                              cap: u32, scratch: bool, good: nat)
    modifies req`lbReqBytes, req`lbResBytes, req`hasLargeBuffers, ring
    ensures var sent, good' := old(req.Sent(isRequest)), if scratch then good else 0;
            && Side(req.Sent(isRequest), ring.events) ==
               SideStep(Side(sent, old(ring.events)), cap, Buffer(buf, action, good'))
            && req.Sent(!isRequest) == old(req.Sent(!isRequest))
            && req.hasLargeBuffers == (old(req.hasLargeBuffers) || req.Sent(isRequest) > sent)
  {
    NothingDelivered(Budget(req.Sent(isRequest), cap, |buf|), good);
    hide Pieces, ChunkCount, Delivered;
    var bytesSent := if isRequest then req.lbReqBytes else req.lbResBytes;
    if cap > 0 && bytesSent < cap && |buf| > 0 {
      if !scratch {
        return;
      }
      var maxAvailable := cap - bytesSent;
      maxAvailable := Min(maxAvailable, CAPTURE_MAX);
      var available := Min(|buf|, maxAvailable);
      var consumed := EmitChunks(ring, buf, available, action, good);
      if isRequest {
        req.lbReqBytes := req.lbReqBytes + consumed;
      } else {
        req.lbResBytes := req.lbResBytes + consumed;
      }
      if consumed > 0 {
        req.hasLargeBuffers := true;
      }
    }
  }

  // ------------------------------------------------------------ whole streams

  /** One direction of a connection: its counter and the chunks put on the ring for it. */
  datatype Side = Side(sent: nat, events: seq<Chunk>)

  /** A captured buffer; `good` of its chunks succeed. */
  datatype Buffer = Buffer(bytes: seq<byte>, action: Action, good: nat)

  function SideStep(s: Side, cap: nat, b: Buffer): Side {
    Side(s.sent + Delivered(Budget(s.sent, cap, |b.bytes|), b.good),
         s.events + Emission(s.sent, cap, b.bytes, b.action, b.good))
  }

  function SideRun(cap: nat, bufs: seq<Buffer>): Side {
    if bufs == [] then Side(0, []) else SideStep(SideRun(cap, bufs[..|bufs| - 1]), cap, bufs[|bufs| - 1])
  }

  function Input(bufs: seq<Buffer>): seq<byte> {
    if bufs == [] then [] else Input(bufs[..|bufs| - 1]) + bufs[|bufs| - 1].bytes
  }

  lemma PayloadStep(c: Chunk, cs: seq<Chunk>)
    ensures Payload([c] + cs) == c.bytes + Payload(cs)
  {
    assert ([c] + cs)[1..] == cs;
  }

  lemma {:induction false} PayloadJoins(xs: seq<Chunk>, ys: seq<Chunk>)
    ensures Payload(xs + ys) == Payload(xs) + Payload(ys)
  {
    hide Payload;
    if xs == [] {
      EmptyPayload();
      assert xs + ys == ys;
    } else {
      var c, rest := xs[0], xs[1..];
      PayloadJoins(rest, ys);
      PayloadStep(c, rest);
      PayloadStep(c, rest + ys);
      assert xs == [c] + rest && xs + ys == [c] + (rest + ys);
      JoinAssociates(c.bytes, Payload(rest), Payload(ys));
    }
  }

  lemma JoinAssociates(a: seq<byte>, b: seq<byte>, c: seq<byte>)
    ensures a + (b + c) == a + b + c
  {
  }

  /** What one buffer adds to the bytes on the ring, and to the counter. */
  lemma StepPayload(s: Side, cap: nat, b: Buffer)
    ensures var d := Delivered(Budget(s.sent, cap, |b.bytes|), b.good);
            Payload(SideStep(s, cap, b).events) == Payload(s.events) + b.bytes[..d]
  {
    EmissionIsPrefix(s.sent, cap, b.bytes, b.action, b.good);
    PayloadJoins(s.events, Emission(s.sent, cap, b.bytes, b.action, b.good));
  }

  /** Whatever fails, the counter is the number of bytes on the ring and never exceeds the cap. */
  lemma {:induction false} CounterIsEmitted(cap: nat, bufs: seq<Buffer>)
    ensures SideRun(cap, bufs).sent == |Payload(SideRun(cap, bufs).events)| <= cap
  {
    if bufs != [] {
      var n := |bufs| - 1;
      CounterIsEmitted(cap, bufs[..n]);
      StepPayload(SideRun(cap, bufs[..n]), cap, bufs[n]);
    }
  }

  /** The chunks of a run whose buffers after the first only append start at most one capture. */
  lemma {:induction false} OneCapture(cap: nat, bufs: seq<Buffer>)
    requires forall i :: 0 < i < |bufs| ==> bufs[i].action == Append
    ensures forall k :: 0 < k < |SideRun(cap, bufs).events| ==> SideRun(cap, bufs).events[k].action == Append
    ensures bufs != [] && bufs[0].action == Append ==>
              forall k :: 0 <= k < |SideRun(cap, bufs).events| ==> SideRun(cap, bufs).events[k].action == Append
  {
    if bufs != [] {
      var n := |bufs| - 1;
      var s, b := SideRun(cap, bufs[..n]), bufs[n];
      OneCapture(cap, bufs[..n]);
      EmissionActions(s.sent, cap, b);
      if n == 0 {
        assert s.events == [];
      }
    }
  }

  lemma EmissionActions(sent: nat, cap: nat, b: Buffer)
    ensures var cs := Emission(sent, cap, b.bytes, b.action, b.good);
            forall k :: 0 <= k < |cs| ==> cs[k].action == if k == 0 then b.action else Append
  {
    var cs := Emission(sent, cap, b.bytes, b.action, b.good);
    EmissionIsPrefix(sent, cap, b.bytes, b.action, b.good);
    if cs != [] {
      PieceStep(b.bytes[..Budget(sent, cap, |b.bytes|)], b.action);
    }
  }

  ghost predicate NoFailure(bufs: seq<Buffer>) {
    forall i :: 0 <= i < |bufs| ==> bufs[i].good >= ChunkCount(|bufs[i].bytes|)
  }

  lemma CountMonotone(m: nat, n: nat)
    requires m <= n
    ensures ChunkCount(m) <= ChunkCount(n)
  {
  }

  /** The bytes on the ring are the input stream cut at the cap. */
  ghost predicate Capped(cap: nat, bufs: seq<Buffer>) {
    Payload(SideRun(cap, bufs).events) == Input(bufs)[..Min(|Input(bufs)|, cap)]
  }

  lemma {:induction false} StreamIsCapped(cap: nat, bufs: seq<Buffer>)
    requires cap <= CAPTURE_MAX && NoFailure(bufs)
    ensures Capped(cap, bufs)
  {
    hide Emission, Payload, ChunkCount;
    if bufs != [] {
      var n := |bufs| - 1;
      var init, b, s := bufs[..n], bufs[n], SideRun(cap, bufs[..n]);
      StreamIsCapped(cap, init);
      CounterIsEmitted(cap, init);
      StepPayload(s, cap, b);
      CountMonotone(Budget(s.sent, cap, |b.bytes|), |b.bytes|);
      ExtendCapped(Input(init), b.bytes, cap);
    } else {
      EmptyPayload();
    }
  }

  lemma EmptyPayload()
    ensures Payload([]) == []
  {
  }

  lemma ExtendCapped(x: seq<byte>, y: seq<byte>, cap: nat)
    ensures var m := Min(|x|, cap);
            x[..m] + y[..Min(|y|, cap - m)] == (x + y)[..Min(|x + y|, cap)]
  {
  }

  /** A cap above the valid maximum loses bytes: one long buffer is cut at the maximum, not at the cap. */
  lemma OversizedCapLoses(cap: nat, b: Buffer)
    requires cap > CAPTURE_MAX && |b.bytes| > CAPTURE_MAX && NoFailure([b])
    ensures |Payload(SideRun(cap, [b]).events)| == CAPTURE_MAX && !Capped(cap, [b])
  {
    hide Emission, Payload, ChunkCount;
    assert [b][..0] == [];
    EmptyPayload();
    StepPayload(Side(0, []), cap, b);
    assert SideRun(cap, [b]) == SideStep(Side(0, []), cap, b);
    assert [b][0].good >= ChunkCount(|b.bytes|);
    CountMonotone(CAPTURE_MAX, |b.bytes|);
    assert Input([b]) == b.bytes;
  }

  /** Exactly the valid caps cut every failure-free stream at the cap. */
  lemma CapsIffValid(cap: nat)
    ensures (forall bufs: seq<Buffer> :: NoFailure(bufs) ==> Capped(cap, bufs)) <==> cap <= CAPTURE_MAX
  {
    if cap <= CAPTURE_MAX {
      forall bufs: seq<Buffer> | NoFailure(bufs) ensures Capped(cap, bufs) {
        StreamIsCapped(cap, bufs);
      }
    } else {
      var bytes := Repeat(0, CAPTURE_MAX + 1);
      var b := Buffer(bytes, Init, ChunkCount(|bytes|));
      assert NoFailure([b]);
      OversizedCapLoses(cap, b);
    }
  }
}
