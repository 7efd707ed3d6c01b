/**
 Reassembling a split Aerospike response before its span is emitted
 (bpf/generictracer/protocol_aerospike.h:42-45,98-210).
 */
module Aerospike {
  import opened Words
  import opened LargeBuffer

  const HEADER_LEN: nat := 8
  const VERSION: byte := 2

  /** What the caller does next: hold the span back, or go on. */
  datatype Verdict = Wait | Continue

  /** Big-endian body length in octets 2 to 7 of the proto header. */
  function BodyLen(hdr: seq<byte>): (n: nat)
    requires |hdr| >= HEADER_LEN
  {
    var b2: nat, b3: nat, b4: nat, b5: nat, b6: nat, b7: nat := hdr[2], hdr[3], hdr[4], hdr[5], hdr[6], hdr[7];
    b2 * 0x100_0000_0000 + b3 * 0x1_0000_0000 + b4 * 0x100_0000 + b5 * 0x1_0000 + b6 * 0x100 + b7
  }

  /** Captured bytes, wire bytes of the first frame still missing, and the verdict. */
  datatype Response = Response(sent: nat, remaining: Option<int>, verdict: Verdict)

  /** Wire bytes missing before this chunk; none when the chunk cannot be placed or its header not read. */
  function Missing(r: Response, chunk: seq<byte>, readable: bool): Option<int> {
    if r.sent != 0 then r.remaining
    else if |chunk| < HEADER_LEN || !readable || chunk[0] != VERSION then None
    else Some(HEADER_LEN + BodyLen(chunk))
  }

  /** One chunk of a response whose span is not out yet; `good` chunks of its capture succeed. */
  function ResponseStep(r: Response, cap: nat, chunk: seq<byte>, readable: bool, good: nat): Response {
    var missing := Missing(r, chunk, readable);
    if cap == 0 || chunk == [] || missing.None? then r.(verdict := Continue)
    else
      var sent := r.sent + Delivered(Budget(r.sent, cap, |chunk|), good);
      var left := missing.value - |chunk|;
      if left > 0 && sent < cap then Response(sent, Some(left), Wait) else Response(sent, None, Continue)
  }

  /** What that chunk puts on the ring. */
  function Captured(r: Response, cap: nat, chunk: seq<byte>, readable: bool, action: Action, good: nat): seq<Chunk> {
    if cap == 0 || chunk == [] || Missing(r, chunk, readable).None? then []
    else Emission(r.sent, cap, chunk, action, good)
  }

  class Tracer {
    /** aerospike_state: bytes of the first response frame not yet seen, per connection. */
    var state: map<nat, int>

    function Remaining(conn: nat): Option<int>
      reads this
    {
      if conn in state then Some(state[conn]) else None
    }

    /** Captures what the budget allows and adds it to one side's counter. */
    method EmitSide(req: TcpReq, ring: Ring, buf: seq<byte>, isRequest: bool, action: Action,
                    cap: u32, scratch: bool, good: nat)
      requires req.Sent(isRequest) <= cap
      modifies req`lbReqBytes, req`lbResBytes, req`hasLargeBuffers, ring
      ensures var sent, good' := old(req.Sent(isRequest)), if scratch then good else 0;
              && req.Sent(isRequest) == sent + Delivered(Budget(sent, cap, |buf|), good')
              && req.Sent(!isRequest) == old(req.Sent(!isRequest))
              && ring.events == old(ring.events) + Emission(sent, cap, buf, action, good')
              && req.hasLargeBuffers == (old(req.hasLargeBuffers) || req.Sent(isRequest) > sent)
    {
      NothingDelivered(Budget(req.Sent(isRequest), cap, |buf|), good);
      hide Pieces, ChunkCount, Delivered;
      if !scratch {
        return;
      }
      var sent := if isRequest then req.lbReqBytes else req.lbResBytes;
      var available := Min(|buf|, Min(cap - sent, CAPTURE_MAX));
      var consumed := EmitChunks(ring, buf, available, action, good);
      if isRequest {
        req.lbReqBytes := req.lbReqBytes + consumed;
      } else {
        req.lbResBytes := req.lbResBytes + consumed;
      }
      if consumed > 0 {
        req.hasLargeBuffers := true;
      }
    }

    method SendResponse(req: TcpReq, ring: Ring, conn: nat, buf: seq<byte>, action: Action,
                        cap: u32, readable: bool, scratch: bool, good: nat) returns (v: Verdict)
      requires req.lbResBytes <= cap && req.endMonotime == 0
      modifies this, req`lbReqBytes, req`lbResBytes, req`hasLargeBuffers, ring
      ensures Response(req.lbResBytes, Remaining(conn), v) ==
              ResponseStep(Response(old(req.lbResBytes), old(Remaining(conn)), Wait), cap, buf, readable,
                           if scratch then good else 0)
      ensures forall other :: other != conn ==> Remaining(other) == old(Remaining(other))
      ensures req.lbReqBytes == old(req.lbReqBytes)
      ensures ring.events == old(ring.events) +
                             Captured(Response(old(req.lbResBytes), old(Remaining(conn)), Wait), cap, buf, readable, action,
                                      if scratch then good else 0)
      ensures req.hasLargeBuffers == (old(req.hasLargeBuffers) || req.lbResBytes > old(req.lbResBytes))
    {
      hide Delivered, Budget, BodyLen, Emission;
      if cap == 0 || |buf| == 0 {
        return Continue;
      }
      var remaining := 0;
      if req.lbResBytes == 0 {
        if |buf| < HEADER_LEN {
          return Continue;
        }
        if !readable {
          return Continue;
        }
        if buf[0] != VERSION {
          return Continue;
        }
        remaining := HEADER_LEN + BodyLen(buf);
      } else {
        if conn !in state {
          return Continue;
        }
        remaining := state[conn];
      }
      assert req.Sent(false) == req.lbResBytes;
      EmitSide(req, ring, buf, false, action, cap, scratch, good);
      assert req.Sent(false) == req.lbResBytes && req.Sent(true) == req.lbReqBytes;
      remaining := remaining - |buf|;
      if remaining > 0 && req.lbResBytes < cap {
        state := state[conn := remaining];
        return Wait;
      }
      state := state - {conn};
      return Continue;
    }

    method SendLargeBuffer(req: TcpReq, ring: Ring, conn: nat, buf: seq<byte>, isRequest: bool, action: Action,
                           cap: u32, readable: bool, scratch: bool, good: nat) returns (v: Verdict)
      requires req.lbReqBytes <= cap && req.lbResBytes <= cap
      modifies this, req`lbReqBytes, req`lbResBytes, req`hasLargeBuffers, ring
      ensures req.lbReqBytes <= cap && req.lbResBytes <= cap
      ensures isRequest || req.endMonotime != 0 ==> v == Continue && req.lbResBytes == old(req.lbResBytes) && state == old(state)
      ensures isRequest ==>
                req.lbReqBytes == old(req.lbReqBytes) +
                                  Delivered(Budget(old(req.lbReqBytes), cap, |buf|), if scratch then good else 0)
      ensures !isRequest && req.endMonotime == 0 ==>
                Response(req.lbResBytes, Remaining(conn), v) ==
                ResponseStep(Response(old(req.lbResBytes), old(Remaining(conn)), Wait), cap, buf, readable,
                             if scratch then good else 0)
      ensures ring.events == old(ring.events) +
                             (if isRequest then
                                Emission(old(req.lbReqBytes), cap, buf, action, if scratch then good else 0)
                              else if req.endMonotime != 0 then []
                              else Captured(Response(old(req.lbResBytes), old(Remaining(conn)), Wait), cap, buf, readable, action,
                                            if scratch then good else 0))
    {
      if isRequest {
        if cap == 0 || |buf| == 0 || req.lbReqBytes >= cap {
          return Continue;
        }
        assert req.Sent(true) == req.lbReqBytes && req.Sent(false) == req.lbResBytes;
        EmitSide(req, ring, buf, true, action, cap, scratch, good);
        assert req.Sent(true) == req.lbReqBytes && req.Sent(false) == req.lbResBytes;
        return Continue;
      }
      if req.endMonotime != 0 {
        return Continue;
      }
      v := SendResponse(req, ring, conn, buf, action, cap, readable, scratch, good);
    }
  }

  // --------------------------------------------------------- any split response

  function ResponseRun(cap: nat, chunks: seq<Buffer>): Response {
    if chunks == [] then Response(0, None, Wait)
    else
      var n := |chunks| - 1;
      ResponseStep(ResponseRun(cap, chunks[..n]), cap, chunks[n].bytes, true, chunks[n].good)
  }

  /** Everything the run puts on the ring. */
  function RunEvents(cap: nat, chunks: seq<Buffer>): seq<Chunk> {
    if chunks == [] then []
    else
      var n := |chunks| - 1;
      RunEvents(cap, chunks[..n]) +
      Captured(ResponseRun(cap, chunks[..n]), cap, chunks[n].bytes, true, chunks[n].action, chunks[n].good)
  }

  /** A response cut into nonempty chunks, the first holding the proto header. */
  ghost predicate Split(chunks: seq<Buffer>) {
    && |chunks| > 0 && |chunks[0].bytes| >= HEADER_LEN && chunks[0].bytes[0] == VERSION
    && (forall i :: 0 <= i < |chunks| ==> chunks[i].bytes != [])
    && NoFailure(chunks)
  }

  /** How much must be seen before the span goes out: the whole first frame, or the capture cap. */
  function Goal(cap: nat, chunks: seq<Buffer>): nat
    requires |chunks| > 0 && |chunks[0].bytes| >= HEADER_LEN
  {
    Min(HEADER_LEN + BodyLen(chunks[0].bytes), cap)
  }

  lemma FullDelivery(sent: nat, cap: nat, b: Buffer)
    requires sent <= cap <= CAPTURE_MAX && b.good >= ChunkCount(|b.bytes|)
    ensures sent + Delivered(Budget(sent, cap, |b.bytes|), b.good) == Min(sent + |b.bytes|, cap)
  {
    CountMonotone(Budget(sent, cap, |b.bytes|), |b.bytes|);
  }

  /**
   Reassembly does not depend on chunk boundaries: as long as the bytes before the last chunk fall
   short of the goal, the verdict on the last chunk is to wait exactly when all bytes still do.
   */
  lemma {:induction false} WaitsExactlyUntilGoal(cap: nat, chunks: seq<Buffer>)
    requires 0 < cap <= CAPTURE_MAX && Split(chunks)
    requires |Input(chunks[..|chunks| - 1])| < Goal(cap, chunks)
    ensures var r, total := ResponseRun(cap, chunks), |Input(chunks)|;
            && (r.verdict == Wait <==> total < Goal(cap, chunks))
            && r.sent == Min(total, cap)
            && (r.verdict == Wait ==> r.remaining == Some(HEADER_LEN + BodyLen(chunks[0].bytes) - total))
  {
    hide BodyLen, Delivered, Budget, ChunkCount;
    var n := |chunks| - 1;
    var init, last := chunks[..n], chunks[n];
    if n == 0 {
      assert init == [];
      FullDelivery(0, cap, last);
    } else {
      assert init[0] == chunks[0];
      assert forall i :: 0 <= i < n ==> init[i] == chunks[i];
      InputGrows(init);
      WaitsExactlyUntilGoal(cap, init);
      FullDelivery(ResponseRun(cap, init).sent, cap, last);
      FirstIsInput(init);
    }
  }

  /** Until the verdict to go on, the ring holds the response as it arrived, cut at the cap. */
  lemma {:induction false} CapturesResponse(cap: nat, chunks: seq<Buffer>)
    requires 0 < cap <= CAPTURE_MAX && Split(chunks)
    requires |Input(chunks[..|chunks| - 1])| < Goal(cap, chunks)
    ensures Payload(RunEvents(cap, chunks)) == Input(chunks)[..Min(|Input(chunks)|, cap)]
  {
    hide BodyLen, Delivered, Emission, ChunkCount, Payload;
    var n := |chunks| - 1;
    var init, last := chunks[..n], chunks[n];
    var r := ResponseRun(cap, init);
    EmissionIsPrefix(r.sent, cap, last.bytes, last.action, last.good);
    PayloadJoins(RunEvents(cap, init), Emission(r.sent, cap, last.bytes, last.action, last.good));
    ExtendCapped(Input(init), last.bytes, cap);
    if n == 0 {
      assert init == [];
      EmptyPayload();
      FullDelivery(0, cap, last);
    } else {
      assert init[0] == chunks[0];
      assert forall i :: 0 <= i < n ==> init[i] == chunks[i];
      InputGrows(init);
      WaitsExactlyUntilGoal(cap, init);
      CapturesResponse(cap, init);
      FullDelivery(r.sent, cap, last);
      FirstIsInput(init);
    }
  }

  lemma InputGrows(chunks: seq<Buffer>)
    requires chunks != []
    ensures |Input(chunks[..|chunks| - 1])| <= |Input(chunks)|
  {
  }

  lemma {:induction false} FirstIsInput(chunks: seq<Buffer>)
    requires chunks != []
    ensures |Input(chunks)| >= |chunks[0].bytes|
  {
    if |chunks| > 1 {
      FirstIsInput(chunks[..|chunks| - 1]);
    } else {
      assert chunks[..0] == [];
    }
  }

  lemma {:induction false} FirstStartsInput(chunks: seq<Buffer>)
    requires chunks != []
    ensures chunks[0].bytes <= Input(chunks)
  {
    if |chunks| > 1 {
      var init := chunks[..|chunks| - 1];
      FirstStartsInput(init);
      PrefixTransitive(chunks[0].bytes, Input(init), Input(chunks));
    } else {
      assert chunks[..0] == [];
    }
  }

  lemma SameHeader(x: seq<byte>, y: seq<byte>, s: seq<byte>)
    requires x <= s && y <= s && |x| >= HEADER_LEN && |y| >= HEADER_LEN
    ensures BodyLen(x) == BodyLen(y)
  {
    assert forall i :: 0 <= i < HEADER_LEN ==> x[i] == s[i] == y[i];
  }

  /** Two ways of cutting the same bytes end in the same verdict and the same captured length. */
  lemma SplitIndependent(cap: nat, xs: seq<Buffer>, ys: seq<Buffer>)
    requires 0 < cap <= CAPTURE_MAX && Split(xs) && Split(ys) && Input(xs) == Input(ys)
    requires |Input(xs[..|xs| - 1])| < Goal(cap, xs) && |Input(ys[..|ys| - 1])| < Goal(cap, ys)
    ensures ResponseRun(cap, xs) == ResponseRun(cap, ys)
  {
    hide BodyLen, Input, ResponseRun;
    FirstStartsInput(xs);
    FirstStartsInput(ys);
    SameHeader(xs[0].bytes, ys[0].bytes, Input(xs));
    WaitsExactlyUntilGoal(cap, xs);
    WaitsExactlyUntilGoal(cap, ys);
    ContinueClears(cap, xs);
    ContinueClears(cap, ys);
  }

  /** Below the goal nothing is dropped, so going on always clears the pending entry. */
  lemma ContinueClears(cap: nat, chunks: seq<Buffer>)
    requires 0 < cap <= CAPTURE_MAX && Split(chunks)
    requires |Input(chunks[..|chunks| - 1])| < Goal(cap, chunks)
    ensures ResponseRun(cap, chunks).verdict == Continue ==> ResponseRun(cap, chunks).remaining.None?
  {
    hide BodyLen, Delivered, Budget, ChunkCount;
    var n := |chunks| - 1;
    var init := chunks[..n];
    if n > 0 {
      assert init[0] == chunks[0];
      assert forall i :: 0 <= i < n ==> init[i] == chunks[i];
      InputGrows(init);
      WaitsExactlyUntilGoal(cap, init);
    }
  }
}
