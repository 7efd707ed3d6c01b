/**
 The life of one HTTP/1 record, from its request to its single write to the ring
 (bpf/common/http_info.h, bpf/generictracer/http_event.h, bpf/generictracer/protocol_http.h and
 the large-request branch of bpf/generictracer/protocol_handler.c): what every run keeps, and into
 which length, if any, each byte goes.
 */
module HttpRecord {
  import opened Words

  const MAX_HTTP_STATUS: nat := 599
  const FIN_TOLERANCE: nat := 1
  const U32: nat := 0x1_0000_0000
  const IMMEDIATE_EPOCH: nat := 100_000_000    // nanoseconds in which a request may be seen twice

  /** A clock reading. */
  type pos = x: nat | x > 0 witness 1

  datatype Kind = Server | Client
  datatype Direction = Inbound | Outbound

  /** How much of the response was seen. */
  datatype Observation = Parsed | Received | Silent | Unread

  datatype Record = Record(kind: Kind, ssl: bool, start: nat, end: nat, len: u32, respLen: u32, status: nat,
                           delayed: bool, submitted: bool, observation: Observation,
                           hostPid: nat, responseBytesAtRequest: nat)

  /** A freshly zeroed record. */
  const EMPTY: Record := Record(Server, false, 0, 0, 0, 0, 0, false, false, Parsed, 0, 0)

  predicate Fresh(r: Record) { r.status == 0 && r.start == 0 }
  predicate StillResponding(r: Record) { r.status != 0 }
  predicate StillReading(r: Record) { r.status == 0 && r.observation == Parsed && r.start != 0 }
  predicate ResponseUnread(r: Record) { r.status == 0 && r.observation == Unread }
  predicate Complete(r: Record) { r.start != 0 && r.status != 0 && r.hostPid != 0 }

  predicate Emittable(r: Record) {
    Complete(r) || (r.observation != Parsed && r.start != 0 && r.hostPid != 0)
  }

  predicate ResponseDirection(kind: Kind, d: Direction) {
    if kind == Client then d == Inbound else d == Outbound
  }

  predicate UnparsedResponse(r: Record, d: Direction) {
    !StillResponding(r) && (StillReading(r) || ResponseUnread(r)) && ResponseDirection(r.kind, d)
  }

  function Add32(x: u32, n: nat): u32 { (x + n) % U32 }

  /** Interim and impossible statuses are treated as no status yet. */
  function AcceptedStatus(status: nat): nat {
    if status == 100 || status == 103 || status > MAX_HTTP_STATUS then 0 else status
  }

  /** The peer sent payload since the request; a FIN alone advances the socket counter by one. */
  predicate BytesAdvanced(atRequest: nat, now: nat) { now > atRequest && now - atRequest > FIN_TOLERANCE }

  function ObservationAtClose(atRequest: nat, atClose: nat): Observation {
    if BytesAdvanced(atRequest, atClose) then Received else Silent
  }

  /** A request of this kind seen now is the one already recorded, seen a second time. */
  predicate Duplicate(r: Record, kind: Kind, responseBytes: nat, now: nat) {
    && r.kind == kind && StillReading(r) && !BytesAdvanced(r.responseBytesAtRequest, responseBytes)
    && now >= r.start && now / IMMEDIATE_EPOCH == r.start / IMMEDIATE_EPOCH
  }

  // --------------------------------------------------------- what happens to it

  datatype Op =
    | Request(kind: Kind, ssl: bool, start: pos, hostPid: nat, bytes: nat, atRequest: nat)
    | Response(direction: Direction, status: nat, bytes: nat, goroutine: bool, highVolume: bool)
    | Feed(direction: Direction, bytes: nat, ssl: bool)     // a buffer no parser recognised
    | Sent(bytes: nat)                                      // a send on the connection returned
    | NextRequest(kind: Kind, responseBytes: nat)           // another request on the connection
    | Finish                                                // a small send or a turn of direction
    | Close(atClose: nat, highVolume: bool)                 // the socket is torn down

  /** `wrote` is whether a ring write attempted at this event succeeds. */
  datatype Event = Event(at: nat, op: Op, wrote: bool)

  /** The record and everything written to the ring for it. */
  datatype System = System(rec: Record, ring: seq<Record>)

  function Submit(s: System, wrote: bool): System {
    if !Emittable(s.rec) || s.rec.submitted then s
    else
      var r := s.rec.(submitted := true);
      System(r, if wrote then s.ring + [r] else s.ring)
  }

  function AfterRequest(r: Record, op: Op): Record
    requires op.Request?
  {
    r.(kind := op.kind, ssl := op.ssl, start := op.start, hostPid := op.hostPid, status := 0, submitted := false,
       observation := Parsed, responseBytesAtRequest := op.atRequest, len := Add32(0, op.bytes))
  }

  function AfterResponse(r: Record, status: nat, now: nat): Record {
    r.(respLen := 0, end := now, observation := Parsed, status := AcceptedStatus(status))
  }

  /** The handler ignores submitted records, and plain buffers of an encrypted request. */
  predicate Heard(r: Record, ssl: bool) { !r.submitted && (r.ssl ==> ssl) }

  function AfterFeed(r: Record, d: Direction, bytes: nat, ssl: bool, now: nat): Record {
    if !Heard(r, ssl) then r
    else if UnparsedResponse(r, d) then
      r.(observation := Unread, end := now, respLen := Add32(r.respLen, bytes))
    else if StillReading(r) then r.(len := Add32(r.len, bytes))
    else if StillResponding(r) then r.(end := now, respLen := Add32(r.respLen, bytes))
    else r
  }

  function AfterDisplace(r: Record, now: nat): Record {
    if StillReading(r) then r.(respLen := 0, end := now, observation := Received) else r
  }

  function AfterClose(r: Record, now: nat, atClose: nat, highVolume: bool): Record {
    if !highVolume && !Complete(r) && r.observation == Parsed
    then r.(respLen := 0, end := now, observation := ObservationAtClose(r.responseBytesAtRequest, atClose)) else r
  }

  /** A parsed response either finishes the record at once or leaves it delayed for more bytes. */
  function Respond(s: System, status: nat, now: nat, goroutine: bool, highVolume: bool, wrote: bool): System {
    var r := AfterResponse(s.rec, status, now);
    var finishNow := highVolume && !r.ssl;
    if goroutine || (finishNow && r.kind == Client) then Submit(s.(rec := r), wrote)
    else
      var held := s.(rec := r.(delayed := true));
      if finishNow then Submit(held, wrote) else held
  }

  function Step(s: System, e: Event): System {
    var r := s.rec;
    match e.op
    case Request(_, _, _, _, _, _) =>
      if Fresh(r) then s.(rec := AfterRequest(r, e.op))
      else if StillReading(r) then s.(rec := r.(len := Add32(r.len, e.op.bytes)))
      else if StillResponding(r) then s.(rec := r.(end := e.at, respLen := Add32(r.respLen, e.op.bytes)))
      else s
    case Response(_, status, bytes, goroutine, highVolume) =>
      if r.status == 0 then Respond(s, status, e.at, goroutine, highVolume, e.wrote)
      else s.(rec := r.(end := e.at, respLen := Add32(r.respLen, bytes)))
    case Feed(d, bytes, ssl) => s.(rec := AfterFeed(r, d, bytes, ssl, e.at))
    case Sent(bytes) => s.(rec := r.(respLen := Add32(r.respLen, bytes)))
    case NextRequest(kind, responseBytes) =>
      if r.submitted then s
      else if Complete(r) then Submit(s, e.wrote)
      else if Duplicate(r, kind, responseBytes, e.at) then s
      else Submit(s.(rec := AfterDisplace(r, e.at)), e.wrote)
    case Finish => if r.delayed then Submit(s, e.wrote) else s
    case Close(atClose, highVolume) =>
      if r.delayed then Submit(s, e.wrote)
      else if r.submitted then s
      else Submit(s.(rec := AfterClose(r, e.at, atClose, highVolume)), e.wrote)
  }

  function Run(es: seq<Event>): System {
    if es == [] then System(EMPTY, []) else Step(Run(es[..|es| - 1]), es[|es| - 1])
  }

  // ---------------------------------------------------------- the code in place

  class Ring {
    var written: seq<Record>

    /** events_ringbuf_output, which may fail. */
    method Output(r: Record, wrote: bool)
      modifies this
      ensures written == if wrote then old(written) + [r] else old(written)
    {
      if wrote {
        written := written + [r];
      }
    }
  }

  class HttpInfo {
    var kind: Kind
    var ssl: bool
    var start: nat
    var end: nat
    var len: u32
    var respLen: u32
    var status: nat
    var delayed: bool
    var submitted: bool
    var observation: Observation
    var hostPid: nat
    var responseBytesAtRequest: nat

    function Value(): Record
      reads this
    {
      Record(kind, ssl, start, end, len, respLen, status, delayed, submitted, observation, hostPid,
             responseBytesAtRequest)
    }

    function In(ring: Ring): System
      reads this, ring
    {
      System(Value(), ring.written)
    }

    method NoteUnreadResponse(at: nat)
      modifies this`observation, this`end
      ensures observation == Unread && end == at
    {
      observation := Unread;
      end := at;
    }

    method NoteDisplacedByNextRequest(at: nat)
      modifies this
      ensures Value() == AfterDisplace(old(Value()), at)
    {
      if !StillReading(Value()) {
        return;
      }
      respLen := 0;
      end := at;
      observation := Received;
    }

    method ProcessHttpRequest(op: Op)
      requires op.Request?
      modifies this
      ensures Value() == AfterRequest(old(Value()), op)
    {
      ssl := op.ssl;
      hostPid := op.hostPid;
      kind := op.kind;
      start := op.start;
      status := 0;
      submitted := false;
      observation := Parsed;
      responseBytesAtRequest := op.atRequest;
      len := Add32(0, op.bytes);
    }

    method ProcessHttpResponse(parsed: nat, now: nat)
      modifies this
      ensures Value() == AfterResponse(old(Value()), parsed, now)
    {
      respLen := 0;
      end := now;
      observation := Parsed;
      var s := parsed;
      if s == 100 || s == 103 || s > MAX_HTTP_STATUS {
        s := 0;
      }
      status := s;
    }

    method SubmitHttpEvent(ring: Ring, wrote: bool)
      modifies this, ring
      ensures In(ring) == Submit(old(In(ring)), wrote)
    {
      if !Emittable(Value()) || submitted {
        return;
      }
      submitted := true;
      ring.Output(Value(), wrote);
    }

    method HandleHttpResponse(ring: Ring, parsed: nat, now: nat, goroutine: bool, highVolume: bool, wrote: bool)
      modifies this, ring
      ensures In(ring) == Respond(old(In(ring)), parsed, now, goroutine, highVolume, wrote)
    {
      ProcessHttpResponse(parsed, now);
      if goroutine {
        SubmitHttpEvent(ring, wrote);
        return;
      }
      if kind == Server {
        delayed := true;
        if highVolume && !ssl {
          SubmitHttpEvent(ring, wrote);
        }
        return;
      }
      if highVolume && !ssl {
        SubmitHttpEvent(ring, wrote);
        return;
      }
      delayed := true;
    }

    /**
     A parsed packet of the connection. A request meets the zeroed record just stored for it, or, when
     storing failed, whatever record is still there.
     */
    method ProtocolHttp(ring: Ring, e: Event)
      requires e.op.Request? || e.op.Response?
      modifies this, ring
      ensures In(ring) == Step(old(In(ring)), e)
    {
      if e.op.Request? && status == 0 && start == 0 {
        ProcessHttpRequest(e.op);
      } else if e.op.Response? && status == 0 {
        HandleHttpResponse(ring, e.op.status, e.at, e.op.goroutine, e.op.highVolume, e.wrote);
      } else if StillReading(Value()) {
        len := Add32(len, e.op.bytes);
      } else if StillResponding(Value()) {
        end := e.at;
        respLen := Add32(respLen, e.op.bytes);
      }
    }

    /** What another request on the connection does to the record it finds. */
    method MakeWay(ring: Ring, e: Event)
      requires e.op.NextRequest?
      modifies this, ring
      ensures In(ring) == Step(old(In(ring)), e)
    {
      if !submitted {
        if !Complete(Value()) {
          if Duplicate(Value(), e.op.kind, e.op.responseBytes, e.at) {
            return;
          }
          NoteDisplacedByNextRequest(e.at);
        }
        SubmitHttpEvent(ring, e.wrote);
      }
    }

    /** The large-request branch of the buffer handler. */
    method HandleLargeRequest(ring: Ring, e: Event)
      requires e.op.Feed?
      modifies this
      ensures In(ring) == Step(old(In(ring)), e)
    {
      if !submitted {
        if ssl && !e.op.ssl {
          return;
        }
        var reading := StillReading(Value());
        var responding := StillResponding(Value());
        var unread := ResponseUnread(Value());
        if reading || responding || unread {
          var unparsedResponse := UnparsedResponse(Value(), e.op.direction);
          if unparsedResponse {
            NoteUnreadResponse(e.at);
            respLen := Add32(respLen, e.op.bytes);
          } else if reading {
            len := Add32(len, e.op.bytes);
          } else if responding {
            end := e.at;
            respLen := Add32(respLen, e.op.bytes);
          }
        }
      }
    }

    method UpdateHttpSentLen(ring: Ring, e: Event)
      requires e.op.Sent?
      modifies this
      ensures In(ring) == Step(old(In(ring)), e)
    {
      respLen := Add32(respLen, e.op.bytes);
    }

    method FinishPossibleDelayed(ring: Ring, e: Event)
      requires e.op.Finish?
      modifies this, ring
      ensures In(ring) == Step(old(In(ring)), e)
    {
      if delayed {
        SubmitHttpEvent(ring, e.wrote);
      }
    }

    method ForceFinish(ring: Ring, now: nat, atClose: nat, highVolume: bool, wrote: bool)
      modifies this, ring
      ensures In(ring) == if old(submitted) then old(In(ring))
                          else Submit(System(AfterClose(old(Value()), now, atClose, highVolume), old(ring.written)), wrote)
    {
      if submitted {
        return;
      }
      if !highVolume {
        if !Complete(Value()) && observation == Parsed {
          respLen := 0;
          end := now;
          observation := ObservationAtClose(responseBytesAtRequest, atClose);
        }
      }
      SubmitHttpEvent(ring, wrote);
    }

    method ForceFinishPossibleDelayed(ring: Ring, e: Event)
      requires e.op.Close?
      modifies this, ring
      ensures In(ring) == Step(old(In(ring)), e)
    {
      if delayed {
        SubmitHttpEvent(ring, e.wrote);
      } else {
        ForceFinish(ring, e.at, e.op.atClose, e.op.highVolume, e.wrote);
      }
    }
  }

  // ------------------------------------------------------------- over any run

  /** At most one write, made only when emittable, and never again once attempted. */
  ghost predicate WrittenOnce(s: System) {
    && |s.ring| <= 1 && (s.ring != [] ==> s.rec.submitted)
    && (s.rec.submitted ==> s.rec.start != 0)
    && forall i :: 0 <= i < |s.ring| ==> Emittable(s.ring[i]) && s.ring[i].submitted
  }

  lemma StepKeepsWrittenOnce(s: System, e: Event)
    requires WrittenOnce(s)
    ensures WrittenOnce(Step(s, e))
    ensures s.ring <= Step(s, e).ring && (s.rec.submitted ==> Step(s, e).rec.submitted)
    ensures |s.ring| < |Step(s, e).ring| <==> !s.rec.submitted && Step(s, e).rec.submitted && e.wrote
  {
    hide Add32, BytesAdvanced, AcceptedStatus;
  }

  /** The event at which the record is marked submitted. */
  ghost predicate SubmitsAt(es: seq<Event>, i: nat)
    requires i < |es|
  {
    !Run(es[..i]).rec.submitted && Run(es[..i + 1]).rec.submitted
  }

  lemma RunLast(es: seq<Event>)
    requires es != []
    ensures Run(es) == Step(Run(es[..|es| - 1]), es[|es| - 1])
  {
  }

  lemma SubmitsPrefix(es: seq<Event>, n: nat, i: nat)
    requires i < n <= |es|
    ensures SubmitsAt(es[..n], i) <==> SubmitsAt(es, i)
  {
    hide Run;
    assert es[..n][..i] == es[..i] && es[..n][..i + 1] == es[..i + 1];
  }

  lemma SubmitsLast(es: seq<Event>)
    requires es != []
    ensures var n := |es| - 1;
            SubmitsAt(es, n) <==> !Run(es[..n]).rec.submitted && Run(es).rec.submitted
  {
    hide Run;
    assert es[..|es| - 1 + 1] == es;
  }

  /** A successful submission among the first `n` events. */
  ghost predicate WroteBy(es: seq<Event>, n: nat)
    requires n <= |es|
  {
    exists i: nat :: i < n && SubmitsAt(es, i) && es[i].wrote
  }

  lemma WroteByStep(es: seq<Event>)
    requires es != []
    ensures var n := |es| - 1;
            WroteBy(es, |es|) <==> WroteBy(es[..n], n) || (SubmitsAt(es, n) && es[n].wrote)
  {
    hide SubmitsAt;
    var n := |es| - 1;
    forall i: nat | i < n ensures SubmitsAt(es[..n], i) <==> SubmitsAt(es, i) {
      SubmitsPrefix(es, n, i);
    }
    if WroteBy(es[..n], n) {
      var i: nat :| i < n && SubmitsAt(es[..n], i) && es[..n][i].wrote;
      assert SubmitsAt(es, i) && es[i].wrote;
    }
  }

  /** Over any run the ring holds at most one record, and one exactly if the write at its submission succeeded. */
  lemma {:induction false} RingAtMostOnce(es: seq<Event>)
    ensures WrittenOnce(Run(es))
    ensures Run(es).ring != [] <==> WroteBy(es, |es|)
  {
    if es != [] {
      hide Run, Step, Emittable, SubmitsAt, WroteBy;
      var n := |es| - 1;
      RingAtMostOnce(es[..n]);
      RunLast(es);
      StepKeepsWrittenOnce(Run(es[..n]), es[n]);
      SubmitsLast(es);
      WroteByStep(es);
    }
  }

  /** A parsed final status is never lost, so such a record never reads again. */
  lemma {:induction false} StatusIsFinal(before: seq<Event>, after: seq<Event>)
    requires Run(before).rec.status != 0
    ensures Run(before + after).rec.status == Run(before).rec.status && !StillReading(Run(before + after).rec)
  {
    hide Run, Step;
    if after == [] {
      assert before + after == before;
    } else {
      var n := |after| - 1;
      StatusIsFinal(before, after[..n]);
      RunSplit(before, after);
      StepStatus(Run(before + after[..n]), after[n]);
    }
  }

  lemma StepStatus(s: System, e: Event)
    requires s.rec.status != 0
    ensures Step(s, e).rec.status == s.rec.status
  {
    hide Emittable, Add32;
  }

  lemma RunSplit(before: seq<Event>, after: seq<Event>)
    requires after != []
    ensures var n := |after| - 1;
            Run(before + after) == Step(Run(before + after[..n]), after[n])
  {
    hide Run, Step;
    var n, es := |after| - 1, before + after;
    RunLast(es);
    assert es[..|es| - 1] == before + after[..n] && es[|es| - 1] == after[n];
  }

  /** An interim or impossible status: parsed, but taken for none. */
  predicate Interim(op: Op) { op.Response? && AcceptedStatus(op.status) == 0 }

  /**
   A record that has stopped reading reads again exactly when an interim response is parsed on it
   before any final status: the one path by which unread or displaced is forgotten.
   */
  lemma ReadsAgainIff(s: System, e: Event)
    requires s.rec.start != 0 && !StillReading(s.rec)
    ensures StillReading(Step(s, e).rec) <==> Interim(e.op) && s.rec.status == 0
  {
  }

  lemma InterimReads(s: System, e: Event)
    requires s.rec.start != 0 && s.rec.status == 0 && Interim(e.op)
    ensures StillReading(Step(s, e).rec)
  {
  }

  /** Some point of `after` finds the record reading. */
  ghost predicate ReadsIn(before: seq<Event>, after: seq<Event>) {
    exists n: nat :: 0 < n <= |after| && StillReading(Run(before + after[..n]).rec)
  }

  /** An interim status is parsed in `after` while there is no status. */
  ghost predicate InterimIn(before: seq<Event>, after: seq<Event>) {
    exists i: nat :: i < |after| && Interim(after[i].op) && Run(before + after[..i]).rec.status == 0
  }

  /**
   Over any run: a started record that has stopped reading is found reading again if and only if an
   interim status is parsed while it has none.
   */
  lemma {:induction false} RunReadsAgainIff(before: seq<Event>, after: seq<Event>)
    requires Run(before).rec.start != 0 && !StillReading(Run(before).rec)
    ensures ReadsIn(before, after) <==> InterimIn(before, after)
  {
    hide Run, Step, StillReading, Interim;
    if n: nat :| 0 < n <= |after| && StillReading(Run(before + after[..n]).rec) {
      FirstReads(before, after, n);
    }
    if i: nat :| i < |after| && Interim(after[i].op) && Run(before + after[..i]).rec.status == 0 {
      StartIsKept(before, after[..i]);
      InterimReads(Run(before + after[..i]), after[i]);
      RunAppend(before, after, i);
      assert StillReading(Run(before + after[..i + 1]).rec);
    }
  }

  /** Going back from a point that reads, some interim status made the record read. */
  lemma {:induction false} FirstReads(before: seq<Event>, after: seq<Event>, n: nat)
    requires Run(before).rec.start != 0 && !StillReading(Run(before).rec)
    requires 0 < n <= |after| && StillReading(Run(before + after[..n]).rec)
    ensures InterimIn(before, after)
    decreases n
  {
    hide Run, Step, StillReading, Interim;
    var m := n - 1;
    RunAppend(before, after, m);
    if StillReading(Run(before + after[..m]).rec) {
      assert before + after[..0] == before;
      FirstReads(before, after, m);
    } else {
      StartIsKept(before, after[..m]);
      ReadsAgainIff(Run(before + after[..m]), after[m]);
    }
  }

  lemma RunAppend(before: seq<Event>, after: seq<Event>, i: nat)
    requires i < |after|
    ensures Run(before + after[..i + 1]) == Step(Run(before + after[..i]), after[i])
  {
    hide Run, Step;
    RunSplit(before, after[..i + 1]);
    assert after[..i + 1][..i] == after[..i];
  }

  lemma RunExtend(es: seq<Event>, e: Event)
    ensures Run(es + [e]) == Step(Run(es), e)
  {
    hide Run, Step;
    RunLast(es + [e]);
    assert (es + [e])[..|es|] == es;
  }

  /** A response arrives unparsed, then a 100 Continue is parsed. */
  function Reopening(kind: Kind, now: nat): seq<Event> {
    [Event(now, Request(kind, false, 1, 1, 0, 0), true),
     Event(now, Feed(if kind == Client then Inbound else Outbound, 1, false), true),
     Event(now, Response(if kind == Client then Inbound else Outbound, 100, 0, false, false), true)]
  }

  /** The path exists: a response arrives unparsed, then a 100 Continue is parsed. */
  lemma InterimReopens(kind: Kind, now: nat)
    ensures var es := Reopening(kind, now);
            && StillReading(Run(es[..1]).rec) && ResponseUnread(Run(es[..2]).rec) && StillReading(Run(es).rec)
            && forall i :: 1 <= i <= 3 ==> Run(es[..i]).rec.kind == kind && !Run(es[..i]).rec.submitted
  {
    var es := Reopening(kind, now);
    var e0, e1, e2 := es[0], es[1], es[2];
    RunExtend([], e0);
    RunExtend([e0], e1);
    RunExtend([e0, e1], e2);
    assert es[..0] == [] && es[..1] == [] + [e0] == [e0] && es[..2] == [e0] + [e1] == [e0, e1];
    assert es[..3] == es == [e0, e1] + [e2];
  }

  lemma {:induction false} StartIsKept(before: seq<Event>, after: seq<Event>)
    requires Run(before).rec.start != 0
    ensures Run(before + after).rec.start == Run(before).rec.start
  {
    hide Run, Step;
    if after == [] {
      assert before + after == before;
    } else {
      var n := |after| - 1;
      StartIsKept(before, after[..n]);
      RunSplit(before, after);
      StepStart(Run(before + after[..n]), after[n]);
    }
  }

  /** Without interim responses, a started record that stopped reading never reads again. */
  lemma {:induction false} NeverReadsAgain(before: seq<Event>, after: seq<Event>)
    requires Run(before).rec.start != 0 && !StillReading(Run(before).rec)
    requires forall i :: 0 <= i < |after| ==> !Interim(after[i].op)
    ensures !StillReading(Run(before + after).rec)
  {
    hide Run, Step, Interim;
    if after == [] {
      assert before + after == before;
    } else {
      var n := |after| - 1;
      NeverReadsAgain(before, after[..n]);
      StartIsKept(before, after[..n]);
      RunSplit(before, after);
      ReadsAgainIff(Run(before + after[..n]), after[n]);
    }
  }

  ghost predicate Ordered(es: seq<Event>) {
    forall i, j :: 0 <= i < j < |es| ==> es[i].at <= es[j].at
  }

  lemma {:induction false} EndIsPast(es: seq<Event>, now: nat)
    requires forall i :: 0 <= i < |es| ==> es[i].at <= now
    ensures Run(es).rec.end <= now
  {
    hide Run, Step;
    if es == [] {
      RunNone();
    } else {
      EndIsPast(es[..|es| - 1], now);
      RunLast(es);
      StepEnd(Run(es[..|es| - 1]), es[|es| - 1]);
    }
  }

  lemma StepEnd(s: System, e: Event)
    ensures Step(s, e).rec.end == s.rec.end || Step(s, e).rec.end == e.at
  {
  }

  /** The end time never moves backwards. */
  lemma {:induction false} EndNeverDecreases(es: seq<Event>, n: nat)
    requires Ordered(es) && n <= |es|
    ensures Run(es[..n]).rec.end <= Run(es).rec.end
  {
    hide Run, Step;
    if n == |es| {
      assert es[..n] == es;
    } else {
      var m := |es| - 1;
      var init := es[..m];
      EndNeverDecreases(init, n);
      assert init[..n] == es[..n];
      EndIsPast(init, es[m].at);
      RunLast(es);
      StepEnd(Run(init), es[m]);
    }
  }

  predicate Packet(op: Op) { op.Request? || op.Response? }

  lemma FrozenStep(s: System, e: Event)
    requires s.rec.submitted && s.rec.start != 0
    ensures var t := Step(s, e);
            && t.ring == s.ring && t.rec.submitted && t.rec.start != 0
            && t.rec == s.rec.(end := t.rec.end, len := t.rec.len, respLen := t.rec.respLen, status := t.rec.status,
                               observation := t.rec.observation, delayed := t.rec.delayed)
            && (!Packet(e.op) ==> t.rec == s.rec.(respLen := t.rec.respLen))
            && (!Packet(e.op) && !e.op.Sent? ==> t == s)
  {
  }

  /**
   Once submitted, the ring never changes again and the record can change only in the fields that a
   parsed packet or the return of a send still writes; without those it does not change at all.
   */
  lemma {:induction false} SubmittedIsFrozen(before: seq<Event>, after: seq<Event>)
    requires Run(before).rec.submitted
    ensures Run(before + after).rec.submitted && Run(before + after).rec.start != 0
    ensures var s, t := Run(before), Run(before + after);
            && t.ring == s.ring
            && t.rec == s.rec.(end := t.rec.end, len := t.rec.len, respLen := t.rec.respLen, status := t.rec.status,
                               observation := t.rec.observation, delayed := t.rec.delayed)
            && ((forall i :: 0 <= i < |after| ==> !Packet(after[i].op)) ==> t.rec == s.rec.(respLen := t.rec.respLen))
            && ((forall i :: 0 <= i < |after| ==> !Packet(after[i].op) && !after[i].op.Sent?) ==> t == s)
  {
    hide Run, Step, Emittable, Packet;
    if after == [] {
      assert before + after == before;
      RingAtMostOnce(before);
    } else {
      var n := |after| - 1;
      SubmittedIsFrozen(before, after[..n]);
      RunSplit(before, after);
      FrozenStep(Run(before + after[..n]), after[n]);
      assert forall i :: 0 <= i < n ==> after[..n][i] == after[i];
    }
  }

  // ------------------------------------------------------- counting every byte

  predicate CarriesBytes(op: Op) { op.Request? || op.Response? || op.Feed? || op.Sent? }

  function Bytes(op: Op): nat { if CarriesBytes(op) then op.bytes else 0 }

  /** A buffer that travels the way responses to this kind of record do. */
  predicate ResponseWay(kind: Kind, op: Op) {
    (op.Feed? || op.Response?) && ResponseDirection(kind, op.direction)
  }

  /** What becomes of the bytes an event carries. */
  datatype Class =
    | Requested     // in the request length
    | Answered      // in the response length, and travelling that way
    | Stray         // in the response length, but travelling the other way
    | Returned      // in the response length at the return of a send, whichever way it went
    | Missed        // response bytes in neither length
    | Late          // request bytes in neither length
    | NoBytes

  function ClassOf(r: Record, op: Op): Class {
    if !CarriesBytes(op) then NoBytes
    else if op.Sent? then Returned
    else if op.Feed? && !Heard(r, op.ssl) then if ResponseWay(r.kind, op) then Missed else Late
    else if StillResponding(r) then if ResponseWay(r.kind, op) then Answered else Stray
    else if ResponseWay(r.kind, op) then
      if op.Feed? && (StillReading(r) || ResponseUnread(r)) then Answered else Missed
    else if (op.Feed? && StillReading(r)) || (op.Request? && (Fresh(r) || StillReading(r))) then Requested
    else Late
  }

  predicate InLen(c: Class) { c == Requested }
  predicate InRespLen(c: Class) { c == Answered || c == Stray || c == Returned }

  /**
   A buffer the handler hears goes into neither length exactly when the record has no status, is not
   reading, and is not an unread response this buffer continues.
   */
  lemma NeitherIff(r: Record, op: Op)
    requires op.Feed? && Heard(r, op.ssl)
    ensures !InLen(ClassOf(r, op)) && !InRespLen(ClassOf(r, op)) <==>
            && r.status == 0 && (r.start == 0 || r.observation != Parsed)
            && !(r.observation == Unread && ResponseDirection(r.kind, op.direction))
  {
  }

  /** What throws counted response bytes away. */
  predicate Resets(r: Record, e: Event) {
    match e.op
    case Response(_, _, _, _, _) => !StillResponding(r)
    case NextRequest(kind, responseBytes) =>
      !r.submitted && StillReading(r) && !Duplicate(r, kind, responseBytes, e.at)
    case Close(_, highVolume) =>
      !r.submitted && !r.delayed && !highVolume && !Complete(r) && r.observation == Parsed
    case _ => false
  }

  predicate Starts(r: Record, op: Op) { op.Request? && Fresh(r) }

  /** The two counters of a record. */
  datatype Lengths = Lengths(len: u32, respLen: u32)

  function LengthsOf(r: Record): Lengths { Lengths(r.len, r.respLen) }

  function Gain(counted: bool, op: Op): nat { if counted then Bytes(op) else 0 }

  function Counted(r: Record, e: Event): Lengths {
    var c := ClassOf(r, e.op);
    Lengths(if Starts(r, e.op) then Add32(0, e.op.bytes) else Add32(r.len, Gain(InLen(c), e.op)),
            if Resets(r, e) then 0 else Add32(r.respLen, Gain(InRespLen(c), e.op)))
  }

  lemma SubmitCounts(s: System, wrote: bool)
    ensures LengthsOf(Submit(s, wrote).rec) == LengthsOf(s.rec)
  {
  }

  lemma RespondCounts(s: System, status: nat, now: nat, goroutine: bool, highVolume: bool, wrote: bool)
    ensures LengthsOf(Respond(s, status, now, goroutine, highVolume, wrote).rec) == Lengths(s.rec.len, 0)
  {
    hide Submit;
    var r := AfterResponse(s.rec, status, now);
    SubmitCounts(s.(rec := r), wrote);
    SubmitCounts(s.(rec := r.(delayed := true)), wrote);
  }

  lemma FeedCounts(s: System, e: Event)
    requires e.op.Feed?
    ensures LengthsOf(Step(s, e).rec) == Counted(s.rec, e)
  {
    hide Add32;
    Add32Zero(s.rec.len);
    Add32Zero(s.rec.respLen);
  }

  lemma PacketCounts(s: System, e: Event)
    requires Packet(e.op)
    ensures LengthsOf(Step(s, e).rec) == Counted(s.rec, e)
  {
    hide Add32, Respond;
    Add32Zero(s.rec.len);
    Add32Zero(s.rec.respLen);
    if e.op.Response? {
      RespondCounts(s, e.op.status, e.at, e.op.goroutine, e.op.highVolume, e.wrote);
    }
  }

  lemma EndingCounts(s: System, e: Event)
    requires !CarriesBytes(e.op)
    ensures LengthsOf(Step(s, e).rec) == Counted(s.rec, e)
  {
    hide Add32, Submit, Duplicate;
    Add32Zero(s.rec.len);
    Add32Zero(s.rec.respLen);
    SubmitCounts(s, e.wrote);
    match e.op
    case NextRequest(_, _) => SubmitCounts(s.(rec := AfterDisplace(s.rec, e.at)), e.wrote);
    case Close(atClose, highVolume) => SubmitCounts(s.(rec := AfterClose(s.rec, e.at, atClose, highVolume)), e.wrote);
    case Finish =>
  }

  /** One event: both counters, exactly. */
  lemma StepCounts(s: System, e: Event)
    ensures LengthsOf(Step(s, e).rec) == Counted(s.rec, e)
  {
    hide *;
    if e.op.Feed? {
      FeedCounts(s, e);
    } else if e.op.Sent? {
      SentCounts(s, e);
    } else if e.op.Request? || e.op.Response? {
      assert Packet(e.op) by { PacketIs(e.op); }
      PacketCounts(s, e);
    } else {
      assert !CarriesBytes(e.op) by { PacketIs(e.op); }
      EndingCounts(s, e);
    }
  }

  lemma SentCounts(s: System, e: Event)
    requires e.op.Sent?
    ensures LengthsOf(Step(s, e).rec) == Counted(s.rec, e)
  {
    Add32Zero(s.rec.len);
  }

  lemma PacketIs(op: Op)
    ensures Packet(op) <==> op.Request? || op.Response?
    ensures CarriesBytes(op) <==> Packet(op) || op.Feed? || op.Sent?
  {
  }

  lemma StepStart(s: System, e: Event)
    ensures s.rec.start != 0 ==> Step(s, e).rec.start == s.rec.start
    ensures s.rec.start == 0 ==> (Step(s, e).rec.start != 0 <==> Starts(s.rec, e.op))
  {
  }

  lemma Add32Zero(x: u32)
    ensures Add32(x, 0) == x
  {
  }

  lemma Add32Twice(x: u32, m: nat, n: nat)
    ensures Add32(Add32(x, m), n) == Add32(x, m + n)
  {
  }

  /** Bytes of one class from event `k` on. */
  function Sum(es: seq<Event>, k: nat, c: Class): nat {
    if |es| <= k then 0
    else
      var n := |es| - 1;
      Sum(es[..n], k, c) + Gain(ClassOf(Run(es[..n]).rec, es[n].op) == c, es[n].op)
  }

  /** Bytes of all buffers from event `k` on that travel the way of the response. */
  function Directed(es: seq<Event>, k: nat): nat {
    if |es| <= k then 0
    else
      var n := |es| - 1;
      Directed(es[..n], k) + Gain(ResponseWay(Run(es[..n]).rec.kind, es[n].op), es[n].op)
  }

  function Total(es: seq<Event>, k: nat): nat {
    if |es| <= k then 0 else Total(es[..|es| - 1], k) + Bytes(es[|es| - 1].op)
  }

  lemma ClassWay(r: Record, op: Op)
    ensures ResponseWay(r.kind, op) <==> ClassOf(r, op) == Answered || ClassOf(r, op) == Missed
    ensures ClassOf(r, op) == NoBytes <==> !CarriesBytes(op)
  {
  }

  /** No byte of any run is in two classes, and none is in no class. */
  lemma {:induction false} EveryByteHasOneClass(es: seq<Event>, k: nat)
    ensures Total(es, k) == Sum(es, k, Requested) + Sum(es, k, Answered) + Sum(es, k, Stray) + Sum(es, k, Returned) +
                            Sum(es, k, Missed) + Sum(es, k, Late)
    ensures Directed(es, k) == Sum(es, k, Answered) + Sum(es, k, Missed)
  {
    hide Run, ClassOf, ResponseWay;
    if |es| > k {
      var n := |es| - 1;
      EveryByteHasOneClass(es[..n], k);
      ClassWay(Run(es[..n]).rec, es[n].op);
    }
  }

  /** A class contributes nothing exactly when each of its buffers is empty. */
  lemma {:induction false} SumIsZeroIff(es: seq<Event>, k: nat, c: Class)
    ensures Sum(es, k, c) == 0 <==>
            forall i: nat :: k <= i < |es| && ClassOf(Run(es[..i]).rec, es[i].op) == c ==> Bytes(es[i].op) == 0
  {
    hide Run, ClassOf, Bytes;
    if |es| > k {
      var n := |es| - 1;
      SumIsZeroIff(es[..n], k, c);
      forall i: nat | i < n ensures es[..n][..i] == es[..i] && es[..n][i] == es[i] {
      }
    }
  }

  predicate ResetAt(es: seq<Event>, i: nat)
    requires i < |es|
  {
    Resets(Run(es[..i]).rec, es[i])
  }

  predicate NoResetSince(es: seq<Event>, k: nat) {
    forall i: nat :: k <= i < |es| ==> !ResetAt(es, i)
  }

  /** The events after the last reset start here. */
  function LastReset(es: seq<Event>): (k: nat)
    ensures k <= |es|
  {
    if es == [] then 0
    else if Resets(Run(es[..|es| - 1]).rec, es[|es| - 1]) then |es| else LastReset(es[..|es| - 1])
  }

  lemma ResetPrefix(es: seq<Event>, n: nat, i: nat)
    requires i < n <= |es|
    ensures ResetAt(es[..n], i) <==> ResetAt(es, i)
  {
    assert es[..n][..i] == es[..i];
  }

  lemma {:induction false} LastResetIsLast(es: seq<Event>)
    ensures var k := LastReset(es);
            (k == 0 || ResetAt(es, k - 1)) && NoResetSince(es, k)
  {
    hide Run, Resets;
    if es != [] {
      var n := |es| - 1;
      LastResetIsLast(es[..n]);
      forall i: nat | i < n ensures ResetAt(es[..n], i) <==> ResetAt(es, i) {
        ResetPrefix(es, n, i);
      }
    }
  }

  /**
   Over any run the request length is the number of bytes taken as request, modulo 2^32: the request's
   own and those fed while it is read. Nothing ever resets it.
   */
  lemma {:induction false} RequestBytesCounted(es: seq<Event>)
    ensures Run(es).rec.len == Add32(0, Sum(es, 0, Requested))
    ensures Run(es).rec.start == 0 ==> Sum(es, 0, Requested) == 0
  {
    hide Run, Step, Resets, Add32, ClassOf, Bytes, Sum;
    if es == [] {
      EmptyRun(Requested);
    } else {
      var n := |es| - 1;
      var r, op := Run(es[..n]).rec, es[n].op;
      RequestBytesCounted(es[..n]);
      SumStep(es, 0, Requested);
      RunLast(es);
      StepCounts(Run(es[..n]), es[n]);
      StepStart(Run(es[..n]), es[n]);
      RequestedMeans(r, op);
      Add32Twice(0, Sum(es[..n], 0, Requested), Gain(InLen(ClassOf(r, op)), op));
      Add32Zero(0);
    }
  }

  lemma RequestedMeans(r: Record, op: Op)
    ensures Starts(r, op) ==> ClassOf(r, op) == Requested && Bytes(op) == op.bytes
    ensures ClassOf(r, op) == Requested ==> Starts(r, op) || StillReading(r)
  {
  }

  lemma EmptyRun(c: Class)
    ensures LengthsOf(Run([]).rec) == Lengths(0, 0) && Run([]).rec.start == 0 && Sum([], 0, c) == 0
    ensures Add32(0, 0) == 0
  {
  }

  lemma SumStep(es: seq<Event>, k: nat, c: Class)
    requires es != []
    ensures var n := |es| - 1;
            Sum(es, k, c) == if k > n then 0
                             else Sum(es[..n], k, c) + Gain(ClassOf(Run(es[..n]).rec, es[n].op) == c, es[n].op)
  {
  }

  lemma SumSteps(es: seq<Event>, k: nat)
    requires es != []
    ensures var n := |es| - 1;
            Sum(es, k, Answered) + Sum(es, k, Stray) + Sum(es, k, Returned) ==
            if k > n then 0
            else Sum(es[..n], k, Answered) + Sum(es[..n], k, Stray) + Sum(es[..n], k, Returned) +
                 Gain(InRespLen(ClassOf(Run(es[..n]).rec, es[n].op)), es[n].op)
  {
    hide Run, Sum, ClassOf, Bytes;
    SumStep(es, k, Answered);
    SumStep(es, k, Stray);
    SumStep(es, k, Returned);
  }

  /** The response length counts what is classed into it since the last reset. */
  lemma {:induction false} ResponseSums(es: seq<Event>)
    ensures var k := LastReset(es);
            Run(es).rec.respLen == Add32(0, Sum(es, k, Answered) + Sum(es, k, Stray) + Sum(es, k, Returned))
  {
    hide Run, Step, Resets, Add32, ClassOf, Bytes, Starts, Sum;
    Add32Zero(0);
    if es == [] {
      EmptyRun(Answered);
      EmptyRun(Stray);
      EmptyRun(Returned);
    } else {
      var n := |es| - 1;
      var init, k := es[..n], LastReset(es[..n]);
      var r, op := Run(init).rec, es[n].op;
      ResponseSums(init);
      RunLast(es);
      StepCounts(Run(init), es[n]);
      SumSteps(es, k);
      SumSteps(es, |es|);
      Add32Twice(0, Sum(init, k, Answered) + Sum(init, k, Stray) + Sum(init, k, Returned),
                 Gain(InRespLen(ClassOf(r, op)), op));
    }
  }

  /**
   Over any run the response length is the bytes that travelled the way of the response since the last
   reset, without those of buffers nobody counted, plus every returned send, plus what came the other
   way while responding, modulo 2^32.
   */
  lemma ResponseBytesCounted(es: seq<Event>)
    ensures var k := LastReset(es);
            && Sum(es, k, Missed) <= Directed(es, k)
            && Run(es).rec.respLen ==
               Add32(0, Directed(es, k) - Sum(es, k, Missed) + Sum(es, k, Returned) + Sum(es, k, Stray))
  {
    hide Run, Sum, Directed, Total, Add32, LastReset;
    ResponseSums(es);
    EveryByteHasOneClass(es, LastReset(es));
  }

  /** Event `i` puts bytes into the response length that are no response bytes of a buffer seen then. */
  predicate Adds(es: seq<Event>, i: nat)
    requires i < |es|
  {
    var c := ClassOf(Run(es[..i]).rec, es[i].op);
    (c == Returned || c == Stray) && Bytes(es[i].op) > 0
  }

  lemma AddsIff(es: seq<Event>, k: nat)
    ensures Sum(es, k, Returned) + Sum(es, k, Stray) == 0 <==> forall i: nat :: k <= i < |es| ==> !Adds(es, i)
  {
    hide Run, Sum, ClassOf, Bytes;
    SumIsZeroIff(es, k, Returned);
    SumIsZeroIff(es, k, Stray);
    if forall i: nat :: k <= i < |es| ==> !Adds(es, i) {
      forall i: nat | k <= i < |es|
        ensures var c := ClassOf(Run(es[..i]).rec, es[i].op); c == Returned || c == Stray ==> Bytes(es[i].op) == 0
      {
        assert !Adds(es, i);
      }
    }
  }

  lemma SameResidue(a: nat, b: nat)
    requires b <= a
    ensures a % U32 == b % U32 <==> (a - b) % U32 == 0
  {
  }

  /**
   So it is the number of response bytes heard, modulo 2^32, if and only if the returned sends and the
   stray bytes vanish modulo 2^32; each is zero exactly when it has no nonempty buffer since the reset.
   */
  lemma ResponseLengthIff(es: seq<Event>)
    ensures var k := LastReset(es);
            && Sum(es, k, Missed) <= Directed(es, k)
            && (Run(es).rec.respLen == Add32(0, Directed(es, k) - Sum(es, k, Missed)) <==>
                (Sum(es, k, Returned) + Sum(es, k, Stray)) % U32 == 0)
            && (Sum(es, k, Returned) + Sum(es, k, Stray) == 0 <==>
                forall i: nat :: k <= i < |es| ==> !Adds(es, i))
  {
    hide Run, Sum, Directed, LastReset;
    var k := LastReset(es);
    ResponseBytesCounted(es);
    AddsIff(es, k);
    var heard, extra := Directed(es, k) - Sum(es, k, Missed), Sum(es, k, Returned) + Sum(es, k, Stray);
    SameResidue(heard + extra, heard);
  }

  /** The same run with `d` more bytes in the buffer of event `i`. */
  function More(es: seq<Event>, i: nat, d: nat): (t: seq<Event>)
    requires i < |es| && CarriesBytes(es[i].op)
    ensures |t| == |es|
  {
    es[i := es[i].(op := es[i].op.(bytes := es[i].op.bytes + d))]
  }

  /** Records that differ in nothing but the two counters. */
  predicate Alike(a: Record, b: Record) { b == a.(len := b.len, respLen := b.respLen) }

  lemma SubmitAlike(s: System, t: System, wrote: bool)
    requires Alike(s.rec, t.rec) && |s.ring| == |t.ring|
    ensures Alike(Submit(s, wrote).rec, Submit(t, wrote).rec)
    ensures |Submit(s, wrote).ring| == |Submit(t, wrote).ring|
  {
  }

  lemma RespondAlike(s: System, t: System, status: nat, now: nat, goroutine: bool, highVolume: bool, wrote: bool)
    requires Alike(s.rec, t.rec) && |s.ring| == |t.ring|
    ensures var u, v := Respond(s, status, now, goroutine, highVolume, wrote),
                        Respond(t, status, now, goroutine, highVolume, wrote);
            Alike(u.rec, v.rec) && |u.ring| == |v.ring|
  {
    hide Submit;
    var a, b := AfterResponse(s.rec, status, now), AfterResponse(t.rec, status, now);
    SubmitAlike(s.(rec := a), t.(rec := b), wrote);
    SubmitAlike(s.(rec := a.(delayed := true)), t.(rec := b.(delayed := true)), wrote);
  }

  lemma ChangesAlike(a: Record, b: Record, e: Event)
    requires Alike(a, b)
    ensures e.op.Feed? ==> Alike(AfterFeed(a, e.op.direction, e.op.bytes, e.op.ssl, e.at),
                                 AfterFeed(b, e.op.direction, e.op.bytes, e.op.ssl, e.at))
    ensures e.op.NextRequest? ==>
              && Alike(AfterDisplace(a, e.at), AfterDisplace(b, e.at)) && Complete(a) == Complete(b)
              && Duplicate(a, e.op.kind, e.op.responseBytes, e.at) == Duplicate(b, e.op.kind, e.op.responseBytes, e.at)
    ensures e.op.Close? ==> Alike(AfterClose(a, e.at, e.op.atClose, e.op.highVolume),
                                  AfterClose(b, e.at, e.op.atClose, e.op.highVolume))
  {
    hide Add32;
  }

  lemma StepAlike(s: System, t: System, e: Event)
    requires Alike(s.rec, t.rec) && |s.ring| == |t.ring|
    ensures Alike(Step(s, e).rec, Step(t, e).rec) && |Step(s, e).ring| == |Step(t, e).ring|
  {
    hide Submit, Add32, Respond, AfterFeed, AfterDisplace, AfterClose, Complete, Duplicate;
    ChangesAlike(s.rec, t.rec, e);
    match e.op
    case Request(_, _, _, _, _, _) =>
    case Response(_, status, _, goroutine, highVolume) =>
      RespondAlike(s, t, status, e.at, goroutine, highVolume, e.wrote);
    case Feed(_, _, _) =>
    case Sent(_) =>
    case NextRequest(_, _) =>
      SubmitAlike(s, t, e.wrote);
      SubmitAlike(s.(rec := AfterDisplace(s.rec, e.at)), t.(rec := AfterDisplace(t.rec, e.at)), e.wrote);
    case Finish =>
      SubmitAlike(s, t, e.wrote);
    case Close(atClose, highVolume) =>
      SubmitAlike(s, t, e.wrote);
      SubmitAlike(s.(rec := AfterClose(s.rec, e.at, atClose, highVolume)),
                  t.(rec := AfterClose(t.rec, e.at, atClose, highVolume)), e.wrote);
  }

  /** What is counted, and when, does not depend on the counters. */
  lemma CountingAlike(a: Record, b: Record, e: Event)
    requires Alike(a, b)
    ensures ClassOf(a, e.op) == ClassOf(b, e.op)
    ensures Resets(a, e) == Resets(b, e) && Starts(a, e.op) == Starts(b, e.op)
  {
  }

  lemma RespondMore(s: System, e: Event, d: nat)
    requires CarriesBytes(e.op)
    ensures var t := Step(s, e.(op := e.op.(bytes := e.op.bytes + d)));
            Alike(Step(s, e).rec, t.rec) && |t.ring| == |Step(s, e).ring|
  {
    hide Submit, Add32, Respond, ClassOf;
  }

  lemma ClassMore(r: Record, e: Event, d: nat)
    requires CarriesBytes(e.op)
    ensures var f := e.(op := e.op.(bytes := e.op.bytes + d));
            ClassOf(r, f.op) == ClassOf(r, e.op) && Resets(r, f) == Resets(r, e) && Starts(r, f.op) == Starts(r, e.op)
    ensures Starts(r, e.op) ==> ClassOf(r, e.op) == Requested
    ensures Resets(r, e) ==> !InRespLen(ClassOf(r, e.op))
  {
  }

  lemma StepMore(s: System, e: Event, d: nat)
    requires CarriesBytes(e.op)
    ensures var t := Step(s, e.(op := e.op.(bytes := e.op.bytes + d)));
            && Alike(Step(s, e).rec, t.rec) && |t.ring| == |Step(s, e).ring|
            && t.rec.len == Add32(Step(s, e).rec.len, if InLen(ClassOf(s.rec, e.op)) then d else 0)
            && t.rec.respLen == Add32(Step(s, e).rec.respLen, if InRespLen(ClassOf(s.rec, e.op)) then d else 0)
  {
    var f := e.(op := e.op.(bytes := e.op.bytes + d));
    RespondMore(s, e, d);
    ClassMore(s.rec, e, d);
    StepCounts(s, e);
    StepCounts(s, f);
    hide Step, Alike, Add32, ClassOf, Resets, Starts;
    Add32Twice(0, e.op.bytes, d);
    Add32Twice(s.rec.len, e.op.bytes, d);
    Add32Twice(s.rec.respLen, e.op.bytes, d);
    Add32Zero(Step(s, e).rec.len);
    Add32Zero(Step(s, e).rec.respLen);
  }

  function ClassAt(es: seq<Event>, i: nat): Class
    requires i < |es|
  {
    ClassOf(Run(es[..i]).rec, es[i].op)
  }

  /** The bytes of event `i` that the final counters still hold. */
  predicate InRequest(es: seq<Event>, i: nat)
    requires i < |es|
  {
    InLen(ClassAt(es, i))
  }

  predicate InResponse(es: seq<Event>, i: nat)
    requires i < |es|
  {
    InRespLen(ClassAt(es, i)) && NoResetSince(es, i + 1)
  }

  lemma ClassPrefix(es: seq<Event>, n: nat, i: nat)
    requires i < n <= |es|
    ensures ClassAt(es[..n], i) == ClassAt(es, i)
  {
    hide ClassOf, Run;
    assert es[..n][..i] == es[..i];
  }

  /**
   What a buffer contributes to the end of any run: growing it by `d` bytes moves the request length
   by `d`, or the response length by `d`, or neither, never both, and changes nothing else about the record.
   */
  lemma {:induction false} BufferContributes(es: seq<Event>, i: nat, d: nat)
    requires i < |es| && CarriesBytes(es[i].op)
    ensures var r, t := Run(es).rec, Run(More(es, i, d)).rec;
            && Alike(r, t) && |Run(More(es, i, d)).ring| == |Run(es).ring|
            && t.len == Add32(r.len, if InRequest(es, i) then d else 0)
            && t.respLen == Add32(r.respLen, if InResponse(es, i) then d else 0)
    ensures InRequest(es, i) ==> Run(es).rec.start != 0
    ensures !(InRequest(es, i) && InResponse(es, i))
  {
    hide Run, Step, Alike, ClassOf, Resets, Add32, ResetAt;
    var n := |es| - 1;
    var ms := More(es, i, d);
    RunLast(es);
    RunLast(ms);
    if i == n {
      assert ms[..n] == es[..n];
      StepMore(Run(es[..n]), es[n], d);
      StepStart(Run(es[..n]), es[n]);
      RequestedMeans(Run(es[..n]).rec, es[n].op);
      assert NoResetSince(es, n + 1);
    } else {
      var init := es[..n];
      assert ms[..n] == More(init, i, d);
      BufferContributes(init, i, d);
      ContributesStep(es, i, d);
    }
  }

  lemma ContributesStep(es: seq<Event>, i: nat, d: nat)
    requires i + 1 < |es| && CarriesBytes(es[i].op)
    requires var init := es[..|es| - 1];
             var r, t := Run(init), Run(More(init, i, d));
             && Alike(r.rec, t.rec) && |t.ring| == |r.ring|
             && t.rec.len == Add32(r.rec.len, if InRequest(init, i) then d else 0)
             && t.rec.respLen == Add32(r.rec.respLen, if InResponse(init, i) then d else 0)
             && (InRequest(init, i) ==> r.rec.start != 0)
    ensures var r, t := Run(es).rec, Run(More(es, i, d)).rec;
            && Alike(r, t) && |Run(More(es, i, d)).ring| == |Run(es).ring|
            && t.len == Add32(r.len, if InRequest(es, i) then d else 0)
            && t.respLen == Add32(r.respLen, if InResponse(es, i) then d else 0)
            && (InRequest(es, i) ==> r.start != 0)
  {
    hide Run, Step, Alike, ClassOf, ClassAt, Resets, Add32, InResponse, Bytes;
    var n := |es| - 1;
    var init, e := es[..n], es[n];
    var r, t := Run(init), Run(More(init, i, d));
    assert More(es, i, d)[..n] == More(init, i, d) && More(es, i, d)[n] == e;
    RunLast(es);
    RunLast(More(es, i, d));
    ClassPrefix(es, n, i);
    ResponseKept(es, i);
    StepAlike(r, t, e);
    CountingAlike(r.rec, t.rec, e);
    StepCounts(r, e);
    StepCounts(t, e);
    StepStart(r, e);
    assert InRequest(init, i) ==> !Starts(r.rec, e.op);
    Add32Zero(r.rec.len);
    Add32Zero(0);
    Add32Zero(Step(r, e).rec.len);
    var c := ClassOf(r.rec, e.op);
    Add32Commutes(r.rec.len, if InRequest(init, i) then d else 0, Gain(InLen(c), e.op));
    Add32Commutes(r.rec.respLen, if InResponse(init, i) then d else 0, Gain(InRespLen(c), e.op));
  }

  lemma ResponseKept(es: seq<Event>, i: nat)
    requires i + 1 < |es|
    ensures var n := |es| - 1;
            InResponse(es, i) <==> InResponse(es[..n], i) && !Resets(Run(es[..n]).rec, es[n])
  {
    hide Run, ClassAt, Resets;
    var n := |es| - 1;
    ClassPrefix(es, n, i);
    forall j: nat | j < n ensures ResetAt(es[..n], j) <==> ResetAt(es, j) {
      ResetPrefix(es, n, j);
    }
    assert ResetAt(es, n) <==> Resets(Run(es[..n]).rec, es[n]);
  }

  lemma Add32Commutes(x: u32, m: nat, n: nat)
    ensures Add32(Add32(x, m), n) == Add32(Add32(x, n), m)
  {
    Add32Twice(x, m, n);
    Add32Twice(x, n, m);
  }

  /**
   The bytes of an event are still counted at the end of a run if and only if they went into the request
   length, or into the response length with no reset since: exactly then one byte more would show.
   */
  lemma CountedAtEndIff(es: seq<Event>, i: nat)
    requires i < |es| && CarriesBytes(es[i].op)
    ensures var r, t := Run(es).rec, Run(More(es, i, 1)).rec;
            t.len != r.len || t.respLen != r.respLen <==> InRequest(es, i) || InResponse(es, i)
  {
    hide Run, InRequest, InResponse, Alike, CarriesBytes, More;
    BufferContributes(es, i, 1);
  }

  // --------------------------------------------- a send seen twice, in and out

  /** Lengthening a buffer changes no class and no reset anywhere in the run. */
  lemma MoreKeepsClasses(es: seq<Event>, i: nat, d: nat, j: nat)
    requires i < |es| && CarriesBytes(es[i].op) && i < j < |es|
    ensures ClassAt(More(es, i, d), j) == ClassAt(es, j) && ResetAt(More(es, i, d), j) == ResetAt(es, j)
  {
    hide Run, ClassOf, Resets, Add32, Alike, InRequest, InResponse;
    assert More(es, i, d)[..j] == More(es[..j], i, d) && More(es, i, d)[j] == es[j];
    BufferContributes(es[..j], i, d);
    CountingAlike(Run(es[..j]).rec, Run(More(es[..j], i, d)).rec, es[j]);
  }

  lemma MoreKeepsResets(es: seq<Event>, i: nat, d: nat, j: nat)
    requires i < j < |es| && CarriesBytes(es[i].op)
    ensures NoResetSince(More(es, i, d), j + 1) <==> NoResetSince(es, j + 1)
  {
    hide Run, ResetAt, More, ClassAt;
    forall k: nat | j < k < |es| ensures ResetAt(More(es, i, d), k) == ResetAt(es, k) {
      MoreKeepsClasses(es, i, d, k);
    }
  }

  /** What the return of a send contributes to the end of a run. */
  lemma ReturnContributes(es: seq<Event>, j: nat, d: nat)
    requires j < |es| && es[j].op.Sent?
    ensures var r, t := LengthsOf(Run(es).rec), LengthsOf(Run(More(es, j, d)).rec);
            t == Lengths(r.len, Add32(r.respLen, if NoResetSince(es, j + 1) then d else 0))
  {
    hide Run, ClassAt, Add32, Alike, NoResetSince, More;
    BufferContributes(es, j, d);
    SentIsReturned(es, j);
    Add32Zero(Run(es).rec.len);
  }

  /**
   A send that is seen when it enters, at event `i`, and again when it returns, at event `j`, is counted
   by both: growing the buffer by `d` moves the lengths by what each of the two events contributes.
   */
  lemma SendCountedTwice(es: seq<Event>, i: nat, j: nat, d: nat)
    requires i < j < |es| && CarriesBytes(es[i].op) && es[j].op.Sent?
    ensures var r, t := Run(es).rec, Run(More(More(es, i, d), j, d)).rec;
            && t.len == Add32(r.len, if InRequest(es, i) then d else 0)
            && t.respLen == Add32(r.respLen, (if InResponse(es, i) then d else 0) + (if NoResetSince(es, j + 1) then d else 0))
  {
    hide *;
    var ms := More(es, i, d);
    MoreAt(es, i, d, j);
    BufferContributes(es, i, d);
    MoreKeepsResets(es, i, d, j);
    ReturnContributes(ms, j, d);
    LengthsAre(Run(ms).rec);
    LengthsAre(Run(More(ms, j, d)).rec);
    Add32Twice(Run(es).rec.respLen, if InResponse(es, i) then d else 0, if NoResetSince(es, j + 1) then d else 0);
  }

  lemma MoreAt(es: seq<Event>, i: nat, d: nat, j: nat)
    requires i < j < |es| && CarriesBytes(es[i].op)
    ensures More(es, i, d)[j] == es[j] && (es[j].op.Sent? ==> CarriesBytes(es[j].op))
  {
  }

  lemma LengthsAre(r: Record)
    ensures LengthsOf(r) == Lengths(r.len, r.respLen)
  {
  }

  lemma SentIsReturned(es: seq<Event>, j: nat)
    requires j < |es| && es[j].op.Sent?
    ensures ClassAt(es, j) == Returned
  {
  }

  /** What a send put into the response length when it entered, its return puts there a second time. */
  lemma EntryThenReturn(es: seq<Event>, i: nat, j: nat)
    requires i < j < |es| && es[j].op.Sent?
    ensures InResponse(es, i) ==> InResponse(es, j)
  {
    hide Run, ClassOf, Resets, ResetAt;
    SentIsReturned(es, j);
  }

  // -------------------------------------------------------------- runs that show it

  lemma Run3(e0: Event, e1: Event, e2: Event)
    ensures var es := [e0, e1, e2];
            && Run(es[..1]) == Step(Run([]), e0) && Run(es[..2]) == Step(Run(es[..1]), e1)
            && Run(es) == Step(Run(es[..2]), e2)
  {
    var es := [e0, e1, e2];
    RunExtend([], e0);
    RunExtend([e0], e1);
    RunExtend([e0, e1], e2);
    assert es[..1] == [] + [e0] == [e0] && es[..2] == [e0] + [e1] == [e0, e1] && es == [e0, e1] + [e2];
  }

  /** Bytes can be lost: five unparsed response bytes are counted, then a parsed status drops them. */
  lemma ParsedStatusDropsBytes(now: nat)
    ensures var es := [Event(now, Request(Client, false, 1, 1, 7, 0), true),
                       Event(now, Feed(Inbound, 5, false), true),
                       Event(now, Response(Inbound, 200, 9, false, false), true)];
            && Run(es[..2]).rec.respLen == 5 && Run(es).rec.respLen == 0
            && Run(es[..2]).rec.len == Run(es).rec.len == 7
  {
    Run3(Event(now, Request(Client, false, 1, 1, 7, 0), true), Event(now, Feed(Inbound, 5, false), true),
         Event(now, Response(Inbound, 200, 9, false, false), true));
    hide Run;
    assert Run([]) == System(EMPTY, []) by { RunNone(); }
  }

  lemma RunNone()
    ensures Run([]) == System(EMPTY, [])
  {
  }

  /**
   Bytes can be counted twice: a client's seven request bytes return from their send into the response
   length, five response bytes go unparsed, and the close writes a record with twelve response bytes.
   */
  lemma ClientSendCountsAsResponse(now: nat)
    ensures var es := [Event(now, Request(Client, false, 1, 1, 7, 0), true), Event(now, Sent(7), true),
                       Event(now, Feed(Inbound, 5, false), true), Event(now, Close(0, false), true)];
            var s := Run(es);
            && s.ring == [s.rec] && s.rec.len == 7 && s.rec.respLen == 12 && Directed(es, 0) == 5
  {
    var e0, e1 := Event(now, Request(Client, false, 1, 1, 7, 0), true), Event(now, Sent(7), true);
    var e2, e3 := Event(now, Feed(Inbound, 5, false), true), Event(now, Close(0, false), true);
    var es := [e0, e1, e2, e3];
    Run3(e0, e1, e2);
    RunExtend([e0, e1, e2], e3);
    assert es[..3] == [e0, e1, e2] && es == [e0, e1, e2] + [e3];
    assert es[..3][..2] == es[..2] == [e0, e1, e2][..2] && es[..2][..1] == es[..1] == [e0, e1, e2][..1];
    assert es[..1][..0] == [];
    DirectedStep(es, 0);
    DirectedStep(es[..3], 0);
    DirectedStep(es[..2], 0);
    DirectedStep(es[..1], 0);
    hide Run, Directed;
    assert Run([]) == System(EMPTY, []) by { RunNone(); }
    assert Directed([], 0) == 0 by { DirectedNone(); }
  }

  lemma DirectedNone()
    ensures Directed([], 0) == 0
  {
  }

  lemma DirectedStep(es: seq<Event>, k: nat)
    requires |es| > k
    ensures var n := |es| - 1;
            Directed(es, k) == Directed(es[..n], k) + Gain(ResponseWay(Run(es[..n]).rec.kind, es[n].op), es[n].op)
  {
  }

  /** And a server's: five body bytes go in when the send enters and again when it returns. */
  lemma ServerSendCountsTwice(now: nat)
    ensures var es := [Event(now, Request(Server, false, 1, 1, 7, 0), true),
                       Event(now, Response(Outbound, 200, 9, false, false), true),
                       Event(now, Feed(Outbound, 5, false), true), Event(now, Sent(5), true)];
            Run(es).rec.respLen == 10 && Run(es).rec.len == 7
  {
    var e0, e1 := Event(now, Request(Server, false, 1, 1, 7, 0), true),
                  Event(now, Response(Outbound, 200, 9, false, false), true);
    var e2, e3 := Event(now, Feed(Outbound, 5, false), true), Event(now, Sent(5), true);
    Run3(e0, e1, e2);
    RunExtend([e0, e1, e2], e3);
    assert [e0, e1, e2, e3] == [e0, e1, e2] + [e3];
    hide Run;
    assert Run([]) == System(EMPTY, []) by { RunNone(); }
  }
}
