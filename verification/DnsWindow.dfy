/**
 Nameless DNS answers on unconnected UDP sockets: the stage, commit, discard and destroy
 protocol of bpf/generictracer/dns.h driven by the probes of bpf/generictracer/k_tracer.c,
 over every interleaving of threads, lost probes and evictions.
 */
module DnsWindow {
  import opened Words

  const ANSWER_TIMEOUT_NS: nat := 2_000_000_000
  const EPHEMERAL_PORT_MIN: nat := 32768

  datatype Local = Local(addr: nat, port: nat)

  datatype Conn = Conn(sAddr: nat, sPort: nat, dAddr: nat, dPort: nat) {
    function LocalEnd(): Local { Local(sAddr, sPort) }
  }

  // ----------------------------------------------------------- classification

  datatype Class = Unknown | Yes | No

  predicate IsDnsPort(port: nat) { port == 53 || port == 5353 }

  /** A message is DNS by its tuple, or by the peer in msg_name (port 0 when there is none). */
  function Classify(conn: Conn, msgPort: nat): Class {
    if IsDnsPort(conn.sPort) || IsDnsPort(conn.dPort) then Yes
    else if conn.dPort != 0 then No
    else if msgPort == 0 then Unknown
    else if IsDnsPort(msgPort) then Yes
    else No
  }

  function SortConn(c: Conn): Conn {
    if c.sPort >= EPHEMERAL_PORT_MIN && c.dPort < EPHEMERAL_PORT_MIN then c
    else if (c.dPort >= EPHEMERAL_PORT_MIN && c.sPort < EPHEMERAL_PORT_MIN) || c.dPort > c.sPort
    then Conn(c.dAddr, c.dPort, c.sAddr, c.sPort)
    else c
  }

  // ------------------------------------------------------------------ the maps

  datatype Pending = Pending(sk: nat, local: Local)

  datatype Sock = Sock(lastQuery: u64, local: Local)

  /** unconn_dns_pending and unconn_dns_socks. */
  datatype Maps = Maps(pending: map<nat, Pending>, socks: map<nat, Sock>)

  /** The query a send stages: a recognised DNS message from an unconnected socket. */
  function Query(sk: nat, conn: Option<Conn>, msgPort: nat, handled: bool): Option<Pending> {
    if conn.Some? && Classify(conn.value, msgPort) == Yes && handled && conn.value.dPort == 0
    then Some(Pending(sk, conn.value.LocalEnd())) else None
  }

  /** Unsigned 64-bit difference of two clock readings. */
  function Elapsed(now: u64, earlier: u64): u64 { (now - earlier) % 0x1_0000_0000_0000_0000 }

  predicate Expected(socks: map<nat, Sock>, sk: nat, local: Local, now: u64) {
    sk in socks && socks[sk].local == local && Elapsed(now, socks[sk].lastQuery) <= ANSWER_TIMEOUT_NS
  }

  class UnconnDns {
    var pending: map<nat, Pending>
    var socks: map<nat, Sock>

    ghost function State(): Maps
      reads this
    {
      Maps(pending, socks)
    }

    method ForgetSock(sk: nat)
      modifies this`socks
      ensures socks == old(socks) - {sk}
    {
      socks := socks - {sk};
    }

    method NoteQuery(sk: nat, local: Local, now: u64)
      modifies this`socks
      ensures socks == old(socks)[sk := Sock(now, local)]
    {
      socks := socks[sk := Sock(now, local)];
    }

    method StageQuery(tid: nat, sk: nat, local: Local)
      modifies this`pending
      ensures pending == old(pending)[tid := Pending(sk, local)]
    {
      pending := pending[tid := Pending(sk, local)];
    }

    method DiscardQuery(tid: nat)
      modifies this`pending
      ensures pending == old(pending) - {tid}
    {
      pending := pending - {tid};
    }

    method CommitQuery(tid: nat, now: u64)
      modifies this
      ensures pending == old(pending) - {tid}
      ensures socks == if tid in old(pending)
                       then old(socks)[old(pending)[tid].sk := Sock(now, old(pending)[tid].local)] else old(socks)
    {
      if tid !in pending {
        return;
      }
      var staged := pending[tid];
      NoteQuery(staged.sk, staged.local, now);
      DiscardQuery(tid);
    }

    method AnswerExpected(sk: nat, local: Local, now: u64) returns (expected: bool)
      modifies this`socks
      ensures expected == Expected(old(socks), sk, local, now)
      ensures socks == if expected then old(socks) else old(socks) - {sk}
    {
      if sk !in socks {
        return false;
      }
      var state := socks[sk];
      if state.local != local {
        ForgetSock(sk);
        return false;
      }
      if Elapsed(now, state.lastQuery) > ANSWER_TIMEOUT_NS {
        ForgetSock(sk);
        return false;
      }
      return true;
    }

    /** kprobe/udp_sendmsg; `handled` is whether the payload was recognised as a DNS message. */
    method SendEntry(tid: nat, sk: nat, conn: Option<Conn>, msgPort: nat, handled: bool)
      modifies this`pending
      ensures State() == Step(old(State()), 0, Send(tid, sk, conn, msgPort, handled))
    {
      DiscardQuery(tid);
      if conn.Some? {
        if Classify(conn.value, msgPort) == Yes {
          if handled && conn.value.dPort == 0 {
            StageQuery(tid, sk, conn.value.LocalEnd());
          }
        }
      }
    }

    /** kretprobe/udp_sendmsg */
    method SendReturn(tid: nat, ret: int, now: u64)
      modifies this
      ensures State() == Step(old(State()), now, Return(tid, ret))
    {
      if ret > 0 {
        CommitQuery(tid, now);
      } else {
        DiscardQuery(tid);
      }
    }

    /** kprobe/udp_destroy_sock */
    method DestroySock(sk: nat)
      modifies this`socks
      ensures State() == Step(old(State()), 0, Destroy(sk))
    {
      ForgetSock(sk);
    }

    /** kretprobe/sock_recvmsg: is the received datagram taken for DNS? */
    method RecvReturn(sk: nat, conn: Option<Conn>, msgPort: nat, now: u64) returns (dns: bool)
      modifies this`socks
      ensures State() == Step(old(State()), now, Recv(sk, conn, msgPort))
      ensures dns <==> conn.Some? && (Classify(SortConn(conn.value), msgPort) == Yes ||
                                      (Nameless(conn, msgPort) && Expected(old(socks), sk, conn.value.LocalEnd(), now)))
    {
      dns := false;
      if conn.Some? {
        var local := conn.value.LocalEnd();
        SortIrrelevant(conn.value);
        var sorted := SortConn(conn.value);
        var dnsClass := Classify(sorted, msgPort);
        dns := dnsClass == Yes;
        if dnsClass == Unknown && conn.value.dPort == 0 {
          var expected := AnswerExpected(sk, local, now);
          if expected {
            dns := true;
          }
        }
      }
    }
  }

  /** An unconnected tuple is already in sorted order, so sorting cannot hide a nameless datagram. */
  lemma SortIrrelevant(c: Conn)
    ensures c.dPort == 0 ==> SortConn(c) == c
  {
  }

  // --------------------------------------------------------------------- runs

  datatype Op =
    | Send(tid: nat, sk: nat, conn: Option<Conn>, msgPort: nat, handled: bool)
    | Return(tid: nat, ret: int)
    | Destroy(sk: nat)
    | Recv(sk: nat, conn: Option<Conn>, msgPort: nat)
    | EvictPending(tid: nat)
    | EvictSock(sk: nat)

  /** A datagram with no usable peer, on an unconnected socket. */
  predicate Nameless(conn: Option<Conn>, msgPort: nat) {
    conn.Some? && conn.value.dPort == 0 && Classify(conn.value, msgPort) == Unknown
  }

  function Step(m: Maps, now: u64, op: Op): Maps {
    match op
    case Send(tid, sk, conn, msgPort, handled) =>
      var q := Query(sk, conn, msgPort, handled);
      m.(pending := if q.Some? then m.pending[tid := q.value] else m.pending - {tid})
    case Return(tid, ret) =>
      Maps(m.pending - {tid},
           if ret > 0 && tid in m.pending then m.socks[m.pending[tid].sk := Sock(now, m.pending[tid].local)]
           else m.socks)
    case Destroy(sk) => m.(socks := m.socks - {sk})
    case Recv(sk, conn, msgPort) =>
      if Nameless(conn, msgPort) && !Expected(m.socks, sk, conn.value.LocalEnd(), now)
      then m.(socks := m.socks - {sk}) else m
    case EvictPending(tid) => m.(pending := m.pending - {tid})
    case EvictSock(sk) => m.(socks := m.socks - {sk})
  }

  datatype Event = Event(at: u64, op: Op)

  function Run(evs: seq<Event>): Maps {
    if evs == [] then Maps(map[], map[])
    else Step(Run(evs[..|evs| - 1]), evs[|evs| - 1].at, evs[|evs| - 1].op)
  }

  /** The clock never runs backwards. */
  ghost predicate Ordered(evs: seq<Event>, now: u64) {
    && (forall i, j :: 0 <= i < j < |evs| ==> evs[i].at <= evs[j].at)
    && (forall i :: 0 <= i < |evs| ==> evs[i].at <= now)
  }

  // ---------------------------------------------------- what history promises

  /** The operation ends whatever send the thread had under way. */
  predicate Touches(op: Op, tid: nat) {
    match op
    case Send(t, _, _, _, _) => t == tid
    case Return(t, _) => t == tid
    case EvictPending(t) => t == tid
    case _ => false
  }

  /** Event `j` staged query `q` on the thread and nothing has superseded it before `i`. */
  ghost predicate StagedAt(evs: seq<Event>, j: nat, i: nat, tid: nat, q: Pending) {
    && j < i <= |evs|
    && evs[j].op.Send? && evs[j].op.tid == tid
    && Query(evs[j].op.sk, evs[j].op.conn, evs[j].op.msgPort, evs[j].op.handled) == Some(q)
    && forall k :: j < k < i ==> !Touches(evs[k].op, tid)
  }

  /** Event `i` is the return, with a positive count, of a recognised query sent on `sk` from `local`. */
  ghost predicate Opens(evs: seq<Event>, i: nat, sk: nat, local: Local) {
    && i < |evs| && evs[i].op.Return? && evs[i].op.ret > 0
    && exists j: nat :: StagedAt(evs, j, i, evs[i].op.tid, Pending(sk, local))
  }

  /** Event `k` ends a window on `sk` for `local`. */
  ghost predicate Retires(evs: seq<Event>, k: nat, sk: nat, local: Local)
    requires k < |evs|
  {
    match evs[k].op
    case Destroy(s) => s == sk
    case EvictSock(s) => s == sk
    case Recv(s, conn, msgPort) => s == sk && Nameless(conn, msgPort) && conn.value.LocalEnd() != local
    case Return(_, _) => exists other :: other != local && Opens(evs, k, sk, other)
    case _ => false
  }

  /** A window opened at `i` and not retired since. */
  ghost predicate Window(evs: seq<Event>, i: nat, sk: nat, local: Local) {
    Opens(evs, i, sk, local) && forall k :: i < k < |evs| ==> !Retires(evs, k, sk, local)
  }

  // -------------------------------------------------------- prefixes of a run

  lemma StagedPrefix(evs: seq<Event>, n: nat, j: nat, i: nat, tid: nat, q: Pending)
    requires i <= n <= |evs|
    ensures StagedAt(evs[..n], j, i, tid, q) <==> StagedAt(evs, j, i, tid, q)
  {
    assert forall k :: 0 <= k < n ==> evs[..n][k] == evs[k];
  }

  lemma OpensPrefix(evs: seq<Event>, n: nat, i: nat, sk: nat, local: Local)
    requires i < n <= |evs|
    ensures Opens(evs[..n], i, sk, local) <==> Opens(evs, i, sk, local)
  {
    assert evs[..n][i] == evs[i];
    if evs[i].op.Return? {
      forall j: nat ensures StagedAt(evs[..n], j, i, evs[i].op.tid, Pending(sk, local))
                       <==> StagedAt(evs, j, i, evs[i].op.tid, Pending(sk, local)) {
        StagedPrefix(evs, n, j, i, evs[i].op.tid, Pending(sk, local));
      }
    }
  }

  lemma RetiresPrefix(evs: seq<Event>, n: nat, k: nat, sk: nat, local: Local)
    requires k < n <= |evs|
    ensures Retires(evs[..n], k, sk, local) <==> Retires(evs, k, sk, local)
  {
    assert evs[..n][k] == evs[k];
    forall other ensures Opens(evs[..n], k, sk, other) <==> Opens(evs, k, sk, other) {
      OpensPrefix(evs, n, k, sk, other);
    }
  }

  /** A window of the whole run is a window of the run before its last event, and back if not retired then. */
  lemma WindowPrefix(evs: seq<Event>, i: nat, sk: nat, local: Local)
    requires i + 1 < |evs|
    ensures Window(evs, i, sk, local) <==>
            Window(evs[..|evs| - 1], i, sk, local) && !Retires(evs, |evs| - 1, sk, local)
  {
    var n := |evs| - 1;
    OpensPrefix(evs, n, i, sk, local);
    forall k: nat | i < k < n ensures Retires(evs[..n], k, sk, local) <==> Retires(evs, k, sk, local) {
      RetiresPrefix(evs, n, k, sk, local);
    }
  }

  // ------------------------------------------------------------- the maps obey

  /** The pending map holds exactly the staged queries nothing has superseded. */
  lemma {:induction false} PendingIsStaged(evs: seq<Event>, tid: nat, q: Pending)
    ensures tid in Run(evs).pending && Run(evs).pending[tid] == q <==> exists j: nat :: StagedAt(evs, j, |evs|, tid, q)
  {
    if evs != [] {
      var n := |evs| - 1;
      var init, op := evs[..n], evs[n].op;
      PendingIsStaged(init, tid, q);
      forall j: nat | j < n ensures StagedAt(evs, j, |evs|, tid, q) <==> StagedAt(init, j, n, tid, q) && !Touches(op, tid) {
        StagedPrefix(evs, n, j, n, tid, q);
      }
      if tid in Run(evs).pending && Run(evs).pending[tid] == q {
        if Touches(op, tid) {
          assert StagedAt(evs, n, |evs|, tid, q);
        } else {
          var j: nat :| StagedAt(init, j, n, tid, q);
          assert StagedAt(evs, j, |evs|, tid, q);
        }
      }
    }
  }

  /** A return opens a window for exactly the query its thread had pending. */
  lemma OpensIsPending(evs: seq<Event>, sk: nat, local: Local)
    requires evs != [] && evs[|evs| - 1].op.Return?
    ensures var n := |evs| - 1; var op, m := evs[n].op, Run(evs[..n]);
            Opens(evs, n, sk, local) <==>
            op.ret > 0 && op.tid in m.pending && m.pending[op.tid] == Pending(sk, local)
  {
    var n := |evs| - 1;
    var tid, q := evs[n].op.tid, Pending(sk, local);
    PendingIsStaged(evs[..n], tid, q);
    forall j: nat ensures StagedAt(evs[..n], j, n, tid, q) <==> StagedAt(evs, j, n, tid, q) {
      StagedPrefix(evs, n, j, n, tid, q);
    }
  }

  /** Every socket entry is a window that history opened and nothing retired. */
  lemma {:induction false} SocksAreWindows(evs: seq<Event>, sk: nat)
    requires sk in Run(evs).socks
    ensures exists i: nat :: Window(evs, i, sk, Run(evs).socks[sk].local) && evs[i].at == Run(evs).socks[sk].lastQuery
  {
    var n := |evs| - 1;
    var init, op, sock := evs[..n], evs[n].op, Run(evs).socks[sk];
    if op.Return? && Opens(evs, n, sk, sock.local) {
      OpensIsPending(evs, sk, sock.local);
      assert Window(evs, n, sk, sock.local);
    } else {
      if op.Return? && op.tid in Run(init).pending {
        OpensIsPending(evs, sk, Run(init).pending[op.tid].local);
      }
      assert sk in Run(init).socks && Run(init).socks[sk] == sock;
      SocksAreWindows(init, sk);
      var i: nat :| Window(init, i, sk, sock.local) && init[i].at == sock.lastQuery;
      NotRetired(evs, sk);
      WindowPrefix(evs, i, sk, sock.local);
    }
  }

  lemma NotRetired(evs: seq<Event>, sk: nat)
    requires evs != [] && sk in Run(evs).socks
    ensures !Retires(evs, |evs| - 1, sk, Run(evs).socks[sk].local)
  {
    var n := |evs| - 1;
    if evs[n].op.Return? {
      forall other ensures Opens(evs, n, sk, other) ==> other == Run(evs).socks[sk].local {
        OpensIsPending(evs, sk, other);
      }
    }
  }

  /** Every unretired window that is still young has its socket entry. */
  lemma {:induction false} WindowsAreSocks(evs: seq<Event>, i: nat, sk: nat, local: Local, now: u64)
    requires Window(evs, i, sk, local) && Ordered(evs, now) && now - evs[i].at <= ANSWER_TIMEOUT_NS
    ensures sk in Run(evs).socks && Run(evs).socks[sk].local == local
    ensures evs[i].at <= Run(evs).socks[sk].lastQuery <= now
  {
    var n := |evs| - 1;
    var init, op := evs[..n], evs[n].op;
    if i == n {
      OpensIsPending(evs, sk, local);
    } else {
      WindowPrefix(evs, i, sk, local);
      assert Ordered(init, evs[n].at);
      WindowsAreSocks(init, i, sk, local, evs[n].at);
      if op.Return? && op.tid in Run(init).pending {
        OpensIsPending(evs, sk, Run(init).pending[op.tid].local);
      }
    }
  }

  /**
   A nameless answer is expected on a socket exactly when some recognised query sent on it from
   that local address returned a positive count within the last two seconds and nothing has
   retired the window since.
   */
  lemma ExpectedIffWindow(evs: seq<Event>, sk: nat, local: Local, now: u64)
    requires Ordered(evs, now)
    ensures Expected(Run(evs).socks, sk, local, now) <==>
            exists i: nat :: Window(evs, i, sk, local) && now - evs[i].at <= ANSWER_TIMEOUT_NS
  {
    if Expected(Run(evs).socks, sk, local, now) {
      SocksAreWindows(evs, sk);
    }
    if i: nat :| Window(evs, i, sk, local) && now - evs[i].at <= ANSWER_TIMEOUT_NS {
      WindowsAreSocks(evs, i, sk, local, now);
    }
  }

  /**
   Safety, spelled out: behind every expected answer there is a send of a recognised DNS message on
   that socket address from that local address, whose own return reported a positive count at most
   two seconds ago, and the socket has not been destroyed since. A failed, superseded or lost send
   opens nothing.
   */
  lemma ExpectedOnlyAfterSend(evs: seq<Event>, sk: nat, local: Local, now: u64) returns (j: nat, i: nat)
    requires Ordered(evs, now) && Expected(Run(evs).socks, sk, local, now)
    ensures j < i < |evs| && evs[j].op.Send? && evs[i].op.Return? && evs[i].op.tid == evs[j].op.tid
    ensures evs[j].op.sk == sk && evs[j].op.handled && evs[j].op.conn.Some?
    ensures var conn := evs[j].op.conn.value;
            conn.LocalEnd() == local && conn.dPort == 0 && Classify(conn, evs[j].op.msgPort) == Yes
    ensures forall k :: j < k < i ==> !Touches(evs[k].op, evs[i].op.tid)
    ensures evs[i].op.ret > 0 && now - evs[i].at <= ANSWER_TIMEOUT_NS
    ensures forall k :: i < k < |evs| ==> evs[k].op != Destroy(sk)
  {
    ExpectedIffWindow(evs, sk, local, now);
    i :| Window(evs, i, sk, local) && now - evs[i].at <= ANSWER_TIMEOUT_NS;
    j :| StagedAt(evs, j, i, evs[i].op.tid, Pending(sk, local));
    forall k: nat | i < k < |evs| ensures evs[k].op != Destroy(sk) {
      assert !Retires(evs, k, sk, local);
    }
  }

  predicate SendsFromElsewhere(op: Op, sk: nat, local: Local) {
    op.Send? && op.sk == sk && op.conn.Some? && op.conn.value.LocalEnd() != local
  }

  /** The send of event `j` was over by event `i`: its thread returned, sent again or was evicted. */
  ghost predicate EndedBy(evs: seq<Event>, j: nat, i: nat)
    requires j < |evs| && i < |evs| && evs[j].op.Send?
  {
    exists m :: j < m <= i && Touches(evs[m].op, evs[j].op.tid)
  }

  /**
   Liveness, spelled out: once such a query returned, every nameless datagram on the socket within
   two seconds is expected, however many arrive and whatever other sends any thread makes, as long
   as the socket is neither destroyed nor evicted, is received on under the same local address since,
   and no send on it from another address was still under way at that return or began later.
   */
  lemma AnswersStayExpected(evs: seq<Event>, i: nat, sk: nat, local: Local, now: u64)
    requires Ordered(evs, now) && Opens(evs, i, sk, local) && now - evs[i].at <= ANSWER_TIMEOUT_NS
    requires forall k :: i < k < |evs| ==> evs[k].op != Destroy(sk) && evs[k].op != EvictSock(sk)
    requires forall k :: (i < k < |evs| && evs[k].op.Recv? && evs[k].op.sk == sk && evs[k].op.conn.Some?)
                         ==> evs[k].op.conn.value.LocalEnd() == local
    requires forall j :: 0 <= j < |evs| && SendsFromElsewhere(evs[j].op, sk, local) ==> EndedBy(evs, j, i)
    ensures Expected(Run(evs).socks, sk, local, now)
  {
    forall k: nat | i < k < |evs| ensures !Retires(evs, k, sk, local) {
      forall other | Opens(evs, k, sk, other) ensures other == local {
        var j: nat :| StagedAt(evs, j, k, evs[k].op.tid, Pending(sk, other));
        assert SendsFromElsewhere(evs[j].op, sk, local) <==> other != local;
      }
    }
    assert Window(evs, i, sk, local);
    ExpectedIffWindow(evs, sk, local, now);
  }
}
