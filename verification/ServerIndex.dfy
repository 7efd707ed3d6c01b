/**
 The index from (process, trace id) to the server request being handled
 (bpf/common/http_trace_parent.h), over every run of indexing, unindexing, eviction and
 arbitrary change of the live request tables.
 */
module ServerIndex {
  import opened Words
  import Http = HttpRecord

  // ------------------------------------------------------ live request tables

  datatype PidConn = PidConn(conn: nat, pid: nat)

  /** A connection and stream; stream 0 names the HTTP/1 request of the connection. */
  datatype Stream = Stream(pidConn: PidConn, streamId: nat)

  datatype Tp = Tp(traceId: nat, spanId: nat, parentId: nat, ts: nat, flags: nat)

  datatype HttpInfo = HttpInfo(rec: Http.Record, tp: Tp)

  datatype H2Request = H2Request(isServer: bool, start: nat, end: nat, connId: nat, tp: Tp)

  /** ongoing_http, ongoing_http2_grpc and ongoing_http2_connections. */
  datatype Tables = Tables(http: map<PidConn, HttpInfo>, h2: map<Stream, H2Request>, conns: map<PidConn, nat>)

  predicate Unfinished(r: Http.Record) { r.kind == Http.Server && !r.submitted && Http.StillReading(r) }

  /** The unfinished server request a slot holds now, if any. */
  function ServerAt(t: Tables, s: Stream): Option<Tp> {
    if s.streamId != 0 then
      if s in t.h2 && s.pidConn in t.conns && t.h2[s].connId == t.conns[s.pidConn] &&
         t.h2[s].isServer && t.h2[s].end == 0 && t.h2[s].start != 0
      then Some(t.h2[s].tp) else None
    else
      if s.pidConn in t.http && Unfinished(t.http[s.pidConn].rec)
      then Some(t.http[s.pidConn].tp) else None
  }

  // ---------------------------------------------------------------- the index

  datatype Key = Key(pid: nat, traceId: nat)

  datatype Ref = Ref(stream: Stream, spanId: nat, ambiguous: bool)

  type Index = map<Key, Ref>

  /** The request an entry points at, while it can still parent children. */
  function IndexedTp(t: Tables, ref: Ref): Option<Tp> {
    var tp := ServerAt(t, ref.stream);
    if tp.Some? && tp.value.spanId == ref.spanId then tp else None
  }

  function AfterIndex(index: Index, t: Tables, stream: Stream, tp: Tp): Index {
    var key, ref := Key(stream.pidConn.pid, tp.traceId), Ref(stream, tp.spanId, false);
    if tp.traceId == 0 || tp.spanId == 0 then index
    else if key !in index then index[key := ref]
    else if index[key].spanId == tp.spanId then index
    else if !index[key].ambiguous && IndexedTp(t, index[key]).None? then index[key := ref]
    else index[key := index[key].(ambiguous := true)]
  }

  function AfterUnindex(index: Index, pid: nat, tp: Tp): Index {
    var key := Key(pid, tp.traceId);
    if key in index && !index[key].ambiguous && index[key].spanId == tp.spanId then index - {key} else index
  }

  function Find(index: Index, t: Tables, pid: nat, traceId: nat): Option<Tp> {
    var key := Key(pid, traceId);
    if key !in index || index[key].ambiguous then None
    else
      var tp := IndexedTp(t, index[key]);
      if tp.Some? && tp.value.traceId == traceId then tp else None
  }

  /** What a lookup hands out: a copy marked valid and unwritten. */
  datatype Parent = Parent(tp: Tp, pid: nat, valid: bool, written: bool, responseSent: bool)

  class HttpServerIndex {
    var tables: Tables
    var index: Index

    method IndexServerContext(stream: Stream, tp: Tp)
      modifies this`index
      ensures index == AfterIndex(old(index), tables, stream, tp)
    {
      if tp.traceId == 0 || tp.spanId == 0 {
        return;
      }
      var key := Key(stream.pidConn.pid, tp.traceId);
      var ref := Ref(stream, tp.spanId, false);
      if key !in index {
        index := index[key := ref];
        return;
      }
      var existing := index[key];
      if existing.spanId == tp.spanId {
        return;
      }
      var live := IndexedServerTp(existing);
      if !existing.ambiguous && live.None? {
        index := index[key := ref];
        return;
      }
      index := index[key := existing.(ambiguous := true)];
    }

    method UnindexServerTrace(pid: nat, tp: Tp)
      modifies this`index
      ensures index == AfterUnindex(old(index), pid, tp)
    {
      var key := Key(pid, tp.traceId);
      if key in index {
        var ref := index[key];
        if !ref.ambiguous && ref.spanId == tp.spanId {
          index := index - {key};
        }
      }
    }

    method IndexedServerTp(ref: Ref) returns (tp: Option<Tp>)
      ensures tp == IndexedTp(tables, ref)
    {
      tp := None;
      if ref.stream.streamId != 0 {
        if ref.stream !in tables.h2 || ref.stream.pidConn !in tables.conns {
          return;
        }
        var server := tables.h2[ref.stream];
        if server.connId != tables.conns[ref.stream.pidConn] || !server.isServer || server.end != 0 || server.start == 0 {
          return;
        }
        tp := Some(server.tp);
      } else {
        if ref.stream.pidConn !in tables.http {
          return;
        }
        var server := tables.http[ref.stream.pidConn];
        if server.rec.kind != Http.Server || server.rec.submitted || !Http.StillReading(server.rec) {
          return;
        }
        tp := Some(server.tp);
      }
      if tp.value.spanId != ref.spanId {
        tp := None;
      }
    }

    /** `scratch` is whether the per-CPU copy the parent is returned in was available. */
    method FindServerTrace(pid: nat, traceId: nat, scratch: bool) returns (parent: Option<Parent>)
      ensures match Find(index, tables, pid, traceId)
              case None => parent.None?
              case Some(tp) => parent == if scratch then Some(Parent(tp, pid, true, false, false)) else None
    {
      var key := Key(pid, traceId);
      if key !in index || index[key].ambiguous {
        return None;
      }
      var tp := IndexedServerTp(index[key]);
      if tp.None? || tp.value.traceId != traceId {
        return None;
      }
      if !scratch {
        return None;
      }
      return Some(Parent(tp.value, pid, true, false, false));
    }
  }

  // --------------------------------------------------------------------- runs

  datatype Event =
    | IndexEv(stream: Stream, tp: Tp)
    | UnindexEv(pid: nat, tp: Tp)
    | TablesEv(tables: Tables)      // requests start, end, are replaced or rewritten
    | EvictEv(key: Key)             // the LRU drops an index entry

  /** A request as it was when indexed. */
  datatype Request = Request(stream: Stream, traceId: nat, spanId: nat) {
    function IndexKey(): Key { Key(stream.pidConn.pid, traceId) }
  }

  /** The slot still holds this request, unfinished and under the same ids. */
  predicate LiveAs(t: Tables, r: Request) {
    var tp := ServerAt(t, r.stream);
    tp.Some? && tp.value.traceId == r.traceId && tp.value.spanId == r.spanId
  }

  /** A reachable state. */
  datatype World = World(tables: Tables, index: Index)

  function Init(): World { World(Tables(map[], map[], map[]), map[]) }

  function Step(w: World, e: Event): World {
    match e
    case IndexEv(stream, tp) => w.(index := AfterIndex(w.index, w.tables, stream, tp))
    case UnindexEv(pid, tp) => w.(index := AfterUnindex(w.index, pid, tp))
    case TablesEv(t) => w.(tables := t)
    case EvictEv(key) => w.(index := w.index - {key})
  }

  function Run(events: seq<Event>): World {
    if events == [] then Init() else Step(Run(events[..|events| - 1]), events[|events| - 1])
  }

  // --------------------------------------------------- soundness in every run

  predicate KeysMatchPids(index: Index) {
    forall k :: k in index ==> index[k].stream.pidConn.pid == k.pid
  }

  lemma {:induction false} IndexKeepsPids(events: seq<Event>)
    ensures KeysMatchPids(Run(events).index)
  {
    if events != [] {
      IndexKeepsPids(events[..|events| - 1]);
    }
  }

  /**
   In every reachable state, evictions included, a lookup returns a context only if the tables now
   hold an unfinished server request of that process, under that trace id, with exactly that context.
   */
  lemma FindIsSound(events: seq<Event>, pid: nat, traceId: nat)
    requires Find(Run(events).index, Run(events).tables, pid, traceId).Some?
    ensures var tp := Find(Run(events).index, Run(events).tables, pid, traceId).value;
            && tp.traceId == traceId
            && exists s: Stream :: s.pidConn.pid == pid && ServerAt(Run(events).tables, s) == Some(tp)
  {
    IndexKeepsPids(events);
    var w := Run(events);
    var s := w.index[Key(pid, traceId)].stream;
    assert s.pidConn.pid == pid && ServerAt(w.tables, s).Some?;
  }

  // ------------------------------------------ completeness without eviction

  /** Span ids are fresh per request: one span is only ever indexed for one stream. */
  ghost predicate FreshSpans(events: seq<Event>) {
    forall i, j :: (0 <= i < |events| && 0 <= j < |events| && events[i].IndexEv? && events[j].IndexEv? &&
                    events[i].tp.spanId == events[j].tp.spanId) ==> events[i].stream == events[j].stream
  }

  ghost predicate NoEviction(events: seq<Event>) {
    forall i :: 0 <= i < |events| ==> !events[i].EvictEv?
  }

  predicate Ambiguous(w: World, key: Key) { key in w.index && w.index[key].ambiguous }

  // What the history says about a request.

  predicate Indexes(e: Event, r: Request) {
    e.IndexEv? && e.tp.spanId != 0 && e.tp.traceId != 0 && Request(e.stream, e.tp.traceId, e.tp.spanId) == r
  }

  predicate Unindexes(e: Event, r: Request) {
    e.UnindexEv? && Key(e.pid, e.tp.traceId) == r.IndexKey() && e.tp.spanId == r.spanId
  }

  /** Another request of the same process and trace is indexed. */
  predicate Rivals(e: Event, r: Request) {
    && e.IndexEv? && e.tp.spanId != 0 && e.tp.traceId != 0
    && Key(e.stream.pidConn.pid, e.tp.traceId) == r.IndexKey() && e.tp.spanId != r.spanId
  }

  /** The slot holds the request's span, unfinished. */
  predicate SlotHolds(t: Tables, r: Request) {
    ServerAt(t, r.stream).Some? && ServerAt(t, r.stream).value.spanId == r.spanId
  }

  /** `r` was last indexed by event `i`, and not unindexed among the first `n` events. */
  ghost predicate IndexedSince(events: seq<Event>, n: nat, i: nat, r: Request)
    requires n <= |events|
  {
    && i < n && Indexes(events[i], r)
    && forall k :: i < k < n ==> !Indexes(events[k], r) && !Unindexes(events[k], r)
  }

  /** A rival was indexed, among the first `n` events, while the slot of `r` did not hold it. */
  ghost predicate Displaced(events: seq<Event>, n: nat, i: nat, r: Request)
    requires n <= |events|
  {
    exists k: nat :: i < k < n && Rivals(events[k], r) && !SlotHolds(Run(events[..k]).tables, r)
  }

  lemma RunStep(events: seq<Event>, n: nat)
    requires n < |events|
    ensures Run(events[..n + 1]) == Step(Run(events[..n]), events[n])
  {
    assert events[..n + 1][..n] == events[..n];
  }

  lemma AmbiguousStays(w: World, e: Event, key: Key)
    requires Ambiguous(w, key) && !e.EvictEv?
    ensures Ambiguous(Step(w, e), key)
  {
  }

  lemma {:induction false} AmbiguousForever(events: seq<Event>, m: nat, n: nat, key: Key)
    requires NoEviction(events) && m <= n <= |events| && Ambiguous(Run(events[..m]), key)
    ensures Ambiguous(Run(events[..n]), key)
  {
    hide Step, Ambiguous;
    if m < n {
      AmbiguousForever(events, m, n - 1, key);
      RunStep(events, n - 1);
      AmbiguousStays(Run(events[..n - 1]), events[n - 1], key);
    }
  }

  /** Every entry was put there by indexing exactly the request it names. */
  lemma {:induction false} EntriesWereIndexed(events: seq<Event>, n: nat, key: Key) returns (i: nat)
    requires NoEviction(events) && n <= |events| && key in Run(events[..n]).index
    ensures i < n
    ensures var ref := Run(events[..n]).index[key];
            var r := Request(ref.stream, key.traceId, ref.spanId);
            r.IndexKey() == key && Indexes(events[i], r)
  {
    RunStep(events, n - 1);
    var w := Run(events[..n - 1]);
    if key in w.index && w.index[key].stream == Run(events[..n]).index[key].stream &&
       w.index[key].spanId == Run(events[..n]).index[key].spanId {
      i := EntriesWereIndexed(events, n - 1, key);
    } else {
      i := n - 1;
    }
  }

  /** An event of its own span puts the request in its entry, unless the key turns ambiguous. */
  lemma IndexingTakes(events: seq<Event>, i: nat, r: Request)
    requires FreshSpans(events) && NoEviction(events) && i < |events| && Indexes(events[i], r)
    ensures var w := Run(events[..i + 1]);
            r.IndexKey() in w.index &&
            (w.index[r.IndexKey()].ambiguous || w.index[r.IndexKey()] == Ref(r.stream, r.spanId, false))
  {
    RunStep(events, i);
    var w, key := Run(events[..i]), r.IndexKey();
    if key in w.index && w.index[key].spanId == r.spanId {
      var j := EntriesWereIndexed(events, i, key);
      assert events[j].stream == events[i].stream;
    }
  }

  /** What has become of the entry of `r` after `n` events: ambiguous, still its own, or never again. */
  ghost predicate Fate(events: seq<Event>, n: nat, i: nat, r: Request)
    requires n <= |events|
  {
    var w, key := Run(events[..n]), r.IndexKey();
    || Ambiguous(w, key)
    || (if Displaced(events, n, i, r) then key in w.index ==> w.index[key].spanId != r.spanId
        else key in w.index && w.index[key] == Ref(r.stream, r.spanId, false))
  }

  /** One more event keeps that trichotomy. */
  lemma FateStep(events: seq<Event>, n: nat, i: nat, r: Request)
    requires FreshSpans(events) && NoEviction(events) && n < |events| && IndexedSince(events, n + 1, i, r) && i < n
    requires Fate(events, n, i, r)
    ensures Fate(events, n + 1, i, r)
  {
    RunStep(events, n);
    var w, e, key := Run(events[..n]), events[n], r.IndexKey();
    assert e.IndexEv? && e.tp.spanId == r.spanId ==> e.stream == events[i].stream;
    if Ambiguous(w, key) {
      AmbiguousStays(w, e, key);
    } else {
      assert Displaced(events, n + 1, i, r) <==>
             Displaced(events, n, i, r) || (Rivals(e, r) && !SlotHolds(w.tables, r));
    }
  }

  lemma {:induction false} EntryFate(events: seq<Event>, n: nat, i: nat, r: Request)
    requires FreshSpans(events) && NoEviction(events) && n <= |events| && IndexedSince(events, n, i, r)
    ensures Fate(events, n, i, r)
  {
    if i + 1 == n {
      IndexingTakes(events, i, r);
    } else {
      EntryFate(events, n - 1, i, r);
      FateStep(events, n - 1, i, r);
    }
  }

  /** `r` was indexed and not unindexed since, and its slot now holds it under the same ids. */
  ghost predicate LiveIndexed(events: seq<Event>, i: nat, r: Request) {
    IndexedSince(events, |events|, i, r) && LiveAs(Run(events).tables, r)
  }

  /**
   A live indexed request whose key is not ambiguous is found if and only if no rival was indexed
   since at a moment when its slot did not hold it unfinished.
   */
  lemma FoundIff(events: seq<Event>, i: nat, r: Request)
    requires FreshSpans(events) && NoEviction(events) && LiveIndexed(events, i, r)
    requires !Ambiguous(Run(events), r.IndexKey())
    ensures var w := Run(events);
            Find(w.index, w.tables, r.stream.pidConn.pid, r.traceId) == ServerAt(w.tables, r.stream)
            <==> !Displaced(events, |events|, i, r)
  {
    EntryFate(events, |events|, i, r);
    WholeSlice(events);
  }

  /** A request that stayed in its slot from indexing to lookup cannot have been displaced. */
  lemma FindIsComplete(events: seq<Event>, i: nat, r: Request)
    requires FreshSpans(events) && NoEviction(events) && LiveIndexed(events, i, r)
    requires forall k: nat :: i < k < |events| && events[k].IndexEv? ==> SlotHolds(Run(events[..k]).tables, r)
    ensures var w := Run(events);
            || Ambiguous(w, r.IndexKey())
            || Find(w.index, w.tables, r.stream.pidConn.pid, r.traceId) == ServerAt(w.tables, r.stream)
  {
    if !Ambiguous(Run(events), r.IndexKey()) {
      FoundIff(events, i, r);
    }
  }

  /**
   What a lookup returns is a request that was indexed, is live and was never displaced; every other
   live indexed request of that process and trace was displaced while its slot did not hold it.
   */
  lemma FoundIsOnly(events: seq<Event>, pid: nat, traceId: nat) returns (i: nat, r: Request)
    requires FreshSpans(events) && NoEviction(events)
    requires Find(Run(events).index, Run(events).tables, pid, traceId).Some?
    ensures r.IndexKey() == Key(pid, traceId) && LiveIndexed(events, i, r) && !Displaced(events, |events|, i, r)
    ensures Find(Run(events).index, Run(events).tables, pid, traceId) == ServerAt(Run(events).tables, r.stream)
    ensures forall j: nat, q: Request ::
              LiveIndexed(events, j, q) && q.IndexKey() == r.IndexKey() && q != r ==> Displaced(events, |events|, j, q)
  {
    WholeSlice(events);
    var w, key := Run(events), Key(pid, traceId);
    r := Request(w.index[key].stream, traceId, w.index[key].spanId);
    i := LastIndexed(events, |events|, key);
    EntryFate(events, |events|, i, r);
    forall j: nat, q: Request | LiveIndexed(events, j, q) && q.IndexKey() == key && q != r
      ensures Displaced(events, |events|, j, q)
    {
      EntryFate(events, |events|, j, q);
    }
  }

  /** The last event that indexed the request of an unambiguous entry; it was not unindexed since. */
  lemma {:induction false} LastIndexed(events: seq<Event>, n: nat, key: Key) returns (i: nat)
    requires FreshSpans(events) && NoEviction(events) && n <= |events|
    requires key in Run(events[..n]).index && !Run(events[..n]).index[key].ambiguous
    ensures var ref := Run(events[..n]).index[key];
            IndexedSince(events, n, i, Request(ref.stream, key.traceId, ref.spanId))
            && ref.stream.pidConn.pid == key.pid
  {
    RunStep(events, n - 1);
    var w, w', e := Run(events[..n - 1]), Run(events[..n]), events[n - 1];
    var r := Request(w'.index[key].stream, key.traceId, w'.index[key].spanId);
    if Indexes(e, r) {
      i := n - 1;
      var _ := EntriesWereIndexed(events, n, key);
    } else {
      assert key in w.index && w.index[key] == w'.index[key];
      i := LastIndexed(events, n - 1, key);
    }
  }

  /** At event `j` a rival is indexed while the slot of `r`, never displaced, holds it. */
  ghost predicate Contended(events: seq<Event>, i: nat, j: nat, r: Request) {
    && j < |events| && IndexedSince(events, j, i, r) && !Displaced(events, j, i, r)
    && Rivals(events[j], r) && SlotHolds(Run(events[..j]).tables, r)
  }

  /** After two requests of a process and trace were in flight together, no lookup returns either. */
  lemma AmbiguityIsPermanent(events: seq<Event>, i: nat, j: nat, r: Request)
    requires FreshSpans(events) && NoEviction(events) && Contended(events, i, j, r)
    ensures Ambiguous(Run(events), r.IndexKey())
    ensures Find(Run(events).index, Run(events).tables, r.stream.pidConn.pid, r.traceId).None?
  {
    EntryFate(events, j, i, r);
    RunStep(events, j);
    assert Ambiguous(Run(events[..j + 1]), r.IndexKey());
    AmbiguousForever(events, j + 1, |events|, r.IndexKey());
    WholeSlice(events);
  }

  /** And only then: every ambiguous key goes back to such a moment. */
  lemma {:induction false} AmbiguityHasCause(events: seq<Event>, n: nat, key: Key) returns (i: nat, j: nat, r: Request)
    requires FreshSpans(events) && NoEviction(events) && n <= |events| && Ambiguous(Run(events[..n]), key)
    ensures r.IndexKey() == key && Contended(events, i, j, r)
  {
    RunStep(events, n - 1);
    var w := Run(events[..n - 1]);
    if Ambiguous(w, key) {
      i, j, r := AmbiguityHasCause(events, n - 1, key);
    } else {
      j, r := n - 1, Request(w.index[key].stream, key.traceId, w.index[key].spanId);
      i := LastIndexed(events, j, key);
      EntryFate(events, j, i, r);
    }
  }

  lemma AmbiguousIff(events: seq<Event>, key: Key)
    requires FreshSpans(events) && NoEviction(events)
    ensures Ambiguous(Run(events), key) <==>
            exists i: nat, j: nat, r: Request :: r.IndexKey() == key && Contended(events, i, j, r)
  {
    if Ambiguous(Run(events), key) {
      WholeSlice(events);
      var i, j, r := AmbiguityHasCause(events, |events|, key);
    }
    forall i: nat, j: nat, r: Request | r.IndexKey() == key && Contended(events, i, j, r)
      ensures Ambiguous(Run(events), key)
    {
      AmbiguityIsPermanent(events, i, j, r);
    }
  }

  // ---------------------------------------------- a live request that is missed

  /** Two requests of one process and trace on two connections, the first with a reopening record. */
  function Reopened(now: nat): seq<Event> {
    var es := Http.Reopening(Http.Server, now);
    var (a, b) := (PidConn(1, 7), PidConn(2, 7));
    var (tpA, tpB) := (Tp(5, 1, 0, 0, 0), Tp(5, 2, 0, 0, 0));
    var infoB := HttpInfo(Http.Run(es[..1]).rec, tpB);
    [TablesEv(Tables(map[a := HttpInfo(Http.Run(es[..1]).rec, tpA)], map[], map[])),
     IndexEv(Stream(a, 0), tpA),
     TablesEv(Tables(map[a := HttpInfo(Http.Run(es[..2]).rec, tpA), b := infoB], map[], map[])),
     IndexEv(Stream(b, 0), tpB),
     TablesEv(Tables(map[a := HttpInfo(Http.Run(es).rec, tpA), b := infoB], map[], map[]))]
  }

  /**
   Without the condition completeness fails: the first request's response goes unread, the second is
   indexed in its place, an interim status reopens the first, and only the second is found.
   */
  lemma ReopenedIsMissed(now: nat)
    ensures var events := Reopened(now);
            var (r, q) := (Request(Stream(PidConn(1, 7), 0), 5, 1), Request(Stream(PidConn(2, 7), 0), 5, 2));
            var w := Run(events);
            && FreshSpans(events) && NoEviction(events)
            && LiveIndexed(events, 1, r) && LiveIndexed(events, 3, q)
            && !Ambiguous(w, r.IndexKey()) && r.IndexKey() == q.IndexKey()
            && Find(w.index, w.tables, 7, 5) == ServerAt(w.tables, q.stream) != ServerAt(w.tables, r.stream)
  {
    var events, es := Reopened(now), Http.Reopening(Http.Server, now);
    Http.InterimReopens(Http.Server, now);
    assert es[..3] == es;
    hide Http.Run, Http.Reopening;
    assert events[..0] == [];
    RunStep(events, 0);
    RunStep(events, 1);
    RunStep(events, 2);
    RunStep(events, 3);
    RunStep(events, 4);
    WholeSlice(events);
  }
}
