/**
 Finding the server request that parents a client call (bpf/common/trace_parent.h:51-77,160-291,
 339-429; bpf/common/python_task.h): a chain of lookups and bounded walks over thread maps that
 may be cyclic, specified as the first match in one ordered list of candidates.
 */
module ParentLookup {
  import opened Words

  const JAVA_DEPTH: nat := 3
  const CLONE_DEPTH: nat := 5
  const TASK_DEPTH: nat := 4
  const VIRTUAL_THREAD: nat := 0x8000_0000

  datatype Tp = Tp(traceId: nat, spanId: nat, ts: nat)
  datatype Server = Server(tp: Tp, valid: bool)

  datatype PidKey = PidKey(tid: nat, pid: nat, ns: nat)
  datatype TraceKey = TraceKey(extraId: nat, pKey: PidKey)

  datatype TaskRef = TaskRef(addr: nat, generation: nat)
  datatype ConnPart = ConnPart(addr: nat, port: nat)
  datatype TaskState = TaskState(parent: TaskRef, generation: nat, conn: ConnPart)
  datatype ContextTask = ContextTask(task: TaskRef, vars: nat)
  datatype ThreadState = ThreadState(currentTask: nat, currentContext: nat)

  /** Everything the lookup reads. Direct lookups are given by what they return. */
  datatype Env = Env(
    maxTransactionTime: nat,
    serverTraces: map<TraceKey, Server>,
    serverTracesAux: map<ConnPart, Server>,
    javaTasks: map<PidKey, PidKey>,
    cloneMap: map<PidKey, PidKey>,
    thread: Option<ThreadState>,              // python_thread_state of this thread
    tasks: map<nat, TaskState>,               // python_task_state of this process
    copies: map<nat, TaskState>,              // what copying an entry yields, possibly torn
    recheck: map<nat, TaskState>,             // the entries when looked up again after the copy
    contexts: map<nat, ContextTask>,          // python_context_task of this process
    contextVars: map<nat, nat>,               // what user memory holds for each context
    node: Option<Server>,
    goroutine: Option<Server>,                // None when no lightweight thread is given
    nginx: Option<Server>,
    puma: Option<Server>,
    indexed: Option<Server>,                  // find_http_server_trace for the wire context
    connection: Option<TraceKey>)             // cp_support_connect_info

  // ----------------------------------------------------------------- matching

  predicate SameTransaction(env: Env, parent: Tp, child: Tp) {
    child.ts >= parent.ts && child.ts - parent.ts < env.maxTransactionTime
  }

  /** A wire context constrains the parent; without one the callers validate it. */
  predicate Matches(env: Env, parent: Option<Server>, wire: Option<Tp>) {
    && parent.Some?
    && (wire.Some? ==>
          && parent.value.valid && parent.value.tp.traceId == wire.value.traceId
          && SameTransaction(env, parent.value.tp, wire.value))
  }

  function FirstMatch(env: Env, cs: seq<Option<Server>>, wire: Option<Tp>): (r: Option<Server>) {
    if cs == [] then None
    else if Matches(env, cs[0], wire) then cs[0]
    else FirstMatch(env, cs[1..], wire)
  }

  lemma {:induction false} FirstMatchSplit(env: Env, xs: seq<Option<Server>>, ys: seq<Option<Server>>, wire: Option<Tp>)
    ensures FirstMatch(env, xs + ys, wire) ==
            if FirstMatch(env, xs, wire).Some? then FirstMatch(env, xs, wire) else FirstMatch(env, ys, wire)
  {
    if xs == [] {
      assert xs + ys == ys;
    } else {
      FirstMatchSplit(env, xs[1..], ys, wire);
      assert (xs + ys)[1..] == xs[1..] + ys;
    }
  }

  /** The first match is a candidate that matches, with none matching before it. */
  lemma {:induction false} FirstMatchIsFirst(env: Env, cs: seq<Option<Server>>, wire: Option<Tp>)
    ensures FirstMatch(env, cs, wire).None? <==> forall i :: 0 <= i < |cs| ==> !Matches(env, cs[i], wire)
    ensures FirstMatch(env, cs, wire).Some? ==>
              exists i :: 0 <= i < |cs| && cs[i] == FirstMatch(env, cs, wire) && Matches(env, cs[i], wire) &&
                          forall j :: 0 <= j < i ==> !Matches(env, cs[j], wire)
  {
    if cs != [] {
      var rest := cs[1..];
      FirstMatchIsFirst(env, rest, wire);
      assert forall i :: 0 < i < |cs| ==> cs[i] == rest[i - 1];
      if !Matches(env, cs[0], wire) && FirstMatch(env, cs, wire).Some? {
        var i :| 0 <= i < |rest| && rest[i] == FirstMatch(env, rest, wire) && Matches(env, rest[i], wire) &&
                 forall j :: 0 <= j < i ==> !Matches(env, rest[j], wire);
        assert cs[i + 1] == rest[i];
      }
    }
  }

  // ------------------------------------------------------------ thread walks

  /** Threads visited from `k` along `parents`, at most `depth` of them. */
  function Walk(parents: map<PidKey, PidKey>, k: PidKey, depth: nat): (ks: seq<PidKey>)
    ensures |ks| <= depth
    decreases depth
  {
    if depth == 0 then [] else [k] + (if k in parents then Walk(parents, parents[k], depth - 1) else [])
  }

  /** Where the key is left when no visited thread matches. */
  function Stop(parents: map<PidKey, PidKey>, k: PidKey, depth: nat): PidKey
    decreases depth
  {
    if depth == 0 || k !in parents then k else Stop(parents, parents[k], depth - 1)
  }

  function ServerOf(env: Env, key: TraceKey): Option<Server> {
    if key in env.serverTraces then Some(env.serverTraces[key]) else None
  }

  function Servers(env: Env, extraId: nat, ks: seq<PidKey>): (cs: seq<Option<Server>>)
    ensures |cs| == |ks|
  {
    seq(|ks|, i requires 0 <= i < |ks| => ServerOf(env, TraceKey(extraId, ks[i])))
  }

  /** The candidates a walk offers. */
  function WalkServers(env: Env, parents: map<PidKey, PidKey>, key: TraceKey, depth: nat): seq<Option<Server>> {
    Servers(env, key.extraId, Walk(parents, key.pKey, depth))
  }

  lemma WalkServersStep(env: Env, parents: map<PidKey, PidKey>, key: TraceKey, depth: nat)
    requires depth > 0
    ensures WalkServers(env, parents, key, depth) ==
            [ServerOf(env, key)] +
            (if key.pKey in parents then WalkServers(env, parents, key.(pKey := parents[key.pKey]), depth - 1) else [])
  {
    var k := key.pKey;
    var rest := if k in parents then Walk(parents, parents[k], depth - 1) else [];
    WalkStep(parents, k, depth);
    hide Walk, ServerOf;
    assert Servers(env, key.extraId, [k] + rest) == [ServerOf(env, key)] + Servers(env, key.extraId, rest);
  }

  lemma WalkStep(parents: map<PidKey, PidKey>, k: PidKey, depth: nat)
    requires depth > 0
    ensures Walk(parents, k, depth) == [k] + (if k in parents then Walk(parents, parents[k], depth - 1) else [])
  {
  }

  /** The caller's trace key, which the walks move along. */
  class KeyCell {
    var key: TraceKey
  }

  /** The shared loop of the Java and clone walks. */
  method WalkThreads(cell: KeyCell, env: Env, parents: map<PidKey, PidKey>, depth: nat, wire: Option<Tp>)
    returns (r: Option<Server>)
    modifies cell
    ensures r == FirstMatch(env, WalkServers(env, parents, old(cell.key), depth), wire)
    ensures r.None? ==> cell.key == old(cell.key).(pKey := Stop(parents, old(cell.key).pKey, depth))
  {
    var i := 0;
    while i < depth
      invariant 0 <= i <= depth
      invariant FirstMatch(env, WalkServers(env, parents, old(cell.key), depth), wire) ==
                FirstMatch(env, WalkServers(env, parents, cell.key, depth - i), wire)
      invariant cell.key.extraId == old(cell.key).extraId
      invariant Stop(parents, old(cell.key).pKey, depth) == Stop(parents, cell.key.pKey, depth - i)
    {
      WalkServersStep(env, parents, cell.key, depth - i);
      var server := ServerOf(env, cell.key);
      if Matches(env, server, wire) {
        return server;
      }
      if cell.key.pKey !in parents {
        return None;
      }
      cell.key := cell.key.(pKey := parents[cell.key.pKey]);
      i := i + 1;
    }
    return None;
  }

  /** `n` steps from `k` along `parents`, independently of any walk. */
  function Ancestor(parents: map<PidKey, PidKey>, k: PidKey, n: nat): Option<PidKey>
    decreases n
  {
    if n == 0 then Some(k) else if k in parents then Ancestor(parents, parents[k], n - 1) else None
  }

  /** A walk visits exactly the first `depth` ancestors, whatever cycles the map has. */
  lemma {:induction false} WalkVisits(parents: map<PidKey, PidKey>, k: PidKey, depth: nat, i: nat)
    requires i < depth
    ensures Ancestor(parents, k, i) ==
            if i < |Walk(parents, k, depth)| then Some(Walk(parents, k, depth)[i]) else None
    decreases depth
  {
    if i > 0 && k in parents {
      WalkVisits(parents, parents[k], depth - 1, i - 1);
    }
  }

  /** It stops on the ancestor just beyond those visited, or on the last one there is. */
  lemma {:induction false} StopIs(parents: map<PidKey, PidKey>, k: PidKey, depth: nat)
    ensures Ancestor(parents, k, depth).Some? ==> Ancestor(parents, k, depth).value == Stop(parents, k, depth)
    ensures Ancestor(parents, k, depth).None? ==>
              Stop(parents, k, depth) !in parents && Stop(parents, k, depth) in Walk(parents, k, depth)
    decreases depth
  {
    if depth > 0 && k in parents {
      StopIs(parents, parents[k], depth - 1);
    }
  }

  // ------------------------------------------------------------ Python tasks

  datatype Resolution = NotFound | Stale | Resolved(ref: TaskRef)
  datatype Owner = NoOwner | StaleOwner | Owned(server: Server)

  predicate Holds(tasks: map<nat, TaskState>, ref: TaskRef) {
    ref.addr in tasks && tasks[ref.addr].generation == ref.generation
  }

  /**
   The state of a task instance; none when the address holds another instance before, during or
   after the copy.
   */
  function CopyTaskState(env: Env, ref: TaskRef): Option<TaskState> {
    if ref.addr == 0 || ref.generation == 0 then None
    else if !Holds(env.tasks, ref) || !Holds(env.recheck, ref) || !Holds(env.copies, ref) then None
    else Some(env.copies[ref.addr])
  }

  function ReadContextVars(env: Env, context: nat): nat {
    if context in env.contextVars then env.contextVars[context] else 0
  }

  function ResolveFromContext(env: Env, context: nat): Resolution {
    if context == 0 then NotFound
    else if context !in env.contexts then Stale
    else
      var binding := env.contexts[context];
      if binding.vars != ReadContextVars(env, context) then Stale
      else if binding.task.addr == 0 && binding.task.generation == 0 then NotFound
      else if CopyTaskState(env, binding.task).None? then Stale
      else Resolved(binding.task)
  }

  function ResolveCurrentTask(env: Env): Resolution {
    if env.thread.None? then NotFound
    else
      var task := env.thread.value.currentTask;
      if task == 0 then ResolveFromContext(env, env.thread.value.currentContext)
      else if task !in env.tasks || env.tasks[task].generation == 0 then Stale
      else Resolved(TaskRef(task, env.tasks[task].generation))
  }

  /** The server request a live task instance serves itself. */
  function Serves(env: Env, ref: TaskRef): Option<Server> {
    match CopyTaskState(env, ref)
    case None => None
    case Some(state) =>
      if state.conn.port != 0 && state.conn in env.serverTracesAux then Some(env.serverTracesAux[state.conn])
      else None
  }

  /** The task `n` levels above `ref`, through instances that are all alive. */
  function AncestorTask(env: Env, ref: TaskRef, n: nat): Option<TaskRef>
    decreases n
  {
    if n == 0 then Some(ref)
    else match CopyTaskState(env, ref)
      case None => None
      case Some(state) => if state.parent.addr == 0 then None else AncestorTask(env, state.parent, n - 1)
  }

  /** None of the first `n` tasks on the chain serves a request. */
  ghost predicate NoneServes(env: Env, ref: TaskRef, n: nat) {
    forall m: nat | m < n && AncestorTask(env, ref, m).Some? :: Serves(env, AncestorTask(env, ref, m).value).None?
  }

  /** What the chain of the first `depth` tasks amounts to: its nearest serving task, else a stale one. */
  ghost predicate NearestOwner(env: Env, ref: TaskRef, depth: nat, owner: Owner) {
    match owner
    case Owned(server) =>
      exists n: nat :: n < depth && NoneServes(env, ref, n) && AncestorTask(env, ref, n).Some? &&
                       Serves(env, AncestorTask(env, ref, n).value) == Some(server)
    case StaleOwner =>
      && NoneServes(env, ref, depth)
      && exists n: nat :: n < depth && AncestorTask(env, ref, n).Some? &&
                          CopyTaskState(env, AncestorTask(env, ref, n).value).None?
    case NoOwner =>
      && NoneServes(env, ref, depth)
      && forall n: nat | n < depth && AncestorTask(env, ref, n).Some? ::
           CopyTaskState(env, AncestorTask(env, ref, n).value).Some?
  }

  /** One more level below a chain whose owner is known. */
  lemma OwnerFromParent(env: Env, ref: TaskRef, depth: nat, owner: Owner)
    requires CopyTaskState(env, ref).Some? && CopyTaskState(env, ref).value.parent.addr != 0
    requires Serves(env, ref).None?
    requires NearestOwner(env, CopyTaskState(env, ref).value.parent, depth, owner)
    ensures NearestOwner(env, ref, depth + 1, owner)
  {
    var parent := CopyTaskState(env, ref).value.parent;
    assert forall n: nat :: AncestorTask(env, ref, n + 1) == AncestorTask(env, parent, n);
    forall n: nat | NoneServes(env, parent, n) ensures NoneServes(env, ref, n + 1) {
      forall m: nat | m < n + 1 && AncestorTask(env, ref, m).Some?
        ensures Serves(env, AncestorTask(env, ref, m).value).None?
      {
        if m > 0 {
          assert AncestorTask(env, ref, m) == AncestorTask(env, parent, m - 1);
        }
      }
    }
  }

  function OwningTrace(env: Env, ref: TaskRef, depth: nat): Owner
    decreases depth
  {
    if depth == 0 then NoOwner
    else match CopyTaskState(env, ref)
      case None => StaleOwner
      case Some(state) =>
        if Serves(env, ref).Some? then Owned(Serves(env, ref).value)
        else if state.parent.addr == 0 then NoOwner
        else OwningTrace(env, state.parent, depth - 1)
  }

  lemma {:induction false} OwnerIsNearest(env: Env, ref: TaskRef, depth: nat)
    ensures NearestOwner(env, ref, depth, OwningTrace(env, ref, depth))
    decreases depth
  {
    hide CopyTaskState, Serves, NearestOwner, AncestorTask;
    if depth > 0 && CopyTaskState(env, ref).Some? && Serves(env, ref).None? &&
       CopyTaskState(env, ref).value.parent.addr != 0 {
      var parent := CopyTaskState(env, ref).value.parent;
      OwnerIsNearest(env, parent, depth - 1);
      OwnerFromParent(env, ref, depth - 1, OwningTrace(env, parent, depth - 1));
    } else {
      OwnerDecided(env, ref, depth);
    }
  }

  /** The first task alone decides, unless the walk goes on to its parent. */
  lemma OwnerDecided(env: Env, ref: TaskRef, depth: nat)
    requires || depth == 0 || CopyTaskState(env, ref).None? || Serves(env, ref).Some?
             || CopyTaskState(env, ref).value.parent.addr == 0
    ensures NearestOwner(env, ref, depth, OwningTrace(env, ref, depth))
  {
    hide Serves;
    assert AncestorTask(env, ref, 0) == Some(ref);
    assert Serves(env, ref).Some? ==> CopyTaskState(env, ref).Some? by { ServesIsLive(env, ref); }
  }

  lemma ServesIsLive(env: Env, ref: TaskRef)
    ensures Serves(env, ref).Some? ==> CopyTaskState(env, ref).Some?
  {
  }

  /** The description has one answer, so it decides what the walk returns. */
  lemma NearestOwnerUnique(env: Env, ref: TaskRef, depth: nat, a: Owner, b: Owner)
    requires NearestOwner(env, ref, depth, a) && NearestOwner(env, ref, depth, b)
    ensures a == b
  {
    if a.Owned? && b.Owned? {
      var n: nat :| n < depth && NoneServes(env, ref, n) && AncestorTask(env, ref, n).Some? &&
                    Serves(env, AncestorTask(env, ref, n).value) == Some(a.server);
      var m: nat :| m < depth && NoneServes(env, ref, m) && AncestorTask(env, ref, m).Some? &&
                    Serves(env, AncestorTask(env, ref, m).value) == Some(b.server);
      assert n == m;
    }
  }

  method FindPythonOwningServerTrace(env: Env, start: TaskRef) returns (owner: Owner)
    ensures NearestOwner(env, start, TASK_DEPTH, owner)
    ensures owner == OwningTrace(env, start, TASK_DEPTH)
  {
    hide NearestOwner;
    OwnerIsNearest(env, start, TASK_DEPTH);
    var ref, i := start, 0;
    while i < TASK_DEPTH
      invariant 0 <= i <= TASK_DEPTH
      invariant OwningTrace(env, start, TASK_DEPTH) == OwningTrace(env, ref, TASK_DEPTH - i)
    {
      var copy := CopyTaskState(env, ref);
      if copy.None? {
        return StaleOwner;
      }
      var state := copy.value;
      if state.conn.port != 0 {
        if state.conn in env.serverTracesAux {
          return Owned(env.serverTracesAux[state.conn]);
        }
      }
      if state.parent.addr == 0 {
        return NoOwner;
      }
      ref, i := state.parent, i + 1;
    }
    return NoOwner;
  }

  /** The request of the running task, and whether its ownership could be trusted. */
  function PythonOwner(env: Env): Owner {
    match ResolveCurrentTask(env)
    case NotFound => NoOwner
    case Stale => StaleOwner
    case Resolved(ref) => OwningTrace(env, ref, TASK_DEPTH)
  }

  function OwnedServer(owner: Owner): Option<Server> {
    if owner.Owned? then Some(owner.server) else None
  }

  method FindPythonParentTrace(env: Env) returns (server: Option<Server>, allowFallback: bool)
    ensures server == OwnedServer(PythonOwner(env))
    ensures allowFallback <==> !PythonOwner(env).StaleOwner?
  {
    var resolution := ResolveCurrentTask(env);
    if !resolution.Resolved? {
      return None, !resolution.Stale?;
    }
    var owner := FindPythonOwningServerTrace(env, resolution.ref);
    server, allowFallback := OwnedServer(owner), !owner.StaleOwner?;
  }

  // ------------------------------------------------------------ the whole lookup

  predicate IsVirtual(k: PidKey) {
    (k.tid / VIRTUAL_THREAD) % 2 == 1
  }

  /** Only a thread that does not itself identify a logical request prefers the wire index. */
  predicate IndexFirst(env: Env, key: TraceKey, wire: Option<Tp>) {
    wire.Some? && !IsVirtual(key.pKey) && key.pKey !in env.javaTasks
  }

  function When(c: bool, candidate: Option<Server>): seq<Option<Server>> {
    if c then [candidate] else []
  }

  function AfterJava(env: Env, key: TraceKey): TraceKey {
    key.(pKey := Stop(env.javaTasks, key.pKey, JAVA_DEPTH))
  }

  function ByConnection(env: Env): Option<Server> {
    if env.connection.Some? then ServerOf(env, env.connection.value) else None
  }

  /** Requests tied to the call by the runtime that makes it. */
  function Runtime(env: Env): seq<Option<Server>> {
    [env.node, env.goroutine, OwnedServer(PythonOwner(env))]
  }

  /** Requests found through threads, the wire index and the connection. */
  function Fallbacks(env: Env, key: TraceKey, wire: Option<Tp>): seq<Option<Server>> {
    var first := IndexFirst(env, key, wire);
    [env.nginx, env.puma]
    + (When(first, env.indexed)
       + (WalkServers(env, env.javaTasks, key, JAVA_DEPTH)
          + (When(wire.Some? && !first, env.indexed)
             + (WalkServers(env, env.cloneMap, AfterJava(env, key), CLONE_DEPTH)
                + [ByConnection(env)]))))
  }

  /** Every request considered, in order of preference. */
  function Candidates(env: Env, key: TraceKey, wire: Option<Tp>): seq<Option<Server>> {
    Runtime(env) + (if PythonOwner(env).StaleOwner? then [] else Fallbacks(env, key, wire))
  }

  function Parent(env: Env, key: TraceKey, wire: Option<Tp>): Option<Server> {
    FirstMatch(env, Candidates(env, key, wire), wire)
  }

  function Or(a: Option<Server>, b: Option<Server>): Option<Server> {
    if a.Some? then a else b
  }

  function Match(env: Env, c: Option<Server>, wire: Option<Tp>): Option<Server> {
    if Matches(env, c, wire) then c else None
  }

  lemma FirstOfWhen(env: Env, c: bool, candidate: Option<Server>, wire: Option<Tp>)
    ensures FirstMatch(env, When(c, candidate), wire) == if c then Match(env, candidate, wire) else None
  {
  }

  lemma FirstOfCons(env: Env, c: Option<Server>, cs: seq<Option<Server>>, wire: Option<Tp>)
    ensures FirstMatch(env, [c] + cs, wire) == Or(Match(env, c, wire), FirstMatch(env, cs, wire))
  {
    assert ([c] + cs)[1..] == cs;
  }

  lemma RuntimeFirst(env: Env, wire: Option<Tp>)
    ensures FirstMatch(env, Runtime(env), wire) ==
            Or(Match(env, env.node, wire),
               Or(Match(env, env.goroutine, wire), Match(env, OwnedServer(PythonOwner(env)), wire)))
  {
    var python := OwnedServer(PythonOwner(env));
    FirstOfCons(env, python, [], wire);
    FirstOfCons(env, env.goroutine, [python] + [], wire);
    FirstOfCons(env, env.node, [env.goroutine] + ([python] + []), wire);
    assert Runtime(env) == [env.node] + ([env.goroutine] + ([python] + []));
  }

  lemma FallbacksFirst(env: Env, key: TraceKey, wire: Option<Tp>)
    ensures
      var first := IndexFirst(env, key, wire);
      FirstMatch(env, Fallbacks(env, key, wire), wire) ==
      Or(Or(Match(env, env.nginx, wire), Match(env, env.puma, wire)),
         Or(if first then Match(env, env.indexed, wire) else None,
            Or(FirstMatch(env, WalkServers(env, env.javaTasks, key, JAVA_DEPTH), wire),
               Or(if wire.Some? && !first then Match(env, env.indexed, wire) else None,
                  Or(FirstMatch(env, WalkServers(env, env.cloneMap, AfterJava(env, key), CLONE_DEPTH), wire),
                     Match(env, ByConnection(env), wire))))))
  {
    var first := IndexFirst(env, key, wire);
    var e := [ByConnection(env)];
    var clone := WalkServers(env, env.cloneMap, AfterJava(env, key), CLONE_DEPTH);
    var late := When(wire.Some? && !first, env.indexed);
    var java := WalkServers(env, env.javaTasks, key, JAVA_DEPTH);
    var early := When(first, env.indexed);
    hide WalkServers, ByConnection, AfterJava, When, Matches, IndexFirst;
    FirstMatchSplit(env, clone, e, wire);
    FirstMatchSplit(env, late, clone + e, wire);
    FirstMatchSplit(env, java, late + (clone + e), wire);
    FirstMatchSplit(env, early, java + (late + (clone + e)), wire);
    FirstMatchSplit(env, [env.nginx, env.puma], early + (java + (late + (clone + e))), wire);
    FirstOfWhen(env, first, env.indexed, wire);
    FirstOfWhen(env, wire.Some? && !first, env.indexed, wire);
    FirstOfCons(env, ByConnection(env), [], wire);
    FirstOfCons(env, env.puma, [], wire);
    FirstOfCons(env, env.nginx, [env.puma] + [], wire);
    assert [env.nginx, env.puma] == [env.nginx] + ([env.puma] + []);
    assert e == e + [];
  }

  method FindParentJavaTrace(cell: KeyCell, env: Env, wire: Option<Tp>) returns (r: Option<Server>)
    modifies cell
    ensures r == FirstMatch(env, WalkServers(env, env.javaTasks, old(cell.key), JAVA_DEPTH), wire)
    ensures r.None? ==> cell.key == AfterJava(env, old(cell.key))
  {
    r := WalkThreads(cell, env, env.javaTasks, JAVA_DEPTH, wire);
  }

  method FindParentProcessTrace(cell: KeyCell, env: Env, wire: Option<Tp>) returns (r: Option<Server>)
    modifies cell
    ensures r == FirstMatch(env, WalkServers(env, env.cloneMap, old(cell.key), CLONE_DEPTH), wire)
  {
    r := WalkThreads(cell, env, env.cloneMap, CLONE_DEPTH, wire);
  }

  method FindWireServerParent(env: Env, wire: Option<Tp>) returns (r: Option<Server>)
    ensures r == Match(env, env.indexed, wire)
  {
    r := Match(env, env.indexed, wire);
  }

  method FindParentTrace(cell: KeyCell, env: Env, wire: Option<Tp>) returns (r: Option<Server>)
    modifies cell
    ensures r == Parent(env, old(cell.key), wire)
  {
    hide WalkServers, SameTransaction, IsVirtual, PythonOwner, AfterJava, Fallbacks, Runtime, FirstMatch;
    ghost var key := cell.key;
    FirstMatchSplit(env, Runtime(env), Fallbacks(env, key, wire), wire);
    assert Runtime(env) + [] == Runtime(env);
    RuntimeFirst(env, wire);
    FallbacksFirst(env, key, wire);

    if Matches(env, env.node, wire) {
      return env.node;
    }
    if Matches(env, env.goroutine, wire) {
      return env.goroutine;
    }
    var python, allowFallback := FindPythonParentTrace(env);
    if !allowFallback {
      return Match(env, python, wire);
    }
    if Matches(env, python, wire) {
      return python;
    }
    if Matches(env, env.nginx, wire) {
      return env.nginx;
    }
    if Matches(env, env.puma, wire) {
      return env.puma;
    }
    var indexFirst := wire.Some? && !IsVirtual(cell.key.pKey) && cell.key.pKey !in env.javaTasks;
    if indexFirst {
      var http := FindWireServerParent(env, wire);
      if http.Some? {
        return http;
      }
    }
    var java := FindParentJavaTrace(cell, env, wire);
    if java.Some? {
      return java;
    }
    if wire.Some? && !indexFirst {
      var http := FindWireServerParent(env, wire);
      if http.Some? {
        return http;
      }
    }
    var process := FindParentProcessTrace(cell, env, wire);
    if process.Some? {
      return process;
    }
    if env.connection.Some? {
      var server := ServerOf(env, env.connection.value);
      if Matches(env, server, wire) {
        return server;
      }
    }
    return None;
  }

  // ------------------------------------------------------------ theorems

  /** A propagated context is honoured by every parent, whichever lookup supplies it. */
  lemma WireConstrainsParent(env: Env, key: TraceKey, wire: Tp)
    ensures
      var r := Parent(env, key, Some(wire));
      r.Some? ==>
        && r.value.valid && r.value.tp.traceId == wire.traceId
        && r.value.tp.ts <= wire.ts && wire.ts - r.value.tp.ts < env.maxTransactionTime
  {
    FirstMatchIsFirst(env, Candidates(env, key, Some(wire)), Some(wire));
  }

  /** The parent is the most preferred matching candidate, and is missing only if there is none. */
  lemma ParentIsPreferred(env: Env, key: TraceKey, wire: Option<Tp>)
    ensures
      var cs := Candidates(env, key, wire);
      && (Parent(env, key, wire).None? <==> forall i :: 0 <= i < |cs| ==> !Matches(env, cs[i], wire))
      && (Parent(env, key, wire).Some? ==>
            exists i :: 0 <= i < |cs| && cs[i] == Parent(env, key, wire) && Matches(env, cs[i], wire) &&
                        forall j :: 0 <= j < i ==> !Matches(env, cs[j], wire))
  {
    FirstMatchIsFirst(env, Candidates(env, key, wire), wire);
  }

  /** With the running task's ownership stale, nothing outside the runtime's own links is used. */
  lemma StaleTaskStops(env: Env, key: TraceKey, wire: Option<Tp>)
    requires PythonOwner(env).StaleOwner?
    ensures Parent(env, key, wire) == Or(Match(env, env.node, wire), Match(env, env.goroutine, wire))
  {
    RuntimeFirst(env, wire);
    assert Candidates(env, key, wire) == Runtime(env);
  }

  /** A member of the list that matches rules out an empty answer. */
  lemma MatchIsFound(env: Env, cs: seq<Option<Server>>, wire: Option<Tp>, i: nat)
    requires i < |cs| && Matches(env, cs[i], wire)
    ensures FirstMatch(env, cs, wire).Some?
  {
    FirstMatchIsFirst(env, cs, wire);
  }

  lemma WalkFinds(env: Env, parents: map<PidKey, PidKey>, key: TraceKey, depth: nat, wire: Option<Tp>, i: nat)
    requires i < depth && Ancestor(parents, key.pKey, i).Some?
    requires Matches(env, ServerOf(env, key.(pKey := Ancestor(parents, key.pKey, i).value)), wire)
    ensures FirstMatch(env, WalkServers(env, parents, key, depth), wire).Some?
  {
    WalkVisits(parents, key.pKey, depth, i);
    MatchIsFound(env, WalkServers(env, parents, key, depth), wire, i);
  }

  lemma FallbackFound(env: Env, key: TraceKey, wire: Option<Tp>)
    requires !PythonOwner(env).StaleOwner?
    requires || FirstMatch(env, WalkServers(env, env.javaTasks, key, JAVA_DEPTH), wire).Some?
             || FirstMatch(env, WalkServers(env, env.cloneMap, AfterJava(env, key), CLONE_DEPTH), wire).Some?
    ensures Parent(env, key, wire).Some?
  {
    hide WalkServers, Matches, PythonOwner, AfterJava, Fallbacks, Runtime, FirstMatch;
    FirstMatchSplit(env, Runtime(env), Fallbacks(env, key, wire), wire);
    FallbacksFirst(env, key, wire);
  }

  /**
   The two walks leave no gap: the task chain is covered one ancestor further than the first walk
   looks, because the second starts on the key the first was left on.
   */
  lemma JavaAncestorsCovered(env: Env, key: TraceKey, wire: Option<Tp>, i: nat)
    requires !PythonOwner(env).StaleOwner?
    requires i <= JAVA_DEPTH && Ancestor(env.javaTasks, key.pKey, i).Some?
    requires Matches(env, ServerOf(env, key.(pKey := Ancestor(env.javaTasks, key.pKey, i).value)), wire)
    ensures Parent(env, key, wire).Some?
  {
    hide WalkServers, Matches, PythonOwner, Fallbacks, Runtime, FirstMatch;
    if i < JAVA_DEPTH {
      WalkFinds(env, env.javaTasks, key, JAVA_DEPTH, wire, i);
    } else {
      StopIs(env.javaTasks, key.pKey, JAVA_DEPTH);
      WalkFinds(env, env.cloneMap, AfterJava(env, key), CLONE_DEPTH, wire, 0);
    }
    FallbackFound(env, key, wire);
  }

  /** Every thread that cloned the last task reached, up to four clones back, is covered. */
  lemma CloneAncestorsCovered(env: Env, key: TraceKey, wire: Option<Tp>, i: nat)
    requires !PythonOwner(env).StaleOwner?
    requires i < CLONE_DEPTH && Ancestor(env.cloneMap, AfterJava(env, key).pKey, i).Some?
    requires Matches(env, ServerOf(env, key.(pKey := Ancestor(env.cloneMap, AfterJava(env, key).pKey, i).value)), wire)
    ensures Parent(env, key, wire).Some?
  {
    WalkFinds(env, env.cloneMap, AfterJava(env, key), CLONE_DEPTH, wire, i);
    FallbackFound(env, key, wire);
  }

  /** The threads tried, as one chain: three task ancestors, then five clone ancestors of the stop. */
  function ThreadAt(env: Env, key: TraceKey, i: nat): Option<PidKey> {
    if i < JAVA_DEPTH then Ancestor(env.javaTasks, key.pKey, i)
    else Ancestor(env.cloneMap, AfterJava(env, key).pKey, i - JAVA_DEPTH)
  }

  function ThreadServer(env: Env, key: TraceKey, i: nat): Option<Server> {
    var t := ThreadAt(env, key, i);
    if t.Some? then ServerOf(env, key.(pKey := t.value)) else None
  }

  lemma {:induction false} FirstMatchAt(env: Env, cs: seq<Option<Server>>, wire: Option<Tp>, i: nat)
    requires i < |cs| && Matches(env, cs[i], wire)
    requires forall j :: 0 <= j < i ==> !Matches(env, cs[j], wire)
    ensures FirstMatch(env, cs, wire) == cs[i]
  {
    hide Matches;
    if i > 0 {
      assert cs[1..][i - 1] == cs[i];
      FirstMatchAt(env, cs[1..], wire, i - 1);
    }
  }

  /** What one walk offers, ancestor by ancestor. */
  lemma WalkOffers(env: Env, parents: map<PidKey, PidKey>, key: TraceKey, depth: nat, i: nat)
    requires i < depth
    ensures var cs := WalkServers(env, parents, key, depth);
            var t := Ancestor(parents, key.pKey, i);
            if i < |cs| then t.Some? && cs[i] == ServerOf(env, key.(pKey := t.value)) else t.None?
  {
    WalkVisits(parents, key.pKey, depth, i);
  }

  lemma WalkNearest(env: Env, parents: map<PidKey, PidKey>, key: TraceKey, depth: nat, wire: Option<Tp>, i: nat)
    requires i < depth && Ancestor(parents, key.pKey, i).Some?
    requires Matches(env, ServerOf(env, key.(pKey := Ancestor(parents, key.pKey, i).value)), wire)
    requires forall j: nat | j < i && Ancestor(parents, key.pKey, j).Some? ::
               !Matches(env, ServerOf(env, key.(pKey := Ancestor(parents, key.pKey, j).value)), wire)
    ensures FirstMatch(env, WalkServers(env, parents, key, depth), wire) ==
            ServerOf(env, key.(pKey := Ancestor(parents, key.pKey, i).value))
  {
    hide Matches, WalkServers;
    var cs := WalkServers(env, parents, key, depth);
    forall j: nat | j <= i ensures j < |cs| && Ancestor(parents, key.pKey, j).Some? &&
                                   cs[j] == ServerOf(env, key.(pKey := Ancestor(parents, key.pKey, j).value)) {
      WalkOffers(env, parents, key, depth, j);
      WalkOffers(env, parents, key, depth, i);
    }
    FirstMatchAt(env, cs, wire, i);
  }

  lemma WalkMisses(env: Env, parents: map<PidKey, PidKey>, key: TraceKey, depth: nat, wire: Option<Tp>)
    requires forall j: nat | j < depth && Ancestor(parents, key.pKey, j).Some? ::
               !Matches(env, ServerOf(env, key.(pKey := Ancestor(parents, key.pKey, j).value)), wire)
    ensures FirstMatch(env, WalkServers(env, parents, key, depth), wire).None?
  {
    hide Matches, WalkServers;
    var cs := WalkServers(env, parents, key, depth);
    WalkLength(env, parents, key, depth);
    forall j: nat | j < |cs| ensures !Matches(env, cs[j], wire) {
      WalkOffers(env, parents, key, depth, j);
    }
    FirstMatchIsFirst(env, cs, wire);
  }

  lemma WalkLength(env: Env, parents: map<PidKey, PidKey>, key: TraceKey, depth: nat)
    ensures |WalkServers(env, parents, key, depth)| <= depth
  {
  }

  /** Nothing more preferred than the threads matches. */
  ghost predicate OnlyThreads(env: Env, wire: Option<Tp>) {
    && !PythonOwner(env).StaleOwner? && FirstMatch(env, Runtime(env), wire).None?
    && !Matches(env, env.nginx, wire) && !Matches(env, env.puma, wire) && !Matches(env, env.indexed, wire)
  }

  lemma ThreadsDecide(env: Env, key: TraceKey, wire: Option<Tp>)
    requires OnlyThreads(env, wire)
    ensures Parent(env, key, wire) ==
            Or(FirstMatch(env, WalkServers(env, env.javaTasks, key, JAVA_DEPTH), wire),
               Or(FirstMatch(env, WalkServers(env, env.cloneMap, AfterJava(env, key), CLONE_DEPTH), wire),
                  Match(env, ByConnection(env), wire)))
  {
    hide WalkServers, SameTransaction, PythonOwner, AfterJava, Fallbacks, Runtime, FirstMatch;
    FirstMatchSplit(env, Runtime(env), Fallbacks(env, key, wire), wire);
    FallbacksFirst(env, key, wire);
  }

  /** The parent is then the request of the nearest thread on the chain that matches. */
  lemma NearestThread(env: Env, key: TraceKey, wire: Option<Tp>, i: nat)
    requires OnlyThreads(env, wire)
    requires i < JAVA_DEPTH + CLONE_DEPTH && Matches(env, ThreadServer(env, key, i), wire)
    requires forall j: nat :: j < i ==> !Matches(env, ThreadServer(env, key, j), wire)
    ensures Parent(env, key, wire) == ThreadServer(env, key, i)
  {
    ThreadsDecide(env, key, wire);
    hide WalkServers, SameTransaction, OnlyThreads, AfterJava, Parent, FirstMatch;
    assert ThreadServer(env, key, i).Some?;
    if i < JAVA_DEPTH {
      NoneOnTasks(env, key, wire, i);
      WalkNearest(env, env.javaTasks, key, JAVA_DEPTH, wire, i);
    } else {
      NoneOnTasks(env, key, wire, JAVA_DEPTH);
      NoneOnClones(env, key, wire, i - JAVA_DEPTH);
      WalkMisses(env, env.javaTasks, key, JAVA_DEPTH, wire);
      assert AfterJava(env, key).extraId == key.extraId by { StopKeepsRequest(env, key); }
      WalkNearest(env, env.cloneMap, AfterJava(env, key), CLONE_DEPTH, wire, i - JAVA_DEPTH);
    }
  }

  lemma StopKeepsRequest(env: Env, key: TraceKey)
    ensures AfterJava(env, key).extraId == key.extraId
  {
  }

  lemma NoneOnTasks(env: Env, key: TraceKey, wire: Option<Tp>, n: nat)
    requires n <= JAVA_DEPTH && forall j: nat :: j < n ==> !Matches(env, ThreadServer(env, key, j), wire)
    ensures forall j: nat | j < n && Ancestor(env.javaTasks, key.pKey, j).Some? ::
              !Matches(env, ServerOf(env, key.(pKey := Ancestor(env.javaTasks, key.pKey, j).value)), wire)
  {
    hide Matches;
    forall j: nat | j < n && Ancestor(env.javaTasks, key.pKey, j).Some?
      ensures !Matches(env, ServerOf(env, key.(pKey := Ancestor(env.javaTasks, key.pKey, j).value)), wire)
    {
      assert !Matches(env, ThreadServer(env, key, j), wire);
    }
  }

  lemma NoneOnClones(env: Env, key: TraceKey, wire: Option<Tp>, n: nat)
    requires forall j: nat :: j < JAVA_DEPTH + n ==> !Matches(env, ThreadServer(env, key, j), wire)
    ensures var stop := AfterJava(env, key);
            forall j: nat | j < n && Ancestor(env.cloneMap, stop.pKey, j).Some? ::
              !Matches(env, ServerOf(env, stop.(pKey := Ancestor(env.cloneMap, stop.pKey, j).value)), wire)
  {
    hide Matches;
    var stop := AfterJava(env, key);
    forall j: nat | j < n && Ancestor(env.cloneMap, stop.pKey, j).Some?
      ensures !Matches(env, ServerOf(env, stop.(pKey := Ancestor(env.cloneMap, stop.pKey, j).value)), wire)
    {
      assert !Matches(env, ThreadServer(env, key, JAVA_DEPTH + j), wire);
    }
  }

  /** With no matching thread, the connection's own request is the last resort. */
  lemma ConnectionIsLast(env: Env, key: TraceKey, wire: Option<Tp>)
    requires OnlyThreads(env, wire)
    requires forall j: nat :: j < JAVA_DEPTH + CLONE_DEPTH ==> !Matches(env, ThreadServer(env, key, j), wire)
    ensures Parent(env, key, wire) == Match(env, ByConnection(env), wire)
  {
    ThreadsDecide(env, key, wire);
    hide WalkServers, Matches, OnlyThreads, AfterJava, Parent, FirstMatch;
    NoneOnTasks(env, key, wire, JAVA_DEPTH);
    NoneOnClones(env, key, wire, CLONE_DEPTH);
    WalkMisses(env, env.javaTasks, key, JAVA_DEPTH, wire);
    WalkMisses(env, env.cloneMap, AfterJava(env, key), CLONE_DEPTH, wire);
  }

  /**
   Virtual threads and submitted tasks keep their own logical request; any other thread gives way to
   the request indexed under the wire context. Both requests match, and nothing better does.
   */
  lemma OwnRequestOrIndexed(env: Env, key: TraceKey, wire: Tp)
    requires !PythonOwner(env).StaleOwner?
    requires FirstMatch(env, Runtime(env), Some(wire)).None?
    requires !Matches(env, env.nginx, Some(wire)) && !Matches(env, env.puma, Some(wire))
    requires Matches(env, ServerOf(env, key), Some(wire)) && Matches(env, env.indexed, Some(wire))
    ensures Parent(env, key, Some(wire)) ==
            if IsVirtual(key.pKey) || key.pKey in env.javaTasks then ServerOf(env, key) else env.indexed
  {
    hide WalkServers, SameTransaction, PythonOwner, AfterJava, Fallbacks, Runtime, FirstMatch;
    FirstMatchSplit(env, Runtime(env), Fallbacks(env, key, Some(wire)), Some(wire));
    FallbacksFirst(env, key, Some(wire));
    WalkServersStep(env, env.javaTasks, key, JAVA_DEPTH);
    ghost var rest := if key.pKey in env.javaTasks
                      then WalkServers(env, env.javaTasks, key.(pKey := env.javaTasks[key.pKey]), JAVA_DEPTH - 1)
                      else [];
    FirstOfCons(env, ServerOf(env, key), rest, Some(wire));
  }
}
