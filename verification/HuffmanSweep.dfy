/**
 Sweeping a block for Huffman-coded values whose name is a table index
 (bpf/generictracer/hpack_traceparent_parse.h:41-86): any plausible length byte is a candidate,
 three are kept, and a full list is resumed past its last entry.
 */
module HuffmanSweep {
  import opened Words
  import opened HpackScan
  import opened Traceparent
  import Huffman

  const BUF_SIZE: nat := 256
  const MAX_CANDIDATES: nat := 3

  /** The sweep's record: candidate slots, how many are filled, and where a rescan resumes. */
  class Scan {
    var at: seq<nat>
    var len: seq<nat>
    var count: nat
    var idx: nat
    var resume: nat

    constructor ()
      ensures |at| == |len| == MAX_CANDIDATES && count == 0 && idx == 0 && resume == 0
    {
      at, len := [0, 0, 0], [0, 0, 0];
      count, idx, resume := 0, 0, 0;
    }
  }

  function ByteAt(base: seq<byte>, off: nat, i: nat): byte
    requires |base| == BUF_SIZE
  {
    base[(off + i) % BUF_SIZE]
  }

  /** How many positions one sweep of a block may look at. */
  function Positions(dataLen: nat): (n: nat) {
    if dataLen < Huffman.MIN_OCTETS + 1 then 0 else Min(MAX_SCAN, dataLen - Huffman.MIN_OCTETS)
  }

  /** All value offsets past `resume` announced by a plausible length byte among the first `n` positions. */
  function Offsets(base: seq<byte>, off: nat, n: nat, resume: nat): (s: seq<nat>)
    requires |base| == BUF_SIZE
  {
    if n == 0 then []
    else if PlausibleLen(ByteAt(base, off, n - 1)) && n > resume then Offsets(base, off, n - 1, resume) + [n]
    else Offsets(base, off, n - 1, resume)
  }

  lemma OffsetsNone(base: seq<byte>, off: nat, resume: nat)
    requires |base| == BUF_SIZE
    ensures Offsets(base, off, 0, resume) == []
  {
  }

  lemma OffsetsStep(base: seq<byte>, off: nat, i: nat, resume: nat)
    requires |base| == BUF_SIZE
    ensures Offsets(base, off, i + 1, resume) ==
            if PlausibleLen(ByteAt(base, off, i)) && i + 1 > resume then Offsets(base, off, i, resume) + [i + 1]
            else Offsets(base, off, i, resume)
  {
  }

  lemma PlausibleFlag(b: byte)
    ensures PlausibleLen(b) ==> b >= HUFFMAN_FLAG
  {
  }

  /** The list is exactly the plausible offsets past `resume`, in increasing order. */
  lemma {:induction false} OffsetsAreExact(base: seq<byte>, off: nat, n: nat, resume: nat)
    requires |base| == BUF_SIZE
    ensures forall v :: v in Offsets(base, off, n, resume) <==> resume < v <= n && PlausibleLen(ByteAt(base, off, v - 1))
    ensures forall i, j :: 0 <= i < j < |Offsets(base, off, n, resume)| ==>
              Offsets(base, off, n, resume)[i] < Offsets(base, off, n, resume)[j]
  {
    if n > 0 {
      OffsetsAreExact(base, off, n - 1, resume);
      var s := Offsets(base, off, n - 1, resume);
      assert forall i :: 0 <= i < |s| ==> s[i] in s;
    }
  }

  /** A value offset leaves room in its block for the shortest value. */
  lemma OffsetsInBlock(base: seq<byte>, off: nat, dataLen: nat, resume: nat, v: nat)
    requires |base| == BUF_SIZE && v in Offsets(base, off, Positions(dataLen), resume)
    ensures resume < v && v + Huffman.MIN_OCTETS <= dataLen && v <= MAX_SCAN
  {
    OffsetsAreExact(base, off, Positions(dataLen), resume);
  }

  lemma {:induction false} OffsetsPrefix(base: seq<byte>, off: nat, m: nat, n: nat, resume: nat)
    requires |base| == BUF_SIZE && m <= n
    ensures Offsets(base, off, m, resume) <= Offsets(base, off, n, resume)
  {
    if m < n {
      OffsetsPrefix(base, off, m, n - 1, resume);
    }
  }

  function Take(s: seq<nat>): (t: seq<nat>) { s[..Min(MAX_CANDIDATES, |s|)] }

  /** The filled slots hold the given offsets and the lengths announced just before them. */
  predicate Filled(at: seq<nat>, len: seq<nat>, base: seq<byte>, off: nat, offsets: seq<nat>)
    requires |base| == BUF_SIZE
  {
    && |at| == |len| == MAX_CANDIDATES && |offsets| <= MAX_CANDIDATES
    && at[..|offsets|] == offsets
    && forall k :: 0 <= k < |offsets| ==>
         offsets[k] > 0 && len[k] + HUFFMAN_FLAG == ByteAt(base, off, offsets[k] - 1)
  }

  ghost predicate Holds(scan: Scan, base: seq<byte>, off: nat, offsets: seq<nat>)
    requires |base| == BUF_SIZE
    reads scan
  {
    scan.count == |offsets| && Filled(scan.at, scan.len, base, off, offsets)
  }

  lemma FilledOne(at: seq<nat>, len: seq<nat>, base: seq<byte>, off: nat, offsets: seq<nat>, i: nat, l: nat)
    requires |base| == BUF_SIZE && Filled(at, len, base, off, offsets) && |offsets| < MAX_CANDIDATES
    requires l + HUFFMAN_FLAG == ByteAt(base, off, i)
    ensures Filled(at[|offsets| := i + 1], len[|offsets| := l], base, off, offsets + [i + 1])
  {
    var n := |offsets|;
    assert at[n := i + 1][..n + 1] == at[..n] + [i + 1];
  }

  lemma FilledSizes(at: seq<nat>, len: seq<nat>, base: seq<byte>, off: nat, offsets: seq<nat>)
    requires |base| == BUF_SIZE
    ensures |at| == |len| == MAX_CANDIDATES ==> Filled(at, len, base, off, [])
    ensures Filled(at, len, base, off, offsets) ==> |at| == |len| == MAX_CANDIDATES && |offsets| <= MAX_CANDIDATES
  {
  }

  method FindHuffman(base: seq<byte>, off: nat, dataLen: nat, scan: Scan) returns (found: bool)
    requires |base| == BUF_SIZE && |scan.at| == |scan.len| == MAX_CANDIDATES
    modifies scan`at, scan`len, scan`count, scan`idx
    ensures Holds(scan, base, off, Take(Offsets(base, off, Positions(dataLen), scan.resume)))
    ensures scan.idx == 0
    ensures found <==> Offsets(base, off, Positions(dataLen), scan.resume) != []
  {
    hide Offsets, PlausibleLen, Filled, ByteAt;
    OffsetsNone(base, off, scan.resume);
    FilledSizes(scan.at, scan.len, base, off, []);
    scan.count, scan.idx := 0, 0;
    if dataLen < Huffman.MIN_OCTETS + 1 {
      return false;
    }
    var maxPos := dataLen - Huffman.MIN_OCTETS - 1;
    ghost var n := Positions(dataLen);
    var i := 0;
    while i < MAX_SCAN && i <= maxPos
      invariant 0 <= i <= n && scan.idx == 0
      invariant Holds(scan, base, off, Offsets(base, off, i, scan.resume))
    {
      var b := ByteAt(base, off, i);
      ghost var before := Offsets(base, off, i, scan.resume);
      FilledSizes(scan.at, scan.len, base, off, before);
      OffsetsStep(base, off, i, scan.resume);
      PlausibleFlag(b);
      if PlausibleLen(b) && i + 1 > scan.resume {
        if scan.count >= MAX_CANDIDATES {
          break;
        }
        FilledOne(scan.at, scan.len, base, off, before, i, b - HUFFMAN_FLAG);
        scan.at := scan.at[scan.count := i + 1];
        scan.len := scan.len[scan.count := b - HUFFMAN_FLAG];
        scan.count := scan.count + 1;
      }
      i := i + 1;
    }
    ghost var all, kept := Offsets(base, off, n, scan.resume), Offsets(base, off, i, scan.resume);
    OffsetsPrefix(base, off, i, n, scan.resume);
    FilledSizes(scan.at, scan.len, base, off, kept);
    assert Take(all) == kept;
    found := scan.count != 0;
  }

  /** The candidates a chain of sweeps offers, each full list resumed at its last entry. */
  ghost function Chain(base: seq<byte>, off: nat, n: nat, resume: nat): (s: seq<nat>)
    requires |base| == BUF_SIZE
    decreases n - resume
  {
    var s := Take(Offsets(base, off, n, resume));
    if |s| < MAX_CANDIDATES then s
    else
      OffsetsAreExact(base, off, n, resume);
      assert s[MAX_CANDIDATES - 1] in Offsets(base, off, n, resume);
      s + Chain(base, off, n, s[MAX_CANDIDATES - 1])
  }

  /** Resuming at an entry leaves exactly the entries after it. */
  lemma {:induction false} ResumeAt(base: seq<byte>, off: nat, n: nat, resume: nat, k: nat)
    requires |base| == BUF_SIZE && k < |Offsets(base, off, n, resume)|
    ensures Offsets(base, off, n, Offsets(base, off, n, resume)[k]) == Offsets(base, off, n, resume)[k + 1..]
  {
    var s := Offsets(base, off, n, resume);
    OffsetsAreExact(base, off, n, resume);
    assert s[k] in s;
    var t := Offsets(base, off, n - 1, resume);
    if k < |t| {
      ResumeAt(base, off, n - 1, resume, k);
      OffsetsAreExact(base, off, n - 1, resume);
      assert t[k] in t;
    } else {
      NothingPast(base, off, n, n);
    }
  }

  lemma {:induction false} NothingPast(base: seq<byte>, off: nat, n: nat, resume: nat)
    requires |base| == BUF_SIZE && n <= resume
    ensures Offsets(base, off, n, resume) == []
  {
    if n > 0 {
      NothingPast(base, off, n - 1, resume);
    }
  }

  /** A chain of sweeps offers every plausible offset exactly once, in order. */
  lemma {:induction false} ChainIsComplete(base: seq<byte>, off: nat, n: nat, resume: nat)
    requires |base| == BUF_SIZE
    ensures Chain(base, off, n, resume) == Offsets(base, off, n, resume)
    decreases n - resume
  {
    var all := Offsets(base, off, n, resume);
    if |all| >= MAX_CANDIDATES {
      var last := all[MAX_CANDIDATES - 1];
      OffsetsAreExact(base, off, n, resume);
      assert last in all;
      ResumeAt(base, off, n, resume, MAX_CANDIDATES - 1);
      ChainIsComplete(base, off, n, last);
    }
  }

  // ------------------------------------------------- decoding the candidates

  /** The HPACK block inside the buffer. */
  function Block(base: seq<byte>, off: nat, dataLen: nat): (data: seq<byte>)
    requires off + dataLen <= |base|
  {
    base[off..off + dataLen]
  }

  /** The context announced at a value offset, when its octets decode. */
  ghost function ContextAt(data: seq<byte>, v: nat): Option<Context>
    requires 0 < v <= |data|
  {
    if data[v - 1] >= HUFFMAN_FLAG then HuffmanContext(data, v, data[v - 1] - HUFFMAN_FLAG) else None
  }

  predicate InBlock(data: seq<byte>, vs: seq<nat>) { forall i :: 0 <= i < |vs| ==> 0 < vs[i] <= |data| }

  /** The context of the first offset whose octets decode. */
  ghost function FirstDecoded(data: seq<byte>, vs: seq<nat>): Option<Context>
    requires InBlock(data, vs)
  {
    if vs == [] then None
    else if ContextAt(data, vs[0]).Some? then ContextAt(data, vs[0])
    else FirstDecoded(data, vs[1..])
  }

  lemma {:induction false} FirstDecodedSplit(data: seq<byte>, xs: seq<nat>, ys: seq<nat>)
    requires InBlock(data, xs) && InBlock(data, ys)
    ensures InBlock(data, xs + ys)
    ensures FirstDecoded(data, xs + ys) ==
            if FirstDecoded(data, xs).Some? then FirstDecoded(data, xs) else FirstDecoded(data, ys)
  {
    hide ContextAt;
    if xs == [] {
      assert xs + ys == ys;
    } else {
      FirstDecodedSplit(data, xs[1..], ys);
      assert (xs + ys)[1..] == xs[1..] + ys;
    }
  }

  lemma FirstDecodedOne(data: seq<byte>, v: nat)
    requires 0 < v <= |data|
    ensures FirstDecoded(data, [v]) == ContextAt(data, v)
  {
    assert [v][1..] == [];
  }

  lemma FirstDecodedSnoc(data: seq<byte>, vs: seq<nat>, k: nat)
    requires InBlock(data, vs) && k < |vs|
    ensures FirstDecoded(data, vs[..k + 1]) ==
            if FirstDecoded(data, vs[..k]).Some? then FirstDecoded(data, vs[..k]) else ContextAt(data, vs[k])
  {
    hide ContextAt;
    assert vs[..k + 1] == vs[..k] + [vs[k]];
    FirstDecodedSplit(data, vs[..k], [vs[k]]);
    FirstDecodedOne(data, vs[k]);
  }

  /** It is the context at the least decodable index, and none exactly when no offset decodes. */
  lemma {:induction false} FirstDecodedIsFirst(data: seq<byte>, vs: seq<nat>)
    requires InBlock(data, vs)
    ensures FirstDecoded(data, vs).None? <==> forall i :: 0 <= i < |vs| ==> ContextAt(data, vs[i]).None?
    ensures FirstDecoded(data, vs).Some? ==>
              exists i :: 0 <= i < |vs| && ContextAt(data, vs[i]) == FirstDecoded(data, vs) &&
                          forall j :: 0 <= j < i ==> ContextAt(data, vs[j]).None?
  {
    hide ContextAt;
    if vs != [] {
      var rest := vs[1..];
      FirstDecodedIsFirst(data, rest);
      assert forall i :: 0 < i < |vs| ==> vs[i] == rest[i - 1];
      if ContextAt(data, vs[0]).None? && FirstDecoded(data, vs).Some? {
        var i :| 0 <= i < |rest| && ContextAt(data, rest[i]) == FirstDecoded(data, rest) &&
                 forall j :: 0 <= j < i ==> ContextAt(data, rest[j]).None?;
        assert vs[i + 1] == rest[i];
      }
    }
  }

  /** Candidates that `calls` tail calls reach: one call each, and one more before every rescan. */
  function Reach(calls: nat): nat { MAX_CANDIDATES * (calls / 4) + calls % 4 }

  lemma ReachStep(calls: nat)
    ensures calls < 4 ==> Reach(calls) == calls
    ensures calls >= 4 ==> Reach(calls) == MAX_CANDIDATES + Reach(calls - 4)
  {
  }

  function Reached(vs: seq<nat>, calls: nat): seq<nat> { vs[..Min(|vs|, Reach(calls))] }

  lemma AllInBlock(base: seq<byte>, off: nat, dataLen: nat, resume: nat)
    requires |base| == BUF_SIZE && off + dataLen <= BUF_SIZE
    ensures InBlock(Block(base, off, dataLen), Offsets(base, off, Positions(dataLen), resume))
  {
    var vs := Offsets(base, off, Positions(dataLen), resume);
    forall i | 0 <= i < |vs| ensures 0 < vs[i] <= dataLen {
      assert vs[i] in vs;
      OffsetsInBlock(base, off, dataLen, resume, vs[i]);
    }
  }

  /** A kept candidate announces what the block says at its offset. */
  lemma CandidateIs(base: seq<byte>, off: nat, dataLen: nat, resume: nat, v: nat, len: nat)
    requires |base| == BUF_SIZE && off + dataLen <= BUF_SIZE && v in Offsets(base, off, Positions(dataLen), resume)
    requires v > 0 && len + HUFFMAN_FLAG == ByteAt(base, off, v - 1)
    ensures v <= dataLen && v <= MAX_VALUE_AT && Huffman.MIN_OCTETS <= len <= Huffman.MAX_OCTETS
    ensures ContextAt(Block(base, off, dataLen), v) == HuffmanContext(Block(base, off, dataLen), v, len)
  {
    hide HuffmanContext, Offsets, Positions;
    OffsetsInBlock(base, off, dataLen, resume, v);
    OffsetsAreExact(base, off, Positions(dataLen), resume);
    BlockByte(base, off, dataLen, v);
  }

  lemma BlockByte(base: seq<byte>, off: nat, dataLen: nat, v: nat)
    requires |base| == BUF_SIZE && off + dataLen <= BUF_SIZE && 0 < v <= dataLen
    ensures Block(base, off, dataLen)[v - 1] == ByteAt(base, off, v - 1)
  {
  }

  /** The decoding program, jumping back to itself for each further candidate of the list. */
  method TryCandidates(base: seq<byte>, off: nat, dataLen: nat, scan: Scan, w: array<byte>, out: array<byte>,
                       tp: TpInfo, calls: nat)
    returns (found: bool, left: nat)
    requires |base| == BUF_SIZE && off + dataLen <= BUF_SIZE
    requires w.Length == Huffman.WINDOW && out.Length >= VALUE_LEN && w != out
    requires scan.count > 0 && scan.idx == 0
    requires Holds(scan, base, off, Take(Offsets(base, off, Positions(dataLen), scan.resume)))
    modifies scan`idx, w, out, tp`traceId, tp`parentId, tp`flags
    ensures var vs := Take(Offsets(base, off, Positions(dataLen), scan.resume));
            var data := Block(base, off, dataLen);
            && InBlock(data, vs)
            && Adopted(found, FirstDecoded(data, vs[..Min(|vs|, calls)]), old(tp.Remote()), tp.Remote())
            && (!found ==> left == calls - Min(|vs|, calls))
  {
    hide HuffmanContext, ContextAt, FirstDecoded, Offsets, Positions;
    ghost var all, data := Offsets(base, off, Positions(dataLen), scan.resume), Block(base, off, dataLen);
    ghost var vs := Take(all);
    AllInBlock(base, off, dataLen, scan.resume);
    assert vs[..0] == [] && FirstDecoded(data, []).None? by { NothingDecoded(data); }
    left := calls;
    var huff := new Candidate();
    var k := 0;
    while k < scan.count
      invariant 0 <= k <= scan.count == |vs|
      invariant scan.at == old(scan.at) && scan.len == old(scan.len) && scan.count == old(scan.count)
      invariant scan.resume == old(scan.resume)
      invariant k <= calls && left == calls - k
      invariant FirstDecoded(data, vs[..k]).None? && tp.Remote() == old(tp.Remote())
    {
      if left == 0 {
        return false, 0;
      }
      huff.at, huff.len := scan.at[k], scan.len[k];
      scan.idx := k;
      left := left - 1;
      assert huff.at == vs[k] && vs[k] in all;
      CandidateIs(base, off, dataLen, scan.resume, vs[k], huff.len);
      FirstDecodedSnoc(data, vs, k);
      found := TryParseHuffmanValue(base[off..off + dataLen], huff, w, out, tp);
      if found {
        FoundEarly(data, vs, k + 1, Min(|vs|, calls));
        return true, left;
      }
      k := k + 1;
    }
    return false, left;
  }

  lemma NothingDecoded(data: seq<byte>)
    ensures FirstDecoded(data, []).None?
  {
  }

  lemma FoundEarly(data: seq<byte>, vs: seq<nat>, m: nat, n: nat)
    requires InBlock(data, vs) && m <= n <= |vs| && FirstDecoded(data, vs[..m]).Some?
    ensures FirstDecoded(data, vs[..n]) == FirstDecoded(data, vs[..m])
  {
    assert vs[..n] == vs[..m] + vs[m..n];
    FirstDecodedSplit(data, vs[..m], vs[m..n]);
  }

  /** A full list that decodes nowhere leaves the rest of the offsets to the calls that are left. */
  lemma AfterFullList(data: seq<byte>, vs: seq<nat>, calls: nat)
    requires InBlock(data, vs) && |vs| >= MAX_CANDIDATES && calls >= 4
    requires FirstDecoded(data, vs[..MAX_CANDIDATES]).None?
    ensures InBlock(data, vs[MAX_CANDIDATES..])
    ensures FirstDecoded(data, Reached(vs, calls)) == FirstDecoded(data, Reached(vs[MAX_CANDIDATES..], calls - 4))
  {
    hide FirstDecoded, Reach;
    ReachStep(calls);
    var rest := vs[MAX_CANDIDATES..];
    assert Reached(vs, calls) == vs[..MAX_CANDIDATES] + Reached(rest, calls - 4);
    FirstDecodedSplit(data, vs[..MAX_CANDIDATES], Reached(rest, calls - 4));
  }

  /** A list that is not full, or with too few calls to rescan, decides. */
  lemma LastList(data: seq<byte>, vs: seq<nat>, calls: nat)
    requires InBlock(data, vs)
    requires |vs| < MAX_CANDIDATES || calls < 4 || FirstDecoded(data, vs[..MAX_CANDIDATES]).Some?
    ensures FirstDecoded(data, Reached(vs, calls)) == FirstDecoded(data, Take(vs)[..Min(|Take(vs)|, calls)])
  {
    hide FirstDecoded, Reach;
    ReachStep(calls);
    var n := Min(|Take(vs)|, calls);
    assert Take(vs)[..n] == vs[..n];
    if calls < 4 || |vs| < MAX_CANDIDATES {
      assert Reached(vs, calls) == vs[..n];
    } else {
      FoundEarly(data, vs, MAX_CANDIDATES, Min(|vs|, Reach(calls)));
    }
  }

  /** The context of the first offset within reach of the tail calls whose octets decode. */
  ghost function Swept(base: seq<byte>, off: nat, dataLen: nat, calls: nat): Option<Context>
    requires |base| == BUF_SIZE && off + dataLen <= BUF_SIZE
  {
    AllInBlock(base, off, dataLen, 0);
    FirstDecoded(Block(base, off, dataLen), Reached(Offsets(base, off, Positions(dataLen), 0), calls))
  }

  /** Enough calls to reach every candidate. */
  predicate ReachesAll(base: seq<byte>, off: nat, dataLen: nat, calls: nat)
    requires |base| == BUF_SIZE
  {
    Reach(calls) >= |Offsets(base, off, Positions(dataLen), 0)|
  }

  lemma SweptAll(base: seq<byte>, off: nat, dataLen: nat, calls: nat)
    requires |base| == BUF_SIZE && off + dataLen <= BUF_SIZE && ReachesAll(base, off, dataLen, calls)
    ensures InBlock(Block(base, off, dataLen), Offsets(base, off, Positions(dataLen), 0))
    ensures Swept(base, off, dataLen, calls) ==
            FirstDecoded(Block(base, off, dataLen), Offsets(base, off, Positions(dataLen), 0))
  {
    hide FirstDecoded, Reach, Offsets, Positions;
    AllInBlock(base, off, dataLen, 0);
    WholeSlice(Offsets(base, off, Positions(dataLen), 0));
  }

  /**
   The scan and decode programs together: of the offsets that the tail calls reach, the first whose
   octets decode is adopted, and nothing is adopted exactly when none of them decodes.
   */
  method SweepForTraceparent(base: seq<byte>, off: nat, dataLen: nat, scan: Scan, w: array<byte>, out: array<byte>,
                             tp: TpInfo, calls: nat)
    returns (found: bool)
    requires |base| == BUF_SIZE && off + dataLen <= BUF_SIZE
    requires w.Length == Huffman.WINDOW && out.Length >= VALUE_LEN && w != out
    requires |scan.at| == |scan.len| == MAX_CANDIDATES && scan.resume == 0
    modifies scan, w, out, tp`traceId, tp`parentId, tp`flags
    ensures Adopted(found, Swept(base, off, dataLen, calls), old(tp.Remote()), tp.Remote())
  {
    hide FirstDecoded, Offsets, Positions, Reach;
    ghost var data, n := Block(base, off, dataLen), Positions(dataLen);
    ghost var goal := Offsets(base, off, n, 0);
    AllInBlock(base, off, dataLen, 0);
    var left: nat := calls;
    while true
      invariant |scan.at| == |scan.len| == MAX_CANDIDATES && left <= calls
      invariant InBlock(data, Offsets(base, off, n, scan.resume)) && InBlock(data, goal)
      invariant FirstDecoded(data, Reached(goal, calls)) ==
                FirstDecoded(data, Reached(Offsets(base, off, n, scan.resume), left))
      invariant tp.Remote() == old(tp.Remote())
      decreases left
    {
      ghost var vs, before := Offsets(base, off, n, scan.resume), left;
      var any := FindHuffman(base, off, dataLen, scan);
      if !any {
        assert Reached(vs, left) == [];
        NothingDecoded(data);
        return false;
      }
      assert Take(vs) == vs[..Min(MAX_CANDIDATES, |vs|)];
      found, left := TryCandidates(base, off, dataLen, scan, w, out, tp, left);
      if found || scan.count < MAX_CANDIDATES || left == 0 {
        if |vs| >= MAX_CANDIDATES && before >= 4 {
          assert Take(vs)[..Min(|Take(vs)|, before)] == vs[..MAX_CANDIDATES];
        }
        LastList(data, vs, before);
        return;
      }
      assert Take(vs)[..Min(|Take(vs)|, before)] == vs[..MAX_CANDIDATES];
      AfterFullList(data, vs, before);
      ResumeAt(base, off, n, scan.resume, MAX_CANDIDATES - 1);
      scan.resume := scan.at[MAX_CANDIDATES - 1];
      left := left - 1;
    }
    return false;
  }

  // --------------------------------------------------- the server's whole lookup

  /** What a stream's block gives the server: the named value, or else what the sweep reaches. */
  ghost function ServerContext(base: seq<byte>, off: nat, dataLen: nat, calls: nat): Option<Context>
    requires |base| == BUF_SIZE && off + dataLen <= BUF_SIZE
  {
    var data := Block(base, off, dataLen);
    if PlainContext(data).Some? then PlainContext(data)
    else if FirstShape(data, 0).HuffmanValue? then
      if calls == 0 then None
      else if Recovered(data).Some? then Recovered(data)
      else if calls == 1 then None
      else Swept(base, off, dataLen, calls - 2)
    else if calls == 0 then None
    else Swept(base, off, dataLen, calls - 1)
  }

  /**
   The server's programs from the name scan on: a plain named value is read at once, a compressed one
   takes a tail call, and a value that is rejected or not found leaves a further call to the sweep.
   */
  method AdoptTraceparent(base: seq<byte>, off: nat, dataLen: nat, w: array<byte>, out: array<byte>,
                          tp: TpInfo, calls: nat)
    returns (found: bool)
    requires |base| == BUF_SIZE && off + dataLen <= BUF_SIZE
    requires w.Length == Huffman.WINDOW && out.Length >= VALUE_LEN && w != out
    modifies w, out, tp`traceId, tp`parentId, tp`flags
    ensures Adopted(found, ServerContext(base, off, dataLen, calls), old(tp.Remote()), tp.Remote())
  {
    hide FirstShape, Swept, HuffmanContext;
    var data, left := base[off..off + dataLen], calls;
    var scan := new Scan();
    var huff := new Candidate();
    found := ParseHpackTraceparent(data, tp, huff);
    if found || left == 0 {
      return;
    }
    left := left - 1;
    if huff.len != 0 {
      found := TryParseHuffmanValue(data, huff, w, out, tp);
      if found || left == 0 {
        return;
      }
      left := left - 1;
    }
    found := SweepForTraceparent(base, off, dataLen, scan, w, out, tp, left);
  }

  /** With enough calls: the context under a matching name if there is one, else the sweep's. */
  lemma NamedFirst(base: seq<byte>, off: nat, dataLen: nat, calls: nat)
    requires |base| == BUF_SIZE && off + dataLen <= BUF_SIZE
    requires calls >= 2 && ReachesAll(base, off, dataLen, calls - 2)
    ensures var named := Recovered(Block(base, off, dataLen));
            ServerContext(base, off, dataLen, calls) ==
            if named.Some? then named else Swept(base, off, dataLen, calls)
  {
    hide FirstShape, Swept, HuffmanContext, Offsets, Reach, FirstDecoded;
    ReachGrows(calls - 2, calls - 1);
    ReachGrows(calls - 2, calls);
    SweptAll(base, off, dataLen, calls - 2);
    SweptAll(base, off, dataLen, calls - 1);
    SweptAll(base, off, dataLen, calls);
  }

  lemma ReachGrows(m: nat, n: nat)
    requires m <= n
    ensures Reach(m) <= Reach(n)
  {
  }

  /** An offset a length byte makes plausible, whose octets decode. */
  ghost predicate Decodes(data: seq<byte>, v: nat) {
    0 < v <= |data| && PlausibleLen(data[v - 1]) && ContextAt(data, v).Some?
  }

  /**
   In terms of the block alone: with enough calls the sweep adopts the context at the least offset
   whose length byte is plausible and whose octets decode.
   */
  lemma SweepFindsLeast(base: seq<byte>, off: nat, dataLen: nat, calls: nat, v: nat)
    requires |base| == BUF_SIZE && off + dataLen <= BUF_SIZE && v <= Positions(dataLen)
    requires ReachesAll(base, off, dataLen, calls)
    requires var data := Block(base, off, dataLen);
             Decodes(data, v) && forall u: nat :: u < v ==> !Decodes(data, u)
    ensures Swept(base, off, dataLen, calls) == ContextAt(Block(base, off, dataLen), v)
  {
    hide ContextAt, FirstDecoded, Swept, ReachesAll, Offsets, Positions, PlausibleLen;
    var vs, data := Offsets(base, off, Positions(dataLen), 0), Block(base, off, dataLen);
    SweptAll(base, off, dataLen, calls);
    OffsetsAreExact(base, off, Positions(dataLen), 0);
    BlockByte(base, off, dataLen, v);
    assert v in vs;
    var k :| 0 <= k < |vs| && vs[k] == v;
    FirstDecodedIsFirst(data, vs);
    var i :| 0 <= i < |vs| && ContextAt(data, vs[i]) == FirstDecoded(data, vs) &&
             forall j :: 0 <= j < i ==> ContextAt(data, vs[j]).None?;
    assert vs[i] in vs;
    BlockByte(base, off, dataLen, vs[i]);
    assert Decodes(data, vs[i]) && vs[i] >= v;
    assert i <= k;
  }

  /** With enough calls the sweep adopts nothing exactly when no plausible offset it may look at decodes. */
  lemma SweepFindsNone(base: seq<byte>, off: nat, dataLen: nat, calls: nat)
    requires |base| == BUF_SIZE && off + dataLen <= BUF_SIZE
    requires ReachesAll(base, off, dataLen, calls)
    ensures Swept(base, off, dataLen, calls).None? <==>
            forall v: nat :: v <= Positions(dataLen) ==> !Decodes(Block(base, off, dataLen), v)
  {
    hide ContextAt, FirstDecoded, Swept, ReachesAll, Offsets, Positions, PlausibleLen;
    var vs, data, n := Offsets(base, off, Positions(dataLen), 0), Block(base, off, dataLen), Positions(dataLen);
    SweptAll(base, off, dataLen, calls);
    OffsetsAreExact(base, off, n, 0);
    FirstDecodedIsFirst(data, vs);
    forall v: nat | v <= n && Decodes(data, v) ensures FirstDecoded(data, vs).Some? {
      BlockByte(base, off, dataLen, v);
      assert v in vs;
    }
    if FirstDecoded(data, vs).Some? {
      var i :| 0 <= i < |vs| && ContextAt(data, vs[i]).Some?;
      assert vs[i] in vs;
      BlockByte(base, off, dataLen, vs[i]);
      assert Decodes(data, vs[i]);
    }
  }

  /**
   Any context sent as a compressed value with no name on the wire is recovered from wherever the
   scan may look, behind any bytes in which nothing decodes.
   */
  lemma SweepRoundTrip(base: seq<byte>, off: nat, pre: seq<byte>, c: Context, post: seq<byte>, calls: nat)
    requires c.Valid() && |base| == BUF_SIZE && |pre| < MAX_SCAN
    requires var data := pre + ValueOctets(c, true) + post;
             && off + |data| <= BUF_SIZE && Block(base, off, |data|) == data
             && (forall u: nat :: u <= |pre| ==> !Decodes(data, u))
             && ReachesAll(base, off, |data|, calls)
    ensures Swept(base, off, |pre + ValueOctets(c, true) + post|, calls) == Some(c.(flags := c.flags % 2))
  {
    hide ReachesAll, Swept, Offsets, FirstDecoded, TpString, Huffman.Encode, Decodes, HuffmanContext;
    var data, v := pre + ValueOctets(c, true) + post, |pre| + 1;
    ValuePlaced(pre, c, post);
    BodyContext(data, v, true, c);
    assert Decodes(data, v) by { DecodesValue(data, v, c); }
    SweepFindsLeast(base, off, |data|, calls, v);
  }

  /** The announced octets of the value sit right behind its length byte. */
  lemma ValuePlaced(pre: seq<byte>, c: Context, post: seq<byte>)
    requires c.Valid()
    ensures var data, v, body := pre + ValueOctets(c, true) + post, |pre| + 1, ValueBody(c, true);
            && Huffman.MIN_OCTETS <= |body| <= Huffman.MAX_OCTETS && v + |body| <= |data|
            && data[v - 1] == HUFFMAN_FLAG + |body| && data[v..v + |body|] == body
  {
    hide Huffman.Encode, TpString;
    FieldParts(0, true, true, c);
    var value, body := ValueOctets(c, true), ValueBody(c, true);
    assert value == [HUFFMAN_FLAG + |body|] + body;
    SliceInside(pre, value, post, 1, |value|);
    assert value[1..] == body;
  }

  lemma DecodesValue(data: seq<byte>, v: nat, c: Context)
    requires c.Valid() && 0 < v && v + |ValueBody(c, true)| <= |data|
    requires Huffman.MIN_OCTETS <= |ValueBody(c, true)| <= Huffman.MAX_OCTETS
    requires data[v - 1] == HUFFMAN_FLAG + |ValueBody(c, true)|
    requires HuffmanContext(data, v, |ValueBody(c, true)|).Some?
    ensures Decodes(data, v)
  {
    hide HuffmanContext, ValueBody;
  }
}
