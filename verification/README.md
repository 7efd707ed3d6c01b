# Kernel-side tracing logic, modelled and proved in Dafny

The eBPF programs of OpenTelemetry eBPF Instrumentation recognise protocols, read and write
trace contexts, and decide which request parents which call, all in C that runs in the kernel.
This project models the parts of that C whose correctness is least obvious and proves what they
promise for every input, every run and every reachable state.

The model keeps the form of the source. Code that updates a struct, a map or a buffer is a class
or an array with methods; each method is proved against a specification function or predicate
over values, and the theorems about whole runs are lemmas about that specification. Kernel maps
are `map` fields. Memory reads that may fail, scratch buffers that may be missing, the clock,
and LRU eviction are parameters or events.

| file | what it covers |
|---|---|
| `Words.dfy` | machine words, powers of two, slices |
| `Float64.dfy` | software binary64 subtraction |
| `Huffman.dfy` | the traceparent Huffman decoder, against an independent RFC 7541 encoder |
| `Traceparent.dfy` | traceparent text, in and out |
| `HpackScan.dfy` | finding and adopting a traceparent header field in an HPACK block |
| `HuffmanSweep.dfy` | the bounded, resumable sweep for nameless Huffman values |
| `HpackSizeUpdate.dfy` | skipping dynamic table size updates |
| `H2Sniff.dfy` | recognising a buffer tiled by HTTP/2 frames |
| `ServerIndex.dfy` | the server request index by trace |
| `ParentLookup.dfy` | choosing the parent of a client call |
| `DnsWindow.dfy` | answers to unconnected UDP DNS queries |
| `LargeBuffer.dfy`, `Aerospike.dfy` | capped payload capture and response reassembly |
| `TlsKey.dfy` | correlation keys cut from TLS records |
| `HttpRecord.dfy` | the life of one HTTP request record |

Some promises do not hold of the code as written. Each is kept as the code has it, with a concrete
counterexample and the exact condition under which the promise holds.

- The float subtraction is correctly truncated exactly when the exact difference is zero or at
  least the smallest normal number; `Float64.SubnormalMissed` shows 3 - 1 in units of 2^-1074.
- The comments in `http_info.h` say a record whose response arrived unparsed is finished. An
  interim or out-of-range status parsed afterwards puts it back to reading:
  `HttpRecord.InterimReopens` is the run, `HttpRecord.ReadsAgainIff` the exact condition.
- The server index can miss a live request that it indexed: another request of the trace takes the
  entry while the first looks finished, and the first is then reopened as above.
  `ServerIndex.ReopenedIsMissed` is the run, built from that reopening record, and
  `ServerIndex.FoundIff` the exact condition.
- The response length of a record is not the number of response bytes. A send is counted when it
  enters and again when it returns, and its return counts as response whichever way it went:
  `HttpRecord.ClientSendCountsAsResponse` and `ServerSendCountsTwice` are runs, and
  `HttpRecord.SendCountedTwice` says what each send contributes. Buffers of the other direction also
  count while responding. `HttpRecord.ResponseBytesCounted` gives the exact sum and
  `HttpRecord.ResponseLengthIff` when the extra terms vanish.
- Response bytes already counted can be dropped from a record: `HttpRecord.ParsedStatusDropsBytes`
  is the run, `HttpRecord.CountedAtEndIff` says which buffers are still counted at the end.
- A capture cap above the largest valid setting is not honoured: `LargeBuffer.OversizedCapLoses` is
  the stream, `LargeBuffer.CapsIffValid` the exact bound.

Assumptions that the theorems name in their own preconditions: server spans get a fresh id per
request (`ServerIndex.FreshSpans`, the comment at `http_trace_parent.h:27`), no index entry is
evicted in the completeness results (`NoEviction`), and the clock does not run backwards
(`Ordered`). `Aerospike` takes as given that a side's counter does not exceed its cap, which it
also proves each call keeps.

## Model

| member | source | states |
|---|---|---|
| Float64.ShiftRightJamming | bpf/common/float64.h:45-56 | the shifted word has its last bit set whenever any lost bit was, for every count including 64 and more |
| Float64.LostBits | bpf/common/float64.h:51-51 | the left shift the code tests is nonzero exactly when the right shift loses bits |
| Float64.TableCounts | bpf/common/float64.h:19-27 | every nonzero entry of the 256-entry table is the leading-zero count of its index |
| Float64.CountLeadingZeros32 | bpf/common/float64.h:58-71 | the count is 32 for zero, and otherwise the unique shift that brings the top bit into place |
| Float64.CountLeadingZeros64 | bpf/common/float64.h:73-83 | the same over 64 bits, from its two halves |
| Float64.NormalizeAndPack | bpf/common/float64.h:85-97 | the significand is scaled to 53 bits by a power of two and truncated, and the exponent reduced by as much |
| Float64.ExactAlignment | bpf/common/float64.h:150-159 | with exponents at most ten apart, the aligned difference is the exact difference of the magnitudes |
| Float64.StickyAlignment | bpf/common/float64.h:172-186 | with exponents further apart, the sticky bit makes the truncated significand that of the exact difference |
| Float64.Bracket | bpf/common/float64.h:183-186 | in both cases the normalised significand brackets the exact difference within one unit in the last place |
| Float64.Overshift | bpf/common/float64.h:85-97 | when normalising passes the smallest exponent, the significand is the exact difference times a power of two the exponent cannot express |
| Float64.PackedNormal | bpf/common/float64.h:85-97 | a positive exponent gives the difference rounded toward zero, with its sign |
| Float64.PackedSubnormal | bpf/common/float64.h:85-97 | otherwise the difference is subnormal and the packed word is not its truncation |
| Float64.ExpBiggerA | bpf/common/float64.h:164-186 | the minuend-larger branch: right exactly when the exact difference is zero or normal |
| Float64.ExpBiggerB | bpf/common/float64.h:142-163 | the subtrahend-larger branch, with the sign flipped: right exactly when the difference is zero or normal |
| Float64.ExpEqual | bpf/common/float64.h:124-141 | the equal-exponent branch, exact cancellation included: right exactly when the difference is zero or normal |
| Float64.SubFloat64 | bpf/common/float64.h:99-187 | for all operands: NaN and infinity cases, zero for equal magnitudes, and for finite ones the correctly signed difference rounded toward zero if and only if it is zero or normal |
| Float64.SubnormalMissed | bpf/common/float64.h:85-97 | a concrete pair whose subnormal difference the code misses |
| Float64.IntegersExact | bpf/common/float64.h:99-187 | integers below 2^53 are subtracted exactly, bit for bit, with the right sign |
| Huffman.PackedBits | bpf/common/h2_tp_huffman.h:127-139 | packing codes into octets loses no bit and pads with fewer than eight ones |
| Huffman.TableSound | bpf/common/h2_tp_huffman.h:31-44 | each nonzero slot names the character whose RFC 7541 code its six bits start with, and that code's width |
| Huffman.TableComplete | bpf/common/h2_tp_huffman.h:31-44 | every slot that starts with a character's code holds that character |
| Huffman.EncodedLength | bpf/common/h2_tp_huffman.h:14-18 | 55 characters always take 35 to 42 octets, the bounds the decoder checks |
| Huffman.EncodeInjective | bpf/common/h2_tp_huffman.h:90-112 | no two 55-character values share an encoding |
| Huffman.DecodeLoop | bpf/common/h2_tp_huffman.h:90-112 | the loop consumes exactly the codes of what it wrote, and on an encoded value never leaves it |
| Huffman.DecodeTp | bpf/common/h2_tp_huffman.h:115-144 | accepts if and only if the octets are the encoding of some value of the traceparent layout, padding included, and then returns that value |
| Huffman.DecodedInverts | bpf/common/h2_tp_huffman.h:115-144 | decoding an encoded value returns it |
| Traceparent.DecodeHex | bpf/common/trace_util.h:53-66 | the bytes spelled by the hexadecimal pairs |
| Traceparent.EncodeHex | bpf/common/trace_util.h:68-76 | writes the hexadecimal spelling in place and nothing before it |
| Traceparent.HexRoundTrip | bpf/common/trace_util.h:53-76 | hexadecimal text of any bytes reads back as those bytes |
| Traceparent.MakeTpString | bpf/common/tracing.h:21-40 | the buffer holds version, identifiers and sampled bit of the context |
| Traceparent.TryParseTpValue | bpf/generictracer/hpack_traceparent_parse.h:16-24 | adopts trace id, parent id and flags of a well-formed value, and changes nothing otherwise |
| Traceparent.ValueRoundTrip | bpf/common/tracing.h:21-40 | a written value parses to the same trace, span and sampled flag |
| Traceparent.TpStringLayout | bpf/common/tracing.h:21-40 | every written value is one the Huffman code can carry, dashes in place |
| HpackScan.MatchAt | bpf/generictracer/hpack_traceparent_parse.h:173-226 | recognises at one position the four name and value shapes, each with its own length check |
| HpackScan.ParseHpackTraceparent | bpf/generictracer/hpack_traceparent_parse.h:161-231 | adopts the first plain field, or hands on the first Huffman value, whichever comes first |
| HpackScan.TryParseHuffmanValue | bpf/generictracer/hpack_traceparent_parse.h:128-158 | adopts exactly the context encoded by the announced octets, whatever follows them |
| HpackScan.FillWindow | bpf/generictracer/hpack_traceparent_parse.h:143-151 | the window starts with the announced octets, also at the end of the block |
| HpackScan.RecoverTraceparent | bpf/generictracer/hpack_traceparent_parse.h:128-231 | name scan and decode of the value it names together adopt exactly the recovered context, and change nothing otherwise |
| HpackScan.RoundTrip | bpf/generictracer/hpack_traceparent_parse.h:161-231 | any context sent in any literal form, plain or Huffman name and value, behind and before any other bytes without an earlier shape, is recovered |
| HpackScan.ClassifierMatchesScan | bpf/common/h2_tp_scan.h:52-104 | the egress classifier calls a literal field adoptable exactly when the receiver's scan reads a plain value, reports every Huffman one, and is always preceded by its cheap test |
| HpackScan.ClassifyField | bpf/common/h2_tp_scan.h:75-104 | every field a sender can write is seen, and adoptable exactly when its value is plain |
| HuffmanSweep.FindHuffman | bpf/generictracer/hpack_traceparent_parse.h:41-86 | keeps the first three plausible length bytes past the resume point, in order, with their lengths |
| HuffmanSweep.OffsetsAreExact | bpf/common/h2_tp_huffman.h:68-77 | the candidates are exactly the plausible positions, in increasing order |
| HuffmanSweep.OffsetsInBlock | bpf/generictracer/hpack_traceparent_parse.h:73-82 | every candidate leaves room for the shortest value inside the block |
| HuffmanSweep.ResumeAt | bpf/generictracer/protocol_http2.h:854-859 | resuming at a candidate continues with exactly those after it |
| HuffmanSweep.ChainIsComplete | bpf/generictracer/protocol_http2.h:842-859 | repeated three-at-a-time sweeps visit every candidate once, in order |
| HuffmanSweep.TryCandidates | bpf/generictracer/protocol_http2.h:830-851 | the decoding program adopts the first of the listed candidates, within its tail calls, whose octets decode |
| HuffmanSweep.SweepForTraceparent | bpf/generictracer/protocol_http2.h:779-862 | scans and decodes together adopt the context of the first offset within reach of the tail-call budget whose octets decode, and nothing if none does |
| HuffmanSweep.AdoptTraceparent | bpf/generictracer/protocol_http2.h:736-862 | the server's programs from the name scan on adopt the named value, plain or compressed, or else what the sweep reaches, each within the tail calls left |
| HuffmanSweep.NamedFirst | bpf/generictracer/protocol_http2.h:756-840 | with enough calls that is the context under a matching name if there is one, else the one the sweep finds |
| HuffmanSweep.FirstDecodedIsFirst | bpf/generictracer/protocol_http2.h:830-851 | that context is the one at the least decodable offset, and is none exactly when no offset decodes |
| HuffmanSweep.SweepFindsLeast | bpf/generictracer/protocol_http2.h:717-732 | with enough calls it is the context at the least plausible position of the block that decodes |
| HuffmanSweep.SweepFindsNone | bpf/generictracer/protocol_http2.h:717-732 | with enough calls nothing is adopted if and only if no plausible position decodes |
| HuffmanSweep.SweepRoundTrip | bpf/generictracer/protocol_http2.h:717-732 | any context sent compressed with no name on the wire is recovered behind any bytes in which nothing decodes |
| HpackSizeUpdate.SizeUpdateLen | bpf/common/h2_defs.h:112-128 | the length of the update at the given place, continuation octets included |
| HpackSizeUpdate.SkipSizeUpdates | bpf/common/h2_defs.h:132-144 | for every block that opens with up to two updates and a field, and fits the window, the offset returned is that field's |
| HpackSizeUpdate.SkipsToFirstField | bpf/common/h2_defs.h:130-144 | the same as a law of the skipping function |
| HpackSizeUpdate.EncodeUpdateRoundTrip | bpf/common/h2_defs.h:107-128 | every 32-bit table size has a well-formed update that decodes to it |
| HpackSizeUpdate.OpeningFits | bpf/common/h2_defs.h:130-144 | two longest updates and a field fit the window |
| H2Sniff.SniffState.CheckFrame | bpf/common/h2_defs.h:211-299 | accepts exactly a header legal by itself and legal after what went before, and records the open block |
| H2Sniff.SniffState.CheckType | bpf/common/h2_defs.h:226-298 | per-type flag, length and stream rules, and the state each type leaves |
| H2Sniff.LooksLikeHttp2Frames | bpf/generictracer/http2_grpc.h:76-104 | accepts a buffer if and only if some legal frame sequence serialises to it, holds HEADERS and leaves no block open |
| H2Sniff.Rejected | bpf/common/h2_defs.h:301-314 | every early rejection is justified: no legal tiling exists |
| H2Sniff.Advance | bpf/common/h2_defs.h:301-318 | every accepted frame is the next frame of every tiling |
| H2Sniff.TilingUnique | bpf/common/h2_defs.h:338-341 | a buffer has at most one tiling |
| H2Sniff.BlockIsContiguous | bpf/common/h2_defs.h:217-224 | in an accepted buffer every open header block is closed by CONTINUATION frames of its own stream with nothing between |
| ServerIndex.HttpServerIndex.IndexServerContext | bpf/common/http_trace_parent.h:65-94 | the new index: insert, keep, replace a finished entry, or mark ambiguous |
| ServerIndex.HttpServerIndex.UnindexServerTrace | bpf/common/http_trace_parent.h:96-103 | removes only an unambiguous entry of this very span |
| ServerIndex.HttpServerIndex.IndexedServerTp | bpf/common/http_trace_parent.h:34-63 | the live request an entry points at, HTTP/1 or HTTP/2, or none |
| ServerIndex.HttpServerIndex.FindServerTrace | bpf/common/http_trace_parent.h:116-143 | returns the looked-up request as a valid parent of this process, or none, also when the scratch copy is missing |
| ServerIndex.FindIsSound | bpf/common/http_trace_parent.h:116-143 | after any run, evictions included, what is found is a live request of that process in that trace |
| ServerIndex.EntryFate | bpf/common/http_trace_parent.h:65-103 | at every point of a run, the entry of an indexed request is ambiguous, or still its own, or lost to a rival for good, and the last exactly if a rival was indexed while the slot did not hold it |
| ServerIndex.FoundIff | bpf/common/http_trace_parent.h:84-128 | a live indexed request under an unambiguous key is found if and only if no rival was indexed since at a moment when its slot did not hold it unfinished |
| ServerIndex.FindIsComplete | bpf/common/http_trace_parent.h:116-128 | in particular a request that its slot held at every indexing since is found unless ambiguous |
| ServerIndex.ReopenedIsMissed | bpf/common/http_trace_parent.h:84-87 | a run in which two live indexed requests share an unambiguous key and only the later one is found |
| ServerIndex.FoundIsOnly | bpf/common/http_trace_parent.h:115-128 | what is found is a live, indexed and never displaced request, and every other live indexed request of its process and trace was displaced while its slot did not hold it |
| ServerIndex.AmbiguityIsPermanent | bpf/common/http_trace_parent.h:90-93 | once a rival is indexed while an undisplaced request is in its slot, no later lookup finds a parent |
| ServerIndex.AmbiguousIff | bpf/common/http_trace_parent.h:79-93 | a key is ambiguous if and only if the run has such a moment |
| ParentLookup.WalkThreads | bpf/common/trace_parent.h:160-189 | returns the first matching server among the threads visited, else leaves the key where the walk stopped |
| ParentLookup.WalkVisits | bpf/common/trace_parent.h:165-186 | a walk visits exactly the first ancestors up to its depth, whatever cycles the map holds |
| ParentLookup.StopIs | bpf/common/trace_parent.h:165-186 | the key is left on the first ancestor not visited, or on the last there is |
| ParentLookup.FindPythonOwningServerTrace | bpf/common/python_task.h:158-188 | returns the server of the nearest serving task within four live ancestors, stale if an instance on the way is gone or changes while it is copied, else none |
| ParentLookup.OwnerIsNearest | bpf/common/python_task.h:157-188 | the walk's answer meets that description at every depth |
| ParentLookup.NearestOwnerUnique | bpf/common/python_task.h:157-188 | that description admits one answer |
| ParentLookup.FindPythonParentTrace | bpf/common/trace_parent.h:227-260 | the owner's server, with fallback forbidden exactly when ownership is stale |
| ParentLookup.FindParentJavaTrace | bpf/common/trace_parent.h:262-291 | first match over three task ancestors |
| ParentLookup.FindParentProcessTrace | bpf/common/trace_parent.h:160-189 | first match over five clone ancestors |
| ParentLookup.FindParentTrace | bpf/common/trace_parent.h:339-429 | the result of the whole lookup is the first match in one ordered list of candidates |
| ParentLookup.ParentIsPreferred | bpf/common/trace_parent.h:339-429 | the parent is the most preferred matching candidate, and none exactly when no candidate matches |
| ParentLookup.WireConstrainsParent | bpf/common/trace_parent.h:50-71 | with a propagated context every parent found is valid, of the same trace, and started before the call within the transaction limit |
| ParentLookup.StaleTaskStops | bpf/common/trace_parent.h:365-371 | with stale task ownership only the Node.js and goroutine links can supply a parent |
| ParentLookup.JavaAncestorsCovered | bpf/common/trace_parent.h:400-416 | a matching request on any of the thread's first four task ancestors is never missed: the second walk starts where the first stopped |
| ParentLookup.CloneAncestorsCovered | bpf/common/trace_parent.h:412-416 | nor one on the threads that cloned the last task reached |
| ParentLookup.NearestThread | bpf/common/trace_parent.h:400-416 | when nothing more preferred matches, the parent is the request of the nearest matching thread on one chain: three task ancestors, then five clone ancestors of the stop |
| ParentLookup.ConnectionIsLast | bpf/common/trace_parent.h:418-428 | and when no thread matches, the connection's own request or none |
| ParentLookup.OwnRequestOrIndexed | bpf/common/trace_parent.h:388-410 | virtual threads and submitted tasks keep their own request, other threads give way to the indexed one |
| DnsWindow.UnconnDns.CommitQuery | bpf/generictracer/dns.h:332-344 | opens the window of the staged query's socket at the current time and drops the staged entry |
| DnsWindow.UnconnDns.AnswerExpected | bpf/generictracer/dns.h:353-374 | true exactly for a recorded socket, the same local end and a recent query; otherwise the record is retired |
| DnsWindow.UnconnDns.SendEntry | bpf/generictracer/k_tracer.c:257-288 | a send discards what its thread had staged and stages a handled nameless DNS query |
| DnsWindow.UnconnDns.SendReturn | bpf/generictracer/k_tracer.c:306-312 | commits after bytes were sent, discards otherwise |
| DnsWindow.UnconnDns.DestroySock | bpf/generictracer/k_tracer.c:321-328 | retires the socket's window |
| DnsWindow.UnconnDns.RecvReturn | bpf/generictracer/k_tracer.c:1030-1055 | classifies by peer, or by an open window for a nameless datagram |
| DnsWindow.PendingIsStaged | bpf/generictracer/k_tracer.c:257-284 | after any run a thread's staged query is exactly the one of its last send, untouched since |
| DnsWindow.ExpectedIffWindow | bpf/generictracer/dns.h:346-374 | after any run an answer is expected if and only if some query went out on that socket from that local end within the timeout and nothing retired it since |
| DnsWindow.ExpectedOnlyAfterSend | bpf/generictracer/k_tracer.c:293-315 | an expected answer always has a DNS query whose own send succeeded on a socket not destroyed since |
| DnsWindow.AnswersStayExpected | bpf/generictracer/dns.h:346-351 | answers consume nothing: until timeout, destruction or eviction every one is expected, as long as receives since keep the local address and no send from another address was still under way |
| LargeBuffer.EmitChunks | bpf/common/large_buf_emit.h:20-64 | emits the leading pieces of the payload up to the first failure and returns the bytes they carry |
| LargeBuffer.PieceAt | bpf/common/large_buf_emit.h:33-48 | each piece is the slice at its own multiple of the chunk size |
| LargeBuffer.PayloadIsPrefix | bpf/common/large_buf_emit.h:20-64 | the pieces emitted before a failure join to exactly a prefix of the payload |
| LargeBuffer.InitOnlyFirst | bpf/common/large_buf_emit.h:20-64 | only the first piece can start a new buffer |
| LargeBuffer.MssqlSendLargeBuffer | bpf/generictracer/protocol_mssql.h:177-224 | one call is one step of its side of the run: chunks on the ring and counter; the other counter is kept, the flag set on progress, scratch failure included |
| LargeBuffer.EmissionIsPrefix | bpf/generictracer/protocol_mssql.h:177-224 | each call carries a prefix of its buffer, as long as the counter grew |
| LargeBuffer.CounterIsEmitted | bpf/generictracer/protocol_mssql.h:177-224 | over any run with any failures the counter is the number of payload bytes in the chunks on the ring, never above the cap |
| LargeBuffer.StreamIsCapped | bpf/generictracer/protocol_mssql.h:177-224 | without failures the chunks on the ring join to the stream cut at the cap, however it was split |
| LargeBuffer.OneCapture | bpf/common/large_buf_emit.h:56-61 | when only the first buffer starts a capture, at most the first chunk on the ring does |
| LargeBuffer.OversizedCapLoses | bpf/generictracer/protocol_mssql.h:207-210 | with a cap above the largest valid setting a long buffer loses bytes |
| LargeBuffer.CapsIffValid | bpf/generictracer/protocol_mssql.h:183-210 | every failure-free stream is cut exactly at the cap if and only if the cap is a valid setting |
| Aerospike.Tracer.SendResponse | bpf/generictracer/protocol_aerospike.h:131-210 | events, counter, missing bytes and verdict after a response chunk, a failed header read included, other connections untouched |
| Aerospike.Tracer.SendLargeBuffer | bpf/generictracer/protocol_aerospike.h:131-210 | both directions: requests and finished responses never wait, and no counter passes the cap |
| Aerospike.Tracer.EmitSide | bpf/generictracer/protocol_aerospike.h:98-126 | puts on the ring what the budget allows, moves only its own counter, and flags a capture that carried bytes |
| Aerospike.WaitsExactlyUntilGoal | bpf/generictracer/protocol_aerospike.h:131-210 | for any split, the span is held back exactly while fewer bytes than the first frame or the cap have arrived, and the entry holds what is missing |
| Aerospike.CapturesResponse | bpf/generictracer/protocol_aerospike.h:190-209 | up to the verdict the chunks on the ring join to the response as it arrived, cut at the cap |
| Aerospike.SplitIndependent | bpf/generictracer/protocol_aerospike.h:131-210 | two splits of the same bytes end in the same verdict, counter and entry |
| TlsKey.TlsPrefixKeyFromBuf | bpf/common/tls_record.h:147-175 | the key holds the derived prefix, zero padded, with its length |
| TlsKey.RecordIsKeyed | bpf/common/tls_record.h:118-141 | a whole record yields a key exactly when plausible and long enough, of its own length up to the limit |
| TlsKey.CoalescingKeepsKey | bpf/common/tls_record.h:114-141 | a record alone and the same record with anything behind it give the same key |
| TlsKey.KeysEqualIffPrefixesEqual | bpf/common/tls_record.h:163-172 | padded keys are equal exactly when their prefixes are |
| HttpRecord.HttpInfo.NoteUnreadResponse | bpf/common/http_info.h:130-133 | marks the response unread and moves the end |
| HttpRecord.HttpInfo.NoteDisplacedByNextRequest | bpf/common/http_info.h:139-147 | ends a record still reading and leaves any other alone |
| HttpRecord.HttpInfo.ProcessHttpRequest | bpf/generictracer/protocol_http.h:304-365 | the record a request starts |
| HttpRecord.HttpInfo.ProcessHttpResponse | bpf/generictracer/protocol_http.h:367-385 | the record after a status line, interim statuses included |
| HttpRecord.HttpInfo.SubmitHttpEvent | bpf/generictracer/http_event.h:10-24 | marks an emittable record and attempts its one write, which may fail |
| HttpRecord.HttpInfo.HandleHttpResponse | bpf/generictracer/protocol_http.h:387-425 | record and ring after a response |
| HttpRecord.HttpInfo.ProtocolHttp | bpf/generictracer/protocol_http.h:949-990 | a parsed packet takes the run one step, whatever record it meets: a request starts a zeroed record, a response is handled, and anything else is only counted |
| HttpRecord.HttpInfo.MakeWay | bpf/generictracer/protocol_http.h:228-245 | another request takes the run one step: duplicates are ignored, a record in flight is displaced and submitted |
| HttpRecord.HttpInfo.HandleLargeRequest | bpf/generictracer/protocol_handler.c:116-187 | an unrecognised buffer takes the run one step, plain buffers of an encrypted request ignored |
| HttpRecord.HttpInfo.UpdateHttpSentLen | bpf/generictracer/protocol_http.h:210-215 | the return of a send takes the run one step |
| HttpRecord.HttpInfo.FinishPossibleDelayed | bpf/generictracer/protocol_http.h:267-272 | a delayed record is submitted, any other left alone |
| HttpRecord.HttpInfo.ForceFinish | bpf/generictracer/protocol_http.h:187-208 | record and ring when an undelayed record is forced to finish |
| HttpRecord.HttpInfo.ForceFinishPossibleDelayed | bpf/generictracer/protocol_http.h:274-288 | closing the connection takes the run one step |
| HttpRecord.RingAtMostOnce | bpf/generictracer/http_event.h:10-24 | over any run a record is on the ring at most once, only as an emittable one, and exactly if the write at its one submission succeeded |
| HttpRecord.SubmittedIsFrozen | bpf/generictracer/http_event.h:10-24 | once submitted, no run changes the ring or anything but the fields a parsed packet or a returned send writes, and without those nothing at all |
| HttpRecord.StatusIsFinal | bpf/generictracer/protocol_http.h:367-385 | over any run a parsed status never changes and the record never reads again |
| HttpRecord.ReadsAgainIff | bpf/generictracer/protocol_http.h:367-385 | one step: a record past reading reads again exactly on an interim or out-of-range status while it has none |
| HttpRecord.RunReadsAgainIff | bpf/generictracer/protocol_http.h:367-385 | over any run: a record past reading is found reading again if and only if such a status is parsed while it has none |
| HttpRecord.InterimReopens | bpf/common/http_info.h:92-96 | a run in which a record with an unread response goes back to reading |
| HttpRecord.NeverReadsAgain | bpf/common/http_info.h:87-96 | without such a status, no run returns to reading |
| HttpRecord.EndNeverDecreases | bpf/common/http_info.h:128-147 | over any run in time order the end of a record never moves back |
| HttpRecord.EveryByteHasOneClass | bpf/generictracer/protocol_handler.c:164-187 | over any run every byte an event carries falls into exactly one of six classes, and the bytes travelling the way of the response, by direction and kind alone, are those answered and those missed |
| HttpRecord.NeitherIff | bpf/generictracer/protocol_handler.c:116-187 | a heard buffer goes into neither length exactly when the record has no status, is not reading, and is no unread response the buffer continues |
| HttpRecord.RequestBytesCounted | bpf/generictracer/protocol_handler.c:181-182 | over any run the request length is the bytes of the request and of every buffer taken as request, modulo 2^32, with no reset |
| HttpRecord.LastResetIsLast | bpf/generictracer/protocol_http.h:368-368 | the resets of a run are a status parsed while there is none, the displacement of a reading record, and a forced close; the last one is where counting starts |
| HttpRecord.ResponseBytesCounted | bpf/generictracer/protocol_http.h:210-215 | over any run the response length is the bytes that travelled the way of the response since the last reset, less those nobody heard, plus every returned send, plus what came the other way while responding, modulo 2^32 |
| HttpRecord.ResponseLengthIff | bpf/generictracer/protocol_http.h:210-215 | it is the response bytes heard if and only if the two extra terms vanish modulo 2^32, and they are zero exactly when no nonempty send returned and no nonempty buffer came the other way while responding |
| HttpRecord.BufferContributes | bpf/generictracer/protocol_handler.c:164-187 | over any run, a longer buffer moves the final request length, or the final response length, or neither, never both, by exactly its extra bytes, and nothing else about the record |
| HttpRecord.CountedAtEndIff | bpf/generictracer/protocol_handler.c:164-187 | the bytes of an event are still counted at the end if and only if they went into the request length, or into the response length with no reset since |
| HttpRecord.SendCountedTwice | bpf/generictracer/k_tracer.c:746-750 | over any run a send seen at entry and at return contributes at both: to the length its entry put it in, and again to the response length unless a reset followed |
| HttpRecord.EntryThenReturn | bpf/generictracer/k_tracer.c:746-750 | what a send put into the response length at entry, its return puts there a second time |
| HttpRecord.ClientSendCountsAsResponse | bpf/generictracer/k_tracer.c:746-750 | a run that writes a record with twelve response bytes of which only five were response |
| HttpRecord.ServerSendCountsTwice | bpf/generictracer/protocol_handler.c:183-187 | a run in which five body bytes count as ten |
| HttpRecord.ParsedStatusDropsBytes | bpf/generictracer/protocol_http.h:367-372 | a run in which five counted response bytes end in neither counter |

## Left out

- Huffman.DecodeLoop: the decoder is proved for the traceparent alphabet the table holds; general HPACK strings are not decoded by the code either.
- HuffmanSweep.ChainIsComplete: the chain of scans without a tail-call budget; `SweepForTraceparent` has the budget, and the one call that commits a decoded context is outside it.
- HpackSizeUpdate.SkipSizeUpdates: the offset on a block cut short inside an update is given only as the code computes it, because the code promises nothing there.
- ParentLookup.FindParentTrace: the Node.js, goroutine, nginx and Puma lookups are given by their results; the index lookup is `ServerIndex`.
- ParentLookup.FindPythonOwningServerTrace: an address shows the same first look, copy and second look each time one lookup visits it.
- DnsWindow.UnconnDns.SendEntry: whether the payload was handled as DNS is a parameter; the DNS header and name checks are not part of this model.
- LargeBuffer.MssqlSendLargeBuffer: the end-of-message heuristic of the TDS parser is not part of this model.
- HttpRecord.HttpInfo.HandleLargeRequest: adopting a split traceparent and the large-buffer emission inside this handler are separate.
- HuffmanSweep.AdoptTraceparent: programs without bpf_loop skip the compressed values, and a stream with no traceparent falls back to the trace of its connection; neither is part of this model.
- HttpRecord.HttpInfo.MakeWay: removing the record from its map is not modelled; the theorems also cover events that can no longer reach a removed record.
- What happens to a parent after it is chosen (parent status, sampling, span identifiers) is left out: direct field updates.
- The indexed-name plain value scan (`find_hpack_traceparent_value`) is left out: one more loop of the kind already proved.
- HTTP/2 stream tracking, cut frames and the per-stream state maps are left out.
- SQL, Redis, Kafka, MongoDB and other protocol detectors are left out: fixed-offset byte tests.
- Go, Java, Node.js, Ruby and GPU tracers, and all user-space Go code, are left out.
- Concurrent updates of one map entry from several CPUs are left out; every probe is one step.
