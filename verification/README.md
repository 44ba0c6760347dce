# A model of logpool in Dafny

logpool is a small log-streaming system written in C. A client formats records and multiplexes them to
several backends; a server reassembles messages from a byte stream and pushes each of them through a graph of
plugins (change detection, time windows, aggregation); a viewer generates C code for such graphs. This
project models the in-memory logic behind that: the hash map, the wire format and stream reassembly, the
change detector with its reference counts, the sliding window and aggregator, plugin initialisation, the
code generator, the number printers, the formatting and multiplexing layer, the two string hashes and the
CRC.

`dafny verify dfyconfig.toml` checks everything.

## How the model is built

Code that updates objects or buffers in place is modelled by classes and methods over arrays. Each method is
tied to a function of the old state, and the properties the program relies on are lemmas about those
functions, for all inputs and all runs.

| module | models |
|---|---|
| `Wrappers`, `Bits`, `Memory` | optional values; bytes, masks, powers of two; in-place writes as splices of the old contents |
| `Hash`, `ProbeTable`, `ProbeRuns`, `ProbeLimits`, `PoolMap` | `include/hash.h`, `core/map.c`: table functions, runs of calls, where the map reading stops, the map object |
| `Wire`, `Framing`, `ChunkStream` | `include/protocol.h`, `core/stream.c`, the read callback of `core/server.c` |
| `Encoder`, `Printers`, `Format`, `Multiplexer` | `emit_message`, `LogEntry_get`, number printers, field rendering, the stream backend, the shared formatting context |
| `LogEntries`, `ChangeLog`, `React` | log entries, `plugins/pool/react.c` |
| `Window`, `TimeWindow`, `Aggregator` | `plugins/pool/time.c`, `plugins/pool/statics.c` |
| `PluginGraph` | `pool_plugin_init` and the Create functions |
| `Codegen` | `nodeToCode` and `codegen` of the viewer |
| `Crc32` | `core/crc32.c` |

Findings about the code, each stated as a lemma:

- The empty slot mark of the map is hash 0, and ordinary keys can have that hash (`ProbeLimits.ZeroHashKey`).
  Every set of such a key reports ADDED and drives the counter above the number of records
  (`ProbeLimits.ZeroHashAlwaysAdded`, `ProbeLimits.ZeroHashRun`), a second set silently replaces the first
  record (`ProbeLimits.ZeroHashReplacesSilently`), and a resize forgets it
  (`ProbeLimits.ResizeForgetsZeroHash`). Other keys are not affected (`ProbeTable.PutStray`). In the change
  detector each such field leaks one reference of its log entry (`React.React.Append`,
  `ChangeLog.UnrememberedZeroIff`).
- Removing a key both of whose hashes are 0 matches a blank slot and miscounts, after which a set can run into
  the `assert(0)` (`ProbeLimits.BlankRemovalAborts`, with a real key). Without that one key no run does
  (`ProbeRuns.RunNeverAborts`).
- From a new map, setting "a", "e" and "i" and removing the first two makes the third, still stored,
  unfindable (`ProbeLimits.TwoRemovalsLoseARecord`); removing one and setting "i" again stores it twice
  (`ProbeLimits.SetAfterRemovalDuplicates`). The exact conditions are `ProbeRuns.FetchExactIff` and
  `ProbeRuns.ReinsertIff`; a resize repairs broken chains (`ProbeTable.ResizeRestoresChains`).
- A message whose announced size exceeds the 128-byte receive buffer is never delivered and blocks its
  connection (`Framing.OversizedWedges`). The announced size is summed in 16 bits: when a sum wraps to a size
  that fits, the message is cut short and its own data is read as further messages (`Framing.WrappedIsCut`,
  `Framing.WrappedExample`).
- The tail test of the time window is sound for entries that arrive with a count of at least one
  (`Window.WindowOfCounted`). Fresh entries start with one and the change detector hands on no other
  (`React.React.Apply`); only another timer could. The list functions alone would lose live entries behind an
  entry that came with count 0 (`Window.LiveEntryLost`; exactly when: `Window.TailTestLosesIff`).
- Key lengths pass through a `short`, and the index of `log_get_length` is a `uint16_t`, so from field 32768 on the
  walk reads the lengths of the field 32768 places earlier. The walk over a sent record therefore recovers it
  exactly when its field count fits 16 bits, no key length within reach comes out negative and lengths repeat from
  field 32768 on (`Format.RecordRoundTrip`; `Format.LongRecordLost` is a record of 32768 one-byte keys that is
  lost; in general `Wire.WalkIff`).
- `strncmp` makes `LogEntry_get` compare keys only up to a NUL byte (`Encoder.StrnEqExact`).
- A filter anywhere but in last place leaves a multiplexer with a key function that does not fit the next
  backend (`Multiplexer.InitFitsIff`).

## Model

| member | source | states |
|---|---|---|
| Bits.MaskIsMod | core/map.c:47 | `hash & mask` is the remainder modulo the power-of-two capacity, for words of any size |
| Hash.DuffDjbHash | include/hash.h:5-18 | the Duff's-device loop returns, for every nonempty key, the 31-bit masked left fold `h*33 + c` in 32-bit arithmetic with signed characters; every byte is read once |
| Hash.DuffHash0 | include/hash.h:20-32 | the same for `h*31 + c` from seed 38873 |
| Hash.HashRecurrence | test/hashbench.c:4-12 | seeds, one more character (a byte of 128 and more counting negative, in 32-bit arithmetic) and the final 31-bit mask of both hashes, in numbers |
| ProbeTable.SlotNext | core/map.c:65 | `(idx + 1) & mask` moves to the next slot of the cyclic probe sequence |
| ProbeTable.RunBound | core/map.c:49-66 | pigeonhole: a probe run all but h of whose slots are occupied has at most `occupied + h` slots |
| ProbeTable.InsertStops | core/map.c:45-68 | whenever the counter is at least the number of stored records and below the capacity, the probe loop stops at one of its `used_size + 1` slots, so the `assert(0)` is dead |
| ProbeTable.InsertTidyIff | core/map.c:51-55 | an insertion keeps the occupancy counter exact if and only if the record's hash is not 0 |
| ProbeTable.InsertSound | core/map.c:45-68 | inserting any record, of hash 0 too, succeeds and keeps the counter at or above everything stored |
| ProbeTable.HoleMeansAbsent | core/map.c:49-66 | in chain form, a probe that reaches an empty slot without meeting the key has shown that no slot holds it |
| ProbeTable.InsertChained | core/map.c:45-68 | insertion keeps cyclic probe chains unbroken |
| ProbeTable.InsertRefines | core/map.c:45-68 | insertion into a chain-form table is map update; ADDED exactly for an absent key; on UPDATE the previous v and v2 come back and exactly the previous record is released |
| ProbeTable.InsertStray | core/map.c:51-55 | a record of hash 0 leaves mapping and chain form as they were, is reported ADDED and releases nothing |
| ProbeTable.RehashRefines | core/map.c:75-81 | from any point of the re-insertion loop on, the new table ends up in chain form with the old mapping and the exact count, and nothing is released |
| ProbeTable.ResizeRestoresChains | core/map.c:70-83 | doubling turns any duplicate-free table, its chains broken or not and its counter right or wrong, into chain form with the same mapping, an exact counter and twice the capacity, without calling ffree |
| ProbeTable.PutRefines | core/map.c:85-91 | set with its resize decision is map update with the same status and previous record |
| ProbeTable.PutStray | core/map.c:85-91 | setting a key of hash 0, resize included, changes nothing the table stands for and reports ADDED |
| ProbeTable.PutSound | core/map.c:85-91 | from every state whose counter covers what is stored, a set of any key succeeds and leaves such a state |
| ProbeTable.PutCapacity | core/map.c:87-89 | a set doubles the capacity exactly when four times the counter exceeds three times the capacity, and otherwise keeps it |
| ProbeTable.PutConserves | core/map.c:56-91 | conservation, in every state with duplicates and broken chains too: the records left in the table and those handed to ffree are together those that were there and the new one |
| ProbeTable.RemoveTidyIff | core/map.c:158-167 | a removal keeps an exact counter exact if and only if it finds nothing or its key has a nonzero hash |
| ProbeTable.RemoveSoundIff | core/map.c:158-167 | a removal keeps the counter at or above everything stored if and only if its key is not the all-zero one, or nothing is found, or the counter had room to spare or was 0 and wraps |
| ProbeTable.RemoveCounts | core/map.c:165 | a removal that finds its record takes one off the counter modulo 2^32 |
| ProbeRuns.LookupExact | core/map.c:93-105 | in a duplicate-free table a stored record is found if and only if it lies within `used_size` steps of its home slot, and is otherwise reported missing |
| ProbeRuns.FetchExactIff | core/map.c:93-105 | all lookups of a duplicate-free table agree with the mapping it holds if and only if every record lies within that reach |
| ProbeRuns.ChainedReachable | core/map.c:93-105 | chain form puts every record within reach |
| ProbeRuns.RemoveOnce | core/map.c:158-167 | from chain form one removal deletes that key only; every other key is still found past the hole and an exact counter stays exact |
| ProbeRuns.ReinsertIff | core/map.c:49-66 | setting a stored key in any duplicate-free state is an UPDATE, and leaves no duplicate, if and only if no hole lies between its home slot and its record |
| ProbeRuns.RunRefines | core/map.c:45-105 | every run of sets of any keys and gets of keys with nonzero hash from a chain-form table, resizes included, answers call by call as a finite map that does not remember keys of hash 0, and ends in chain form for the resulting map |
| ProbeRuns.RunFromNew | core/map.c:85-117 | the same from `poolmap_new`, against the empty map |
| ProbeRuns.RunCapacity | core/map.c:85-117 | over sets of keys with nonzero hash from poolmap_new the counter is the number of keys and the capacity is always the least one, doubling from the initial one, that the load limit of three quarters allowed for the records present when the last set began |
| ProbeRuns.RunNeverAborts | core/map.c:45-167 | no run of sets, gets and removals, keys of hash 0 included, reaches the `assert(0)` as long as the all-zero key is not removed, and the counter keeps covering everything stored |
| ProbeRuns.RunKeepsCount | core/map.c:45-167 | over runs on keys of nonzero hash the counter stays equal to the number of occupied slots |
| ProbeRuns.CapacityIsLeast | core/map.c:107-112 | the initial capacity is the least power of two that is at least max(init, 4) |
| ProbeLimits.CrowdedReached | core/map.c:85-117 | setting "a", "e" and "i" in a new map leads to the table the next three results start from |
| ProbeLimits.TwoRemovalsLoseARecord | core/map.c:158-167 | a run from poolmap_new, with real keys, after which a stored key is answered NULL although the map reading still has it |
| ProbeLimits.SetAfterRemovalDuplicates | core/map.c:45-68 | a run from poolmap_new, with real keys, in which setting a stored key reports ADDED and stores it a second time |
| ProbeLimits.BlankRemovalAborts | core/map.c:66-67 | a run from poolmap_new, with real keys, in which removing a key whose hashes are both 0 makes the next set reach the `assert(0)` |
| ProbeLimits.AllZeroKey | include/hash.h:5-32 | the key "vcnqexampujifz" has both hashes 0 |
| ProbeLimits.OneByte | include/hash.h:5-32 | both hashes of every one-byte key, in numbers |
| ProbeLimits.ZeroHashKey | include/hash.h:5-18 | the six-byte key "glidpk" hashes to 0, the empty mark |
| ProbeLimits.ZeroHashAlwaysAdded | core/map.c:51-55 | in every state whose counter covers what is stored, a set of a key of hash 0 reports ADDED, hands nothing back, keeps the state so and leaves the counter above the number of records; it therefore applies again to the next set |
| ProbeLimits.ZeroHashRun | core/map.c:85-91 | every run of sets of such keys, the same one repeatedly included, is answered ADDED throughout |
| ProbeLimits.ZeroHashReplacesSilently | core/map.c:51-55 | a second set of such a key takes the slot of the first record, which is neither handed back nor released, and counts again |
| ProbeLimits.ResizeForgetsZeroHash | core/map.c:76-81 | after a resize no lookup finds a key of hash 0 whose second hash is not 0 as well |
| PoolMap.PoolMap.constructor | core/map.c:107-117 | a new map is the empty table of the computed capacity |
| PoolMap.PoolMap.SetNoResize | core/map.c:45-68 | on any table the array loop computes the insertion, returned record and released record, and reaches its `assert(0)` exactly when the insertion has no slot |
| PoolMap.PoolMap.Resize | core/map.c:70-83 | the array loop computes the table doubling and never reaches the `assert(0)` |
| PoolMap.PoolMap.Set2 | core/map.c:134-156 | set2 (and set, with v2 = 0) hashes the key and performs the table set in any state, reporting status, previous record and released records; it does not abort while the counter covers what is stored, and keeps that |
| PoolMap.PoolMap.Get | core/map.c:93-105 | the array loop finds the slot the table lookup finds |
| PoolMap.PoolMap.RemoveKey | core/map.c:158-167 | clears hash and key of the record found and decrements the 32-bit counter, in any state and for every key |
| PoolMap.PoolMap.Delete | core/map.c:119-128 | every stored record is handed to ffree once, in slot order |
| PoolMap.LiveMeans | core/map.c:123-128 | the order of release: slot by slot, records of nonzero hash only |
| Wire.WalkIff | include/protocol.h:53-71 | the walk over fields laid out behind any length table stays inside the message, ends at its end and gives back every key and value if and only if each entry it reads, its `uint16_t` index wrapping after 32768 fields, is the lengths of its field |
| Wire.WalkOfEncode | include/protocol.h:53-71 | walking an encoded message gives back every key and value in order if and only if lengths repeat from field 32768 on, as they always do with at most 32768 fields |
| Wire.EncodeOfDecode | include/protocol.h:53-71 | a byte string over which the walk ends exactly at its end is the encoding of what the walk reads if and only if the walk reads every table entry, as it always does with at most 32768 fields |
| Wire.EncodedBytes | include/protocol.h:53-64 | every byte of an encoded message: crc, protocol, count and all lengths in little-endian order at their offsets, then the data |
| Wire.DataMeans | include/protocol.h:119-133 | the data part is every key followed by its value, in field order |
| Wire.EncodedExample | include/protocol.h:106-137 | one message with two fields, in all its twenty bytes |
| Framing.FrameStable | core/stream.c:95-128 | a complete message at the front stays the same message whatever arrives behind it |
| Framing.FrameLocal | core/stream.c:95-128 | a message is recognised from its own bytes alone |
| Framing.FrameOfEncodeIff | core/stream.c:95-128 | an encoded message is accepted with exactly its length if and only if it is at most 128 bytes long |
| Framing.FrameOfEncode | core/stream.c:95-128 | of an encoded message of any size the receiver takes exactly the announced number of bytes, its length sums taken in 16 bits, if that fits 128 bytes, and otherwise nothing ever |
| Framing.OversizedWedges | core/stream.c:102-126 | an encoded message is never delivered in any form, whatever follows it, if and only if its announced size exceeds 128 bytes; unless a sum wraps, that is its own size |
| Framing.WrappedIsCut | core/stream.c:102-120 | a message is delivered cut short if and only if a length sum reaches 65536 and the announced size fits |
| Framing.WrappedExample | core/stream.c:102-120 | two keys of 32768 bytes announce an empty message: the first 16 bytes alone are executed |
| Framing.DrainSplit | core/server.c:33-70 | draining a prefix now and the rest of the stream later dispatches the same as draining everything at once |
| Framing.ServeIsDrain | core/server.c:33-70 | for arbitrary bytes, every cutting into arrivals dispatches the same events and leaves the same remainder |
| Framing.CompleteMeans | core/server.c:33-70 | the message count used in the main result is exactly the number of messages that end within the bytes received |
| Framing.DrainOfMessages | core/server.c:33-70 | of the first n bytes of a message stream exactly the complete messages are dispatched, in order and byte for byte, and the tail of the incomplete one is kept |
| Framing.ServeMessages | core/server.c:33-70 | for every list of READ/WRITE messages of at most 128 bytes and every cutting of their bytes into arrivals, exactly the messages fully received are dispatched, in order |
| Framing.DispatchMeans | core/server.c:46-66 | a framed message registers if and only if its protocol bytes are 2, 0, executes for 1, 0, quits for 3, 0 and aborts for anything else |
| Framing.DrainStops | core/server.c:57-69 | behind any READ and WRITE messages a message of another protocol ends the connection, with QUIT for 3 and the abort otherwise; the bytes behind it stay untouched |
| Framing.ServeStops | core/server.c:33-70 | the same over every cutting into arrivals: nothing that arrives behind it is dispatched |
| Framing.EventsAppend | core/server.c:46-56 | the expected events of a message list: one more READ registers and one more WRITE executes exactly its encoding |
| ChunkStream.ChunkStream.Reset | core/stream.c:59-70 | compaction and refill keep buffered bytes ++ unread input, and the buffer then holds min(available, 128) bytes |
| ChunkStream.ChunkStream.Next | core/stream.c:72-80 | hands out exactly the next bytes of the stream in place |
| ChunkStream.ChunkStream.CheckSize | core/stream.c:82-93 | succeeds exactly when that many bytes have arrived and fit the buffer; loses nothing |
| ChunkStream.ChunkStream.SumLengths | core/stream.c:115-119 | the loop sums key and value lengths of the message at the front in 16-bit arithmetic |
| ChunkStream.ChunkStream.Get | core/stream.c:95-128 | delivers the message at the front of the stream if it is complete and fits, and otherwise leaves the stream's contents as they were |
| ChunkStream.Connection.ReadCallback | core/server.c:33-70 | the drain loop terminates and dispatches what draining all pending bytes dispatches; QUIT closes the connection |
| ChunkStream.Connection.Receive | core/server.c:33-70 | serving arrivals one callback each produces the events and remainder of the arrival sequence |
| Encoder.EmitMessage | include/protocol.h:106-137 | writes exactly the encoding of the fields over the buffer, leaving crc word and the bytes behind it alone; the returned size adds field lengths in 16 bits |
| Encoder.LogEntryGet | plugins/pool/pool_plugin.c:82-98 | returns the value position and length of the first field of the walk, with its 16-bit table index, that matches the key, and NULL if and only if none does |
| Encoder.StrnEqExact | plugins/pool/pool_plugin.c:91 | the strncmp test is equality with every other key of the same length if and only if the key has no NUL before its last byte |
| Encoder.StrnEqMeans | plugins/pool/pool_plugin.c:91 | the comparison is equality of all bytes up to and including the first NUL |
| Encoder.MatchesMeans | plugins/pool/pool_plugin.c:91 | a field matches a key without NUL if and only if its key is that key |
| Printers.DecRoundTrip | plugins/trace/lpstring.h:92-101 | decimal text parses back to its argument and has no leading zero |
| Printers.DecUnique | plugins/trace/lpstring.h:92-101 | every canonical digit string is the text of the value it parses to |
| Printers.IntRoundTrip | plugins/trace/lpstring.h:103-110 | signed text parses back to its argument, for all integers |
| Printers.HexRoundTrip | plugins/trace/lpstring.h:69-79 | hexadecimal text parses back to its argument without leading zero |
| Printers.FixedMeans | plugins/trace/lpstring.h:112-130 | the printed float is sign, integral part, point and three digits whose value is exactly the truncated thousandths |
| Printers.ReciprocalTenth | plugins/trace/lpstring.h:123-127 | `(s3 * 0xcd) >> 11` is s3 / 10 and the remaining digit is the remainder, for all values that occur |
| Printers.Reverse | plugins/trace/lpstring.h:81-90 | reverses the area in place and touches nothing else |
| Printers.PutD | plugins/trace/lpstring.h:92-101 | digits emitted backwards and reversed are the decimal text; the end pointer is right behind it |
| Printers.PutI | plugins/trace/lpstring.h:103-110 | writes the signed text for every int64 above the minimum |
| Printers.PutHex | plugins/trace/lpstring.h:69-79 | the nibble loop from the highest set bit down writes the hexadecimal text of every uint64 |
| Printers.PutF | plugins/trace/lpstring.h:112-130 | writes the fixed-point text of the truncated thousandths |
| Printers.TextExamples | plugins/trace/lpstring.h:69-130 | 1024, -7, 0xbeef and -12.345, character by character |
| Printers.ParseMeans | plugins/trace/lpstring.h:69-110 | how the readers of the round trips take one more character, in character codes |
| ChangeLog.HistoryIsLastSeen | plugins/pool/react.c:33-56 | the detector's history holds for each key pair of nonzero hash the value of its last occurrence, and nothing else |
| ChangeLog.ChangeMeans | plugins/pool/react.c:25-58 | a log counts as a change if and only if the watched key has a nonzero hash and some occurrence of it in the log differs from its previous occurrence, in an earlier log or the same one |
| ChangeLog.ChangedSinceMeans | plugins/pool/react.c:44-53 | a change, in terms of the fields alone: two successive fields of the watched key, by both hashes, the later one in question, with different values |
| ChangeLog.UnrememberedCount | plugins/pool/react.c:33-44 | the references a log leaks are as many as it has fields whose key hashes to 0 |
| ChangeLog.LeakMeans | plugins/pool/react.c:32-44 | a leak adds that many to its entry and none to any other |
| ChangeLog.HoldersMove | core/map.c:56-63 | overwriting a record moves one reference from the previous entry to the new one |
| ChangeLog.ConservedStep | plugins/pool/react.c:44 | one store turns "1 + live records + leaks + fields still to insert" for n+1 fields into the same for n, repeated keys included |
| ChangeLog.ConservedLeak | plugins/pool/react.c:44 | a store under a key of hash 0 turns one reference still to insert into a leaked one |
| ChangeLog.UnrememberedZeroIff | plugins/pool/react.c:33-44 | a log leaks no reference if and only if all its keys have a nonzero hash |
| React.PackedValue | plugins/pool/react.c:16-39 | the packed 16-bit offset and length of a stored field lead back to its value bytes |
| React.React.Insert | core/map.c:151-156 | one set2 of the detector: the map gets the new record unless its hash is 0, and the entry of a replaced record is the one released |
| React.React.Store | plugins/pool/react.c:41-44 | one stored field, of any nonempty key, keeps table, history and reference counts coherent; UPDATE exactly for keys remembered, with the previous value |
| React.React.StoreField | plugins/pool/react.c:33-56 | one round of the field loop reports a change exactly when the watched key had a different value |
| React.React.StoreFields | plugins/pool/react.c:33-57 | the loop stores every field in order, and mid-loop each count is 1 plus live records plus leaks plus fields still to insert |
| React.React.Append | plugins/pool/react.c:25-58 | over every run: the result is true if and only if the log changes the watched key; afterwards each entry's count is 1 plus the number of live records pointing to it plus one per field stored under a key of hash 0 (spelled out as `Balanced`) |
| React.React.Apply | plugins/pool/react.c:98-115 | logs of the configured trace go to apply exactly on a change and to failed otherwise, first sightings included, and carry a count of at least one; other logs leave everything alone |
| React.RefsOfLive | plugins/pool/react.c:77-82 | the records of a duplicate-free table release an entry once per map record that points to it |
| React.React.Delete | core/map.c:119-128 | deleting the map leaves every entry with 1 plus its leaks, and so all entries with 1 if and only if nothing was ever leaked |
| Window.CheckTimerAges | plugins/pool/time.c:25-35 | with nondecreasing times one timer check takes a reference from exactly the retained arrivals older than the interval |
| Window.WindowStart | plugins/pool/time.c:25-71 | for arbitrary initial counts the window is exactly the arrivals, aged, from the first one that is still live and behind which no append found the tail dead |
| Window.TailTestLosesIff | plugins/pool/time.c:42-51 | an append gives up more than the dead front if and only if its predecessor came with count 0 and at least an interval earlier while some arrival kept so far is still live |
| Window.WindowOfCounted | plugins/pool/time.c:25-71 | for arbitrary mixed initial counts of at least one no append ever finds the tail dead, nothing but the dead front is given up, and the window starts exactly at the first live arrival |
| Window.LiveEntryLost | plugins/pool/time.c:42-51 | three arrivals with counts 5, 0, 0 of which the list functions keep only the last although the first is live |
| Window.WindowIsSuffix | plugins/pool/time.c:37-71 | for arbitrary initial counts nothing younger than the interval is ever dropped |
| Window.ExpiriesCount | plugins/pool/time.c:30-32 | an arrival was seen expired once for each later append at least an interval after it |
| Window.AgedMeans | plugins/pool/time.c:30-32 | the entries of a window have time and data as they came and the count less that number |
| Window.ElapsedMeans | plugins/pool/time.c:30 | 64-bit differences of times, also when the clock steps back |
| Window.WindowExamples | plugins/pool/time.c:25-71 | two arrivals nine and ten apart with interval 10, with and without a spare reference, and a clock that steps back, which expires the older entry |
| Window.WindowExact | plugins/pool/time.c:25-71 | with one initial count r the window is exactly the arrivals that at most r later appends saw expired, in order |
| Window.CountsSorted | plugins/pool/time.c:37-51 | over every run with one initial count, whenever the tail is tested counts never decrease along the list and never fall below -1 |
| Window.TailTestSound | plugins/pool/time.c:42-51 | with one initial count a dead tail means that every entry is dead, so the single tail test never discards a live entry |
| TimeWindow.LogList.CheckTimer | plugins/pool/time.c:25-35 | the loop over the linked list decrements the expired front and keeps the chain |
| TimeWindow.LogList.CheckInterval | plugins/pool/time.c:37-60 | unlinks the dead front; a dead tail makes the sentinel the tail, also when a live entry stays linked behind it |
| TimeWindow.LogList.Append | plugins/pool/time.c:62-71 | after every append the list is an acyclic chain from the sentinel to the tail that holds the window function of the old contents and the new entry |
| Aggregator.DeliverMeans | plugins/pool/statics.c:9-32 | start, entries and finish with flags 0, 1, 2 compute fexit of the left fold over the window from finit(context), routed to apply if and only if it is nonzero |
| Aggregator.StepMeans | plugins/pool/statics.c:9-32 | one call in every state; a state above 2, such as one aggregator can hand to the next, is routed to failed with 0 |
| Aggregator.FoldMeans | plugins/pool/statics.c:18-20 | the fold takes the entries in order |
| Aggregator.Statics.Apply | plugins/pool/statics.c:9-32 | one call in any state, unknown states included, changes context and routing as the state machine says |
| Aggregator.Timer.Failed | plugins/pool/time.c:111-117 | only buffers; the list stays the window of everything that arrived |
| Aggregator.Timer.Report | plugins/pool/time.c:101-107 | start, every entry of the list in order, finish |
| Aggregator.Timer.Apply | plugins/pool/time.c:94-109 | buffers, then hands the aggregator the whole current window between a start and a finish call |
| PluginGraph.TodoReachable | plugins/pool/pool_plugin.c:51-62 | the nodes to be created are exactly those with a path from the root through uninitialised nodes |
| PluginGraph.TodoAfter | plugins/pool/pool_plugin.c:55-58 | once a successor-closed set is initialised, what is left to create is what was left before, less that set: shared successors are not created again |
| PluginGraph.SecondCall | plugins/pool/pool_plugin.c:51-62 | initialising a second, possibly overlapping root creates only what is left, and a repeated call changes nothing |
| PluginGraph.Initialiser.Init | plugins/pool/pool_plugin.c:51-62 | on every acyclic graph it terminates and returns the node or nop; afterwards every reachable uninitialised node has its flag, one more Create and its configured successors with nop for a missing one, and every other node is as before |
| PluginGraph.FinishMeans | plugins/pool/pool_plugin.c:51-62 | the same about the state function that the other results use |
| PluginGraph.Initialiser.Create | plugins/pool/time.c:119-130 | a Create function finishes everything below its node and fills in the node's successors |
| PluginGraph.Initialiser.FillApply | plugins/pool/react.c:126 | `apply = init(apply)` finishes the apply side and changes no other edge of the node |
| PluginGraph.Initialiser.FillFailed | plugins/pool/react.c:127 | `failed = init(failed)` likewise for the failed side |
| Codegen.Generator.NodeToCode | logpool-viewer/scene.cpp:164-184 | appends the declarations, links and configurations of the subtree to the three accumulators and advances the counter by the subtree's size less one |
| Codegen.Generator.Generate | logpool-viewer/scene.cpp:186-205 | the emitted program is, root by root, declarations, links and configurations, with indices continuing from root to root |
| Codegen.UnfoldsUnique | logpool-viewer/scene.cpp:164-184 | a heap graph unfolds to at most one tree |
| Codegen.RootRun | logpool-viewer/scene.cpp:164-184 | the statements of one root run without error on every heap that leaves its indices free and add exactly one cell per node, in preorder |
| Codegen.ProgramBuilds | logpool-viewer/scene.cpp:186-208 | the whole program runs without error and builds for every root, from its own disjoint index range, a graph that unfolds to exactly that root's labelled tree |
| Codegen.ProgramExample | logpool-viewer/scene.cpp:164-205 | the ten statements for a node with two children and a second root |
| Format.Buffer.EmitValue | plugins/trace/lpstring.c:29-93 | each value formatter appends exactly the text of its value at the cursor; of a string, what its `short` length lets through |
| Format.ValueMeans | plugins/trace/lpstring.c:29-93 | the text of every kind of value, byte for byte or read back: "null" with its NUL, "true" and "false", decimal, 0x and hexadecimal, thousandths, the character, the string with quotes exactly on the string backends |
| Format.Buffer.Emit | plugins/trace/lpstring.c:45-51 | a formatter call appends key, cut to its `short` length, and value, and nothing else changes |
| Format.Buffer.PutKey | plugins/trace/lpstring.c:152-159 | the key function appends "TraceID" and the id, cut to its `short` length |
| Format.EmitWriteHeader | plugins/trace/stream.c:48-56 | writes crc 0, protocol WRITE and the field count over the first eight bytes |
| Format.IoFlush | plugins/trace/stream.c:75-113 | the bytes sent are header, length table and the data ("TraceID", id) followed by every (key, rendered value), with the table filled in behind the data from the `short` key lengths and the distance the cursor moved |
| Format.SentIsEncodeIff | plugins/trace/stream.c:96-102 | what is sent is the encoding of the record if and only if no key length comes out negative as a `short` |
| Format.RecordRoundTrip | plugins/trace/stream.c:75-113 | the walk over a sent record recovers trace id and every rendered field if and only if the field count fits 16 bits, no key length within its reach comes out negative, and lengths repeat from field 32768 on |
| Format.RecordAccepted | core/stream.c:95-128 | a sent record without negative key lengths is accepted whole if and only if it fits 128 bytes, and then walks back to its fields |
| Format.LongRecordLost | include/protocol.h:60-71 | 32768 queued one-byte keys and characters, which meet every length bound and are not recovered |
| Format.RecordsArrive | plugins/trace/stream.c:75-113 | records sent one after the other and cut into arrivals anywhere are executed one by one, in order, and each executed message walks back to its record |
| Multiplexer.Backend.Ship | plugins/trace/lpstring.c:107-116 | ships the buffered line with a newline (syslog: as a C string) and resets the buffer |
| Multiplexer.ShippedMeans | plugins/trace/lpstring.c:110-114 | stderr and files get the line and a newline, syslog the text up to its first NUL and no newline |
| Multiplexer.LineMeans | core/logpool.c:117-128 | a line is "TraceID" and the id, then for every field a comma, its key and its quoted text, in bytes |
| Multiplexer.LineExample | core/logpool.c:111-133 | the thirteen bytes a file gets for the id "t1" and the field "k" = 5 |
| Multiplexer.Context.OnEntry | plugins/trace/filter.c:66-136 | a formatter on a plain or filtered backend appends its text there and restores the connection |
| Multiplexer.Context.DoAll | plugins/trace/multiplexer.c:89-98 | the fan-out appends the same text to every backend's buffer |
| Multiplexer.Context.Do | plugins/trace/multiplexer.c:19-30 | a key, delimiter or field call reaches every backend and restores the connection |
| Multiplexer.Context.FormatFlush | core/logpool.c:111-133 | behind the latch nothing happens; else every backend gets the whole line, the queue is emptied, seq goes up by one and the latch is set |
| Multiplexer.Context.FlushEntry | plugins/trace/filter.c:48-57 | a backend's own flush formats only if the latch is open and ships exactly one line, filtered or not |
| Multiplexer.Context.FlushMany | plugins/trace/multiplexer.c:50-61 | one flush formats once and ships to every backend the line it would ship alone |
| Multiplexer.Context.StreamFlush | plugins/trace/stream.c:75-113 | the stream backend sends the queued record and empties the queue without looking at the latch |
| Multiplexer.Context.Record | core/logpool.c:72-85 | one record on one backend or any number leaves each with exactly one more line, the same one, empty buffers, seq one higher and the connection restored |
| Multiplexer.Init | plugins/trace/multiplexer.c:32-48 | every backend gets its own buffer and the key function the context held after that backend's initialisation |
| Multiplexer.InitFitsIff | plugins/trace/multiplexer.c:40-45 | the captured key functions fit their connections if and only if no filter stands before the last place |
| Crc32.RegisterSplit | core/crc32.c:68-75 | the register over a ++ b is the register over b started from the register over a |
| Crc32.EightSplits | core/crc32.c:72 | eight bit steps shift the upper bytes out unchanged, so only the low byte selects the feedback |
| Crc32.TableRight | core/crc32.c:1-66 | all 256 table entries are the eight bit steps of their index for polynomial 0xEDB88320 |
| Crc32.TableStep | core/crc32.c:72 | one table lookup equals eight steps of the bit-at-a-time CRC (section 8 of RFC 1952) |
| Crc32.ByteStepIsSerial | core/crc32.c:72 | the step of a byte is the register fed with its eight bits, lowest first (section 8 of RFC 1952) |
| Crc32.CheckValue | core/crc32.c:77-88 | the check value of "Hello, World!" is 3964322768 |
| Crc32.Crc | core/crc32.c:68-75 | the table-driven loop returns the bit-at-a-time CRC of every byte string, complemented at both ends, and the check value for its string |

## Left out

Assumptions of the model:

- Machine: little-endian, 64-bit, signed `char`; object pointers are references; `LOGPOOL_USE_SEQUENCE` is off.
- Table capacities are unbounded: the 32-bit wrap of `record_size * 3` and of the allocation size at well over a hundred million slots is not modelled.
- Keys given to the map have at least one byte, because the Duff loops read at least one and their counter wraps on an empty key, and fewer than 2^32 - 3, beyond which the loop counter wraps; `fcmp` is equality.
- ProbeRuns.RunRefines: what a get of a key of hash 0 answers is left open; its record may have been overwritten by any other key.
- PoolMap.PoolMap.Set2: `ffree` is a callback; the records it receives are reported as a result instead.
- React.React.Append: asks for nonempty keys (React.React.Store and React.React.Apply too), for log entries whose field walk ends at their end and whose offsets fit 16 bits, and takes counts as unbounded integers although the field is an `int16_t`; an entry stays allocated while records point to it (pool_exec builds it in a stack buffer).
- React.React.Apply: asks for a nonempty first value, which is hashed before anything else.
- Window.WindowExact: times are nondecreasing, here and in all results about runs of the window. TimeMilliSecond adds raw microseconds, so the clock itself does not guarantee that.
- TimeWindow.LogList.Append: an incoming entry's own `next` is null, as pool_exec sets it; entries handed on by another timer are not.
- Aggregator.DeliverMeans: finit, function and fexit are taken as functions without further effects.
- PluginGraph.Initialiser.Init: the graph is acyclic; on a cycle the C code recurses for ever. Create functions are modelled by what they do to `apply` and `failed`, in that order.
- Printers.PutF: starts from the integer cast of `f * 1000`, with the quotient fitting 32 bits; floating-point rounding is not modelled.
- Printers.PutI: INT64_MIN has no negation and is excluded.
- Codegen.ProgramBuilds: programs are lists of statements instead of text; the text of makeConf is one opaque label per node. The generated function initialises only `p0`.
- Multiplexer.InitFitsIff: filters wrap string-family backends (stderr, file, syslog), not other filters or a nested multiplexer.
- Multiplexer.Context.Record: emitLog stays 1, because the only call of `fn_priority` is commented out; buffers are large enough for the line, which the C code does not check.
- ChunkStream.ChunkStream.Reset: `bufferevent_read` takes min(available, room).
- ChunkStream.Connection.ReadCallback: `pool_add` and `pool_exec` are recorded as events; `abort` for unknown protocols ends the run.

Not part of this model:

- libevent sockets, threads, DNS and spinning in core/client.c, core/io.c, core/trace.c and the rest of core/server.c; Log_get of core/client.c repeats LogEntry_get.
- memcached, LLVM and Konoha bindings (core/llcache.cpp, plugins/trace/memcache.c, plugins/pool/konoha_plugin.c): wrappers over foreign libraries.
- Stream or memcache backends inside a multiplexer: they bypass the latch.
- The Qt viewer apart from the code generator.
- malloc and free, and plugin Dispose: shared successors are disposed twice there, so nothing is claimed.
- poolmap_next, log_dump, log_get_trace (unused), logpool_key_hex and the key, val, copy, print, close, create and response plugins: they would add only easy members.
- include/list.h, include/array.h, tools, tests and examples.
