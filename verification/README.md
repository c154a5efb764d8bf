# Conference: verified models of the Base64 codec, the conference registry and two media tools

This project models four parts of the conference repository in Dafny and proves what they promise.

* **Base64** (`ortp/src/b64.c`). `Base64Spec` says what encoding and decoding mean: groups are 24-bit
  numbers, wrapped text is text in chunks, decoding is a function of the significant characters.
  `Base64Encoder.EncodeAt` and `Base64Decoder.DecodeAll` are the C functions themselves: masks and shifts
  on bytes, a table lookup per character, line breaks counted on the way, a recursive call for the padded
  tail that is told it has 12 characters of room, stop flags, and stores into the caller's buffer.
  Both are proved against the specification, and `Base64Laws` and `Base64Sizes` prove the specification's laws.
* **Conference registry and reference counts** (`mcu/mcu/Server.cpp`, `Ref.h`, `Conference.cpp`, `WsImpl.cpp`).
  `Lifetimes` is a state machine over every interleaving of create, lookup, unlisting, decrement and zero
  test. `Registry` runs web-service requests on it. `ConferenceServer` holds the classes, whose
  methods are proved to take the machine's steps. `Members` is the member list.
* **Sample allocator** (`mediastreamer2/src/dxfilter.cpp`). `SampleAllocator` is slot layout and the allocator's
  bookkeeping.
* **Log to graph** (`mediastreamer2/tools/filters_graph.py`). `LinkGrouping` is the grouping loop,
  `NodeNumbering` the emission loops and the composition of both.

`Arithmetic`, `Lists` and `Options` are shared helpers.

## Where code and promise differ

* **Size query, empty source.** For a positive line length and no bytes, the unsigned subtraction wraps and the
  query answers 2^64 - 2 (`EmptyWrappedQuery`). `EncodeQueryExactIff` gives the exact condition for a right answer.
* **Break after a full last line.** When the last line is exactly full, nothing is padded and `destLen` is larger than
  the size, a CRLF follows the text. `EmittedFitsIff` says from the sizes alone which calls stay inside
  `destLen`: all but those where exactly one character is left over, such as `OverrunningCall`.
* **Decode size.** `ortp/include/ortp/b64.h:270-273` promises an exact answer for a non-NULL source. The code
  ignores the source and answers an upper bound; `DecodeQueryExactIff` says when the bound is the size, `DecodeQueryTooLarge` shows one where
  it is not.
* **Malformed text.** `b64.h:275-276` calls a length that is not a multiple of 4 invalid. The code accepts it, drops
  the incomplete group and never returns `B64_RC_TRUNCATED_INPUT` (`DecodeIncompleteGroup`, `DecodeAll`).
* **Overlapping releases.** `release` tests the count after leaving its lock. A decrement to zero while another
  release of the same object still has its test ahead leads to a double deletion, and nothing else
  does: `ReleaseSafeIff`, `OverlapDeletesTwice`, reached as in `OverlapReachable`. The server handles one request at a time, so it never happens there.
* **Read after erase.** `conference_destroy` and `member_destroy` read the list iterator after erasing it
  (`mcu/mcu/Server.cpp:48-49`, `mcu/mcu/Conference.cpp:40-41`). This happens on every deletion whose id is found, and
  on no other. The models release the pointer that was found, as the code intends.
* **Ids.** Conference ids are distinct only within a window of 1024 creations (`LiveIdsDistinctIff`, `LiveIdsDistinct`, `IdsRepeat`).

## Model

| member | source | states |
|---|---|---|
| Base64Laws.RoundTrip | ortp/src/b64.c:147-417 | Decoding undoes encoding for every byte string and every line length. |
| Base64Decoder.EncodeThenDecode | ortp/src/b64.c:423-512 | Ask for the size, encode, ask, decode, through the buffers: the original bytes come back with rc OK and no bad character, for every line length (0 or a multiple of 4) and all stop flags. |
| Base64Decoder.EncodedTextAccepted | ortp/src/b64.c:342-375 | No stop flag ever objects to encoded text, wrapped or not. |
| Base64Laws.CanonicalRoundTrip | ortp/src/b64.c:182-271 | Re-encoding the decoded bytes of a canonical text gives the same text. |
| Base64Laws.CanonicalIff | ortp/src/b64.c:325-415 | A text is canonical (section 3.5 of RFC 4648) if and only if it survives decode-then-encode, and if and only if it is some encoding: the encoder is a bijection onto canonical texts. |
| Base64Laws.EncodeInjective | ortp/src/b64.c:147-275 | Equal wrapped encodings, even with different line lengths, come from equal bytes. |
| Base64Laws.EncodedLines | ortp/src/b64.c:159-164 | Wrapped text split at CRLF: every line but the last has exactly `lineLen` characters, the last 1 to `lineLen`, and joined they are the unwrapped encoding. |
| Base64Laws.EncodeConcat | ortp/src/b64.c:182-241 | Unwrapped encoding of a + b is the two encodings in a row when the length of a is a multiple of 3. |
| Base64Laws.DecodeConcat | ortp/src/b64.c:325-415 | After whole groups none of which ends in '=', the rest decodes on its own. |
| Base64Laws.DecodeAfterFinish | ortp/src/b64.c:408-411 | After a group that ends in '=' nothing more is decoded. |
| Base64Laws.DecodeIncompleteGroup | ortp/src/b64.c:386-412 | A trailing incomplete group adds no bytes. |
| Base64Laws.SkippedCharacterIrrelevant | ortp/src/b64.c:342-375 | Inserting or deleting a character outside the alphabet and '=' anywhere never changes the lenient result. |
| Base64Sizes.EncodeQueryExactIff | ortp/src/b64.c:154-164 | The size formula, computed modulo 2^64, is the length of the wrapped encoding if and only if that length fits a size_t and a wrapped source is not empty. |
| Base64Sizes.EncodeQueryEverywhere | ortp/src/b64.c:154-164 | The answer for every size_t, also where sums wrap: the encoded length modulo 2^64 (0 for the last two sizes), plus the breaks modulo 2^64, or minus 2 where rounding up to lines wraps. |
| Base64Sizes.EmptyWrappedQuery | ortp/src/b64.c:159-164 | For no bytes and any positive line length the formula wraps to 2^64 - 2 although the text is empty. |
| Base64Sizes.DecodeWithinQuery | ortp/src/b64.c:288-311 | For every text, however malformed, at most three bytes per completed group are decoded, hence at most the size answered. |
| Base64Sizes.DecodeQueryCovers | ortp/src/b64.c:288-309 | The answer is three bytes for the least number of groups of four that covers the text. |
| Base64Sizes.DecodeQueryExactIff | ortp/src/b64.c:288-304 | The answered size is the decoded size if and only if all characters are significant, in whole groups, with no early pad and a last group that yields three bytes. |
| Base64Sizes.DecodeQueryTooLarge | ortp/src/b64.c:288-304 | "QQ==" holds one byte and the answer is three. |
| Base64Encoder.TableChar | ortp/src/b64.c:94-94 | The 64-character table spells the alphabet that the decoding table inverts. |
| Base64Laws.AlphabetInverse | ortp/src/b64.c:96-138 | The decoding table undoes the alphabet. |
| Base64Bits.SliceBytes | ortp/src/b64.c:199-206 | The masks and shifts cut three bytes into the four indexes, each below 64. |
| Base64Bits.JoinIndexes | ortp/src/b64.c:390-403 | The masks and shifts rebuild the three bytes of the 24-bit number the indexes spell. |
| Base64Encoder.EmittedFitsIff | ortp/src/b64.c:234-239 | An accepted call writes at most `destLen` characters if and only if its sizes are not these: a positive number of bytes divisible by 3, a last line that comes out exactly full, and `destLen` one more than the size answered. |
| Base64Encoder.OverrunningCall | ortp/src/b64.c:234-239 | 48 bytes in lines of 64 need 64 characters; told there is room for 65, the code writes 66. |
| Base64Encoder.TrailingBreakIff | ortp/src/b64.c:234-239 | A break follows the text if and only if the source is not empty and in whole groups, the last line comes out full and `destLen` is not the encoded length. |
| Base64Encoder.EncodeAt | ortp/src/b64.c:147-275 | NULL asks for the size; a smaller buffer is left untouched with INSUFFICIENT_BUFFER and 0; otherwise exactly the wrapped encoding (and a trailing break where due) is written from the offset on and nothing else changes. |
| Base64Encoder.EncodeTail | ortp/src/b64.c:243-271 | The one- or two-byte tail, boosted, encoded recursively and padded, is four characters that complete the text, without a break after them. |
| Base64Encoder.B64Encode2 | ortp/src/b64.c:433-475 | Low flag bits 2 wrap at 64 columns, 3 at 76, 0 at the parameter (64 if it is negative), and any other value does not wrap. NULL asks for the size, which is the text's length where that fits; a smaller buffer is left untouched; an accepted call puts the text in the first `total` characters, where every line but the last has exactly that many columns. The rest of the buffer stays as it was, except for a CRLF after a non-empty source of whole groups whose last line is full when `destLen` exceeds the size. An empty wrapped source leaves the buffer as it was. |
| Base64Encoder.B64Encode | ortp/src/b64.c:423-431 | Unwrapped encoding into a buffer at least as long as the encoding; a shorter one is left untouched. |
| Base64Decoder.DecodeAll | ortp/src/b64.c:280-417 | Size query, insufficient buffer, and otherwise: DATA_ERROR and 0 if and only if a character forbidden by the flags occurs before decoding ends, with the leftmost such character reported and the bytes decoded before it written; else the lenient result for every flag setting. |
| Base64Decoder.NoneRejected | ortp/src/b64.c:408-415 | Once a padded group has ended decoding, later forbidden characters do not matter. |
| Base64Decoder.RejectedCharacters | ortp/src/b64.c:344-374 | Character by character until decoding ends: flag 0x100 rejects all but the alphabet, '=', CR, LF, space, tab, BS and VT; 0x200 rejects the last four; both reject either; neither rejects nothing, whatever the other flag bits. |
| Base64Decoder.StoreBytes | ortp/src/b64.c:386-407 | A completed group stores one, two or three bytes according to its trailing pads and touches nothing else. |
| Base64Decoder.B64Decode | ortp/src/b64.c:477-486 | Without stop flags every text decodes, to its lenient result. |
| Lifetimes.RunIsSafe | mcu/mcu/Ref.h:22-41 | Over every interleaving without an overlapping last release: each count is 1 for the list plus the handles out, no step touches a deleted object, and an object is deleted once, exactly when it is neither listed nor held and no test is pending. |
| Lifetimes.StepKeepsInv | mcu/mcu/Server.cpp:29-72 | Every create, lookup, unlisting, decrement and test keeps conservation, list order and id numbering. |
| Lifetimes.OverlapDeletesTwice | mcu/mcu/Ref.h:33-41 | A decrement to zero with another test pending: the two tests delete the object twice. |
| Lifetimes.OverlapReachable | mcu/mcu/Ref.h:33-41 | Create, get, unlist and a first decrement, all valid and without overlap, lead from the start to a state where the second decrement is one. |
| Lifetimes.ReleaseSafeIff | mcu/mcu/Ref.h:33-41 | A decrement leaves every overlap-free continuation safe if and only if it is not such an overlap. |
| Registry.RequestBoundary | mcu/mcu/WsImpl.cpp:78-119 | After any finite sequence of requests every listed conference has count 1 and every other one has been deleted, once. |
| Registry.RequestSteps | mcu/mcu/WsImpl.cpp:78-119 | What a request's steps amount to: add-member leaves everything as it was, delete deletes the conference it finds, and no step overlaps. |
| Registry.LookupIsOldest | mcu/mcu/Server.cpp:57-72 | In the state of any run the search finds a conference if and only if one with the id is live, and then the oldest. |
| Registry.RunRefines | mcu/mcu/Server.cpp:23-84 | Every run of requests is a run of a set of creation numbers from which deletion by id takes the least match; the list enumerates that set in creation order. |
| Registry.DeleteExposesNext | mcu/mcu/Server.cpp:41-55 | Deleting by id removes the oldest match and exposes the next oldest with the same id. |
| Registry.CountIsCreationsMinusDeletions | mcu/mcu/Server.cpp:23-55 | The number of listed conferences is creations minus deletions that found one. |
| Registry.IdsOfRun | mcu/mcu/Server.cpp:86-95 | Over every run, overlapping releases included, the k-th conference has id k mod 1024, the list is in creation order, and any 1024 consecutive conferences have distinct ids. |
| Registry.LiveIdsDistinctIff | mcu/mcu/defined.h:12-13 | Live ids are distinct if and only if no two live creation numbers lie a multiple of 1024 apart. |
| Registry.LiveIdsDistinct | mcu/mcu/Server.cpp:86-95 | Live ids are distinct while all live conferences are among the last 1024 created. |
| Registry.IdsRepeat | mcu/mcu/Server.cpp:86-95 | 1025 creations leave two live conferences with id 0. |
| ConferenceServer.Conference.Release | mcu/mcu/Ref.h:33-41 | The two steps of a release on the object. |
| ConferenceServer.Server.ConferenceCreate | mcu/mcu/Server.cpp:29-39 | The create step; returns the id counter, which is the creation number mod 1024, and appends to the list. |
| ConferenceServer.Server.Search | mcu/mcu/Server.cpp:46-47 | The loop stops at the first conference with the id, or at the end. |
| ConferenceServer.Server.ConferenceDestroy | mcu/mcu/Server.cpp:41-55 | Unlists and releases the first conference with the id, keeps the order of the rest, or does nothing. |
| ConferenceServer.Server.GetConference | mcu/mcu/Server.cpp:57-72 | The lookup step; the handle returned is the conference found, or null. |
| ConferenceServer.Server.ConferenceList | mcu/mcu/Server.cpp:74-84 | The ids of the live conferences in creation order. |
| ConferenceServer.HandleAddConference | mcu/mcu/WsImpl.cpp:101-111 | Takes the add request's steps and answers the creation number mod 1024. |
| ConferenceServer.HandleDelConference | mcu/mcu/WsImpl.cpp:113-119 | Takes the delete request's steps. |
| ConferenceServer.HandleAddMember | mcu/mcu/WsImpl.cpp:78-89 | Get and release leave every object and the list exactly as they were. |
| ConferenceServer.Run | mcu/mcu/webapi.cpp:41-55 | The serving loop leaves the server in the state of the whole request sequence; every conference object is then listed with count 1 or deleted once with count 0. |
| Members.RunKeepsOrder | mcu/mcu/Conference.cpp:21-47 | Over every run: ids strictly increase along the list, the counter equals the members created (so it stays a C int below 2^31 creations), and an id that has left never returns. |
| Members.RunFromEmpty | mcu/mcu/Conference.cpp:11-31 | From a new conference: the first member gets id 0, the counter is the number of members created, and all listed ids lie below it in increasing order. |
| Members.DestroyExact | mcu/mcu/Conference.cpp:33-47 | Exactly the named member is removed and the rest keep their order. |
| Members.MemberList.MemberCreate | mcu/mcu/Conference.cpp:21-31 | A new member object with one reference is appended under the counter's id. |
| Members.MemberList.MemberDestroy | mcu/mcu/Conference.cpp:33-47 | The first member with the id, if any, leaves the list and its release deletes it, once; every other member keeps its place and its reference. |
| Members.MemberList.MemberDescs | mcu/mcu/Conference.cpp:60-70 | The descriptions of the listed members, in list order, all with the conference's id. |
| SampleAllocator.AlignedSizeIsLeast | mediastreamer2/src/dxfilter.cpp:750-759 | The slot size is the least multiple of the alignment that holds prefix and data. |
| SampleAllocator.SampleInSlot | mediastreamer2/src/dxfilter.cpp:782-789 | Each single sample: `size` bytes right behind the prefix, inside its slot, inside the buffer. |
| SampleAllocator.SamplesDisjoint | mediastreamer2/src/dxfilter.cpp:773-797 | For every size, prefix, alignment and number of samples, one included: every sample has its data behind its prefix at the start of its own slot, every slot lies within count times slot size, and slots, padding included, do not meet. |
| SampleAllocator.Allocator.MakeSamples | mediastreamer2/src/dxfilter.cpp:782-797 | As many samples as asked for, or as memory allows, at consecutive slots. |
| SampleAllocator.Allocator.Alloc | mediastreamer2/src/dxfilter.cpp:726-801 | All outcomes of the base class, of a missing buffer and of memory; the count of samples always equals the free list's length. |
| SampleAllocator.Allocator.ReallyFree | mediastreamer2/src/dxfilter.cpp:808-835 | Empties the free list and resets the count. |
| LinkGrouping.GroupLinks | mediastreamer2/tools/filters_graph.py:34-56 | The loop yields graphs faithful to the log in the sense of the next row, none empty. |
| LinkGrouping.GraphsAreFaithful | mediastreamer2/tools/filters_graph.py:34-56 | For every log the links of the graphs are, in order and once each, the kept link lines; two share a cluster if and only if only link lines lie between them, and a graph if and only if no unlink line does. |
| LinkGrouping.KeptExactly | mediastreamer2/tools/filters_graph.py:51-56 | A link line is kept if and only if some later line is not a link. |
| LinkGrouping.GraphsNotEmpty | mediastreamer2/tools/filters_graph.py:41-56 | No graph and no cluster is empty. |
| NodeNumbering.EmitCluster | mediastreamer2/tools/filters_graph.py:83-95 | The two loops over a cluster declare each address at first sight and only then write one edge per link. |
| NodeNumbering.Emit | mediastreamer2/tools/filters_graph.py:66-101 | The nested loops write well-numbered output, graph by graph, cluster by cluster, the nodes of a cluster before its edges; numbers run on over clusters and graphs, addresses once per cluster, edges one per link. |
| NodeNumbering.FirstsAreEnds | mediastreamer2/tools/filters_graph.py:84-92 | The name a node is declared with is that of the first end with its address in the cluster. |
| NodeNumbering.FirstsInSightOrder | mediastreamer2/tools/filters_graph.py:84-92 | Of two nodes of a cluster the one declared first is first named by an earlier link, or is the source of the same link. |
| NodeNumbering.AllWellNumbered | mediastreamer2/tools/filters_graph.py:66-101 | For every set of graphs: the nodes are numbered 1, 2, 3, ... up to node_num - 1 in output order and in the order in which the links first mention them, source before destination; no address is declared twice in a cluster, each node carries the name of the first end with its address in the cluster, and the edges are the links in order, joining the declared numbers of their own ends in their own cluster. |
| NodeNumbering.AllInOrder | mediastreamer2/tools/filters_graph.py:66-101 | Along the output for every set of graphs the pair of graph and cluster never decreases, and within a cluster every node line stands before every edge line. |
| NodeNumbering.NodesExactly | mediastreamer2/tools/filters_graph.py:84-92 | An address has a node in a cluster if and only if it is an end of one of the cluster's links. |
| NodeNumbering.NumbersFromLog | mediastreamer2/tools/filters_graph.py:83-95 | Node numbers follow the log: a node named first on an earlier line has the smaller number, and of two different addresses both new on one line the source has it. |
| NodeNumbering.LogToDot | mediastreamer2/tools/filters_graph.py:34-101 | For every log: the edges are the kept link lines in order with their own pins; two are in the same graph if and only if no unlink line lies between them; any two ends carry the same node number if and only if the lines name the same address there and only link lines lie between them; every node carries the name given by the first line of its run of links that names its address; numbers grow with the line that names a node first, source before destination; and nodes stand before edges, cluster by cluster. |
| NodeNumbering.Convert | mediastreamer2/tools/filters_graph.py:34-101 | The whole script writes edges and nodes with that meaning and in that order, the nodes numbered from 1 to node_num - 1 in output order. |

## Left out

- Base64Encoder.EncodeAt: requires the encoded text to be shorter than 2^64 characters, since no larger buffer can be addressed; the size query itself is modelled without that bound.
- Base64Encoder.B64Encode2: requires the buffer to hold what an accepted call writes, which `destLen` characters do except for the call `EmittedFitsIff` singles out; line lengths that are not a multiple of 4, which the header calls undefined, are excluded.
- Base64Decoder.DecodeAll: text characters are Dafny characters; any character outside the 7-bit table counts as unknown, as bytes 128 to 255 do in the table.
- ConferenceServer.Server.ConferenceDestroy: modelled by intent; the source reads the list iterator after erasing it (`mcu/mcu/Server.cpp:48-49`), here the pointer found is the one erased and released.
- Lifetimes.RunIsSafe: the list mutex is not modelled; the machine allows more interleavings than it does.
- Members.MemberList.MemberDestroy: by the same intent; the two steps of a release are one here, since only the list holds a member.
- SampleAllocator.Allocator.Alloc: `LONG` sizes are unbounded, the base class's answer and the number of samples that can be created are parameters, and the free list is taken to add at its head as the DirectShow base class does.
- NodeNumbering.Emit: headers and closing braces of graphs and subgraphs are not modelled; node and edge lines carry their graph and cluster number instead.
- The 256-entry decoding table of `ortp/src/b64.c` is written as character ranges, and the error-string lookup is left out.
- Destructors of `Server` and `Conference`, configuration files, logging, sockets, gSOAP code and response filling of `mcu/mcu/WsImpl.cpp`.
- Regular expressions, argument parsing and file or process calls of the graph script: a line is Link, Unlink or Other.
- RTP sessions, jitter buffer, codecs, filters, ICE, STUN and device code of ortp and mediastreamer2.
