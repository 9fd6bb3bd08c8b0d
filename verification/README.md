# Verified core of Xray

A model in Dafny of the parts of Xray-core whose correctness is hard to see, with proofs.

- **Vision** (`TlsFilter`, `VisionCodec`, `VisionGate`, `VisionOffsets`, `VisionReader`, `VisionWriter`). The
  XTLS Vision flow hides the lengths of a TLS handshake: a 16-byte identifier, then blocks of command, content length, padding
  length, content and padding, ended by an End or Direct block and followed by raw bytes. `VisionCodec`
  gives a meaning to such a stream, byte by byte; `VisionReader` and `VisionWriter` are the in-place code,
  proved against it; `VisionGate` is the decision of the reader when to stop unpadding, and
  `VisionOffsets` says what reader and gate do in terms of offsets in the stream alone. `TlsFilter` is what
  the first packets say about the TLS inside, on which the writer's decision to end the padding rests.
- **Domain matching** (`SuffixTheory`, `AhoCorasick`, `Keywords`, `Matchers`, `RollingRules`, `Mph`, `Labels`,
  `DomainTrie`, `MatcherGroup`). The keyword automaton, the minimal perfect hash over full and domain
  rules, the label trie, and the group that combines them. Each is proved to answer what the plain
  matchers answer, or exactly when it does.
- **Multiplexing** (`Address`, `Frame`, `MuxLink`, `Demux`, `MuxServer`, `MuxWriter`, `Sessions`, `Xudp`).
  Frames of many sessions share one link. The metadata codec, the writer of one session, the frame loop of
  the server over a byte stream in arbitrary batches, the session table, and the life of XUDP entries that
  move from session to session.
- **Streams** (`Octets`, `Buffer`, `Streams`, `Chunk`, `AuthCodec`, `Aead`, `Auth`, `Nonce`). Multi-buffers, the
  buffered reader, plain chunks, authenticated chunks with stateful padding, size and sealing, and nonces.
- **Caches** (`Recency`, `Lru`, `Replay`). The two-way LRU cache and the rotating replay filter.

Some promises turn out to hold only under a condition. In each such case the model follows the code, and
a theorem gives the exact condition together with an input on which the promise fails:

- The automaton looks at the node it reaches and not along the fail links, so it finds every occurrence if
  and only if the patterns are *covered*: every end piece of a pattern that begins with a pattern also ends
  with one. With "abc" and "b" added, "bc" is missed.
- The rolling-hash rules agree with the matchers if and only if there is some pattern, and every pattern
  that starts with a dot already ends with a dot and a domain pattern.
- `MatcherGroup` misses matchers only on the empty name, and only if an empty domain pattern was added.
- A buffer that starts behind the terminating block of a Vision stream, is at least 21 bytes long and starts
  with the identifier restarts the reader; the round trip holds if and only if there is none. `VisionReader`
  also closes its gate when a batch ends inside the header of an End or Direct block and the length bytes
  read so far are zero; the rest of that header then reaches the application if a batch with data follows
  that is not inspected. At the same cuts direct copy is switched on before the Direct block is over.
- A domain of 256 bytes is accepted by the address writer and its length byte wraps around.
- A packet too large for an authenticated chunk is dropped after the padding generator has moved, so both
  ends stay in step if and only if that generator has no state to lose.
- An authenticated stream that is cut at a chunk, or just behind the size of one, ends for the reader as one
  that was closed by its end marker does: without an error. Everything was delivered if and only if the bytes
  reach the marker. Two packets and a marker, cut behind the first packet, are read as that packet and the end.
- `Put` of a stored key with another value, or of a new key with a stored value, breaks the bijection of
  the LRU cache.
- A replay filter first used at time zero takes itself for unused and forgets the first sum.
- Session ids repeat after 65536 sessions unless the client sets a limit that is not a multiple of 65536.
- A connection that reuses the id of an attached XUDP session unregisters it while its entry stays active.

Random draws, the time, the string hash, the AEAD and `net.ParseAddress` are parameters or arbitrary
choices. Multi-buffers are lists of byte strings; a buffered reader is the bytes at hand and the batches
that its source will still deliver.

## Model

| member | source | states |
|---|---|---|
| `VisionCodec.RunBlock` | source/xray-core/proxy/proxy.go:414-467 | one encoded block, whatever follows, gives exactly its content and leaves the reader at the next header, or idle after an End or Direct block |
| `VisionCodec.WholeStream` | source/xray-core/proxy/proxy.go:351-471 | identifier, any Continue blocks, a terminating block and a raw tail read, in one piece, as all contents followed by the tail |
| `VisionCodec.PiecesAreWhole` | source/xray-core/proxy/proxy.go:390-471 | from every reachable state, buffers fed one by one have the effect of their concatenation when none restarts the reader, and lose bytes otherwise |
| `VisionCodec.TakenFrom21` | source/xray-core/proxy/proxy.go:406-413 | an idle reader takes a buffer for the start of a stream exactly from 21 bytes on and with the identifier, and passes any other unchanged |
| `VisionCodec.EncodedBytes` | source/xray-core/proxy/proxy.go:378-384 | a block as literal bytes: command, content length, padding length, content, padding |
| `VisionCodec.FragmentationIndependence` | source/xray-core/proxy/proxy.go:390-471 | after a buffer that opens the stream, the way the rest is cut is invisible if and only if no later buffer restarts the reader |
| `VisionCodec.RoundTrip` | source/xray-core/proxy/proxy.go:351-471 | a stream cut anywhere, the first buffer holding identifier and header, is decoded to its contents and tail if and only if no later buffer restarts the reader |
| `VisionGate.ClosesEarlyExactlyMidTerminator` | source/xray-core/proxy/proxy.go:221-231 | between batches the gate closes on an unfinished stream exactly when the terminator's command byte has been read and its lengths have announced nothing yet |
| `VisionGate.GateTransparent` | source/xray-core/proxy/proxy.go:190-237 | from any steady state, over batches in which nothing reopens the stream, the gated reader delivers what unpadding everything would, if and only if no data arrives at a gate closed mid-stream |
| `VisionGate.HeaderLeaks` | source/xray-core/proxy/proxy.go:212-231 | two batches for which the remaining header bytes are handed to the application |
| `VisionGate.DirectSeenExactly` | source/xray-core/proxy/proxy.go:221-228 | the test for direct copy holds behind a Direct block and in its header while nothing is announced, and nowhere else |
| `VisionOffsets.OffsetDecides` | source/xray-core/proxy/proxy.go:351-471 | after n bytes of a stream the reader is idle exactly from the end of the terminating block on, and stands at a header cut exactly one to four bytes into an End or Direct block with zero length bytes |
| `VisionOffsets.RoundTripByOffset` | source/xray-core/proxy/proxy.go:351-471 | a stream cut anywhere is decoded to its contents and tail if and only if no buffer that starts behind the terminating block is long enough and starts with the identifier |
| `VisionOffsets.RestartLoses` | source/xray-core/proxy/proxy.go:406-413 | a tail that starts with the identifier, in a buffer of its own, is swallowed |
| `VisionOffsets.VisionReaderRoundTrip` | source/xray-core/proxy/proxy.go:190-237 | `VisionReader` over a whole stream in any batches returns contents and tail if and only if every batch with data that is unpadded has no such buffer, and every one that is not starts behind the terminating block; whether it is unpadded depends on its offset and on inspection |
| `VisionOffsets.DirectByOffset` | source/xray-core/proxy/proxy.go:221-228 | direct copy goes on exactly behind a Direct block and at the header cuts inside it |
| `VisionOffsets.DirectTooEarly` | source/xray-core/proxy/proxy.go:225-228 | one byte of a Direct block, with its content still to come, switches it on |
| `VisionOffsets.DirectCopyRoundTrip` | source/xray-core/proxy/proxy.go:212-231 | over a whole stream read faithfully, direct copy is on at the end exactly if the terminator is a Direct block and some batch ends behind it or at a cut inside its header |
| `VisionRead.LinkState.ConsumeHeader` | source/xray-core/proxy/proxy.go:421-434 | a header byte moves the five-byte header state exactly as the byte-by-byte reader does |
| `VisionRead.UnpadOnce` | source/xray-core/proxy/proxy.go:415-467 | one turn of the loop, a header byte or a whole run of content or padding, consumes input and is equal to the byte-by-byte reader on what it consumed |
| `VisionRead.UnpadLoop` | source/xray-core/proxy/proxy.go:414-471 | the loop terminates from every state inside a block and computes the byte-by-byte run over the buffer |
| `VisionRead.XtlsUnpadding` | source/xray-core/proxy/proxy.go:390-471 | unpadding one buffer in place refines the byte-by-byte meaning, state and output, from every reachable state |
| `VisionRead.VisionReader.ReadMultiBuffer` | source/xray-core/proxy/proxy.go:190-237 | one read refines the gated reader on the batch, buffer by buffer; direct copy is switched on exactly when that test holds after unpadding; what comes out is inspected exactly while the budget lasts |
| `VisionRead.VisionReader.ReadBatches` | source/xray-core/proxy/proxy.go:190-237 | every run of reads, with a writer that uses up the packets to inspect, is a run of the gated reader in which inspection ends once, and direct copy is on behind it exactly if some batch was unpadded and met the test |
| `VisionRead.TrafficState.FilterPacket` | source/xray-core/proxy/proxy.go:475-523 | one packet has exactly the effect `Inspect` gives it on all six fields, the cipher suite included, and stops the inspection exactly when `Stops` says |
| `VisionRead.TrafficState.XtlsFilterTls` | source/xray-core/proxy/proxy.go:474-525 | all six fields are those after the packets up to and including the first that stops, nil entries skipped; flags stay consistent, and a packet budget that is used up stays so |
| `TlsFilter.ScanExactly` | source/xray-core/proxy/proxy.go:474-525 | after any packets: TLS exactly if a packet looked at is a hello of either side, TLS 1.2 or above exactly if one is a server hello, XTLS exactly if one names TLS 1.3 with a suite that will do, and the budget is zero after a stop and else lower by the packets looked at |
| `TlsFilter.ClientHello` | source/xray-core/proxy/proxy.go:493-496 | bytes 0x16, 3 and handshake type 1 set the TLS flag and cost one packet |
| `TlsFilter.ServerHello13` | source/xray-core/proxy/proxy.go:482-517 | a TLS 1.3 server hello in one packet ends the inspection, and enables XTLS exactly for the suites 0x1301 to 0x1304 |
| `TlsFilter.ServerHello12` | source/xray-core/proxy/proxy.go:498-519 | a server hello without the version extension ends the inspection and leaves XTLS as it was |
| `VisionWrite.CutPoint` | source/xray-core/proxy/proxy.go:330-333 | the cut lies at the last TLS record start or in the middle, and leaves room on both sides |
| `VisionWrite.CutExactly` | source/xray-core/proxy/proxy.go:328-339 | a buffer from 8171 bytes on is cut at its last record of application data, if that starts between 21 and 8171, and else after 4096 bytes; any other stays whole |
| `VisionWrite.AppDataBytes` | source/xray-core/proxy/proxy.go:282-282 | a packet counts as application data exactly when TLS was seen, it has 6 bytes or more and starts with 23, 3, 3 |
| `VisionWrite.ReshapeMultiBuffer` | source/xray-core/proxy/proxy.go:316-348 | every too full buffer is replaced by its two pieces and no other touched; the bytes are unchanged and every buffer has at most 8171 |
| `VisionWrite.VisionWriter.PaddingLength` | source/xray-core/proxy/proxy.go:352-372 | for every random draw the block fits 8171 bytes, and short contents are padded to between 900 and 1400 bytes when asked |
| `VisionWrite.VisionWriter.XtlsPadding` | source/xray-core/proxy/proxy.go:351-387 | the bytes are the pending identifier and one encoded block with the given content, and fit a buffer of 8192; the identifier is used up |
| `VisionWrite.VisionWriter.WritePadded` | source/xray-core/proxy/proxy.go:279-311 | keeps the output grammar and carries exactly the bytes; one block for each packet with its content, its command and its kind of padding, up to an early end; padding ends exactly at an early end or after application data was seen, and direct copy goes on exactly if XTLS is enabled then |
| `VisionWrite.VisionWriter.WriteMultiBuffer` | source/xray-core/proxy/proxy.go:261-313 | over every run of calls and random draws: identifier once, Continue blocks, at most one terminator, raw bytes after it; packets are inspected exactly while the budget lasts, a lone nil entry becomes one long block without content, and any other call does what the row above says for the reshaped buffers and the new flags |
| `VisionWrite.VisionWriter.PadOne` | source/xray-core/proxy/proxy.go:281-309 | one turn of the loop: the block for one packet, and whether what follows is sent without padding |
| `VisionWrite.ReaderRecoversPayload` | source/xray-core/proxy/proxy.go:261-471 | whatever such a writer has sent before the terminator is read back as exactly the payload so far, in any pieces; and after it, if and only if no buffer behind the terminator restarts the reader |
| `Buffers.Buffer.Write` | source/xray-core/common/buf/buffer.go:258-262 | appends the longest prefix that fits and nothing else |
| `Buffers.Buffer.Advance` | source/xray-core/common/buf/buffer.go:223-229 | drops bytes from the front of the contents, clamped |
| `SuffixTheory.LongestExtend` | source/xray-core/common/strmatcher/ac_automaton_matcher.go:192-247 | in a prefix-closed set, the longest suffix of a longer text is found from the longest suffix of the text |
| `SuffixTheory.InfixFreeIsCovered` | source/xray-core/common/strmatcher/ac_automaton_matcher.go:221-247 | pattern sets in which no pattern lies inside another are covered |
| `SuffixTheory.CompleteExactlyWhenCovered` | source/xray-core/common/strmatcher/ac_automaton_matcher.go:221-247 | inspecting only the longest suffix finds every occurrence in every text if and only if the pattern set is covered |
| `AhoCorasick.ACAutomaton.Add` | source/xray-core/common/strmatcher/ac_automaton_matcher.go:135-190 | after any additions the arrays are the trie of the reversed patterns, with marks at exactly the patterns |
| `AhoCorasick.ACAutomaton.CompleteNode` | source/xray-core/common/strmatcher/ac_automaton_matcher.go:204-216 | completing one row of a breadth-first run sets every edge and fail link to the longest suffix in the trie |
| `AhoCorasick.ACAutomaton.Build` | source/xray-core/common/strmatcher/ac_automaton_matcher.go:192-219 | the breadth-first loop terminates and leaves every edge leading to the longest suffix that is a trie word, and every fail link likewise |
| `AhoCorasick.ACAutomaton.Match` | source/xray-core/common/strmatcher/ac_automaton_matcher.go:221-247 | true exactly if, at some point of the reversed text inside the index table, the longest trie suffix of what was read is a pattern |
| `AhoCorasick.MatchIsSound` | source/xray-core/common/strmatcher/ac_automaton_matcher.go:221-247 | a match means that some added pattern is contained in the string |
| `AhoCorasick.MatchCompleteExactlyWhenCovered` | source/xray-core/common/strmatcher/ac_automaton_matcher.go:221-247 | on all strings of the index table a match is the same as containing a pattern, if and only if the pattern set is covered |
| `AhoCorasick.MissedString` | source/xray-core/common/strmatcher/ac_automaton_matcher.go:221-247 | every uncovered pattern set comes with a string that contains a pattern and is not matched |
| `AhoCorasick.UncoveredExample` | source/xray-core/common/strmatcher/ac_automaton_matcher.go:221-247 | "abc" with "b" is such a set: "bc" contains "b" and is not matched |
| `AhoCorasick.MissesBC` | source/xray-core/common/strmatcher/ac_automaton_matcher.go:135-247 | adding both, building and matching "bc" answers false |
| `Keywords.IndexExactly` | source/xray-core/common/strmatcher/ac_automaton_matcher.go:42-122 | listed bytes (letters, digits and seventeen signs) share an index exactly if they are equal up to case, and all others have that of "a" |
| `Keywords.FoldIsLower` | source/xray-core/common/strmatcher/matchers.go:20-22 | on strings of listed bytes, containing up to the index table is `strings.Contains` on lower-case strings |
| `Keywords.CoveredExactly` | source/xray-core/common/strmatcher/ac_automaton_matcher.go:221-247 | covered means for keywords that every end piece of one that begins with a keyword also ends with one, up to case |
| `Keywords.KeywordsExactly` | source/xray-core/common/strmatcher/ac_automaton_matcher.go:135-247 | on all names of listed bytes the automaton answers as the substring matchers do, if and only if the keywords are covered |
| `Keywords.KeywordsSound` | source/xray-core/common/strmatcher/ac_automaton_matcher.go:221-247 | what it matches contains a keyword, up to case |
| `Keywords.BeyondTheTable` | source/xray-core/common/strmatcher/ac_automaton_matcher.go:227-230 | a name that ends with a byte from 127 on matches nothing |
| `Matchers.DomainMatchByDot` | source/xray-core/common/strmatcher/matchers.go:30-36 | a domain pattern matches itself and the names that end with a dot and the pattern |
| `Matchers.DotSeparates` | source/xray-core/common/strmatcher/matchers.go:30-36 | the separator is the dot, on literal names |
| `RollingRules.RulesExact` | source/xray-core/common/strmatcher/mph_matcher.go:39-49 | the rule lookups agree with the full and domain matchers on every name if and only if there is a pattern and the dotted ones are safe |
| `RollingRules.UnsafeIsWrong` | source/xray-core/common/strmatcher/mph_matcher.go:170-185 | for every unsafe dotted pattern a name that the lookups find and no matcher accepts |
| `RollingRules.EmptyIsFound` | source/xray-core/common/strmatcher/mph_matcher.go:96-100 | without any pattern the name "empty___" is found |
| `RollingRules.HashIsPolynomial` | source/xray-core/common/strmatcher/mph_matcher.go:15-21 | the hash is the polynomial in 16777619 with the bytes as coefficients, modulo 2^32 |
| `Mph.RollingHash` | source/xray-core/common/strmatcher/mph_matcher.go:15-21 | the loop from the end computes the 32-bit polynomial hash of the string |
| `Mph.TrySeed` | source/xray-core/common/strmatcher/mph_matcher.go:127-142 | a seed is taken exactly if it sends the bucket's rules to different free slots; otherwise all slots are given back and occupied entries are as before |
| `Mph.FindSeed` | source/xray-core/common/strmatcher/mph_matcher.go:125-147 | the search finds the smallest seed that works exactly if one exists, whatever stale entries abandoned seeds leave |
| `Mph.PlaceAll` | source/xray-core/common/strmatcher/mph_matcher.go:114-148 | when every bucket finds a seed the two tables form a perfect hash; it gives up only where it is stuck: the finished buckets, none smaller than the others, occupy exactly their own slots, and no seed sends a largest remaining bucket to different free slots |
| `Mph.MphMatcherGroup.AddFullOrDomainPattern` | source/xray-core/common/strmatcher/mph_matcher.go:39-49 | the rule map holds exactly the full patterns, the domain patterns and the dotted domain patterns, with their rolling hashes |
| `Mph.MphMatcherGroup.Build` | source/xray-core/common/strmatcher/mph_matcher.go:92-149 | the rules are the stored ones, each once, with at least as many slots as rules, a power of two; when it finishes the table is perfect for them, and it gives up only where the search over their buckets is stuck |
| `Mph.NextPow2Exactly` | source/xray-core/common/strmatcher/mph_matcher.go:151-158 | a power of two, above the argument and at most twice it, and 1 for 0 and 1 |
| `Mph.OneRuleIsPlaced` | source/xray-core/common/strmatcher/mph_matcher.go:124-148 | a single rule never gets stuck |
| `Mph.LookupExact` | source/xray-core/common/strmatcher/mph_matcher.go:161-167 | in a perfect table the one candidate for a string is the string itself exactly when it is a rule |
| `Mph.MphMatcherGroup.Lookup` | source/xray-core/common/strmatcher/mph_matcher.go:161-167 | under its own rolling hash a string is found exactly if it is a stored rule, and under no hash is anything else found |
| `Mph.MphMatcherGroup.MatchRules` | source/xray-core/common/strmatcher/mph_matcher.go:170-185 | the single pass with a running hash hits exactly if the name or one of its suffixes starting at a dot is a stored rule |
| `Labels.PathReversesSplit` | source/xray-core/common/strmatcher/domain_matcher.go:5-31 | walking the split name backwards visits the labels that the search walks from the end of the string |
| `Labels.DomainMatchIsPrefix` | source/xray-core/common/strmatcher/domain_matcher.go:20-98 | a domain pattern matches exactly the names whose labels, from the end, begin with its own |
| `DomainTrie.AlongIsMatching` | source/xray-core/common/strmatcher/domain_matcher.go:47-98 | the values on the way down are those of the matching patterns, each as often as it was added |
| `DomainTrie.AnswerInOrder` | source/xray-core/common/strmatcher/domain_matcher.go:47-98 | the answer is the matching entries, each once, longer patterns first and equal ones in the order they were added |
| `DomainTrie.DomainMatcherGroup.Add` | source/xray-core/common/strmatcher/domain_matcher.go:20-41 | the linked tree stays the trie of all label paths added, with the values of each path in insertion order |
| `DomainTrie.DomainMatcherGroup.Match` | source/xray-core/common/strmatcher/domain_matcher.go:47-98 | on a nonempty name the values of the matching patterns, longer suffixes first and in insertion order within one; nothing on the empty name |
| `MatcherGroups.PartsAreMatching` | source/xray-core/common/strmatcher/strmatcher.go:65-102 | full, domain and other matchers together report every matching matcher as often as it was added |
| `MatcherGroups.MatchingIdsDistinct` | source/xray-core/common/strmatcher/strmatcher.go:72-102 | with fewer than 2^32 matchers each matching one is reported by its own id, once |
| `MatcherGroups.PartsInOrder` | source/xray-core/common/strmatcher/strmatcher.go:92-102 | full matchers, and the others, are reported in the order they were added |
| `MatcherGroups.MatcherGroup.Add` | source/xray-core/common/strmatcher/strmatcher.go:72-89 | the three parts stay in step with the list of matchers, the id is the position plus one, and only old or new nodes are held |
| `MatcherGroups.MatcherGroup.Match` | source/xray-core/common/strmatcher/strmatcher.go:92-102 | full matchers first, then domains from the most specific, then the others in order; together exactly the matchers that match, unless the name is empty and an empty domain pattern was added, and then fewer |
| `MatcherGroups.FullMatcherGroup.Add` | source/xray-core/common/strmatcher/full_matcher.go:7-13 | adds a value to one name and leaves all others |
| `Streams.SplitBytes` | source/xray-core/common/buf/multi_buffer.go:100-123 | takes exactly the first bytes, as many as asked for or there are, and leaves the rest |
| `Streams.SplitSize` | source/xray-core/common/buf/multi_buffer.go:173-204 | takes as many whole buffers as fit, or exactly the size from the first one if that is larger, and leaves the rest as it is |
| `Streams.MergeBytes` | source/xray-core/common/buf/multi_buffer.go:39-54 | appends the bytes, fills the last buffer first and every new one but the last, and leaves the others |
| `Streams.BufferedReader.Read` | source/xray-core/common/buf/reader.go:61-86 | gives the next bytes, as many as asked for or as there are at hand or in the next batch, and does not touch the source while bytes are at hand |
| `Streams.BufferedReader.ReadFull` | source/xray-core/common/buf/reader.go:61-86 | repeated reads give exactly the next n bytes however the source delivers them, or all there are |
| `Streams.BufferedReader.ReadAtMost` | source/xray-core/common/buf/reader.go:100-115 | gives some of the next bytes, no more than asked for, and keeps the others |
| `Chunks.ParseEncode` | source/xray-core/common/crypto/chunk.go:28-41 | cutting an encoded stream at its sizes gives back the list of chunks |
| `Chunks.WriteChunks` | source/xray-core/common/crypto/chunk.go:140-160 | the stream parses into chunks of at most 8192 bytes that make up the bytes written, an empty chunk exactly for an empty write |
| `Chunks.ChunkStreamReader.ReadMultiBuffer` | source/xray-core/common/crypto/chunk.go:102-126 | what one read takes from the stream in every state: the chunk limit, a cut size, the end marker and a started chunk |
| `Chunks.CopyAll` | source/xray-core/common/buf/copy.go:91-121 | reading chunks to the end over any batches returns the bytes written; a reader limited to k chunks consumes these and nothing after |
| `Chunks.CopyAny` | source/xray-core/common/buf/copy.go:91-121 | from any state and over any bytes in any batches, cut and malformed ones included, the reader gives exactly what the sizes in them say |
| `Chunks.CutGivesPrefix` | source/xray-core/common/crypto/chunk.go:102-126 | of a stream of chunks cut anywhere it gives a prefix of the bytes written, and all of them if nothing is missing |
| `Addresses.AddressRoundTrip` | source/xray-core/common/protocol/address.go:174-259 | an address that can be written reads back, leaving what follows, if and only if it is canonical |
| `Addresses.DomainRoundTrip` | source/xray-core/common/protocol/address.go:228-259 | a domain of up to 256 bytes reads back if and only if it has 1 to 255 valid characters and is not an IP address |
| `Addresses.LongDomainIsLost` | source/xray-core/common/protocol/address.go:228-259 | a domain of 256 bytes is written with length zero, and reading it fails |
| `Addresses.WrittenBytes` | source/xray-core/common/protocol/address.go:228-259 | the literal type bytes 1, 2 and 3, the length of a domain, and the refusal of more than 256 bytes |
| `Addresses.ReadExactly` | source/xray-core/common/protocol/address.go:174-226 | reading succeeds exactly on the bytes of an address and gives it and what follows: an embedded IPv4 address as such, a name that parses as an IP address as that, and no name with invalid characters |
| `Frames.MetaRoundTrip` | source/xray-core/common/mux/frame.go:65-160 | decoding metadata gives back id, status, option and target, and the global id exactly for a new UDP session with data and a tagged packet; never over 512 bytes |
| `Frames.Layout` | source/xray-core/common/mux/frame.go:65-97 | the bytes of the metadata with literal numbers: id, status, option, network, port, address and global id |
| `Octets.BigEndian` | source/xray-core/common/serial/serial.go:9-22 | two-byte numbers are written and read with the more significant byte first |
| `Frames.DecodeFails` | source/xray-core/common/mux/frame.go:120-147 | decoding fails exactly on fewer than four bytes, and on an announced target that is cut short, of an unknown network or without a readable address |
| `Frames.DecodeGives` | source/xray-core/common/mux/frame.go:120-160 | all fields that are decoded otherwise, and when a global id is among them |
| `MuxLink.WriteTo` | source/xray-core/common/mux/frame.go:65-97 | writing in place, with the length filled in last, produces the encoding of the metadata |
| `MuxLink.Unmarshal` | source/xray-core/common/mux/frame.go:100-116 | consumes exactly the length-prefixed metadata and decodes it, and fails exactly on a cut or oversized prefix or bad contents |
| `MuxLink.UnmarshalFrame` | source/xray-core/common/mux/frame.go:100-160 | a frame on the link is read as it was sent, and the reader is left at its data |
| `MuxLink.CopyStream` | source/xray-core/common/mux/server.go:239-246 | copying one chunk to an output that may fail at any write, with any part taken, gives it all of the data or a prefix, and leaves the reader just behind the chunk in both cases |
| `MuxLink.ReadPacket` | source/xray-core/common/mux/reader.go:30-54 | reads exactly one packet, and fails exactly if it is cut or over 8192 bytes |
| `Demux.NonInterference` | source/xray-core/common/mux/server.go:285-310 | in every interleaving a session sees what it would see if only its own frames came |
| `Demux.OthersFailing` | source/xray-core/common/mux/server.go:249-273 | two runs that agree on the events of a session give it the same data, wherever the outputs of others start to fail |
| `Demux.EachSessionGetsItsOwn` | source/xray-core/common/mux/server.go:113-310 | if the frames of a session in a run are those its writer sent and its output takes them, the session gets what it would get from them alone |
| `Demux.FailingGetsPrefix` | source/xray-core/common/mux/server.go:249-273 | a session whose output fails, at its first frame or a later one, is closed with exactly what the frames before gave it and, for a stream, the prefix of the failing frame that was taken |
| `Demux.FrameEffects` | source/xray-core/common/mux/server.go:249-283 | data for a session that is not open are answered with its id and nothing else is; what each status does to the table |
| `Demux.UnknownIsAnswered` | source/xray-core/common/mux/server.go:254-261 | over a run every frame with data of a session never opened is answered |
| `MuxServer.ServerWorker.HandleNew` | source/xray-core/common/mux/server.go:213-247 | a new session is registered with the first data, of which a failing output has a part, and the reader is left at the next frame |
| `MuxServer.ServerWorker.HandleKeep` | source/xray-core/common/mux/server.go:249-273 | data goes to its session and is skipped if there is none; an output that fails at any write closes the session with a part of them; the reader is left at the next frame in all cases |
| `MuxServer.ServerWorker.HandleFrame` | source/xray-core/common/mux/server.go:285-310 | one frame off the link, with an output that may fail at any write, has exactly the effect the frame stands for and the reader is left at the next frame; a frame that is refused changes nothing |
| `MuxServer.ServerWorker.Serve` | source/xray-core/common/mux/server.go:312-333 | over any sequence of frames in any batches, with outputs that fail at any write, the loop does what the frames say, in order, consumes exactly their bytes, and stops at the first frame that is not acceptable |
| `MuxWriter.Writer.WriteData` | source/xray-core/common/mux/writer.go:67-90 | exactly one frame goes out, with all the data and the destination of a single buffer, and its effect at the other end is to add them |
| `MuxWriter.Writer.WriteMultiBuffer` | source/xray-core/common/mux/writer.go:93-115 | over every run the frames sent give the other end exactly the bytes of a stream, or exactly the nonempty packets with their destinations; without content exactly one frame without data goes out |
| `MuxWriter.Writer.Close` | source/xray-core/common/mux/writer.go:118-132 | exactly one end frame goes out, with the error bit exactly if there was an error, and the session is then closed at the other end, with all its data |
| `MuxWriter.ServerGivesWhatWasWritten` | source/xray-core/common/mux/writer.go:41-132 | in any interleaving a server hands a session exactly what its writer wrote, and has it open exactly until the writer closed it |
| `Sessions.UniqueExactly` | source/xray-core/common/mux/session.go:64-69 | ids given in order differ up to 65536 of them and no further: the next one repeats the first |
| `Sessions.SessionManager.Allocate` | source/xray-core/common/mux/session.go:53-71 | exactly when a session is refused; ids stay unique exactly below 65536 sessions, and a limit sees to that; the bounds on open sessions and the table hold |
| `Sessions.SessionManager.Get` | source/xray-core/common/mux/session.go:106-116 | finds exactly the open session with the id |
| `Sessions.Session.Close` | source/xray-core/common/mux/session.go:164-194 | removes the session from the table once, and keeps the table equal to the open sessions |
| `Sessions.SessionManager.Close` | source/xray-core/common/mux/session.go:134-150 | closes every session ever allocated and empties the table, for good |
| `Sessions.SessionManager.CloseIfNoSession` | source/xray-core/common/mux/session.go:118-132 | closes exactly if all sessions are closed |
| `Xudp.ApplyExactly` | source/xray-core/common/mux/session.go:164-244 | each step the code can take, attaching, adding, closing a session or a connection, ticking and reaping, keeps the invariant if and only if it registers nothing under an id in use on that connection |
| `Xudp.AttachExactly` | source/xray-core/common/mux/server.go:144-211 | attaching keeps the invariant if and only if the id is free or that of the session being taken over, or nothing gets registered |
| `Xudp.AddExactly` | source/xray-core/common/mux/session.go:73-84 | adding a session keeps it if and only if the id is not in the table |
| `Xudp.AttachOutcome` | source/xray-core/common/mux/server.go:144-211 | with a destination, old or new, the id is mapped to an entry with the new session, active and registered, or closed at once and expiring on a closed connection; the session before is closed; without one the id is not mapped; other ids stay |
| `Xudp.Lifecycle` | source/xray-core/common/mux/server.go:144-211 | in every reachable state a mapped entry is active with its session open and registered, or expiring with that session closed |
| `Xudp.ReaperIsExact` | source/xray-core/common/mux/session.go:227-244 | over every run: the reaper keeps an entry with an open session, and removes one with a closed session exactly if more than 60 seconds have passed since the step of the run that closed it |
| `Xudp.OneClosingStep` | source/xray-core/common/mux/session.go:164-194 | a session becomes closed at one step of a run at most |
| `Xudp.DetachedIsPowerless` | source/xray-core/common/mux/session.go:164-194 | closing a session that was replaced changes nothing at all |
| `Xudp.OnlyTheseRemove` | source/xray-core/common/mux/server.go:144-211 | only the reaper and an attach that reaches no destination remove an entry |
| `Xudp.ReusedIdUnregisters` | source/xray-core/common/mux/session.go:73-84 | after a connection is opened and a session attached, the same id for another session leaves the entry active and its session open but no longer registered |
| `AuthCodec.WireCons` | source/xray-core/common/crypto/auth.go:249-276 | a list of chunks can be read from its front, each in the state the ones before it leave |
| `AuthCodec.ChunkInOrder` | source/xray-core/common/crypto/auth.go:249-276 | the generators of a chunk in turn: padding, size, content, and the bytes each of them gives |
| `Aead.AeadIsSound` | source/xray-core/common/crypto/chunk.go:43-64 | for every AEAD whose opening undoes its sealing under one nonce, sealed sizes less the overhead modulo 2^16, contents sealed under a counter of their own and bounded padding form a scheme in which decoding undoes encoding in lockstep |
| `Aead.OneNonceEach` | source/xray-core/common/crypto/auth.go:64-88 | after any chunks both counters and the padding generator have moved by exactly their number |
| `Aead.SealedUnder` | source/xray-core/common/crypto/auth.go:64-88 | the bytes of chunk i: its size less the overhead sealed under step i + 1 of one counter, its content under step i + 1 of the other, and as much noise as step i of the padding says |
| `Aead.NoncesRepeatExactly` | source/xray-core/common/crypto/auth.go:30-88 | two chunks are sealed under nonces of which the values are the start plus their numbers modulo 256^n, so under the same one exactly if a multiple of 256^n lies between them |
| `Auth.AuthenticationWriter.Seal` | source/xray-core/common/crypto/auth.go:249-276 | the bytes of a chunk in the current state, generators advanced in order; a content without room is refused exactly when it does not fit, with the padding generator already advanced |
| `Auth.AuthenticationWriter.WriteStream` | source/xray-core/common/crypto/auth.go:278-310 | the bytes go out in chunks that are full but for the last, none empty, in lockstep with the generators, and their contents are the bytes |
| `Auth.AuthenticationWriter.PutPacket` | source/xray-core/common/crypto/auth.go:317-328 | the writer stays in step exactly if the packet is empty, has room, or the padding generator has no state to lose |
| `Auth.AuthenticationWriter.WritePacket` | source/xray-core/common/crypto/auth.go:312-335 | each nonempty packet in turn is sealed if it has room and dropped otherwise, and bytes, chunks and state are what that gives; packets within the payload size become one chunk each, in lockstep |
| `Auth.AuthenticationWriter.WriteMultiBuffer` | source/xray-core/common/crypto/auth.go:338-350 | an empty write is one end marker; a stream becomes nonempty chunks with the same bytes, and packets what the row above says |
| `Auth.DroppedPacketLosesLockstep` | source/xray-core/common/crypto/auth.go:249-261 | a full buffer is dropped, a packet of one byte follows, and the reader returns that byte and its padding |
| `Auth.AuthenticationReader.ReadSize` | source/xray-core/common/crypto/auth.go:119-133 | a parked size is used once; otherwise padding and size generators advance as the writer's did, and if the size does not arrive the error is the end of the stream exactly if no byte of it does |
| `Auth.AuthenticationReader.ReadInternal` | source/xray-core/common/crypto/auth.go:153-204 | one chunk is delivered, as a buffer of its own if it fits one, or the size is parked, or the end marker is seen; a soft read never touches the source; an error means that the chunk does not arrive, and is the end of the stream exactly if the bytes end at the chunk or just behind its size |
| `Auth.AuthenticationReader.ReadMultiBuffer` | source/xray-core/common/crypto/auth.go:206-226 | delivers the next contents, with packet boundaries if the chunks fit buffers, until sixteen chunks are read, the marker is seen or the bytes at hand do not make up the next one; it fails only when no more chunks arrive whole, with the error that the way the bytes end calls for, and reports the end for ever after the marker |
| `Auth.AuthenticationReader.CopyAll` | source/xray-core/common/buf/copy.go:91-121 | over any batches it delivers exactly the chunks that arrive whole, packet by packet if they fit buffers; it fails exactly if the stream is torn, and has seen the marker exactly if its size arrives, and then delivered everything |
| `Auth.FateByOffset` | source/xray-core/common/crypto/auth.go:119-204 | the way a stream ends, by lengths: whole exactly if the size of the marker arrives, and with a quiet end exactly if the bytes end before that at a chunk or just behind a size |
| `Auth.ArrivedByOffset` | source/xray-core/common/crypto/auth.go:137-204 | at least j chunks arrive whole exactly if the bytes reach the start of the next one |
| `Auth.WholeContent` | source/xray-core/common/crypto/auth.go:153-204 | the chunks that arrive whole have all the content exactly if the bytes reach the marker |
| `Auth.CutLooksLikeTheEnd` | source/xray-core/common/crypto/auth.go:119-204 | a run of writer and reader, cut behind the first of two packets: that packet is delivered, the other is lost, and the reader reports the end |
| `Nonces.IncIsSuccessor` | source/xray-core/common/crypto/auth.go:33-38 | carrying bytewise is adding one modulo 256^n |
| `Nonces.NonceGenerator.Next` | source/xray-core/common/crypto/auth.go:30-41 | after any number of calls the counter, incremented in place, is the start plus that number modulo 256^n |
| `Nonces.NonceGenerator.AEADCountsFromZero` | source/xray-core/common/crypto/auth.go:43-49 | the nonces of an AEAD generator are 0, 1, 2 and so on |
| `Nonces.NonceGenerator.NoncesRepeatExactlyAfterAll` | source/xray-core/common/crypto/auth.go:30-49 | two nonces of a run are equal exactly if a multiple of 256^n calls lies between them |
| `Recency.OrderIsByLastTouch` | source/xray-core/common/cache/lru.go:40-89 | the recency order lists items strictly by their last touch |
| `Lru.LruCache.Get` | source/xray-core/common/cache/lru.go:40-49 | finds exactly a stored key, touches its pair and keeps the elements |
| `Lru.LruCache.GetKeyFromValue` | source/xray-core/common/cache/lru.go:51-60 | finds exactly a stored value, touches its pair and keeps the elements |
| `Lru.LruCache.PeekKeyFromValue` | source/xray-core/common/cache/lru.go:62-68 | finds exactly a stored value and touches nothing |
| `Lru.LruCache.Put` | source/xray-core/common/cache/lru.go:70-89 | list and maps stay one bijection exactly if the pair is stored already or new in both parts, and then the list is the pairs touched last, no more than the capacity, so what leaves is the one touched longest ago |
| `Lru.StaleValue` | source/xray-core/common/cache/lru.go:73-76 | a stored key with another value is such a breach |
| `Replay.ReplayFilter.Check` | source/xray-core/common/antireplay/replayfilter.go:35-58 | one check starts, swaps and clears the pools and answers as the runs of the rows below |
| `Replay.SafeExactly` | source/xray-core/common/antireplay/replayfilter.go:35-58 | for given times no sum is ever accepted twice within the interval, over any number of checks and swaps, exactly unless the first use is at time zero and the second within the interval |
| `Replay.Forgotten` | source/xray-core/common/antireplay/replayfilter.go:39-44 | the same sum asked first at time zero and again within the interval is accepted twice |
| `Replay.RunIsSafe` | source/xray-core/common/antireplay/replayfilter.go:35-58 | the invariant of every run: sums accepted since the last swap are in both pools, those of the interval before it in the pool it spared |
| `Replay.NewSumsAreAccepted` | source/xray-core/common/antireplay/replayfilter.go:57-57 | a sum never checked before is accepted |
| `Replay.ForgottenAfterTwoIntervals` | source/xray-core/common/antireplay/replayfilter.go:46-57 | a sum not asked for since some query is accepted again once there was a query an interval after that one and another an interval later, over any checks between |
| `Replay.ForgetsAtTwentyTwo` | source/xray-core/common/antireplay/replayfilter.go:46-57 | with interval 10 a sum of time 1 is accepted again at 22 after checks at 11 and 21 |

## Left out

- Buffer pooling and aliasing between multi-buffers: a multi-buffer is a list of byte strings, and releasing
  buffers has no effect on others.
- Buffers.Buffer.Advance: the panics of the Go code on out-of-range windows are preconditions.
- Goroutines and locks: every operation runs to its end; XUDP handlers, closing and the reaper are atomic
  steps on values rather than updates in place.
- MuxServer.ServerWorker.HandleFrame: frames that carry a global id are not taken; what they do to sessions
  and entries is in `Xudp` only.
- Sessions.Session.Close: interrupting the pipes is left out, and its XUDP branch is in `Xudp`.
- MuxServer.ServerWorker.Serve: bytes that are no frame end the loop in the code, as `MuxLink.Unmarshal` says;
  the loop here is over links whose frames are well formed.
- The downlink: response writers, the mux client and its pickers.
- Keyword patterns of type full or domain inside `ACAutomaton`, and adding patterns after `Build`.
- AhoCorasick.ACAutomaton.Add: a byte outside the index table makes the code panic and is a precondition.
- The rest of `MphMatcherGroup.Match` (automaton, regular expressions) and lower-casing of patterns.
- Mph.MphMatcherGroup.Build: the code searches seeds without end; here the search stops after all 2^32 and
  says so.
- Substring and regular-expression matchers are arbitrary predicates in `MatcherGroups`.
- Chunks.CopyAll: for streams of complete chunks; `Chunks.CopyAny` covers the others.
- The AEAD, size parsers and padding generators are any operations on one state for which decoding undoes
  encoding; their own security is not a subject.
- Aead.AeadIsSound: the cipher is good for nonces of every length; the check of the nonce size is left out.
- Streams.BufferedReader.Read: the source reports its end apart from data. An underlying reader that returns
  data together with an error, as `SingleReader` may, loses these data in `Read` and is not modelled.
- Auth.AuthenticationReader.ReadInternal: forged chunks, which a sound AEAD rejects, do not occur in the
  streams considered.
- VisionRead.TrafficState.FilterPacket: the cipher suite read past the end of a packet is an arbitrary value.
- The Vision splice (`CopyRawConnIfExist`) and everything that works on connections.
- Replay.ReplayFilter.Check: pools are exact sets; the cuckoo filter's false positives and capacity are not
  modelled.
- `Compact`, `MergeMulti`, `SplitFirst` and the other helpers of multi-buffers that the code above does not use.
- Configuration, routing, DNS, transports and logging.
