# Proxy runtime model

A Dafny model of the codecs and state machines of the sing-box proxy runtime: what they compute over every input, every
split of a byte stream and every interleaving, and proofs of it. `dafny verify dfyconfig.toml` checks the whole project.

| area | files |
|---|---|
| shared | `Wrappers`, `Arithmetic`, `Bytes`, `Utf8` |
| VLESS over WebSocket | `WebSocketFrames` (the frame grammar), `WebSocketReader` (what bytes mean to a reader), `WebSocketStream` (the poll-driven class), `WebSocketEndToEnd`, `Base64Url`, `VlessRequest` |
| binary rule sets | `DomainTrie`, `TrieWalk`, `TrieEncoding`, `DomainKeys`, `DomainRules` (domain rules character by character), `AddressRanges`, `RuleSetFormat` (the format as functions), `RuleSetReader` (the cursor class), `RuleSetEncoding`, `RuleTrees`, `RuleSetMeaning` |
| AnyTLS | `AnyTlsPadding`, `SessionPool` |
| routing | `RuleMatching`, `SessionConditions` (what each condition asks), `Router`, `RemoteRuleSets` |
| smaller cores | `OutboundManager`, `ConnectionTasks`, `DnsNames`, `SrvResponses`, `JsonComments` |

Loops and objects of the source are methods and classes here, proved against functions; the theorems are about those
functions or about the classes' invariants. Sockets deliver chunks of any size, take any part of a write, stay pending or
fail at will; they keep a log of their answers, which the stream's results are told by. Concurrent parts (`SessionPool`, `ConnectionTasks`) are state machines whose steps are the single atomic
accesses and critical sections, and their theorems hold after every possible sequence of steps. Random masks, draws and
clocks are arbitrary values. Bytes are integers below 256, machine integers are written out where they could wrap.

Where the code falls short of what one would expect of it, the model follows the code, shows an input and proves exactly
when it does meet the expectation:

- A plain-suffix key with two leading dots next to the key with one dot changes meaning when the two are merged
  (`DomainKeys.DoubleDotCounterexample`, `DomainKeys.DottedMeaning`), and a plain suffix without a leading dot can lose
  hosts (`DomainKeys.UndottedCounterexample`, `DomainKeys.NothingLost`, `DomainKeys.MeaningKept`).
- The reaper counts closed sessions as idle, so it can retire the last idle sessions it was to keep
  (`SessionPool.ClosedCountsAsIdle`, `SessionPool.MinIdleKept`, `SessionPool.ReapKeepsMinimum`).
- A server that uses a tag again for other content keeps old rules in force (`RemoteRuleSets.Agreement`).
- A query name of more than 127 labels is written but cannot be read back (`DnsNames.QueryReadsBack`).
- A rule tree nested more than 64 deep is refused (`RuleTrees.TreeBack`).

## Model

| member | source | states |
|---|---|---|
| WebSocketFrames.ParseWire | crates/sing-box-protocol-vless/src/lib.rs:768-845 | the header parser takes the wire form of any frame (RFC 6455 section 5.2) exactly when the rules allow that frame at that point, and then reads its opcode, length, mask and header size; otherwise it reports an error |
| WebSocketFrames.WireParse | crates/sing-box-protocol-vless/src/lib.rs:768-845 | conversely, whole bytes the parser lets through are the wire form of an allowed frame, so parser and grammar agree both ways |
| WebSocketFrames.ParseHeaderStable | crates/sing-box-protocol-vless/src/lib.rs:768-845 | a decision about a header is never changed by bytes that arrive later |
| WebSocketFrames.MaskedTwice | crates/sing-box-protocol-vless/src/lib.rs:1024-1042 | unmasking undoes masking at every offset |
| Bytes.XorBit | crates/sing-box-protocol-vless/src/lib.rs:1024-1042 | the octet masking combines from two octets has exactly the bits in which they differ |
| WebSocketFrames.PayloadOnWire | crates/sing-box-protocol-vless/src/lib.rs:861-881 | on the wire a masked payload stands right behind its four-octet key, and octet i of it differs from its wire octet in exactly the bits of key octet i mod 4 (RFC 6455 section 5.3); an unmasked payload stands there as it is |
| WebSocketReader.RunConversation | crates/sing-box-protocol-vless/src/lib.rs:758-1053 | reading the wire form of any allowed frames yields their data payloads up to the first Close, one Pong per Ping with its payload and an echo of the Close, in arrival order |
| WebSocketReader.Decompose | crates/sing-box-protocol-vless/src/lib.rs:758-1053 | any received bytes are a run of allowed frames followed by a rest that holds no whole one |
| WebSocketReader.RunGrows | crates/sing-box-protocol-vless/src/lib.rs:758-1053 | more input only extends the data and replies already determined, and settles nothing differently |
| WebSocketReader.TracksConsume | crates/sing-box-protocol-vless/src/lib.rs:1013-1048 | taking any part of a payload in any chunk keeps the reader in step with the meaning of all input, whatever follows |
| WebSocketStreams.WebSocketStream.constructor | crates/sing-box-protocol-vless/src/lib.rs:735-752 | a new stream has handed out and written nothing and satisfies the invariant |
| WebSocketStreams.WebSocketStream.CompactInput | crates/sing-box-protocol-vless/src/lib.rs:758-766 | compaction moves the buffer and leaves the unread bytes as they are |
| WebSocketStreams.WebSocketStream.StartFrame | crates/sing-box-protocol-vless/src/lib.rs:768-845 | takes exactly the header the grammar finds in the unread bytes; with too few bytes or an error nothing moves |
| WebSocketStreams.WebSocketStream.AppendFrame | crates/sing-box-protocol-vless/src/lib.rs:847-883 | adds the octets of one whole well-formed final frame, masked exactly on the client side, in the shortest length form, behind what is unsent; what those octets are is PayloadOnWire and ParseWire |
| WebSocketStreams.WebSocketStream.FinishReadFrame | crates/sing-box-protocol-vless/src/lib.rs:885-901 | answers a Ping or a first Close and keeps both sides of the invariant; only a Close ends reading |
| WebSocketStreams.WebSocketStream.PollFillInput | crates/sing-box-protocol-vless/src/lib.rs:908-924 | polls the socket once; moves the chunk it gives to the buffer, losing and duplicating no byte, or hands on its wait, its failure or its end |
| WebSocketStreams.WebSocketStream.PollFlushOutput | crates/sing-box-protocol-vless/src/lib.rs:926-945 | through any partial writes, what the socket took and what is unsent stay whole frames in order; it goes on as long as the socket takes bytes and then succeeds with all sent, and otherwise returns what the socket answered last: a wait, its failure, or WriteZero when it took nothing of a nonempty offer |
| WebSocketStreams.WebSocketStream.PollRead | crates/sing-box-protocol-vless/src/lib.rs:952-1053 | terminates for every split, Pending and capacity; hands out the next bytes of early data and unmasked payloads, all that is there and fits; waits or fails only as the socket did in its last answer, and then hands out nothing; at every pause for input, at every protocol error and at the end it has handed out all data and answered every Ping the received bytes hold; reports the end only after a Close or at a frame boundary; on success every answer owed so far is on the socket |
| WebSocketStreams.WebSocketStream.PollWrite | crates/sing-box-protocol-vless/src/lib.rs:1060-1095 | each accepted byte enters exactly one data frame once, also across Pending and re-polls; a frame is made only behind frames that are all on the socket; success means it is on the socket, and a wait or a failure is what the socket answered last |
| WebSocketStreams.WebSocketStream.PollFlush | crates/sing-box-protocol-vless/src/lib.rs:1097-1103 | while the socket takes bytes every frame written is put on it, whole, and the result is that of the socket's own flush; otherwise it is what the socket answered last |
| WebSocketStreams.WebSocketStream.PollShutdown | crates/sing-box-protocol-vless/src/lib.rs:1105-1117 | queues one Close unless one is queued already, sends everything as PollFlush does and then returns the result of the socket's own shutdown |
| WebSocketEndToEnd.DeliveredInFrames | crates/sing-box-protocol-vless/src/lib.rs:758-1053 | in every reachable state the bytes handed out are a prefix of early data and the payloads the frame grammar finds before the first Close, and the replies a prefix of those owed, in order; once it has caught up with its input they are all of them, and after a Close every answer owed has been given |
| WebSocketEndToEnd.RunLog | crates/sing-box-protocol-vless/src/lib.rs:847-883 | with no Close, everything one side wrote reads back on the other as the application data alone |
| WebSocketEndToEnd.Delivery | crates/sing-box-protocol-vless/src/lib.rs:758-1118 | with no Close sent, a reader given any prefix of the writer's bytes has met no error and handed out a prefix of what the writer accepted |
| WebSocketEndToEnd.CompleteDelivery | crates/sing-box-protocol-vless/src/lib.rs:758-1118 | a reader that has received everything the writer sent, no Close, and pauses as PollRead does has handed out exactly what the writer accepted, for every mask, write size and split |
| WebSocketEndToEnd.PollDelivers | crates/sing-box-protocol-vless/src/lib.rs:952-1118 | a poll of the reader while the bytes are under way meets no protocol error, and when it pauses with everything received it has handed out exactly what the writer accepted |
| Base64Url.EncodeBase64 | crates/sing-box-protocol-vless/src/lib.rs:1280-1304 | the encoder's loop over triples writes the base64 text of RFC 4648 |
| Base64Url.DecodeBase64Url | crates/sing-box-protocol-vless/src/lib.rs:1252-1278 | the accumulator loop computes the decoding function, errors included |
| Base64Url.DecodeEncode | crates/sing-box-protocol-vless/src/lib.rs:1252-1311 | decoding the unpadded URL-safe text of any bytes gives those bytes |
| Base64Url.AcceptedTexts | crates/sing-box-protocol-vless/src/lib.rs:1252-1278 | which texts the decoder accepts, exactly |
| VlessRequest.EncodeVlessRequest | crates/sing-box-protocol-vless/src/lib.rs:1199-1226 | writes the request bytes, or fails exactly for a name of more than 255 bytes |
| VlessRequest.ReadEncoded | crates/sing-box-protocol-vless/src/lib.rs:1124-1226 | the inbound reads back the destination and user the outbound wrote and leaves the application data untouched |
| VlessRequest.ReadAccepts | crates/sing-box-protocol-vless/src/lib.rs:1124-1174 | the inbound accepts exactly the bytes of a known user, addons of any length and content between user and command, with the destination written behind them, and leaves what follows |
| VlessRequest.HeaderRefused | crates/sing-box-protocol-vless/src/lib.rs:1128-1147 | exactly which bytes are refused for their version, for an unknown user and for another command |
| VlessRequest.KindRefused | crates/sing-box-protocol-vless/src/lib.rs:1151-1172 | exactly which requests are refused for an unknown kind of address |
| VlessRequest.NameRefused | crates/sing-box-protocol-vless/src/lib.rs:1157-1163 | exactly which requests are refused for a name that is not UTF-8 |
| VlessRequest.EmptyRefused | crates/sing-box-protocol-vless/src/lib.rs:1157-1173 | exactly which requests are refused for an empty name |
| VlessRequest.RequestArrives | crates/sing-box-protocol-vless/src/lib.rs:261-317 | the same holds end to end, whether the request travels as base64url early data or as the first frame, once the inbound has received everything and pauses |
| DomainTrie.BuildChildren | crates/sing-box-core/src/srs.rs:179-196 | succeeds exactly on bitmaps that lay out the labels node by node, and builds those child lists |
| DomainTrie.OneParent | crates/sing-box-core/src/srs.rs:179-196 | every node but the root has exactly one parent, reachable or not |
| DomainTrie.ReachableGrown | crates/sing-box-core/src/srs.rs:203-221 | a reachable node has only children with larger numbers, so the recursion ends and the child bound holds |
| TrieWalk.Collector.Collect | crates/sing-box-core/src/srs.rs:203-221 | the recursion with its shared path ends, restores the path, visits as specified, and fails only for keys over 4096 bytes |
| TrieWalk.WalkVisitsOnce | crates/sing-box-core/src/srs.rs:203-221 | the walk visits every reachable node exactly once and no other |
| TrieWalk.KeysAreLeafPaths | crates/sing-box-core/src/srs.rs:203-221 | a key is collected exactly when labels on the way to a leaf spell it |
| TrieEncoding.LayoutUnique | crates/sing-box-core/src/srs.rs:179-196 | a bitmap has at most one layout |
| TrieEncoding.EncodedLayout | crates/sing-box-core/src/srs.rs:161-201 | the level-order encoding of any trie is laid out as the parser expects |
| TrieEncoding.DecodeTrie | crates/sing-box-core/src/srs.rs:161-201 | accepts exactly the arrays with enough leaf bits, a layout and no path over the limit, and returns their keys |
| TrieEncoding.DecodeEncodedSet | crates/sing-box-core/src/srs.rs:161-221 | decoding the level-order encoding of any finite set of keys of at most 4096 bytes returns that set |
| AddressRanges.AppendRange | crates/sing-box-core/src/srs.rs:285-329 | the loop emits the specified blocks, with no shift or subtraction leaving the integers at either end of the address space |
| AddressRanges.LargestBlock | crates/sing-box-core/src/srs.rs:286-293 | the inner loop finds the largest aligned block that starts there and ends in the range |
| AddressRanges.SplitTiles | crates/sing-box-core/src/srs.rs:285-329 | the blocks are aligned, ascending and fill the range without a gap |
| AddressRanges.TilesCover | crates/sing-box-core/src/srs.rs:285-329 | aligned consecutive blocks cover exactly the range, each address once |
| AddressRanges.SplitMinimal | crates/sing-box-core/src/srs.rs:285-329 | no set of aligned blocks that covers exactly the range is smaller |
| AddressRanges.SplitBound | crates/sing-box-core/src/srs.rs:285-329 | at most 62 blocks for IPv4 and 254 for IPv6 |
| AddressRanges.ContainsCovers | crates/sing-box-core/src/router.rs:1046-1067 | the mask test of the router is membership in the block |
| AddressRanges.RangeMeaning | crates/sing-box-core/src/srs.rs:285-329 | an address matches one of the emitted blocks exactly when it lies in the range |
| DomainKeys.DumpDomainKeys | crates/sing-box-core/src/srs.rs:223-255 | refuses exactly lists with a key that is no text; otherwise, whatever order the set of plain suffixes is visited in, the result is the specified pair of lists of the sorted keys; what sorted keys mean is DomainRules.SortedMeaning |
| DomainRules.KeyMeaning | crates/sing-box-core/src/srs.rs:227-239 | a key that is a name back to front is that whole host alone, up to case; with a carriage return behind it every host that ends with the name; with a line feed the name's domain suffix |
| DomainRules.SortedMeaning | crates/sing-box-core/src/srs.rs:223-239 | sorted keys accept exactly the hosts that one of the rules accepts whose keys are in the list |
| DomainRules.DecodedRules | crates/sing-box-core/src/srs.rs:161-239 | from domain rules to the encoded trie of their keys and back through the decoder: the keys found are sorted into exactly these rules and accept a host exactly when one of the rules does |
| DomainRules.DecodedLists | crates/sing-box-core/src/srs.rs:161-255 | and the decoder's two lists, asked as the router asks them, accept a host exactly when one of the rules does, when plain endings and no whole hosts begin with a dot |
| DomainRules.RouterRules | crates/sing-box-core/src/router.rs:914-930 | the router's comparisons of a host with its two lists, told character by character: the same host up to ASCII case, or a name behind a dot at its end |
| DomainKeys.NothingLost | crates/sing-box-core/src/srs.rs:223-255 | the router accepts every host the keys accept exactly when each plain suffix begins with a dot or other keys shadow it: a domain suffix or plain suffix above it, or a doubly dotted one |
| DomainKeys.UndottedCounterexample | crates/sing-box-core/src/srs.rs:241-249 | the plain suffix "x" on its own takes "ax"; the rewritten list does not |
| DomainKeys.MeaningKept | crates/sing-box-core/src/srs.rs:223-255 | for any keys that leave some character unused: router and keys accept the same hosts exactly when undotted plain suffixes are shadowed and doubly dotted ones covered |
| DomainKeys.DottedMeaning | crates/sing-box-core/src/srs.rs:223-255 | with all plain suffixes dotted, router and keys accept the same hosts exactly when each doubly dotted one is covered by another key |
| DomainKeys.DoubleDotCounterexample | crates/sing-box-core/src/srs.rs:241-249 | the keys ".x" and, as a plain suffix, "..x" do not accept "a.x"; the rewritten list does |
| RuleSetReader.BinaryReader.ReadUvarint | crates/sing-box-core/src/srs.rs:384-397 | reads the integer the format specifies from the cursor, or fails |
| RuleSetReader.BinaryReader.ReadIpSet | crates/sing-box-core/src/srs.rs:257-283 | returns the blocks of all encoded ranges in order, or fails, as specified |
| RuleSetReader.BinaryReader.ReadDomainMatcher | crates/sing-box-core/src/srs.rs:161-201 | returns the rewritten lists of the trie read, or fails, as specified |
| RuleSetReader.BinaryReader.ReadDefaultRule | crates/sing-box-core/src/srs.rs:84-134 | reads items until the final one, each replacing its field, as specified |
| RuleSetReader.BinaryReader.ReadRule | crates/sing-box-core/src/srs.rs:75-82 | reads a rule of either kind unless it is nested too deeply |
| RuleSetReader.BinaryReader.ReadLogicalRule | crates/sing-box-core/src/srs.rs:141-159 | reads mode, counted subrules and inversion, as specified |
| RuleSetReader.Decode | crates/sing-box-core/src/srs.rs:63-73 | the whole payload is read and nothing may follow it |
| RuleSetEncoding.UvarintLeb128 | crates/sing-box-core/src/srs.rs:384-397 | decoding the LEB128 form of any u64 returns it and uses exactly its bytes |
| RuleSetEncoding.IpSetBack | crates/sing-box-core/src/srs.rs:257-283 | reading a written IP set gives the blocks of its ranges |
| RuleTrees.TreeBack | crates/sing-box-core/src/srs.rs:75-159 | decoding a written rule tree gives its meaning and stops right behind it, exactly when it is nested at most 64 deep |
| RuleTrees.PayloadBack | crates/sing-box-core/src/srs.rs:63-159 | the same for a whole payload: all of it is used |
| RuleTrees.ItemNumbers | crates/sing-box-core/src/srs.rs:20-44 | the octet in front of each supported item, as a number: reading it with the item's bytes sets exactly that condition |
| RuleTrees.OtherNumbers | crates/sing-box-core/src/srs.rs:110-132 | 0xff ends a rule and sets its inversion; every other number is refused |
| RuleTrees.IpSetAccepts | crates/sing-box-core/src/srs.rs:257-329 | through decoding, splitting and matching, an address is accepted exactly when an encoded range of its family holds it |
| AnyTlsPadding.ReadEncoded | crates/sing-box-protocol-anytls/src/lib.rs:1512-1544 | reading an encoded frame returns it and leaves what follows |
| AnyTlsPadding.ReadAllAppend | crates/sing-box-protocol-anytls/src/lib.rs:1533-1544 | reading is independent of where the bytes are cut |
| AnyTlsPadding.AppendWaste | crates/sing-box-protocol-anytls/src/lib.rs:1497-1510 | adds whole waste frames until the record is at most its target and less than 7 bytes short |
| AnyTlsPadding.WasteOctets | crates/sing-box-protocol-anytls/src/lib.rs:1497-1528 | a waste frame is command 0, stream 0, its length and zeros |
| AnyTlsPadding.FrameWriter.WritePaddedFrame | crates/sing-box-protocol-anytls/src/lib.rs:1454-1495 | for every scheme, draw and scheme change, the peer's useful frames are those queued, in order; what goes out is exactly the records made for the packet's instructions up to the first check at which their targets reach the packet's size, and then what they leave of the packet; a broken write ends inside them; an oversized frame is refused unwritten |
| AnyTlsPadding.FrameWriter.Pad | crates/sing-box-protocol-anytls/src/lib.rs:1471-1490 | what is written are exactly records made for the range instructions in order, the last one perhaps in part when the transport breaks; each target lies between its bounds and each record is at most its target and less than 7 bytes short; waste starts only when the packet is complete; before every check passed the targets add up to less than the packet, and it stops early exactly at a check where they no longer do |
| AnyTlsPadding.PeerView | crates/sing-box-protocol-anytls/src/lib.rs:1454-1544 | what a peer reads from any part received is a prefix of the frames queued, and all of them once everything arrived |
| SessionPool.EveryState | crates/sing-box-protocol-anytls/src/lib.rs:393-485 | the pool invariant holds in every state of every interleaving of connectors, streams, closing and the reaper |
| SessionPool.LiveSession | crates/sing-box-protocol-anytls/src/lib.rs:1102-1361 | in a live session the open streams are at most the counter, which is at most 1 and equals reservations, open streams and removals under way; opening never displaces a stream, even after stream numbers wrap |
| SessionPool.LoweredOnce | crates/sing-box-protocol-anytls/src/lib.rs:1355-1361 | however many removals race for a stream, the counter goes down for it at most once, and exactly once when its removal is complete in a live session |
| SessionPool.ReaperSparesUsed | crates/sing-box-protocol-anytls/src/lib.rs:398-422 | a session the reaper has picked, up to the moment it closes it, is closed already or has no reservation and no stream, and can get none |
| SessionPool.ReapPass | crates/sing-box-protocol-anytls/src/lib.rs:401-416 | the counting loop and the retain loop compute the specified kept and retired sessions |
| SessionPool.PassCounts | crates/sing-box-protocol-anytls/src/lib.rs:401-416 | the pass retires every expired idle session, unless the count reaches the minimum first |
| SessionPool.PassDivides | crates/sing-box-protocol-anytls/src/lib.rs:401-416 | it drops every closed session, loses no other, and retires only live, idle, expired ones |
| SessionPool.MinIdleKept | crates/sing-box-protocol-anytls/src/lib.rs:401-416 | on one view of the pool: exactly when the minimum number of idle sessions is kept, namely no closed session counted as idle, or too few sessions or expirations for it to matter |
| SessionPool.ReapKeepsMinimum | crates/sing-box-protocol-anytls/src/lib.rs:398-416 | with everything else going on between counting and judging: of the sessions counted as idle the minimum, or all, are left idle in the pool, less those of them that were closed |
| SessionPool.ClosedCountsAsIdle | crates/sing-box-protocol-anytls/src/lib.rs:401-416 | a closed session beside the only live idle one makes the pass retire that one though one was to be kept |
| SessionPool.FiledStreams | crates/sing-box-protocol-anytls/src/lib.rs:1355-1361 | a removal takes exactly the open streams with its number on the wire out of the map |
| SessionPool.AcquireDrops | crates/sing-box-protocol-anytls/src/lib.rs:460-463 | looking for a session may drop all closed ones from the pool and never drops an open one |
| SessionPool.Used | crates/sing-box-protocol-anytls/src/lib.rs:1102-1361 | the steps of a stream exist and do what they say: a reserved session takes a stream, removes and counts it down, and is idle again with that stream behind it |
| SessionPool.FoundAgain | crates/sing-box-protocol-anytls/src/lib.rs:460-485 | a connector can take any idle open session from the pool |
| SessionPool.Reaped | crates/sing-box-protocol-anytls/src/lib.rs:393-422 | with two expired idle sessions and one to be kept, the pass retires and closes the first and leaves the second in the pool |
| RuleSetMeaning.LeafMeant | crates/sing-box-core/src/router.rs:907-957 | a compiled rule matches a session exactly when the encoded ranges, keys, ports and networks of its items say so; it is empty exactly when they are. The keys speak through their rewritten lists, always, and for themselves (`raw`) when undotted plain suffixes are shadowed and doubly dotted ones covered |
| RuleSetMeaning.TreeMeant | crates/sing-box-core/src/router.rs:762-803 | the same for compiled rule trees with and, or and inversion, with the keys read in the same two ways |
| RuleSetMeaning.TreeCompiles | crates/sing-box-core/src/router.rs:762-786 | a rule tree compiles exactly when its networks are tcp or udp, its port spans parse, no nested rule is without conditions and no logical rule empty |
| RuleSetMeaning.SetMeant | crates/sing-box-core/src/router.rs:582-605 | a compiled rule set matches exactly when one of its rules accepts, with the keys read in the same two ways; a rule without conditions at the top accepts nothing, inverted or not |
| RuleSetMeaning.SetCompiles | crates/sing-box-core/src/router.rs:582-605 | a rule set compiles exactly when its rules do; at the top a rule without conditions is left out instead |
| RuleSetMeaning.PayloadMeant | crates/sing-box-core/src/router.rs:562-605 | from the bytes of a binary rule set to its answer for a session: it loads exactly when its rules are nested at most 64 deep and compile, and then matches exactly the sessions the written rules accept, with the keys read in the same two ways |
| SessionConditions.Conjunction | crates/sing-box-core/src/router.rs:892-957 | a matcher matches exactly when each of its conditions alone does, and an inverted one exactly when some condition does not |
| SessionConditions.InboundCondition | crates/sing-box-core/src/router.rs:930 | an inbound list alone: empty, or the session's inbound is one of it |
| SessionConditions.NetworkCondition | crates/sing-box-core/src/router.rs:931 | a network list alone: empty, or the session's network is one of it |
| SessionConditions.UserCondition | crates/sing-box-core/src/router.rs:932-936 | a user list alone: empty, or the session has a user and it is one of the list |
| SessionConditions.DomainCondition | crates/sing-box-core/src/router.rs:914-929 | domains and keywords alone: the host is one of the whole hosts, under one of the suffixes, or has a part that is a keyword, up to ASCII case |
| SessionConditions.SourceBlockCondition | crates/sing-box-core/src/router.rs:938-943 | source blocks alone: the address the source stands for has the leading bits of one of them |
| SessionConditions.BlockCondition | crates/sing-box-core/src/router.rs:947-949 | destination blocks alone: the host is an address with the leading bits of one of them |
| SessionConditions.PrivateConditions | crates/sing-box-core/src/router.rs:944-952 | private or not, source or destination: a missing address is neither |
| SessionConditions.PortConditions | crates/sing-box-core/src/router.rs:953-956 | port lists alone: the port is one of the list or in one of the ranges, bounds included |
| SessionConditions.RuleSetCondition | crates/sing-box-core/src/router.rs:897-903 | rule sets alone: one of those named is loaded and has a rule that matches |
| SessionConditions.LogicalRule | crates/sing-box-core/src/router.rs:788-803 | a logical rule asks for all of its rules or for one of them, and its inversion flips the answer |
| SessionConditions.MappedAddress | crates/sing-box-core/src/api.rs:139-148 | exactly the IPv6 addresses of ten zero octets and two of ones stand for the IPv4 address in the last four |
| SessionConditions.PrivateIpv4 | crates/sing-box-core/src/router.rs:1072-1078 | which IPv4 addresses are private, by their octets |
| SessionConditions.PrivateIpv6 | crates/sing-box-core/src/router.rs:1079-1089 | which IPv6 addresses are private, by their octets |
| SessionConditions.RangeMeaning | crates/sing-box-core/src/router.rs:989-1008 | a port range is read exactly from two decimal ports around a colon, in order, where a missing one is 0 or 65535 |
| Routing.Select | crates/sing-box-core/src/router.rs:179-219 | the loop over mutable session and rules equals the recursive left-to-right specification, with the rule sets as each rule finds them; when a rule matches is SessionConditions.Conjunction |
| Routing.RuleAccepted | crates/sing-box-core/src/router.rs:319-361 | exactly which configured rules become which rules: with conditions, and with an action that says all it needs |
| Routing.FirstDecides | crates/sing-box-core/src/router.rs:179-219 | the outcome is that of the first terminal rule that matches the session as rewritten by the matching rewrite rules before it; with none it is the final outbound |
| Routing.OnlyDestination | crates/sing-box-core/src/router.rs:179-219 | routing changes the destination and nothing else besides the normalized source |
| Routing.AllowThenReject | crates/sing-box-core/src/router.rs:179-219 | with an allow rule and a later reject rule on an inbound, its sessions reach the allowed outbound exactly when the rule set has them and never fall through to the final outbound |
| Routing.Build | crates/sing-box-core/src/router.rs:58-117 | succeeds exactly when the final outbound, every rule's outbound and every rule set named exist and every rule compiles; an error names something that is wrong |
| Routing.ChosenIsGrounded | crates/sing-box-core/src/router.rs:69-105 | whatever the rule sets say, a chosen outbound was checked at build time |
| Routing.Connect | crates/sing-box-core/src/router.rs:221-233 | a session without outbound is routed and never meets an unregistered outbound; one with an outbound is passed on unchanged |
| RemoteRuleSets.Prepare | crates/sing-box-core/src/router.rs:531-556 | the one request is made without a tag and its reply must bring content that compiles; "not modified" is an error |
| RemoteRuleSets.Update | crates/sing-box-core/src/router.rs:673-715 | each request carries the tag of the content accepted last, and after each reply the rules in force are those of the content accepted last then, whatever the replies |
| RemoteRuleSets.Agreement | crates/sing-box-core/src/router.rs:673-715 | with a server that is honest about its tag, the rules in force are those of the content held after each unchanged or accepted reply, in every run, exactly when no content that can be in force shares its tag with different content held later |
| OutboundManagers.OutboundManager.Add | crates/sing-box-core/src/manager.rs:23-33 | registers a new non-empty tag at the end, or changes nothing and says why |
| OutboundManagers.OutboundManager.Ordered | crates/sing-box-core/src/manager.rs:39-73 | succeeds exactly when every dependency is registered and the graph is acyclic; the result is every outbound once, dependencies first; a missing dependency is the first in registration order; a circular one comes with the largest set that waits for itself |
| OutboundManagers.DeadlockIffCycle | crates/sing-box-core/src/manager.rs:67-70 | outbounds can wait for each other exactly when the dependency graph has a cycle |
| OutboundManagers.OrderedIsFree | crates/sing-box-core/src/manager.rs:46-71 | nothing that waits for itself can stand in an order that puts dependencies first |
| OutboundManagers.OutboundManager.StartAll | crates/sing-box-core/src/manager.rs:75-82 | an outbound is started only after its dependencies; the first failure ends the start |
| OutboundManagers.OutboundManager.CloseAll | crates/sing-box-core/src/manager.rs:84-94 | an outbound is closed before its dependencies; every one is closed and the first failure reported |
| ConnectionTasks.EveryState | crates/sing-box-core/src/tasks.rs:30-62 | the counter counts the running tasks, and a waiting joiner without a notification waits for a task that has yet to notify, in every interleaving |
| ConnectionTasks.NoLostWakeup | crates/sing-box-core/src/tasks.rs:42-61 | a joiner that waits while the count is zero has been notified or a finishing task is about to notify it |
| ConnectionTasks.ReturnedAtZero | crates/sing-box-core/src/tasks.rs:42-50 | a joiner returns only after a moment at which no task was running |
| ConnectionTasks.JoinWaitsForAll | crates/sing-box-core/src/tasks.rs:30-50 | whatever was spawned while a joiner had not returned has ended when it returns |
| ConnectionTasks.QuietRunEnds | crates/sing-box-core/src/tasks.rs:42-61 | without new tasks and joiners only a bounded number of steps is left |
| ConnectionTasks.JoinEnds | crates/sing-box-core/src/tasks.rs:42-61 | so every run without spawns ends, and when it can go no further every joiner has returned |
| ConnectionTasks.AnyMoment | crates/sing-box-core/src/tasks.rs:30-62 | tasks and joiners may come at any moment; a joiner that comes while a task runs waits, is notified at its end, looks again and returns |
| DnsNames.ReadDnsName | crates/sing-box-protocol-cloudflared/src/discovery.rs:231-262 | stops within 128 steps inside the packet with the name or error of the specification, and on success leaves the offset just behind the name's own bytes |
| DnsNames.ReadIffSpelled | crates/sing-box-protocol-cloudflared/src/discovery.rs:231-262 | the reader accepts exactly the names that labels and pointers (RFC 1035 section 4.1.4) spell out within the step limit |
| DnsNames.CompressionInvisible | crates/sing-box-protocol-cloudflared/src/discovery.rs:231-262 | a compressed name reads the same when written out plainly anywhere else |
| DnsNames.BuildDnsQuery | crates/sing-box-protocol-cloudflared/src/discovery.rs:160-178 | writes header, labels and type, or fails exactly when a label is empty or longer than 63 bytes |
| DnsNames.QueryReadsBack | crates/sing-box-protocol-cloudflared/src/discovery.rs:160-178 | the name in a query reads back unchanged up to dots at its end, exactly when it has at most 127 labels |
| DnsNames.QueryHeaderMeaning | crates/sing-box-protocol-cloudflared/src/discovery.rs:161-168 | the query's header octet by octet: the id, recursion desired, one question, no records |
| DnsNames.PointerBits | crates/sing-box-protocol-cloudflared/src/discovery.rs:231-262 | a pointer is two octets that begin with two one bits, and the other fourteen are where it points; a label's length begins with two zero bits (RFC 1035 section 4.1.4) |
| SrvResponses.ResponseHeader | crates/sing-box-protocol-cloudflared/src/discovery.rs:180-193 | a response is refused exactly for another id, a clear response bit or a code, read from their octets |
| SrvResponses.ServiceHeader | crates/sing-box-protocol-cloudflared/src/discovery.rs:204-210 | a record counts exactly when its octets say type 33, class 1 and more than six bytes of data |
| SrvResponses.Take | crates/sing-box-protocol-cloudflared/src/discovery.rs:264-269 | takes exactly the bytes asked for and moves the offset behind them, or fails and leaves it |
| SrvResponses.ParseSrvResponse | crates/sing-box-protocol-cloudflared/src/discovery.rs:180-229 | the walk over questions and answers computes the specified records or error |
| SrvResponses.ResponseMeaning | crates/sing-box-protocol-cloudflared/src/discovery.rs:180-229 | the records are those the response carries, however its names are compressed |
| SrvResponses.ResponseAccepted | crates/sing-box-protocol-cloudflared/src/discovery.rs:180-229 | a response is accepted exactly when there are questions and answers it carries |
| SrvResponses.SortMeaning | crates/sing-box-protocol-cloudflared/src/discovery.rs:227-228 | records come by rising priority and falling weight, none lost or invented, equal ones in arrival order |
| SrvResponses.OrderMeaning | crates/sing-box-protocol-cloudflared/src/discovery.rs:227-228 | being in order means that every record is of lower priority than each later one, or of the same and no less weight |
| JsonComments.StripJsonComments | crates/sing-box-core/src/json.rs:9-79 | fails exactly for an open block comment; the final text conversion cannot fail |
| JsonComments.StripMeaning | crates/sing-box-core/src/json.rs:20-75 | comments of the lexical grammar are blanked and everything else, string literals included, stays |
| JsonComments.AcceptedIffLexed | crates/sing-box-core/src/json.rs:20-77 | a text is accepted exactly when it follows the lexical grammar |
| JsonComments.Characters | crates/sing-box-core/src/json.rs:20-75 | the bytes of the grammar are those of the quote, slash, star, backslash, line breaks and space |
| JsonComments.StripPositions | crates/sing-box-core/src/json.rs:20-75 | length and line breaks keep their places; a byte stays or becomes a space |
| JsonComments.StripTwice | crates/sing-box-core/src/json.rs:20-75 | stripping twice is stripping once |
| JsonComments.StrippedStays | crates/sing-box-core/src/json.rs:9-79 | stripping a stripped text succeeds and gives it back |
| JsonComments.StripValid | crates/sing-box-core/src/json.rs:78-79 | stripping valid UTF-8 gives valid UTF-8 |

## Left out

- Sockets, TLS, HTTP upgrade, zlib and the task scheduler: foreign code; a payload is decoded from its decompressed bytes.
- Cryptography, REALITY, certificates and WebSocket accept keys: fixed arithmetic without an invariant of interest.
- Text of IP addresses and CIDR blocks: formatting and parsing are the standard library's and taken as inverse, so addresses are integers and a host carries the address its text stands for.
- Kinds and wording of rule-set decoding errors: a failed read is one result; where it fails is modelled.
- The final sorting of decoded string lists: they are sets, as the router only asks for membership.
- A random-number failure while a frame is being appended, which would leave a partial header in the buffer.
- Data frames after a Close and more than one Close: the source allows both, and nothing is claimed about them.
- WebSocketStreams.WebSocketStream.PollFlush: what the inner socket's own flush and shutdown do is only their result.
- WebSocketEndToEnd.Delivery: speaks about conversations without a Close, as the source promises no more once one side has sent it.
- SessionPool.LiveSession: closed sessions are not counted, because clearing a session resets its counter under removals that are still under way.
- SessionPool.ReapKeepsMinimum: one direction, because a session may also become idle or be closed after it was judged.
- DomainKeys.MeaningKept: for keys that use every character the second half may fail to be necessary, as they can list all hosts one by one.
- SessionPool.EveryState: putting a new stream into the map and looking it up again is one step, and retaining the open sessions of the pool is one step at its end.
- AnyTLS settings, heartbeats, server sessions and UDP over TCP: dispatch on commands without further state.
- ConnectionTasks.JoinEnds: every spawned task is polled at least once and ends in the end, as the source asks of its callers; memory ordering is sequential.
- Concurrent calls of the outbound manager: the engine adds and orders from one place.
- Routing.Build: the route rule's lists arrive parsed or failed, since their addresses are text.
- Routing.Select: a rule set named twice by one rule is read once; the session is a value that is handed back.
- RemoteRuleSets.Update: compiling content is a parameter, the loop runs for a given number of rounds, and a local file edited between its first read and its first fingerprint is not modelled.
- Source-format rule sets, query types, regular expressions and process items: decoded by foreign code or refused by the decoder.
- Parsing of durations, configuration merging, listen addresses, SOCKS addresses, NTP, the buffer pool and the other protocols: they would add only easy members.
