# Verified model of argonaut

argonaut runs beside an AWS Nitro Enclave. It bridges TCP and VSOCK connections in both
directions, delivers the boot configuration, keeps a managed block in the enclave's hosts
file, and answers attestation and randomness requests over a line protocol. This project
models those parts in Dafny and proves what they promise. `dafny verify dfyconfig.toml`
checks all of it.

Conventions. A `char` stands for one byte of a Go string, so lengths are byte lengths. White
space is the ASCII white space of Go's `unicode`. A backend of the NSM proxy is any function
from the calls it has received so far and the next call to a reply, which covers stateful
backends. The JSON decoder is a parameter. Reads, writes, buffer refills and dials choose
their outcome freely within the contracts of their Go interfaces.

| file | what it holds |
|---|---|
| `Text.dfy`, `Ipv4.dfy`, `Hex.dfy` | searching, splitting and trimming text; decimals and IPv4 text; hexadecimal |
| `Configs.dfy` | defaults and admission of a configuration |
| `Hosts.dfy` | stripping, merging and reading back the managed hosts block |
| `Routing.dfy` | from a host name through the hosts file and both listeners to the target |
| `Bridge.dfy`, `BridgeTime.dfy`, `CopyLoop.dfy` | the bidirectional bridge as a state machine, its idle deadlines, and the copy loop that runs its steps |
| `Listener.dfy` | accept loops, connection limits, peer check and connection ids |
| `Slots.dfy` | accept loops together with the timed bridges their goroutines run |
| `Streams.dfy`, `Delivery.dfy` | readers and writers; writing everything and reading up to a limit |
| `NsmFraming.dfy`, `NsmProtocol.dfy`, `NsmWire.dfy`, `NsmService.dfy`, `NsmClient.dfy` | line framing, the two front ends, response lines, the request loop, and the protocol end to end |
| `Cbor.dfy` | the attestation request and the device's size limit |

Findings, each stated exactly by a lemma below:

- A merge is replaced by every later merge if and only if stripping leaves no begin marker.
  Cutting one block out can itself form a marker (`Hosts.RemergeIff`, `Hosts.MarkerAcrossCut`).
- Whether `line_too_large` is written as JSON can depend on the reader's buffer size, but only
  when more than 2^20 blanks precede an opening brace (`NsmFraming.OversizedVerdict`,
  `NsmFraming.VerdictDependsOnBuffer`). It can also differ from how the handler would have
  dispatched the record, when a vertical tab or form feed precedes the brace
  (`NsmService.ClassifierMatchesDispatch`).
- A literal `-` is an absent field on a legacy line and bad hex in a JSON field
  (`NsmProtocol.DecisionsAgree`). Go also splits legacy lines at Unicode spaces such as U+0085
  and U+00A0, so a field holding one is bad hex in JSON and a line with the wrong number of
  words on the legacy side. This finding, like the one on dispatch above, is exact for lines
  whose only white space is ASCII.
- Fields within their own limits can still exceed the message limit of the device, and the
  client then sees only `backend_error` (`Cbor.FieldLimitsDoNotSuffice`, `Cbor.SubmitExactly`).
- A last line cut off by a read fault, and only such a line, gets no response
  (`NsmService.ResponsePerRecord`).

## Model

| member | source | states |
|---|---|---|
| Configs.ValidateEndpoint | config.go:232-261 | no error exactly for endpoints meeting the declarative rules on host, ports and local address |
| Configs.FirstViolationReported | config.go:232-292 | a bad endpoint is rejected for the first rule it breaks, in the order of the checks |
| Configs.ValidateHostname | config.go:270-292 | no error exactly for hosts in the alphabet whose labels all have 1 to 63 characters |
| Configs.HostAlphabet | config.go:271-279 | the characters allowed in a host are letters, digits, dot, hyphen and underscore |
| Configs.LoopbackTexts | config.go:254-258 | the addresses allowed are exactly the canonical texts 127.b.c.d |
| Configs.Config.Normalize | config.go:156-168 | in place: an empty schema version becomes v0.1, ports not given become 443, everything else stays |
| Configs.NormalizedCompletes | config.go:156-168 | the normalised configuration is the only one completed in that way |
| Configs.NormalizedIdempotent | config.go:142-174 | normalising again, as validation does after parsing, changes nothing |
| Configs.ValidateConfig | config.go:170-230 | accepts exactly the admissible configurations completed with those defaults; every error names what is wrong, a duplicate its first failing index and its earlier match |
| Configs.AdmissibleInNumbers | config.go:175-229 | admission in numbers: v0.1, at most 191 endpoints, ports 1 to 65535 for the mode, every endpoint valid, all pairs distinct |
| Configs.CheckEndpoints | config.go:204-229 | the three-map loop blames the first endpoint at fault, by the first check it fails |
| Configs.VerdictUnique | config.go:170-230 | one configuration and mode have exactly one verdict |
| Configs.MatchUnique | config.go:212-227 | the earlier match of a duplicate is unique |
| Configs.AddressMapStep | config.go:223-227 | the text key of a bind address is present exactly when an earlier listener has the same numeric address and port, explicit or generated |
| Configs.GeneratedAddress | config.go:263-268 | addresses generated for positions 0 to 190 are 127.0.0.64 to 127.0.0.254 |
| Configs.LocalIPParses | config.go:254-268 | the bind address of a valid endpoint is its own text where it has one, else generated, and a canonical IPv4 loopback address |
| Configs.AdmittedPortsUsable | config.go:156-252 | after admission every port is in 1..65535 and given values are kept |
| Ipv4.KeyIsNumeric | config.go:223-227 | two `ip:port` keys are equal exactly when numeric address and port are |
| Ipv4.FormatOfParse | config.go:254-258 | accepted address text is the one canonical spelling of its address |
| Text.LowerLetters | config.go:209 | lower-casing turns the 26 capital letters into their small ones and changes nothing else |
| Hosts.StripManagedHostsBlock | hosts.go:50-64 | the loop computes the specification of stripping |
| Hosts.StripExact | hosts.go:50-64 | a block closed by its first end marker and the line ends after it are cut out; the texts around it stay exactly |
| Hosts.StripUnclosed | hosts.go:55-58 | an unclosed block is cut to the end and one line feed is left |
| Hosts.StripUnmarked | hosts.go:51-54 | text without a begin marker is unchanged |
| Hosts.StripShapes | hosts.go:50-64 | every text with a begin marker has one of the two shapes above |
| Hosts.MergeHosts | hosts.go:21-48 | the code computes the specification of merging, or rejects naming the first invalid endpoint |
| Hosts.MergeExact | hosts.go:28-47 | merged output: the kept text trimmed or the localhost line, a blank line, the new block |
| Hosts.EntryAlphabet | hosts.go:37-39 | entries of valid endpoints hold no marker character and no line feed |
| Hosts.Remerge | hosts.go:21-64 | when no begin marker is left, a second merge replaces the first one's block completely |
| Hosts.RemergeIff | hosts.go:21-64 | the re-merge law holds for all endpoint lists if and only if no begin marker is left |
| Hosts.RemergeFails | hosts.go:21-64 | otherwise a long enough block survives or takes old text with it |
| Hosts.MarkerAcrossCut | hosts.go:50-64 | a concrete text whose stripping forms a new begin marker |
| Hosts.ReadBackOfMerge | hosts.go:34-47 | reading the merged file line by line recovers the ordered list of addresses and hosts |
| Hosts.MergedSamples | hosts.go:21-47 | two merged files in full |
| Routing.LookupOfMerge | hosts.go:34-47 | looking a name up in a merged file gives the kept lines' answer, else the address of the first endpoint with that name |
| Routing.OneListenerEach | main.go:293-302 | no two enclave listeners accept the same address and no two host listeners share a VSOCK port |
| Routing.EndToEnd | main.go:128-134 | a connection to an admitted endpoint's name, in any case, on its local port reaches exactly that endpoint's host and port |
| Bridge.CopyInvStep | main.go:491-501 | one step of a copy keeps delivered bytes an in-order prefix, chunk by chunk, through partial and failed writes |
| Bridge.InvStep | main.go:483-518 | every step of either goroutine, the waiter or the closing code keeps the whole invariant |
| Bridge.DeliveredInOrder | main.go:483-518 | in every interleaving delivered bytes are a prefix of those read, the count is their number, and a clean end delivered everything |
| Bridge.HalfCloseSafe | main.go:491-501 | writes only to open write sides, reads only from open connections, half-close only after its own direction ended |
| Bridge.SidesAfterRun | main.go:491-501 | each write side is shut down exactly by the end of the direction towards it, each connection closed exactly by its own close |
| Bridge.FailedDial | main.go:226-233 | a failed dial is followed by closing the accepted connection and nothing else |
| Bridge.NothingClosedEarly | main.go:226-238 | neither connection is closed before both directions have ended and reported, the dialed one first |
| Bridge.NoWriteAfterHalfClose | main.go:491-501 | in every run nothing is written to a write side once it is shut down |
| Bridge.OtherDirectionUndisturbed | main.go:491-501 | nothing one direction does takes a step away from the other |
| Bridge.SendNeverBlocks | main.go:489-501 | a goroutine's send never finds the channel full |
| Bridge.NoDeadlock | main.go:483-518 | until everything is closed some actor has a step |
| Bridge.RunBounded | main.go:483-518 | a measure falls with every step |
| Bridge.Termination | main.go:241-257 | runs are bounded by the source lengths, and one that cannot go on has closed what it opened |
| Bridge.Collect | main.go:507-517 | the loop over the two outcomes computes the collected result |
| Bridge.ResultIsPerDirection | main.go:476-517 | each direction's count and error land in its own fields whichever reported first; the bridge's error is the first direction's if it has one, else the second's |
| Bridge.DirectionsIndependent | main.go:483-501 | in any interleaving each direction behaves as if it ran alone |
| Bridge.ScheduleIndependent | main.go:483-518 | the result does not depend on the interleaving or the order of arrival |
| Bridge.CleanRunsDeliverAll | main.go:483-518 | if no peer fails every complete run delivers both streams whole and reports no error |
| CopyLoop.IoCopy | main.go:491-501 | every chunk read is written once, in order; the copy stops at the first failed or short write, failed read or end of stream, its error is exactly that event, and it takes the steps of the state machine for these reads and writes |
| CopyLoop.VerdictUnique | main.go:491-501 | the reads and writes of a copy leave one possible verdict |
| BridgeTime.TimedInvAct | main.go:535-555 | an action leaves every pending operation with a deadline one timeout after it began |
| BridgeTime.TimedInvWait | main.go:535-555 | letting time pass keeps the timed invariant |
| BridgeTime.QuietBridgeEnds | main.go:535-555 | with a positive timeout a direction that completes nothing for longer than the timeout has ended; a bridge quiet both ways is done and closed |
| BridgeTime.QuietAtMostTimeout | main.go:547-555 | no more than one timeout passes over any stretch of events in which a pending direction takes no step, whatever the other does |
| BridgeTime.DeadlineFromOwnOperation | main.go:547-555 | the deadline of a pending operation is one timeout after the direction's own last operation, told from the events alone |
| BridgeTime.WaitsExactly | main.go:547-555 | while both directions wait, time can pass exactly until one of them has been quiet for the timeout |
| BridgeTime.WithoutTimeoutQuietForever | main.go:535-540 | a timeout of zero sets no deadlines, and a bridge of silent peers then stays open for any length of time |
| BridgeTime.TimeOrAction | main.go:535-555 | deadlines never stop the clock for good |
| BridgeTime.DeadlineFires | main.go:547-555 | at its deadline an operation cannot wait longer, and it can fail |
| Listener.ConnectionLimiter.TryAcquire | main.go:646-653 | takes a slot exactly when one is free |
| Listener.ConnectionLimiter.Release | main.go:655-657 | gives one slot back |
| Listener.ConnectionIds.Next | main.go:659-661 | the next id, modulo 2^64 |
| Listener.InvStep | main.go:197-218 | every step of every accept loop and bridge keeps the books balanced |
| Listener.SlotsAndConnectionsBalance | main.go:318-339 | slots held are running bridges plus one about to start, never above the limit; accepted connections are all accounted for |
| Listener.LimitIsExact | main.go:171-175 | a connection is turned away exactly when the limit of running bridges is reached |
| Listener.WrongPeersNeverServed | main.go:203-207 | a peer with the wrong CID never takes a slot and is never bridged |
| Listener.PeerCheckExactly | main.go:203-208 | the loop goes on to ask for a slot exactly for a matching peer |
| Listener.ExactlyWrongPeersRejected | main.go:324-329 | over every run the connections rejected for their peer are exactly those accepted from wrong peers |
| Listener.MatchingPeerIsBridged | main.go:197-218 | a matching peer of a listener with a free slot gets a bridge and takes the slot |
| Listener.NothingStuck | main.go:197-218 | no accept loop and no bridge goroutine is ever without a step |
| Listener.ReleaseNeverBlocks | main.go:176-181 | a returned bridge can always give its slot back |
| Listener.IdsRepeatOnlyByWrapping | main.go:659-661 | ids are pairwise distinct until the 64-bit counter wraps, and equal only by wrapping |
| Slots.InvStep | main.go:165-183 | every step of the accept loops, the bridges they start and the clock keeps the joint invariant |
| Slots.LoopsRunAsByThemselves | main.go:165-183 | the accept loops of a process take the runs of the listener model, unhindered by bridges and clock |
| Slots.BridgesRunAsByThemselves | main.go:176-181 | each bridge of a process is in a state the timed bridge model reaches by itself |
| Slots.SlotGivenBack | main.go:176-181 | with a positive timeout, a dialed bridge quiet both ways for longer than the timeout has given its slot back |
| Slots.SlotsHeldByActiveBridges | main.go:638-661 | the slots held are at most the bridges still dialing or active within the timeout, plus one about to start |
| Slots.TimeOrGoroutine | main.go:165-183 | whenever time cannot pass, some goroutine can take a step of its own |
| Delivery.WriteAll | main.go:567-579 | fails exactly when a write failed or took nothing, at the first such write; success writes everything under any short writes, failure only a prefix |
| Delivery.ReadAllLimited | config.go:294-303 | fails exactly when a read failed, else the whole stream when within the limit and an error otherwise, reading at most one byte past the limit |
| Delivery.Deliver | main.go:143-152 | what was sent is what is received, within the limit; after a sender failure no more than a prefix |
| NsmFraming.Reader.ReadSlice | nsm.go:593 | contract of the buffered reader for every buffer size and every arrival of the stream |
| NsmFraming.DiscardRemainder | nsm.go:617-621 | consumes exactly the rest of the record |
| NsmFraming.ReadNsmLine | nsm.go:590-615 | consumes exactly one record and classifies it as specified; what it keeps of it, in a buffer that never exceeds 2^20 bytes, is the whole record or, of an oversized one, the whole reader buffers below the limit |
| NsmFraming.LineBuffer.Append | nsm.go:598 | a fragment is added only where the limit leaves room for it |
| NsmFraming.NsmLineLooksJSON | nsm.go:623-635 | over several parts in turn, the verdict on their concatenation |
| NsmFraming.RecordsUnfold | nsm.go:590-615 | the record read is the first of the simple split at line feeds |
| NsmFraming.CrossingPoint | nsm.go:594-597 | the part seen when the limit is crossed is fixed by the buffer size |
| NsmFraming.OversizedVerdict | nsm.go:593-635 | the JSON verdict is that of the whole record exactly unless the brace lies beyond the part seen |
| NsmFraming.OversizedVerdictIndependent | nsm.go:593-635 | independent of the buffer when the first non-blank byte is among the first 2^20 + 1 or there is none |
| NsmFraming.VerdictDependsOnBuffer | nsm.go:593-635 | otherwise the default buffer of 4096 bytes and one of 8192 can disagree |
| NsmService.ServeRecord | nsm.go:557-579 | one record, one response line, or the end |
| NsmService.NsmMode | nsm.go:545-580 | the loop writes exactly the responses specified over the simple split, for every buffer size; ClientReadsResponses says what those are |
| NsmService.ResponsePerRecord | nsm.go:557-579 | one response for each record, in order, from the calls before it; only a cut-off last record has none |
| NsmService.ClientReadsResponses | nsm.go:545-621 | the output splits into one line per record: for an oversized one the literal refusal, JSON exactly when the part seen looks like JSON, without a call; for any other a line that parses to the answer to that record |
| NsmService.BufferSizeIrrelevant | nsm.go:590-635 | the whole service does not depend on the buffer size unless blanks fill the limit |
| NsmService.ClassifierMatchesDispatch | nsm.go:331-341 | the classifier of oversized lines agrees with the dispatch exactly unless a vertical tab or form feed precedes a brace |
| NsmService.HandleNsmLine | nsm.go:331-341 | returns one line that parses back to the answer, and either refuses without a backend call or tells the reply to the one it made |
| NsmProtocol.Answer | nsm.go:331-341 | every answer is well formed, in the form its line was dispatched to, and is either a refusal without a backend call or the reply to exactly one call |
| NsmProtocol.ProtocolError | nsm.go:526-541 | a plain reason passes unchanged, any other becomes backend_error |
| NsmProtocol.IdAndCodeAlphabets | nsm.go:509-541 | the characters of ids and of plain codes, and ids of 1 to 64 characters |
| NsmProtocol.LegacyLineReads | nsm.go:416-475 | tokenising a legacy line gives its words back and decides on them |
| NsmProtocol.DecisionsAgree | nsm.go:373-460 | both front ends decide alike exactly when no literal dash matters, for fields without ASCII white space |
| NsmProtocol.FrontEndsAgree | nsm.go:358-475 | a legacy line and the JSON record get the same outcome from the same backend call |
| NsmWire.PlainNeedsNoEscape | nsm.go:408-414 | ids, codes and hex need no JSON escaping |
| NsmWire.ResponseForms | nsm.go:351-475 | the exact text of every response line, legacy or JSON |
| NsmWire.ParseOfRender | nsm.go:351-475 | a response line has no line feed and parses back to its response |
| NsmWire.FramesRoundTrip | nsm.go:576-578 | splitting the output at line feeds and parsing recovers all responses in order |
| NsmClient.SessionEndToEnd | nsm.go:545-621 | for any sequence of requests on either front end and any buffer size, the backend is asked exactly the client's calls in order, and each output line parses to the reply to its request |
| NsmClient.AttestationEndToEnd | nsm.go:358-460 | the backend gets exactly the client's bytes, once, and the client reads the backend's, on either front end |
| NsmClient.RandomEndToEnd | nsm.go:393-470 | the same for random bytes |
| NsmClient.JSONRequestExactly | nsm.go:373-405 | every decoded request with a valid id: one call carrying the bytes of its fields and the reply to it, or which refusal without a call |
| NsmClient.LegacyLineExactly | nsm.go:416-475 | the same for every legacy line with a valid id, by the number and kind of its words |
| NsmClient.LegacyLineRefusals | nsm.go:426-474 | the backend is asked exactly for the two verbs with the right number of words, all fields in hex |
| NsmClient.LinesWithoutId | nsm.go:331-424 | what empty lines, undecodable records and invalid ids get, the backend not being asked |
| Hex.DecodeOfEncode | nsm.go:391 | encoded bytes decode to themselves and are lower case |
| Hex.EncodeOfDecode | nsm.go:477-500 | exactly even-length hex text decodes, and encodes back to its lower case |
| Hex.DigitsInOrder | nsm.go:477-500 | the value of each digit, letters in either case, and no other character |
| Hex.ByteDigits | nsm.go:391 | each byte is written as two lower-case digits, the high one first |
| Cbor.ValidateAttestationRequest | nsm.go:182-196 | no code exactly when the key is present and every field within its limit |
| Cbor.FirstFaultReported | nsm.go:182-196 | each of the four codes is reported exactly when its fault is the first in the order of the checks |
| Cbor.RoundTrip | nsm.go:198-219 | the CBOR subset decodes to what was encoded and leaves what follows |
| Cbor.EncodedForms | nsm.go:198-219 | the bytes of every encoded item, tag and length in numbers |
| Cbor.MessageMeaning | nsm.go:198-219 | in every iteration order the message decodes to one map under Attestation with the three keys and values, null exactly when absent |
| Cbor.MessageSize | nsm.go:198-219 | in every iteration order it is 41 bytes longer than its three values |
| Cbor.SubmitExactly | nsm.go:97-137 | the device is called exactly when fields and total size fit; what the client sees otherwise |
| Cbor.FieldLimitsDoNotSuffice | nsm.go:37-44 | two fields at their limits make a request the device check rejects |

## Left out

- Sockets, VSOCK and DNS: dialing and accepting are events with free outcomes.
- Host names that are themselves IP addresses: a client would not look them up in a hosts file, so the routing result speaks of looked-up names.
- JSON decoding: requests and configurations are taken as decoded values with their field-was-set flags; rejection of unknown fields and trailing values is the decoder's.
- Decoding of the device's CBOR response and general CBOR: only text, byte strings, maps and null with lengths below 2^16.
- Writing the hosts file atomically: there is no file-system model.
- White space beyond ASCII: Go also trims and splits at Unicode spaces, so statements about trimming, words and dispatch speak of lines whose only white space is ASCII.
- Logging, usage, environment variables and process exit: the connection limit and the idle timeout are parameters.
- Reads that return no byte and no error, and writes that report more bytes than given: excluded by the interface contracts the bridge relies on.
- Copying inside the kernel, which Go may choose when no idle timeout wraps the connections: only the generic copy loop is modelled.
- The 30-second dial timeout: a dial may succeed or fail at any time.
- Accept loops and bridge goroutines are a state machine over their atomic steps; as sequential code they would not show the interleavings.
