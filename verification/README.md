# WireLab in Dafny

WireLab is a software Layer 2 switch with a closed loop: frames are analysed, anomalies detected, policies
decide, and leased faults contain the offending ports until the operator's own configuration is given back. This
project models its four cores in Dafny and proves what they promise over all inputs and all runs:

* **The codecs.** The pcapng writer and reader (draft-ietf-opsawg-pcapng, sections 3.1, 3.5 and 4.1 to 4.4), the
  JSON control protocol (section 7 of RFC 8259; UTF-8 by section 3 of RFC 3629), its newline framing with bounded
  outboxes, and the topology file with its printer. Reading is the inverse of writing, exactly where it is.
* **The enforcement loop.** The fault engine and its shaper, the topology and its controller, the sliding-window
  detector, the first-match policy engine, the leased enforcer, and the pipeline that sequences them. In every run a
  port shows the operator's configuration, or that configuration under the overlay of its lease.
* **The analysis.** Frame generation, packed batches, the parser, the grouping in place, the learning aggregator and
  the benchmark that slices a run. The counters depend on the traffic alone.
* **The dataplane and the control steps.** The forwarding loop with its delayed copies, the supervisor that binds
  senders and batches frames, and the control service with its numbered events.

Each file of the source is a module of the same name, or a few. A component that works by changing state is a class
or a method with loops, proved equal to a specification function on values (`ReadPcapng`, `Run`, `Extract`, `Merged`,
`TotalsOf`, `PlacedAll`, `RequestFrom`, `ParseYaml`); the lemmas are about those functions and about whole runs of
them. Characters stand for bytes, words are integers in range with every truncation written out, time points are
integers in nanoseconds. Where the specification function follows the loop closely, the method has no row of its own
and the rows name what is proved about the function: so for the loops `PcapReader.FromPcapngBytes` and
`ReadTimestampResolution`, the cursor methods of `JsonScannerModel.JsonScanner`, `ControlParser.ParseRequest` and
`ParseReply`, `Framing.TakeMessages` and `TakeMessage`, the methods of `FaultEngineModel.FaultEngine` and
`TopologyControllerModel.TopologyController`, `PolicyEnforcerModel.PolicyEnforcer.Apply` and `ReleaseExpired`, and
`TopologyYaml.TopologyYamlParser.Parse` and `SaveTopology`. The clock, the network and the order of a hash table are
inputs, so a result holds for every choice of them. What a specification function computes is pinned down apart from it:
the lemmas named `...Exactly`, in `PcapRecords`, `FrameBytes`, `DetectorRules`, `PortEnforcement`, `AnalysisTables`,
`Scenarios`, `Forwarding`, `ControlRequests`, `JsonGrammar`, `ServiceRules` and `YamlDocuments`, say it by places, counts,
fields and bytes.

## Findings

Where the code does less than its surroundings suggest, the model follows the code; there is an input that shows it,
and the exact condition under which the code does keep the promise.

| promise | source | what holds instead | shown by |
|---|---|---|---|
| one capture behind another reads as both | src/pcap.cpp:348, src/pcap.cpp:390 | a Simple Packet Block is cut by the largest snaplen of the whole file so far | `PcapStreams.ConcatenationExactly`, `CutByEarlierFile` |
| sending times are exact | src/fault_engine.cpp:135 | 64-bit sums wrap for extreme rates and sizes | `Shaper.TransmissionTimeExactly`, `FastLineWraps` |
| every star is accepted as a topology | src/topology.cpp:10 | two hosts with NUL characters in their names can share a link key | `TopologyModel.AcceptsExactly`, `NulCollides` |
| a release leaves what the operator configured last | src/policy_enforcer.cpp:193 | what was configured before the lease comes back | `Enforcement.OperatorWriteLost` |
| leases survive a topology load | src/control_service.cpp:90 | loading clears every fault, but only a session forgets the leases | `Enforcement.ReloadMustForget` |
| the order of decisions does not matter | src/policy_enforcer.cpp:147 | not for the enforced kind, but for the expiry, and so with the default leases | `EnforcementHistory.ExpiryDependsOnOrder`, `DefaultsDependOnOrder` |
| a broadcast reaches every station | src/vswitch.cpp:202 | the address lookup comes first, so one frame from the broadcast address diverts all broadcasts | `VSwitchModel.BroadcastReachesAll`, `BroadcastToOne` |
| a request comes back unchanged | src/control_protocol.cpp:895 | durations are printed in milliseconds and read as unsigned | `ControlProtocolModel.RoundTripExactly`, `NanosecondIsLost` |
| framed messages come back unchanged | src/control_server.cpp:159 | empty messages vanish, and one carriage return at the end of a message | `Framing.RecoveredExactly`, `LostInFraming` |
| a saved topology comes back | src/session.cpp:49 | the printer escapes, the reader does not unescape and splits at every comma | `YamlRoundTrip.SavedComesBack`, `BackslashDoubles` |
| every generated frame is valid | src/traffic_generator.cpp:232 | a frame between 14 and 33 bytes is malformed IPv4, and one over 65549 bytes has random bytes for a header; any between them is valid | `TrafficGenerator.ShortFramesAreMalformed`, `LargeFramesAreRandom`, `FramesParse` |
| malformed and classified packets are disjoint | src/packet_analyzer.cpp:364 | a malformed packet with addresses is counted as both | `TrafficSums.DisjointExactly`, `Benchmark.ShortFramesCountTwice` |

## Model

| member | source | states |
|---|---|---|
| PcapWriter.RoundTrip | src/pcap.cpp:466-554 | The file that create and any accepted writes produce reads back as exactly those records in order: nanosecond timestamps, frame bytes and wire lengths, whatever the comments, for every interface name a length field can hold |
| PcapWriter.PcapNgWriter.Write | src/pcap.cpp:510-554 | A write appends exactly one packet block with the frame's first `captured` bytes, or fails with the source's error for a null or oversize frame and leaves stream and count alone |
| PcapWriter.ByteBuffer.CloseBlock | src/pcap.cpp:154-162 | Closing a block overwrites only the length field behind its type and repeats the length, modulo 2^32, after everything written |
| PcapStreams.ReadsEncoded | src/pcap.cpp:283-419 | Reading any encodable list of blocks, of any mix of sections and byte orders, too short blocks and dishonest lengths included, goes block by block and stops at the first one that is refused |
| PcapRecords.EnhancedExactly | src/pcap.cpp:352-380 | After any accepted blocks an enhanced packet is refused exactly when it claims over 262144 bytes, more bytes than its block has, or an interface its section does not have; otherwise it adds one packet, at the time its ticks are by the if_tsresol of its own interface or microseconds: times the power of ten modulo 2^64, or the floor by a power of ten or two; with its lengths, standing in the file where its frame stands |
| PcapRecords.SimpleExactly | src/pcap.cpp:381-404 | A simple packet needs an interface in its section; it has time zero and is cut at the largest snaplen of any interface in the file so far, and is refused exactly when that is over 262144 bytes or more than its block has |
| PcapRecords.InterfaceExactly | src/pcap.cpp:331-351 | An interface is taken exactly when its link type is Ethernet; it changes no packet, and the capture's snaplen and resolution flag are those of all interfaces so far |
| PcapRecords.PacketOfFile | src/pcap.cpp:283-419 | In every accepted file each enhanced packet is the packet at its place among the blocks that carry one: stamped by its own interface, and its bytes are the frame's |
| PcapRecords.PrefixStands | src/pcap.cpp:283-419 | What follows in a file never changes a packet before it and never mends a fault |
| PcapRecords.AcceptedIsFramed | src/pcap.cpp:293-412 | Whatever bytes a file has, if it is accepted it is aligned blocks of at least twelve bytes from the first byte to the last, each with the same length in front and at its end, in the byte order of the last section's magic |
| PcapRecords.BlockRefused | src/pcap.cpp:293-330 | Too few bytes for a block, a section header cut off before its magic or with other bytes there, and a length too small, unaligned or beyond the file are refused, each with its own error |
| PcapStreams.ByteOrderIndependent | src/pcap.cpp:38-53 | The same blocks with sections written in other byte orders read as the same capture or fail with the same error |
| PcapStreams.ReadsConcatenation | src/pcap.cpp:289-325 | An accepted file followed by one that starts a section reads as the packets of both with the second's offsets shifted, or as the second's error, when no Simple Packet Block is cut differently |
| PcapStreams.ConcatenationExactly | src/pcap.cpp:386-410 | For two accepted files the packets are the two lists one after the other if and only if no Simple Packet Block of the second is cut differently by the first's snaplen |
| PcapStreams.CutByEarlierFile | src/pcap.cpp:390-391 | Behind a file with a larger snaplen a frame keeps bytes that are cut when its own file is read alone, although all three files are accepted |
| PcapReader.TicksToNanoseconds | src/pcap.cpp:79-99 | The two scaling loops multiply by the power of ten modulo 2^64, or divide by it, for every resolution; powers of two scale by a shift |
| Shaper.TransmissionTimeExactly | src/fault_engine.cpp:135-155 | For all 64-bit sizes and rates the computed sending time is the exact ceiling, saturated at the clock's range, if and only if no 64-bit sum wraps and, when the number of bits itself wraps, what is left of it still outlasts the clock |
| Shaper.TimedExactly | src/fault_engine.cpp:135-155 | The computed time is never longer than the exact ceiling, and is it if and only if nothing wraps and the clock can hold it |
| Shaper.FramesAreExact | src/fault_engine.cpp:135-155 | So it is for every frame up to 65535 bytes at any rate up to 2^63 bits a second |
| Shaper.FastLineWraps | src/fault_engine.cpp:135-155 | At the highest rate one byte takes no time, although its exact time is one nanosecond |
| FaultEngineModel.JudgeExactly | src/fault_engine.cpp:67-104 | A frame is dropped if and only if its target is a blackhole, is isolated, or the first draw modulo 10000 is below the loss; one that is not has two copies if and only if the second is below the duplication; without a bandwidth each is due at arrival plus latency plus the jitter drawn; and the random state moves by exactly the draws made |
| FaultEngineModel.SureOutcomes | src/fault_engine.cpp:67-104 | No loss loses nothing and full loss everything, and so with duplication |
| Shaper.SpacedExactly | src/fault_engine.cpp:67-104 | Over any arrivals, copies of one target are apart by at least the sending time of the first, and by exactly that when the second waited for the line; two copies back to back keep within the rate if and only if the first is timed exactly; which frames leave, and how often, is FaultEngineModel.JudgeExactly |
| Shaper.NeverFasterThanRate | src/fault_engine.cpp:67-104 | Copies of a target leave in order, and between any two of a run the line carries no more bits than its rate times the time between them, whatever is lost, duplicated, delayed or jittered, if the copies before the later one are timed exactly |
| Targets.LinkTargetInjective | src/topology_controller.cpp:257-265 | Two links share an engine target exactly when they have the same endpoints, in either order, whatever is in the names |
| Targets.PortTargetInjective | src/topology_controller.cpp:252-255 | Two ports never share an engine target |
| Targets.PortIsNoLink | src/topology_controller.cpp:252-265 | A port's target is no link's |
| Isolation.NoInterference | src/topology_controller.cpp:72-215 | What one port or link is answered in any interleaved run is what it is answered in the run of its own operations alone, from any state that agrees on its target |
| TopologyControllerModel.PortAtExactly | src/topology_controller.cpp:40-61 | The port of an ingress number is the host with that many hosts before it among the nodes, and none if there are no more |
| TopologyControllerModel.SetLinkExactly | src/topology_controller.cpp:91-109 | A link fault is set exactly on a link that exists with a valid configuration; it is then there from both ends, started over, and nothing else changed |
| TopologyControllerModel.ClearExactly | src/topology_controller.cpp:111-120 | Clearing succeeds exactly where a fault is and leaves none there, and nothing else changes |
| TopologyControllerModel.LinkAddsLatency | src/topology_controller.cpp:186-215 | A link adds its own latency to every copy of what its fault decides |
| TopologyControllerModel.LoadMovesOn | src/topology_controller.cpp:15-23 | A load replaces the topology, clears every fault and moves the revision by one until it saturates, so a command for the revision before is stale |
| TopologyModel.Create | src/topology.cpp:45-115 | An accepted configuration meets every check, and a refusal names a fault the configuration has |
| TopologyModel.AcceptedHasNoFault | src/topology.cpp:45-115 | No error can be explained of an acceptable configuration, so a refusal happens if and only if there is a fault |
| TopologyModel.AcceptsExactly | src/topology.cpp:10-115 | The accepted configurations are exactly the stars in which no two hosts clash in their link keys |
| TopologyModel.AcceptsStars | src/topology.cpp:10-115 | Without NUL characters in link ends the accepted configurations are exactly the stars |
| TopologyModel.NulCollides | src/topology.cpp:10-13 | A star with NUL characters in its names is refused |
| Detector.Candidates | src/anomaly_detector.cpp:104-277 | The table walk finds each event the window is evidence of above a non-zero threshold, once, and nothing else |
| Detector.EntriesAreEvidence | src/anomaly_detector.cpp:104-277 | A table has an entry for a group exactly when the window has members of it, and the entry is what those members add up to |
| Detector.AnomalyDetector.Evaluate | src/anomaly_detector.cpp:80-296 | An evaluation is refused exactly when its clock goes back and then changes nothing; otherwise the deque is the window of what was there and came, and the report and the memory are those of the window |
| DetectorRuns.DequeRefinesHistory | src/anomaly_detector.cpp:80-313 | At every point of every run the deque holds exactly the packets of the complete history that are at most one window older than the last evaluation (`timestamp + window >= now`), each as often as it came and in the order they came |
| DetectorRuns.ReportsAreEdges | src/anomaly_detector.cpp:279-295 | Every report is strictly sorted and holds exactly the candidates among the packets at most one window old whose key was not a candidate's at the evaluation before |
| DetectorRuns.HistoryExactly | src/anomaly_detector.cpp:89-102 | The history has every packet of every call, in order, with its own fields and the time of its call |
| DetectorRules.BroadcastStormExactly | src/anomaly_detector.cpp:115-121 | An event is a candidate exactly when it reports the number and the bytes of the window's broadcasts from its address, more than a non-zero threshold, and the port the last came through |
| DetectorRules.UnknownUnicastFloodExactly | src/anomaly_detector.cpp:122-128 | The same for frames to unknown addresses |
| DetectorRules.UdpFloodExactly | src/anomaly_detector.cpp:129-135 | The same for valid UDP packets from one IPv4 address |
| DetectorRules.HotTalkerExactly | src/anomaly_detector.cpp:145-151 | The same for valid packets from one address |
| DetectorRules.MalformedFrameExactly | src/anomaly_detector.cpp:152-157 | The same for packets that are not valid, through one port |
| DetectorRules.PortScanExactly | src/anomaly_detector.cpp:136-140 | A scan is reported exactly when the distinct destination ports in valid TCP and UDP packets from its IPv4 address are more than a non-zero threshold |
| DetectorRules.MacFlapExactly | src/anomaly_detector.cpp:141-144 | A flap is reported exactly when the packets of its address that came through another port than the one before are more than a non-zero threshold |
| DetectorWindow.EmissionUnique | src/anomaly_detector.cpp:22-37 | The window and the earlier memory determine the report and the new memory, so the walk order of the hash tables does not show |
| PolicyEngineModel.PolicyEngine.SetRules | src/policy_engine.cpp:43-62 | New rules are taken exactly when each is sound and no name repeats, with hit counts cleared; otherwise nothing changes and the error is what is wrong with the first rule at fault |
| PolicyEngineModel.DecisionsAreFirstMatches | src/policy_engine.cpp:116-135 | There is one decision per covered anomaly, in order, each from the first enabled rule for its kind |
| PolicyEngineModel.HitsCountDecisions | src/policy_engine.cpp:116-135 | Every rule's hit count moves by exactly the decisions made in its name, and these are numbered consecutively |
| Enforcement.EveryPortAccountedFor | src/policy_enforcer.cpp:103-238 | In every run without operator writes on leased ports, a leased port has the operator's configuration with one field changed - the bandwidth is the lease's rate, or the blackhole is on, or the isolation is, and the other six are the operator's - and every other port the operator's configuration itself, present or absent |
| PortEnforcement.LimitedPortKeepsRate | src/policy_enforcer.cpp:65-89 | In every undisturbed run, what a rate-limited port sends leaves in order, and between any two copies the line carries no more bits than the lease's rate times the time between them, for frames up to 65535 bytes and rates up to 2^63 |
| PortEnforcement.LimitedByLast | src/policy_enforcer.cpp:147-190 | The rate of a limited port is the one its last applicable decision asked for, which was a rate limit |
| PortEnforcement.RateExactly | src/policy_enforcer.cpp:78-89 | That rate is the packet rate times the whole mean size of the observed packets, or the assumed size if that is zero or none was observed, times 8, modulo 2^64 |
| PortEnforcement.DecidedExactly | src/policy_enforcer.cpp:103-174 | Which decisions are skipped, which name no port, which rejected and which take effect, and that the first three change nothing; every report carries its rule, anomaly, counts and port |
| PortEnforcement.FirstDecision | src/policy_enforcer.cpp:147-190 | On a port without a lease a drop turns the blackhole on, a quarantine the isolation, a rate limit sets the bandwidth, over what was there, until now plus that action's own lease |
| PortEnforcement.NextDecision | src/policy_enforcer.cpp:147-190 | On a leased port quarantine wins over drop and drop over rate limit, a new rate comes only from a limit on a limited port, the later end holds, and what the first decision found is still remembered |
| PortEnforcement.OverExactly | src/policy_enforcer.cpp:203-226 | Giving back the expired leases keeps a lease if and only if its end is still to come |
| Enforcement.RunTransparent | src/policy_enforcer.cpp:103-238 | The invariant behind it: leases remember the baseline of the run without enforcement, their overlays are installed, and every target without a lease is that run's |
| Enforcement.EveryLinkUntouched | src/policy_enforcer.cpp:103-238 | Enforcement never changes what is installed on a link |
| Enforcement.NeverRejectedByController | src/policy_enforcer.cpp:168-174 | The controller never refuses an applicable decision |
| Enforcement.OperatorWriteLost | src/policy_enforcer.cpp:193-201 | After an operator's write to a leased port a release brings back what the lease remembers, and the write survives if and only if it said just that |
| Enforcement.ReloadMustForget | src/session_topology.cpp:55-73 | A load that keeps the leases keeps the invariant if and only if there are none |
| EnforcementHistory.LeaseIsStrongest | src/policy_enforcer.cpp:147-190 | A live lease has the strongest kind of all applicable decisions on its port since it began |
| EnforcementHistory.StaysAsStrong | src/policy_enforcer.cpp:147-190 | After a decision on a port and only decisions since, the port is leased at least as severely as that decision asked |
| EnforcementHistory.OrderIrrelevant | src/policy_enforcer.cpp:103-191 | Any reordering of the decisions leases the same ports with the same kinds |
| EnforcementHistory.ExpiryDependsOnOrder | src/policy_enforcer.cpp:176-184 | For a weaker and a stronger decision at one time, the two orders end at the same time if and only if the weaker kind's lease is no longer |
| EnforcementHistory.DefaultsDependOnOrder | include/wirelab/policy_enforcer.hpp:50-58 | With the default leases a rate limit and a drop end at different times in the two orders |
| EnforcementHistory.NeverWeakerMeanwhile | src/policy_enforcer.cpp:147-188 | While a lease lives through any stretch of a run, neither its severity nor its expiry goes back |
| EnforcementHistory.MarksAlternate | src/policy_enforcer.cpp:103-238 | In any run the starts and ends of a port's lease strictly alternate, and the port is leased exactly after a start |
| EnforcementHistory.ReleaseOrderIrrelevant | src/policy_enforcer.cpp:203-226 | Whatever order the expired leases are walked in, giving them back has the same effect |
| EnforcementHistory.AlwaysEnforced | src/policy_enforcer.cpp:103-191 | An applicable decision always takes effect: on its own port only, Applied or Extended as there was a lease, from the right baseline, lasting at least its lease |
| AnalysisPipelineModel.AnalysisPipeline.Evaluate | src/analysis_pipeline.cpp:25-46 | One evaluation clamps the clock, reports what the detector's step does, decides by the rules, gives back the expired leases and then enforces the decisions, as one stretch of a run |
| AnalysisPipelineModel.AnyTimestampsMakeARun | src/analysis_pipeline.cpp:31-33 | Behind the clamp, batches with arbitrary timestamps make a run of the detector whose reports are the rising edges over the complete history |
| AnalysisPipelineModel.EvaluationLeavesUnexpired | src/analysis_pipeline.cpp:41-44 | Right after an evaluation no held lease has expired, when leases last any time |
| AnalysisPipelineModel.ReenforcedFromBaseline | src/analysis_pipeline.cpp:41-44 | A decision in the evaluation that ends a lease starts a new one over the operator's configuration, not over the old overlay |
| JsonText.ReadsQuoted | src/control_protocol.cpp:103-180 | Any byte string, quoted and escaped, reads back as itself before any further text |
| JsonText.ReadsScalar | src/control_protocol.cpp:50-101 | A four-digit escape reads as the UTF-8 of its scalar value, and a lone surrogate is malformed |
| JsonText.ReadsSurrogatePair | src/control_protocol.cpp:145-174 | A surrogate pair reads as the UTF-8 of the code point above the basic plane |
| JsonText.Utf8Decodes | src/control_protocol.cpp:77-101 | The encoder's bytes decode to the code point again, by the lead byte, whatever follows |
| JsonScannerModel.JsonScanner.TakeUint | src/control_protocol.cpp:183-204 | The digit loop accepts exactly the numbers its type can hold, without overflowing on the way |
| ControlJson.ReadsMembers | src/control_protocol.cpp:237-345 | Printed members of distinct known names read back as themselves behind those already found, in any order |
| ControlJson.ReadsUntilRefused | src/control_protocol.cpp:237-345 | Reading stops with its error at the first member whose value is refused, whatever follows |
| JsonGrammar.NameRefused | src/control_protocol.cpp:256-287 | A member whose name is none of the fields, or was there before, is refused as a wrong field, whatever its value and whatever follows |
| JsonGrammar.BlanksAnywhere | src/control_protocol.cpp:25-58 | Blanks, tabs and line breaks before any token of a request change nothing |
| JsonGrammar.EscapesExactly | src/control_protocol.cpp:138-178 | Beside a unicode escape exactly eight characters may follow a backslash, each for its own; any other is malformed |
| JsonGrammar.Unfinished | src/control_protocol.cpp:104-187 | A string with a control character in it, or without an end, is malformed |
| ControlJson.PrintIsPrintable | src/control_protocol.cpp:744-773 | Printed JSON has no control character, so no line break, whatever is in its strings |
| ControlProtocolModel.ParsesPrinted | src/control_protocol.cpp:237-345 | Parsing any printed request gives its header and its command's own parameters, durations to the millisecond, and an invalid field for a negative number of milliseconds |
| ControlProtocolModel.RoundTripExactly | src/control_protocol.cpp:895-949 | A printed request comes back unchanged if and only if the durations it sets are whole, non-negative numbers of milliseconds |
| ControlRequests.RequestExactly | src/control_protocol.cpp:551-619 | A request written by anyone, with its members in any order, is taken if and only if its header is whole and its parameters are all its command needs and none that belongs to another; it is told a field is wrong, rather than missing, exactly when another command's parameters are there, or a port fault lacks its port, or the command takes none |
| ControlProtocolModel.NanosecondIsLost | src/control_protocol.cpp:895-949 | A latency of one nanosecond does not come back |
| ControlProtocolModel.ReplyRoundTrip | src/control_protocol.cpp:658-741 | A printed reply comes back with its operation if accepted and its error if not |
| ControlProtocolModel.EventIsNoReply | src/control_protocol.cpp:658-741 | A text that starts as a printed event never parses as a reply |
| Framing.ChunksIrrelevant | src/control_server.cpp:159-177 | However the bytes are cut into chunks, the messages and the partial line are those of the whole |
| Framing.OneAtATime | src/control_server.cpp:181-198 | Taking messages one at a time takes the same messages as taking them all, and leaves a line without a break |
| Framing.RecoveredExactly | src/control_server.cpp:159-177 | Framed messages come out unchanged if and only if none is empty, has a line break or ends with a carriage return |
| Framing.LostInFraming | src/control_server.cpp:159-177 | An empty message is lost, and so is a carriage return at the end of one |
| Framing.PartialIsPrefix | src/control_server.cpp:159-198 | From any part of the stream that has arrived come the first messages sent, whole |
| ControlServerModel.Client.Enqueue | src/control_server.cpp:489-503 | The outbox stays within its cap: a message that would exceed it congests the client, which then keeps nothing queued and takes nothing more |
| ControlServerModel.Client.Flush | src/control_server.cpp:472-487 | Over any partial sends exactly the bytes the sends took leave the front of the outbox; the client lives if nothing is left or the send that took nothing would have blocked |
| ControlServerModel.Client.Serve | src/control_server.cpp:429-440 | Reading stops once the inbox is over its cap, and the messages are those of what was there and was read |
| ControlServerModel.AcceptedExactly | src/control_server.cpp:472-500 | Sends take all there is, or as much as they can before one takes nothing |
| ControlServerModel.AdmittedExactly | src/control_server.cpp:132-155 | Reading goes on exactly while the inbox is within its cap |
| ControlServerModel.ControlServer.Broadcast | src/control_server.cpp:505-517 | An event goes to every client once, behind everything that client was given before: exactly the clients that were congested or have no room are congested, and each other one is sent as much of its queue as its socket takes and keeps the rest |
| ControlServerModel.PeerSeesPrefix | src/control_server.cpp:472-517 | What a peer can take from the bytes its client sent are the first messages the client was offered, and all of them once nothing is queued and the client is not congested |
| ControlChannel.RequestsArrive | src/control_server.cpp:429-470 | Any requests, with any strings, sent in any chunks, arrive as many as were sent, each parsed to what it carries |
| ControlChannel.RepliesArrive | src/control_server.cpp:621-694 | The replies a client can read are the first ones sent to it, each parsing to the reply with its operation or its error |
| PacketParser.PortsAreInside | src/packet_analyzer.cpp:206-264 | Ports and flags are only ever read from a transport header that lies within the packet's own lengths and the frame |
| FrameBytes.ParsedExactly | src/packet_analyzer.cpp:206-314 | From the bytes of any frame: which are malformed Ethernet, IPv4 or transport and which valid, by version, lengths, fragment offset and the UDP, TCP and ICMP headers; and the byte at which each address, port and flag is read, zero where there is none |
| Grouping.Compact | src/packet_analyzer.cpp:87-133 | The loop that writes into the array it reads leaves at the front the fold of runs of equal keys |
| Grouping.Aggregate | src/packet_analyzer.cpp:87-133 | Sorting and compacting gives each key once, ascending, with the exact sums of its records |
| Grouping.Rank | src/packet_analyzer.cpp:135-163 | Ranking is a permutation of the groups, by bytes, then packets, then key |
| Grouping.GroupedTotals | src/packet_analyzer.cpp:87-192 | Grouping changes no sum over any set of keys |
| Grouping.GroupingUnique | src/packet_analyzer.cpp:87-192 | There is one ascending grouping of given records |
| Grouping.RankingUnique | src/packet_analyzer.cpp:135-163 | There is one ranking of given records |
| PacketAnalyzerModel.PacketAnalysisAggregator.Aggregate | src/packet_analyzer.cpp:316-426 | One batch is classified packet by packet by the addresses known before each, and each table is the exact grouping of its records |
| PacketAnalyzerModel.AnalysisUnique | src/packet_analyzer.cpp:316-426 | What is known and the packets determine the whole analysis, whatever the sort does with equal elements |
| AnalysisTables.ClassifiedExactly | src/packet_analyzer.cpp:376-391 | A packet with addresses is a broadcast exactly when sent to all ones, known exactly when its destination was known before the batch or sent an earlier packet of it, and unknown otherwise |
| AnalysisTables.CountersExactly | src/packet_analyzer.cpp:345-391 | Every counter is the number of packets it is named after |
| AnalysisTables.TablesExactly | src/packet_analyzer.cpp:358-400 | Every table has one row for each key some packet of its kind has: the number of those packets and their lengths |
| AnalysisTables.TablesAreOrdered | src/packet_analyzer.cpp:87-192 | Types, protocols, ports and pairs come by key; addresses and flows by bytes, then packets, then key |
| AnalysisTables.SizesExactly | src/packet_analyzer.cpp:319-356 | The histogram has its seven ranges, and each counts the packets whose length is in it |
| TrafficSums.EveryPacketCountedOnce | src/packet_analyzer.cpp:364-391 | Received packets are those too short for addresses plus broadcast plus unknown plus known; malformed ones with addresses are counted on top |
| TrafficSums.DisjointExactly | src/packet_analyzer.cpp:364-391 | Malformed, broadcast, unknown and known together make the received packets if and only if nothing is malformed but what is too short for addresses |
| Benchmark.ShortFramesCountTwice | src/packet_analyzer.cpp:364-391 | A run of generated frames of 14 to 33 bytes counts every one of them both as malformed and as classified |
| TrafficSums.MatrixAddsUp | src/packet_analyzer.cpp:165-192 | The rows of the traffic matrix add up to the source records and the columns to the destination records |
| TrafficSums.TablesAreComplete | src/packet_analyzer.cpp:393-426 | Every table over addressed packets holds all of them |
| TrafficSums.SizesAddUp | src/packet_analyzer.cpp:316-426 | The size histogram adds up to the received packets and bytes |
| TrafficSums.TotalsConcat | src/packet_analyzer.cpp:316-426 | Analysing in two batches, the second knowing what the first learned, counts what analysing at once counts |
| TrafficSums.ClassifiedConcat | src/packet_analyzer.cpp:316-426 | And classifies every packet the same |
| PacketBatches.Create | src/packet_batch.cpp:7-47 | Packing is refused exactly for a packet or a total too large, with the source's error, and otherwise every packet can be viewed again unchanged |
| PacketBatches.AnalyzeBatch | src/packet_analyzer.cpp:447-456 | The analysis of a packed batch is the one of the packets it was packed from |
| PacketBatches.AnalyzeViews | src/packet_analyzer.cpp:433-445 | The analysis of views is the one of the same packets, so the two overloads agree |
| TrafficGenerator.FramesParse | src/traffic_generator.cpp:232-272 | Every generated frame of 34 to 65549 bytes parses as valid with the intended addresses, and as UDP with the intended ports exactly when its header fits |
| Scenarios.BenignExactly | src/traffic_generator.cpp:160-195 | As parsed, a benign frame comes from the host whose turn it is and goes to the next host, to everybody or to an address no host has, the mixed scenario going round the three |
| Scenarios.AttacksExactly | src/traffic_generator.cpp:196-229 | As parsed, a flood goes from one host to port 9000 of another from an ephemeral port, a scan marches through 1024 ports, and a storm comes from at most three hosts to everybody on port 137 |
| TrafficGenerator.ShortFramesAreMalformed | src/traffic_generator.cpp:232-272 | A generated frame of 14 to 33 bytes parses as malformed IPv4 |
| TrafficGenerator.LargeFramesAreRandom | src/traffic_generator.cpp:250-253 | A generated frame over 65549 bytes says IPv4 and has random bytes where the header would be |
| TrafficGenerator.FrameHeaderSumsToOnes | src/traffic_generator.cpp:98-137 | The IPv4 header inside every such frame has the one's-complement sum 0xffff (RFC 791, section 3.1; RFC 1071, section 1) |
| TrafficGenerator.HeaderSumsToOnes | src/traffic_generator.cpp:98-110 | So does every header the generator can write, for any field values |
| TrafficWriter.WriteTrafficFrame | src/traffic_generator.cpp:232-272 | The in-place writer leaves exactly the frame in the first bytes of the buffer and nothing else changed, or writes nothing for a configuration without frames |
| TrafficWriter.Fill | src/traffic_source.cpp:19-29 | The source fills a batch with the consecutive frames from its counter, which wraps at 64 bits |
| Benchmark.BenchmarkRun.Advance | src/benchmark.cpp:191-260 | A slice analyses whole batches until the budget is met or the run is over, never a batch more, and nothing only for a zero budget or a finished run |
| Benchmark.Drive | src/benchmark.cpp:191-260 | After any slices, with results collected whenever they come, a finished run has counted the one fold over all its frames |
| Benchmark.Complete | src/benchmark.cpp:191-260 | With any budget but zero a run ends, with the same counters |
| Benchmark.PercentileIndex | src/benchmark.cpp:283-287 | The percentile's index is in range and the smallest position that covers the given share |
| PortScan.ScanRaised | src/anomaly_detector.cpp:227-239 | Consecutive frames of a port-scan run in one fresh window raise the anomaly if and only if the lesser of their number and 1024 exceeds a non-zero threshold, with that many ports and the scanner as its source |
| VSwitchModel.VSwitch.ProcessFrame | src/vswitch.cpp:148-237 | A frame that is malformed or blocked is only counted; any other is learned from and forwarded as the copies its destination calls for, due ones at once, and the books of every counter balance |
| VSwitchModel.VSwitch.DrainDue | src/vswitch.cpp:272-285 | Draining attempts the due copies in order and keeps the others in order |
| VSwitchModel.VSwitch.Iterate | src/vswitch.cpp:98-126 | One pass drains, sleeps no longer than its budget, and handles the frame that came, if one did, from the drained state |
| VSwitchModel.Kept | src/vswitch.cpp:251-270 | Placing copies keeps the account: every copy scheduled is pending or was attempted exactly once, never early, and what waits is in the order it was scheduled |
| Forwarding.ForwardedExactly | src/vswitch.cpp:198-237 | A frame for a known address becomes one copy for each delivery time to where it was seen, a broadcast one for each time and each other station, anything else none; each copy is due at its time |
| Forwarding.PlacedExactly | src/vswitch.cpp:251-270 | Of the copies placed exactly those due are attempted now and exactly the others wait, each in order |
| Forwarding.SplitExactly | src/vswitch.cpp:272-285 | Draining takes exactly the copies due and leaves exactly the others, each in order |
| VSwitchModel.DrainAccounted | src/vswitch.cpp:272-285 | Draining keeps the account as well |
| VSwitchModel.LaterInOrder | src/vswitch.cpp:272-285 | What remains after draining is in the order it was scheduled |
| VSwitchModel.NothingOverdue | src/vswitch.cpp:272-285 | After draining only strictly future copies wait, and none is lost |
| VSwitchModel.NeverSleepsLate | src/vswitch.cpp:287-298 | The budget is within the gate's interval and never longer than the time to any pending copy |
| Forwarding.LongestSleep | src/vswitch.cpp:287-298 | And it is no shorter than it must be: the whole interval, unless a copy is due less than a millisecond after it |
| VSwitchModel.TableIsLatest | src/mac_table.cpp:23-43 | The table holds every address seen from a frame that passed, where it was seen last, and no other |
| VSwitchModel.BroadcastReachesAll | src/vswitch.cpp:202-225 | A broadcast's copies are those to every other station if and only if nobody was seen sending from the broadcast address, or the one other station was last seen where that sender was |
| VSwitchModel.BroadcastToOne | src/vswitch.cpp:202-215 | After a frame from the broadcast address a broadcast goes to its sender alone |
| SwitchSupervisorModel.SwitchSupervisor.Inspect | src/switch_supervisor.cpp:45-83 | Analysed and batched frames always make the inspected ones and the batch stays below capacity. A frame that fills the batch has the whole batch, itself included, analysed from what was known, its packets detected, the rules decide and the leases move by those decisions, after the waiting commands were served; and it is judged by what is installed then; so a sender whose host the decisions drop or quarantine is blocked with that very frame |
| SwitchSupervisorModel.SwitchSupervisor.Tick | src/switch_supervisor.cpp:85-124 | The control channel is served on every tick; then the batch is analysed exactly when the interval has passed or it is full, and the outcome is what the detector, the rules and the enforcer make of the analysis of exactly those frames |
| SwitchSupervisorModel.ContainedAtOnce | src/switch_supervisor.cpp:57-83 | When an evaluation decides to drop or quarantine a port, every frame of that port is blocked at once, the one that filled the batch included |
| SwitchSupervisorModel.SenderContained | src/switch_supervisor.cpp:30-83 | When an evaluation decides to drop or quarantine the host of a sender's number, every frame of that sender is blocked at once |
| SwitchSupervisorModel.SwitchSupervisor.Bind | src/switch_supervisor.cpp:30-43 | A new sender gets the host that has as many hosts before it among the nodes as senders were bound before, modulo 2^32, and no port only if there is none; an old sender keeps its binding, and no binding changes |
| SwitchSupervisorModel.IndicesAreDistinct | src/switch_supervisor.cpp:30-43 | Up to 2^32 senders have distinct port indices below their number |
| SwitchSupervisorModel.SwitchSupervisor.Publish | src/switch_supervisor.cpp:126-141 | Counters are published exactly when they moved since they were last |
| ControlServiceModel.ControlService.Dispatch | src/control_service.cpp:26-216 | A request is accepted if and only if it parses, passes the checks, has the present revision and its command can be served; the reply carries its id and the revision. A refused one changes nothing and takes no sequence number; an accepted one has its events numbered consecutively and stamped with the revision, and its command's effect: the run with the request's parameters and deadline, the faults there are by endpoints, the change of the fault, and so on, command by command |
| ServiceRules.StartableExactly | src/control_service.cpp:304-349 | A run can start exactly when it names one of the seven scenarios and the CPU for analysis and generation, and a batch of its frames fits 32 bits |
| ServiceRules.ChangedExactly | src/control_service.cpp:158-199 | A fault is set exactly on a port or link that exists with a valid configuration, and cleared exactly where one is installed; nothing else changes |
| ServiceRules.ListedExactly | src/topology_controller.cpp:122-168 | A fault is listed exactly when it is installed on a host of the topology or on one of its links |
| ControlServiceModel.ControlService.AdvanceBenchmark | src/control_service.cpp:367-391 | With a run open and a budget a slice moves the run by the budget or to its end and reports where it is; exactly if it is finished or its deadline has passed the result follows and the run is closed |
| ControlServiceModel.ControlService.AnalysisEvents | src/control_service.cpp:218-281 | One outcome becomes its anomalies, its decisions and then the changed ports, in order, each port with what is installed on it now |
| ServiceRules.NamedExactly | src/control_service.cpp:240-265 | The changed ports published are the releases and the enforcements that took effect on a named port, all of them and in order |
| ControlEvents.EndedExactlyOnce | src/control_service.cpp:304-418 | In any sound event stream every run that was started is ended exactly once, except the open one, which is not, and no other run is |
| ControlEvents.ClosedBeforeNext | src/control_service.cpp:304-418 | Between two starts the first run was ended, once |
| ControlEvents.ProgressGrows | src/control_service.cpp:398-407 | No earlier progress event of the open run reports more than the latest |
| YamlRoundTrip.NameReadExactly | src/topology_yaml.cpp:34-74 | A printed name reads back if and only if it is not empty and has neither a double quote nor a backslash |
| YamlDocuments.DocumentRead | src/topology_yaml.cpp:95-330 | A file with entries field by field is accepted if and only if each node entry is exactly an id and a kind and each link entry both ends and at most one field more, a latency under 2^64 if it is one, with no key twice; and is read as those nodes and links |
| YamlDocuments.IgnorableAnywhere | src/topology_yaml.cpp:34-60 | A blank line or a comment, anywhere in any file, changes neither what is read nor what is wrong |
| YamlDocuments.HeadersOnce | src/topology_yaml.cpp:108-175 | Every accepted file has each of the three headings exactly once, whatever else is in it |
| YamlRoundTrip.SavedComesBack | src/session_topology.cpp:103-110 | For every accepted topology whose latencies fit their type, saving and parsing gives it back if and only if its name and ids have no line break, double quote or backslash and its ids no comma |
| YamlRoundTrip.BackslashDoubles | src/session.cpp:49-61 | A valid topology with a backslash in its name comes back with another name |

## Left out

- PcapWriter.RoundTrip: for names under 65536 bytes and lengths that fit 32 bits; for others the file has other fields than were given, as the writer's contracts say.
- ControlProtocolModel.EventIsNoReply: of events only the header that tells them from replies; the printers of their bodies are not modelled.
- PacketAnalyzerModel.PacketAnalysisAggregator.Aggregate: the flow hash carried beside each flow is left out; flows are grouped by their key.
- SwitchSupervisorModel.SwitchSupervisor.Tick: of the commands the control channel serves, those that change the controller; publishing to the channel is a separate call.
- ControlServiceModel.ControlService.Dispatch: active faults are sorted by endpoints and which of two equal keys comes first is open; the state reports carry no switch counters, and of an error only the texts of parsing and of the first checks are stated.
- The classic pcap reader and the dispatch between the formats (src/pcap.cpp:203-277): a fixed record layout, with none of the block structure.
- Removing clients in `poll`, accepting connections, the polling loop, and the client's reconnect and resynchronisation (src/control_server.cpp:310-427, 574-820).
- Sockets, TAP devices, files and streams: a send is an arbitrary partial write, a read an arbitrary chunk, a file the text it holds.
- Clocks and time points are unbounded integers, so adding a lease or a latency never overflows; counters and event sequences are unbounded as well. Revisions saturate and port indices wrap as in the source.
- The quality of the two mixing functions: splitmix64 and FNV-1a are deterministic functions on 64-bit values, and results hold whatever they draw.
- Rates and other floating-point figures, report formats, labels and log texts.
- The CUDA and Metal backends; a streaming analyzer is a queue whose results are ready whenever an input says so.
- Threads and the lock of the MAC table: calls are sequential.
- A detector with a window of zero is an error value where the source throws.
- A buffer reused between batches by the traffic source is a fresh one in each.
- The request parser collects its members and assembles the request at the end, where the source fills its fields on the way; errors come in the same order.
- The desktop session beyond its topology file and its reset on a load, the C interface and the command lines.
