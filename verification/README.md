# L4Scope: a verified model of the detection engine and the wire decoder

L4Scope watches TCP and UDP traffic. A capture backend turns frames into `PacketMeta`
records; the detection engine folds the records into one flow record per conversation,
keeps host-wide summaries, and reports anomalies. This project models both halves in Dafny
and proves what they promise over all inputs and all runs.

## How it is built

Values carry the theory, objects refine it. The flow record, the flow table, the rings, the
gates and the whole engine are datatypes with step functions; the classes (`EngineState`,
`Engine`, `RollingRate`, `Debounce`, `ByteSource`, `PcapStream`) update their fields in place
as the program does, and every method is proved to take the corresponding step. An `Engine`
carries a ghost history of all its steps, and its `Valid()` says that the objects hold exactly
what the value model computes from that history, so each theorem about runs is a theorem about
every engine object.

| file | content |
|---|---|
| `Types`, `Flow`, `Table` | keys, flags, packets; one record under one packet; the table under packets and sweeps |
| `Runs`, `Traces`, `Records`, `Sharding`, `Sequence`, `DupAcks` | every run of the table; what a conversation's trace says, and what its record keeps, reports and counts; the table split over workers |
| `Window`, `Alerting` | the ring of per-second buckets against the event history; the debounce |
| `Detectors`, `EngineRuns`, `Rates`, `Workers`, `HostAlerts`, `Reports`, `Engine` | the detector chain, whole engine runs, rates, sharded engines, alert spacing, reports against traces, the engine object |
| `Wire`, `Parse`, `Accepted`, `Layout`, `Frames`, `Ebpf` | byte fields, the decoder, the bytes it accepts, the standards' layouts, round trips, the eBPF path |
| `Pcap`, `Framing` | the stream reader under short and interrupted reads; file and cut round trips, and the loop that reads a file |
| `Attribution`, `JsonText` | CIDR masks as address blocks; JSON escaping |

## Main results

- **The table is a product of per-key machines.** Any run of packets and sweeps gives each key
  the record computed from that key's packets and the sweep times alone.
- **Sharded engines.** Each worker is an engine that is given its own keys' packets and sweeps on
  them. The record of a key is the single engine's throughout a run if and only if no sweep that just
  one of the two performs is due by the key's trace, a condition on packets and clocks alone. Both
  hold what the packets alone compute if and only if the conversation is lively at every sweep of
  either. With no split, tables restrict and half-open counters and new-flow histories add up; reset
  histories always do; window counts add up where, besides, the packets are ordered.
- **Half-open counters are recounts** in every reachable state, through sweeps that both time out
  and evict a flow, and count exactly the conversations that are half open by their traces; no
  saturating decrement ever saturates; the exported maximum and every backlog alert are true recounts.
- **Bounded memory and alert latency** under ordered time, with the exact one-second slack of the
  sweep interval; the half-open counters are exactly those of the services ever counted.
- **Wrapped sequence tracking refines unbounded integers** while every segment starts and ends within
  half the number space of the mark; retransmission and out-of-order verdicts, the retransmission
  count and the segment count are then exact.
- **Reports are characterised by the trace**: over every engine run, refusals, slow handshakes,
  stalls, duplicate-ACK bursts, retransmissions, out-of-order data and timeouts are emitted exactly
  when the conversation's own packets since the creation of its record show them. The conditions
  quantify over positions of the trace, and where a trace starts is settled by packet and sweep times;
  no record is mentioned. Packets are classed by their control bits, times are in nanoseconds, and
  each event's value and severity is stated. Timeouts cover timer sweeps and those packets bring.
- **The ring of buckets refines a count over the history**, exactly when nothing was overwritten.
- **Alerts keep the debounce gap**, exactly when a run does not open with a call at time zero
  followed by one within the gap.
- **The decoder accepts exactly** the frames with an IP header behind the link layer and a fitting
  transport header behind that, after at most eight extension headers; a returned record names the
  source and destination of those bytes.
- **Decoding round trips** through all four link types, VLAN tags, IPv4 options and IPv6 extension
  chains whose headers get their standard spans.
- **Both capture backends agree** on an Ethernet frame of a well-formed packet if and only if it has
  no tags and no extension headers, or so many of either that both drop it; on arbitrary frames the
  exact condition is one on their bytes.
- **Pcap framing round trips**, in both byte orders and time units, for every cut of the file, and
  through the stream object however its reads are split or interrupted.

## Where the program departs from its promises

Each is proved as stated; the program's behaviour is kept.

- Debounce: time zero doubles as "never fired" (`Alerting.SpacedExactly` gives the exact condition).
- Rolling rate: an event that comes after a later second of its bucket makes the count fall short
  (`Window.RingRefinesHistory`, with `Window.BackwardsTimeLoses` as an instance).
- Sharding: the design notes give each worker disjoint flows and let their counters aggregate, but a
  worker sweeps only on its own packets, so it can keep a flow that the single engine evicts
  (`Workers.WorkersSweepAlone`); `Workers.OwnSweepsExactly` gives the exact condition.
- IPv6 authentication headers: the length rule is chosen by the next header's number
  (`Layout.SpanAgreesExactly`), so behind an authentication header of length byte l the transport
  header is read 4 * l bytes too late (`Frames.AuthenticationHeaderMisread`), and a bare TCP ACK
  behind the common 24-byte one is lost (`Frames.AuthenticatedAckIsDropped`).
- Capture parity fails on malformed or clipped TCP headers (`Ebpf.ParityExactly`), on tags and on
  extension headers (`Ebpf.EthernetParity`).
- Duplicate ACKs: the detector is to fire once per burst; a burst longer than 2^32 plus the threshold
  fires again (`DupAcks.OncePerBurst`).
- JSON escaping leaves control characters other than newline, return and tab raw
  (`JsonText.EscapeRoundTrip`).
- Bounded memory: the table is bounded by the keys of the last time to live, but the counters of
  services are never removed, whether or not a flow of theirs is left (`EngineRuns.CountersStay`).
- The design notes say that sweeps evict idle and closed flows; the code evicts idle ones only
  (`Runs.ClosedFlowsStay`; `Table.SweepByRecord` is the exact condition).

## Model

| member | source | states |
|---|---|---|
| Types.CanonicalKeys | l4scope/crates/l4scope-core/src/types.rs:75-85 | both directions of a conversation share one key, only they do, and the observed source and destination are recovered from key and direction |
| Types.LowIsLower | l4scope/crates/l4scope-core/src/types.rs:18-85 | the low endpoint is the one with IPv4 before IPv6, then the smaller address, then the smaller port; the direction is forward exactly if the source is low |
| Types.FlagsDecode | l4scope/crates/l4scope-core/src/types.rs:97-116 | the flag tests pick out exactly the control bits of RFC 9293, whatever the other bits of the byte are |
| Flow.ClassByBits | l4scope/crates/l4scope-detect/src/flow.rs:174-213 | a TCP packet is taken as a first SYN, a SYN-ACK, a reset or an ordinary segment by its SYN, ACK and RST bits alone: a reset with or without ACK, a SYN before a reset |
| Table.SweepByRecord | l4scope/crates/l4scope-detect/src/engine.rs:75-118 | the survivors of a sweep are exactly the records within the time to live, flagged exactly if their handshake timed out |
| Table.UpdateKeepsCounters | l4scope/crates/l4scope-detect/src/flow.rs:157-268 | one packet keeps every half-open counter equal to the recount of the table |
| Table.SweepKeepsCounters | l4scope/crates/l4scope-detect/src/engine.rs:88-118 | a sweep keeps the counters exact even where it flags and evicts the same flow, and neither phase asks a counter to go below zero |
| Table.SweepTwice | l4scope/crates/l4scope-detect/src/engine.rs:66-120 | a second sweep at the same or an earlier time reports nothing and changes nothing |
| Runs.RunKeepsCounters | l4scope/crates/l4scope-detect/src/flow.rs:115-121 | in every reachable table each service's counter equals the number of its records counted half open |
| Runs.DecrementIsExact | l4scope/crates/l4scope-detect/src/flow.rs:277-284 | a counted record always has a positive counter to give back, so the saturating decrement is exact; no counter exceeds the number of records |
| Runs.TableIsProduct | l4scope/crates/l4scope-detect/src/flow.rs:157-268 | over every run the record of a key is the one computed from its own packets and the sweep times |
| Runs.ClosedFlowsStay | l4scope/crates/l4scope-detect/src/engine.rs:75-86 | any number of sweeps within the time to live leaves the record of a closed or reset connection as it is |
| Sharding.AgreesExactly | l4scope/docs/ARCHITECTURE.md:158-160 | whoever is given which sweeps, the worker of a key and the single table hold the same record of it throughout, if and only if no sweep given to just one of them is due by the key's trace |
| Sharding.LivelyExactly | l4scope/docs/ARCHITECTURE.md:158-160 | both hold throughout the record that the key's packets alone compute, if and only if at every sweep of either the last packet is within the time to live and the SYN answered or within the timeout |
| Sharding.LivelyIsUnsplit | l4scope/docs/ARCHITECTURE.md:158-160 | such a conversation is never split |
| Sharding.ShardedTables | l4scope/docs/ARCHITECTURE.md:158-160 | with no split, a worker's table is the single table restricted to its keys |
| Sharding.ShardedCounters | l4scope/docs/ARCHITECTURE.md:158-160 | with no split, the workers' half-open counters of a service add up to the single table's |
| Workers.ClockIsLastSweep | l4scope/crates/l4scope-detect/src/engine.rs:59-62 | when an engine sweeps depends on its packets' times alone |
| Workers.OwnSweepsExactly | l4scope/crates/l4scope-detect/src/engine.rs:46-64 | throughout any run a worker that sweeps on its own packets and its own timers and the single engine hold the same record of a key, if and only if no sweep that just one of them performs is due by the key's trace |
| Workers.WorkersSweepAlone | l4scope/crates/l4scope-detect/src/engine.rs:59-62 | a failing run: a worker keeps an idle flow that the single engine evicts on another worker's packet, so the two disagree |
| Workers.LivelyFlowsAgree | l4scope/docs/ARCHITECTURE.md:158-160 | a conversation that is lively whenever either engine sweeps has, in both, the record its packets alone compute |
| Workers.WorkerTables | l4scope/docs/ARCHITECTURE.md:158-160 | with no split, each worker's table is the single engine's restricted to its keys |
| Workers.WorkerCounters | l4scope/docs/ARCHITECTURE.md:158-160 | with no split, the workers' half-open counters of a service add up to the single engine's |
| Workers.WorkerHistories | l4scope/docs/ARCHITECTURE.md:158-160 | every reset is raised by exactly one worker in any run, every new flow in runs without a split |
| Workers.WorkerRates | l4scope/docs/ARCHITECTURE.md:158-160 | with ordered packets the window counts of the workers' own rings add up to the single engine's: resets always, new flows without a split |
| Records.RunKeepsHandshake | l4scope/crates/l4scope-detect/src/flow.rs:178-247 | every record of every reachable table: counted means in handshake and unflagged, waiting means exactly one of counted and flagged, established means a SYN-ACK was seen, a stored RTT is SYN-ACK time minus SYN time, retransmissions are at most data segments |
| Records.RecordIsItsLife | l4scope/crates/l4scope-detect/src/flow.rs:162-172 | a tracked record is its creating packet's fresh record run through the packets and sweeps of its trace, which ends at the first sweep later than its last packet by more than the time to live |
| Records.ServiceIsSettled | l4scope/crates/l4scope-detect/src/flow.rs:144-164 | over every run the service of a tracked flow is the destination of its creating packet if that was a bare SYN, else the endpoint with the lower port, the destination in a tie |
| Traces.FirstSynExactly | l4scope/crates/l4scope-detect/src/flow.rs:178-187 | the SYN time is that of the position holding the first bare SYN, none if there is no such position |
| Records.HandshakeFollowsTrace | l4scope/crates/l4scope-detect/src/flow.rs:178-217 | SYN time is the first SYN's, SYN-ACK time the last SYN-ACK's, RTT the last completed handshake's, and all six states and once-established are exactly what the positions of SYN, SYN-ACK, ACK, FIN and RST in the trace say |
| Records.HandshakeReports | l4scope/crates/l4scope-detect/src/flow.rs:188-212 | a refusal is reported exactly when a reset meets an unfinished handshake, an RTT exactly when a SYN-ACK meets a recorded SYN |
| Records.FlaggedExactly | l4scope/crates/l4scope-detect/src/engine.rs:75-92 | a record is flagged exactly if an earlier sweep found its SYN unanswered for longer than the timeout |
| Records.CountedExactly | l4scope/crates/l4scope-detect/src/flow.rs:178-217 | a record is counted as half open exactly if its trace's first SYN is neither settled by RST, FIN or the awaited ACK nor found overdue by a sweep |
| Records.BacklogByTrace | l4scope/crates/l4scope-detect/src/flow.rs:115-121 | in every reachable table the counter of a service is the number of its conversations that are half open by their traces |
| Records.DueExactly | l4scope/crates/l4scope-detect/src/engine.rs:75-86 | a sweep changes a record exactly if its trace's last packet is older than the time to live or its SYN is newly overdue |
| Records.CountersAreServices | l4scope/crates/l4scope-detect/src/flow.rs:178-187 | a table has counters exactly for the services of conversations that had a first SYN |
| Records.EventBudgets | l4scope/crates/l4scope-detect/src/flow.rs:178-204 | a record is counted at most once, times out at most once, and is refused at most once more than it saw SYN-ACKs |
| Records.StalledExactly | l4scope/crates/l4scope-detect/src/flow.rs:218-226 | a direction is remembered as stalled exactly if the last window it showed, established or closing, was zero |
| Records.EdgesExactly | l4scope/crates/l4scope-detect/src/flow.rs:218-226 | a zero-window report comes exactly when the shown window falls to zero from another value or from none |
| Records.EdgesAlternate | l4scope/crates/l4scope-detect/src/flow.rs:218-226 | between two zero-window reports of a direction lies a packet of it with an open window |
| Sequence.SeqDiffExact | l4scope/crates/l4scope-detect/src/flow.rs:271-275 | the wrapped distance is the true one exactly within half the number space |
| Sequence.SequenceRefinement | l4scope/crates/l4scope-detect/src/flow.rs:187-247 | while every segment starts and ends within half the number space of the mark, the expected number is the true high-water mark modulo 2^32 in both directions; the retransmission counter counts the segments that started below it, the segment counter all of them |
| Sequence.SegmentVerdicts | l4scope/crates/l4scope-detect/src/flow.rs:232-240 | under the same condition a segment is a retransmission exactly if it truly starts below the mark, out of order exactly if above |
| DupAcks.OnlyBareAcksMatter | l4scope/crates/l4scope-detect/src/flow.rs:249-262 | the duplicate-ACK state and alerts of a direction depend on its bare ACKs alone |
| DupAcks.BurstsOf | l4scope/crates/l4scope-detect/src/flow.rs:249-262 | every acknowledgement sequence falls into maximal bursts |
| DupAcks.OncePerBurst | l4scope/crates/l4scope-detect/src/detectors.rs:112-113 | with the 32-bit counter wrapping, a burst alerts just once if longer than the threshold, never under a zero threshold, exactly if it is no longer than 2^32 plus the threshold |
| DupAcks.AlertsAreLongBursts | l4scope/crates/l4scope-detect/src/detectors.rs:106-128 | each maximal burst alerts as often as its length reaches the threshold modulo 2^32; while no burst exceeds 2^32 plus the threshold, the alerts number the bursts longer than the threshold and a zero threshold never alerts |
| DupAcks.FiresByBurst | l4scope/crates/l4scope-detect/src/detectors.rs:106-128 | a packet raises the alert exactly if it is a bare ACK whose burst so far repeats as often as the threshold, modulo 2^32 |
| Window.RollingRate.constructor | l4scope/crates/l4scope-detect/src/window.rs:13-20 | a fresh ring of at least one untouched bucket |
| Window.RollingRate.Record | l4scope/crates/l4scope-detect/src/window.rs:23-31 | recording in place is the ring step, other buckets unchanged |
| Window.RollingRate.CountWindow | l4scope/crates/l4scope-detect/src/window.rs:34-45 | the loop sums exactly the buckets whose second lies in the window |
| Window.RollingRate.PerSec | l4scope/crates/l4scope-detect/src/window.rs:48-50 | the window count over the window width |
| Window.RingRefinesHistory | l4scope/crates/l4scope-detect/src/window.rs:13-45 | for any width and any order of timestamps the ring never over-reports, and is exact if and only if no event of the window was followed by one of another second in the same bucket; seconds are counted in nanoseconds |
| Window.OrderedTimeIsExact | l4scope/crates/l4scope-detect/src/window.rs:33-45 | with timestamps that never go back the ring's count is the count of the history |
| Window.BackwardsTimeLoses | l4scope/crates/l4scope-detect/src/window.rs:23-31 | an instance where time running back makes the ring report one event of two |
| Alerting.Debounce.Ready | l4scope/crates/l4scope-detect/src/detectors.rs:46-53 | the answer and the remembered time are the gate's |
| Alerting.SpacedExactly | l4scope/crates/l4scope-detect/src/detectors.rs:38-54 | over any run, alerts keep the gap if and only if the run does not open with a call at zero followed by one within the gap |
| Alerting.SpacedSpan | l4scope/crates/l4scope-detect/src/detectors.rs:38-54 | k alerts span at least k - 1 gaps |
| Alerting.SuppressedIsRecent | l4scope/crates/l4scope-detect/src/detectors.rs:46-53 | a suppressed call comes less than one gap after the last alert |
| EngineRuns.EngineTableIsRun | l4scope/crates/l4scope-detect/src/engine.rs:46-64 | the engine's table is the table run of its packets and the sweeps they trigger |
| EngineRuns.EngineKeepsInvariants | l4scope/crates/l4scope-detect/src/engine.rs:46-120 | every state the engine reaches has exact counters and handshake-consistent records |
| EngineRuns.BacklogIsRecount | l4scope/crates/l4scope-detect/src/detectors.rs:240-257 | a backlog alert reports the true number of half-open connections of the service, at or over the threshold |
| EngineRuns.BoundedMemory | l4scope/crates/l4scope-detect/src/engine.rs:46-120 | with ordered packets, after each one every tracked flow was seen less than the time to live plus one second ago, there are at most as many as distinct keys in that span, and every SYN unanswered for the timeout plus one second is flagged |
| EngineRuns.CountersStay | l4scope/docs/ARCHITECTURE.md:150-154 | an engine's counters are those of the services ever counted, and no step removes one |
| Rates.RingsHoldHistory | l4scope/crates/l4scope-detect/src/flow.rs:162-199 | the engine's two rings are the rings of the run's new flows and resets |
| Rates.WorkerHistory | l4scope/docs/ARCHITECTURE.md:158-160 | what a worker's table raises is what the single table raises for the worker's keys: resets always, new flows without a split |
| Rates.ShardedHistories | l4scope/docs/ARCHITECTURE.md:158-160 | whoever is given which sweeps, every reset is counted by exactly one worker, every new flow if no record is split |
| Rates.ShardedRates | l4scope/docs/ARCHITECTURE.md:158-160 | with ordered packets the window counts of the workers' rings add up: resets always, new flows without a split |
| HostAlerts.TimesOfRules | l4scope/crates/l4scope-detect/src/detectors.rs:58-305 | for one packet the chain emits at most one event of each kind, just if the kind's rule fires, with the packet's time |
| HostAlerts.EmittedInOrder | l4scope/crates/l4scope-detect/src/detectors.rs:291-305 | the events of one packet come in the order of the nine detectors |
| HostAlerts.OverThreshold | l4scope/crates/l4scope-detect/src/detectors.rs:197-289 | a packet asks for a storm alert exactly if it is a reset and the ring's resets of its second reach the threshold, for a churn alert exactly if it opens a conversation and the ring's new flows do, for a backlog alert exactly if the half-open conversations of its service do; the ring's counts never exceed the true counts of that second's nanoseconds, and equal them with ordered packets |
| HostAlerts.HostEvents | l4scope/crates/l4scope-detect/src/detectors.rs:197-289 | each host-wide alert carries the packet's time and key, its kind's severity, and the number held against the threshold |
| HostAlerts.AlertsAreGated | l4scope/crates/l4scope-detect/src/detectors.rs:197-289 | the alerts of each host-wide kind over a run are exactly those its own debounce lets through among the over-threshold packets |
| HostAlerts.AlertsAreSpaced | l4scope/crates/l4scope-detect/src/detectors.rs:209-288 | with nonzero timestamps in any order, alerts of a kind are at least the gap apart over the whole run |
| HostAlerts.SuppressionIsShort | l4scope/crates/l4scope-detect/src/detectors.rs:209-288 | an over-threshold packet without an alert comes less than one gap after the last alert |
| HostAlerts.RatesAreTrue | l4scope/crates/l4scope-detect/src/detectors.rs:209-288 | the rates that storm and churn alerts report never exceed the true count of the packet's second, and equal it with ordered packets |
| Reports.TraceIsLife | l4scope/crates/l4scope-detect/src/engine.rs:46-57 | over every engine run a packet finds and leaves the records that its own conversation's trace computes |
| Reports.ConnectionReports | l4scope/crates/l4scope-detect/src/detectors.rs:106-195 | refusals, slow handshakes, stalls and duplicate-ACK alerts are emitted exactly when positions of the conversation's trace say so: an unfinished handshake, a recorded SYN, a window falling to zero, a burst of equal ACKs reaching the threshold, which up to 2^32 ACKs means exactly threshold + 1 of them |
| Reports.FlowEvents | l4scope/crates/l4scope-detect/src/detectors.rs:58-195 | time, key, severity and value of every report about a conversation; a slow handshake's milliseconds are the nanoseconds since the first SYN, a warning exactly from four times the threshold on |
| Reports.SequenceReports | l4scope/crates/l4scope-detect/src/detectors.rs:58-104 | within half the number space of the mark, out-of-order data is reported exactly if it truly starts above the high-water mark; a retransmission exactly if it truly starts below it and the true ratio has reached the threshold, which is the value reported |
| Reports.TimeoutReports | l4scope/crates/l4scope-detect/src/engine.rs:46-107 | an event comes out of a timer sweep, or of the sweep a packet brings after its own update, exactly if the flow's trace up to that sweep has an unanswered, unclosed SYN older than the timeout that no earlier sweep of the trace found so; the reported wait is the time since that SYN |
| Engine.EngineState.ClearHalfOpen | l4scope/crates/l4scope-detect/src/flow.rs:277-284 | un-counts a record and adjusts its service's counter |
| Engine.EngineState.Update | l4scope/crates/l4scope-detect/src/flow.rs:157-268 | the in-place update of table, counters and rates, and the returned delta, are the model's step |
| Engine.EngineState.HalfOpenMax | l4scope/crates/l4scope-detect/src/flow.rs:119-121 | the largest counter, zero if there is none |
| Engine.Engine.constructor | l4scope/crates/l4scope-detect/src/engine.rs:30-38 | a valid engine with an empty history |
| Engine.Engine.Scan | l4scope/crates/l4scope-detect/src/engine.rs:73-86 | whatever the iteration order, the two lists hold exactly the timed-out and the idle keys, each once |
| Engine.Engine.FlagTimeouts | l4scope/crates/l4scope-detect/src/engine.rs:88-108 | flags the listed flows, gives back their counts, reports each once |
| Engine.Engine.EvictIdle | l4scope/crates/l4scope-detect/src/engine.rs:110-118 | removes the listed flows and gives back the counts of those still counted |
| Engine.Engine.SweepFlows | l4scope/crates/l4scope-detect/src/engine.rs:68-120 | table, counters and event multiset are those of the model's sweep for every iteration order |
| Engine.Engine.Sweep | l4scope/crates/l4scope-detect/src/engine.rs:68-120 | a timer sweep keeps the engine equal to the model run of its history |
| Engine.Engine.Detect | l4scope/crates/l4scope-detect/src/detectors.rs:291-305 | the nine detectors' events, in order, and the debounces' new state |
| Engine.Engine.Process | l4scope/crates/l4scope-detect/src/engine.rs:46-64 | the detectors' events in order, then the due sweep's events in any order; the engine stays equal to the model run of its history |
| Engine.Engine.Stats | l4scope/crates/l4scope-detect/src/engine.rs:122-129 | the backlog gauge is the largest recount over all services; the other gauges are the table size and the window counts of the rings of the history's resets and new flows |
| Parse.StepHeader | l4scope/crates/l4scope-capture/src/parse.rs:125-147 | a step over an extension header moves forward and stays inside the packet |
| Parse.WalkHeaders | l4scope/crates/l4scope-capture/src/parse.rs:121-148 | the walk stops where it began or strictly inside the packet |
| Parse.WalkExtensions | l4scope/crates/l4scope-capture/src/parse.rs:121-148 | the loop is the bounded walk |
| Parse.ParseIpv6 | l4scope/crates/l4scope-capture/src/parse.rs:107-152 | the IPv6 decoder on any bytes |
| Parse.WalkTags | l4scope/crates/l4scope-capture/src/parse.rs:51-60 | what is left after the tags is a suffix of the frame |
| Parse.StripLink | l4scope/crates/l4scope-capture/src/parse.rs:45-86 | the link-layer step, with its loop over tags, on any bytes and link type |
| Parse.ParseFrame | l4scope/crates/l4scope-capture/src/parse.rs:35-42 | the whole decoder is the specified decoding |
| Accepted.DecodesExactly | l4scope/crates/l4scope-capture/src/parse.rs:35-235 | on arbitrary bytes a record is returned if and only if the bytes have an IP header behind the link layer and, behind its options or a path of at most eight extension headers inside the packet, a transport header that fits |
| Accepted.DecodeIsSound | l4scope/crates/l4scope-capture/src/parse.rs:88-235 | the record of any accepted bytes has a canonical key whose endpoints are the source and destination read, the transport header's fields, and as TCP payload exactly what IP and the capture leave behind the whole TCP header |
| Wire.NetworkOrder | l4scope/crates/l4scope-capture/src/parse.rs:26-32 | fields of two, four and sixteen bytes are read as base-256 numbers, most significant byte first |
| Layout.DecodeSegment | l4scope/crates/l4scope-capture/src/parse.rs:155-235 | a TCP or UDP segment laid out by its standard is decoded to exactly its fields, whatever trails it |
| Layout.DecodeIpv4 | l4scope/crates/l4scope-capture/src/parse.rs:88-105 | an IPv4 packet with any options and any fragment field is decoded to exactly its fields |
| Layout.SpanAgreesExactly | l4scope/crates/l4scope-capture/src/parse.rs:127-136 | the decoder gives an extension header its standard span exactly if it is an authentication header just when its successor is, or its length byte is zero |
| Layout.PlainChainAgrees | l4scope/crates/l4scope-capture/src/parse.rs:124-144 | chains without authentication headers always get their standard spans |
| Layout.WalkChain | l4scope/crates/l4scope-capture/src/parse.rs:121-148 | the walk crosses an agreeing chain and stops at the transport header, or after the bound short of it |
| Layout.DecodeIpv6 | l4scope/crates/l4scope-capture/src/parse.rs:107-152 | an IPv6 packet whose extension headers get their standard spans is decoded to exactly its fields if it has at most eight of them, and dropped otherwise |
| Layout.DecodeAuthenticated | l4scope/crates/l4scope-capture/src/parse.rs:127-136 | with an authentication header of length byte l last in the chain, the transport header is read 4 * l bytes too late, or not at all if the segment is no longer than that |
| Frames.WalkAllTags | l4scope/crates/l4scope-capture/src/parse.rs:51-60 | up to two tags are crossed to the inner type; with more the walk is left at a tag |
| Frames.LayoutRoundTrip | l4scope/crates/l4scope-capture/src/parse.rs:35-235 | behind each of the four link layers, every well-formed fully captured packet whose extension headers get their standard spans comes out as exactly its fields if and only if it has at most two tags and eight extension headers |
| Frames.AuthenticationHeaderMisread | l4scope/crates/l4scope-capture/src/parse.rs:127-136 | the same outcome for whole frames behind any link layer |
| Frames.AuthenticatedAckIsDropped | l4scope/crates/l4scope-capture/src/parse.rs:127-136 | an instance: a bare TCP segment behind the common 24-byte authentication header is dropped |
| Ebpf.EmitL4 | l4scope/bpf/l4scope.bpf.c:56-101 | the record filled step by step holds the fields of the transport header, or is discarded if it does not fit |
| Ebpf.Handle | l4scope/bpf/l4scope.bpf.c:103-141 | the kernel program's event for any frame |
| Ebpf.KernelSees | l4scope/crates/l4scope-capture/src/ebpf.rs:126-156 | decoding the kernel's event gives the record of the transport header it read |
| Ebpf.ParityExactly | l4scope/crates/l4scope-core/src/types.rs:3-5 | on every frame the two capture paths agree if and only if the direct transport header does not diverge or, where there is none, the bytes behind tags and extension headers hold no transport header that fits |
| Ebpf.BackendParity | l4scope/crates/l4scope-core/src/types.rs:3-5 | on every well-formed, fully captured, untagged Ethernet frame with a direct transport header both paths yield exactly the packet's fields |
| Ebpf.EthernetParity | l4scope/crates/l4scope-core/src/types.rs:3-5 | on Ethernet frames of well-formed packets with standard spans the paths agree if and only if there are no tags and no extension headers, or more than two tags or more than eight extension headers |
| Pcap.ByteSource.Read | l4scope/crates/l4scope-capture/src/pcapio.rs:92-96 | a read delivers a prefix of what is left, is interrupted, or fails |
| Pcap.FillBuffer | l4scope/crates/l4scope-capture/src/pcapio.rs:89-119 | however reads are split or interrupted, the buffer holds exactly the next bytes, or the end is reported with the number there were |
| Pcap.ReadFull | l4scope/crates/l4scope-capture/src/pcapio.rs:89-100 | exactly the buffer's length or an error |
| Pcap.ReadFullOpt | l4scope/crates/l4scope-capture/src/pcapio.rs:103-119 | an end before any byte is no error, one inside is |
| Pcap.PcapStream.Open | l4scope/crates/l4scope-capture/src/pcapio.rs:27-42 | byte order, time unit and link type from the magic number, or the exact error |
| Pcap.PcapStream.ReadRecord | l4scope/crates/l4scope-capture/src/pcapio.rs:53-69 | one record, decided by the bytes alone unless the source breaks |
| Pcap.PcapStream.NextPacket | l4scope/crates/l4scope-capture/src/pcapio.rs:51-76 | the next decodable packet, a clean end or an error, decided by the bytes alone unless the source breaks |
| Framing.HeaderRoundTrip | l4scope/crates/l4scope-capture/src/pcapio.rs:30-40 | either byte order and either time unit is recognised from the written header |
| Framing.MagicExactly | l4scope/crates/l4scope-capture/src/pcapio.rs:11-40 | a header opens a stream exactly if its first four bytes are one of the four magic numbers |
| Framing.OversizeIsRefused | l4scope/crates/l4scope-capture/src/pcapio.rs:61-63 | a record is refused as implausible exactly if it claims more than 262144 bytes |
| Framing.TimeIsExact | l4scope/crates/l4scope-capture/src/pcapio.rs:67-69 | no timestamp a file can hold saturates; times are exact nanoseconds |
| Framing.CutRoundTrip | l4scope/crates/l4scope-capture/src/pcapio.rs:51-76 | any cut of the records reads back as the decodable frames of its whole records, and ends cleanly exactly on a record boundary |
| Framing.FileRoundTrip | l4scope/crates/l4scope-capture/src/pcapio.rs:25-77 | a serialised file reads back as its decodable frames in order with exact times, and ends cleanly |
| Framing.ReadToEnd | l4scope/crates/l4scope-agent/src/main.rs:187-209 | asking the stream until it ends gives what its bytes say, however reads are split or interrupted |
| Framing.ReadFile | l4scope/crates/l4scope-capture/tests/pcap_replay.rs:23-27 | opening a source that does not break and reading it to the end gives exactly the decodable frames of the file written to it |
| Attribution.MaskMeansBlock | l4scope/crates/l4scope-export/src/attribution.rs:55-68 | for any word width and prefix, masked addresses are equal exactly when the address lies in the aligned block around the network |
| Attribution.BlocksNest | l4scope/crates/l4scope-export/src/attribution.rs:53-71 | two blocks of a family are nested or disjoint |
| Attribution.CidrMeansBlock | l4scope/crates/l4scope-export/src/attribution.rs:53-71 | containment in both families is block membership; an overlong prefix or the other family contains nothing |
| Attribution.LocalPodIp | l4scope/crates/l4scope-export/src/attribution.rs:39-50 | no address exactly if both endpoints lie outside every block, otherwise the low endpoint first |
| JsonText.JsonEscape | l4scope/crates/l4scope-core/src/types.rs:239-252 | the loop produces the escaped text |
| JsonText.EscapeRoundTrip | l4scope/crates/l4scope-core/src/types.rs:224-252 | a strict RFC 8259 reader recovers the text and the exact suffix if and only if the text's only control characters are newline, return and tab; a lenient reader always does |
| JsonText.EscapeIsInjective | l4scope/crates/l4scope-core/src/types.rs:239-252 | different texts are written differently |
| JsonText.EscapeStaysOnLine | l4scope/crates/l4scope-core/src/types.rs:223-252 | an escaped text holds no line break |

## Left out

- Argument parsing, environment, the agent's loop but for its reading of the stream, threads, sockets and files (`l4scope-agent`, `http.rs`, `json.rs`, `otlp.rs`): I/O around the modelled core.
- `live.rs`, `etw.rs`, `build.rs`, and in `ebpf.rs` everything but the decoding of one event: process spawning, a stub, and foreign calls. A full ring buffer, on which the kernel program drops the event, is part of that.
- `metrics.rs`, `config.rs` and `synthetic.rs`: counters behind a lock, key dispatch, one fixed script.
- Event `detail` strings, address printing and parsing, and the CIDR list parser: text formatting by the standard library. The pod matcher takes its parsed blocks.
- Rounding of 64-bit floats: ratios and rates are reals.
- DupAcks.AlertsAreLongBursts: the counter wraps as in the release build; a build with overflow checks would stop there instead.
- Sequence.SequenceRefinement: the 64-bit retransmission and segment counters are unbounded.
- Window.RingRefinesHistory: the 64-bit bucket counters are unbounded.
- Runs.RunKeepsCounters: the 32-bit half-open counters are unbounded; they never exceed the number of tracked flows (`Runs.DecrementIsExact`), so they fit while fewer than 2^32 flows are tracked.
- Workers.WorkerTables: tables, counters and new-flow histories are compared in runs without a split; runs with one are covered key by key by `Workers.OwnSweepsExactly`.
- Configured seconds are bounded so that their nanoseconds fit 64 bits, as the program's multiplication requires.
- Replacing the detector chain (`set_detectors`): the default chain is modelled.
- Layout.DecodeIpv4: fragment offsets are not examined by the decoder, so the round trip holds for every value of the field; for a later fragment the bytes after the IP header are not a transport header, and nothing is claimed about its meaning.
- Layout.DecodeIpv6: a wrongly spanned header other than an authentication header last in the chain leaves the walk at other bytes of the packet; where it goes from there depends on those bytes, and only `Accepted.DecodesExactly` speaks of it.
- Accepted.DecodeIsSound: UDP payload lengths are taken from the UDP header and not clipped to the capture; the bound on captured payload is stated for TCP, as the program computes it.
