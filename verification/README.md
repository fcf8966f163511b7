# UDPing, modelled and verified in Dafny

UDPing measures latency and packet loss over a link. A client sends numbered UDP packets, round-robin
over a list of source ports, and gives every port a fresh GUID at each measurement interval. A server
groups what arrives into sessions by GUID, reports a session some time after its last packet, and an
aggregator totals the reports for each pair of hosts. Beside it run a `ping` scanner that counts lost
echo requests, and an agent that keeps the right set of child processes alive.

The project models these programs and proves that what they report is true: above all that the
*reported* loss is the *actual* loss, from the client's send loop to the counters on the dashboard, for
any number of client runs on a port. For one session the conditions are exact, and the amount missed
when they fail is stated. Between sessions the amount missed is stated too: the reported loss is the true
loss less the gaps that no record counts, and it is right if and only if there are none. Which gaps those
are, and whether a run meets the conditions at all, is read off the log of arrivals and alarms alone.

| module | file | models |
|---|---|---|
| `SeqWindow` | SeqWindow.dfy | the wrap-around sequence window of a session |
| `Statistics` | Stats.dfy | src/stats.cc |
| `Options` | Option.dfy | a value that may be missing |
| `GuidOrder`, `ServerModel` | ServerModel.dfy | the server as a state machine over values |
| `ServerRuns` | ServerRuns.dfy | conservation and reporting delay over whole runs |
| `ClientStreams` | ClientStream.dfy | the packets of one client run on one port, and when its sessions are reported |
| `RunTraces` | RunTrace.dfy | every moment of a client run: its live sessions a linked chain, its records one for each interval |
| `LossAccounting` | LossAccounting.dfy | reported loss against true loss, for one client run on one port |
| `PunctualLogs` | PunctualLog.dfy | which sessions are live, and the loss accounting, from the log alone |
| `LossExample` | LossExample.dfy | two runs on one port, of any length, that meet all its conditions |
| `ServerSessions` | ServerSession.dfy | the classes of src/serversession.cc, proved to take the steps of `ServerModel` |
| `Checksums`, `Frames` | Checksum.dfy, Frame.dfy | src/protocol.cc |
| `MacLists`, `Clients` | MacList.dfy, Client.dfy | src/maclist.cc, src/clientsession.cc |
| `SendLoops` | SendLoop.dfy | the loop of src/client.cc: port, next hop, number and GUID of every send |
| `PingRings` | PingRing.dfy | otel/ping_otelsender.go, otel/ping_reader.go |
| `Aggregators` | Aggregator.dfy | otel/udping_otelsender.go |
| `Agents` | Agent.dfy | agent/udping_agent |
| `EndToEnd` | EndToEnd.dfy | client, network, server and aggregator together |

Code that updates objects, arrays or maps in place is modelled by classes and methods, each proved
against a function on values; the theorems are lemmas about those functions.

How the environment enters: time is a parameter of each step (a received packet has two clock
readings, as in the code, and an alarm one); random GUIDs are inputs, distinct where a theorem says so;
each packet and each alarm is one atomic step; what is written to the console or to statsd is appended
to a log; `double` is `real`. `index`, `slot`, `epoch`, `arrivals` and `id` are auxiliary: they are
recorded, and no step of a program depends on them. The client's clock is not before 0. Unsigned wrap-around, 16-bit truncation and `%d` of
an unsigned number are written out.

## Where the code and its documentation disagree

- README.md:38-53 of the repository describes control packets that end a measurement period. The code
  has none: a session ends by timeout (src/serversession.cc:76-101), and the model follows it.
- The comment on `reset` (src/clientsession.cc:159-162) says it resets the sequence number. It only
  draws a new GUID, and the sequence number runs on; loss accounting across intervals depends on it.
- A loss of 10 or more packets in a row inside a session leaves its window where it is
  (src/serversession.cc:46-52) until a packet within 9 of it comes (`FrozenIff`), and the report falls
  short by as much as the range has grown (`UnderCount`). Hence the tolerance conditions, which are exact
  (`WindowExactIff`, `LossExactIff`, `TilesIff`).
- A gap between two intervals is meant to show in the report of the first (src/serversession.cc:83-85). It
  does not when the gap is wider than 9, or when the second session is not in the map at that sweep: its
  packets have not come yet, or both have expired and its GUID sorts first. `HandedOverIff` and
  `LossOnRecord` give the exact conditions on the log and the exact amount.
- The ping senders read `icmp_seq` as a 16-bit signed number and ignore the error
  (otel/ping_otelsender.go:100), so all numbers above 32767, half of a cycle, count as 32767. A miss of 32768
  and replies to 32769 and 32770 leave the target count at 1 and the drop count at -1 (`ClampedExample`).
  `ClampedCounters` gives the counters for any such lines, and `ClampedExactIff` when they are right.
- `udp4_checksum2` shifts a left-over byte left, unlike `checksum`; the two agree exactly when the length
  is even or that byte is zero (`ZeroCopyExactIff`). The one caller passes an even length.
- RFC 768 has a computed zero transmitted as all ones; the code transmits the zero, and `ZeroCheckIff`
  says when.
- A client clock within one interval of 0 makes the first rollover go unnoticed (src/clientsession.cc:149);
  `EpochsAreIntervalsIff` gives the exact condition.
- A signature of the agent is meant to name one target. With a dot in a mesh name or a host name two
  targets can share one (`SignatureExamples`), and then only the later runs; `SignatureTells` says when they
  cannot. In the same way two pairs of hosts share a key of the aggregator if a sending host has a dash in
  its name, and are reported under the names of the first (`KeysClash`, `KeyTells`, `HostsOfFirst`).

## Model

| member | source | states |
|---|---|---|
| SeqWindow.RecordExactIff | src/serversession.cc:41-53 | one arrival keeps the 32-bit window equal to the unbounded range modulo 2^32 if and only if it is at most 9 outside that range |
| SeqWindow.WindowExactIff | src/serversession.cc:21-24 | the window is exact after every arrival of any sequence spanning at most 2^32-10 if and only if every arrival was within tolerance |
| SeqWindow.WindowOrderIndependent | src/serversession.cc:41-53 | two tolerant orders of the same arrivals end with the same window |
| SeqWindow.TargetCountsMissing | src/serversession.cc:35-53 | for duplicate-free tolerant arrivals targetCount - count is the number of values missing between the least and the greatest |
| SeqWindow.LossExactIff | src/serversession.cc:35-53 | for duplicate-free arrivals targetCount - count is the number of missing values after every arrival if and only if every arrival is within 9 of those before it |
| SeqWindow.FrozenIff | src/serversession.cc:43-53 | after tolerant arrivals the later ones leave the window where it is, one and all, if and only if each is inside the range of the former or 10 or more outside it |
| SeqWindow.UnderCount | src/serversession.cc:35-53 | with such later arrivals, targetCount - count falls short of the number of missing values by exactly the growth of the range, which is at least 10 |
| SeqWindow.RecordGrowth | src/serversession.cc:43-53 | for any value at all, while the window is short of 2^32-18 at most one edge moves, by at most 9, and no member leaves it |
| SeqWindow.TargetCountBound | src/serversession.cc:35-53 | whatever arrives, a reported targetCount lies between 1 and 1 + 9 * count |
| Statistics.SumSquaredAtMost | src/stats.cc:15-23 | sum squared is at most count * sumOfSquares |
| Statistics.SumAtMostCountTimesMax | src/stats.cc:15-23 | sum is at most count * max |
| Statistics.SumsAdd | src/stats.cc:15-23 | sum and sum of squares of two lists of data points add up, and a single point counts as itself and as its square |
| Statistics.Stats.AddDataPoint | src/stats.cc:15-24 | the four figures after one more data point; the count is returned and the target count kept |
| ServerModel.SweepExact | src/serversession.cc:76-101 | a sweep removes exactly the sessions with lastArrival < now - keepalive, leaves the others untouched, and emits one record for each in GUID order, with its successor if that is in the map and not removed before it |
| GuidOrder.BelowIff | src/serversession.cc:79-80 | the order of the session map is the dictionary order: one GUID comes before another if and only if it is a prefix of it, or has the smaller character where they first differ |
| ServerModel.NamedInOrder | src/serversession.cc:79-92 | of two sessions that expire in one sweep, the first linked to the second, the record of the first names the second if and only if its GUID has the smaller character where the two first differ |
| ServerModel.SweepIdempotent | src/serversession.cc:76-101 | a second sweep at the same time does nothing |
| ServerModel.TilesIff | src/serversession.cc:85-91 | a record with a live successor is reported with targetCount = successor's minSeq - own minSeq if and only if 0 to 9 numbers are missing between them and the successor does not begin 0 to 8 before the session itself |
| ServerModel.SummaryMeaning | src/stats.cc:15-24 | the accumulated figures are the count, sum, sum of squares and maximum of the session's own latencies |
| ServerModel.LatencyIsClockDifference | src/serversession.cc:108-113 | the elapsed time is the difference of the two nanosecond clocks, in milliseconds |
| ServerRuns.RunWellFormed | src/serversession.cc:58-117 | in every run each window is the one its own arrivals determine, identities are never reused, and sessions created = live + reported |
| ServerRuns.RunHistory | src/serversession.cc:58-117 | in every run, for every GUID, its records followed by its live session hold exactly the packets that arrived with it, each once, in order |
| ServerRuns.RunConservesCounts | src/serversession.cc:58-117 | accepted pings = counts of live sessions + counts of emitted records |
| ServerRuns.RecordsConsistent | src/serversession.cc:35-39 | every record of every run has count >= 1, consistent figures and a bounded targetCount |
| ServerRuns.ReportingDelay | src/serversession.cc:76-117 | with alarms at most keepalive apart and a monotone clock, every record comes more than 1 and at most 3 keepalive intervals after its session's last arrival, and none is live more than 2 after it |
| ServerRuns.ReportingDelayTight | src/serversession.cc:163-168 | the bound of 3 intervals is attained for every keepalive |
| LossAccounting.LinkedTarget | src/serversession.cc:83-91 | a report tied to a successor starting at most 9 numbers after its range covers exactly the numbers from its first up to the successor's first |
| ClientStreams.ReportedInOrder | src/serversession.cc:63-69 | no session of a client run is reported while the one before it is live |
| RunTraces.RunTraced | src/serversession.cc:58-101 | at every moment, whatever is lost between intervals and whatever other runs the port carries, the intervals begun so far have one session or one record each, each live session is linked to the next, and a record names its successor if and only if the sweep that made it found that session |
| RunTraces.RunChained | src/serversession.cc:58-74 | if also each successor is settled when a session is reported, a client run's sessions form a chain: the oldest reported in order, the rest live, each linked to the next |
| LossAccounting.ReportedLoss | src/serversession.cc:35-117 | end to end, whatever is lost between intervals: over the records of a client run, the sum of targetCount - count is the number of its packets between the first and the last received that were never delivered, less the gaps after records without a successor and the gaps wider than 9; it is the true number if and only if all those gaps are empty |
| LossAccounting.ReportedLossIsTrueLoss | src/serversession.cc:35-117 | it is the true number when every session is reported with its successor settled and every gap is at most 9; runs with another start time may come before and after on the same port |
| PunctualLogs.LiveIffRecent | src/serversession.cc:76-117 | while the clock does not go back, a session is live exactly while the last sweep, which the log determines, is at most keepalive after its GUID's last packet |
| PunctualLogs.ReportedIsLate | src/serversession.cc:76-101 | the event that reports a session sweeps, and more than keepalive after the last packet so far of its GUID, which is what the session holds |
| PunctualLogs.NoneAfterIff | src/serversession.cc:76-101 | no packet of a GUID comes after its session was reported if and only if no sweep before one of its packets finds those so far more than keepalive old |
| PunctualLogs.MeetsIff | src/serversession.cc:79-85 | the sweep that reports a session finds another in the map if and only if a packet of the other came before any sweep found the first expired, and a sweep falls after the expiry of the first and not after that of the other, or the two expire in one sweep that comes to the first before the other |
| PunctualLogs.HandedOverIff | src/serversession.cc:83-91 | it finds the session of the next interval with its least packet if and only if, moreover, that packet came before any sweep found the first expired |
| PunctualLogs.AccountableIff | src/serversession.cc:58-117 | while the clock does not go back, the conditions of the accounting on the server's state hold if and only if those on the log do |
| PunctualLogs.TraceableIff | src/serversession.cc:58-117 | the same for the conditions under which the amount missed is known |
| PunctualLogs.LossOnRecord | src/serversession.cc:35-117 | the exact accounting from the log: the reported loss is the true loss less the gaps that are wider than 9 or where the next interval does not take over, and it is true if and only if there are none |
| PunctualLogs.PunctualLossIsTrueLoss | src/serversession.cc:35-117 | on a log whose intervals are all handed over with gaps of at most 9, whichever way their GUIDs sort, the reported loss is the true loss |
| LossExample.ConditionsMet | src/serversession.cc:58-117 | for every keepalive, every number of intervals as long as it, and every choice of up to 9 losses between them, each of two runs on one port, with GUIDs in descending order, meets every condition and has lost what was chosen |
| LossExample.BothRunsShown | otel/udping_otelsender.go:112-122 | and the dashboard shows the losses of both runs |
| ServerSessions.ServerSession.RecordSeq | src/serversession.cc:43-53 | moves the edges of the window as the model does |
| ServerSessions.ServerSession.WriteStats | src/serversession.cc:35-39 | the record written is that of the session's window and of its own arrivals |
| ServerSessions.ServerSession.Receive | src/serversession.cc:106-115 | what one packet does to its session |
| ServerSessions.ServerSessionManager.GetServerSession | src/serversession.cc:58-74 | finds or opens the session and links the live predecessor of the same source and run |
| ServerSessions.ServerSessionManager.SweepServerSessions | src/serversession.cc:76-101 | terminates, never meets a null entry, and leaves the state the model's sweep leaves |
| ServerSessions.ServerSessionManager.ReceivePing | src/serversession.cc:103-117 | one packet is one step of the model |
| ServerSessions.ServerSessionManager.HandleAlarm | src/serversession.cc:163-168 | one alarm is one step of the model |
| ServerSessions.Serve | src/server.cc:67-78 | a server handed any events has taken the model's run and written exactly its records |
| Checksums.FoldSum | src/protocol.cc:202-204 | the folding loop ends within two passes with the model's value |
| Checksums.FoldIs | src/protocol.cc:199-204 | folding gives 0 for 0 and otherwise ((sum - 1) mod 65535) + 1 |
| Checksums.NoOverflow | src/protocol.cc:185-197 | for up to 65537 words the 32-bit accumulator never overflows |
| Checksums.Checksum | src/protocol.cc:182-210 | the loop over native words returns the complement of the folded 32-bit sum, for any length, even a negative one |
| Checksums.KnownVectors | tests/t_protocol.cc:22-24 | the three values the repository's own test expects |
| Checksums.Udp4Checksum2 | src/protocol.cc:213-241 | the zero-copy loop returns the complement of its folded sum |
| Checksums.ZeroCopyExact | src/protocol.cc:213-241 | for every even length it equals `checksum` over pseudo-header, UDP header and payload laid out in memory |
| Checksums.ZeroCopyExactIff | src/protocol.cc:232-236 | for every payload an IP packet can hold the two agree if and only if the length is even or the left-over byte is zero |
| Checksums.PrefixSuffices | src/protocol.cc:168-172 | when all beyond an even prefix is zero, checksumming the prefix gives the checksum of the whole payload, even or odd |
| Checksums.ChecksumVerifies | src/protocol.cc:159-160 | storing the checksum of a buffer in its zero field makes the buffer's checksum 0 |
| Checksums.DatagramVerifies | src/protocol.cc:167-172 | the receiver's sum over pseudo-header, UDP header with its check field and whole payload folds to 0xffff |
| Checksums.ZeroCheckIff | src/protocol.cc:237-240 | the check field is sent as 0, against RFC 768, exactly when the sum is a multiple of 65535 |
| Checksums.ByteOrderIndependent | src/protocol.cc:182-210 | on byte-swapped words the checksum comes out byte-swapped (RFC 1071, section 2(B)) |
| Frames.FillIpHeader | src/protocol.cc:147-160 | stores the 20 bytes of the header, with the checksum computed over a zero sum field, and nothing else |
| Frames.BuildFrame | src/protocol.cc:135-178 | the buffer afterwards is the frame of the given addresses, lengths, checksums and message, and is unchanged beyond it |
| Frames.ReceivedAsSent | src/protocol.cc:135-178 | a receiver that reads the frame by section 3.1 of RFC 791 and by RFC 768 finds the addresses, ports, lengths and message that were given: IPv4, 5 header words, no fragment, lifetime 255, protocol UDP |
| Frames.IpHeaderVerifies | src/protocol.cc:147-160 | re-running `checksum` over the IP header of any frame gives 0 |
| Frames.UdpVerifies | src/protocol.cc:162-175 | for any frame with an even message, or a zero tail beyond an even checksummed prefix, the sum over the pseudo-header and the datagram, both read off the frame, folds to 0xffff |
| MacLists.MacList.constructor | src/maclist.cc:8-35 | the counting and parsing loops fill the list the string denotes, with the cursor past the end, or none if one address is invalid, with the cursor at that one |
| MacLists.MacList.NextMac | src/maclist.cc:51-55 | advances the cursor cyclically and returns the address under it; nothing for an empty list |
| MacLists.ParseRoundTrip | src/maclist.cc:57-63 | parsing the comma-joined `toString` of any nonempty list of addresses gives the same list |
| MacLists.HexDigitIff | src/maclist.cc:18-24 | which character is which hexadecimal digit, in either case |
| MacLists.ScanField | src/maclist.cc:18-24 | a byte of an address may be spelled with leading white space and with any number of digits; its value is that of the numeral, cut to 8 bits, or 255 for a numeral beyond 64 bits |
| MacLists.FieldThenMore | src/maclist.cc:18-24 | a colon after it continues with the next byte |
| MacLists.ScanStops | src/maclist.cc:18-30 | a field that is no number ends the address |
| Clients.BucketMeaning | src/clientsession.cc:147-148 | the interval of a clock reading starts at the multiple of the interval length at or before it, and the next one after it |
| Clients.ClientSession.Rollover | src/clientsession.cc:146-157 | the rollover test moves the clock state as the model does and says whether it rolled |
| Clients.ClientSession.SendAndIncrement | src/clientsession.cc:171-204 | the n-th packet of a port carries number n mod 2^32, the current GUID and the next hop n mod M |
| Clients.ClientSessionList.GetNextSession | src/clientsession.cc:114-121 | the cursor goes round the list |
| SendLoops.SendLoop | src/client.cc:88-98 | for every i the i-th send uses port i mod P, next hop (i div P) mod M and number (i div P) mod 2^32, in the epoch its port's clock readings determine, and carries the port's first GUID in epoch 0 and in a later one the GUID drawn at the send with which the port entered it |
| SendLoops.GuidOfEpoch | src/client.cc:91-94 | what a port's table of GUIDs holds for an epoch is its first GUID, or the one drawn when it entered that epoch |
| SendLoops.PortGuidsDistinct | src/clientsession.cc:163-165 | while no GUID is generated twice, no two epochs of a port share one |
| SendLoops.SameGuidIff | src/clientsession.cc:163-165 | and two sends carry the same GUID if and only if they are of one port and one epoch |
| SendLoops.ScheduleCoversOnce | src/client.cc:88-98 | any P * M consecutive sends use each pair of a port and a next hop exactly once |
| Clients.EpochsConsecutive | src/clientsession.cc:146-165 | from one send of a port to the next its epoch stays or goes up by one |
| Clients.EpochsAreIntervalsIff | src/clientsession.cc:146-157 | with a monotone clock two sends share a GUID epoch exactly when they have the same integer quotient of time by interval, for every pair, if and only if the clock starts at or after one interval or never leaves the first |
| PingRings.PingScanner.ProcessLine | otel/ping_otelsender.go:89-138 | one line updates ring, cursor and counters in place as the model does |
| PingRings.PingScanner.Observe | otel/ping_otelsender.go:67-82 | the counters observed, the mean latency, and the latency window restarted |
| PingRings.PingScanner.Dump | otel/ping_reader.go:35-50 | the counters and the mean latency printed, then all restarted; the ring goes on |
| PingRings.CountersGoOn | otel/ping_otelsender.go:67-82 | however lines and reports interleave, ring and counters are those of the lines alone |
| PingRings.LatencyWindow | otel/ping_otelsender.go:67-134 | however they interleave, the latency window holds the number and the sum of the reply times since the last report, for either program |
| PingRings.LatencyIsMean | otel/ping_otelsender.go:67-82 | so a report observes the mean of those times, or 0 if there were none |
| PingRings.RepliesConserved | otel/ping_otelsender.go:109-134 | on any lines at all targetCount - dropCount is the number of replies |
| PingRings.WindowsAddUp | otel/ping_reader.go:35-102 | on the same lines the printed windows and the current one add up to the cumulative sender's counters |
| PingRings.NewLooksNewIff | otel/ping_otelsender.go:104-108 | a number beyond the greatest is recognised as new if and only if it is in the same block of 1024 or at most 23 ahead |
| PingRings.LateLooksOldIff | otel/ping_otelsender.go:104-108 | a number behind the greatest is recognised as old if and only if it is in the same block and at most 1000 behind |
| PingRings.ProcessExactIff | otel/ping_otelsender.go:103-134 | a line up to 32767 that is beyond the greatest number and looks new, or late but in the same block and at most 1000 behind, keeps the ring true to the unbounded history, and the counters exact if and only if it is no second reply and no miss after an unmissed reply |
| PingRings.RingExactIff | otel/ping_otelsender.go:85-139 | on a stream of such lines targetCount is the number of distinct sequences seen and dropCount the number missed and never answered, after every line, if and only if every line is clean |
| PingRings.ClampedCounters | otel/ping_otelsender.go:99-134 | what lines with numbers above 32767 add to the counters: each line counts up to the first miss and none after it, while every later reply takes one off the drop count |
| PingRings.ClampedExactIff | otel/ping_otelsender.go:99-134 | for such lines with new numbers the counters are exact if and only if no line follows a miss |
| PingRings.ClampedExample | otel/ping_otelsender.go:99-134 | a miss and two replies, three numbers of which one is lost, leave a target count of 1 and a drop count of -1 |
| PingRings.LateReplyAcrossWrap | otel/ping_otelsender.go:104-108 | a late reply from before a 1024 wrap leaves both counters one too high |
| Aggregators.Aggregator.Read | otel/udping_otelsender.go:91-124 | one record is added to the datapoint of its pair of hosts, which is created if missing |
| Aggregators.Aggregator.Report | otel/udping_otelsender.go:70-87 | the report observes each key's counters and mean latency, restarts every latency window and keeps every counter |
| Aggregators.CountersAreTotals | otel/udping_otelsender.go:112-122 | however records and reports interleave, each key's counters are the totals of its records |
| Aggregators.WindowsAreTotals | otel/udping_otelsender.go:82-123 | each key's latency window totals the records since the report before |
| Aggregators.ObservedFigures | otel/udping_otelsender.go:70-87 | a report observes the totals of all records and the mean latency of those since the report before |
| Aggregators.HostsOfFirst | otel/udping_otelsender.go:97-111 | a key is held if and only if a record had it, and carries the two hosts of the first that did |
| Aggregators.KeyTells | otel/udping_otelsender.go:97-111 | a key tells the two hosts while no sending host has a dash in its name |
| Aggregators.FiguresOfPair | otel/udping_otelsender.go:70-124 | and then the datapoint of a pair is under its own names and is fed by its own records alone |
| Aggregators.ReceivedConserved | otel/udping_otelsender.go:112-122 | summed over the keys, targetCount - dropCount is the sum of all counts read |
| EndToEnd.PortRunOfLog | src/client.cc:89-98 | the sends of each port in the log of the send loop are numbered consecutively, in ascending epochs, and no two epochs share a GUID while none is generated twice |
| EndToEnd.ClientLossReported | src/serversession.cc:35-117 | for packets a client run really sent from a port, the reported loss is the number of packets it sent, between the first and the last that arrived, that never arrived |
| EndToEnd.PunctualClientLoss | src/serversession.cc:35-117 | the same with every condition stated on the log of arrivals and alarms |
| EndToEnd.ClientLossOnRecord | src/serversession.cc:35-117 | whatever is lost between intervals, the reported loss is the number of packets sent between the first and the last that arrived that never arrived, less the gaps that the log shows uncounted; it is exact if and only if there are none |
| EndToEnd.DashboardLoss | otel/udping_otelsender.go:112-122 | the aggregated drop count of a pair of hosts is the number of packets truly lost, over all the client runs on all the ports between them, less the gaps that no record counts |
| EndToEnd.DashboardShowsTrueLoss | otel/udping_otelsender.go:112-122 | it is the number truly lost when every run meets the conditions |
| EndToEnd.RecordOrigin | src/serversession.cc:35-39 | in every run a record bears a GUID and a source with which a packet came, and its figures are those of the latencies of packets with that GUID |
| EndToEnd.AggregatedLatency | otel/udping_otelsender.go:112-124 | the aggregated count and sum of a pair of hosts are the number and the sum of the latencies of its packets |
| Agents.Agent.Launch | agent/udping_agent:38-111 | the child is recorded under its signature with its parameters and a new process id |
| Agents.Agent.Reconcile | agent/udping_agent:184-201 | an unchanged child is kept, a changed one killed and relaunched, a missing one launched, an unknown mechanism left alone |
| Agents.Agent.Synchronize | agent/udping_agent:175-204 | afterwards the children are exactly the wanted signatures with a known mechanism; unchanged ones keep their process id, and only vanished or changed ones were killed; from the target list: each ping target has its sender and each udping target its client and the server of its mesh, with their parameters, unless a later target has the same signature, and nothing else runs |
| Agents.KilledIff | agent/udping_agent:184-204 | a child is killed if and only if no target asks for it, or the last that does gives one of its parameters another value |
| Agents.SignatureTells | agent/udping_agent:177-183 | targets with separators only where the format has them share a signature only if mechanism, mesh, hosts and addresses are the same |
| Agents.SignatureExamples | agent/udping_agent:177-183 | two signatures spelled out, and two targets that share one |
| Agents.Agent.CheckForOrphans | agent/udping_agent:25-35 | exactly the children whose process exited are forgotten, and counted |
| Agents.Resynchronize | agent/udping_agent:246-254 | a second synchronisation with the same targets kills nothing and launches exactly what was reaped in between; the others keep their process id |

## Left out

- Sockets, name resolution, interface lookup, privilege dropping, option parsing, usage texts: system calls.
- The checks of `readNextPacket` (src/serversession.cc:119-149) other than that a packet is accepted or not: an event of the model is an accepted packet.
- The port-range parser of `ClientSessionList` and the normalisation of `-s`/`-n` in src/client.cc: the list of ports is an input of the model.
- Formatting of console and statsd output, except that the target count is printed signed; host lookup.
- Memory lifetime: `sourceMap` may point at a deleted session (src/serversession.cc:66-71, 92), which is undefined behaviour in C++; the model keeps the object, and a link set on it has no effect.
- Two client runs on one port of which one opens a session in the midst of the other, or that start in the same second: the code remembers one predecessor for each port and tells runs apart by start time (src/serversession.cc:63-71). `RunsApart` and `Carries` exclude them.
- Signal-handler reentrancy, mutexes: each packet, alarm, line and report is one atomic step.
- Floating-point rounding: `real`. Overflow of the `int` counters of packets and data points.
- MacLists.MacList.constructor: does not model the optional sign and `0x` prefix that `sscanf` takes in a byte of an address, nor an empty list string, on which the code reads past the string's end.
- MacLists.ScanField: takes a numeral without sign or prefix, as the constructor does.
- MacLists.ScanStops: counts a sign as the end of an address, as the constructor does.
- The text search of a ping line and a negative sequence number, on which the Go programs panic; a line enters the model by its number and status.
- Random pauses and packet sizes; `doRandomPause` affects no result proved here.
- The agent's process-tree killing, forking, HTTP and the sharing of a parameter dictionary between target list and child; agent/agent.go.
- The controller, the OpenTelemetry setup and deployment files.
