# A verified model of the utiputils network tools

This project models, in Dafny, the parts of the Rust port of iputils that carry state, arithmetic
or byte formats, and proves properties of them over every input and every run. Sockets, clocks,
the kernel and the resolver are inputs: scripts of what happens, or functions that decide it.

`dafny verify dfyconfig.toml` checks everything.

| file | what it holds |
|---|---|
| `basics.dfy` | machine bytes and words, options, elapsed time |
| `send_log.dfy` | the unbounded log of probes that the 64-slot ring of tracepath stands for |
| `tracepath_machine.dfy` | an IPv6 tracepath run as a deterministic machine over that log, and its safety theorems |
| `tracepath.dfy` | the program: ring, pointer, marks and nested loops updated in place, proved to produce the machine's run |
| `clockdiff.dfy` | the estimator, its clock error bound, its filters, and the sample loop |
| `ping_stats.dfy` | outstanding sends, counters, running sums, and the printed statistics |
| `ping_run.dfy` | preload, flood, main loop and final listen, over IPv4 and IPv6; node information queries |
| `ip_options.dfy` | a grammar of IPv4 options (section 3.1 of RFC 791) and the extraction of one option |
| `record_route.dfy` | the walk that collects recorded routes, and the comparison behind "(same route)" |
| `timestamp_option.dfy` | the printing of timestamp options, and routers that fill them in |
| `icmp_packet.dfy` | the echo request (RFC 792) and its checksum (RFC 1071) |
| `ifenslave.dfy` | enslaving and releasing over a table of interfaces whose every request may be refused |
| `dns_cache.dfy` | the bounded reverse-DNS cache in front of a deterministic resolver |

How the pieces relate: the in-place programs (`Tracepath.RunState`, `Clockdiff.SumResult`,
`PingStatistics.PingStats`, `PingRun.Session`, `Ifenslave.NetworkInterface`, `DnsCache.Cache`) are
proved against specifications on values (`TracepathMachine.Next`, `Clockdiff.Run`,
`PingStatistics.Book`, `PingRun.Run`, `Ifenslave.Enslaves`, `DnsCache.AskAll`), and the theorems
are about those specifications over all environments.

## What the proofs found

Where the code does something else than its comments, documentation or messages suggest, the model
follows the code, and the exact condition is proved.

- A probe's port is the base port plus a slot number in 16 bits (`src/tracepath.rs:567`). The sum
  wraps (a build with overflow checks would stop instead); no port wraps if and only if the base
  port is at most 65472, and the attribution theorem carries that condition exactly.
- A late reply is attributed correctly up to 20 hops later, and 20 is the exact limit: at 21 the
  ring has gone round and the reply is charged to a newer probe.
- The check right after a send (`src/tracepath.rs:623-681`) takes a message off the queue without
  marking its TTL, so a hop can answer all three probes and still be printed as "no reply".
- A hop-limit message found while clearing the queue (`src/tracepath.rs:368-374`) is treated as an
  unreachable host and ends the run; the same message found while waiting does not.
- With -c c and at least c preloaded packets, ping reads exactly one of their replies and reports the
  others as lost, even if all were answered: the count is checked against the sends after each reply
  (`src/ping/ping_impl.rs:780-782`, `src/ping/ping6_common.rs:357-362`).
- `measure_delta` of clockdiff is not built from minima over the samples, in two ways. Both minima
  start at zero (`src/clockdiff.rs:66-76`), so a remote clock far ahead is reported with about half
  of its offset. And a reply within its own millisecond overwrites both (`src/clockdiff.rs:118-121`),
  so whatever came before it is forgotten. `MinimumIsLeastIff` says for every run when a minimum is
  one all the same; after such a reply the measure is sound, by `MeasureAfterReset`.
- A timestamp option that cannot be parsed enters clockdiff as a perfect sample with offset zero
  (`src/clockdiff.rs:342-346`). The error bound then holds if and only if the true offset is zero
  or a sample without any delay came earlier.
- The record-route walk steps over an end-of-list byte where the extractor stops, so the two agree
  if and only if the extractor meets none. The bound on the number of addresses counts the
  record-route options that are long enough for a pointer; one of length two has no such header.
- "(same route)" reads at fixed offsets (`src/ping/ping_common.rs:724`) although the requested
  option is preceded by a NOP, so the last two address bytes are never compared: equal routes
  follow if and only if the ninth slot is unused or those bytes agree.
- Copying the addresses of a bond (`src/tools/ifenslave/network.rs:281-287`) loses the first record
  it is given, and swallows a refused listing in the same way.

## Model

| member | source | states |
|---|---|---|
| SendLogs.NewestIffRecent | src/tracepath.rs:46-46 | a send is the newest one on its port exactly while at most 63 later sends happened |
| SendLogs.AttributedIffRecent | src/tracepath.rs:893-927 | a message naming the port of an unanswered probe answers that probe, with its TTL and its own round-trip time, if and only if the probe is among the last 64 and its port neither wrapped nor is 0 |
| SendLogs.PortsFitIff | src/tracepath.rs:567-567 | no probe port wraps past 65535 if and only if the base port is at most 65472 |
| SendLogs.StaleReplyChargedToNewer | src/tracepath.rs:903-922 | a reply to a probe that is no longer among the last 64 is charged to the newer probe that took its port over, or to the current TTL if that one was answered |
| SendLogs.ChargedToCurrent | src/tracepath.rs:898-926 | a message that names no port, an answered probe or a port no probe has used is charged to the current TTL and changes nothing, with the time since the last send or zero |
| SendLogs.DiscoveryAnsweredOnce | src/tracepath.rs:1347-1366 | before the first probe the first port stands for the discovery packet, with TTL 1 and its own time, exactly once |
| Tracepath.NextSlotFollows | src/tracepath.rs:609-609 | the masked 8-bit increment keeps the history pointer equal to the number of successful sends modulo 64 |
| Tracepath.RingDiscovers | src/tracepath.rs:1347-1351 | the discovery packet occupies slot 0 without moving the pointer, as a ghost send of the log |
| Tracepath.RingRecords | src/tracepath.rs:603-612 | overwriting the slot at the pointer turns the ring of a log into the ring of that log with the send recorded, for every log and any 16-bit base port |
| Tracepath.RingFinds | src/tracepath.rs:893-927 | looking a port up in the 64-slot ring gives the same TTL and time as the unbounded log, and consuming the slot is marking the probe answered |
| Tracepath.RunState.constructor | src/tracepath.rs:141-155 | an empty ring stands for the empty log; this is the first state of the machine |
| Tracepath.RunState.FindSendHistoryByPort | src/tracepath.rs:893-927 | the in-place lookup, slot consumption included, is the lookup function on the ring contents |
| Tracepath.RunState.Report | src/tracepath.rs:337-342 | every queue message is reported with exactly the TTL and time the log gives for its port |
| Tracepath.RunState.PerformPmtuDiscovery | src/tracepath.rs:1309-1386 | the discovery packet and, when sending it failed, its one report are the first steps of the machine and leave it ready for TTL 1 |
| Tracepath.RunState.RecordProbe | src/tracepath.rs:597-612 | a successful send writes slot, pointer and send time so that ring, pointer and log still agree |
| Tracepath.RunState.SendUdpProbeIpv6 | src/tracepath.rs:562-690 | a failed send changes nothing; a successful one is recorded under its port, and the immediate check consumes at most one message and ends the run only on a refused connection |
| Tracepath.RunState.DrainQueue | src/tracepath.rs:709-867 | one pass over the queue reports and marks every message, stops early only at a fatal local error, and returns the verdict of the machine |
| Tracepath.RunState.ReadOne | src/tracepath.rs:715-857 | one message is reported with the TTL and time of the log, marked, and judged |
| Tracepath.RunState.Judge | src/tracepath.rs:725-856 | which messages end the run and which count as an answer of the current TTL, and that only a refused connection records the hop count |
| Tracepath.RunState.ReceiveErrorQueueWithDelayedResponse | src/tracepath.rs:693-890 | the four ways a wait can end are the ones of the machine; with at least one poll it gives up only when the current TTL is unmarked, and reports a delayed answer only when it is marked |
| Tracepath.RunState.ClearQueue | src/tracepath.rs:336-393 | before a send everything late is reported and marked until the queue is empty or a refused connection or an unreachable host ends the run |
| Tracepath.RunState.Attempt | src/tracepath.rs:335-470 | one attempt goes on, breaks off, returns or is interrupted exactly as the machine prescribes |
| Tracepath.RunState.ProbeHop | src/tracepath.rs:330-476 | the three attempts of one TTL and its "no reply" line are the steps of the machine from one hop to the next |
| Tracepath.RunState.Finish | src/tracepath.rs:1050-1060 | the hop count a summary line shows is the TTL of the target's last answer, or 0 without one |
| Tracepath.TracepathRunUdpIpv6 | src/tracepath.rs:310-480 | the events of the whole in-place program are those of a finished run of the log-based machine, for every environment, and the hop count shown is the TTL of the last answer of the target among them |
| TracepathMachine.OutputIsUnique | src/tracepath.rs:310-480 | an environment has only one sequence of events that ends a run, so the refinement determines what the program does |
| TracepathMachine.InvStep | src/tracepath.rs:330-476 | every step keeps the invariant: probe TTLs never decrease, at most three probes a TTL, marks between 1 and the current TTL, and no answered attempt before a further one |
| TracepathMachine.InvAlways | src/tracepath.rs:310-480 | the invariant holds in every state of every run |
| TracepathMachine.TtlClimbs | src/tracepath.rs:330-335 | of probes 3m apart the later has a TTL at least m higher |
| TracepathMachine.ProbesSince | src/tracepath.rs:330-335 | from the first probe of TTL t to the end of TTL t + d at most 3(d + 1) probes leave |
| TracepathMachine.LateReplyWindow | src/tracepath.rs:330-342 | in every run, a reply to an unanswered TTL-t probe that is read while the current TTL is at most t + 20 is reported with t and with that probe's round-trip time |
| TracepathMachine.WindowIsTight | src/tracepath.rs:603-609 | 20 cannot be replaced by 21: for every TTL a run is built in which a reply 21 hops late is reported under the wrong TTL |
| TracepathMachine.MarkedIffDrained | src/tracepath.rs:327-350 | the table of answered TTLs holds exactly the TTLs reported while clearing or waiting |
| TracepathMachine.MarksGrow | src/tracepath.rs:327-350 | marks are never taken back and lie between 1 and the current TTL |
| TracepathMachine.NoReplyIsSound | src/tracepath.rs:335-475 | a "no reply" line comes after exactly three attempts, each a failed send or a timeout, with its TTL never reported while clearing or waiting |
| TracepathMachine.NoReplyIffUnmarked | src/tracepath.rs:472-475 | when the run moves past a TTL its "no reply" line was printed if and only if the TTL is unmarked |
| TracepathMachine.TimedOutIsSound | src/tracepath.rs:879-889 | a wait that polled and then timed out has read its queue to the end and left the TTL unmarked |
| TracepathMachine.ProbePortsAndCount | src/tracepath.rs:567-612 | probe k leaves from port base + k mod 64, and a run sends at most three probes a hop |
| TracepathMachine.QuickRepliesAreLost | src/tracepath.rs:623-681 | a concrete environment in which all three probes are answered and attributed at once, yet "no reply" is printed: the check after a send never marks |
| TracepathMachine.LateHopLimitEndsRun | src/tracepath.rs:353-374 | a hop-limit message, wherever it is read, is followed by the end of the run if and only if it is found while clearing the queue; a wait that reads one and still ends as unreachable had been told so by an earlier message |
| TracepathMachine.NothingAfterDecision | src/tracepath.rs:764-767 | once a wait or the check after a send has read a refused connection, a wait a closed way, or the clearing of the queue either of them, no probe, poll, hop or "no reply" line follows: only reading, the end of the attempt and the stop |
| TracepathMachine.StoppedIffDecided | src/tracepath.rs:869-872 | a finished run has stopped, instead of reaching the hop limit or being interrupted, if and only if it read such a message |
| TracepathMachine.ReachIsLastTarget | src/tracepath.rs:788-790 | the recorded hop count is the TTL of the last answer of the target, read while waiting or right after a send |
| TracepathMachine.VerdictIs | src/tracepath.rs:710-857 | while a queue is drained the pending verdict is the last refusal or closed way read since the poll, by error number, origin, type and code, and the hop is found if and only if one of the messages read answers it |
| TracepathMachine.AnswerWasRead | src/tracepath.rs:869-877 | an attempt ends as reached or unreachable exactly as the last such message read says, and as "next hop" only without one and with the hop answered; right after a send only the target itself ends it |
| TracepathMachine.NoProbeAfterAnswer | src/tracepath.rs:874-882 | whatever a wait reads for the current TTL ends the probing of that TTL: every later probe is for a later hop |
| TracepathMachine.TooManyHopsIsSound | src/tracepath.rs:478-478 | the run gives up for want of hops only at the hop limit |
| TracepathMachine.EveryHopStarted | src/tracepath.rs:330-332 | the hops started are exactly those from 1 to the current one |
| TracepathMachine.FollowsEnvironment | src/tracepath.rs:704-716 | a run sends when sending works and only with the queue cleared, polls while there is time and no interrupt, and reads every queue in order |
| TracepathMachine.ReadAtOnce | src/tracepath.rs:622-626 | the message waiting right after a send, or after a failed discovery, is the next thing read |
| TracepathMachine.UnreadOnlyBehindLocal | src/tracepath.rs:764-767 | a wait leaves messages unread only behind a local error, and only with a verdict |
| TracepathMachine.PathIsShown | src/tracepath.rs:310-480 | on a path of n hops that answers at once the finished run shows every hop once, in order, under its own number, and stops at the target with hop count n, or at the hop limit if the path is longer |
| Clockdiff.NormalisedIff | src/clockdiff.rs:94-104 | one correction brings a difference into the bias range if and only if it is less than a day and a half away, and never changes its residue |
| Clockdiff.ResidueUnique | src/clockdiff.rs:462-464 | the bias range holds one representative of every residue modulo a day |
| Clockdiff.MidnightNormalisation | src/clockdiff.rs:91-104 | for timestamps within a day both deltas are the unique residues in the bias range |
| Clockdiff.QuotTruncates | src/clockdiff.rs:88-89 | the quotient has the magnitude of the rounded-down quotient of the magnitudes and the sign of the dividend |
| Clockdiff.MinimumIsFastest | src/clockdiff.rs:113-116 | over any samples the kept minimum and the kept offset are those of the first accepted sample with the least sum of deltas; with no accepted sample nothing changed |
| Clockdiff.ClockErrorBound | src/clockdiff.rs:78-116 | for samples explained by an offset and two delays modulo a day: the minimum is the least round trip, it comes from the first sample attaining it, and twice the offset error is at most the asymmetry plus one, hence at most the round trip plus one |
| Clockdiff.UnparsedOptionForcesZero | src/clockdiff.rs:337-351 | with any number of options that cannot be parsed and every other round trip positive, the report is zero with round trip zero, so the bound holds if and only if the true offset is zero |
| Clockdiff.UnparsedBoundIff | src/clockdiff.rs:337-351 | for any run whose other samples are explained by one offset: the bound holds if and only if that offset is zero or a sample without any delay preceded the first unparsed option |
| Clockdiff.MinimaInBias | src/clockdiff.rs:106-111 | both running minima stay in the bias range, and half their difference within 43199999 |
| Clockdiff.MinimaSinceReset | src/clockdiff.rs:106-121 | in every run each running minimum is the least delta accepted since the last reply within its own millisecond, that one included or, if there is none, the least of all deltas and of the zero it started from |
| Clockdiff.MinimumIsLeastIff | src/clockdiff.rs:106-121 | in every run a running minimum is the least of all accepted deltas if and only if, without such a reply, some delta is not positive and, with one, every earlier delta has been matched or undercut since |
| Clockdiff.ResetForgets | src/clockdiff.rs:118-121 | a concrete run in which an instant reply discards a lower minimum that was not positive |
| Clockdiff.MinimumExplained | src/clockdiff.rs:106-121 | for explained samples a running minimum is the offset plus or minus the least delay that way since the last reset or, without one, that or zero, whichever is less |
| Clockdiff.MeasureAfterReset | src/clockdiff.rs:118-121 | after an instant reply the final measure is off by at most half the difference of the two least delays since then, rounded |
| Clockdiff.RemoteAheadIsHalved | src/clockdiff.rs:361-361 | when the remote clock is ahead of every delay, the final measure is half of the offset less the least return delay if no reply was instant, else the whole offset up to the asymmetry of the least delays since then |
| Clockdiff.FilterBounds | src/clockdiff.rs:88-89 | with differences up to D the smoothed time stays in 0..D and three times the smoothed deviation too, for ever |
| Clockdiff.FilterConverges | src/clockdiff.rs:88-88 | with every difference equal to D the filter never falls, and after D samples it has settled at max(0, D - 3) and stays |
| Clockdiff.FiltersFollow | src/clockdiff.rs:84-89 | one accepted sample moves the time to a quarter of the difference and three quarters of the old time, and the deviation to a quarter of the old one plus the distance from the new time, rounded down; a discarded sample moves nothing |
| Clockdiff.DeviationSettles | src/clockdiff.rs:89-89 | with every difference equal to D the deviation is at most 1 after 2D samples, for ever |
| Clockdiff.NoOverflow | src/clockdiff.rs:78-116 | no 64-bit intermediate value overflows on timestamps read from 32-bit words |
| Clockdiff.SumResult.constructor | src/clockdiff.rs:67-76 | a fresh result is the start of the estimate |
| Clockdiff.SumResult.CalculateDelta | src/clockdiff.rs:78-122 | one sample moves all fields by one step of the estimate; code 4 exactly for a zero difference |
| Clockdiff.SumResult.Finish | src/clockdiff.rs:361-361 | the final measure is half the difference of the minima, truncated, and nothing else changes |
| Clockdiff.ContinuesIff | src/clockdiff.rs:274-359 | exactly an interrupt, a failed send or receive, or a malformed timestamp reply stops a run |
| Clockdiff.GatheredPacket | src/clockdiff.rs:326-351 | one packet adds its timestamp reply, if it is one, and behind it with -o exactly one sample for every timestamp option, its own or all zeros |
| Clockdiff.SilenceAddsNothing | src/clockdiff.rs:354-357 | a request without an answer adds no sample |
| Clockdiff.GatheredIsReplies | src/clockdiff.rs:326-333 | without -o a run gathers exactly the timestamp replies, in order |
| Clockdiff.Handle | src/clockdiff.rs:273-360 | one exchange feeds exactly its samples, in order, and ends the run exactly on a send error, a receive error or a malformed reply |
| Clockdiff.HandleNext | src/clockdiff.rs:273-360 | one exchange more extends the samples the result is computed from by exactly its own |
| Clockdiff.SampleLoop | src/clockdiff.rs:273-360 | the loop gathers the samples of all exchanges up to 50, an interrupt or an error |
| Clockdiff.ClockdiffRun | src/clockdiff.rs:262-364 | the summary is the estimate over the samples of all exchanges before the end; there is none exactly when an error came first |
| Clockdiff.RunErrorBound | src/clockdiff.rs:262-364 | for a whole run whose replies, or single options with -o, are explained by one offset: the reported minimum is the least round trip among them, the offset comes from the first exchange that attained it and is wrong by at most half its asymmetry, rounded |
| PingStatistics.Latest | src/ping/ping_types.rs:571-577 | the newest send with a given number, if there is one |
| PingStatistics.LatestIffRecent | src/ping/ping_types.rs:571-577 | with consecutive 16-bit numbers a send is the newest of its number if and only if it is among the last 65536 |
| PingStatistics.ReplyMatchesItsSend | src/ping/ping_types.rs:575-577 | a reply to an unanswered send is matched to it if and only if the send is among the last 65536 |
| PingStatistics.AnsweredOnce | src/ping/ping_types.rs:575-577 | a second copy of a reply matches nothing, and one reply answers at most one send |
| PingStatistics.SumOfSquaresDominates | src/ping/ping_types.rs:631-634 | n times the sum of squares is at least the square of the sum |
| PingStatistics.VarianceIsMeanDistance | src/ping/ping_types.rs:631-634 | the variance is the mean squared distance of the samples from their average |
| PingStatistics.VarianceNotNegative | src/ping/ping_types.rs:631-634 | the variance is not negative before the clamp at zero |
| PingStatistics.MeanWithin | src/ping/ping_types.rs:599-603 | the average lies between any lower and any upper bound of the samples |
| PingStatistics.VarianceWithin | src/ping/ping_types.rs:599-638 | the variance is at most (max - avg)(avg - min) |
| PingStatistics.VarianceWithinQuarterRange | src/ping/ping_types.rs:631-638 | four times the variance is at most the square of the range |
| PingStatistics.Conservation | src/ping/ping_types.rs:551-595 | every send is answered, outstanding or superseded by a send with its number, and exactly one of the three |
| PingStatistics.NoneSuperseded | src/ping/ping_types.rs:571-573 | no send is superseded during the first 65536 |
| PingStatistics.TableRecords | src/ping/ping_types.rs:571-573 | inserting into the map of send times is recording a send in the log |
| PingStatistics.TableTakes | src/ping/ping_types.rs:575-577 | removing from the map of send times is answering the matching send |
| PingStatistics.PingStats.RecordSentTime | src/ping/ping_types.rs:571-574 | one more send in the log, with map and counter following |
| PingStatistics.PingStats.GetSentTime | src/ping/ping_types.rs:575-577 | returns the time of the newest unanswered send of that number, and takes exactly that one |
| PingStatistics.PingStats.Update | src/ping/ping_types.rs:579-585 | counter, sums and extrema keep describing the whole list of round-trip times |
| PingStatistics.PingStats.Conserved | src/ping/ping_types.rs:551-595 | when every answered send has been counted, replies plus outstanding sends never exceed the sends, and equal them up to 65536 |
| PingStatistics.PingStats.Averages | src/ping/ping_types.rs:599-637 | the average and variance computed from the running sums are those of the list; the clamp and the single-reply case change nothing |
| PingStatistics.PingStats.Summary | src/ping/ping_types.rs:591-648 | loss is the exact percentage and within 0..100; min, avg, max and variance are those of the list of round-trip times and coherent |
| PingStatistics.LineCoherent | src/ping/ping_types.rs:599-643 | min <= avg <= max and 0 <= variance <= (max - avg)(avg - min) for any non-empty list |
| PingStatistics.LossWithin | src/ping/ping_types.rs:592-597 | the loss percentage times the sends is a hundred times the lost sends, and lies in 0..100 |
| PingStatistics.NoLossIffAllReceived | src/ping/ping_types.rs:592-597 | a report shows no loss if and only if everything sent was answered |
| PingRun.SeqFollows | src/ping/ping_impl.rs:1069-1069 | the wrapping 16-bit increment is the number of sends plus one modulo 65536 |
| PingRun.PreloadIsCapped | src/ping/ping_types.rs:431-431 | as many packets are preloaded as asked for, up to ten, and none unless asked |
| PingRun.RunConserves | src/ping/ping_impl.rs:880-1117 | after every run of every mode, over either family, the k-th send carries number k modulo 65536 and replies plus outstanding sends are at most the sends, equal to them up to 65536 |
| PingRun.PreloadSendsSound | src/ping/ping_impl.rs:698-724 | preloading p packets records exactly p sends, numbered on from where it began |
| PingRun.NumberAfterPreload | src/ping/ping_impl.rs:925-925 | p packets preloaded from number 1 leave p + 1, the number the main loop starts from, as the next one |
| PingRun.PreloadRepliesSound | src/ping/ping6_common.rs:319-364 | reading the preload replies keeps sends and replies in balance |
| PingRun.PreloadCounts | src/ping/ping_impl.rs:733-783 | each preload reply that is read is counted like any other, and which ones are read: all up to an interrupt, the count or, over IPv4, the deadline |
| PingRun.LoopSound | src/ping/ping6_common.rs:484-563 | the main and the flood loop keep sends numbered and replies in balance, whatever the environment does |
| PingRun.PassCounts | src/ping/ping_impl.rs:928-1085 | in every run each pass of the main or flood loop either no longer happens or adds one send under the next number and counts what it hears: a reply to an outstanding send adds exactly its own round-trip time, any other reply nothing, an ICMP error one error except when flooding over IPv6 |
| PingRun.LoopEndsAt | src/ping/ping_common.rs:613-631 | an interrupt is noticed before the next send; nothing follows a pass that reaches the deadline or, in the main loop, fails to send |
| PingRun.RunEndsAt | src/ping/ping_common.rs:622-628 | the whole run is what it would be without any pass after the deadline |
| PingRun.ListenSound | src/ping/ping_impl.rs:1087-1113 | the final listen records no send and keeps the balance |
| PingRun.ListenCounts | src/ping/ping_impl.rs:1087-1113 | one more reply in the final listen is counted like any other if the run listens, which it does over IPv4 unless flooding or ended by its preloaded packets; errors are not |
| PingRun.ReplyTimesItsOwnSend | src/ping/ping_impl.rs:1012-1049 | the reply to an outstanding send among the last 65536 is timed from that very send, and its duplicate changes nothing |
| PingRun.LoopCount | src/ping/ping_common.rs:613-631 | a count-limited loop that starts with n sends ends with at least n and at most max(n + 1, c) |
| PingRun.CountIsAnUpperBound | src/ping/ping_common.rs:613-631 | no run with count c and p preloaded packets ever records more than max(1, c, p) sends |
| PingRun.CountIsExact | src/ping/ping_impl.rs:905-1085 | without interrupt, deadline or send error a run records exactly p sends if p > 0 and p >= c, else max(1, c) |
| PingRun.EveryReplyCounts | src/ping/ping_impl.rs:905-1117 | on an undisturbed network that answers every packet before the next leaves, every send is counted as answered with its own round-trip time, in order; but when the preloaded packets alone reach the count, exactly one reply is read |
| PingRun.Session.RecordSend | src/ping/ping_impl.rs:716-716 | a send recorded under the next number is one step of the run |
| PingRun.Session.TakeReply | src/ping/ping_impl.rs:737-778 | a reply is counted only when its send is outstanding; ICMP errors are counted only where the mode counts them |
| PingRun.Session.TimeoutOrCountExit | src/ping/ping_common.rs:613-631 | stops exactly when the count or the deadline is reached, and clears the running flag exactly then |
| PingRun.Session.SendRequests | src/ping/ping_impl.rs:698-724 | the preload loop is the preload phase of the run |
| PingRun.Session.ReceiveReplies | src/ping/ping_impl.rs:726-785 | the preload reply loop, with its different exits for IPv4 and IPv6, is the reply phase of the run |
| PingRun.Session.PreloadPhase | src/ping/ping_impl.rs:911-922 | preloading is the first phase of the run, and ends it exactly when the count or the deadline is reached after it |
| PingRun.Session.SendLoop | src/ping/ping_impl.rs:925-1085 | the main loop from number p + 1, or the flood loop from 1, is the loop phase of the run, each packet under the next number |
| PingRun.Session.FinalListen | src/ping/ping_impl.rs:1087-1113 | the listening loop is the last phase of the run |
| PingRun.Session.MainPhase | src/ping/ping_impl.rs:924-1113 | main loop and final listen, entered with the number p + 1 that the source computes, are the rest of the run |
| PingRun.Session.RunToEnd | src/ping/ping_impl.rs:905-1113 | the session ends in exactly the state of the run, in every mode |
| PingRun.Ping | src/ping/ping_impl.rs:880-1117 | the printed report describes the round-trip times of the run, and replies plus outstanding sends never exceed the sends |
| PingRun.QueriesCounted | src/ping/ping6_common.rs:600-644 | the queries and replies counted are those of the passes whose query left, and of those that were also answered |
| PingRun.RunNodeinfoQuery | src/ping/ping6_common.rs:570-671 | sends and replies counted are those of the passes before the loop ended; the count is never exceeded, replies never exceed sends, and the loop ends early only by interrupt or by reaching the count |
| IpOptions.ParseSplits | src/ping/ping_impl.rs:551-588 | on any bytes the walk is a split into well-formed options and a rest it cannot enter |
| IpOptions.ParseEncoded | src/ping/ping_impl.rs:551-588 | any list of options followed by anything the walk cannot enter is read back exactly |
| IpOptions.FirstOfIsFirst | src/ping/ping_impl.rs:580-582 | what is extracted is the first option of its type in the list, and nothing exactly when there is none |
| IpOptions.ExtractIpv4Option | src/ping/ping_impl.rs:551-588 | the loop returns the first option of the type in the parsed list, on any bytes |
| IpOptions.ExtractionRoundTrip | src/ping/ping_impl.rs:551-588 | from an encoded list, whatever end byte and junk follow, the exact bytes of the first option of the type, or nothing |
| IpOptions.ExtractedIsSelfConsistent | src/ping/ping_impl.rs:551-588 | what is extracted is a slice of the input, carries its type and its own length, and has a type above 1 |
| RecordRoute.SlotCountsIff | src/ping/ping_common.rs:679-692 | an address slot is counted if and only if it lies wholly inside the option and wholly below the pointer |
| RecordRoute.SlotIsListed | src/ping/ping_common.rs:692-709 | a filled slot is listed behind all filled slots before it |
| RecordRoute.EmptySlotAddsNothing | src/ping/ping_common.rs:703-707 | 0.0.0.0 is left out |
| RecordRoute.RouteConcat | src/ping/ping_common.rs:644-714 | the routes of several options are joined in order |
| RecordRoute.ReadAddresses | src/ping/ping_common.rs:674-709 | the loop reads the counted slots in order without 0.0.0.0; the bounds check inside it always succeeds |
| RecordRoute.WalkOnce | src/ping/ping_common.rs:644-714 | one pass steps over exactly the one option the grammar finds at that place, or stops exactly where the grammar has none |
| RecordRoute.CollectRoute | src/ping/ping_common.rs:634-714 | the walk reports the route, the flag and the NOPs of the parsed option list, on any bytes |
| RecordRoute.SameWalkIff | src/ping/ping_common.rs:651-659 | this walk sees the same options as the extractor if and only if the extractor meets no end-of-list byte |
| RecordRoute.RouteRoundTrip | src/ping/ping_common.rs:634-714 | reading an encoded list of options gives the concatenated routes of its record-route options |
| RecordRoute.RouteFits | src/ping/ping_common.rs:672-711 | each record-route option with room for a pointer pays three bytes and each address four |
| RecordRoute.RouteBound | src/ping/ping_common.rs:634-714 | on any bytes the number of addresses is bounded by a quarter of what the headers leave; nine in 40 bytes |
| RecordRoute.ParseRecordRouteOption | src/ping/ping_common.rs:633-760 | what is shown, and what is kept for the next comparison, on any bytes; all offsets are in bounds |
| RecordRoute.FirstRouteIsNew | src/ping/ping_common.rs:734-743 | with a count, the first route of a run is shown in full |
| RecordRoute.RequestedRoute | src/ping/ping_common.rs:257-273 | the option the program asks for parses as a NOP and one record-route option |
| RecordRoute.RequestedRaw | src/ping/ping_common.rs:721-731 | in that layout the compared bytes are the pointer and all but the last two of the 36 address bytes |
| RecordRoute.SameRouteIff | src/ping/ping_common.rs:721-743 | when the compared bytes agree, the routes are equal if and only if the ninth slot is unused or its last two bytes agree as well |
| RecordRoute.SameRouteShownIff | src/ping/ping_common.rs:721-762 | of two replies in a row with a route, the second is shown as "(same route)" if and only if the compared bytes agree; otherwise its own route is shown |
| TimestampOption.WordRoundTrip | src/ping/ping_impl.rs:631-639 | big-endian words are read back as written |
| TimestampOption.FilledIff | src/ping/ping_impl.rs:609-620 | on any bytes an entry counts if and only if it lies wholly inside the option and wholly below the pointer |
| TimestampOption.CountFilled | src/ping/ping_impl.rs:615-664 | for both widths the computed number is the one FilledIff characterises |
| TimestampOption.ReadEntry | src/ping/ping_impl.rs:631-681 | entry i is read in bounds and as recorded |
| TimestampOption.PrintTimestampInfo | src/ping/ping_impl.rs:591-696 | one line per recorded entry, the first absolute and the others differences, whose running sums give back every recorded timestamp, with its address |
| TimestampOption.PrintTimestamps | src/ping/ping_impl.rs:979-984 | on any bytes the lines tell the first timestamp option that can be extracted, and there are none without one |
| TimestampOption.PrintsFirst | src/ping/ping_impl.rs:979-984 | from any encoded list of options, whatever the walk cannot enter after it, the lines tell the first timestamp option of the list |
| TimestampOption.StampedHolds | src/ping/ping_common.rs:276-291 | from the initial layout, k router stamps leave the first min(k, room) entries in the option |
| TimestampOption.StampsToLines | src/ping/ping_impl.rs:979-984 | after k router stamps, and wherever the option stands in the reply as the first timestamp option, exactly min(k, room) lines are printed, whose running sums and addresses are the first routers' entries in order |
| IcmpPacket.FoldResidue | src/ping/ping_common.rs:91-94 | folding carries keeps the residue modulo 65535 and reaches zero only from zero |
| IcmpPacket.ComplementCancels | src/ping/ping_common.rs:91-94 | a sum and the complement of its fold always fold to 0xFFFF together |
| IcmpPacket.SumByBytes | src/ping/ping_common.rs:91-91 | the sum of a packet is 256 times the bytes at even positions, a last odd one included, plus those at odd ones |
| IcmpPacket.OddIsPadded | src/ping/ping_common.rs:91-91 | an odd packet has the sum, and the acceptance, of the packet with a zero byte behind it |
| IcmpPacket.Checksum | src/ping/ping_common.rs:91-94 | the Internet checksum of RFC 1071, skipping the checksum word, odd lengths included |
| IcmpPacket.SummedIsAccepted | src/ping/ping_common.rs:91-94 | a packet whose checksum field is the checksum of the rest is accepted by the receiver's sum |
| IcmpPacket.PrefixOfTime | src/ping/ping_common.rs:197-236 | the prefix is 16, 8 or at most 4 bytes long, the beginning of the time value or of seconds and microseconds |
| IcmpPacket.FillTimePrefix | src/ping/ping_common.rs:197-236 | as much of the time of day as fits the payload, nothing without a clock |
| IcmpPacket.NewEchoRequest | src/ping/ping_common.rs:46-66 | the default payload is the time prefix followed by bytes counting up from 0x10, for every size |
| IcmpPacket.FillPayload | src/ping/ping_common.rs:80-89 | the payload is copied behind the header or, with a pattern, overwritten by the repeated pattern |
| IcmpPacket.BuildPacket | src/ping/ping_common.rs:68-95 | for every size, pattern, identifier and sequence the packet has the right layout and payload and a one's-complement sum of 0xFFFF |
| Ifenslave.CopiesAllIff | src/tools/ifenslave/network.rs:268-328 | all IPv4 addresses of the master are copied if and only if its list does not start with one |
| Ifenslave.NetworkInterface.ClearAddresses | src/tools/ifenslave/network.rs:245-265 | on success exactly the addresses that are not IPv4 are left; nothing else changes in any case |
| Ifenslave.NetworkInterface.ListAddresses | src/tools/ifenslave/network.rs:279-287 | the first item is lost, be it a record or an error; an error in place of any later record fails the listing, and nothing else does |
| Ifenslave.NetworkInterface.CopyAddressConfig | src/tools/ifenslave/network.rs:268-328 | it succeeds if and only if both interfaces exist and no request but the first item of the listing is refused; then the slave has its other addresses followed by those collected from the master; an error within the listing fails before anything changes |
| Ifenslave.NetworkInterface.PrepareSlave | src/tools/ifenslave/bonding.rs:100-153 | the steps before the hardware address touch the slave alone and leave it down, readdressed and with the MTU of the master |
| Ifenslave.NetworkInterface.MatchMtu | src/tools/ifenslave/bonding.rs:127-153 | on success the MTUs agree, and only the MTU of the slave may change |
| Ifenslave.NetworkInterface.MatchMac | src/tools/ifenslave/bonding.rs:155-244 | the MAC of the master changes only from zero and only before the flag is set; the flag is sticky; with the oldest drivers the MACs agree on success |
| Ifenslave.NetworkInterface.JoinBond | src/tools/ifenslave/bonding.rs:155-272 | the rest of enslaving succeeds if and only if both interfaces exist and nothing is refused, with exactly the MAC, up flag and membership of both interfaces afterwards |
| Ifenslave.NetworkInterface.Enslave | src/tools/ifenslave/bonding.rs:75-273 | it succeeds if and only if both interfaces exist, the slave is free, and no request is refused other than the swallowed listing; success leaves exactly the described slave and master, failure leaves the bonds as they were |
| Ifenslave.NetworkInterface.Release | src/tools/ifenslave/bonding.rs:276-341 | it succeeds if and only if the slave is in this bond and nothing is refused; success changes exactly its bond, its MTU to 1500 and, with the oldest drivers, its up flag; a late refusal leaves it out but not reset |
| Ifenslave.BondsOneMore | src/tools/ifenslave/main.rs:200-238 | one more enslaving, successful or not, keeps the picture of the batch |
| Ifenslave.EnslaveAll | src/tools/ifenslave/main.rs:200-238 | the bond grows by exactly the successes, with MTU, MAC and the settling of the master's MAC as promised; an error is reported if and only if some slave failed; and for distinct free interfaces nothing but a refused request makes one fail, so that without refusals all are bonded |
| Ifenslave.DetachesOneMore | src/tools/ifenslave/main.rs:200-238 | one more release keeps the picture of the batch |
| Ifenslave.ReleaseAll | src/tools/ifenslave/main.rs:200-238 | the bond loses every released slave and nothing outside the batch; an error is reported if and only if some release failed, and for distinct members only a refused request makes one fail |
| Ifenslave.ReleaseUndoesEnslave | src/tools/ifenslave/bonding.rs:276-341 | releasing what a batch bonded restores the membership of the bond and leaves each slave with MTU 1500 |
| DnsCache.HitKeepsAccount | src/ping/ping_types.rs:509-512 | a hit calls no resolver and keeps the account of calls |
| DnsCache.MissKeepsAccount | src/ping/ping_types.rs:514-523 | a miss calls the resolver once and is cached while there is room |
| DnsCache.ShownNameIff | src/ping/ping_types.rs:515-515 | a name is shown exactly when the resolver has it, and the address itself exactly when it has none |
| DnsCache.CacheAgrees | src/ping/ping_types.rs:503-525 | after any queries the cache holds at most 1000 names, all right; up to 1000 distinct addresses each was resolved exactly once, beyond that exactly the uncached ones again every time |
| DnsCache.Cache.GetHostnameCached | src/ping/ping_types.rs:503-525 | the answer is the cached one if there is one, else the resolver's or the address itself, and the new contents follow |
| DnsCache.LookupAll | src/ping/ping_types.rs:503-525 | any sequence of queries is answered as if there were no cache |

## Left out

- The IPv4 driver of tracepath (`src/tracepath.rs:241-307`, `1081-1170`): it moves the same history pointer but writes no history and attributes every reply to the current TTL, so there is nothing for a reply to be matched with.
- Tracepath's decoding of control messages, link-local scope, payload length and output formatting: a queue message arrives decoded, and `Reply` events record what every message read is attributed to, also where the program prints nothing for it. The payload length `length - 48` underflows for a length below 48 and is not part of this model.
- The five seconds of a tracepath wait, its millisecond sleeps and the 128000-byte discovery packet: a wait is a finite number of passes chosen by the environment, possibly none, and discovery is a send time with at most one message.
- Clockdiff's packet builders and byte parsers (`src/clockdiff.rs:393-459`, `466-583`): a parsed reply or option is an input. A timestamp option shorter than the fields read from it stops the program, which the model does not show.
- Ping's receive functions, socket options, sleeps and messages: each pass of a loop hears one echo reply, one ICMP error or something else. The final listen is a list of replies instead of half a second. An error from a call outside the loops ends the program without a summary and is not shown, nor is a node information reply that cannot be parsed.
- The 32-bit width of ping's counters: they are unbounded, so a run of 2^32 sends is not modelled faithfully.
- Floating-point rounding of ping's statistics, and the square root of the variance: sums are reals and the report holds the variance; "no sample yet" replaces the extreme initial values.
- The display of a route after the comparison (shuffling, duplicates, names): what is proved is which addresses reach it and in which order.
- The timestamp flag 3 (`tsprespec`): its option is never printed by this program.
- `build_packet_with_timestamp` and `build_packet_v6`: the first repeats the layout of the modelled builder, and the checksum of the second is filled in by the kernel.
- IcmpPacket.Checksum: the library routine called at `src/ping/ping_common.rs:91` is not part of this repository; it is modelled as the sum of RFC 1071 with an accumulator that does not overflow.
- Ifenslave.NetworkInterface.ListAddresses: a listing is taken to end with the first error in it, as a netlink dump does.
- Ifenslave.NetworkInterface.Enslave: the kernel is modelled as changing only what a request asks for; what a bonding driver itself does to MAC and flags when a slave joins is not part of this model. A batch in which the master is one of its own slaves is only proved to report its errors.
- `change_active`, the listing of interfaces and the detection of the ABI version: single requests without invariants to keep.
- DnsCache.CacheAgrees: the resolver is deterministic; one whose answers change with time would make cached and uncached answers differ.
- `arping` (`src/arping.rs`): its counters only count, its one piece of state is the last address heard and when, and its ARP packets have a fixed layout; there is no numbering, matching of replies to sends, or arithmetic to state a property about.
- Argument parsing, titles and the conversion helpers: each is one expression over its argument, without state.
