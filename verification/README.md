# Verification of rcdiscover

rcdiscover finds GigE Vision devices on a network, shows them in a table or prints them, and changes
their IP configuration with the GigE Vision control protocol (GVCP). This project models the parts of
it that carry state, protocol steps, threads or search, and proves what they achieve. Nothing was
executed: every statement below is a Dafny contract. `dafny verify dfyconfig.toml` checks all of them.

## The parts

* `RequestCounter` is the process-wide 16-bit id generator, once as an interleaving of loads and
  compare-and-swaps of any number of threads, and once as the class that the other parts use.
* `GvcpMessages` has the requests, replies and registers, and a device: control access is needed to
  write, and while another client holds it, claims and writes are refused with `ACCESS_DENIED`.
  `GvcpNetwork` is a transition system of one socket, its network and the device. Nothing is forged;
  apart from that datagrams are lost, delayed, duplicated and reordered at will, other threads draw
  ids, the device refuses requests or garbles the length or the size field of its answers, control
  expires, and other clients come and go. `GvcpResponsive` is the special case in which each request is
  answered once, in order and in time. `GvcpSessions`, `GvcpAtomicity`, `GvcpConfigure` and
  `GvcpProgress` prove what calls, and whole runs of `writeConfig` and `readConfig`, do in either
  network; `GvcpEffects` says it in register numbers and bits; `GvcpRelease` when control access is
  given up for good; and `GvcpRuns` constructs runs that do take place. `GvcpIPConfig` is the client,
  with the code's own loops, buffers and exception paths (an exception is a result), and is proved
  to produce just those runs, and just their bytes.
* `Collector` is the discovery collector as interleaved steps of arrivals, listener threads, consumer
  and destructor; `Discover` is the class, whose methods perform these steps with other threads
  running in between. `DeviceInfo` parses what a listener receives. `Discovery` is the whole of
  `discoverWithFilter` on such an object: broadcast, collection loop, sort, filter and destructor.
  `CommandLine` has the parts behind the sort: unique, filter, grouping and printing. `ForceIp`
  broadcasts the FORCEIP command.
* `StableIndex` is the theory of stably sorted indices behind `DeviceTable` (the table of the graphical
  client as a value with functions for its operations), `DeviceHistory` (what holds after any run of
  operations), `DeviceListing` (which devices are listed, and in which order) and `DeviceList` (the
  class, each method of which is proved equal to its function).
* `Wildcard` compares the matcher with the usual meaning of `?` and `*`; `Addresses` has splitting,
  printing and parsing of IP and MAC addresses.
* `Backup` and `Pairing` are two algorithms of `worker.cc`: the backup file, and the search for left and
  right cameras.

Bytes, half words and words are integers in their range. The code's shifts, masks and ors are written
as division, remainder and sum, with every truncation kept. Registers, codes and characters that the
GigE Vision standard or the code fixes are named constants in the definitions, and stand as numbers in
the contracts that say what the definitions mean. Text is `seq<char>` with one character for each byte.
Loops over sockets, devices and datagrams keep the form of the code.

## What was found

* Over a responsive path `writeConfig` leaves a device that no other client holds released exactly if at
  most two stale datagrams are in the socket's queue; with three or more the device is claimed, the
  client does not hear so, and never releases it (`GvcpIPConfig.GvcpIPConfig.WriteConfig`). One request
  whose three answers come too late makes such a backlog, from any state with an empty queue
  (`GvcpRuns.BacklogArises`), and no number of further requests works it off
  (`GvcpResponsive.BacklogNeverChanges`).
* A release is final exactly if no copy of the claim is left in flight
  (`GvcpRelease.ReleaseOfRunIsFinalIff`). From any state with an empty queue there is a run whose release is
  acknowledged and after which one more delivery of the claim takes control again
  (`GvcpRuns.ReleasedRunLeavesClaim`). Over a path that does not reorder an acknowledged release is
  final (`GvcpRelease.AcknowledgedReleaseIsFinal`).
* The device table merges interfaces without touching its index, and sorts without telling the widget
  the row count. The index stays right exactly under the guard of `DeviceTable.StepKeepsIndexIff`;
  `DeviceHistory.MergeCanBreakOrder` is a run in which a row is out of place, and
  `DeviceHistory.SortingCanLeaveRowsBehind` one in which the widget has a row that the index has not; a
  right row count stays right exactly under the condition of `DeviceHistory.StepKeepsRowCountIff`.
* `wildcardMatch` is wrong for some pattern on every text that contains a star (`Wildcard.RightTexts`),
  and for some text under every pattern that ends in two stars and has no `?` (`Wildcard.RightPatterns`);
  it runs past the end of some text exactly under the patterns with a `?` or a NUL
  (`Wildcard.PastEndPatterns`), for example under `?` past the end of the empty text.
* A calibration that begins with a newline, or has a line of equals signs only, cannot be restored from
  its own backup (`Backup.BackupRoundTrip`).

The comment at `rcdiscover/discover.h:84` says that `getResponse` should be called until there is no
further response; the code, which the model follows, may bring further responses after a call that
brought none (`Collector.NothingYet`).

## Model

| member | source | states |
|---|---|---|
| RequestCounter.HandedOutInOrder | rcdiscover/gige_request_counter.cc:19-42 | under every interleaving of loads and swaps, with spurious failures and wrap-around between a load and its swap, the n-th id handed out is ((n - 1) mod 65535) + 1 |
| RequestCounter.IdsFromStart | rcdiscover/gige_request_counter.cc:21-39 | from the start of the process no id is 0 and any 65535 consecutive ids are pairwise distinct |
| RequestCounter.SameIdIff | rcdiscover/gige_request_counter.cc:28-36 | two draws have the same id exactly if their distance is a multiple of 65535 |
| RequestCounter.IdBytesInjective | rcdiscover/gige_request_counter.cc:41-42 | the two bytes that are returned lose nothing of an id |
| RequestCounter.Counter.GetNext | rcdiscover/gige_request_counter.cc:19-42 | one call, other threads drawing in between, returns the bytes, high byte first, of the id ((n - 1) mod 65535) + 1 of one draw n made during the call |
| GvcpMessages.ModifiedModeBits | rcdiscover/gvcp_ip_config.cc:259-263 | the new mode has bit 0 exactly if persistent IP is wanted, bit 1 exactly if DHCP is, bit 2 always, and the quotient by 8 of the old one |
| GvcpMessages.WordRoundTrip | rcdiscover/gvcp_ip_config.cc:87-101 | appending and extracting 32 bits undo each other, in both directions |
| GvcpMessages.ParseInvertsRequest | rcdiscover/gvcp_ip_config.cc:115-128 | every request is, byte by byte, 42 01 00 80 00 04 and the address for READREG, 42 01 00 82 00 08, address and value for WRITEREG, the id in bytes 6 and 7 and the numbers with their high bytes first; a device that reads by this layout gets back command, address and value |
| GvcpMessages.AcknowledgeFields | rcdiscover/gvcp_ip_config.cc:160-191 | the fields that the client reads from an acknowledge are those that the device wrote; its size field may be wrong in either direction |
| GvcpMessages.AcknowledgeInBytes | rcdiscover/gvcp_ip_config.cc:60-66 | the codes are 0080 and 0082, their acknowledges 0081 and 0083, and the header of an acknowledge has status, code, size and id in this order |
| GvcpMessages.ServeInNumbers | rcdiscover/gvcp_ip_config.cc:65-69 | the device: a write to 0A00 gives or takes control; without control, or while another client holds it, a write changes nothing and is refused with 8006; reads and writes of registers that exist succeed, others fail with another status |
| GvcpMessages.ServeIdempotent | rcdiscover/gvcp_ip_config.cc:132-134 | carrying out a retransmitted request again changes nothing and gives the same reply |
| GvcpNetwork.StepsKeepWellFormed | rcdiscover/gvcp_ip_config.cc:132-193 | over any run of the network, whatever is queued or in flight stems from a request of this socket, and nothing that was issued, served or queued is taken back |
| GvcpSessions.AcknowledgesAreAuthentic | rcdiscover/gvcp_ip_config.cc:161-191 | under loss, delay, duplication and reordering, whatever `sendAndReceive` returns or throws as the device's status is the device's own answer to that very request, given during the call, if fewer than 65535 ids were drawn since anything in flight |
| GvcpSessions.QueueConservation | rcdiscover/gvcp_ip_config.cc:132-158 | a call appends what arrives to the queue and takes at most as many datagrams from its front as it transmits, which is at most three |
| GvcpResponsive.BacklogLaw | rcdiscover/gvcp_ip_config.cc:132-198 | with b stale datagrams queued a request succeeds with attempt b + 1 if b <= 2 and fails after three if not; either way the device has carried it out and b datagrams are queued afterwards |
| GvcpResponsive.AttemptsSucceed | rcdiscover/gvcp_ip_config.cc:132-193 | the same for any number of attempts: with fewer stale datagrams than attempts left the request succeeds, one transmission after the last of them |
| GvcpResponsive.AttemptsFail | rcdiscover/gvcp_ip_config.cc:132-198 | with as many stale datagrams as attempts left, or more, all attempts are used up and the request fails |
| GvcpResponsive.BacklogNeverChanges | rcdiscover/gvcp_ip_config.cc:132-193 | over any sequence of requests the backlog stays the same, and the device carries out every one of them |
| GvcpAtomicity.PrefixAtomicity | rcdiscover/gvcp_ip_config.cc:241-275 | in every state of every run of `writeConfig` in the adversarial network, throwing or not, the device's registers are the original ones with a prefix of address, subnet, gateway, mode carried out, the mode being computed from the original one; a run that does not throw has carried out all |
| GvcpAtomicity.LateDuplicatesAreHarmless | rcdiscover/gvcp_ip_config.cc:241-275 | the same afterwards, whatever copies of the run's requests are still delivered |
| GvcpAtomicity.ChainPassesThroughPrefixes | rcdiscover/gvcp_ip_config.cc:216-223 | any sequence of calls that requests one update at a time and stops at the first that fails takes the device through prefixes of its updates only |
| GvcpAtomicity.ReadsAreAuthentic | rcdiscover/gvcp_ip_config.cc:201-214 | a register value that is read is the value that the device's register had at some moment of the call |
| GvcpAtomicity.ModeIsAuthentic | rcdiscover/gvcp_ip_config.cc:255-257 | the mode that is modified is the mode that the device had before the run |
| GvcpAtomicity.RunUpdates | rcdiscover/gvcp_ip_config.cc:246-265 | a run requests a prefix of address, subnet, gateway, mode, in this order, and all of it if it does not throw |
| GvcpAtomicity.TransmitsItsCallsOnly | rcdiscover/gvcp_ip_config.cc:132-134 | what a run transmits is, call by call, each request as often as it was attempted, and nothing else |
| GvcpAtomicity.FailedClaimEndsTheRun | rcdiscover/gvcp_ip_config.cc:243-245 | if the claim throws, nothing but copies of the claim was transmitted |
| GvcpConfigure.ConfigureOutcome | rcdiscover/gvcp_ip_config.cc:241-275 | configuring succeeds exactly if no other client holds the device and it has the registers; a device held by another client is not touched; any other one ends up released; the registers are the updated ones on success |
| GvcpConfigure.ConfigureRoundTrip | rcdiscover/gvcp_ip_config.cc:225-265 | reading after writing returns the flags written, and the addresses written if persistent IP is enabled, the device's old ones if not |
| GvcpConfigure.ConfigureTakesEffect | rcdiscover/gvcp_ip_config.cc:241-275 | configuring succeeds exactly if no other client holds the device and it has 0014, and 064C, 065C and 066C if persistent IP is wanted; 0014 mod 8 is then 4, plus 1 for persistent IP, plus 2 for DHCP, its quotient by 8 is unchanged, the three registers have address, subnet and gateway if persistent IP is wanted, and no other register has changed |
| GvcpConfigure.ReadBackReports | rcdiscover/gvcp_ip_config.cc:225-239 | reading succeeds exactly if the four registers exist; it reports bit 0 of 0014 as persistent IP, bit 1 as DHCP, and the contents of 064C, 065C and 066C |
| GvcpEffects.RunInNumbers | rcdiscover/gvcp_ip_config.cc:241-275 | in the adversarial network the requests of a run are: write 1 to 0A00; if this succeeds, writes to 064C, 065C and 066C if persistent IP is wanted, a read of 0014 and a write to it of what was read with the three lowest bits changed, up to the first that fails; and then write 0 to 0A00 |
| GvcpEffects.UpdatesInNumbers | rcdiscover/gvcp_ip_config.cc:246-265 | the updates of which prefix atomicity speaks are those to 064C, 065C, 066C and 0014, in this order |
| GvcpEffects.RunTakesEffect | rcdiscover/gvcp_ip_config.cc:241-275 | in the adversarial network, after a run that throws nothing and whatever is still delivered, the registers are configured as described for `ConfigureTakesEffect` |
| GvcpEffects.ReadRunIsAuthentic | rcdiscover/gvcp_ip_config.cc:225-239 | in the adversarial network, the flags and addresses that `readConfig` returns come from values that 0014, 064C, 065C and 066C held at moments of the run |
| GvcpRelease.ReleaseTakesEffect | rcdiscover/gvcp_ip_config.cc:243-274 | if the release of a run is acknowledged, the device was released at some moment of that call, in the adversarial network |
| GvcpRelease.ReleaseIsFinalIff | rcdiscover/gvcp_ip_config.cc:243-274 | from any state in which the device is released and no control write but claims and releases is in flight: every continuation without the client ends with the device released exactly if no copy of a claim is in flight |
| GvcpRelease.ReleaseOfRunIsFinalIff | rcdiscover/gvcp_ip_config.cc:243-274 | the same at the end of every run of `writeConfig`, throwing or not, that leaves the device released and began with no other control writes in flight |
| GvcpRelease.ControlIsReleased | rcdiscover/gvcp_ip_config.cc:243-274 | if the claim succeeds, then, however the run ends, and over a path that loses and repeats but does not reorder, the device is released at the end, and afterwards, once it has carried out the release |
| GvcpRelease.AcknowledgedReleaseIsFinal | rcdiscover/gvcp_ip_config.cc:243-274 | over such a path an acknowledged release is final |
| GvcpRuns.ReleasedRunLeavesClaim | rcdiscover/gvcp_ip_config.cc:241-275 | from every state with an empty queue and no other client in control, and for every configuration, there is a run, throwing nothing exactly if the device has the registers, that ends configured and released with the release acknowledged, and after which one delivery of the claim's copy takes control again |
| GvcpRuns.BacklogArises | rcdiscover/gvcp_ip_config.cc:132-198 | from every state with an empty queue and for every request there is a call that transmits three times, gives up, and leaves a settled queue of three stale datagrams |
| GvcpIPConfig.Link.Send | rcdiscover/gvcp_ip_config.cc:134 | a send throws, or puts just this packet on the wire and one copy of it on its way; over the responsive path it is answered at once |
| GvcpIPConfig.Link.Receive | rcdiscover/gvcp_ip_config.cc:156-158 | a receive takes the oldest queued datagram, if there is one |
| GvcpIPConfig.InspectDecides | rcdiscover/gvcp_ip_config.cc:160-191 | what the tests on the bytes of a datagram accept is exactly an answer to a request of the same kind with the same id that reports an error or brings all the bytes it announces; its outcome is decided by the device's reply alone |
| GvcpIPConfig.InspectInBytes | rcdiscover/gvcp_ip_config.cc:160-191 | with the code 0081 for a read or 0083 for a write and the right id: status 0 and at least as many bytes as announced are accepted, and yield the announced ones; status 8006 is an access refusal, every other status an error; everything else is passed over |
| GvcpIPConfig.GvcpIPConfig.SendAndReceive | rcdiscover/gvcp_ip_config.cc:111-199 | the loop performs one transaction: at most three transmissions of one request with one new id, an outcome taken from an accepted datagram, or the documented failure; over the responsive path, exactly the call of the backlog law. What it puts on the wire are the copies of the request's datagram in the bytes given above, so that all that a client ever put there are the datagrams of the calls in its log, in order |
| GvcpIPConfig.GvcpIPConfig.ReadRegister | rcdiscover/gvcp_ip_config.cc:201-214 | returns the value of the accepted reply, or throws what the transaction throws, or that the reply is too short; the wire gets the copies of the READREG datagram |
| GvcpIPConfig.GvcpIPConfig.WriteRegister | rcdiscover/gvcp_ip_config.cc:216-223 | throws exactly what the transaction throws; the wire gets the copies of the WRITEREG datagram |
| GvcpIPConfig.GvcpIPConfig.ModifyMode | rcdiscover/gvcp_ip_config.cc:259-263 | the assignments, one after the other, give 4, plus 1 for persistent IP, plus 2 for DHCP, in the three lowest bits, and keep the quotient by 8 |
| GvcpIPConfig.GvcpIPConfig.WriteConfig | rcdiscover/gvcp_ip_config.cc:241-275 | in any network: the claim; then, if it succeeds, the requests of the body in order up to the first that fails, and exactly one release; the exception of the body is the one thrown. If nothing is thrown the registers are as described for `ConfigureTakesEffect`, in the adversarial network provided nothing older is about. Over the responsive path nothing is thrown exactly if the backlog is at most two, no other client holds the device and it has the registers, and a device that no other client holds ends up released exactly if the backlog is at most two |
| GvcpIPConfig.GvcpIPConfig.ReadConfig | rcdiscover/gvcp_ip_config.cc:225-239 | the four reads in order up to the first that fails; persistent IP is bit 0 and DHCP bit 1 of the reply for 0014, the addresses are the replies for 064C, 065C and 066C, each of which its register held at a moment of the call; over the responsive path it succeeds exactly if the backlog is at most two and the registers exist, and reports what they hold |
| StableIndex.ChangeKeepsIndexIff | tools/rcdiscover-gui/device_list.cc:105-122 | if one element's sort key and visibility change, a stably sorted index stays right exactly if its visibility is the same and it still fits between its two neighbours |
| StableIndex.StableSortUnique | tools/rcdiscover-gui/device_list.cc:570-580 | there is one stable sort of the shown elements only |
| StableIndex.InsertKeepsSorted | tools/rcdiscover-gui/device_list.cc:549-564 | inserting the youngest element in front of the first strictly greater key keeps the index stably sorted |
| StableIndex.AscendingUnique | tools/rcdiscover-gui/device_list.cc:103-119 | an ordered set of interfaces is determined by its elements |
| StableIndex.LessInLetters | tools/rcdiscover-gui/device_list.cc:549-556 | a text is less than another exactly if it ends, or has the smaller character, where they first differ |
| DeviceTable.RebuiltIsStableSort | tools/rcdiscover-gui/device_list.cc:519-580 | rebuilding lists exactly the visible devices, by key in the chosen direction, equal keys in the order of their discovery |
| DeviceTable.UpToDateIffRebuilt | tools/rcdiscover-gui/device_list.cc:570-580 | an index is the stable sort of the visible devices exactly if it is the one that rebuilding yields |
| DeviceTable.NewDeviceKeepsIndex | tools/rcdiscover-gui/device_list.cc:154-159 | adding a new device puts it into its place |
| DeviceTable.StepKeepsIndexIff | tools/rcdiscover-gui/device_list.cc:97-161 | for every operation, an index that is up to date stays so exactly if a merge, should it be one, leaves the device's visibility as it is and its new texts between its neighbours |
| DeviceTable.RebuildBringsUpToDate | tools/rcdiscover-gui/device_list.cc:272-309 | filtering, sorting and clearing bring the index up to date whatever it was |
| DeviceTable.MaintainedIndexIsRebuilt | tools/rcdiscover-gui/device_list.cc:79-162 | after any run whose merges since the last rebuild satisfied that guard, the index equals the rebuilt one |
| DeviceTable.PlainViewKeepsIndex | tools/rcdiscover-gui/device_list.cc:519-543 | without a text filter, sorted by one of the columns 0 to 5, the guard always holds |
| DeviceHistory.MergeHistory | tools/rcdiscover-gui/device_list.cc:59-162 | after any run there is one row for each address reported since the last clear, in the order of first reports, with the first report's texts, the sorted join of all interfaces, and a check mark or a ballot cross for the disjunction of what the first report over each interface says about reachability |
| DeviceHistory.InterfacesDetermineText | tools/rcdiscover-gui/device_list.cc:105-119 | the text of column 6 does not depend on the order in which interfaces were reported |
| DeviceHistory.NewDiscoveryHistory | tools/rcdiscover-gui/device_list.cc:59-77 | after any run a device is marked new exactly if something, but not this device, was known at the last clear and no cell was clicked since it appeared; the list is marked exactly if a device is |
| DeviceHistory.KnownWereReported | tools/rcdiscover-gui/device_list.cc:59-70 | what is known after a clear are the addresses reported before it; what a click takes the marks off are the devices reported so far |
| DeviceHistory.IndexIsDistinct | tools/rcdiscover-gui/device_list.cc:519-580 | after any run no device is listed twice |
| DeviceHistory.RowCountHistory | tools/rcdiscover-gui/device_list.cc:272-309 | after any run without a text filter at its end, the row count is the number of listed devices and these are the visible ones, although sorting never sets it |
| DeviceHistory.GuardedRun | tools/rcdiscover-gui/device_list.cc:79-162 | in a run whose merges all satisfy the guard the index is right and the row count is its length, under any filter |
| DeviceHistory.StepKeepsRowCountIff | tools/rcdiscover-gui/device_list.cc:272-309 | for every operation, a row count that is the number of listed devices stays so exactly if the operation is not a sort, or as many devices are visible as listed |
| DeviceHistory.MergeCanBreakOrder | tools/rcdiscover-gui/device_list.cc:105-119 | a run of four operations after which the index is not the sorted one |
| DeviceHistory.SortingCanLeaveRowsBehind | tools/rcdiscover-gui/device_list.cc:301-309 | a run of five operations after which the row count is 1 and the index is empty |
| DeviceListing.ListedExactly | tools/rcdiscover-gui/device_list.cc:519-543 | while the index is maintained: listed are exactly the devices whose first reported model begins with `rc_`, if only these are wanted, and one of whose seven texts (name, manufacturer, model, serial number, IP and MAC address of the first report, sorted join of all interfaces) has the filter text in it, if there is one |
| DeviceListing.FilteredExactly | tools/rcdiscover-gui/device_list.cc:282-290 | after any run that ends in filtering by a text, whatever was merged before, exactly these devices are listed |
| DeviceListing.OrderedExactly | tools/rcdiscover-gui/device_list.cc:545-568 | while the index is maintained: of two listed devices the first has the smaller text in the chosen column, the greater one if sorted upwards, or the same text and the earlier first report |
| DeviceListing.ViewAfter | tools/rcdiscover-gui/device_list.cc:272-309 | at first the table is sorted by column 0 downwards and shows `rc_` models only; each operation changes the filter text, the model filter or the sorting that it is meant to, sorting by the same column again reversing it, and nothing else |
| DeviceListing.JoinedByCommas | tools/rcdiscover-gui/device_list.cc:105-116 | the text of column 6 has a comma and a blank between the interfaces |
| DeviceList.DeviceList.Clear | tools/rcdiscover-gui/device_list.cc:59-77 | the loop over the devices and the resets are the table's clear |
| DeviceList.DeviceList.Add | tools/rcdiscover-gui/device_list.cc:79-162 | the search, the merge, and the insertion are the table's add |
| DeviceList.DeviceList.AddDeviceIndex | tools/rcdiscover-gui/device_list.cc:519-568 | inserts the device in front of the first strictly greater key if the model filter lets it pass and one of the texts of columns 0 to 6 has the filter text in it, and tells whether that is so |
| DeviceList.DeviceList.UpdateDeviceIndices | tools/rcdiscover-gui/device_list.cc:570-580 | the loop yields the rebuilt index |
| DeviceList.DeviceList.FilterRCDevices | tools/rcdiscover-gui/device_list.cc:272-280 | new filter, rebuilt index, new row count, nothing else |
| DeviceList.DeviceList.Filter | tools/rcdiscover-gui/device_list.cc:282-290 | new filter, rebuilt index, new row count, nothing else |
| DeviceList.DeviceList.SetSorting | tools/rcdiscover-gui/device_list.cc:301-309 | new column and direction and rebuilt index; nothing else, and the row count is not told |
| DeviceList.DeviceList.SortColumn | tools/rcdiscover-gui/device_list.cc:500-517 | the same column again reverses the direction, another one starts downwards, and the index is rebuilt; the row count is not told |
| DeviceList.DeviceList.ClickCell | tools/rcdiscover-gui/device_list.cc:319-330 | takes all marks off, and changes nothing else |
| Collector.CollectorConserves | rcdiscover/discover.cc:140-229 | after the broadcast, for every interleaving of arrivals, listeners, consumer and destructor, and for each socket: delivered, pending and held infos are, in order, what the tests accept of the datagrams received |
| Collector.NothingLostOrInvented | rcdiscover/discover.cc:140-229 | over all sockets, as multisets: delivered plus pending plus held infos are the accepted ones |
| Collector.DeviceIsHeard | rcdiscover/discover.cc:172-196 | a device's acknowledge is accepted, as that device's data, exactly if it carries an id of the broadcast and the device's address is not zero |
| Collector.AcceptedExactly | rcdiscover/discover.cc:172-196 | accepted is exactly a datagram whose first 600 bytes are 00 00 00 03, a size, an id of the broadcast, a body of this size with an address that is not zero, and anything after it; the info is what is parsed of the body |
| Collector.NothingYet | rcdiscover/discover.cc:212-229 | after a call of `getResponse` that brings nothing the next one may bring the acknowledge of any device |
| Discover.IdsDiffer | rcdiscover/discover.cc:108-114 | the sockets' request ids are pairwise distinct while at most 65535 ids are drawn |
| Discover.Discover.BroadcastRequest | rcdiscover/discover.cc:102-138 | the eight bytes 42 11 00 02 00 00 and an id of its own go to the sockets in order: to all of them if no interface is given, else to each socket as often as it is there if it is on a given interface, and to no other; then all listeners start with nothing received; a send that fails otherwise than by an unreachable network ends the call before any of them starts |
| Discover.Discover.Examine | rcdiscover/discover.cc:156-196 | the nested tests on the receive buffer decide as the acceptance test does, whatever lies behind the datagram |
| Discover.Discover.ListenOnSocket | rcdiscover/discover.cc:140-210 | one turn takes at most one datagram and ends with nothing held; it ends the thread only after stop |
| Discover.Discover.GetResponse | rcdiscover/discover.cc:212-229 | moves all that is pending at the final check to the end of the caller's list, returns true exactly if that is something, and false only after the timeout |
| Discover.Discover.Destroy | rcdiscover/discover.cc:84-95 | ends with every listener stopped and holding nothing, so that nothing received is lost |
| DeviceInfo.ParseInvertsEncode | rcdiscover/deviceinfo.cc:79-123 | for every device record whose fields fit, parsing the encoded body returns the record, whatever lies between the fields |
| DeviceInfo.ParsePrefix | rcdiscover/deviceinfo.cc:79-123 | which bytes each field is read from, and from which length of the body on |
| DeviceInfo.LongerBodyAddsFields | rcdiscover/deviceinfo.cc:79-123 | a longer body only adds fields |
| DeviceInfo.FieldRoundTrip | rcdiscover/deviceinfo.cc:56-69 | a NUL-free text comes back out of its field, the full field included |
| DeviceInfo.DeviceInfo.Extract | rcdiscover/deviceinfo.cc:56-69 | the loop yields the longest NUL-free prefix of the field, although it looks one byte further |
| DeviceInfo.DeviceInfo.Set | rcdiscover/deviceinfo.cc:79-123 | what is stored depends on the first `len` bytes only |
| CommandLine.UniqueIncreases | tools/rcdiscover-cli/cli_utils.cc:132-139 | of any sorted list, std::unique keeps a strictly increasing one |
| CommandLine.UniqueCovers | tools/rcdiscover-cli/cli_utils.cc:133-139 | what is kept comes from the list, and every address and interface of the list is kept once |
| CommandLine.UniqueKeepsFirsts | tools/rcdiscover-cli/cli_utils.cc:133-139 | what is kept are, in order, exactly the elements that differ in address or interface from the one in front of them |
| CommandLine.HasKeyInWords | tools/rcdiscover-cli/cli_utils.cc:133-139 | two devices are the same to std::unique exactly if address and interface are equal |
| CommandLine.DevicesAreDistinct | tools/rcdiscover-cli/cli_utils.cc:132-149 | for any sorting permutation: strictly increasing addresses, and interfaces in the order of their letters where addresses are equal; each result reported and passing, each key reported represented in what is filtered |
| CommandLine.UniqueAndFiltered | tools/rcdiscover-cli/cli_utils.cc:133-149 | the filter loop returns, in order, exactly the passing elements of the sorted and unique list |
| CommandLine.FilterIsExact | tools/rcdiscover-cli/cli_utils.cc:87-114 | for texts without a star a device passes exactly if each of its five texts satisfies its filter, that is, there is no pattern or one of them describes the text |
| CommandLine.FilterDevice | tools/rcdiscover-cli/cli_utils.cc:87-114 | for a device without stars, unless a test runs past the end: it passes exactly if its name, or its model if it has none, satisfies the name filter, and serial number, address text, interface and model their filters; the address text parses as the bytes of the address |
| CommandLine.OneGroupPerMac | tools/rcdiscover-cli/cli_utils.cc:198-209 | strictly increasing devices fall into one group for each address, in increasing order |
| CommandLine.OneRowPerDevice | tools/rcdiscover-cli/cli_utils.cc:198-237 | each row has the name, or the model if there is none, the serial number, texts that parse as the IP and MAC address, the model, and the interfaces of exactly one group joined by commas in their order; no two rows show the same address; the groups one after the other are the devices |
| CommandLine.DeviceRows | tools/rcdiscover-cli/cli_utils.cc:186-237 | the loop yields these rows behind the header Name, Serial Number, IP, MAC, Model, Interface(s); if only one column is asked for, one row for each device with a text that parses as its IP address, or its serial number |
| CommandLine.ColumnsAlign | tools/rcdiscover-cli/cli_utils.cc:170-183 | in every printed line cell c begins at the same offset |
| CommandLine.BetweenCells | tools/rcdiscover-cli/cli_utils.cc:170-183 | behind a cell there are blanks, and a tab in front of the next one; a line feed ends the line |
| CommandLine.PrintTable | tools/rcdiscover-cli/cli_utils.cc:152-184 | the output is these lines, with column widths into which all cells fit and none of which is wider than needed |
| Discovery.Collect | tools/rcdiscover-cli/cli_utils.cc:122-130 | the loop on a `Discover` object with its threads: it ends with a call that brings nothing, the eleventh such at the latest, never before 1000 ms; its list is exactly what was delivered, and nothing is pending |
| Discovery.DiscoverWithFilter | tools/rcdiscover-cli/cli_utils.cc:116-150 | broadcast, collection, sort, unique, filter and destructor: the command went to the sockets of the given interfaces, or to all; the result is the passing elements of a sorted and unique list of all that was delivered up to the last check, in a state that the threads can reach |
| Discovery.EveryAnswerIsListed | tools/rcdiscover-cli/cli_utils.cc:116-237 | each device returned answered and passes; of the devices without stars exactly those are returned whose five texts satisfy their filters; each answer that a socket had stored at the last check, all but one held by its thread at most, is represented in what is filtered; and whatever passes is shown in exactly one printed row |
| ForceIp.CommandRoundTrip | rcdiscover/force_ip.cc:32-61 | the datagram is 42 00 00 04 00 38, the id, and the four addresses where the addressed device reads them, zeros elsewhere; the size field is exact |
| ForceIp.ForceIP.Layout | rcdiscover/force_ip.cc:32-61 | the byte assignments lay out this datagram, the rest being zero |
| ForceIp.ForceIP.SendCommand | rcdiscover/force_ip.cc:29-77 | each socket sends the datagram with an id of its own, in order, up to the first send that fails otherwise than by an unreachable network |
| Wildcard.MatchIsSound | rcdiscover/utils.h:158-193 | a match is always right: the text is described by the pattern |
| Wildcard.WildcardIsExact | rcdiscover/utils.h:158-193 | on texts without a star, unless it runs past the end, the matcher decides exactly the pattern in which two or more stars at the end want one character at least |
| Wildcard.EffectiveOfStars | rcdiscover/utils.h:158-193 | that pattern, in letters: two or more stars at the end stand for a question mark and a star, any other end stays as it is |
| Wildcard.LettersInEitherCase | rcdiscover/utils.h:180-184 | letters match in either case, any other character only itself, a question mark all |
| Wildcard.RightTexts | rcdiscover/utils.h:158-193 | its definite outcomes are right under all patterns that do not end in two stars exactly on the texts without a star |
| Wildcard.RightPatterns | rcdiscover/utils.h:158-193 | a pattern without `?` and NUL is decided rightly on all texts without a star exactly if it does not end in two stars |
| Wildcard.PastEndPatterns | rcdiscover/utils.h:158-185 | it steps past the end of some text exactly under the patterns with a `?` or a NUL; the text is the pattern up to the first of them |
| Wildcard.EmptyTextPastEnd | rcdiscover/utils.h:177-181 | it steps past the end of the empty text under the pattern `?` |
| Addresses.Split | rcdiscover/utils.h:69-98 | succeeds exactly on non-empty text with n - 1 separators that neither starts nor ends with one; the fields have no separator and joining them gives the text back |
| Addresses.String2Byte | rcdiscover/utils.h:100-123 | the bytes of the n fields, or the exception of the first field that has none |
| Addresses.FieldMeans | rcdiscover/utils.h:110-118 | a field is the number that the digits at its front make; it is no number if there are none, and out of range above 255 |
| Addresses.DigitTable | rcdiscover/utils.h:47-118 | the sixteen digits: small when printed, and read in either case |
| Addresses.PrintedForm | rcdiscover/utils.h:47-67 | a byte has no leading zeros in decimal and always two digits in hexadecimal |
| Addresses.ByteArrayToInt | rcdiscover/utils.h:145-156 | the loop computes the big-endian number, which fits |
| Addresses.BytesRoundTrip | rcdiscover/utils.h:145-156 | a number that fits into n bytes comes back from them |
| Addresses.AddressRoundTrip | rcdiscover/utils.h:47-133 | bytes that are printed in either form and parsed again come back |
| Addresses.Ip2String | rcdiscover/utils.h:59-67 | prints the four bytes in decimal, the highest first, joined by dots |
| Addresses.Mac2String | rcdiscover/utils.h:47-57 | prints the six bytes in two hexadecimal digits each, the highest first, joined by colons |
| Addresses.IpRoundTrip | rcdiscover/utils.h:59-156 | every 32-bit address comes back from its text |
| Addresses.MacRoundTrip | rcdiscover/utils.h:47-156 | every 48-bit address comes back from its text |
| Backup.BackupRoundTrip | tools/rcdiscover-gui/worker.cc:480-586 | for every license, the scanner returns the calibration without one newline at its end, and the license, exactly if the calibration does not begin with a newline and has no line made of equals signs only |
| Backup.StoreBackup | tools/rcdiscover-gui/worker.cc:480-488 | writes the calibration with a newline at its end, twenty equals signs and a newline, and the license |
| Backup.ResetFromFile | tools/rcdiscover-gui/worker.cc:551-586 | the scanner takes the file apart at its first separator line, and rejects it if there is none or it is an empty line at the start |
| Pairing.CollectCameras | tools/rcdiscover-gui/worker.cc:66-102 | returns the supported cameras of all interfaces, unless two of them have the same serial number, which it reports exactly then |
| Pairing.SupportedModels | tools/rcdiscover-gui/worker.cc:32-61 | the two vendors, and how the models of each begin |
| Pairing.PairByName | tools/rcdiscover-gui/worker.cc:126-228 | the pairs found by name are exactly the cameras of one model whose names differ in a final L and R only and are used by no third camera; no reset entry is used |
| Pairing.NamePairInWords | tools/rcdiscover-gui/worker.cc:126-180 | what belongs together by name: the same model, names that are a stem with L and with R, and no third camera with either name; the display name stands in for a missing name |
| Pairing.PairByLicense | tools/rcdiscover-gui/worker.cc:232-288 | with distinct serial numbers no reset entry is used, each new pair is a license naming its left camera, and no such pair is left over |
| Pairing.PairKeepsConsistent | tools/rcdiscover-gui/worker.cc:203-206 | a camera is reset exactly if it is in a pair, is in one pair at most, and what is left plus twice the pairs is the number of cameras |
| Pairing.Compact | tools/rcdiscover-gui/worker.cc:290-304 | the erasing loop keeps the leftovers in their order |
| Pairing.FindPairs | tools/rcdiscover-gui/worker.cc:126-304 | for cameras with distinct serial numbers: cameras = 2 * pairs + leftovers; the pairs by name are exactly the unique fitting ones, all others are license pairs, and no leftover's license has the serial number of another leftover |

## Left out

- RequestCounter.Counter.GetNext: how often one call's swap loses is bounded by a parameter, because the code's loop ends only if the swap eventually succeeds.
- GvcpIPConfig.Link.Send: which operating system error makes a send throw is not modelled; a send goes through or throws.
- GvcpIPConfig.Link.Receive: datagrams under 8 and over 600 bytes, the peer's address and the half second of `select` are not modelled; a wait ends with a datagram, with nothing, or with a readable socket that has nothing.
- GvcpAtomicity.PrefixAtomicity: other clients may claim, hold and release control, but do not write registers, which is what the property presupposes.
- GvcpResponsive.BacklogLaw: the queued datagrams must be stale, that is, no id comes round to one of them before it is taken.
- Discovery.Collect: time is in whole milliseconds, and the loop is given up after a number of calls that is a parameter, because the code's loop does not end while every call brings something.
- Discovery.DiscoverWithFilter: where a filter would run past the end of a text the code's behaviour is undefined; the model then reports so instead of a result. The interfaces are a list of names.
- Addresses.String2Byte: of `stoul` only the digits at the front of a field are modelled; leading blanks, signs and a 0x prefix are not.
- Backup.ResetFromFile: positions are unbounded integers, so files over 2 GiB are not covered.
- Pairing.FindPairs: access to calibration and license is an external library; the serial number that a license names is a field of the camera, and the messages to the user are not modelled.
- Socket creation, interface enumeration, `ping.cc` and the Windows sockets: foreign calls.
- A second `broadcastRequest` on one `Discover` object: the code says that the ids are final after the first.
- The heartbeat of the control channel, beyond the possibility that control expires at any time.
- All windows, drawing, selection and configuration files: of the device table only the data fields and the row count are modelled.
- `parseFilterArguments`, the accessors of `DeviceList` and `DeviceInfo`, Wake-on-LAN and option parsing: they would only add easy members.
- Reset, rename and license verification in `worker.cc`: external libraries.
