# A verified model of the monitoring system's core

This project models the parts of a monitoring system (C++ daemons and FastCGI pages over shared memory and MySQL) whose
behaviour is hard to see from the code, and proves what they keep over every input and every run.

- **Alarm engine.** `ReportWindow` is the three-minute window of a report node, written by the report server and read by
  the checker. `ViewBinding` is the binding of machines and attributes to views. `CheckRound` is one round of the checker:
  the node scan, the view sums, the configuration scan. `AlarmRecords` is the merging of triggers into alarm rows, as a
  state machine with the users' status changes. `SendRing` is the ring of warnings to send, in place; `RingRuns` is the
  same ring under every interleaving of the producer and the consumer processes.
- **Topology page.** `Topology` builds the parent-to-child multimap and walks it with the unguarded recursion.
- **Recent warnings.** `RecentWarns` is the bounded recency list against the rows of its table and the SQL page it stands
  for; `WarnCache` is the index-linked list in shared memory that implements it.
- **Attribute pages.** `AttrSeries` is the running maximum, its comma text, and the sum over machines read back from that
  text. `AttrTypeTree` is the tree of attribute types.
- **Text formats.** `Json` printing and parsing (`JsonText`, strings as in section 7 of RFC 8259), its escaping
  (`JsonEscape`), `Base64` (section 4 of RFC 4648, line breaks as in section 6.8 of RFC 2045), `Decimal`, and the test-key
  text with its table (`TestKeys`).

Objects that the source updates in place are classes or arrays here, loops are loops, and every such method is tied by its
`ensures` to a function of the old state; the theorems are lemmas about those functions. SQL tables are sequences or maps
of rows, shared hash tables are maps or arrays of nodes, clocks are parameters.

Several properties one would expect of the code do not hold for all inputs. For each of them there is a lemma with a
concrete input that shows it, and a lemma that gives the exact condition:

- parsing what `ToString` printed gives the same value exactly when no string or key needs escaping
  (`JsonText.RoundTripFails`, `RoundTripExact`);
- `decode` undoes `encode` exactly when no backslash stands before a letter r or n (`JsonEscape.UnescapeEscapeFails`,
  `UnescapeEscape`);
- `decode_length` is right exactly for text without line breaks (`Base64.DecodeLengthWrong`, `DecodeLengthExact`);
- the topology tree reaches every node exactly when no machine closes a ring, as a machine that is its own gateway does
  (`Topology.SelfGatewayIsLost`, `SpanningExact`);
- the counters of a report node are the summaries of its three minutes exactly when the reports of the last two minutes
  lost nothing, as they do around midnight; earlier losses heal (`ReportWindow.MidnightForgets`, `Recovers`,
  `WindowOverRuns`);
- the checker reads the two minutes before the check exactly unless these losses touch what it reads, or it runs in the
  same minute of the next day within 24 hours (`ReportWindow.StaleNextDay`, `AdaptExact`, `CheckReadsReports`);
- the pre-last sum of a view is that of the nodes exactly unless the previous round's last sum, or pre-last sum of the same
  minute, is carried into it; over two successive rounds it is twice the true sum (`CheckRound.PreSumCountsTwice`,
  `SumsExact`, `PreSumDoubles`);
- every handled warning was handled before its deadline exactly when no consumer came to a warning past its deadline with
  an older reading of the clock (`RingRuns.StaleReadingIsLate`, `InTimeExact`);
- a warning is dropped exactly when each slot, when it was read, held a warning whose deadline was not before the reading,
  which the consumers take for expired when it is that very second (`RingRuns.DropsAtDeadline`, `DropExact`);
- the wave of a value is the change in per cent exactly when a hundred times the change fits 32 bits and the wave an int
  (`CheckRound.WaveOverflows`, `WaveExact`);
- the recency list stays the most recent prefix exactly when each changed row is the newest or keeps its time; being as
  new as all records in the list is not enough, because the list can have become empty (`RecentWarns.OldRowInFront`,
  `EmptyListForgets`, `RunExact`);
- the test-key text is read back exactly when no value holds the separator (`TestKeys.BarIsCut`, `RoundTripExact`);
- a new attribute type gets its place in the tree exactly when its parent has one when its row is read; otherwise it gets
  none until the row leaves use (`AttrTypeTree.ChildBeforeParent`, `ReadTypeKeeps`, `StaysUnplaced`).

## Model

| member | source | states |
|---|---|---|
| Decimal.BigIntToString | slog_mtreport_client/Json.cpp:538-554 | the digit loop prints the canonical decimal text of every uint64 |
| Decimal.ReadOfShow | slog_mtreport_client/Json.cpp:538-554 | printed decimal text followed by any non-digit reads back to the same number |
| Decimal.ShowInjective | slog_mtreport_client/Json.cpp:538-554 | different numbers print differently |
| Base64.EncodeChars | slog_mtreport_client/Base64.cpp:68-102 | the signed encoder gives the encoding of the bytes its chars stand for |
| Base64.EncodeBytes | slog_mtreport_client/Base64.cpp:104-138 | the unsigned encoder gives the encoding of its bytes, breaks included |
| Base64.SignsAgree | slog_mtreport_client/Base64.cpp:68-138 | encoding signed chars and encoding the same bytes unsigned is the same text, although a negative char sign-extends |
| Base64.GroupIsRfc4648 | slog_mtreport_client/Base64.cpp:3-7 | a group of three bytes becomes the four letters of its 24-bit number, as in section 4 of RFC 4648 |
| Base64.Alphabet | slog_mtreport_client/Base64.cpp:3-7 | the letters of the sextets are the alphabet of section 4 of RFC 4648 |
| Base64.Padding | slog_mtreport_client/Base64.cpp:104-138 | the last characters are padding exactly by the length mod 3 |
| Base64.BreakPositions | slog_mtreport_client/Base64.cpp:104-138 | with breaks on, a line feed stands exactly after every 76 characters |
| Base64.BreaksOnlyInsert | slog_mtreport_client/Base64.cpp:104-138 | removing the breaks gives the unbroken encoding |
| Base64.EncodedLength | slog_mtreport_client/Base64.cpp:104-138 | the length of the broken and of the unbroken encoding |
| Base64.DecodeToString | slog_mtreport_client/Base64.cpp:140-171 | the string decoder computes the specified decoding of any text |
| Base64.DecodeToBuffer | slog_mtreport_client/Base64.cpp:173-216 | the buffer decoder writes the same bytes, returns their count, and with no buffer only counts |
| Base64.DecodeEncode | slog_mtreport_client/Base64.cpp:104-216 | decoding an encoding gives back every byte string, with or without breaks |
| Base64.BreaksSkipped | slog_mtreport_client/Base64.cpp:140-216 | carriage returns and line feeds before a group do not change what is decoded |
| Base64.DecodeLengthExact | slog_mtreport_client/Base64.cpp:219-229 | the announced length is the length exactly when there is no break: breaks off, or at most 57 bytes |
| Base64.DecodeLengthWrong | slog_mtreport_client/Base64.cpp:219-229 | 58 bytes with breaks whose announced length is wrong |
| JsonEscape.EncodePass | slog_mtreport_client/Json.cpp:622-649 | one in-place find-and-insert pass ends and escapes exactly the occurrences of its character |
| JsonEscape.Encode | slog_mtreport_client/Json.cpp:622-649 | the four passes give the per-character escape map |
| JsonEscape.PassesAreEscape | slog_mtreport_client/Json.cpp:622-649 | four passes one after another equal one left-to-right map |
| JsonEscape.EscapeInjective | slog_mtreport_client/Json.cpp:622-649 | different strings escape differently |
| JsonEscape.EscapedForms | slog_mtreport_client/Json.cpp:622-649 | the four escapes, and that every other character stays |
| JsonEscape.EscapeFixpoint | slog_mtreport_client/Json.cpp:622-649 | escaping changes nothing exactly when nothing needs it, and otherwise lengthens |
| JsonEscape.DecodePass | slog_mtreport_client/Json.cpp:652-680 | one in-place find-and-replace pass of decode ends and is the left-to-right pair replacement |
| JsonEscape.Decode | slog_mtreport_client/Json.cpp:652-680 | the four passes of decode in their order |
| JsonEscape.UnescapeEscape | slog_mtreport_client/Json.cpp:622-680 | decode undoes encode exactly for the strings with no backslash directly before a letter r or n |
| JsonEscape.UnescapeEscapeFails | slog_mtreport_client/Json.cpp:652-680 | a string that decode does not restore |
| JsonText.PutIsUpdate | slog_mtreport_client/Json.cpp:233-242 | inserting into the sorted member list is the update of the map it stands for |
| JsonText.CloseEscaped | slog_mtreport_client/Json.cpp:304-390 | in an escaped string the scanner meets no closing quote before the one the printer put |
| JsonText.ParseToString | slog_mtreport_client/Json.cpp:304-620 | for every value without reals, parsing its text followed by any text not starting with a digit or dot consumes exactly the text and rebuilds the value with escaped strings and keys |
| JsonText.RebuildMembersMap | slog_mtreport_client/Json.cpp:392-512 | distinct keys stay distinct when an object is read back |
| JsonText.RoundTripExact | slog_mtreport_client/Json.cpp:304-620 | the value comes back unchanged exactly when no string or key needs escaping |
| JsonText.RoundTripFails | slog_mtreport_client/Json.cpp:304-620 | a string that comes back changed |
| JsonText.PrintedExample | slog_mtreport_client/Json.cpp:557-620 | an object with an array as it is printed |
| JsonText.SpacesAllowed | slog_mtreport_client/Json.cpp:304-512 | blanks, tabs, carriage returns and line feeds before any token do not change what is read |
| JsonText.OtherNumbers | slog_mtreport_client/Json.cpp:304-420 | a negative number is read mod 2^64 and a number above 2^64 - 1 is capped |
| JsonText.ReadToken | slog_mtreport_client/Json.cpp:304-390 | the index-moving tokeniser gives the specified token and rest at every position |
| JsonText.ReadNumber | slog_mtreport_client/Json.cpp:304-390 | the digit loop of the tokeniser |
| JsonText.ReadQuoted | slog_mtreport_client/Json.cpp:304-390 | the quoted-string loop of the tokeniser with its ignore flag |
| JsonText.ParseAt | slog_mtreport_client/Json.cpp:392-512 | the recursive reader over one buffer and one index computes the specified parse and always moves on |
| JsonText.ParseArrayLoop | slog_mtreport_client/Json.cpp:392-512 | the array loop collects exactly the specified items |
| JsonText.ParseObjectLoop | slog_mtreport_client/Json.cpp:392-512 | the object loop collects exactly the specified members |
| Topology.TextInjective | cgi_fcgi/mt_slog_showview.cpp:3756-3842 | two nodes have the same text only if they are the same node, so the text keys of the map and multimap can be read as nodes |
| Topology.TextExample | cgi_fcgi/mt_slog_showview.cpp:3787-3804 | the text of a middle node between two addresses |
| Topology.AddMachine | cgi_fcgi/mt_slog_showview.cpp:3766-3842 | one pass of the branching loop |
| Topology.ShowTopInfo | cgi_fcgi/mt_slog_showview.cpp:3756-3850 | the page is the full unfolding of the multimap from the root |
| Topology.BuildTreeLike | cgi_fcgi/mt_slog_showview.cpp:3756-3842 | for every machine list each node but the root has exactly one incoming edge and the root none |
| Topology.MachineIsNode | cgi_fcgi/mt_slog_showview.cpp:3769-3777 | every machine of the list is a node |
| Topology.NodeIsMentioned | cgi_fcgi/mt_slog_showview.cpp:3766-3842 | every node but the root is the address, the gateway, the connecting address or the middle node of some machine |
| Topology.EveryMachineHangs | cgi_fcgi/mt_slog_showview.cpp:3774-3841 | in the finished multimap a machine, and the gateway, middle node and connecting address it brings in, hang where the hops and addresses of that machine say, with their type codes |
| Topology.PathsUnique | cgi_fcgi/mt_slog_showview.cpp:3714-3753 | at most one path leads from the root to a node |
| Topology.PathFits | cgi_fcgi/mt_slog_showview.cpp:3714-3753 | no path from the root is longer than the number of nodes, even where the data has rings |
| Topology.GetTreeNodeChildren | cgi_fcgi/mt_slog_showview.cpp:3714-3753 | the unguarded recursion ends and visits each node's children in order |
| Topology.KidsInOrder | cgi_fcgi/mt_slog_showview.cpp:3743-3751 | the children of a node are the ends of all its edges, in the order in which they were put in |
| Topology.VisitsOnce | cgi_fcgi/mt_slog_showview.cpp:3714-3753 | the recursion never visits a node twice |
| Topology.WalkVisitsReachedOnce | cgi_fcgi/mt_slog_showview.cpp:3714-3850 | the page shows exactly the nodes that a path reaches, each once |
| Topology.SpanningExact | cgi_fcgi/mt_slog_showview.cpp:3766-3842 | every node is reached exactly when no machine closes a ring where it is read |
| Topology.SpansWithoutSelfReference | cgi_fcgi/mt_slog_showview.cpp:3766-3842 | with no machine as its own gateway or connecting address the multimap is a spanning tree, middle nodes included |
| Topology.PageShowsMachines | cgi_fcgi/mt_slog_showview.cpp:3756-3848 | without self reference the page shows every machine of the list exactly once |
| Topology.SelfGatewayIsLost | cgi_fcgi/mt_slog_showview.cpp:3766-3842 | a machine that is its own gateway is not shown |
| SendRing.Ring.constructor | slog_check_warn/slog_check_warn.cpp:432-475 | an empty ring |
| SendRing.Ring.FindSlot | slog_check_warn/slog_check_warn.cpp:432-475 | the search from the cursor finds the first free slot around the ring, else a timed-out one, else the ring is full of unexpired warnings |
| SendRing.Ring.AddSendWarn | slog_check_warn/slog_check_warn.cpp:432-475 | the warning goes into the chosen slot and no other changes, or the ring is full and nothing does |
| SendRing.ChosenOrFull | slog_check_warn/slog_check_warn.cpp:432-475 | a ring that is not full has exactly one slot for a warning, and a full ring has none |
| SendRing.Ring.ScanSendWarn | slog_deal_warn/slog_deal_warn.cpp:480-526 | one scan frees what it sends and what is overdue, and nothing is lost: used before = used after + sent + overdue |
| SendRing.SentExact | slog_deal_warn/slog_deal_warn.cpp:490-524 | a scan handles exactly the warnings of its process whose deadline is to come, each once and in slot order |
| SendRing.ScanAccounts | slog_deal_warn/slog_deal_warn.cpp:487-525 | what a scan takes out of the ring is what it handled and what was overdue |
| RingRuns.StepKeeps | slog_check_warn/slog_check_warn.cpp:432-475 | every step of the producer and the consumers keeps the invariant of slots, entries and cursors |
| RingRuns.RunKeeps | slog_deal_warn/slog_deal_warn.cpp:480-526 | every interleaving keeps it |
| RingRuns.EveryRun | slog_deal_warn/slog_deal_warn.cpp:480-526 | from the empty ring, stored = handled + expired + recycled + pending and offered = stored + dropped + being placed; each entry is handled only by process id mod N on a reading before its deadline, and expires or is recycled only after it |
| RingRuns.StepFinal | slog_deal_warn/slog_deal_warn.cpp:480-526 | a step never changes the fate of an entry that has one |
| RingRuns.FateIsFinal | slog_deal_warn/slog_deal_warn.cpp:480-526 | over every run an entry is handled, expired or recycled at most once |
| RingRuns.OverwritesOnlyTimedOut | slog_check_warn/slog_check_warn.cpp:432-475 | the producer writes only over a free slot or a warning past its time |
| RingRuns.DropExact | slog_check_warn/slog_check_warn.cpp:438-464 | the producer drops a warning exactly when its search has read every slot and each, when read, held a warning with a deadline not before the reading |
| RingRuns.SeenWasThere | slog_check_warn/slog_check_warn.cpp:438-451 | what a search has seen was in the slot before some action of the run, in the same search |
| RingRuns.EveryDrop | slog_check_warn/slog_check_warn.cpp:438-464 | in every run each dropped warning had, for every slot, a moment of its search at which the slot held an unexpired warning |
| RingRuns.DropsAtDeadline | slog_check_warn/slog_check_warn.cpp:443-464 | on a ring of any size, a run that drops a warning in the second in which the consumers take every slot for expired |
| RingRuns.InTimeStep | slog_deal_warn/slog_deal_warn.cpp:480-526 | a step keeps all handled warnings handled before their deadlines exactly unless it sends, on an old reading, a warning whose deadline the clock has reached |
| RingRuns.InTimeRun | slog_deal_warn/slog_deal_warn.cpp:480-526 | over every run from such a state, all are handled in time exactly when no step of the run is such a late scan |
| RingRuns.InTimeExact | slog_deal_warn/slog_deal_warn.cpp:480-526 | the same over every run from the empty ring |
| RingRuns.StaleReadingIsLate | slog_deal_warn/slog_deal_warn.cpp:480-526 | on a ring of any size, a run in which a consumer with an old reading handles a warning at its deadline |
| AlarmRecords.RecentExact | slog_check_warn/slog_check_warn.cpp:693-694 | the 24-hour test on 32-bit times is the intended comparison before the clock's last day |
| AlarmRecords.ProcessKeeps | slog_check_warn/slog_check_warn.cpp:670-760 | processing a trigger keeps the records spaced, counted, masked as last triggered, and unmasked in the ring |
| AlarmRecords.DealKeeps | cgi_fcgi/mt_slog_showview.cpp:3537-3545 | so does a user's status change |
| AlarmRecords.RunKeeps | slog_check_warn/slog_check_warn.cpp:670-760 | so does every run of the two with monotone time |
| AlarmRecords.EveryRun | slog_check_warn/slog_check_warn.cpp:670-760 | in every run at most one open record per key is within 24 hours, the warn_times of a key sum to its triggers, each record has the times and value of its triggers, no masked trigger enters the ring, and every unmasked trigger that opens a record does |
| AlarmRecords.HitGoes | slog_check_warn/slog_check_warn.cpp:685-694 | a trigger goes to the open record of its alarm hit in the last 24 hours, else to a new one |
| AlarmRecords.HitRecord | slog_check_warn/slog_check_warn.cpp:712-757 | what a trigger leaves in its record, and that no other record changes |
| AlarmRecords.HitAnnounces | slog_check_warn/slog_check_warn.cpp:702-759 | a trigger is announced exactly when it is not masked and opens a record, or the record was not dealt with, or has been in dealing for longer than the quiet time |
| AlarmRecords.EveryAnnouncement | slog_check_warn/slog_check_warn.cpp:670-760 | over every run, for every trigger: the state it met, where it went and exactly when it was announced |
| AlarmRecords.DealExact | cgi_fcgi/mt_slog_showview.cpp:3537-3545 | a status change moves exactly the chosen records one status before it and starts the time of dealing |
| AlarmRecords.DoneIsFinal | slog_check_warn/slog_check_warn.cpp:685-689 | a record that is done stays as it is in every run |
| AlarmRecords.OnlyOneRecent | slog_check_warn/slog_check_warn.cpp:670-735 | two open recent records of one key are the same |
| AlarmRecords.WarnTable.constructor | slog_check_warn/slog_check_warn.cpp:670-760 | the empty table |
| AlarmRecords.WarnTable.Select | slog_check_warn/slog_check_warn.cpp:685-693 | the select finds the latest open record of a key, or none |
| AlarmRecords.WarnTable.HandleTrigger | slog_check_warn/slog_check_warn.cpp:676-760 | one trigger updates or inserts its record and is announced as specified |
| AlarmRecords.WarnTable.CheckTriggers | slog_check_warn/slog_check_warn.cpp:670-760 | the loop over a round's triggers is a run of the state machine |
| AlarmRecords.WarnTable.DealMultiWarns | cgi_fcgi/mt_slog_showview.cpp:3537-3545 | the status update touches exactly the listed records one status below |
| ReportWindow.AdaptExact | slog_check_warn/slog_check_warn.cpp:143-183 | the adapted values are the summaries of the two minutes before the check, across midnight, exactly unless the check is in the same minute of the next day within 24 hours and stale counters are left |
| ReportWindow.SummaryIs | slog_monitor_server/udp_sock.cpp:674-799 | the summary of a minute is the sum mod 2^32, the least, the greatest or the latest of its values |
| ReportWindow.ReportNode.AddReport | slog_monitor_server/udp_sock.cpp:674-799 | one report shifts and fills the three counters |
| ReportWindow.WrittenExact | slog_monitor_server/udp_sock.cpp:674-799 | the counters stay the summaries of their three minutes exactly when the shift does not lose one |
| ReportWindow.WindowThroughout | slog_monitor_server/udp_sock.cpp:674-799 | the counters are the window after every report exactly when no report loses |
| ReportWindow.NodeHolds | slog_monitor_server/udp_sock.cpp:674-799 | after every history the node holds the summaries of its last three minutes, with zeros for exactly what the reports of the last two minutes lost |
| ReportWindow.WindowOverRuns | slog_monitor_server/udp_sock.cpp:674-799 | after every history the counters are the window exactly when no report of the last minute lost a shift and none of the minute before lost the shift to the last value |
| ReportWindow.CheckReadsReports | slog_check_warn/slog_check_warn.cpp:143-183 | for every history and every later check, the exact condition on the reports under which the checker reads the last two minutes |
| ReportWindow.NodeHoldsTotals | slog_monitor_server/udp_sock.cpp:674-799 | for cumulative attributes the counters are the sums up to the last three minutes, but for the third right after midnight |
| ReportWindow.TotalReads | slog_check_warn/slog_check_warn.cpp:143-183 | what the checker reads of them at any time: everything before the minute of the last report |
| ReportWindow.MidnightForgets | slog_monitor_server/udp_sock.cpp:674-799 | two reports around midnight of which the checker misses the first |
| ReportWindow.Recovers | slog_monitor_server/udp_sock.cpp:674-799 | a node that lost a minute at midnight is exact again two minutes later |
| ReportWindow.StaleNextDay | slog_check_warn/slog_check_warn.cpp:143-183 | a check within 24 hours, in the same minute of the next day, that reads a counter of the day before |
| ViewBinding.BindNode.constructor | slog_config/slog_config.cpp:3015-3023 | a node with one view |
| ViewBinding.BindNode.Bind | slog_config/slog_config.cpp:3024-3038 | a view is appended to the array unless it is there |
| ViewBinding.BindNode.ShiftUp | slog_config/slog_config.cpp:3043-3051 | the inner loop moves the tail of the array up by one |
| ViewBinding.BindNode.Unbind | slog_config/slog_config.cpp:3040-3056 | the view leaves the array and the order of the others stays |
| ViewBinding.BindTable.ReadRow | slog_config/slog_config.cpp:3002-3063 | one row changes the array of its machine and no other; the attribute reader has the same form |
| ViewBinding.ReadInStep | slog_config/slog_config.cpp:3116-3180 | reading a row keeps every array duplicate-free and equal to the views whose latest row is in use |
| ViewBinding.ReadAllInStep | slog_config/slog_config.cpp:3002-3063 | after every sequence of rows the arrays are duplicate-free and hold exactly the views whose latest row is in use |
| ViewBinding.GetReportViews | slog_check_warn/slog_check_warn.cpp:370-397 | the nested loops give the common views in machine order |
| ViewBinding.CommonExact | slog_check_warn/slog_check_warn.cpp:370-397 | each view of both arrays once and no other |
| ViewBinding.ReportViewsExact | slog_check_warn/slog_check_warn.cpp:370-397 | after any rows, exactly the views to which both latest rows bind, each once |
| CheckRound.AddViewsExact | slog_check_warn/slog_check_warn.cpp:622-646 | a node is added once to exactly the configs of its views |
| CheckRound.ScanExact | slog_check_warn/slog_check_warn.cpp:540-655 | after the node scan each view config holds the sums over the nodes that count for it, and is touched exactly when one does |
| CheckRound.SumsExact | slog_check_warn/slog_check_warn.cpp:185-228 | the last sum is exact mod 2^32 exactly unless an earlier round of the same minute left a sum; the pre-last sum exactly when neither a round of the minute before left a last sum nor one of the same minute a pre-last sum, with the formula of what it is otherwise |
| CheckRound.PreSumCountsTwice | slog_check_warn/slog_check_warn.cpp:185-228 | a view whose pre-last sum is 10 where the nodes reported 5 |
| CheckRound.LastBecomesPre | slog_check_warn/slog_check_warn.cpp:143-183 | over two rounds a minute apart with exact windows, the last value of a node becomes its pre-last value |
| CheckRound.PreSumDoubles | slog_check_warn/slog_check_warn.cpp:540-655 | in the second of two such rounds the pre-last sum of a view is twice the true one mod 2^32 |
| CheckRound.CountsByRows | slog_check_warn/slog_check_warn.cpp:370-397 | a node counts for a view exactly when the latest rows bind both its machine and its attribute |
| CheckRound.MinOnce | slog_check_warn/slog_check_warn.cpp:476-538 | for a machine config with a minimum, node scan and config scan together warn at most once, and exactly when the value, or zero without a node, is below; the one exception is a zero minimum without a node |
| CheckRound.MachineTriggers | slog_check_warn/slog_check_warn.cpp:295-368 | for a known machine with a report node, each of the minimum, maximum and wave warnings occurs once exactly when the adapted value violates the limit, with its limit, value and mask |
| CheckRound.SilentMachine | slog_check_warn/slog_check_warn.cpp:488-530 | without a report node only the minimum warns, once, with the value 0 |
| CheckRound.UnknownMachine | slog_check_warn/slog_check_warn.cpp:497-503 | a configuration of an unknown machine does not warn |
| CheckRound.ExceptionTriggers | slog_check_warn/slog_check_warn.cpp:584-618 | an exception attribute warns once exactly when its value is not zero and configuration 0 has it |
| CheckRound.ViewTriggersExact | slog_check_warn/slog_check_warn.cpp:230-288 | the minimum, maximum and wave warnings of a view against its sums, with the second minimum warning of the configuration scan |
| CheckRound.ViewMaxExact | slog_check_warn/slog_check_warn.cpp:230-288 | a view warns of its maximum exactly when the sum of the values that count is above it |
| CheckRound.WaveExact | slog_check_warn/slog_check_warn.cpp:344-347 | the wave is the change in per cent exactly when a hundred times the change fits 32 bits and the wave an int |
| CheckRound.WaveOverflows | slog_check_warn/slog_check_warn.cpp:344-347 | a change whose wave is wrong |
| CheckRound.AlarmCheck.AddToViews | slog_check_warn/slog_check_warn.cpp:622-646 | the view loop of one node |
| CheckRound.AlarmCheck.ScanNodes | slog_check_warn/slog_check_warn.cpp:550-655 | the loop over report nodes |
| CheckRound.AlarmCheck.PushNode | slog_check_warn/slog_check_warn.cpp:565-620 | the machine tests of one node |
| CheckRound.AlarmCheck.PushViews | slog_check_warn/slog_check_warn.cpp:656-665 | the tests of the touched view configs, in the order of their config ids |
| CheckRound.AlarmCheck.PushConfigs | slog_check_warn/slog_check_warn.cpp:476-538 | the configuration scan for configs without a report |
| CheckRound.AlarmCheck.CheckAttrWarn | slog_check_warn/slog_check_warn.cpp:540-668 | a round runs once a minute and leaves the specified sums and triggers |
| RecentWarns.StepExact | slog_config/slog_config.cpp:1605-1744 | reading one changed row keeps the list the most recent prefix of the live rows exactly when the row is deleted, or is the newest, or keeps its time and its record is refreshed |
| RecentWarns.OthersKept | slog_config/slog_config.cpp:1605-1744 | every read leaves the other records and their order alone, but for the last record of a full list when a single new row comes |
| RecentWarns.OwnRecord | slog_config/slog_config.cpp:1605-1744 | the record a read leaves for its own row, its fields and its place |
| RecentWarns.LosesOnly | slog_config/slog_config.cpp:1619-1636 | a read loses a record only when its row is deleted, or as the last of a full list |
| RecentWarns.CompleteExact | slog_config/slog_config.cpp:1611-1657 | a list with every live row keeps them all exactly unless a new row finds it full or no node |
| RecentWarns.ReadRowBounded | slog_config/slog_config.cpp:1605-1744 | every read keeps distinct records, at most the maximum |
| RecentWarns.LoadIsPrefix | slog_config/slog_config.cpp:1580-1675 | a descending full load into the empty list leaves the newest live rows, newest first, as many as fit |
| RecentWarns.RunExact | slog_config/slog_config.cpp:1605-1744 | over every run of changed rows the list is the most recent prefix after each exactly when each change keeps it where it happens |
| RecentWarns.RunComplete | slog_config/slog_config.cpp:1605-1744 | over every run that keeps the order, the list has every live row after every change exactly as long as the live rows fit |
| RecentWarns.LoadThenRun | slog_config/slog_config.cpp:1580-1744 | the same from a full load |
| RecentWarns.OldRowInFront | slog_config/slog_config.cpp:1611-1657 | for every maximum, a status change of a warning too old for the full list puts it in front of newer ones |
| RecentWarns.EmptyListForgets | slog_config/slog_config.cpp:1611-1644 | for every maximum, a run of deletions after which a row as new as every record in the list breaks the order |
| RecentWarns.PageIsSql | cgi_fcgi/mt_slog_showview.cpp:3319-3337 | while the list is such a prefix, every page that is not declined is the page of an answer to the ordered select |
| RecentWarns.SqlUpToTies | cgi_fcgi/mt_slog_showview.cpp:3431-3445 | two answers to the select agree in every time, and in every row when no two live rows share a time |
| WarnCache.DeleteLinked | lib/mtagent_api_open/supper_log.h:1783-1793 | the delete macro leaves a doubly linked list without the node |
| WarnCache.InsertFirstLinked | lib/mtagent_api_open/supper_log.h:1764-1768 | the insert-first macro leaves a doubly linked list with the node in front |
| WarnCache.InsertLastLinked | lib/mtagent_api_open/supper_log.h:1777-1781 | the insert-last macro leaves a doubly linked list with the node at the end |
| WarnCache.Cache.constructor | slog_config/slog_config.cpp:1580-1604 | the empty list |
| WarnCache.Cache.Unlink | lib/mtagent_api_open/supper_log.h:1783-1793 | the delete macro on the nodes in shared memory |
| WarnCache.Cache.LinkOnly | lib/mtagent_api_open/supper_log.h:1751-1755 | the set-first macro |
| WarnCache.Cache.LinkFirst | lib/mtagent_api_open/supper_log.h:1764-1768 | the insert-first macro |
| WarnCache.Cache.LinkLast | lib/mtagent_api_open/supper_log.h:1777-1781 | the insert-last macro |
| WarnCache.Cache.Evict | slog_config/slog_config.cpp:1623-1636 | the tail leaves the list and its node is free |
| WarnCache.Cache.Store | slog_config/slog_config.cpp:1638-1672 | a new record enters at the front or the end and the list stays well formed |
| WarnCache.Cache.Move | slog_config/slog_config.cpp:1685-1714 | a record with a new time is unlinked and linked again |
| WarnCache.Cache.Remove | slog_config/slog_config.cpp:1730-1744 | a deleted row's node is unlinked and freed |
| WarnCache.Cache.ReadRow | slog_config/slog_config.cpp:1605-1744 | for every row the list stays a well-formed doubly linked list of its count, never above the maximum, and its records change as specified |
| WarnCache.Cache.LoadTable | slog_config/slog_config.cpp:1580-1675 | the full load into an empty list |
| WarnCache.Cache.GetWarnListFromShm | cgi_fcgi/mt_slog_showview.cpp:3319-3413 | the walk declines exactly as specified and otherwise returns the records of the page, negative page numbers and sizes included |
| AttrSeries.FillAndPrint | cgi_fcgi/mt_slog_showview.cpp:1307-1346 | the in-place pass leaves the prefix maxima for cumulative attributes, and the text, total and maximum of the series |
| AttrSeries.PeakIsMax | cgi_fcgi/mt_slog_showview.cpp:1307-1330 | the running maximum is an upper bound that is reached |
| AttrSeries.DashesAreZeros | cgi_fcgi/mt_slog_showview.cpp:1338-1344 | the text has a dash for every hidden zero and none when zeros are shown |
| AttrSeries.AddTokens | cgi_fcgi/mt_slog_showview.cpp:1414-1427 | the strtok loop adds the tokens of a text to the day array |
| AttrSeries.AddListExact | cgi_fcgi/mt_slog_showview.cpp:1414-1427 | reading back a printed series adds exactly its values, hidden zeros included |
| AttrSeries.AddMachine | cgi_fcgi/mt_slog_showview.cpp:1394-1427 | one machine adds its filled series to the day array mod 2^32 |
| AttrSeries.ViewDayVal | cgi_fcgi/mt_slog_showview.cpp:1386-1468 | the view series, text, total and maximum from the machines' series |
| AttrSeries.FillRising | cgi_fcgi/mt_slog_showview.cpp:1442-1468 | a second running-maximum pass changes nothing on a rising series |
| AttrSeries.AggregateExact | cgi_fcgi/mt_slog_showview.cpp:1386-1468 | the view series is the pointwise sum of the machines' filled series exactly when the sums fit 32 bits |
| AttrSeries.TotalIsSumOfPeaks | cgi_fcgi/mt_slog_showview.cpp:1386-1468 | the total of a cumulative view is then the sum of the machine maxima |
| AttrSeries.TotalIsSumOfSums | cgi_fcgi/mt_slog_showview.cpp:1386-1468 | the total of a view that is not cumulative is the sum of all values of all machines mod 2^32 |
| AttrTypeTree.DeleteAttrTypeTree | slog_config/slog_config.cpp:2071-2087 | the recursive loop with swap and remove-last deletes as specified and reports a hit on the root |
| AttrTypeTree.TryAddAttrTypeTree | slog_config/slog_config.cpp:2089-2117 | the recursive search adds below the first parent found, or says the child is there, or that there is no parent |
| AttrTypeTree.DeleteExact | slog_config/slog_config.cpp:2071-2087 | with unique ids, deleting a type below the root removes exactly its subtree and one link, and every survivor keeps its parent |
| AttrTypeTree.AddExact | slog_config/slog_config.cpp:2089-2117 | adding answers by whether the parent is there, and then adds one type and one link or nothing |
| AttrTypeTree.DeleteAfterAdd | slog_config/slog_config.cpp:2071-2117 | deleting a type that was new when it was added gives back the identical tree |
| AttrTypeTree.UniqueExact | slog_config/slog_config.cpp:2119-2157 | a change keeps ids unique exactly when it does not add a type that has another place |
| AttrTypeTree.MovedTypeTwice | slog_config/slog_config.cpp:2089-2117 | on its own, without the test of its caller, an addition can put a type in the tree twice |
| AttrTypeTree.ReadTypeKeeps | slog_config/slog_config.cpp:2208-2268 | reading a row keeps each type at one place at most and every type in the tree but the root known; a new type is placed exactly when its parent is in the tree, and a type not in use has no place |
| AttrTypeTree.RowsKeepUnique | slog_config/slog_config.cpp:2208-2268 | so after every run of rows, and no row the loop adds has a place already |
| AttrTypeTree.StaysUnplaced | slog_config/slog_config.cpp:2208-2268 | a known type without a place gets none over every run of rows until its own row leaves use |
| AttrTypeTree.PlacedAgain | slog_config/slog_config.cpp:2208-2268 | a type that left use and comes back is placed again exactly when its parent has a place |
| AttrTypeTree.ChildBeforeParent | slog_config/slog_config.cpp:2208-2268 | a type read before its parent is known and stays without a place |
| AttrTypeTree.TypeStore.constructor | slog_config/slog_config.cpp:2141-2145 | the tree of the one root type, in step |
| AttrTypeTree.TypeStore.ReadRow | slog_config/slog_config.cpp:2210-2268 | one row changes the known types and the tree as specified |
| AttrTypeTree.TypeStore.ReadTable | slog_config/slog_config.cpp:2210-2268 | the loop over the rows |
| TestKeys.PrintKeys | cgi_fcgi/mt_slog.cpp:337-346 | the printing loop joins the keys with separators between them |
| TestKeys.PrintedExample | cgi_fcgi/mt_slog.cpp:337-346 | two keys as they are printed |
| TestKeys.LiveKeysAreLive | cgi_fcgi/mt_slog.cpp:350-353 | the rows the page selects hold exactly the live keys |
| TestKeys.ConfigStore.GetLogConfigTestKey | cgi_fcgi/mt_slog.cpp:332-369 | the text of the list in shared memory, or of the live rows where the configuration is not there |
| TestKeys.ParseKeys | cgi_fcgi/mt_slog.cpp:381-401 | the strtok loop reads the keys of any text, skipping tokens without a separator and stopping at the maximum |
| TestKeys.ParsePrint | cgi_fcgi/mt_slog.cpp:381-401 | the parser reads back the printed keys, as many as there is room for |
| TestKeys.KeyBack | cgi_fcgi/mt_slog.cpp:392-398 | a token gives its type as a byte and the first 20 characters of its value |
| TestKeys.NoTilde | cgi_fcgi/mt_slog.cpp:392-394 | a token without a separator is passed over |
| TestKeys.AtoiReads | cgi_fcgi/mt_slog.cpp:397 | the type is read past white space and a sign, up to the first other character |
| TestKeys.RoundTripExact | cgi_fcgi/mt_slog.cpp:332-401 | for every list that fits, the parser inverts the printer exactly when no value holds a bar |
| TestKeys.BarIsCut | cgi_fcgi/mt_slog.cpp:381-401 | a value with a bar that does not come back |
| TestKeys.ParsedNoBars | cgi_fcgi/mt_slog.cpp:381-401 | whatever the text, the parsed keys fit shared memory and hold no bar |
| TestKeys.ConfigStore.DeleteMissing | cgi_fcgi/mt_slog.cpp:432-453 | the delete loop takes exactly the old keys that are not new out of the live rows |
| TestKeys.ConfigStore.InsertNew | cgi_fcgi/mt_slog.cpp:455-475 | the insert loop adds exactly the new keys that are not old |
| TestKeys.ConfigStore.SaveLogConfigTestKey | cgi_fcgi/mt_slog.cpp:371-479 | the list, the live rows of this and of other configurations, and a sequence number that moves exactly when the configuration is in shared memory and the key sets differ |
| TestKeys.SavedExact | cgi_fcgi/mt_slog.cpp:432-475 | the live keys become the new list exactly when the keys the two loops do not touch were right before |
| TestKeys.SavesAgree | cgi_fcgi/mt_slog.cpp:432-475 | a table that agrees with the list agrees after every run of saves |
| TestKeys.SaveUnedited | cgi_fcgi/mt_slog.cpp:332-475 | saving the printed text of a list that fits and has no bar changes neither the list nor the live keys |

## Left out

- CGI dispatch, page templates, SQL text and connections, transactions and failed statements, UDP, protobuf, AES and MD5.
- Shared hash tables and vmem strings: maps or arrays of nodes keyed by id; their probing and their own overflow are not modelled.
- Cleanup of rows and nodes: the later database delete of removed rows, the recycling of report nodes, the cleanup sweep of ReadTableAppInfo.
- Json reals, malformed or unterminated Json text, and the int64 form of bigint2string.
- Base64 encoding of a FILE, and characters of 128 and above in decoder input.
- JsonText.ReadToken: a number with a dot and a string without a closing quote end outside the model, because their conversion and the read past the buffer are not modelled.
- JsonText.ReadNumber: a number with a dot has no value here; printing reals to two digits is lossy.
- JsonText.ReadQuoted: what the source makes of a string without a closing quote is not modelled.
- JsonText.ParseAt: a real counts as outside the model, so no statement is made about it.
- ipv4_addr_str is taken as dotted decimal of a 32-bit number.
- Times near the end of 32-bit seconds: theorems about times suppose a day's distance from the wrap; the code's 32-bit sums are modelled.
- Time zones and daylight saving: a minute of day is counted from multiples of 86400 seconds.
- SendRing.Ring.ScanSendWarn: a whole node is read and cleared in one step; races on single fields of a node are not modelled.
- RingRuns.EveryRun: one clock for all processes; a consumer acts on the reading it took at the start of its scan, and EveryRun bounds that reading; InTimeExact is the statement about the clock itself.
- AlarmRecords.WarnTable.Select: rows of one key with the same warn time may be answered in any order, which is why the answer is a parameter of the state machine.
- ReportWindow.WindowOverRuns: static times other than one minute are left out; cumulative attributes have no window and are in NodeHoldsTotals.
- CheckRound.ViewTriggersExact: the configuration scan looks a view id up as a machine id among the report nodes, as the source does; whether that is meant is left open.
- CheckRound.WaveExact: the product that overflows an int, which C++ leaves undefined, is taken as two's-complement.
- CheckRound.AlarmCheck.CheckAttrWarn: configuration ids are distinct, as the key of their table makes them.
- ViewBinding.BindTable.ReadRow: rows beyond the capacity of the arrays are left out, because the code writes past them without a test; so are the reverse lists of AddViewBindMach.
- AttrSeries.ViewDayVal: the binary database values behind a series, minima, the current value and pages of more than 1440 slots are left out.
- AttrTypeTree.RowsKeepUnique: the names and counts of the types, and the statements that mark child rows deleted, are left out.
- AttrTypeTree.DeleteAttrTypeTree: the tree is a value, as the protobuf message owns its children; the update in place and the storing of the message are not captured.
- RecentWarns.StepExact: a changed row whose wid has no record finds a hash node or not, as a parameter.
- WarnCache.Cache.LoadTable: takes the first free node, whichever the hash would choose, and supposes more nodes than the maximum of the list.
- WarnCache.Cache.GetWarnListFromShm: a negative page number with more records per page than there are is left out, because the source then walks past the end of the list; so are overflow of the product and the names and dates of the response.
- DealWarnsInShm, which matches ids by substring.
- TestKeys.ParseKeys: atoi of a number beyond int, which C leaves undefined, is taken as the number; the text has no NUL.
- TestKeys.ConfigStore.SaveLogConfigTestKey: an SQL statement compares keys exactly, without the collation's case folding, and quotes in a key are not modelled.
