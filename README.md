# nftop in Dafny

nftop is a `top`-like monitor for Linux connection tracking. Every update
interval it:

- dumps the conntrack table;
- diffs each flow's byte counters against the previous dump to get rates;
- attributes each flow to an ingress and an egress network interface, and
  credits the rates to the interface and its addresses;
- filters the flows by address family, threshold, interface name and
  loopback;
- resolves hostnames through a ring-buffer DNS cache;
- sorts the result by a chosen column and draws it;
- waits for keys that change the settings.

This project models that core and proves properties of the model. The
files mirror the source:

- `types.dfy`: the records of `src/nftop.h` (connection, interface, address); the global settings as one `Config` value; C integer conversions
- `names.dfy`: the protocol label and the sort indicator (`src/util.c`)
- `directory.dfy`: building the interface/address directory, subnet matching, the address-to-interface lookup, and appending to the display list (`src/util.c`)
- `dnscache.dfy`: the 4096-slot reverse-DNS ring and `addr2host` (`src/util.c`)
- `ingest.dfy`: the conntrack dump callback `data_cb` (`src/main.c`)
- `diff.dfy`: the history match and the rate computation of the main loop
- `resolve.dfy`: the gate, interface resolution with rate crediting, and the interface filter
- `sorting.dfy`: the comparators and the three list sorts
- `cycle.dfy`: one whole refresh cycle, as a specification function and as the in-place loop over the current list
- `options.dfy`: `-s`/`-i`/`-o` parsing and the numeric prompt `getUserInteger`
- `keys.dfy`: the key table of `wait_char` and the pause handling around it
- `display.dfy`: what `src/display.c` computes before drawing: hostname width, row budget, status text, redaction and truncation, the age split, the device filter

Where the source updates state in place, the model does too:

- the DNS ring is a class over an array;
- the current list is an array that the cycle's loop rewrites;
- the qsort pointer arrays are sorted in place;
- the drawing globals are the fields of a `Screen`.

The rest is datatypes and functions.

Outside inputs become parameters:

- `inet_pton` and `getnameinfo` are functions passed in (`Cycle.Env`);
- the clock is a `now` argument;
- the keyboard is a sequence of polls (a key or nothing per 50 ms tick);
- the terminal size is an argument.

C arithmetic is written out where it matters:

- the `uint64_t` counter differences;
- the `uint32_t` elapsed time;
- the 32-bit narrowing of sort keys, prompt values and ages;
- the `size_t` hostname width.

Several quirks of the code are modelled as written, each with a lemma
that shows it:

- a `size_t` width that wraps instead of being floored;
- a prompt value that wraps through `int`;
- a zero sort key that compares equal to everything;
- a DNS failure cached as the address itself;
- the egress interface's `bps_sum`, which is assigned rather than added to;
- the age of a flow whose stop stamp is set: data_cb converts only the
  start stamp from nanoseconds to seconds, so the stop stamp's raw value is
  used as if it were seconds (`Ingest.EndedFlowMixesUnits`). While a flow
  lives its stop stamp is 0 and the current time stands in.

## Model

| member | source | states |
|---|---|---|
| Names.NatToString | src/util.c:178-180 | the decimal text of a protocol number is non-empty, all digits, one digit exactly below 10 |
| Names.DecimalRoundTrip | src/util.c:178-180 | reading back the printed digits gives the number again |
| Names.ProtocolBase | src/util.c:153-181 | the label table: TCP is "tcp", ICMP and ICMPv6 "icmp", IGMP "igmp", UDP and UDP-Lite "udp", 41 "ipv6", 89 "ospf", 112 "vrrp"; any other protocol is its decimal number |
| Names.LabelIdentifiesProtocol | src/util.c:153-181 | a named protocol's label is never a number, and a number label belongs to its protocol alone |
| Names.IPProtocolName | src/util.c:148-188 | the label gets the suffix "6" exactly when the flow is IPv6, and is unchanged otherwise |
| Names.SortIndicator | src/util.c:190-201 | a marker only on the sorted column; "^" exactly for descending order |
| Directory.SubnetMatch | src/util.c:348-358 | returns 0 exactly when the masked addresses agree on the first 4 (IPv4) or 16 bytes, else 1 |
| Directory.IsLocalAddress | src/util.c:360-373 | true exactly when some address of some interface has this text |
| Directory.FirstIface | src/util.c:375-414 | the first interface in list order with an address equal in text or in the same subnet of the same family; none only when no interface has one |
| Directory.IfaceForAddr | src/util.c:375-414 | the nested walk over interfaces and addresses returns the first interface that FirstIface specifies |
| Directory.LocalAddressResolves | src/util.c:360-414 | an address the machine owns always resolves to an interface, no later than the owning one |
| Directory.SubnetBeforeLaterExact | src/util.c:387-411 | a subnet match on an earlier interface beats an exact match on a later one |
| Directory.SubnetResolvesUnownedAddress | src/util.c:394-406 | 10.0.0.5 is not owned by eth0 (10.0.0.1/24) yet resolves to it |
| Directory.AddCt | src/util.c:204-228 | the connection is copied at the tail, and the earlier nodes are unchanged |
| Directory.AddInterface | src/util.c:253-268 | a zeroed interface with the name cut to IFNAMSIZ-1 is prepended; no addresses |
| Directory.AddAddress | src/util.c:230-251 | the address is prepended with its text, family, binary address and mask, and zero rates |
| Directory.FirstNamed | src/util.c:313-316 | the first interface with exactly this name, or none when no interface has it |
| Directory.EnumerateNetworkDevices | src/util.c:295-346 | the record loop equals the fold of one enumeration step per getifaddrs record |
| Directory.EnumStepAddsOne | src/util.c:306-343 | an IPv4/IPv6 record adds its address (text, family, address and mask bytes) to the interface of its name (created if absent), sets the flags, and increments the count by exactly one |
| Directory.EnumStepFrame | src/util.c:306-343 | a record that is not IPv4/IPv6 leaves the list alone; otherwise every other interface is kept, and a created one goes in front of the old list |
| DnsCache.EmptyRing | src/util.c:428-440 | before the first insertion every slot is empty |
| DnsCache.RingInsert | src/util.c:428-461 | the ring stays well formed after the write and the step of the cursor |
| DnsCache.FirstHolding | src/util.c:475-485 | the first node in list order that holds the address, or none when no node does |
| DnsCache.CachedName | src/util.c:475-485 | a hostname exactly when some node holds the address, and that of the first such node |
| DnsCache.InsertThenHit | src/util.c:428-485 | after a miss, inserting an address makes the next lookup return its (cut) hostname |
| DnsCache.InsertKeepsOlderEntry | src/util.c:428-485 | with no de-duplication, an earlier node holding the address keeps answering |
| DnsCache.RingFill | src/util.c:428-461 | insertions fill slots 0, 1, 2, … in order, and the cursor wraps after 4096 |
| DnsCache.WrapOverwritesFirst | src/util.c:446-460 | insertion 4097 overwrites slot 0 and keeps the others |
| DnsCache.FirstEvicted | src/util.c:446-485 | after 4097 distinct insertions the first address is no longer cached |
| DnsCache.ResolveSide | src/util.c:493-513 | one side of addr2host keeps the ring well formed |
| DnsCache.AddrToHostSpec | src/util.c:487-536 | addr2host changes only the two local hostnames of the connection |
| DnsCache.ResolveSidePolicy | src/util.c:493-513 | skipped when numeric or redacted or already named; a cache hit is copied; a miss asks the resolver and caches its answer |
| DnsCache.FailureCachedAsAddress | src/util.c:500-507 | a failed lookup is cached as the address itself and never retried; the name stays empty the first time and is the address the next time |
| DnsCache.SourceResolver | src/util.c:495-501 | as addr2host calls getnameinfo, an IPv4 address is looked up and an IPv6 address always fails |
| DnsCache.IPv6NeverNamed | src/util.c:493-513 | under that resolver an IPv6 side gets no name the first time and its own address from the cache the next time |
| DnsCache.Cache.Add | src/util.c:428-461 | the array ring after one insertion equals RingInsert of the old ring |
| DnsCache.Cache.Lookup | src/util.c:475-485 | the walk returns CachedName of the slots |
| DnsCache.Cache.IsCached | src/util.c:416-426 | true exactly when CachedName finds the address |
| DnsCache.Cache.ResolveOne | src/util.c:493-535 | the ring and the name after one side equal ResolveSide |
| DnsCache.Cache.AddrToHost | src/util.c:487-536 | the ring and the connection after addr2host equal AddrToHostSpec |
| Ingest.Elapsed | src/main.c:177-192 | the age is an int64 value: the interval without a start stamp; otherwise the stop stamp, or the current time when it is 0, minus the start stamp in whole seconds |
| Ingest.ElapsedOfLiveFlow | src/main.c:182-191 | a live flow that started k seconds before now has age k |
| Ingest.Derive | src/main.c:176-231 | the connection carries the flow's id, start stamp and age, protocols, counters (sum as uint64), addresses and local ports, TCP state only for TCP, NAT bits, and zero rates |
| Ingest.EndedFlowMixesUnits | src/main.c:177-192 | a flow stopped one second after it started gets the stop stamp minus the start seconds as its age, not 1 |
| Ingest.Kept | src/main.c:143-174 | a dump yields no more connections than flows, each of them IPv4/IPv6 carrying TCP, UDP, ICMP, ICMPv6 or IGMP |
| Ingest.KeptComplete | src/main.c:143-174 | the record of every supported flow is in the list |
| Ingest.KeptAll | src/main.c:143-174 | a dump of supported flows yields exactly one record per flow, in order |
| Ingest.Collector.NoStartTime | src/main.c:186-190 | a flow without a start stamp turns the timestamp flag and the age column off and changes nothing else |
| Ingest.Collector.DataCb | src/main.c:129-238 | every flow is counted; a supported one is appended; a flow without a start stamp turns the timestamp flag and the age column off |
| Ingest.Collector.Dump | src/main.c:129-238 | the count grows by the number of flows and the list by Kept of them; the timestamps flag and the age column are switched off exactly when some kept flow has no start time, and the rest of the options are unchanged |
| Ingest.Collector.DumpStep | src/main.c:129-238 | the callback on one more flow extends the count, the list, the timestamps flag and the options left by the earlier flows |
| Ingest.LacksStartTimeStep | src/main.c:186-190 | one more flow adds to "some kept flow has no start time" exactly its own case |
| Diff.FirstMatch | src/main.c:964-1011 | the first history entry with the same id and start time, or none when there is none |
| Diff.FindHistory | src/main.c:964-1011 | the history walk returns FirstMatch |
| Diff.Pace | src/main.c:970-974 | the elapsed seconds as uint32: the age difference when the age moved, else the interval |
| Diff.RateIsBitsPerSecond | src/main.c:978-992 | for growth below 2^60 bytes the rate is 8 times the bytes per second, rounded down to a multiple of 8 |
| Diff.BackwardCounterRate | src/main.c:978-983 | a counter that went back by one passes the unsigned guard and gives a negative rate after the int64 store |
| Diff.DiffOne | src/main.c:970-1002 | only the three rates and the two local hostnames change; the sum is rx plus tx as int64 whenever time passed; known hostnames are copied from history |
| Diff.RateDirection | src/main.c:976-993 | to a local destination the reply bytes are transmit and the original bytes receive; otherwise the reverse |
| Diff.DiffExample | src/main.c:976-993 | 256000 more reply bytes over 2 s to a local destination give 1024000 bps transmit |
| Resolve.GateFamilies | src/main.c:1014-1026 | a flow of a disabled family, or of neither family, never passes the gate |
| Resolve.LookupEither | src/main.c:1029-1033 | the first address's interface, or the fallback address's when the first has none |
| Resolve.CreditAddresses | src/main.c:1043-1051 | each address is credited exactly when its text is one of the connection's addresses |
| Resolve.EgressAssignsSum | src/main.c:1038-1040 | ingress crediting keeps sum = tx + rx; egress assigns the sum, which breaks it whenever the interface already had traffic |
| Resolve.LayoutDecidesLookup | src/main.c:1029-1056 | lookups and isLocalAddress see only names and addresses, not rates |
| Resolve.CreditKeepsLayout | src/main.c:1038-1075 | crediting an interface changes only rates |
| Resolve.SameLayoutTrans | src/main.c:1029-1078 | lists that agree up to rates compose |
| Resolve.IngressFacts | src/main.c:1029-1052 | the ingress interface is credited and copied into the connection; without one the name is "*" |
| Resolve.IngressLayout | src/main.c:1029-1052 | ingress changes only rates of the list |
| Resolve.EgressFacts | src/main.c:1054-1078 | the egress interface is credited only when it differs from the ingress, copied after crediting; without one the name is "*" |
| Resolve.EgressLayout | src/main.c:1054-1078 | egress changes only rates of the list |
| Resolve.EgressLookupUnaffected | src/main.c:1054-1056 | the egress lookup answers the same on the list before ingress crediting |
| Resolve.ResolveAccounting | src/main.c:1029-1078 | which interfaces of the list gain which rates in one resolution |
| Resolve.ComposeStages | src/main.c:1029-1078 | an interface that is both ingress and egress is credited once; a distinct egress one is credited on top of the ingress credit |
| Resolve.ResolveKeepsLayout | src/main.c:1029-1078 | resolution changes only the rates of the list |
| Resolve.ResolveConnection | src/main.c:1029-1078 | resolution changes only the connection's two interface copies |
| Resolve.FilterRules | src/main.c:1080-1098 | no filter admits all; an in-filter decides alone even when an out-filter is set; a loopback ingress is refused while loopback is hidden |
| Resolve.FuzzyIsPrefix | src/main.c:1083-1087 | a fuzzy filter is a prefix test and an exact one an equality test |
| Sorting.SortKey | src/main.c:410-442 | the key of a numeric column, truncated to uint32 |
| Sorting.CompareConnections | src/main.c:381-470 | the comparator returns -1, 0 or 1 |
| Sorting.CompareInterfaces | src/main.c:388-401 | the interface comparator returns -1, 0 or 1 |
| Sorting.CompareAddresses | src/main.c:374-379 | the address comparator returns -1, 0 or 1 |
| Sorting.StrCmpAntisymmetric | src/main.c:374-379 | swapping the strings negates strcmp, which is 0 only on equal strings |
| Sorting.ConnectionsAntisymmetric | src/main.c:381-470 | swapping two connections negates the comparison |
| Sorting.CompareRules | src/main.c:443-469 | a zero key compares equal to anything; a larger key sorts first when descending; ascending flips the sign; no field compares all equal |
| Sorting.KeysTruncated | src/main.c:382-413 | a rate of 2^32+1 sorts as 1, below a rate of 2 |
| Sorting.ZeroKeyNotTransitive | src/main.c:460-461 | with keys 5, 0 and 3, "equal" is not transitive |
| Sorting.Insert | src/main.c:362 | one insertion adds exactly one element |
| Sorting.InsertionSort | src/main.c:362 | the sort keeps the length |
| Sorting.InsertPermutes | src/main.c:362 | insertion is a permutation of the input plus the element |
| Sorting.SortPermutes | src/main.c:268-372 | the sort returns a permutation of its input |
| Sorting.InsertKeepsOrder | src/main.c:362 | inserting into an adjacent-ordered list keeps it adjacent-ordered |
| Sorting.InsertLast | src/main.c:362 | the last element after insertion is the inserted one or the old last |
| Sorting.SortAdjacentOrdered | src/main.c:268-372 | under an antisymmetric comparator no adjacent pair of the result is out of order |
| Sorting.AdjacentToSorted | src/main.c:268-372 | when "at most equal" is transitive, adjacent order means every pair is in order |
| Sorting.InsertAt | src/main.c:362 | one in-place pass leaves the prefix equal to Insert of the old prefix and the rest unchanged |
| Sorting.SortInPlace | src/main.c:268-372 | the array after sorting equals InsertionSort of the old contents |
| Sorting.SortConnections | src/main.c:339-372 | the list comes back as InsertionSort under the connection comparator |
| Sorting.SortAddresses | src/main.c:268-301 | the list comes back as InsertionSort under compare_addresses |
| Sorting.WithSortedAddresses | src/main.c:319-324 | every interface keeps all but its address list, which is sorted |
| Sorting.SortInterfaces | src/main.c:303-337 | the address lists are sorted, then the interfaces by name |
| Sorting.ConnectionSortResult | src/main.c:339-372 | the sorted connections are a permutation with no adjacent pair out of order |
| Sorting.DescendingByKey | src/main.c:410-469 | descending by a numeric column with no zero key, the keys never increase along the list |
| Sorting.InterfaceSortResult | src/main.c:303-337 | the same interfaces, each with a permutation of its addresses, adjacent-ordered |
| Cycle.Admit | src/main.c:1026-1109 | the gated part of an iteration keeps the DNS ring well formed (what it appends is AdmitShape) |
| Cycle.Step | src/main.c:960-1110 | one iteration keeps the DNS ring well formed (its effects are StepShape, StepKeepsFlow, StepLayout) |
| Cycle.Run | src/main.c:960-1112 | the loop keeps the ring well formed and the current list's length |
| Cycle.CycleSpec | src/main.c:959-1135 | a whole cycle keeps the DNS ring well formed (what it shows is CycleShows) |
| Cycle.AdmitKeepsFlow | src/main.c:1026-1102 | behind the gate a connection changes only its interface copies and hostnames |
| Cycle.AdmitShape | src/main.c:1080-1109 | the display list is unchanged, or gains the updated connection while the position and totals grow; it gains it exactly when the connection passes the filter |
| Cycle.StepShape | src/main.c:960-1110 | one step appends the updated connection exactly when array_pos is below the cap and the connection passes gate and filter, and otherwise leaves the display list and totals alone |
| Cycle.StepKeepsFlow | src/main.c:960-1110 | one step changes only rates, interface copies and hostnames |
| Cycle.StepLayout | src/main.c:960-1110 | one step changes only the rates of the interface list |
| Cycle.NewFlowHidden | src/main.c:966-1026 | a flow absent from history has no rate and, with a threshold of at least 1, is neither shown nor credited |
| Cycle.CappedRest | src/main.c:961-963 | once 1024 connections match, the rest of the list is untouched |
| Cycle.RunDisplay | src/main.c:960-1112 | the loop keeps the display list's shape and only appends |
| Cycle.Matches | src/main.c:1014-1109 | the connections of a list that pass gate and filter, in order: an element is kept exactly when it passes both |
| Cycle.RunShowsAll | src/main.c:960-1112 | the loop appends exactly the updated connections that pass gate and filter, in list order, the first up to the cap |
| Cycle.RunLayout | src/main.c:960-1112 | the loop changes only rates of the interface list |
| Cycle.RunKeepsFlows | src/main.c:960-1112 | every connection keeps its id, counters and addresses |
| Cycle.RunTotals | src/main.c:1104-1109 | NFTOP_TX_ALL/RX_ALL are the uint64 sums of the displayed rates |
| Cycle.FirstCycleIdle | src/main.c:959 | with no history nothing is shown and the list and totals are unchanged |
| Cycle.UnsortedValid | src/main.c:959-1112 | the display list before sorting has its shape invariant |
| Cycle.CycleShows | src/main.c:959-1135 | the shown list holds the zeroed head, at most 1024 connections, and only connections that passed gate and filter |
| Cycle.CycleShowsAll | src/main.c:959-1135 | with a previous list, the display list is a permutation of the zeroed head followed by the first 1024 updated connections that pass gate and filter, and exactly that list when no sort applies |
| Cycle.CycleLayout | src/main.c:959-1135 | outside device-only mode a cycle changes only the rates of the interface list and keeps the current list's length |
| Cycle.Engine.ResolveInterfaces | src/main.c:1029-1078 | the list and connection after in-place resolution equal ResolveSpec |
| Cycle.Engine.AdmitOne | src/main.c:1026-1109 | the state after the gated part equals Admit |
| Cycle.Engine.Show | src/main.c:1103-1108 | a shown connection is appended, array_pos advances and its rates are added to the totals modulo 2^64 |
| Cycle.Engine.Process | src/main.c:964-1110 | the state after one loop body equals Step |
| Cycle.Engine.ProcessAt | src/main.c:960-1111 | processing the i-th array entry in place extends the Run of the first i entries by one Step and leaves the later entries untouched |
| Cycle.Engine.Loop | src/main.c:960-1112 | the array loop leaves state and current list equal to Run |
| Cycle.Engine.RunCycle | src/main.c:959-1135 | the state and current list after the in-place cycle equal CycleSpec of the old ones |
| Cycle.Engine.EndCycle | src/main.c:1163-1169 | the current list becomes the history and the totals are reset |
| Options.SortNamesRoundTrip | src/main.c:817-837 | every column name selects its own field, and only those names select one |
| Options.ParseSort | src/main.c:810-841 | -s sets only the field and the direction, and a success always selects a column |
| Options.ParseSortAccepts | src/main.c:810-841 | -s succeeds exactly when the argument is a column name or '+' and a column name |
| Options.SortArgNamed | src/main.c:810-836 | after stripping one leading '+' the strcmp chain recognises the argument exactly when it is a column name or '+' and a column name |
| Options.ParseSortNames | src/main.c:811-836 | a name keeps the direction; '+name' sets ascending |
| Options.ParseSortRefuses | src/main.c:837-840 | "", "+" and "++id" are refused |
| Options.FilterArg | src/main.c:780-809 | a trailing '+' on an argument longer than one character marks prefix matching and is dropped |
| Options.ApplyIn | src/main.c:780-790 | -i changes only the in-filter name and its prefix flag |
| Options.ApplyOut | src/main.c:800-809 | -o changes only the out-filter name and its prefix flag |
| Options.FilterSuffix | src/main.c:783-807 | "eth+" gives a prefix filter "eth" |
| Options.FilterExact | src/main.c:783-807 | a name without the suffix is exact unless an earlier option turned fuzzy on |
| Options.FilterLonePlus | src/main.c:783-789 | a lone "+" is taken as the name "+" |
| Options.PrintedLength | src/main.c:483 | the length snprintf("%ld") gives is at least 1 |
| Options.Feed | src/main.c:486-498 | after any keystroke the buffer holds only digits |
| Options.Finish | src/main.c:504-513 | the value is returned only strictly between min and max, else -127 |
| Options.PromptSpec | src/main.c:485-513 | the prompt's answer is -127 or strictly between min and max |
| Options.GetUserInteger | src/main.c:473-514 | the read loop returns PromptSpec of the input |
| Options.TypeDigits | src/main.c:486-492 | digits typed while the counter is below the width are appended exactly |
| Options.TypedNumber | src/main.c:485-511 | digits that fit the width followed by Enter give the range check of exactly those digits |
| Options.Width999 | src/main.c:483 | max 999 allows three digits |
| Options.ExtraDigitsDropped | src/main.c:487-492 | "12345" with max 999 reads as 123 |
| Options.EscapeCancels | src/main.c:499-501 | Escape or 'q' returns -127 whatever was typed |
| Options.LargeThresholdWraps | src/main.c:504 | a threshold typed as 5000000000 comes back as 705032704 |
| Options.BackspaceAdmitsExtraDigit | src/main.c:493-498 | a backspace on an empty prompt lets four digits in under max 999 |
| Keys.FlagKey | src/main.c:561-639 | each flag's key maps back to that flag |
| Keys.WaitChar | src/main.c:516-656 | the polling loop returns WaitFrom of the ticks |
| Keys.FlipTwice | src/main.c:561-639 | flipping a flag twice restores the state |
| Keys.FlipChanges | src/main.c:561-639 | flipping a flag always changes the state |
| Keys.FlipKeeps | src/main.c:561-639 | a toggle leaves pause, exit, families, interval and threshold alone |
| Keys.ActionKeys | src/main.c:534-645 | each non-toggle action belongs to exactly one key |
| Keys.ToggleInvolution | src/main.c:561-639 | each toggle key flips its flag, returns 0, and undoes itself |
| Keys.AgeKeyCycles | src/main.c:595-597 | 'a' switches between no age column and the d/h/m/s one |
| Keys.AgeOnce | src/main.c:595-597 | one 'a' changes only the age column |
| Keys.FamilyAlwaysEnabled | src/main.c:628-639 | '0', '4' and '6' each leave a family on, and no other key touches the families |
| Keys.KeyCodes | src/main.c:534-645 | the code is 0 or 2; 2 only for 'p' while running; only 'h' while running keeps waiting; only p, h, u, t touch the pause flag |
| Keys.PromptKeys | src/main.c:570-587 | 'u' and 't' take the prompt value only when it is not negative |
| Keys.WaitCodes | src/main.c:522-656 | wait_char returns 0 or 2, and 0 whenever it started paused |
| Keys.WaitTimeout | src/main.c:522-655 | unpaused with no key, the wait returns 0 after t*20 ticks with the flags untouched |
| Keys.PausedWaitsForKey | src/main.c:647-652 | paused with no key, the wait never returns |
| Keys.QuitKey | src/main.c:535-537 | 'q' sets the exit flag and returns 0 at once |
| Keys.SettleUnpauses | src/main.c:1138-1161 | whenever the main loop reaches the next cycle, the pause flag is clear |
| Keys.AfterDraw | src/main.c:1138-1161 | the flags after the waits equal Settle, and the method finishes exactly when Settle does |
| Display.Even | src/display.c:162-164 | the width forced even loses at most one column |
| Display.Deduction | src/display.c:166-179 | the fixed columns take between 64 and 142 |
| Display.HostnameWidth | src/display.c:158-238 | the width is a size_t value (its floor and wrap-around are WidthFloor, NarrowTerminalWraps, WideAgeWraps) |
| Display.ColumnSpace | src/display.c:162-178 | the step-by-step size_t subtractions give the total space modulo 2^64 |
| Display.WidthFloor | src/display.c:166-181 | with room for the fixed columns, the column is that room and at least 10 |
| Display.WidthMonotone | src/display.c:162-181 | without wrapping, a wider terminal never gives a narrower column |
| Display.NarrowTerminalWraps | src/display.c:166-181 | a 40-column terminal gives a width of 2^64-24, not 10 |
| Display.WideAgeWraps | src/display.c:180-238 | wide mode with the age column wraps on a 118-column terminal, to a width at which addr2host writes past the hostname fields |
| Display.NarrowTerminalOverrunsField | src/display.c:166-238 | on every terminal narrower than the fixed columns, in every mode, the width wraps past 2^63-79, and addr2host's writes leave the 1025-byte hostname fields |
| Display.WideTerminalOverrunsField | src/display.c:166-181 | without any wrap, a 1200-column terminal gives a width of 1136, already beyond the hostname fields |
| Display.StatusPrecedence | src/display.c:365-400 | listed TCP states win (SYN_SENT2 shown as SYN_SENT); otherwise UNREPLIED, UNTRACKED, ASSURED, CONFIRMED in that order, both directions |
| Display.Present | src/display.c:411-431 | redacted sides read "REDACTED"; without redaction all four names fit the width; ports unchanged |
| Display.TruncateKeepsPrefix | src/display.c:422-430 | a name is cut only when longer than the width, to its prefix; cutting twice is cutting once |
| Display.PresentIdempotent | src/display.c:411-431 | presenting twice (the redraw after a pause) is presenting once |
| Display.RedactionSkipsTruncation | src/display.c:411-421 | redacting one side leaves the other side's names uncut |
| Display.Shown | src/display.c:365-431 | displayCTInfo sets only the status text and the local names |
| Display.AgeSplitSound | src/display.c:480-483 | days, hours, minutes and seconds add back up to the (32-bit) age, and lie in their ranges for a non-negative age |
| Display.LongAgeWraps | src/display.c:343-344 | an age of 2^31 seconds shows negative days |
| Display.ShownRows | src/main.c:1124-1131 | no more rows than entries |
| Display.ShownRowsContents | src/main.c:1124-1131 | every row comes from an entry with a non-zero id reaching the threshold, and every such entry has its row |
| Display.ShownRowsStep | src/main.c:1124-1131 | the rows of a longer list extend those of its prefix |
| Display.Screen.Header | src/display.c:158-238 | the header resets the row counter and sets the width to HostnameWidth |
| Display.Screen.Row | src/display.c:354-367 | past the budget nothing is drawn or counted; otherwise the counter grows by 1 (wide) or 2, and a row is drawn when the rate reaches the threshold |
| Display.Screen.Visit | src/main.c:1124-1131 | entries with id 0 are passed over; a drawn row takes its height |
| Display.Screen.Rows | src/main.c:1124-1131 | redirected, every row is drawn; on a terminal the rows are a prefix of ShownRows, their lines are counted, and the counter stays within the screen |
| Display.ShownDevices | src/display.c:527-530 | a device is listed exactly when it is not loopback or loopback is shown |
| Display.AllDevicesShown | src/display.c:527-530 | with loopback shown, every device is listed |

## Left out

- Conntrack acquisition is not modelled: the netlink/libnetfilter_conntrack query and the attribute reads. A dump is a sequence of `RawFlow` records.
- `getifaddrs`, `inet_pton`, `inet_ntop` and `getnameinfo` are not modelled. Their results are inputs: records, address texts, and the `pton`/`resolve` functions. The IPv4 lookup inside DnsCache.SourceResolver is an input too.
- Terminal I/O is not modelled: escape sequences, ncurses, termios, `fcntl`, `getwinsize`, `usleep`, and the text of every `printf`/`displayWrite`. The keyboard is a sequence of polls and the terminal size an argument.
- A 0xFF byte from `getchar` cannot be told from "no key" in `wait_char`, because both compare equal to -1. The model's polls have no such byte.
- `formatUOM` is not modelled (unit scaling with floating point), nor the help screen `interactiveHelp`.
- The ncurses build is not modelled. There, 'p' keeps waiting instead of returning 2.
- Signal handling, `main`'s command-line switches other than `-s`, `-i` and `-o`, and every `free` are left out.
- The `-a`, `-t` and `-u` argument checks are left out. `-a` exits on a leading letter or a value above 2, and `-u` on a leading letter or a value below 1; both otherwise store `atoi`'s value. `-t` exits only on a leading letter and stores `atoll`'s 64-bit value. A threshold given on the command line therefore does not wrap at 32 bits, unlike the prompt's (Options.LargeThresholdWraps).
- Sorting.SortInPlace: qsort's algorithm is not specified, so the model sorts by insertion. The permutation property carries over to any sort, and so does the full order of Sorting.DescendingByKey, where no key is 0 and the comparator is a total order. The adjacent-order property in general is one of the insertion sort: the connection comparator is not transitive (Sorting.ZeroKeyNotTransitive), and qsort's result under such a comparator is unspecified.
- Sorting.SortInterfaces requires a non-empty interface list in which every interface has an address. An empty address list makes the C code read index 0 of an empty array. An empty interface list, for example `-d` in a network namespace without interfaces, makes it read `interfaceArray[0]` and `interfaceArray[-1]` of a zero-sized allocation.
- Cycle.Engine.RunCycle: the interface list is a value rebuilt each cycle. C's pointer aliasing between `devices_list` and the copies in connections is not modelled: the copies are snapshots, as the `memcpy` makes them.
- Options.GetUserInteger: the 1024-byte buffer `val` is unbounded in the model. A counter driven far below zero by backspaces, then followed by over 1024 digits, would overflow the C buffer.
- Ingest.Collector.DataCb: `NFTOP_CT_COUNT` is an unbounded integer, not a wrapping `int`.
- Display.Screen.Row: `NFTOP_CT_ITER` is an unbounded integer. When output is redirected, the header never resets it.
- Display.Screen.Rows states that the drawn rows are a prefix of ShownRows. It does not say how long the prefix is.
- The device view's lines per device (the address sub-lines and their "REDACTED" text) are drawing. Only the loopback filter is modelled.
- Resolve.CreditIngress: the interface and address rates are `int64_t`, and the model adds into them as unbounded integers. A sum past 2^63 is signed overflow in C, which is undefined; the model does not say what happens then.
- Resolve.CreditEgress: the same unbounded additions as CreditIngress, for the egress interface, its addresses and the assigned `bps_sum`.
- Resolve.CreditAddresses: the address rates are added as unbounded integers, not as `int64_t`.
- DnsCache.ResolveSide: the copy into the connection's hostname field is modelled as the name cut at NFTOP_MAX_HOSTNAME-1 characters. In C the field is `char[NI_MAXHOST]` (1025 bytes). `strncpy` writes exactly NFTOP_MAX_HOSTNAME-1 bytes, padded with NULs, and a cache hit also stores a NUL at index NFTOP_MAX_HOSTNAME. Whenever `DnsCache.WritesInField` fails, a write goes past the field. That is undefined behaviour, and the model does not follow it. It happens for a width of 0 or of 1025 and above: the hit store overruns from 1025 on, and the copy from 1027 on. It includes every wrapped width (Display.NarrowTerminalOverrunsField, Display.WideAgeWraps) and, in the default layout, terminals of 1090 columns or more (Display.WideTerminalOverrunsField).
- DnsCache.AddrToHostSpec: "only the two local hostnames change" holds in C only while `DnsCache.WritesInField(NFTOP_MAX_HOSTNAME)`. Beyond it, the writes of DnsCache.ResolveSide spill into the neighbouring fields and past them.
- DnsCache.ResolveSidePolicy: the hostname it states for a hit or a successful lookup is C's result only while `DnsCache.WritesInField(NFTOP_MAX_HOSTNAME)`. For other widths C's behaviour is undefined.
- DnsCache.Cache.ResolveOne and DnsCache.Cache.AddrToHost inherit the same gap from ResolveSide and AddrToHostSpec.
- Cycle.Env: `resolve` is any resolver. As addr2host builds it (DnsCache.SourceResolver), only IPv4 addresses can get a name. Every IPv6 lookup fails, because the address is parsed as IPv4 and the `sockaddr_in` length is passed. So an IPv6 address is cached as itself and never named (DnsCache.IPv6NeverNamed). The model's other results hold for this resolver as for any other.
- DnsCache.CachedName: a slot the ring has not written yet is `None` and never matches. In C, after each insertion `add_dns_cache` links a freshly allocated node whose text stays unwritten until the next insertion, and the lookup walk reads whatever that allocation holds.
- NFTOP_TX_ALL/RX_ALL are unbounded sums of int64 rates reduced modulo 2^64 at each addition. The C code adds signed rates into `uint64_t`, which this matches.
