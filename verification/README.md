# Verified models of Carbide's allocator, Weave reconciler, telemetry counters and VF layout

This project models four parts of Carbide in Dafny and proves what they guarantee.

* **The IPAM allocator** (`rest-api/ipam`). Prefixes, child prefixes and addresses are handed
  out by clients that read a record, compute, and write it back with a compare-and-swap on
  `version`. It is modelled twice: as a step relation over any number of interleaved clients
  (`Clients`), and as an object over the in-memory store (`Ipamer`, `Storage`).
* **The Weave reconciler** (`crates/agent/src/astra_weave.rs`). It drives a remote server to
  an Astra config by a revision-based fast path or by three ordered phases. Any call to the
  server may fail.
* **The telemetry counters** (`bluefield/otel/telemetrystatsprocessor`). Accepted datapoints
  are counted under text keys that a scrape decodes again. Processors running side by side
  count the datapoints they generate themselves and elect the one that reports those counts.
* **The VF layout** of an instance request (`crates/admin-cli/src/rpc.rs`).

## Modules

| module | what it holds |
|---|---|
| `Cidr`, `FreeSet` | CIDR blocks as leading bits, their addresses, and the free blocks left by claims |
| `Prefixes` | one prefix record, what each operation computes from a snapshot, capacity |
| `Clients`, `Atomicity`, `Attempts` | interleaved clients: serializability, a client left alone, retries of lost writes |
| `Addresses`, `Exclusion` | interleaved clients: outstanding addresses, addresses against children |
| `Children`, `Runs`, `Orphans`, `Rebirths`, `Leaks` | interleaved clients: stored children and the space claimed for them, runs that lose a claim or leak one |
| `Forest`, `Answers` | requests one at a time: the prefix forest, when each request is granted and what undoes it |
| `Storage`, `Ipamer`, `Usage` | the store, the object, counts and usage |
| `WeaveModel`, `WeaveServer`, `WeaveSync` | messages and pure parts, the server, the status sync of the fast path |
| `WeaveNetworks`, `WeaveAttachments`, `WeaveUpdate` | the three phases of a full update |
| `WeaveReconcile`, `WeaveGuarantees` | the full update and what it guarantees |
| `WeaveFastPath`, `WeaveStale` | the choice of path, runs of reconciles, networks that are never deleted again |
| `MetricKeys`, `Renaming` | keys and their decoding, labels moved aside for configured ones |
| `MetricCounts`, `BatchOrder` | counting and scraping, each datapoint counted once |
| `SelfReport`, `Reporters` | the self-report of one processor, and of processors side by side |
| `Interfaces` | physical and virtual interfaces of a request |
| `Text`, `Wrappers` | a fact about texts, options and results |

## Results worth knowing

* A compare-and-swap on a record that is not deleted is atomic, so every interleaving acts as
  if its successful operations ran in commit order (`Atomicity.RunIsSerial`). A request whose
  client is not interrupted does what it does when run at once (`Attempts.AloneIsAtOnce`), and
  one is given up exactly at the tenth lost write (`Attempts.LostWriteIsTriedAgain`).
* The block taken is determined: the lowest of the smallest hole that fits
  (`FreeSet.TakeFreeIsLowest`, `FreeSet.LowestFitIsUnique`).
* When each request is granted is characterized exactly, and what it changes (`Answers`). In a
  forest every child without addresses can be released, and releasing undoes acquiring
  (`Answers.ChildCanBeReleased`, `Answers.AcquireThenRelease`). But a prefix that has granted a
  child stays a parent: it hands out no address again, even with all children released
  (`Exclusion.ParentIffChildGranted`).
* While no record is removed with something stored or about to be stored inside it, whatever
  lies inside a prefix, at any depth, lies in a claim of the prefix
  (`Children.SpaceStaysClaimed`). The code does not keep to that: releasing a child that has
  children, acquiring its space and releasing once more leaves a stored child that is not
  claimed (`Orphans.OrphanEndsUnclaimed`). The moment it goes wrong is characterized exactly
  (`Children.GivingUpIsSafeIff`).
* In such runs stored children are claimed themselves, all along, exactly when no write passes
  that puts back an old parent which does not claim the record any more
  (`Children.ChildrenStayClaimedIff`). Runs on one parent have no such write
  (`Rebirths.OneParentKeepsChildren`). In general the version comparison lets it through,
  because a record that is created again starts at version 0 (`Rebirths.OldParentComesBack`).
* The converse fails in its own right. In such runs a claim is left without a record, and for
  good, exactly when a write to the parent overtakes a release that has removed the child, or
  the child's record is removed with no release that will win (`Leaks.LeaksIff`,
  `Leaks.LeakedIff`, `Leaks.LeakIsPermanent`). Two clients are enough for the first
  (`Leaks.LeakIsReachable`), one `DeletePrefix` for the second (`Leaks.DeletingLeaks`).
* A prefix with claimed children has no outstanding address as long as nobody releases a
  reserved address, which the code allows (`Exclusion.AddressesExcludeChildren`); after such a
  release a child is granted around an outstanding address
  (`Exclusion.ReservedReleaseBreaksExclusion`).
* Releasing a prefix keeps the forest exactly when it has no live children and the caller's
  handle names its parent; deleting one, exactly when it is a root without live children. The
  code asks neither (`Forest.ReleaseKeepsForestIff`, `Forest.DeleteKeepsForestIff`,
  `Forest.OldHandleIsReachable`).
* The count of free smallest prefixes is kept in 64 bits. It is right for IPv4 and for IPv6
  from /63 on. In general that depends on the lengths of the free pieces, and an untouched /62
  or shorter reports none (`Usage.LongPrefixCountIsRight`, `Usage.ReportedCountIsRightIff`,
  `Usage.WideIPv6ReportsNothing`).
* A reconcile is safe whatever calls fail. When all calls succeed it converges, unless it takes
  the fast path while the networks are not the config's (`WeaveFastPath.Reconcile`). The fast
  path agrees with the full update on attachments and statuses, but it never looks at networks
  (`WeaveFastPath.FastRefinesFull`). So one failed delete of a stale network is not made up for
  while the config stays the same: later reconciles succeed and leave the network there
  (`WeaveStale.FailedDeleteIsForgotten`, `WeaveStale.StaleNetworksStay`).
* New attachments are to the function their entry asks for. But an attachment that is there is
  kept if NIC and network match, so one to another function is not corrected: after an update
  the functions are right exactly if they were before (`WeaveGuarantees.FunctionsRightIff`).
* Of two reports of the self-counts, the later one shows no less exactly when it was counted
  later (`Reporters.ReportsAscendIff`). So reports along the pipeline never decrease, however
  the election goes (`Reporters.ReportsNeverDecrease`), and a later report can show less exactly
  when one of the two answers an HTTP request, which takes no part in the election
  (`Reporters.CanShowLessIff`).
* A counted key decodes to its labels exactly when no text in it has a colon
  (`MetricKeys.RoundTripIff`).
* Scraped labels are moved aside for configured ones. That makes way for all configured labels,
  whatever is scraped, exactly when no label that can be decoded is moved to the name of an
  earlier configured label that does not come again (`Renaming.RenamingClearsIff`). It keeps
  the datapoints of a grouping apart exactly when no two of its label names end up under one
  name (`Renaming.RenamingKeepsApartIff`).
* A self-reported count loses its metric's name when a configured label is called `name`
  (`SelfReport.ReportNamesMetricIff`).
* The addresses given for VFs are read from the start of the list for every PF, so with
  several PFs and VFs they repeat, although the option is described as one address for each
  VF interface (`Interfaces.OwnAddressesIff`).

## Model

| member | source | states |
|---|---|---|
| `Cidr.OverlapsIffSharedAddress` | rest-api/ipam/prefix.go:479-481 | blocks overlap by their leading bits exactly when they share an address |
| `Cidr.WithinIffAddresses` | rest-api/ipam/prefix.go:253-256 | a block contains another by its bits exactly when it contains its addresses |
| `FreeSet.PiecesAreMaximal` | rest-api/ipam/prefix.go:213-229 | the free set lists exactly the maximal sub-blocks no claim touches |
| `FreeSet.FreeIffInPiece` | rest-api/ipam/prefix.go:213-229 | a sub-block is free exactly when it lies in a listed piece |
| `FreeSet.PiecesAscend` | rest-api/ipam/prefix.go:642-653 | pieces come in address order and share no address |
| `FreeSet.FreeAddresses` | rest-api/ipam/prefix.go:213-229 | an address is in a piece exactly when no claim holds it |
| `FreeSet.BestFit` | rest-api/ipam/prefix.go:232-235 | the hole chosen is the first among the longest prefixes that still fit |
| `FreeSet.TakeFreeFindsOne` | rest-api/ipam/prefix.go:232-251 | a free block of a length is found exactly when one exists, and it is free |
| `FreeSet.TakeFreeLeavesLargerHoles` | rest-api/ipam/prefix.go:232-235 | a block is never cut from a larger hole when a smaller one fits |
| `FreeSet.TakeFreeIsLowest` | rest-api/ipam/prefix.go:232-251 | the block taken is the lowest of its hole, and the hole is the smallest that fits, the lowest among the smallest |
| `FreeSet.LowestFitIsUnique` | rest-api/ipam/prefix.go:232-251 | that leaves only one block to take |
| `FreeSet.AddressesConserved` | rest-api/ipam/prefix.go:617-659 | claimed and free addresses add up to the prefix |
| `FreeSet.FreeSlotsCounted` | rest-api/ipam/prefix.go:645-653 | summing powers of two over the pieces counts the wholly free blocks of a length |
| `Prefixes.LowestFree` | rest-api/ipam/prefix.go:407-429 | the address walk finds the lowest free address, and none only if none is free |
| `Prefixes.FreshIsSound` | rest-api/ipam/prefix.go:488-519 | a new record satisfies the record invariant |
| `Prefixes.ClaimIsFree` | rest-api/ipam/prefix.go:206-267 | a granted child is strictly inside, touches no claim, has the asked length or CIDR, and is the only new claim |
| `Prefixes.ClaimGrantedIff` | rest-api/ipam/prefix.go:206-258 | a child is granted exactly when the parent has no addresses and a fitting free block exists |
| `Prefixes.ClaimIsLowest` | rest-api/ipam/prefix.go:206-267 | a child of a given length is the lowest block of the smallest hole it fits in |
| `Prefixes.ClaimRefusedIff` | rest-api/ipam/prefix.go:188-258 | when each refusal is given, in the order of the checks |
| `Prefixes.AddressGrantedIff` | rest-api/ipam/prefix.go:379-430 | an address is granted exactly when the prefix is no parent and the address asked for, or any, is free; when each refusal is given |
| `Prefixes.AddressReleasedIff` | rest-api/ipam/prefix.go:449-464 | an address is released exactly when it is an entry of the family, and only it goes |
| `Prefixes.AddressRoundTrip` | rest-api/ipam/prefix.go:379-464 | releasing undoes acquiring, and acquiring an address of the prefix undoes releasing it |
| `Prefixes.ComputeKeepsSound` | rest-api/ipam/prefix.go:188-464 | every operation keeps claims disjoint and inside, and parents without addresses |
| `Prefixes.DrainSoFar` | rest-api/ipam/prefix.go:407-427 | a fresh prefix hands out consecutive addresses after the network address |
| `Prefixes.CapacityIsExact` | rest-api/ipam/prefix.go:407-429 | exactly the capacity is handed out, in increasing order, and then no address is available |
| `Prefixes.CapacityByLength` | rest-api/ipam/prefix.go:510-516 | that is 2^(32-b)-2 for IPv4 up to /31, 0 for /32, and 2^(128-b)-1 for IPv6 |
| `Clients.Begin` | rest-api/ipam/prefix.go:188-211 | the read of a request leaves the client with a sound snapshot it can write, or idle |
| `Clients.Do` | rest-api/ipam/prefix.go:687-697 | every event keeps records and snapshots sound, and attempts between 1 and 10 |
| `Clients.RecordsStaySound` | rest-api/ipam/prefix.go:266-269 | in every run, claims are disjoint and inside, and a parent has no more entries than are counted as reserved |
| `Atomicity.FrameKeepsSerial` | rest-api/ipam/memory.go:43-52 | reads and writes elsewhere leave the record explained by its commits |
| `Atomicity.CommitKeepsSerial` | rest-api/ipam/memory.go:96-121 | a passing write is the next operation of the serial run |
| `Atomicity.RunIsSerial` | rest-api/ipam/memory.go:96-121 | an undeleted record and all outcomes are those of running the commits one after the other |
| `Atomicity.ReplayCountsVersions` | rest-api/ipam/memory.go:100-101 | the version counts the commits and the record stays sound |
| `Atomicity.PassingWriteIsAtomic` | rest-api/ipam/memory.go:111-119 | a write that passes the version comparison computes from the current record; any other changes nothing |
| `Attempts.AloneIsAtOnce` | rest-api/ipam/prefix.go:130-464 | from every state, a request whose client is not interrupted leaves the store that the request leaves when run at once |
| `Attempts.AttemptsCountLosses` | rest-api/ipam/prefix.go:687-697 | in every run, a client at work serves the request it took last, in the attempt after its last lost write |
| `Attempts.LostWriteIsTriedAgain` | rest-api/ipam/prefix.go:687-697 | in every run, a lost write changes nothing and starts the same request over, except the tenth one, which gives it up |
| `Addresses.TakenIpWasFree` | rest-api/ipam/prefix.go:397-427 | an acquired address was free, is in the prefix, and is the one asked for or the lowest free one |
| `Addresses.OutstandingAddressesAreUnique` | rest-api/ipam/prefix.go:379-464 | in every run where holders release their own, outstanding addresses are distinct, in the prefix, and never reserved ones |
| `Exclusion.AddressesExcludeChildren` | rest-api/ipam/prefix.go:209-211 | in every run, while no reserved entry has been released, a prefix has no outstanding address or no claimed child |
| `Exclusion.OutstandingBesideChildren` | rest-api/ipam/prefix.go:584-596 | in every run, a prefix with claimed children has at most as many outstanding addresses as reserved entries were released |
| `Exclusion.GrantedBesideAddressesIff` | rest-api/ipam/prefix.go:206-258 | a child is granted exactly when outstanding and unreleased reserved addresses are few enough and a fitting block is free |
| `Exclusion.ParentIffChildGranted` | rest-api/ipam/prefix.go:384-386 | in every run, an undeleted prefix refuses addresses as a parent exactly when it was one or has granted a child since, also after all children are released |
| `Exclusion.ReservedReleaseBreaksExclusion` | rest-api/ipam/prefix.go:454-458 | for every block, address and child around it: three granted requests leave the address outstanding inside the claimed child |
| `Children.CommittedClaims` | rest-api/ipam/prefix.go:266-267 | what each committed operation does to the claims |
| `Children.OrderlyThroughout` | rest-api/ipam/prefix.go:188-312 | the invariant on stored, created and released records, at any depth, holds in every careful run |
| `Children.SpaceStaysClaimed` | rest-api/ipam/prefix.go:188-312 | in every careful run, also one stopped half way, claims are disjoint and inside, and every record inside or about to be created lies in a claim |
| `Children.StepKeepsChildrenIff` | rest-api/ipam/memory.go:111-119 | an event keeps stored children claimed exactly unless it is a passing write that puts back a parent which does not claim the record |
| `Children.ChildrenStayClaimedIff` | rest-api/ipam/prefix.go:188-312 | in every careful run, stored children are claimed after every event exactly when no such write passes |
| `Children.StoredChildrenStayClaimed` | rest-api/ipam/prefix.go:188-312 | then every stored child is claimed by its parent and lies inside it |
| `Rebirths.OneParentKeepsChildren` | rest-api/ipam/prefix.go:188-312 | careful runs that acquire from one prefix and release under it keep its stored children claimed |
| `Rebirths.OldParentComesBack` | rest-api/ipam/memory.go:115-119 | from any new child with nothing in it and a block around it that could be granted but for it, a careful run leaves the child stored as a child of a prefix that does not claim it |
| `Rebirths.NewChildIsReachable` | rest-api/ipam/prefix.go:130-283 | a new prefix and one acquired child are such a start, and a forest, for any three nested blocks |
| `Children.GivingUpIsSafeIff` | rest-api/ipam/prefix.go:302-311 | giving a claim up keeps everything inside claimed exactly when nothing in it is stored or about to be |
| `Orphans.ForestsStartOrderly` | rest-api/ipam/prefix.go:342-371 | a forest of any depth is a start these results apply to |
| `Orphans.OrphanEndsUnclaimed` | rest-api/ipam/prefix.go:291-312 | from three levels, acquiring from the prefix and releasing under it can leave a stored child unclaimed |
| `Leaks.LeaksIff` | rest-api/ipam/prefix.go:302-311 | an event leaves a claim without record, creator or winning release exactly when it overtakes a release that removed the child, or removes the child while no release of it will win |
| `Leaks.LeakedIff` | rest-api/ipam/prefix.go:291-312 | a claim is leaked after a run exactly when some event of the run leaked it |
| `Leaks.ClaimsAreAccounted` | rest-api/ipam/prefix.go:188-312 | where none did, every claim is stored, about to be created or about to be given up |
| `Leaks.LeakIsReachable` | rest-api/ipam/prefix.go:291-312 | wherever a child could be released and another granted, some run of two clients leaks the first one |
| `Leaks.DeletingLeaks` | rest-api/ipam/prefix.go:153-167 | deleting a claimed child that has no addresses leaks its claim |
| `Leaks.LeakIsPermanent` | rest-api/ipam/prefix.go:291-312 | in careful runs on an undeleted prefix such a block stays claimed and never gets a record again |
| `Forest.ContainmentIsAncestry` | rest-api/ipam/prefix.go:141-144 | a stored prefix inside another has it as an ancestor |
| `Forest.OverlapIffAncestry` | rest-api/ipam/prefix.go:468-485 | stored prefixes overlap exactly when one is an ancestor of the other |
| `Forest.SwapKeepsForest` | rest-api/ipam/prefix.go:188-283 | acquiring keeps the forest, and a granted child is never already stored |
| `Forest.ReleaseKeepsForestIff` | rest-api/ipam/prefix.go:292-312 | a granted release keeps the forest exactly when the child has no live children and the handle names its parent, or it has none |
| `Forest.OldHandleBreaksForest` | rest-api/ipam/prefix.go:293-307 | a childless grandchild released through a handle naming its grandparent leaves its parent claiming an absent child |
| `Forest.OldHandleIsReachable` | rest-api/ipam/prefix.go:293-307 | three requests reach such a store, for any three nested blocks |
| `Forest.DeleteKeepsForestIff` | rest-api/ipam/prefix.go:153-167 | a granted deletion keeps the forest exactly when it takes a root without live children |
| `Forest.NewPrefixKeepsForest` | rest-api/ipam/prefix.go:130-151 | a new prefix is accepted only apart from all stored ones, so the forest stays |
| `Forest.RunsLeaveForests` | rest-api/ipam/prefix.go:130-312 | every disciplined run leaves a forest whose claims are exactly the stored children |
| `Answers.NewPrefixGrantedIff` | rest-api/ipam/prefix.go:130-151 | a prefix is made exactly when it shares no address with a stored one; only it is added, with the two reserved entries |
| `Answers.DeletePrefixGrantedIff` | rest-api/ipam/prefix.go:153-167 | a prefix is deleted exactly when it is stored without addresses, and only it goes |
| `Answers.ReleaseGrantedIff` | rest-api/ipam/prefix.go:292-312 | a release is granted exactly when the handle names a stored parent and few entries, and the child is stored without addresses; then record and claim go and nothing else |
| `Answers.ReleaseRefused` | rest-api/ipam/prefix.go:292-312 | which error any other release gets, and what it leaves |
| `Answers.ChildCanBeReleased` | rest-api/ipam/prefix.go:292-312 | in a forest, every child without addresses can be released by its own handle |
| `Answers.ChildGrantedIff` | rest-api/ipam/prefix.go:188-283 | a child is claimed exactly when the parent is stored without addresses and a suiting block is free; then only parent and child change |
| `Answers.ChildInForestGrantedIff` | rest-api/ipam/prefix.go:188-283 | in a forest the request is answered with a child exactly then |
| `Answers.ChildIsLowest` | rest-api/ipam/prefix.go:232-251 | the child granted is the lowest block of the smallest hole it fits in |
| `Answers.FirstChildIsLowest` | rest-api/ipam/prefix.go:232-251 | a first child starts where its parent does |
| `Answers.AddressIsGranted` | rest-api/ipam/prefix.go:379-430 | an address is granted exactly when the prefix is stored, is no parent and has it free; it is the one asked for or the lowest free one, and the only new entry |
| `Answers.AddressIsReleased` | rest-api/ipam/prefix.go:449-464 | an address is released exactly when it is an entry, and only it goes |
| `Answers.AcquireThenRelease` | rest-api/ipam/prefix.go:188-312 | in a forest, releasing a child that was just acquired is granted and gives prefixes, parents, claims and entries back |
| `Answers.NewThenDelete` | rest-api/ipam/prefix.go:130-167 | deleting a prefix that was just made is granted and gives the store back |
| `Answers.AcquireThenReleaseIp` | rest-api/ipam/prefix.go:379-464 | releasing an address that was just acquired is granted and gives prefixes, parents, claims and entries back |
| `Storage.KeyNamesNamespace` | rest-api/ipam/memory.go:83-95 | the suffix test picks exactly the keys of a namespace, and trimming gives the CIDR back |
| `Storage.KeyIsInjective` | rest-api/ipam/memory.go:35-46 | different records have different keys |
| `Storage.Memory.CreatePrefix` | rest-api/ipam/memory.go:32-42 | adds a record unless it is there; other namespaces are untouched |
| `Storage.Memory.ReadPrefix` | rest-api/ipam/memory.go:43-52 | the record of that namespace, or not found |
| `Storage.Memory.ReadAllPrefixCidrs` | rest-api/ipam/memory.go:83-95 | exactly the CIDRs of the namespace, each once |
| `Storage.Memory.UpdatePrefix` | rest-api/ipam/memory.go:96-121 | replaces the record, with the next version, exactly when the versions agree |
| `Storage.Memory.DeletePrefix` | rest-api/ipam/memory.go:122-128 | removes the record and nothing else, and returns what it was given |
| `Ipamer.CollectClaims` | rest-api/ipam/prefix.go:213-224 | the loop gathers exactly the claimed children |
| `Ipamer.CountClaims` | rest-api/ipam/prefix.go:662-670 | the loop counts exactly the claimed children |
| `Ipamer.FindBestFit` | rest-api/ipam/prefix.go:232-235 | the search loop finds the best-fitting hole |
| `Ipamer.FindIp` | rest-api/ipam/prefix.go:407-429 | the walk finds the wanted address, or the lowest free one |
| `Ipamer.AnyOverlap` | rest-api/ipam/prefix.go:468-485 | reports an overlap exactly when some existing prefix overlaps |
| `Ipamer.RemoveFreePrefix` | rest-api/ipam/prefix.go:232-251 | takes the lowest block of the smallest hole that fits, or none if no block of the length is free |
| `Ipamer.ChooseChild` | rest-api/ipam/prefix.go:188-258 | chooses the child that `Prefixes.ClaimIsLowest` tells, or gives the refusal of `Prefixes.ClaimRefusedIff` |
| `Ipamer.Ipamer.NewPrefix` | rest-api/ipam/prefix.go:130-151 | performs the request on its namespace only, answering as `Answers.NewPrefixGrantedIff` says |
| `Ipamer.Ipamer.DeletePrefix` | rest-api/ipam/prefix.go:153-167 | likewise, as `Answers.DeletePrefixGrantedIff` says |
| `Ipamer.Ipamer.AcquireChildPrefix` | rest-api/ipam/prefix.go:188-283 | likewise, parent update before child creation; a child of a given length is the lowest block of the smallest hole it fits in |
| `Ipamer.Ipamer.ReleaseChildPrefix` | rest-api/ipam/prefix.go:292-312 | likewise, child removal before parent update; granted exactly when the handle and the stored records allow it |
| `Ipamer.Ipamer.AcquireSpecificIP` | rest-api/ipam/prefix.go:379-430 | likewise, for a given address or the next free one, as `Answers.AddressIsGranted` says |
| `Ipamer.Ipamer.ReleaseIPFromPrefix` | rest-api/ipam/prefix.go:449-464 | likewise, as `Answers.AddressIsReleased` says |
| `Usage.CountGrandchildren` | rest-api/ipam/prefix.go:343-359 | the loop counts the claims below the stored claims, each once |
| `Usage.AcquiredPrefixes` | rest-api/ipam/prefix.go:350-355 | the number of claims of a stored prefix, or zero |
| `Usage.GetSubnetCount` | rest-api/ipam/prefix.go:336-373 | the count by depth, for every prefix, and zero for a missing one |
| `Usage.SubnetCountAgrees` | rest-api/ipam/prefix.go:336-373 | in a forest it is the number of stored grandchildren of a root and of stored children of a child |
| `Usage.CountPieces` | rest-api/ipam/prefix.go:643-653 | the loop sums in 64 bits and keeps the pieces of usable length |
| `Usage.AvailableAre` | rest-api/ipam/prefix.go:642-653 | the pieces kept are exactly the maximal free blocks of at most the usable length |
| `Usage.AvailablePrefixes` | rest-api/ipam/prefix.go:617-659 | the count is the number of wholly free smallest blocks modulo 2^64, capped at 2147483647; the prefixes listed are exactly the maximal free blocks that are large enough, in address order |
| `Usage.ReportedCountIsRightIff` | rest-api/ipam/prefix.go:651-658 | the count is right exactly when no free piece holds 2^64 smallest blocks or more and the shares of the others fit in 64 bits, or what is left of them reaches the cap |
| `Usage.LongPrefixCountIsRight` | rest-api/ipam/prefix.go:645-658 | for IPv4, and for IPv6 of /63 or longer, the count is right whatever is claimed |
| `Usage.OnlyWidePiecesReportNothing` | rest-api/ipam/prefix.go:651-651 | where all free pieces that count hold that many, nothing is reported free |
| `Usage.IPv4UsageIsExact` | rest-api/ipam/prefix.go:617-659 | for IPv4 the count is exactly the number of free /30 blocks, and addresses are conserved |
| `Usage.WideIPv6ReportsNothing` | rest-api/ipam/prefix.go:651-651 | an untouched IPv6 prefix of /62 or shorter reports no free block |
| `WeaveModel.VnetNameInjective` | crates/agent/src/astra_weave.rs:42-44 | different VNIs have different network names |
| `WeaveModel.VnetNameReads` | crates/agent/src/astra_weave.rs:42-44 | a network name is the common prefix and the decimal digits of the VNI |
| `WeaveModel.AsI32Wraps` | crates/agent/src/astra_weave.rs:1103-1108 | the VNI read as a signed number keeps its 32 bits |
| `WeaveModel.StateIsShown` | crates/agent/src/astra_weave.rs:1025-1043 | a status shows each phase of the server as itself, unknown ones as unspecified, with its reason |
| `WeaveModel.BuildSpecIff` | crates/agent/src/astra_weave.rs:63-140 | a spec is built exactly for attachable entries, names the entry's NIC and network, asks for the entry's own physical, virtual or OVN function and no other, and obeys the schema; which error is reported otherwise |
| `WeaveModel.SameSpecIff` | crates/agent/src/astra_weave.rs:63-140 | two attachable entries get one spec exactly when they agree in NIC, VNI, kind and what that kind uses |
| `WeaveSync.FindMatch` | crates/agent/src/astra_weave.rs:1096-1110 | the first unmatched attachment of the entry, or none exists |
| `WeaveSync.CountAttached` | crates/agent/src/astra_weave.rs:1052-1056 | the number of entries that are not detached |
| `WeaveSync.SyncEntry` | crates/agent/src/astra_weave.rs:1073-1152 | an entry's status is its attachment's state; which failure is reported, exactly |
| `WeaveSync.SyncStatus` | crates/agent/src/astra_weave.rs:1045-1164 | succeeds exactly when config and server are in sync, pairs them off one to one, and never reports the trailing error |
| `WeaveNetworks.CollectSeen` | crates/agent/src/astra_weave.rs:159-180 | the networks by VNI, for each VNI the last one listed |
| `WeaveNetworks.CreateNamed` | crates/agent/src/astra_weave.rs:239-287 | the create call and all it keeps, for every answer |
| `WeaveNetworks.CreateMissing` | crates/agent/src/astra_weave.rs:227-295 | an entry stays Ready only if its network was created and reported Ready |
| `WeaveNetworks.EnsureNetwork` | crates/agent/src/astra_weave.rs:189-295 | the same for a seen, a conflicting or a detached VNI |
| `WeaveNetworks.CreateVirtualNetworks` | crates/agent/src/astra_weave.rs:144-299 | phase 1: only adds networks, keeps one per VNI, Ready means usable, and nothing is called if nothing is missing |
| `WeaveNetworks.StaleIsUnused` | crates/agent/src/astra_weave.rs:355-373 | a network outside the config has no wanted attachment on it |
| `WeaveNetworks.DropIfStale` | crates/agent/src/astra_weave.rs:312-349 | one stale network: deleted only if unused |
| `WeaveNetworks.DeleteStaleNetworks` | crates/agent/src/astra_weave.rs:304-353 | phase 3: no network in use is deleted, success leaves exactly the config's networks, and a failed delete ends the phase |
| `WeaveAttachments.ConflictingIsUnwanted` | crates/agent/src/astra_weave.rs:438-455 | with distinct NICs, an attachment that conflicts with its entry is wanted by none |
| `WeaveAttachments.SplitSameNic` | crates/agent/src/astra_weave.rs:424-455 | the last exact attachment of the NIC, and exactly the conflicting ones |
| `WeaveAttachments.DropConflicting` | crates/agent/src/astra_weave.rs:457-475 | conflicting attachments are deleted; a failure is left in the status |
| `WeaveAttachments.CreateTracked` | crates/agent/src/astra_weave.rs:512-575 | an entry stays Ready only if its attachment was created |
| `WeaveAttachments.KeepOrCreate` | crates/agent/src/astra_weave.rs:478-498 | an exact attachment is kept and its state copied; otherwise one is created |
| `WeaveAttachments.AttachEntry` | crates/agent/src/astra_weave.rs:405-499 | one entry: attached, or not Ready; nothing is called if it already is |
| `WeaveUpdate.DropUnwanted` | crates/agent/src/astra_weave.rs:577-642 | the stale pass: only unwanted attachments that are still there are deleted, and none is left |
| `WeaveUpdate.UpdateAttachments` | crates/agent/src/astra_weave.rs:380-510 | phase 2 as a whole: safety, what success means, convergence, new attachments to their entries' functions, and no call when settled |
| `WeaveReconcile.BuildStatus` | crates/agent/src/astra_weave.rs:897-926 | succeeds exactly when the revision is not empty and every VNI is at most 0x7FFFFFFF, with every entry Ready |
| `WeaveReconcile.FullUpdate` | crates/agent/src/astra_weave.rs:767-791 | the three phases in order, each ending the update if it fails |
| `WeaveGuarantees.UpdateIsSafe` | crates/agent/src/astra_weave.rs:784-788 | whatever fails: no used network is deleted, attachments go only to Ready networks, one network per VNI stays |
| `WeaveGuarantees.OkMeansAttached` | crates/agent/src/astra_weave.rs:380-510 | success means the statuses are the config's and every Ready, attached entry has its attachment |
| `WeaveGuarantees.UpdateConverges` | crates/agent/src/astra_weave.rs:767-791 | on a server that answers, the attachments end up exactly the config's, and on success the networks too; where network deletes fail, one failed delete ends the update and all networks stay |
| `WeaveGuarantees.UpdateKeepsReady` | crates/agent/src/astra_weave.rs:512-575 | Ready attachments stay Ready, and so are new ones |
| `WeaveGuarantees.UpdateLeavesConverged` | crates/agent/src/astra_weave.rs:478-493 | a converged, Ready server is not called and every entry is reported Ready |
| `WeaveGuarantees.ConvergedAttachments` | crates/agent/src/astra_weave.rs:644-661 | converged means the (NIC, network) pairs are those of the entries that are not detached |
| `WeaveGuarantees.ConvergedNetworks` | crates/agent/src/astra_weave.rs:355-373 | and the VNIs are the config's non-zero ones |
| `WeaveGuarantees.FunctionsRightIff` | crates/agent/src/astra_weave.rs:478-498 | after an update all attachments are to their entries' functions exactly when those that were there before are |
| `WeaveFastPath.SyncedMeansAttached` | crates/agent/src/astra_weave.rs:1073-1153 | a successful sync reports the config's entries, and the Ready ones are attached |
| `WeaveFastPath.SyncedIsSettled` | crates/agent/src/astra_weave.rs:1045-1164 | then the attachment phase would find nothing to create and nothing to delete |
| `WeaveFastPath.FastRefinesFull` | crates/agent/src/astra_weave.rs:793-862 | where the sync succeeds, a full update makes no attachment call whatever fails, and reports the same statuses if all goes well; only networks may differ |
| `WeaveFastPath.TryFastPath` | crates/agent/src/astra_weave.rs:793-862 | taken exactly when the revisions agree and config and server are in sync |
| `WeaveFastPath.Reconcile` | crates/agent/src/astra_weave.rs:739-791 | by either path: safety, what success means, the exact condition for convergence, and the fixpoint |
| `WeaveFastPath.SyncedConvergedIff` | crates/agent/src/astra_weave.rs:760-764 | on the fast path the server has converged exactly when its networks are the config's |
| `WeaveFastPath.HistoryIsSafe` | crates/agent/src/astra_weave.rs:727-735 | over any number of reconciles an orderly server stays orderly and every call is safe |
| `WeaveFastPath.RecoversAfterHistory` | crates/agent/src/astra_weave.rs:727-735 | after any of them, a reconcile in which all calls succeed ends with success, and converges exactly unless it takes the fast path past wrong networks |
| `WeaveFastPath.SecondMakesNoCall` | crates/agent/src/astra_weave.rs:739-791 | reconciling twice without failures, the second one makes no call and reports every entry Ready |
| `WeaveStale.FailedDeleteIsForgotten` | crates/agent/src/astra_weave.rs:344-347 | one failed delete of a stale network ends an update whose attachments are done, and from there the same config takes the fast path |
| `WeaveStale.StaleNetworksStay` | crates/agent/src/astra_weave.rs:760-764 | any number of further reconciles of that config succeed, make no call, and leave the networks wrong |
| `MetricKeys.SplitJoin` | bluefield/otel/telemetrystatsprocessor/telemetrystatsprocessor.go:318-318 | splitting at colons undoes joining colon-free parts |
| `MetricKeys.LabelIsInnermost` | bluefield/otel/telemetrystatsprocessor/telemetrystatsprocessor.go:635-654 | a label shows the datapoint's attribute, or else the scope's, or else the resource's; one that is not text hides those further out |
| `MetricKeys.OuterAttributesAreHidden` | bluefield/otel/telemetrystatsprocessor/telemetrystatsprocessor.go:643-654 | attributes hidden by others further in make no difference to the key |
| `MetricKeys.ScrapedLabelIsInnermost` | bluefield/otel/telemetrystatsprocessor/telemetrystatsprocessor.go:318-334 | a label decoded from the key of a datapoint is its own attribute |
| `MetricKeys.KindNames` | bluefield/otel/telemetrystatsprocessor/telemetrystatsprocessor.go:747-762 | supported metric types have different names, a sum being a Counter |
| `MetricKeys.KeyReads` | bluefield/otel/telemetrystatsprocessor/telemetrystatsprocessor.go:764-792 | the whole text of a key by name, type and one label |
| `MetricKeys.GenerateKey` | bluefield/otel/telemetrystatsprocessor/telemetrystatsprocessor.go:764-792 | the key is the grouping, name, type and present labels, joined; what these labels show is `MetricKeys.LabelIsInnermost` |
| `MetricKeys.DecodeKey` | bluefield/otel/telemetrystatsprocessor/telemetrystatsprocessor.go:318-334 | the labels decoded from a key, later parts over earlier ones |
| `MetricKeys.RoundTripIff` | bluefield/otel/telemetrystatsprocessor/telemetrystatsprocessor.go:764-792 | decoding gives the documented labels exactly when no encoded text has a colon |
| `MetricKeys.KeyIffLabels` | bluefield/otel/telemetrystatsprocessor/telemetrystatsprocessor.go:764-792 | two datapoints of a config have one key exactly when they have the same labels |
| `Renaming.RenameLabels` | bluefield/otel/telemetrystatsprocessor/telemetrystatsprocessor.go:335-343 | the loop that moves labels aside for the configured ones |
| `Renaming.RenamedKeys` | bluefield/otel/telemetrystatsprocessor/telemetrystatsprocessor.go:335-343 | the renamed labels are exactly those that some label ends up under |
| `Renaming.Survives` | bluefield/otel/telemetrystatsprocessor/telemetrystatsprocessor.go:335-343 | of the labels that end up under one name, the shortest keeps its value |
| `Renaming.RenamingClearsIff` | bluefield/otel/telemetrystatsprocessor/telemetrystatsprocessor.go:335-343 | it makes way for all configured labels, for every key, exactly when no label that can be decoded is moved to an earlier configured name that does not come again |
| `Renaming.ClashOverwrites` | bluefield/otel/telemetrystatsprocessor/telemetrystatsprocessor.go:335-343 | otherwise the key of some datapoint has a label that a configured one overwrites |
| `Renaming.ClashWithoutRepeats` | bluefield/otel/telemetrystatsprocessor/telemetrystatsprocessor.go:335-343 | without repeated names: exactly when no configured name that can be decoded is moved to an earlier one |
| `Renaming.RenamingKeepsApartIff` | bluefield/otel/telemetrystatsprocessor/telemetrystatsprocessor.go:335-343 | it keeps datapoints of a grouping with different labels apart exactly when no two label names of the grouping end up under one name |
| `Renaming.GroupingsStayApart` | bluefield/otel/telemetrystatsprocessor/telemetrystatsprocessor.go:335-343 | datapoints of different groupings are reported apart in any case |
| `BatchOrder.EachAcceptedOnce` | bluefield/otel/telemetrystatsprocessor/telemetrystatsprocessor.go:157-294 | every accepted (resource, scope, metric, grouping, datapoint) of a batch is counted exactly once, and nothing else is |
| `MetricCounts.Processor.ProcessDatapoint` | bluefield/otel/telemetrystatsprocessor/telemetrystatsprocessor.go:284-294 | an accepted datapoint is counted once under its key |
| `MetricCounts.Processor.ProcessMetricGrouping` | bluefield/otel/telemetrystatsprocessor/telemetrystatsprocessor.go:243-282 | every datapoint of a supported metric is offered to the grouping |
| `MetricCounts.Processor.ProcessMetric` | bluefield/otel/telemetrystatsprocessor/telemetrystatsprocessor.go:226-241 | for every grouping, unless the metric is the processor's own |
| `MetricCounts.Processor.ProcessMetrics` | bluefield/otel/telemetrystatsprocessor/telemetrystatsprocessor.go:157-175 | the counts are those of everything accepted so far, batch by batch |
| `MetricCounts.Scrape` | bluefield/otel/telemetrystatsprocessor/telemetrystatsprocessor.go:312-350 | one datapoint for every key, decoded and renamed, with its count, in any order |
| `MetricCounts.Processor.ScrapeMetricStats` | bluefield/otel/telemetrystatsprocessor/telemetrystatsprocessor.go:312-350 | the same for the processor's counts |
| `MetricCounts.ScrapeIsExact` | bluefield/otel/telemetrystatsprocessor/telemetrystatsprocessor.go:312-350 | each set of labels that occurred is reported once, with the number of accepted datapoints that have exactly those labels |
| `MetricCounts.ReportedLabelsDiffer` | bluefield/otel/telemetrystatsprocessor/telemetrystatsprocessor.go:312-350 | if no two label names of a grouping end up under one name, no two datapoints of a scrape have the same reported labels |
| `SelfReport.SelfCounts.Update` | bluefield/otel/telemetrystatsprocessor/telemetrystatsprocessor.go:392-400 | the datapoints of a scrape are added to the total of their name |
| `SelfReport.SelfCounts.CountReport` | bluefield/otel/telemetrystatsprocessor/telemetrystatsprocessor.go:406-416 | a report is counted before it is listed |
| `SelfReport.ListCounts` | bluefield/otel/telemetrystatsprocessor/telemetrystatsprocessor.go:418-434 | one datapoint for every count |
| `SelfReport.SelfCounts.Report` | bluefield/otel/telemetrystatsprocessor/telemetrystatsprocessor.go:402-434 | every reported value is the number generated so far, this report's own datapoints included |
| `SelfReport.ReportNamesMetricIff` | bluefield/otel/telemetrystatsprocessor/telemetrystatsprocessor.go:420-426 | a reported count names its metric exactly when no configured label `name` says otherwise |
| `SelfReport.ReportLabelsAre` | bluefield/otel/telemetrystatsprocessor/telemetrystatsprocessor.go:420-426 | the labels of a reported count: the last configured one of a name, else source, metric name and type, and no others |
| `Reporters.ReportsAscendIff` | bluefield/otel/telemetrystatsprocessor/telemetrystatsprocessor.go:371-434 | in every run, of any two reports sent, one shows every count of the other, none smaller, exactly when it was counted no earlier |
| `Reporters.ReportsNeverDecrease` | bluefield/otel/telemetrystatsprocessor/telemetrystatsprocessor.go:371-390 | in every run of processors side by side, a later report along the pipeline has every count of an earlier one, none smaller |
| `Reporters.ReportsShowTotals` | bluefield/otel/telemetrystatsprocessor/telemetrystatsprocessor.go:392-434 | every report shows exactly the datapoints generated when it was counted, its own included |
| `Reporters.ScrapeIsCounted` | bluefield/otel/telemetrystatsprocessor/telemetrystatsprocessor.go:312-354 | a scrape of a processor that takes part counts one datapoint for every key under the datapoint total, and nothing else |
| `Reporters.ElectedIff` | bluefield/otel/telemetrystatsprocessor/telemetrystatsprocessor.go:373-390 | a processor reports exactly when it is the reporter or there is none, and then becomes it |
| `Reporters.ReporterIsFreed` | bluefield/otel/telemetrystatsprocessor/telemetrystatsprocessor.go:112-127 | a reporter that stops makes room for another, and any other leaves it in place |
| `Reporters.TwoReportersDecrease` | bluefield/otel/telemetrystatsprocessor/telemetrystatsprocessor.go:518-541 | a report held while an HTTP request is counted and answered shows less than that answer |
| `Reporters.CanShowLessIff` | bluefield/otel/telemetrystatsprocessor/telemetrystatsprocessor.go:518-541 | a later report can show less than an earlier one exactly when one of them answers an HTTP request |
| `Reporters.HoldsAfterSteps` | bluefield/otel/telemetrystatsprocessor/telemetrystatsprocessor.go:361-368 | a new processor holds a counted report after four steps, from any state without a reporter |
| `Interfaces.RightCountIff` | crates/admin-cli/src/rpc.rs:1955-1967 | the count is right exactly when there are enough NICs, no VF subnets, and fewer VFs than PFs or an even split |
| `Interfaces.VirtualsInOrder` | crates/admin-cli/src/rpc.rs:1898-1930 | VFs are numbered 0 to v-1 in request order; each has the device and instance of its PF, its own prefixes, and the addresses counted from the PF's first VF |
| `Interfaces.PhysicalsInOrder` | crates/admin-cli/src/rpc.rs:1849-1896 | PFs are the requested ones, in order, on the NICs in order, with instances counted by device and their own addresses |
| `Interfaces.VirtualsFollow` | crates/admin-cli/src/rpc.rs:1898-1930 | every VF comes right after its PF or a VF of the same PF |
| `Interfaces.LayoutInPlace` | crates/admin-cli/src/rpc.rs:1849-1939 | the position and every field of each PF and VF in the list, and that there are no others |
| `Interfaces.InstanceCounts` | crates/admin-cli/src/rpc.rs:1865-1868 | the instance of a NIC counts the NICs before it that have its device name |
| `Interfaces.DevicesAre` | crates/admin-cli/src/rpc.rs:1849-1858 | the devices are those of the Mellanox NICs, each once, in their order |
| `Interfaces.PhysicalsDiffer` | crates/admin-cli/src/rpc.rs:1865-1868 | no two PFs have the same device and instance |
| `Interfaces.OwnAddressesIff` | crates/admin-cli/src/rpc.rs:1901-1910 | VFs get their own addresses exactly when one PF carries all of them |
| `Interfaces.AddVfs` | crates/admin-cli/src/rpc.rs:1900-1930 | the loop over one chunk makes the VFs that `Interfaces.VirtualsInOrder` describes |
| `Interfaces.PlaceAll` | crates/admin-cli/src/rpc.rs:1849-1939 | the loop over the NICs lays out PFs and VFs as specified |
| `Interfaces.BuildInterfaces` | crates/admin-cli/src/rpc.rs:1828-1967 | succeeds exactly when the machine has been discovered, the request fits it and a tenant is given; every PF and VF is then in its place, field by field; which error is reported otherwise |

## Assumptions

* Versions, counters and attempts are unbounded numbers; 64-bit wrap-around is modelled only
  where the usage count meets it.
* The compare-and-swap results are about records that are not deleted during the run, because
  a record created again starts at version 0.
* In the interleaved model, `NewPrefix` reads and creates in two steps without the mutex that
  orders it within one process, so clients in different processes are covered too.
* The results on stored children are about careful runs: no record in or around the prefix is
  removed while something in it is stored or about to be.
* CIDRs are masked, and namespaces have no `@`.
* The Weave server has one client, refuses a network id it has, never reuses attachment ids,
  and a failed call leaves it as it was. Phases may change at any listing unless the server is
  called healthy; whether it deletes networks is set apart from that. Where a result needs orderly data it says so: distinct MACs in the config,
  networks named after VNIs of at least 1, unique non-empty attachment ids, and for exact
  convergence no attachment on the name of VNI 0.
* Configured label names have no colon or equals sign and are not reserved ones, and grouping
  names are distinct.

## Left out

- The other storage backends, the file store and JSON dump and load: external systems and encodings.
- Text of CIDRs and addresses: a canonical text is taken as a name for its block or address.
- `netipx`: its set operations are replaced by functions proved here, with the same best-fit policy.
- Retry delays: only the ten attempts on a lost write are modelled, and only in the interleaved model.
- Error messages and logging: errors are distinguished by kind.
- Prefix.availableips and acquiredips: single expressions.
- The gRPC transport and the debug-only revision comparison of the reconciler.
- The subnet, message and metadata texts sent to the Weave server.
- The metric filter: any predicate, so regular expressions are not modelled.
- The channel that carries scraped datapoints to the pipeline.
- The log statistics: only what they add to the shared counts, and the report an HTTP request makes of these.
- The subnet branch and the flat branch of an instance request.
- FreeSet.TakeFreeFindsOne: lengths are at most the address width; the allocator passes longer ones on to `netipx`, which is not part of this model.
- FreeSet.TakeFreeIsLowest: as above.
- Prefixes.ClaimIsFree: as above.
- Prefixes.ClaimIsLowest: as above.
- Prefixes.ClaimRefusedIff: as above.
- Prefixes.ClaimGrantedIff: as above.
- Exclusion.GrantedBesideAddressesIff: as above.
- Answers.ChildGrantedIff: as above.
- Answers.ChildInForestGrantedIff: as above.
- Answers.ChildIsLowest: as above.
- Answers.FirstChildIsLowest: as above.
- Answers.AcquireThenRelease: as above.
- Ipamer.RemoveFreePrefix: as above.
- Ipamer.ChooseChild: as above.
- Ipamer.Ipamer.AcquireChildPrefix: as above.
- MetricCounts.Processor.ScrapeMetricStats: models the scraping only; the count of its datapoints is `SelfReport.SelfCounts.Update`.
- MetricCounts.Processor.ProcessMetrics: models the counting only, not the datapoints appended to the batch.
