# Verified model of a tunnel hub, its spokes and its browser host

This project models, in Dafny, the parts of the repository whose correctness the code itself
decides, and proves what they promise over all inputs, all runs and all interleavings.
`dafny verify dfyconfig.toml` checks it.

## What is modelled

**The hub's LAN-routing protocol** (`Net`, `Sorting`, `Rib`, `LiveRib`, `RibRuns`, `NetviewRouter`,
`Hub`, `ControlHub`, `Protocol`, `PeerFilter`, with
`RibExact`, `Carriers` and `HubSteps`). The hub keeps a table of prefixes that spokes claim and
the operator injects, numbers every change, and pushes whole snapshots. A spoke takes a snapshot or
leaves it, and answers lookups by longest match. `RibTable`, `ControlHub`, `Router` and `PeerFilter` are
the program's structs with their loops; `Protocol` is the system of one hub and its spokes, with any
number of publishes under way at once, messages delayed, lost, replayed, and streams dying and reopening. Convergence, safety of the claims and agreement
of the lookups are proved over every run.

**The SMUX v2 stream layer** (`SmuxWrite`, `SmuxFins`, `SmuxFlow`, `SmuxStream`, `Framing`, `SmuxFrames`, `SmuxWire`,
with `SmuxEnds` and `WireBytes`).
Writers queue behind each other and send as the peer's window allows; reads give credit back; closes drain.
`Stream` is the stream object with its fields. Prefix order, conservation, the window bound and freedom from
credit deadlock are proved over every interleaving of two connected streams; the wire format round trips
under any split.

**Addresses** (`LastAddr`, `TunIP`, `Assignment`, `DoorAndFilter`, `Hosts`, `Authorizer`). The allocator behind the
API door, the filter the hub applies to its configuration, and the check on each registration, written
independently of each other, are proved to agree on who owns which address.

**Codecs over split byte streams** (`Dropping`, `WsFrames`, `WsCodec`, `WsDecoding`, `Chunked`, `ChunkedSplits`, `Ctrl`,
`LanAllow`, with `WsBytes`, `ChunkSizes`, `LanRows`, `Bits`, `BigEndian`, `Strings`, `Words`): WebSocket frames and fragmented messages (RFC 6455), HTTP
chunked bodies (RFC 9112), control messages, and the printed LAN policy.

**QR codes** (`Galois`, `QrMath`, `Polynomials`, `PowerProducts`, `QrPolynomial`, `QrErrorCorrection`, `QrGenerator`, `QrPlacement`, `QrZigzag`): the
logarithm tables, polynomial division and error correction codewords, and the placement of the data
(ISO/IEC 18004:2015).

**Shared tables and durable state** (`P2pHost`, `P2pHostManager`, `ConfigStore`): the peer routes of the
shared p2p host, and the publication of the configuration file under failures and crashes.

Where the program updates an object, the model is a class with the same fields whose methods are proved
equal to functions on values; the lemmas over runs are about folds of those functions. A transition is one
lock section, one write to a stream, one channel delivery, or one uninterrupted turn of the write loop.

## Assumptions

- One lock section is one step. So are reading the routes, setting them, and one write to a stream: the
  frames two publishes write to one connection are not torn into each other.
- Clocks, keys for masking, the order in which maps are walked, and which write fails are parameters or
  left open. Time is read once per claim message.
- Printed addresses and prefixes are opaque: either they parse or they do not. Their printed order is an
  injective numbering of prefixes. JSON is a pair of functions that undo each other.
- Prefixes are no longer than their family's width, and no spoke's key is the word that stands for the
  operator as an origin.
- A rename is atomic, and renames reach the disk in order.

## What the proofs found

- The comment on `hasNetworkAddr` (tunnel/tunip.go:412-415) says it is false for every IPv6 prefix. The code
  keeps the network address of every IPv6 prefix shorter than /31 back, ::/16 for one
  (`TunIP.ShortSubnetKeepsBase`), and of no other (`TunIP.BaseIffLong`).
- Two publishes at once can leave the hub's own routes at an older table for as long as the table does not
  change: `Protocol.StaleInstallIsReachable` is the run. They are the present ones exactly when the table still gives
  what it gave when the publish that set them last had read it (`Protocol.SinkIsTheTable`). What the spokes hold is
  not affected (`Protocol.PublishSettles`).
- A netview of an older generation that was delayed displaces the newer one
  (`NetviewRouter.DelayedGenerationDisplaces`): what is held is the newest of the last run heard from
  (`NetviewRouter.InstalledIsCurrent`). Convergence holds within one generation.
- A row typed `::ffff:a` does not keep the allocator from giving `a` to a blank row, and the filter then drops
  both (`DoorAndFilter.MappedRowCollides`). `DoorAndFilter.DoorAndFilterAgree` says exactly when the two agree, in
  terms of the typed rows, the subnets and the number of blank rows.
- Window updates are cut to 32 bits and the write counter is not: a stream stops for good when 2^32 bytes
  have been credited (`SmuxFlow.DrainedWriterMayWrite`, `SmuxFlow.LongStreamStalls`, `SmuxFlow.StallIsReachable`).
- A second close during the drain, graceful or forced, sends a second FIN (`SmuxFins.ClosingTwiceSendsTwoFins`):
  a stream sends as many as there are close calls that find it open (`SmuxFins.FinsAreCloses`).
- A read that is called while a graceful close drains waits, and the end of the close does not end it: it waits for
  ever (`SmuxEnds.ReadMayBeLate`, `SmuxEnds.LateReadWaitsForEver`). In every run that is the only way a read comes to
  wait on a closed stream (`SmuxEnds.WaitingReads`, `SmuxEnds.WaitingReadCameAfter`).
- After a chunk size below zero the reading of a chunked body depends on how the bytes are split, for some bytes that
  may follow (`ChunkedSplits.NegativeSizesSplit`, with `ChunkedSplits.NegativeSizeSplits` one case), though not for
  all (`ChunkedSplits.HarmlessHere`). Where no size is below zero it never does (`Chunked.ReadsTheBytes`).
- A WebSocket length beyond 32 bits drops the buffer, so what is decoded after it depends on how the bytes
  were split (`WsDecoding.SplitsDoNotMatter` gives the exact condition).
- That a spoke's route covers no member is checked only when the route enters
  (`RibRuns.LaterMemberIsCovered`). A member list that names an address under a route already held is the one way
  it comes to cover one (`RibRuns.CoversNoneIff`, `RibRuns.NeverCoversIff`).
- The comment on `register` (tunnel/p2p_host.go:825-828) says a peer listed twice is refused. The code takes it
  (`P2pHost.ListedTwiceIsListedOnce`).
- A teardown of the p2p host forgets the mesh routes' keys and leaves their listeners' lists
  (`P2pHost.TeardownLeavesAList`); a list is wrong exactly from such a teardown until it is set again
  (`P2pHost.ListsAreExactUnlessTorn`).

## Model

| member | source | states |
|---|---|---|
| LiveRib.RibTable.SetMembers | tunnel/rib.go:178-187 | the members are replaced and the revision advances exactly when the list differs |
| LiveRib.RibTable.SetAllow | tunnel/rib.go:204-234 | the new policy is in force, every dynamic route it no longer approves is gone, static ones stay, and the revision advances once, whatever is removed |
| LiveRib.RibTable.ApplyClaim | tunnel/rib.go:271-356 | the table after a claim message is withdrawals of what a whole-intent message leaves out, then its drops, then its adds in order; returned are the accepted prefixes |
| LiveRib.RibTable.RemoveLeftOut | tunnel/rib.go:271-294 | exactly the origin's own dynamic routes that are neither added nor dropped again go |
| LiveRib.RibTable.Withdraw | tunnel/rib.go:418-445 | exactly the dynamic routes last announced longer ago than the limit go, and are returned once each, longest first |
| LiveRib.RibTable.AddStatic | tunnel/rib.go:498-516 | an operator's route takes its prefix from whoever holds it; the same route again changes nothing; a "via" that names no member is refused |
| LiveRib.RibTable.Snapshot | tunnel/rib.go:552-591 | whatever order the map is walked in, the snapshot is each route once, longest first, static before dynamic, then in printed order |
| Rib.SnapshotIsUnique | tunnel/rib.go:552-630 | tables with the same content have the same snapshot and the same routes |
| RibRuns.ClaimSpeaksForItself | tunnel/rib.go:271-356 | no claim message of one spoke adds, moves, refreshes or removes a route of another or of the operator |
| RibRuns.ReplaceIsExact | tunnel/rib.go:264-356 | a whole-intent claim leaves its origin holding exactly the set it returns |
| RibRuns.NewClaimsCoverNoMember | tunnel/rib.go:333-338 | a route that enters by a claim covers no member's address |
| RibRuns.CoversNoneIff | tunnel/rib.go:178-187 | where no spoke's route covers a member, one operation brings one about exactly when it sets a member list that names an address under a route already held |
| RibRuns.NeverCoversIff | tunnel/rib.go:178-187 | through a whole run no spoke's route ever covers a member exactly when no operation sets such a list at its moment |
| RibRuns.CoveredSinceJoin | tunnel/rib.go:333-338 | a spoke's route that covers a member at the end of a run was held before that member list was set, and ever since |
| RibRuns.LaterMemberIsCovered | tunnel/rib.go:178-187 | it does happen: a concrete run in which a member joins under a route already held |
| RibRuns.ClaimsStayInsidePolicy | tunnel/rib.go:204-234 | in every run, every address a dynamic route covers lies in one supernet the present policy allows its origin |
| RibRuns.RevisionNamesTable | tunnel/rib.go:271-356 | in every run the revision never goes back, and two moments with equal revision have equal members and table contents |
| RibRuns.StaticRoutesStay | tunnel/rib.go:498-516 | in every run, an operator's route once in is only ever replaced by another operator's route |
| RibRuns.SeenWasAsserted | tunnel/rib.go:296-356 | a route's timestamp is the time of a message in which its origin named it, and it was held ever since |
| RibRuns.SeenIsLatest | tunnel/rib.go:296-356 | that message is the last one that named it |
| RibRuns.SweepLeavesTheLiving | tunnel/rib.go:418-445 | after a sweep a spoke's route is in force exactly when it was and its origin named it within the limit |
| RibExact.ClaimIsExact | tunnel/rib.go:271-356 | every claim message, by the addresses it is about: the answer is, in order, the adds that after its drops their origin still holds, or that lie in a supernet it is allowed, contain no member and are nobody's; the table is what is left and the answer; the revision has advanced once for each route that went and each that came |
| RibExact.IncrementIsExact | tunnel/rib.go:296-356 | after an incremental message the origin holds exactly what it was granted and what it held and did not drop, and a held route that was dropped has advanced the revision |
| RibExact.PolicyIsExact | tunnel/rib.go:204-234 | a new policy takes away exactly the spokes' routes that no supernet of their origin contains any more; the revision advances once |
| RibExact.SweepIsExact | tunnel/rib.go:418-445 | a sweep takes away exactly the spokes' routes named longer ago than the limit, and advances the revision once for each |
| RibExact.StaticIsExact | tunnel/rib.go:498-516 | an operator's route is refused exactly when no member has the address it goes by; otherwise its prefix is his, by the key of the first member with that address, and the revision advances exactly if it was not there as it is |
| RibExact.SnapshotOrder | tunnel/rib.go:552-591 | longer prefixes first; among equals an operator's first; then in printed order |
| NetviewRouter.Router.Apply | tunnel/netview_router.go:111-177 | a netview is refused exactly when it is nameless or not newer in the same run; otherwise hub, generation, revision, gateway and the sorted parsed claims all become its own |
| NetviewRouter.Router.GetRoute | tunnel/netview_router.go:240-255 | the answer is the longest installed prefix that contains the destination, none exactly when none does |
| NetviewRouter.Router.DeliverNetview | tunnel/netview_router.go:479-491 | the kernel is synchronized with the new table exactly when the netview was accepted |
| NetviewRouter.InstalledIsCurrent | tunnel/netview_router.go:111-177 | whatever was delivered in whatever order, the router holds exactly one netview: the newest of the last run heard from |
| NetviewRouter.CurrentIsUnique | tunnel/netview_router.go:111-124 | there is one such netview only, up to content |
| NetviewRouter.HighestRevisionWins | tunnel/netview_router.go:111-177 | within one generation the router holds the highest revision delivered |
| NetviewRouter.DeliveryOrderIsIrrelevant | tunnel/netview_router.go:111-177 | within one generation order, duplication and delay of deliveries do not matter |
| NetviewRouter.DelayedGenerationDisplaces | tunnel/netview_router.go:111-124 | across generations they do: a concrete delayed netview of the previous run displaces the newer one |
| NetviewRouter.RevisionAdvancesWithinRun | tunnel/netview_router.go:111-124 | a delivery takes the router back exactly when it is named, comes from another run and has a lower revision; within a run it never does, and at an equal revision nothing changes |
| NetviewRouter.LongestIsUnique | tunnel/netview_router.go:127-150 | over masked prefixes the longest match is the same however the table is ordered |
| NetviewRouter.FirstMatchIsLongest | tunnel/netview_router.go:240-255 | the first match of a scan of the sorted list is the longest match over the set |
| ControlHub.ControlHub.Publish | tunnel/ctrlhub.go:746-776 | one snapshot goes to every live stream and is marked as sent on it; a stream that fails is closed alone; the hub's own routes are installed |
| ControlHub.ControlHub.InstallRoutes | tunnel/ctrlhub.go:781-830 | the hub installs exactly the routes that some member carries |
| ControlHub.ControlHub.OpenStream | tunnel/ctrlhub.go:626-636 | a fresh stream has been sent nothing, whatever the last one of its slot had been sent |
| ControlHub.ControlHub.StartStream | tunnel/ctrlhub.go:623-656 | a fresh stream is told the current table at once, exactly unless the table is empty |
| ControlHub.ControlHub.HandleClaim | tunnel/ctrlhub.go:709-741 | an empty incremental message never reaches the table; any other is applied and published |
| ControlHub.ControlHub.SweepTick | tunnel/ctrlhub.go:212-226 | a sweep publishes exactly when it withdrew something |
| Protocol.SettledSpokeHasTheTable | tunnel/ctrlhub.go:746-776 | in every run, with any number of publishes under way at once: the spoke of a live stream that was marked with the present revision, is drained and has no write of it pending has installed exactly the hub's present table; no spoke is ever ahead of the hub |
| Protocol.SentSpokeHasTheTable | tunnel/ctrlhub.go:746-776 | and so has a spoke whose own slot says that the present revision was sent on it, once that stream is drained with no write of it pending |
| Protocol.PublishSettles | tunnel/ctrlhub.go:746-776 | once a publish of the present table has marked its targets, then until the table changes, whatever older publishes do meanwhile: every stream attached at that moment is marked with the present revision, and brings its spoke the table if it lives to be drained |
| Protocol.SinkIsTheTable | tunnel/ctrlhub.go:746-832 | in every run, once the present revision was published and no publish is about to install it: routes were set, and they are the present table's exactly when that table gives what it gave when the publish that set them last had read them; that was at the present revision exactly unless that set was stale |
| Protocol.SinkIsWhatWasRead | tunnel/ctrlhub.go:793-832 | in every run what the hub has installed is what its table gave at the moment the publish that set routes last had read them |
| Protocol.StaleInstallIsReachable | tunnel/ctrlhub.go:746-832 | routes are set late in a concrete run: every publish is over, the present revision is published, the table has a route and the hub has installed none |
| Protocol.PublishAlone | tunnel/ctrlhub.go:746-776 | without interruption, the steps of a publish are the one step that `ControlHub.Publish` is proved to take, in whatever order the targets are written to |
| HubSteps.OpenAlone | tunnel/ctrlhub.go:546-636 | a control stream that is accepted, from a spoke with or without a slot, is in the system what `ControlHub.OpenStream` is proved to do |
| HubSteps.CloseAlone | tunnel/ctrlhub.go:626-680 | the death of a slot's stream is `ControlHub.CloseStream`, that of one no slot holds any more is nothing to the hub |
| HubSteps.RegisterAlone | tunnel/ctrlhub.go:236-255 | enrolling a spoke is `ControlHub.Register` |
| HubSteps.UnregisterAlone | tunnel/ctrlhub.go:257-281 | taking a spoke out is `ControlHub.Unregister` |
| Carriers.StaticIsCarriedByVia | tunnel/ctrlhub.go:793-832 | the hub installs an operator's route to the first member with the address it goes by, with the operator's readers; one that goes by nobody, or by a member without a key, it does not install |
| Carriers.ClaimIsCarriedByItsSpoke | tunnel/rib.go:610-630 | in every run a spoke's route is installed to the spoke that claimed it, for everybody |
| Carriers.MessageSaysTheTable | tunnel/rib.go:552-591 | a netview names hub, run, revision and members, and has exactly one row for each route, longer prefixes first, saying its prefix, claimant and readers |
| Carriers.InstallSaysTheNetview | tunnel/netview_router.go:111-177 | an accepted netview is what the router then says: the gateway is the first row of the hub's key, the routes are the masked prefixes of the rows that parse, longer ones first |
| Carriers.LookupUnmaps | tunnel/netview_router.go:240-255 | a destination spelled ::ffff:a is looked up as a, any other as it is |
| Protocol.SettledLookupAgrees | tunnel/netview_router.go:240-255 | in every run a settled spoke's lookup finds the one longest prefix of the hub's own table, and nothing only when the hub has no route |
| Protocol.SpokeNeverGoesBack | tunnel/netview_router.go:111-124 | in every run a spoke's revision within the generation never falls, under delay, loss, replay and reconnection |
| Protocol.SpokeHoldsTheHighest | tunnel/netview_router.go:111-177 | in every run a spoke holds the highest revision ever delivered to it, however late and often the netviews came |
| PeerFilter.PeerFilter.SetPolicy | tunnel/peerfilter.go:51-99 | the policy in force says what the netview's members and claims and the trimmed block list say; with no key left to block there is none |
| PeerFilter.PeerFilter.Blocked | tunnel/peerfilter.go:144-158 | an address is blocked exactly when its owner is: an exact member's key, else the owner of a longest containing claim |
| PeerFilter.OwnerIsUnique | tunnel/peerfilter.go:144-158 | over a table with each prefix once an address has one owner |
| PeerFilter.OwnersAreMembersFirst | tunnel/peerfilter.go:51-158 | a member's own address is the last such row's, whatever claims cover it; any other is a longest containing claim's |
| PeerFilter.OwnedAreTheRows | tunnel/peerfilter.go:51-99 | the claims that decide are the rows that parse, masked, each its origin's |
| PeerFilter.BlockedAreTheEntries | tunnel/peerfilter.go:51-99 | a key is blocked exactly if it is not blank and some entry, trimmed, is that key |
| LastAddr.FillHostBits | tunnel/tunip.go:446-470 | the byte loop sets exactly the host bits |
| LastAddr.LastAddrIn | tunnel/tunip.go:446-470 | the byte loop's result is the base plus 2^(width - bits) - 1 |
| TunIP.NextFreeIsExact | tunnel/tunip.go:362-403 | the search gives the least address that is handed out and free in the first subnet that has one, and none exactly when every one is taken |
| TunIP.FreeAddrIn | tunnel/tunip.go:381-403 | the walk over a subnet computes that least free address, and ends at the end of the family |
| TunIP.NextFreeAddr | tunnel/tunip.go:362-375 | the loop over the subnets computes the search |
| TunIP.ValidatePeerIP | tunnel/tunip.go:129-197 | a typed address is admitted exactly when, unmapped, it is not the hub's and some subnet hands it out |
| TunIP.AssignPeerIPs | tunnel/tunip.go:220-255 | blank rows are filled in order with the next free address, typed rows are kept; it fails exactly when a blank row finds none |
| TunIP.AssignsIffEnough | tunnel/tunip.go:220-255 | filling succeeds exactly when the blank rows are at most as many as the free addresses of the union of the subnets |
| TunIP.AssignableIsAllocatable | tunnel/tunip.go:129-197 | a typed address is admitted exactly when the search returns it, unmapped, for some set of taken addresses that has the hub's own |
| TunIP.BaseIffLong | tunnel/tunip.go:405-429 | an IPv6 subnet hands out everything but its base, and the base, to its first spoke, exactly when it is a /31 or longer |
| TunIP.ShortSubnetKeepsBase | tunnel/tunip.go:412-417 | ::/16 keeps its base, against the comment |
| Assignment.AllocatePeerIPs | tunnel/tunip.go:276-353 | the door accepts exactly rows that parse, are routable and repeat no address, and then fills the blank ones |
| Assignment.HonorablePeerIPs | tunnel/tun.go:352-421 | whatever order the map is walked in, kept are exactly the routable rows that repeat no address and share none with another routable row |
| Assignment.DistinctSlotsAreApart | tunnel/tunip.go:318-340 | no slot repeated is the same as no address within a row twice and none in two rows |
| DoorAndFilter.DoorPromises | tunnel/tunip.go:220-353 | when the door succeeds typed rows are unchanged; every peer has a row and none is blank; each blank one is given a single address of its own, free until then, that the search comes to; filling again changes nothing |
| DoorAndFilter.DoorAndFilterAgree | tunnel/tun.go:352-421 | on any hub: the filter keeps whole what the door saves, and the door takes it again unchanged, exactly when every free address the search comes to - fewer free ones lie before it than there are blank rows - is routable when unmapped, no typed row's, and spelled by no other |
| DoorAndFilter.GivenIffReached | tunnel/tunip.go:220-255 | a free address is handed out exactly when fewer free ones lie before it, in the order of the search, than there are blank rows |
| DoorAndFilter.ClearIffNotNamed | tunnel/tun.go:352-421 | where the search comes to no mapped address, that condition is that it comes to none that a typed row names |
| DoorAndFilter.UnmappedIsClear | tunnel/tunip.go:230-235 | and rows written unmapped meet it |
| DoorAndFilter.FilterKeepsApart | tunnel/tun.go:352-421 | the filter drops nothing exactly when every row is routable and no address is named twice |
| DoorAndFilter.MappedRowCollides | tunnel/tunip.go:230-235 | the exception is real: beside a row typed ::ffff:a a blank row is given a, and the filter drops both |
| Hosts.V4Hosts | tunnel/tunip.go:405-440 | an IPv4 subnet hands out, in numbers, base to base + 2^(32 - bits), less the base below /31 and the last address below /30 |
| Hosts.V6Hosts | tunnel/tunip.go:405-440 | an IPv6 subnet hands out everything, less the base below /31 |
| Hosts.AdmittedAreHosts | tunnel/tunip.go:129-197 | a typed address is admitted exactly when, unmapped, it is in those numbers for some subnet and not the hub's |
| Hosts.FilledInOrder | tunnel/tunip.go:220-255 | of two blank rows the one listed first is given the address the search comes to first |
| Hosts.DoorIsExact | tunnel/tunip.go:276-353 | the door accepts exactly when every row parses, names only hosts of the subnets if there are any, no address is named twice however spelled, and the free addresses suffice for the blank rows |
| Hosts.FilterIsExact | tunnel/tun.go:352-421 | the filter keeps a row exactly when it is usable and none of its addresses is named a second time by it or by another usable row |
| Net.MappedForm | tunnel/tunip.go:129-197 | the addresses that unmapping changes are those whose bits above the low 32 are 16 ones, and each becomes the IPv4 address in its low 32 |
| Authorizer.SpokeAuthorizer.Set | tunnel/tun_authorizer.go:69-82 | the assignment held is every row that parses, unmapped, empty ones too |
| Authorizer.SpokeAuthorizer.Authorize | tunnel/tun_authorizer.go:122-225 | true exactly when the context is live and the unmapped claim is a rearrangement of the peer's row, which repeats nothing |
| Authorizer.SpokeAuthorizer.Members | tunnel/tun_authorizer.go:92-114 | every address of every assigned row, as often as the row has it, sorted by key and then by its text |
| Authorizer.MembersAreCanonical | tunnel/tun_authorizer.go:92-114 | the list depends on the assignment alone and not on the order of its map |
| Authorizer.SweepIsPermutation | tunnel/tun_authorizer.go:184-225 | equal length and a sweep that uses each wanted address up make a permutation |
| Authorizer.OneHolderPerAddress | tunnel/tun_authorizer.go:122-225 | over rows that passed the filter two different peers can never both be authorized for one address |
| Authorizer.FilterOnlyRefuses | tunnel/tun.go:282-300 | over the filtered rows a claim is authorized exactly when its row is in force and it would be over the unfiltered ones |
| Authorizer.HeldIsExact | tunnel/tun_authorizer.go:122-225 | in terms of the rows: a claim is granted exactly when the peer has a row that parses, the claim has as many addresses, each readable and in one spelling or another in the row, and none twice |
| Authorizer.MembersAreInOrder | tunnel/tun_authorizer.go:92-114 | the list goes by key, and for one key by the address's text |
| SmuxWrite.SentIsPrefix | extension/lib/smux.js:417-461 | under any interleaving the payloads sent are a prefix of the accepted writes in call order, every frame holds 1 to 32768 bytes, no data follows a FIN, and a waiting writer has no window |
| SmuxWrite.GracefulCloseSendsAll | extension/lib/smux.js:481-512 | a graceful close that finishes, undisturbed, has sent everything accepted and a FIN |
| SmuxFins.FinsAreCloses | extension/lib/smux.js:481-512 | in every run the FINs sent and the closes still queued are as many as the close calls, graceful or forced, that found the stream not closed; at most as many once the session was closed |
| SmuxFins.OneFinIffOneClose | extension/lib/smux.js:481-512 | so a stream sends one FIN at most if one close call at most finds it open, and, once its tail has run out in an open session, only then |
| SmuxFins.ClosingTwiceSendsTwoFins | extension/lib/smux.js:493-512 | it does happen: concrete runs in which two graceful closes, or a graceful and a forced one, send two FINs |
| SmuxEnds.AcceptedAreWrittenWhileOpen | extension/lib/smux.js:417-430 | in every run the writes taken are those called before the first close, the peer's FIN or the session's end, all of them, in that order |
| SmuxEnds.NoDataAfterTheEnd | extension/lib/smux.js:417-461 | once a stream is closed or its peer has finished no more of its data is sent, whatever follows |
| SmuxEnds.NothingAfterTheSession | extension/lib/smux.js:336-356 | once the session is closed nothing leaves the stream |
| SmuxEnds.ForcedCloseIsNow | extension/lib/smux.js:481-491 | a forced close of an open stream sends its FIN at once, and what was queued is never sent |
| SmuxEnds.EndsWakeTheWriter | extension/lib/smux.js:481-512 | whatever ends an open stream wakes the writer that waits; a graceful close queues itself behind the writes taken and sends nothing itself |
| SmuxEnds.SendsAsMuchAsItMay | extension/lib/smux.js:417-461 | a turn that sends data sends all that is left, the whole window, or 32768 bytes, whichever is least |
| SmuxEnds.FirstWindow | extension/lib/smux.js:417-461 | until the peer has given credit a stream sends 262144 bytes at most |
| SmuxEnds.WaitingReads | extension/lib/smux.js:208-223 | in every run a read waits only where nothing is queued and the peer has not finished; one waits on a closed stream exactly if the end of a graceful close found it waiting |
| SmuxEnds.NextFrameEndsTheWait | extension/lib/smux.js:208-223 | in every run the next frame ends the read that waits: data is handed to it, and a FIN gives it nothing |
| SmuxEnds.WaitingReadCameAfter | extension/lib/smux.js:493-500 | a read that waits on an open stream was called after the last graceful close began |
| SmuxEnds.LateReadWaitsForEver | extension/lib/smux.js:385-404 | a read that waits on a closed stream waits for ever |
| SmuxEnds.ReadMayBeLate | extension/lib/smux.js:481-512 | it does happen: a read called while a graceful close drains |
| SmuxEnds.CreditWhenDue | extension/lib/smux.js:385-404 | in every run a read credits all that was read by then, exactly if it is the first of any bytes or brings what is not yet credited to 524288 bytes |
| SmuxEnds.CreditWhenTaken | extension/lib/smux.js:385-404 | and so does one that waited, when it takes what it was handed |
| SmuxEnds.CreditIsTold | extension/lib/smux.js:225-242 | a credit that reaches the writer tells it the count modulo 2^32 and a window of 1048576 bytes, and wakes it exactly if it may write |
| SmuxEnds.NoCreditAfterTheSession | extension/lib/smux.js:252-272 | a closed session gives no more credit |
| SmuxEnds.LimitsInNumbers | extension/lib/smux.js:385-461 | in every run of two connected streams: at most 1048576 bytes unacknowledged or unread, less than 524288 read and not credited |
| SmuxStream.Stream.Write | extension/lib/smux.js:417-429 | a write is refused exactly on a closed, closing or remotely closed stream, and otherwise queued behind the others |
| SmuxStream.Stream.SendChunk | extension/lib/smux.js:452-459 | one frame: as much as window, data and frame size allow, counted |
| SmuxStream.Stream.WriteSync | extension/lib/smux.js:431-461 | the write loop takes turns of the write machine until the write is over or waits for the window |
| SmuxStream.Stream.HandleUpd | extension/lib/smux.js:225-243 | both counters are replaced, and a waiting writer goes on exactly when the window is open |
| SmuxStream.Stream.HandleFin | extension/lib/smux.js:208-223 | a remote FIN ends waiting reads and writes and keeps what is queued |
| SmuxStream.Stream.Close | extension/lib/smux.js:481-512 | forced: FIN at once; graceful: new writes refused, the FIN queued behind the old ones |
| SmuxStream.Stream.FinishClose | extension/lib/smux.js:504-511 | the queued close sends its FIN and takes the stream out of the session |
| SmuxStream.Stream.CloseSession | extension/lib/smux.js:105-124 | closing the session closes the stream and silences it |
| SmuxStream.Stream.PushData | extension/lib/smux.js:336-344 | data goes to the waiting read, else to the end of the queue, else nowhere |
| SmuxStream.Stream.AccountRead | extension/lib/smux.js:347-356 | credit is sent on the first read and after half a buffer |
| SmuxStream.Stream.Read | extension/lib/smux.js:385-404 | a read gives the queue's first chunk exactly on an open stream that has one, waits exactly on an open one that has none and no remote FIN, and else ends |
| SmuxStream.TurnsAreARun | extension/lib/smux.js:431-461 | turns of the write loop are runs of the stream's events, so what holds in every run holds of them |
| SmuxFlow.NothingIsLost | extension/lib/smux.js:336-344 | in every run of two connected streams, what reads were given and what is queued is exactly the data delivered, and what is in the channel follows it |
| SmuxFlow.UnreadFitsTheBuffer | extension/lib/smux.js:245-249 | in every run unacknowledged bytes are within the peer's window and unread bytes within 1 MiB |
| SmuxFlow.DrainedWriterMayWrite | extension/lib/smux.js:225-249 | with everything delivered and read, the writer has a window exactly when fewer than 2^32 bytes were credited |
| SmuxFlow.ShortStreamNeverStalls | extension/lib/smux.js:225-249 | a stream of fewer than 2^32 bytes has no credit deadlock |
| SmuxFlow.LongStreamStalls | extension/lib/smux.js:266-272 | a stream of 2^32 bytes and half a buffer is over: no window is left, and whatever happens next there is none and nothing more is sent |
| SmuxFlow.StallIsForGood | extension/lib/smux.js:225-272 | without a window, and with no update or data under way, every continuation leaves it so |
| SmuxFlow.StallIsReachable | extension/lib/smux.js:266-272 | there is a run that ends so, with both ends open and idle |
| SmuxFrames.FrameRoundTrip | extension/lib/smux.js:253-264 | a frame is read back as written exactly when its length and stream id fit their fields |
| SmuxFrames.FramesArrive | extension/lib/smux.js:146-161 | frames written by one end are read by the other, however the bytes are cut up |
| SmuxFrames.SmuxServer.Feed | extension/lib/smux.js:89-102 | dispatched and buffered are the frames and the rest of everything fed |
| SmuxFrames.SmuxServer.ProcessFrames | extension/lib/smux.js:146-161 | the loop takes every whole frame off the buffer, in order |
| SmuxFrames.SmuxServer.BuildFrame | extension/lib/smux.js:253-264 | the bytes of a frame, header little-endian |
| SmuxWire.WritesArrive | extension/lib/smux.js:146-161 | whatever happened to a stream, whatever other streams and updates share the session, and however its output is cut up: the peer decodes exactly the frames sent, and the stream's own payloads among them are a prefix of its accepted writes |
| WireBytes.SmuxFrameBytes | extension/lib/smux.js:252-264 | in numbers: version, command, a length of two bytes and an id of four, least significant first, and the data |
| WireBytes.SmuxFrameIsRead | extension/lib/smux.js:146-161 | a buffer's head is a frame exactly when all of it is there, and is then the frame those bytes say |
| WireBytes.SmuxCommands | extension/lib/smux.js:253-275 | version 2; command 2 with data, 1 for the end |
| Framing.SplitsDoNotMatter | extension/lib/smux.js:89-102 | any decoder that keeps what it cannot use yet finds the same frames however the stream is split |
| WsFrames.FrameRoundTrip | extension/lib/ws-codec.js:102-148 | a frame written in any of the three length forms, with any reserved bits, masked or not, is read back: finality, opcode, payload |
| WsFrames.ParseSeesThrough | extension/lib/ws-codec.js:102-148 | a frame that is there stays there when more bytes follow |
| WsCodec.ItemsAreTold | extension/lib/ws-codec.js:150-170 | fragmented messages with control frames between the fragments are told whole, in order, with the controls |
| WsDecoding.MessagesArrive | extension/lib/ws-codec.js:84-171 | any well-formed sequence of messages, written anyhow and split anyhow, is told as just those messages |
| WsDecoding.SplitsDoNotMatter | extension/lib/ws-codec.js:120-126 | decoding is independent of the split exactly for streams that hold no length beyond 32 bits or end with its header |
| Dropping.SplitIndependence | extension/lib/ws-codec.js:120-126 | the same for any decoder that drops its buffer on an alarm |
| WsDecoding.WsDecoder.Push | extension/lib/ws-codec.js:84-90 | the bytes are appended |
| WsDecoding.WsDecoder.ParseAll | extension/lib/ws-codec.js:92-100 | everything at the head of the buffer is taken, and told as the frames say |
| WsDecoding.WsDecoder.ParseOne | extension/lib/ws-codec.js:102-171 | one frame, or a drop, or nothing yet |
| WsDecoding.EncodeWsFrame | extension/lib/ws-codec.js:179-217 | the encoder writes the frame in the shortest length form, masked with the given key or not at all |
| WsDecoding.DecodeEncoded | extension/lib/ws-codec.js:179-217 | decoding what the encoder wrote gives back opcode and payload, whatever follows |
| WsBytes.ParseIsExact | extension/lib/ws-codec.js:102-148 | bit for bit, for any buffer: nothing yet exactly while length or payload is not all there; oversize exactly beyond 32 bits; else final bit, opcode and length are those the bytes say, and bit j of payload byte i differs from the wire's exactly when bit j of the key's byte i mod 4 is set |
| WsBytes.WrittenIsEncoded | extension/lib/ws-codec.js:179-217 | what the encoder writes, bit for bit in the same terms, the length in its shortest form |
| WsBytes.XorIsBitwise | extension/lib/ws-codec.js:140-146 | each bit of an exclusive or is set exactly when the two bits differ |
| WsBytes.OpcodesInNumbers | extension/lib/ws-codec.js:150-170 | what is told of a frame, opcode by opcode |
| Chunked.ReadChunkedBody | extension/lib/tunnel-connection.js:457-522 | the loops read what the specification reads from the chunks as they come; and where no size met is below zero, that is what the bytes decode to |
| Chunked.ReadsTheBytes | extension/lib/tunnel-connection.js:457-522 | where no size met is below zero the result is that of the bytes alone, not of how many came with the header nor of how the rest was split |
| ChunkedSplits.NegativeSizesSplit | extension/lib/tunnel-connection.js:476-513 | in every stream that meets a size below zero the split matters from there on: after the bytes up to the end of that line, some bytes to follow are read in two ways |
| ChunkedSplits.NegativeStays | extension/lib/tunnel-connection.js:476-513 | and whatever follows, the stream meets that size there |
| ChunkedSplits.HarmlessHere | extension/lib/tunnel-connection.js:503-513 | it need not matter in a given stream: one with a size below zero is an empty body however it comes |
| ChunkedSplits.NegativeSizeSplits | extension/lib/tunnel-connection.js:503-513 | a concrete one: the same bytes, split in two ways, are an empty body and an error |
| Chunked.IndexOfCrlf | extension/lib/tunnel-connection.js:532-541 | the first CR LF, or none |
| Chunked.SizeIsRead | extension/lib/tunnel-connection.js:476-478 | a printed hexadecimal size is read back |
| ChunkSizes.SizeIsItsDigits | extension/lib/tunnel-connection.js:476-478 | a size line of digits in either letter case, with spaces before them, a sign or none, "0x" or not, and any extension after a semicolon, says the number its digits are |
| Chunked.ChunkedRoundTrip | extension/lib/tunnel-connection.js:457-522 | for every list of chunks the reader gives back the concatenation of what was wrapped and terminated, whatever follows |
| Chunked.PipedBodyArrives | extension/lib/forwarder.js:402-430 | a piped body, split anyhow into carry and stream reads, is read back whole |
| Chunked.ChunkedWrap | extension/lib/forwarder.js:436-445 | size in hexadecimal, CR LF, data, CR LF |
| Chunked.PipeBody | extension/lib/forwarder.js:402-430 | a chunk for every value that is not empty, then the terminator |
| Ctrl.Conn.ReadMessage | tunnel/ctrl.go:107-156 | one read: magic words skipped, a refusal with the body consumed, a desync with the body unread, or the end |
| Ctrl.Conn.WriteMessage | tunnel/ctrl.go:73-88 | a message is written whole, length first, exactly when it is within the limit |
| Ctrl.FramesAreReadInOrder | tunnel/ctrl.go:107-156 | bodies of legal size with magic words before any of them are each judged once and in order; a refused one costs nothing but itself |
| Ctrl.MessagesArrive | tunnel/ctrl.go:73-156 | the messages one end writes are the messages the other reads |
| Ctrl.NoLegalLengthIsTheMagic | tunnel/ctrl.go:100-118 | no length a message may have reads as the magic word |
| Ctrl.OversizeLosesTheFrame | tunnel/ctrl.go:118-121 | a length beyond the limit leaves the reader at the body, and is told apart |
| WireBytes.CtrlFrameBytes | tunnel/ctrl.go:73-88 | in numbers: the length in four bytes, most significant first, and the body |
| WireBytes.CtrlReadBytes | tunnel/ctrl.go:107-156 | one read of bytes that do not begin with the magic word: the end if they are cut short, lost beyond 65536, else the body is judged and the rest left |
| WireBytes.JudgedByItsHead | tunnel/ctrl.go:126-156 | a body is a message exactly when its head says version 1 and a known type and it reads as that type |
| LanAllow.RoundTrip | tunnel/ctrlhub.go:926-990 | printing and parsing give back the same policy exactly when keys are single words without "=" and prefixes masked; order within a key and empty rows are kept |
| LanAllow.FormatIsCanonical | tunnel/ctrlhub.go:926-949 | the printed form does not depend on the map's order |
| LanAllow.ParsedIsWritable | tunnel/ctrlhub.go:963-990 | whatever text parses gives a policy that can be written back |
| LanAllow.FormatLanAllow | tunnel/ctrlhub.go:926-949 | the loops print the sorted rows with a space between any two |
| LanAllow.ParseLanAllow | tunnel/ctrlhub.go:963-990 | the loop parses row after row and refuses the whole on one bad row |
| LanRows.OneBadRowRefusesAll | tunnel/ctrlhub.go:963-990 | a text is a policy exactly when every word is a key that is not blank, "=", and nothing or a prefix that parses |
| LanRows.SeparatorsAreAlike | tunnel/ctrlhub.go:963-966 | a comma and any space end a word alike |
| LanRows.RowsAsWritten | tunnel/ctrlhub.go:926-949 | a key alone is written "key=", each of its prefixes "key=prefix", with a space between |
| Words.TrimTakesSpaces | tunnel/ctrlhub.go:963-990 | trimming takes all spaces off both ends and nothing else |
| Words.BeforeIsDictionary | tunnel/ctrlhub.go:926-949 | keys are sorted as in a dictionary: by the first character in which they differ, a proper beginning first |
| QrMath.OrderIs255 | extension/lib/qrcode.js:1138-1150 | no power of the generator before the 255th is 1 again |
| QrMath.EveryByteIsAPower | extension/lib/qrcode.js:1147-1149 | every byte but 0 has a logarithm |
| QrMath.PowerReduction | extension/lib/qrcode.js:1141-1146 | the table's recurrence is multiplication by x in the field |
| QrMath.MulIsProductOfLogs | extension/lib/qrcode.js:1210-1220 | the exponential of a sum of logarithms is the field's product |
| QrMath.FieldInNumbers | extension/lib/qrcode.js:1138-1146 | the field is that of x^8 + x^4 + x^3 + x^2 + 1, and the first eight powers are the single bits |
| QrMath.QRMath.Glog | extension/lib/qrcode.js:1153-1160 | the logarithm, or an exception on 0 |
| QrMath.QRMath.Gexp | extension/lib/qrcode.js:1162-1173 | the power of any exponent, negative or large |
| QrPolynomial.BytesAreAField | extension/lib/qrcode.js:1132-1176 | bytes with exclusive or and this product obey the laws of a field |
| QrErrorCorrection.MakePolynomial | extension/lib/qrcode.js:1182-1199 | leading zeros stripped, the shift left as holes |
| QrErrorCorrection.Multiply | extension/lib/qrcode.js:1210-1221 | the product of polynomials without zero coefficients; an exception on any zero |
| QrErrorCorrection.PolynomialMod | extension/lib/qrcode.js:1223-1243 | the recursive mod, in-place steps and all, ends with the specified remainder; an exception exactly when it is needed and the divisor has a zero coefficient |
| QrPolynomial.ModIsRemainder | extension/lib/qrcode.js:1223-1243 | mod ends with fewer coefficients than the divisor, and they are the remainder of long division, holes read as zero |
| QrPolynomial.BlockIsMultiple | extension/lib/qrcode.js:290-300 | for every data block and every divisor without a zero coefficient, data followed by its codewords is a sum of shifted, scaled copies of the divisor |
| QrGenerator.SyndromesVanish | extension/lib/qrcode.js:290-300 | with the generator as divisor, for any n below 255, the block vanishes at the first n powers |
| QrGenerator.GeneratorVanishes | extension/lib/qrcode.js:966-972 | the generator vanishes there |
| QrGenerator.GeneratorLeadsWithOne | extension/lib/qrcode.js:966-972 | it has degree n and first coefficient 1, so it is the product of the n factors itself |
| QrGenerator.GeneratorIsFull | extension/lib/qrcode.js:966-972 | the generator of fewer than 255 codewords has no zero coefficient |
| PowerProducts.EveryCoefIsNotZero | extension/lib/qrcode.js:966-972 | over any field: a product of x + p(i) with fewer factors than the powers p has different values has no zero coefficient |
| QrGenerator.GeneratorsNeverThrow | extension/lib/qrcode.js:966-972 | so the logarithm of zero is never taken on the way to a generator |
| QrGenerator.GetErrorCorrectPolynomial | extension/lib/qrcode.js:966-972 | the loop computes the generator, or throws exactly when one on the way has a zero coefficient |
| QrErrorCorrection.BlockCodewords | extension/lib/qrcode.js:290-300 | the loop computes the codewords |
| Polynomials.DivisionLaw | extension/lib/qrcode.js:1223-1243 | dividend = quotient times divisor + remainder, over any field in which everything is its own negative |
| QrPlacement.MapData | extension/lib/qrcode.js:216-265 | on any odd grid of side 7 or more with column 6 set, every free module is written once, with the bit whose turn it is, masked; no other is; it ends |
| QrPlacement.VisitedAtItsTime | extension/lib/qrcode.js:224-262 | every module outside the timing column is visited |
| QrPlacement.TimeOfVisit | extension/lib/qrcode.js:224-262 | and only once: each visit has its own time |
| QrPlacement.DataComesBack | extension/lib/qrcode.js:228-254 | unmasking the modules in visiting order gives back the data's bits and then zeros |
| QrZigzag.PathBegins | extension/lib/qrcode.js:216-224 | the path begins in the lower right corner, or beside the timing column if that is there |
| QrZigzag.PathGoesLeft | extension/lib/qrcode.js:226-229 | from the right module of a row it goes to the left one |
| QrZigzag.PathGoesOn | extension/lib/qrcode.js:250-262 | then one row on, up in the first pair of columns, down in the next, and so in turn |
| QrZigzag.PathTurns | extension/lib/qrcode.js:250-262 | at the edge it goes on in the next pair to the left, over the timing column |
| QrZigzag.BitsOfAByte | extension/lib/qrcode.js:232-236 | a byte's bits go out from the most significant to the least, and zeros after the data |
| QrZigzag.ModuleAfterAll | extension/lib/qrcode.js:228-248 | a free module on the path is the next bit, turned where the mask says so; any other stays |
| P2pHostManager.Manager.Reconcile | tunnel/p2p_host.go:841-890 | the loops compute the change of an explicit tunnel's peers and of its own list, and name the mesh routes to tell |
| P2pHostManager.Manager.ReconcileMesh | tunnel/p2p_host.go:760-803 | the loops compute a mesh route's claims: wanted keys held by no explicit tunnel and no other mesh route |
| P2pHostManager.Manager.Unregister | tunnel/p2p_host.go:897-914 | exactly the keys still mapped to the listener go; it is closed exactly when there were any |
| P2pHostManager.Manager.UnregisterMesh | tunnel/p2p_host.go:807-823 | exactly the keys still mapped to the route go |
| P2pHostManager.Manager.Dispatch | tunnel/p2p_host.go:938-960 | explicit first, then mesh, then nobody |
| P2pHost.ReconcileIsAllOrNothing | tunnel/p2p_host.go:841-890 | on a conflict nothing changes; otherwise the tunnel and its own list hold exactly the wanted keys, others what they held, no mesh route any of them |
| P2pHost.ExplicitComesFirst | tunnel/p2p_host.go:938-960 | a stream goes to the explicit tunnel that has its key, else to the mesh route that has it |
| P2pHost.StaleCloseIsHarmless | tunnel/p2p_host.go:807-914 | a stale close takes nothing of a successor's |
| P2pHost.MeshPeersAreExact | tunnel/p2p_host.go:760-803 | setting a mesh route's peers leaves it exactly the wanted keys, trimmed and not blank, that it had or that nobody has; everybody else's stay, and every wanted key becomes known |
| P2pHost.ClosesAreExact | tunnel/p2p_host.go:807-914 | closing takes exactly the route's or the tunnel's keys, and makes unknown exactly those of a mesh route that no explicit tunnel has |
| P2pHost.TeardownIsExact | tunnel/p2p_host.go:459-478 | a teardown leaves nobody to dispatch to and no key known, and every list as it was |
| P2pHost.OneHolderPerKey | tunnel/p2p_host.go:760-914 | in every run no key is both explicit and mesh, and every mesh key is known as one |
| P2pHost.ListsAreExact | tunnel/p2p_host.go:760-914 | in every run without a teardown each mesh route's list is exactly the keys mapped to it |
| P2pHost.TunnelListsAreExact | tunnel/p2p_host.go:841-890 | in every run in which it is not closed and nothing torn down, an explicit listener's own list is exactly the keys routed to it |
| P2pHost.ListIsMended | tunnel/p2p_host.go:760-823 | setting a route's keys, or closing it, makes its list exact again, after a teardown too |
| P2pHost.TeardownLeavesLists | tunnel/p2p_host.go:459-478 | a teardown keeps a list exact exactly when it was empty |
| P2pHost.ListsAreExactUnlessTorn | tunnel/p2p_host.go:459-478 | in every run a mesh route's list is the keys mapped to it, exactly unless a teardown found keys in it and it has not been set since; then it names keys and none is mapped |
| P2pHost.TeardownLeavesAList | tunnel/p2p_host.go:459-478 | a concrete run that leaves a list behind |
| P2pHost.LostKeyComesBack | tunnel/p2p_host.go:760-803 | a key an explicit tunnel took comes back to a mesh route that wants it once the tunnel is closed |
| P2pHost.ListedTwiceIsListedOnce | tunnel/p2p_host.go:841-852 | a peer listed twice is no conflict: all but the listener's own list is as if it were listed once |
| ConfigStore.Store.WriteFile | config/config.go:591-621 | the steps of a write with any of them failing or the program dying before it |
| ConfigStore.Store.ReplaceFile | config/config.go:625-641 | the two renames |
| ConfigStore.Store.LoadFile | config/config.go:481-522 | main file, or nothing if it cannot be read; else, if it is missing or damaged, backup and a rewrite that does not rotate; else nothing |
| ConfigStore.WriteIsAtomic | config/config.go:591-641 | what a start finds changes at the last rename and at no other moment; done means published, failed means not; the backup is what was there before |
| ConfigStore.NeverLost | config/config.go:481-641 | through any writes and starts with any faults the configuration published last stays published, and a start that can read the files finds it and no other |
| ConfigStore.DoneIsDurable | config/config.go:562-641 | a write told to be done is found until another gets past its last rename |
| ConfigStore.DamageFallsBack | config/config.go:481-522 | when the main file is damaged from outside, the configuration before it is found, if the backup can be read |
| ConfigStore.WriteCleansUp | config/config.go:591-641 | a write that returns has removed its temporary file unless removing failed; the backup is as it was, or the main file that was moved there |
| ConfigStore.LoadKeepsTheBackup | config/config.go:481-522 | a start never touches the backup; it changes the main file only to put damage aside or to restore the backup's configuration |

## Left out

- Sockets, WebSocket and fetch objects, the network stack, iptables, the kernel sync and the browser: only the byte streams, queues and tables at their edge are modelled.
- The counting of installed and withdrawn routes, and frames torn by two unlocked writes to one connection.
- Refusal codes and their wording, the journal, logging, events and counters: only accept or refuse is kept.
- Unsigned 64-bit wrap-around of the table's revision: it is a natural number.
- LiveRib.RibTable.AddStatic: takes the route parsed; the reading of its text (tunnel/rib.go:461-497) is not modelled.
- The text of hub subnets and of address rows: they arrive parsed, or as text that does not parse.
- The merging of aliases, capabilities and disabled flags into the member list: it reaches the table as one `SetMembers`.
- `distinctAddrs` in tunnel/tun.go: it only keeps a refusal from naming an address twice.
- The session's map of streams: a stream is modelled at a time, so a second SYN for a live id is not.
- Two reads of one stream at once: the program keeps one waiting read, and the model has one.
- Keepalive timers, and the callbacks a dispatched frame may run.
- The aliasing of byte arrays between a caller, a frame and a buffer: bytes are values.
- Chunked.ReadChunkedBody: sizes are not rounded as floating point, and spaces outside ASCII and a byte order mark are not skipped.
- The interleaving of blocks in `createBytes`, the choice of the mask, the fixed patterns, the format and version information, and rendering.
- P2pHostManager.Manager.Reconcile: listeners are ids and their peer lists maps of the manager's, and an explicit listener's list is set in the same step as its keys; the traffic counters of a listener, and the pending list, are not modelled.
- ConfigStore.Store.LoadFile: file modes, and the name a damaged file is kept under are not modelled.
- Strings that are not valid UTF-8.
