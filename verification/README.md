# pimc: verified model of the PIM Join/Prune updates

pimc is a PIM-SM Join/Prune generator. From a configuration of multicast groups it packs Join/Prune
updates, sends them periodically between Hellos, and undoes them when it stops. This project models that
path for IPv4 and proves what it promises, from the loaded configuration to the state of the neighbor.

A group has a list of sources to join, which may be split over updates, and an optional RPT block: an RP
join and up to 180 `(S,G,rpt)` prunes, which must stay in one message. An update holds 1466 bytes of entries.

Code that works in place is modelled by classes and loops (builders, builder queue and cursor, packers,
converters, packet writer, timer, events, loader), and each method is proved equal to a specification
function. The theorems are about those functions:

- `FirstFit` and `InverseFit` define both packings as plain scans, with no builders, no cursor and no start
  index. The packers of `Packer` and `InversePacker`, which work on the shared growing queue of `Builders`,
  compute exactly these.
- `PackTheorems`, `Conservation` and `InverseTheorems` prove density, capacity, shape and conservation, and
  exactly when the inverse packer loses an RP prune. `Placement` tells where a group goes, of the updates before and
  after alone: first fit, as full as can be, in the order of the configuration.
- `Neighbor`, `Goodbye` and `EndToEnd` say what a receiver by sections 4.5.1 to 4.5.3 of RFC 7761 makes of the
  updates, message by message and over whole runs, also those that fail, and from the bytes of the packets on.
  `Expiry` gives the receiver timers and shows that they never run out while pimc runs on a steady clock.
- `Mentions` counts what arbitrary updates list, source by source, and what exactly counted updates do to a neighbor.
  `Checker` and `InverseChecker` prove the two sanity checks exact against that count; `RoundTrip` and `Startup` prove
  what they say of packed updates, and so which configurations pimc starts with.
- `Checksum`, `Wire` and `UpdatePacket` are the packet, against RFC 1071 and section 4.9.5 of RFC 7761.
- `Scheduler` and `Timing` are the main loop; `Loader` is where the packer's assumptions come from, so that the
  main results can be read from the configuration's text on (`RoundTrip.LoadedVerifies`, `Startup.LoadAndBuild`);
  `WordWrap` is the formatter of help texts.

## Where the code and its promises disagree

The model follows the code.

- `inversePack` drops the RP prune of a group with sources when the first update with room has room for just
  one source: the entry is built and then `continue` skips adding it (apps/pimc/pimsm/InversePack.hpp:128-133).
  `InverseTheorems.DropsExactly` gives the condition, arithmetic on the numbers of sources, and
  `Startup.LoadAndBuild` the consequence: pimc refuses to start with such a configuration. The input of
  `Startup.StartRefused` is one, 232.0.0.1 with 179 sources before 232.0.0.2 with an RP and a source.
- A group whose `Join` list is empty loads (apps/pimc/config/MulticastConfigLoader.hpp:76-87), packs to nothing
  and then fails the sanity check. `RoundTrip.PackedVerifies` is an if-and-only-if for this reason, and
  `RoundTrip.EmptyJoinFails` is such an input.
- The checksum starts from 0xffff, so data that is all zero gives 0 where RFC 1071 gives 0xffff
  (`Checksum.ChecksumIsRfc`). No PIM message is all zero.
- A run does not always start with a Hello: one that is stopped before its first tick, or before a tick finds the
  clock back at the time of the timer's creation after it was set back, sends the inverse updates at once, with no
  Hello before them (apps/pimc/scheduler/IPv4Exec.cpp:71-89). `Timing.PlanStartsWithHello` says exactly when, on any
  clock, and `Timing.StoppedAtOnce` has both cases.
- The timer reads the time of day (lib/pimc/time/TimeUtils.hpp:22-27), which can be set back, and then nothing is sent
  until it is where it was: set back by 75 seconds, there is no Hello for the 105 seconds of the hold time
  (`Timing.SilentAfterSetBack`). The timing results therefore ask for a clock that never goes back.
- The checksum's accumulator has 64 bits and wraps; `Checksum.ComputedIsCodeSum` says exactly when that spoils the
  result, and `Checksum.WrapSpoils` is a case. The word wrapper's columns have 32 bits and wrap: behind a word of 2^32
  symbols the next one joins a line that is over its limit (`WordWrap.LongWordWraps`); `WordWrap.GreedyExactly` says
  exactly when.
- A comment says that groups are sorted (apps/pimc/config/JPConfig.hpp:101-102); they keep the order in which they
  are read. Nothing here needs them sorted.
- The start index is set to the last full builder, not behind it. The invariant is therefore that everything
  strictly before it is full.
- The converters redeclare the group address (apps/pimc/pimsm/PackSanityCheck.hpp:106,
  apps/pimc/pimsm/InversePackSanityCheck.hpp:74), so a converted group does not have its own. The comparison
  goes by map key; `ReadGroup` has no address.
- The inverse updates do not undo `(S,G,rpt)` prunes; `Goodbye.Farewell` states that these stay until they expire.

## Model

| member | source | states |
|---|---|---|
| Packer.UpdatePacker.FindRptUb | apps/pimc/pimsm/Pack.hpp:116-125 | The builder reserved for the RPT block has room for it and none before it in the whole queue has, and the search leaves all updates as they are |
| Packer.UpdatePacker.PlaceSources | apps/pimc/pimsm/Pack.hpp:139-150 | A builder that is not reserved takes the next sources, as many as fit and no more than are left, as one entry of plain joins; nothing else changes |
| Packer.UpdatePacker.PlaceBlock | apps/pimc/pimsm/Pack.hpp:151-168 | The reserved builder takes the whole RPT block and as many sources as fit beside it; the subtraction for the block never underflows and the add never raises |
| Packer.UpdatePacker.PlaceBlockAlone | apps/pimc/pimsm/Pack.hpp:172-180 | When the sources run out first, the block goes to the reserved builder, which still has the room found for it |
| Packer.UpdatePacker.Visit | apps/pimc/pimsm/Pack.hpp:139-170 | Each round of the loop keeps the rest of the scan the same and keeps the reservation, and makes progress: a source, the block, or a builder without room passed |
| Packer.UpdatePacker.FitGroup | apps/pimc/pimsm/Pack.hpp:132-181 | Fitting a group from the shared start index gives the updates of the plain scan from the first one; it terminates and nothing raises |
| Packer.Pack | apps/pimc/pimsm/Pack.hpp:201-206 | Packing a configuration yields exactly the plain first-fit packing of its groups in order, without empty updates |
| FirstFit.FirstWithRoom | apps/pimc/pimsm/Pack.hpp:122-124 | First fit: the position found has room and no earlier one has |
| FirstFit.MaxSourcesIs | apps/pimc/pimsm/Pack.hpp:127-130 | The number of sources that fit in some bytes is the largest n with 12 + 8n bytes for it |
| FirstFit.FullIffNoSource | apps/pimc/pimsm/Pack.hpp:92-93 | Full, fewer than 20 bytes left, is the same as having room for no source |
| FirstFit.SpreadFromStart | apps/pimc/pimsm/UBCursor.hpp:73-82 | Skipping ahead is a refinement: if everything before the start index is full, the scan from it gives what the scan from 0 gives, and the block's builder is never before it |
| FirstFit.SpreadSkipsFull | apps/pimc/pimsm/Pack.hpp:127-150 | Full updates are passed over untouched, because they have room for no source |
| FirstFit.SpreadBlockOnly | apps/pimc/pimsm/Pack.hpp:172-180 | Once no source is left, adding the block directly at the reserved builder is what the scan would do |
| Builders.UpdateBuilder.Add | apps/pimc/pimsm/Pack.hpp:64-87 | An entry is added exactly when it fits in what remains of 1466 bytes; otherwise the builder is unchanged |
| Builders.UpdateBuilder.IsFull | apps/pimc/pimsm/Pack.hpp:92-93 | Full means less room than an entry with one source needs |
| Builders.BuilderQueue.AddTo | apps/pimc/pimsm/Pack.hpp:64-68 | Adding changes one update only and keeps the queue's shape: at most the last builder is empty, all builders within capacity, everything before the start index full |
| Builders.BuilderQueue.Build | apps/pimc/pimsm/Pack.hpp:183-192 | Dropping at most one empty builder at the end leaves exactly the non-empty updates |
| Builders.UBCursor.Advance | apps/pimc/pimsm/UBCursor.hpp:46-51 | Moving on grows the queue by one empty builder when it passes the last one, leaves all updates as they are, and keeps the shape unless an empty builder is passed |
| Builders.UBCursor.Add | apps/pimc/pimsm/UBCursor.hpp:65-71 | Adding at the cursor measures the entry before it is moved out, puts it in that update only, and keeps the start index sound |
| Builders.UBCursor.UpdateStart | apps/pimc/pimsm/UBCursor.hpp:73-82 | The start index never goes back, moves only onto full builders, and stops at the cursor or at most one full builder short of a builder with room; the queue never has to grow for it |
| Builders.GroupEntryBuilder.Build | apps/pimc/pimsm/Pack.hpp:47-49 | The entry is what was collected, in order, and the builder is empty afterwards |
| PackTheorems.StepRoom | apps/pimc/pimsm/Pack.hpp:140-168 | Reservation and capacity: a served update stays within 1466 bytes and is full if sources are left over, and the reserved one keeps room for the block until it is served |
| PackTheorems.HomeHasRoom | apps/pimc/pimsm/Pack.hpp:116-125 | A fresh update is reserved only when no existing one has room for the block |
| PackTheorems.BlockFitsIffBounded | lib/pimc/packets/PIMSMv2.hpp:113 | Some update has room for an RPT block if and only if it has at most 180 prunes, so the search ends exactly for those |
| PackTheorems.SpreadDense | apps/pimc/pimsm/Pack.hpp:132-181 | Fitting one group keeps any two updates together above 1466 bytes |
| PackTheorems.PackedDense | apps/pimc/pimsm/Pack.hpp:112-192 | Density: any two packed updates hold more than 1466 bytes together, so n >= 2 updates hold more than n * 733 bytes |
| Conservation.EntriesPut | apps/pimc/pimsm/Pack.hpp:139-150 | Placing an entry leaves the other groups' entries alone and extends its own group's, in order |
| Conservation.FitGroupCarries | apps/pimc/pimsm/Pack.hpp:132-181 | Fitting a group adds entries that join each of its sources once and in order and carry its block once, and changes no other group |
| Conservation.PackedCarries | apps/pimc/pimsm/Pack.hpp:201-206 | Conservation for every configuration: over the updates in order each group joins exactly its sources, in order; its RPT block is there once, whole, in one entry; no other group appears |
| Conservation.BlockIsAtomic | apps/pimc/pimsm/Pack.hpp:158-166 | Atomicity: for every configuration, a packed entry with an RP join or a prune has the RP join and all `(S,G,rpt)` prunes of its group, and no other packed entry of the group has any of them |
| Conservation.PackedGroups | apps/pimc/pimsm/Pack.hpp:132-181 | A configured group appears in the updates if and only if it asks for something |
| Conservation.PackedShape | apps/pimc/pimsm/Pack.hpp:183-192 | No update is empty, above capacity, names a group twice, or has more than 73 entries |
| Placement.FitGroupFirst | apps/pimc/pimsm/Pack.hpp:132-181 | First fit, of the updates before and after: each update gains at most one entry of the group; the block goes to the first update that has 12 + 8 * (prunes + 1) bytes left; sources go to an update only if no more would fit in any update before it |
| Placement.InOrderOfConfig | apps/pimc/pimsm/Pack.hpp:112-114 | In every packed and every inverse update the entries are in the order of the configuration |
| Neighbor.WantedIs | apps/pimc/pimsm/Pack.hpp:143-164 | The state that a configuration asks for, group by group: its sources joined, its RP joined with exactly its prunes, and nothing for other groups |
| Neighbor.BlockEffect | apps/pimc/pimsm/Pack.hpp:158-166 | Whatever the neighbor had before, after an RPT block the prunes of the group are exactly those of the block, and the RP is its RP |
| Neighbor.MessageEffect | apps/pimc/pimsm/Pack.hpp:132-181 | Any one packed update only adds wanted state at the neighbor, and shows all it asks for at the end of that message |
| Neighbor.NeighborFollows | apps/pimc/pimsm/Pack.hpp:132-181 | Soft state: with updates lost, repeated or reordered at will, the neighbor's state grows only towards the configured one, is exactly that once each has arrived, and stays so after every further message |
| Neighbor.NeighborRepaired | apps/pimc/pimsm/Pack.hpp:132-181 | Repair: from any state at all, once each update has arrived, every group with an RPT has exactly the configured RP and prunes, stale ones being gone, every configured source is joined, and nothing else has changed |
| Neighbor.LoneJoinForgets | apps/pimc/pimsm/Pack.hpp:151-168 | Why a block is not split: a message with the RP join but without one of the prunes makes the neighbor forget that prune |
| InversePacker.InverseUpdatePacker.Round | apps/pimc/pimsm/InversePack.hpp:122-141 | Each round of the loop, that of the early `continue` included, keeps the rest of the scan the same and makes progress |
| InversePacker.InverseUpdatePacker.FitGroup | apps/pimc/pimsm/InversePack.hpp:116-153 | Fitting a group's prunes gives the plain scan of its prunes, without the RP prune exactly when the first update with room has room for one source and the group has sources |
| InversePacker.InverseUpdatePacker.PlaceRP | apps/pimc/pimsm/InversePack.hpp:143-152 | A group without sources gets its RP prune into the first update with room |
| InversePacker.InverseUpdatePacker.DropDecided | apps/pimc/pimsm/InversePack.hpp:128-133 | When a pending RP prune reaches the first update with room, it is dropped if and only if there is room for exactly one source |
| InversePacker.InversePack | apps/pimc/pimsm/InversePack.hpp:173-178 | The inverse packing yields exactly the plain scan, for every configuration |
| InverseTheorems.InverseCarries | apps/pimc/pimsm/InversePack.hpp:116-153 | Conservation: each group prunes its RP first, unless it is dropped, and then exactly its sources, once and in order; no other group appears |
| InverseTheorems.InverseDense | apps/pimc/pimsm/InversePack.hpp:122-164 | Every inverse update but the last has fewer than 20 unused bytes, whether or not prunes are dropped |
| InverseTheorems.SpreadPrunesTight | apps/pimc/pimsm/InversePack.hpp:122-141 | The room left in the last update is the room before less the prunes if these fit, and else that of the overflow modulo 181 |
| InverseTheorems.DropsExactly | apps/pimc/pimsm/InversePack.hpp:123-133 | The exact condition: a group with sources loses its RP prune if and only if the prunes of the groups before it, by arithmetic on their numbers of sources, leave 20 to 27 bytes in the last update |
| InverseTheorems.DropWitness | apps/pimc/pimsm/InversePack.hpp:128-133 | A group of 179 sources before any group with an RP and sources makes the latter lose its RP prune |
| Placement.PruneGroupFirst | apps/pimc/pimsm/InversePack.hpp:122-141 | Each update gains at most one entry of the group, and prunes go to an update only if no more would fit in any before it |
| Placement.PrunesInOrder | apps/pimc/pimsm/InversePack.hpp:126-138 | The prunes of a group over the inverse updates are, in order, its RP unless that is dropped, with both bits, and each of its sources, with none |
| Placement.DropsInBytes | apps/pimc/pimsm/InversePack.hpp:123-133 | The dropped prune in bytes: the group has an RP and sources, and the inverse updates of the groups before it leave 20 to 27 bytes of 1466 in the last one |
| Placement.DropsBehind | apps/pimc/pimsm/InversePack.hpp:123-133 | Behind a single group without an RP that is so if and only if it has 179 sources modulo 181 |
| InverseTheorems.InverseShape | apps/pimc/pimsm/InversePack.hpp:155-164 | No inverse update is empty, above capacity, names a group twice, or has more than 73 entries |
| Checker.JoinStep | apps/pimc/pimsm/PackSanityCheck.hpp:29-56 | A joined source more keeps the entries acceptable if and only if its bits are right and it is new, a first RP, or not pruned |
| Checker.PruneStep | apps/pimc/pimsm/PackSanityCheck.hpp:63-82 | A pruned source more keeps them acceptable if and only if an RP join came before, its bits are right, and it is neither pruned nor joined |
| Checker.NoRp | apps/pimc/pimsm/PackSanityCheck.hpp:58-61 | Prunes before any RP join of the group cannot become acceptable by what follows in the entry |
| Checker.GroupEntryConverter.Add | apps/pimc/pimsm/PackSanityCheck.hpp:28-84 | Folding an entry in keeps the failed flag equal to "the entries so far are faulty" and the fields equal to what they ask for |
| Checker.GroupEntryConverter.Convert | apps/pimc/pimsm/PackSanityCheck.hpp:86-103 | Conversion succeeds if and only if the entries are without fault, and reads back what they ask for |
| Checker.ConvertUpdates | apps/pimc/pimsm/PackSanityCheck.hpp:113-145 | Updates convert if and only if every group's entries, in order over all updates, are without fault; the result has exactly the groups that appear |
| Checker.CompareAddrSets | apps/pimc/pimsm/SanityCheckUtils.hpp:37-55 | Both differences of two address sets |
| Checker.CompareGroup | apps/pimc/pimsm/PackSanityCheck.hpp:155-206 | Two groups compare as the same if and only if sources, RP and prunes agree as sets |
| Checker.CompareConfigs | apps/pimc/pimsm/PackSanityCheck.hpp:211-252 | Two configurations compare as the same if and only if the groups are the same and each compares as the same |
| Checker.SameIffAsks | apps/pimc/pimsm/PackSanityCheck.hpp:155-206 | Faultless entries compare as the original if and only if they ask for what it asks for |
| Checker.VerifyUpdates | apps/pimc/pimsm/PackSanityCheck.hpp:256-276 | Exactness for arbitrary updates: for a loaded configuration, success if and only if the groups are the configured ones and, counted over all entries, each configured source, RP and prune is listed once with its bits and nothing else is, no prune before its RP; and a neighbor that receives accepted updates in order from nothing is then in exactly the configured state |
| Checker.VerifiedIffExact | apps/pimc/pimsm/PackSanityCheck.hpp:113-276 | The account by groups, with duplicates and set differences, and the account by counting mentions agree for every loaded configuration |
| Mentions.ExactTakesEffect | apps/pimc/pimsm/PackSanityCheck.hpp:256-276 | Updates that list a configuration exactly, however they are split and ordered, take a neighbor from nothing to exactly the configured state |
| RoundTrip.PackedVerifies | apps/pimc/pimsm/PackSanityCheck.hpp:256-276 | Round trip: for every loaded configuration the packed updates pass the sanity check if and only if no group asks for nothing |
| RoundTrip.PackedExact | apps/pimc/pimsm/Pack.hpp:201-206 | The packed updates of a loaded configuration list each source, RP and prune exactly once if and only if no group asks for nothing |
| RoundTrip.LoadedVerifies | apps/pimc/config/PIMCConfigLoader.hpp:70-74 | The same of the loader's input: the packed updates of whatever it loads as pass if and only if no group has just an empty `Join` |
| RoundTrip.EmptyJoinFails | apps/pimc/config/MulticastConfigLoader.hpp:76-87 | The input 232.0.0.1 with an empty `Join` loads, packs to no update, and fails the sanity check |
| InverseChecker.InversePruneStep | apps/pimc/pimsm/InversePackSanityCheck.hpp:33-55 | A prune more keeps the entries acceptable if and only if its bits are right and it is a new source or the first RP |
| InverseChecker.InverseGroupEntryConverter.Add | apps/pimc/pimsm/InversePackSanityCheck.hpp:29-56 | Folding an entry in keeps the failed flag exact, joins being a fault |
| InverseChecker.ConvertInverseUpdates | apps/pimc/pimsm/InversePackSanityCheck.hpp:79-111 | Inverse updates convert if and only if every group's entries are without fault |
| InverseChecker.CompareInverseConfigs | apps/pimc/pimsm/InversePackSanityCheck.hpp:163-204 | The same groups, and each with the same sources and RP; prunes are not compared |
| InverseChecker.VerifyInverseUpdates | apps/pimc/pimsm/InversePackSanityCheck.hpp:208-228 | Exactness for arbitrary inverse updates: for a loaded configuration, success if and only if each configured source and RP is pruned once with its bits and nothing else is listed; and accepted updates leave a configured neighbor without (S,G) and (*,G) joins |
| InverseChecker.InverseVerifiedIffExact | apps/pimc/pimsm/InversePackSanityCheck.hpp:79-228 | The account by groups and the account by counting mentions agree |
| Mentions.InverseTakesEffect | apps/pimc/pimsm/InversePackSanityCheck.hpp:208-228 | From any state between messages, inverse updates that list a configuration exactly remove its (S,G) and (*,G) joins and nothing else |
| Startup.PrunedIsAccepted | apps/pimc/pimsm/InversePackSanityCheck.hpp:113-157 | Entries that prune exactly a group's sources are faultless, and undo the group if and only if its RP prune is not missing |
| Startup.InverseVerifies | apps/pimc/pimsm/InversePackSanityCheck.hpp:208-228 | For every loaded configuration the inverse updates pass their check if and only if no group asks for nothing and no RP prune is dropped |
| Startup.InversePackedExact | apps/pimc/pimsm/InversePack.hpp:173-178 | The inverse updates list each source and RP exactly once if and only if no group asks for nothing and no RP prune is dropped |
| Startup.Build | apps/pimc/config/PIMCConfigLoader.hpp:66-89 | pimc starts if and only if no group asks for nothing and counting sources finds no dropped RP prune; then it has both packings |
| Startup.LoadAndBuild | apps/pimc/config/PIMCConfigLoader.hpp:96-104 | From the input on: loading fails if and only if the input is not valid, and the start throws if and only if it is valid and has an empty `Join` alone or a dropped RP prune, both told from the listed sources |
| Startup.StartableIffExact | apps/pimc/config/PIMCConfigLoader.hpp:70-80 | The input that pimc starts with is that for which both packings list the configuration exactly |
| Startup.StartRefused | apps/pimc/config/PIMCConfigLoader.hpp:76-80 | A concrete valid input in which every group asks for something, whose updates pass and whose inverse updates fail, so that the start throws |
| Goodbye.PrunesGone | apps/pimc/pimsm/InversePack.hpp:126-138 | At the neighbor, prunes remove exactly the listed sources and RP |
| Goodbye.Farewell | apps/pimc/scheduler/IPv4GoodbyeJPUpdateEvent.hpp:42-52 | From any state between two messages, after all inverse updates, in any order and multiplicity, the configured (S,G) joins are gone, and the (*,G) joins of configured groups with an RPT but for those whose RP prune was dropped; nothing else has changed |
| Checksum.Sum32IsSum16 | lib/pimc/packets/IPChecksum.cpp:23-30 | Summing bytes by their places in 32-bit words, from any place, is summing them by their places in 16-bit words modulo 0xffff |
| Checksum.SwapSum | lib/pimc/packets/IPChecksum.cpp:45-47 | Shifting all bytes by one place multiplies the sum by 256 modulo 0xffff, section 2(B) of RFC 1071 |
| Checksum.OddAlignment | lib/pimc/packets/IPChecksum.cpp:45-47 | Reversing the bytes undoes an odd start address |
| Checksum.Fold | lib/pimc/packets/IPChecksum.cpp:40-43 | The deferred carries end in the representative of the sum in 1..0xffff |
| Checksum.IpChecksumNs | lib/pimc/packets/IPChecksum.cpp:7-50 | For every length and start alignment the computation gives the folded 64-bit sum, and up to 2^32 bytes a result that depends on the data only |
| Checksum.ComputedIsCodeSum | lib/pimc/packets/IPChecksum.cpp:9-38 | For data of any length that result is the right one if and only if the accumulator does not wrap, or wraps a multiple of 65535 times and something is left |
| Checksum.WrapSpoils | lib/pimc/packets/IPChecksum.cpp:9-38 | On 16 GiB and 8 bytes of 0xff the accumulator wraps once and the result is not the checksum of section 1 of RFC 1071 |
| Checksum.ChecksumIsRfc | lib/pimc/packets/IPChecksum.cpp:7-50 | That result is the checksum of section 1 of RFC 1071 if and only if not every byte is zero; it is 0 instead of 0xffff then |
| Checksum.RfcExample | lib/pimc/packets/IPChecksum.cpp:7-50 | The definition gives the sum 0xddf2 and the checksum 0x220d for the example in section 3 of RFC 1071, and pads a single byte on the right |
| Checksum.SealedChecks | lib/pimc/packets/PIMSMv2Utils.hpp:36-40 | With the checksum written into its zeroed field, recomputing over the message gives 0 |
| Wire.EntriesBytesSize | apps/pimc/pimsm/Update.hpp:110-119 | What the packer accounts for an update is what is written for it |
| Wire.IPv4HeaderBack | apps/pimc/packets/IPv4PIMUpdatePacket.cpp:50-58 | The IPv4 header field by field: version 4, five words, TOS 192, the total length, id 0, unfragmented, TTL 1, protocol 103, the source, 224.0.0.13 |
| Wire.SourceIsBytes | lib/pimc/packets/PIMSMv2Utils.hpp:106-117 | An encoded source in plain numbers: family 1, encoding 0, the S, W and R bits, mask 32, the address with its first byte first |
| Wire.EntryIsBytes | apps/pimc/packets/IPv4PIMUpdatePacket.cpp:23-28 | An encoded entry begins with the group, of mask 32, and the two counts in 16 bits |
| Wire.MessageIsBytes | lib/pimc/packets/PIMSMv2Utils.hpp:19-74 | A message begins with version 2, type 3, the neighbor, the number of groups and the hold time |
| Wire.EntryBack | apps/pimc/packets/IPv4PIMUpdatePacket.cpp:23-33 | An encoded entry decodes to itself, with the W and R bits of every source |
| Wire.MessageBack | apps/pimc/packets/IPv4PIMUpdatePacket.cpp:37-81 | Encoding and then decoding, checksum included, gives back neighbor, hold time and all entries, for every update whose counts survive the casts |
| UpdatePacket.WriteSource | lib/pimc/packets/PIMSMv2Utils.hpp:106-117 | Eight bytes in place: family, encoding, S, W and R bits, mask length, address in network order |
| UpdatePacket.WriteGroupEntry | apps/pimc/packets/IPv4PIMUpdatePacket.cpp:23-33 | Writes the entry's bytes behind what was written and advances by the accounted size |
| UpdatePacket.WriteJPHdr | lib/pimc/packets/PIMSMv2Utils.hpp:65-74 | Writes neighbor, number of groups and hold time behind what was written |
| UpdatePacket.WriteChkSum | lib/pimc/packets/PIMSMv2Utils.hpp:36-40 | Fills in the checksum field of the message, of any size, and changes nothing else |
| UpdatePacket.SummarySize | apps/pimc/pimsm/Update.hpp:110-119 | The precomputed size is the accounted size |
| UpdatePacket.NewUpdatePacket | apps/pimc/packets/IPv4PIMUpdatePacket.cpp:37-81 | For every update the size exception is never raised, the IPv4 header reads back field by field, and the buffer holds exactly the headers, groups and computed checksum, which up to 2^32 bytes is the specified packet at any address |
| UpdatePacket.PackedPackets | apps/pimc/packets/IPv4PIMUpdatePacket.cpp:37-81 | Every packed update is sent in at most 1500 bytes and decodes back; no cast truncates |
| UpdatePacket.InversePackets | apps/pimc/packets/IPv4PIMUpdatePacket.cpp:37-81 | The same for every inverse update |
| Scheduler.HelloEvent.Ready | apps/pimc/scheduler/IPv4HelloEvent.hpp:30-37 | Ready if and only if due; the next time counts from now, and is kept when not ready |
| Scheduler.JPUpdateEvent.Fire | apps/pimc/scheduler/IPv4JPUpdateEvent.hpp:55-66 | Sends the packets in order up to and including the first that fails; succeeds if and only if none fails |
| Scheduler.GoodbyeJPUpdateEvent.Send | apps/pimc/scheduler/IPv4GoodbyeJPUpdateEvent.hpp:42-52 | The same for the inverse updates |
| Scheduler.FixedEventQueue.RunOnce | lib/pimc/events/FixedEventQueue.hpp:131-153 | A tick sends what is planned for it up to the first failure, counts the events that fired, and keeps both due times |
| Scheduler.AttemptsAll | apps/pimc/scheduler/IPv4Exec.cpp:75-78 | Attempts stop at the first failure, and only there |
| Scheduler.Exec | apps/pimc/scheduler/IPv4Exec.cpp:62-101 | For every clock, outcome of opening the interface and of sends, and number of ticks: the sends are the plan up to and including the first failure, none if the interface does not open, and the run succeeds if and only if it opens and no planned send fails |
| Timing.Spacing | apps/pimc/scheduler/IPv4HelloEvent.hpp:30-37 | Two firings of an event are at least its period apart, whatever the clock does |
| Timing.NotBefore | apps/pimc/scheduler/IPv4JPUpdateEvent.hpp:42-53 | No firing, and so no Join/Prune round, comes before the first due time |
| Timing.NoLapse | apps/pimc/scheduler/IPv4JPUpdateEvent.hpp:45-53 | On a clock that never goes back and whose readings are at most a gap apart, the next tick after a firing, up to and including the next firing, comes within less than a period and a gap |
| Timing.BuiltInHoldTimes | apps/pimc/config/PIMSMConfigLoader.hpp:20-26 | With the built-in periods, on a clock that never goes back and with gaps of at most 75 s, at every tick less than 105 s passed since a Hello and less than 210 s since a round or, before the first round, since the start |
| Timing.PlanStartsWithHello | apps/pimc/scheduler/IPv4Exec.cpp:71-95 | On any clock: the first send of a run is a Hello if and only if, before the stop, some tick finds the clock not before the timer's creation, and no update is sent unless a Hello was sent first |
| Timing.SteadyReaches | apps/pimc/scheduler/IPv4HelloEvent.hpp:24-37 | On a clock that never goes back that is so for every run of at least one tick |
| Timing.StoppedAtOnce | apps/pimc/scheduler/IPv4Exec.cpp:71-89 | A run that is stopped before its first tick, or after one for which the clock was set back, sends the first inverse update first |
| Timing.PlanEnds | apps/pimc/scheduler/IPv4Exec.cpp:83-95 | Every plan ends, behind the sends of its ticks, with all inverse updates in order, at one time, and then one Goodbye, the only one and the last send |
| Timing.FirstFirings | apps/pimc/scheduler/IPv4JPUpdateEvent.hpp:41-53 | The first Hello is sent by the first tick not before the timer's creation, and the first round by the first that is a period of seconds later |
| Timing.NextFirings | apps/pimc/scheduler/IPv4JPUpdateEvent.hpp:45-53 | After a Hello or a round the next is sent by the first tick that is its period later, and by no other |
| Timing.SilentAfterSetBack | apps/pimc/scheduler/IPv4HelloEvent.hpp:30-37 | With ticks 100 ms apart and a clock set back by a number of seconds after the first tick, no Hello is sent for that number of seconds and a period of ticks |
| Timing.TickShape | lib/pimc/events/FixedEventQueue.hpp:136-153 | A tick sends at most one Hello and then at most one round, complete and in order |
| Timing.TicksSends | apps/pimc/scheduler/IPv4Exec.cpp:71-81 | The sends of a run's ticks are exactly those of the firings |
| EndToEnd.AllHeard | apps/pimc/scheduler/IPv4JPUpdateEvent.hpp:16-29 | From the packets of all updates, IPv4 header included, and inverse updates the neighbor they are addressed to reads exactly these, with the hold time |
| EndToEnd.StateDuringRun | apps/pimc/scheduler/IPv4Exec.cpp:71-81 | With each packet decoded from its bytes: at every point of every run the neighbor's state is within the configured one, and after the first complete round it is exactly that, after every single packet until the stop |
| EndToEnd.StateAfterRun | apps/pimc/scheduler/IPv4Exec.cpp:83-95 | When a run of any length has made all its sends, the neighbor has no (S,G) join, and a (*,G) join if and only if a round was sent and the group's RP prune was dropped |
| EndToEnd.StartedLeavesNothing | apps/pimc/config/PIMCConfigLoader.hpp:70-88 | Whatever input pimc starts with, a run that has made all its sends leaves no (S,G) and no (*,G) join at the neighbor |
| EndToEnd.SentOutIsPlan | apps/pimc/scheduler/IPv4Exec.cpp:62-98 | What a run sends out is its plan up to the first failure, and all of it if and only if nothing fails |
| EndToEnd.StateOfAnyRun | apps/pimc/scheduler/IPv4Exec.cpp:62-98 | Whatever fails and whenever, after every single packet that went out, the farewell included, the neighbor has nothing that is not configured, and exactly the configured state from the first complete round to the farewell |
| Expiry.HearHolds | apps/pimc/scheduler/IPv4JPUpdateEvent.hpp:55-66 | At a neighbor whose state expires, a packed update holds all it asks for until its hold time is over, and takes away nothing whose timer still runs |
| Expiry.NoStateLapses | apps/pimc/scheduler/IPv4JPUpdateEvent.hpp:45-66 | On a clock that never goes back, if the hold time read from the packets covers a period and a gap, the state that is left unexpired at any time from the first complete round to the stop, between packets of a tick as well, is exactly the configured one |
| Expiry.BuiltInStateHolds | apps/pimc/config/PIMSMConfigLoader.hpp:20-26 | With the built-in period and hold time that holds for gaps of up to 150 s |
| Expiry.StateExpires | apps/pimc/scheduler/IPv4JPUpdateEvent.hpp:16-29 | Whatever was sent: once the hold time is over since every update and inverse update, nothing is left of the neighbor's state |
| Loader.GrpAddr | apps/pimc/config/MulticastConfigLoader.hpp:20-32 | A group address is accepted if and only if it is in 224.0.0.0/4 |
| Loader.UcAddr | apps/pimc/config/ConfigUtils.hpp:85-105 | A source or RP is accepted if and only if it is not 0.0.0.0, 255.255.255.255, in 127.0.0.0/8 or in 224.0.0.0/4 |
| Loader.GroupConfigBuilder.ChkSrc | apps/pimc/config/MulticastConfigLoader.hpp:204-220 | A source is accepted if and only if the group did not have it in any role |
| Loader.GroupConfigBuilder.LoadPrune | apps/pimc/config/MulticastConfigLoader.hpp:130-165 | A prune more keeps the group valid if and only if it is a unicast address, is new, and is at most the 180th |
| Loader.GroupConfigBuilder.LoadGroupConfig | apps/pimc/config/MulticastConfigLoader.hpp:63-89 | A group loads without error if and only if it is valid, and then the builder holds what was read |
| Loader.CopySorted | apps/pimc/config/JPConfigLoader.hpp:34-38 | The sources are copied out in ascending order, none lost or added |
| Loader.LoadGroups | apps/pimc/config/MulticastConfigLoader.hpp:234-275 | No error if and only if there are groups, they are valid and no address is repeated |
| Loader.LoadJPConfig | apps/pimc/config/JPConfigLoader.hpp:48-56 | Input loads if and only if it spells a configuration of distinct multicast groups with ascending, disjoint lists of unicast sources and at most 180 prunes, the sources of a list in any order; and it loads as that configuration |
| Loader.LoadsIffSpells | apps/pimc/config/MulticastConfigLoader.hpp:63-289 | For every input and configuration: the one loads as the other if and only if that one can be written and the input spells it, a group doing without `Join` only if it has `Join*` |
| Loader.WrittenLoads | apps/pimc/config/MulticastConfigLoader.hpp:63-89 | The round trip: every configuration that can be written loads back as it was, groups with only `Join*` included |
| Loader.LoadedFromRaw | apps/pimc/config/MulticastConfigLoader.hpp:76-87 | Whatever loads has all the packer and the checks rely on and as many sources as listed; a group asks for nothing if and only if its `Join` list is empty and it has no `Join*` |
| Loader.LoadsAsOne | apps/pimc/config/JPConfigLoader.hpp:24-41 | The input determines the configuration that it loads as |
| WordWrap.Consume | lib/pimc/formatters/ConsumeIfUnlessEscaped.hpp:37-72 | The consumer with its saved escape symbol reads exactly the word, counts its symbols, and stops behind it |
| WordWrap.EscapedIsOneWord | lib/pimc/formatters/ConsumeIfUnlessEscaped.hpp:37-72 | Any text, escaped and then consumed, is read back as one word |
| WordWrap.EscapedWords | lib/pimc/formatters/IndentBlock.hpp:85-154 | Any texts that are not empty, escaped and separated by white space, are read back as the words |
| WordWrap.PlainIsOneWord | lib/pimc/formatters/ConsumeIfUnlessEscaped.hpp:54-70 | Text without white space in which escape symbols stand before ordinary symbols, or at the end, is read as it is |
| WordWrap.PutWord | lib/pimc/formatters/IndentBlock.hpp:98-152 | A round of the loop, in 32-bit arithmetic, extends greedy lines by one word and tracks the column behind it |
| WordWrap.IndentBlock | lib/pimc/formatters/IndentBlock.hpp:66-158 | For every text: exactly the unescaped words in order; a line ended only when the next word would not fit; each line below its limit or a single word if and only if at the breaks of the unbounded layout of the words the 32-bit test does not wrap, as it does not if no word comes near 2^32 symbols; raises if and only if an indent is not below its limit |
| WordWrap.GreedyFits | lib/pimc/formatters/IndentBlock.hpp:104-131 | The same of any greedy lines: the tracked column is the true one up to 2^32 and never above it, so a word that does not join would not fit |
| WordWrap.GreedyExactly | lib/pimc/formatters/IndentBlock.hpp:104-131 | The exact condition, on the words: the lines all fit if and only if the 32-bit test sees every break of the layout that the words have with unbounded columns |
| WordWrap.OutputLine | lib/pimc/formatters/IndentBlock.hpp:104-147 | In the output, line k follows the lines before it and one line break each, begins with its indent, has its words with one space between them, and is as long as its column |
| WordWrap.OutputLength | lib/pimc/formatters/IndentBlock.hpp:104-147 | The output has the lines and the breaks between them and nothing else |
| WordWrap.FittingInPlain | lib/pimc/formatters/IndentBlock.hpp:104-131 | A line fits if and only if it is one word or its text in the output is shorter than its limit, the first line having its own |
| WordWrap.LongWordWraps | lib/pimc/formatters/IndentBlock.hpp:105-125 | For the text of a word of 2^32 symbols and a short one, the only greedy lines are one line with both, which is over its limit |
| WordWrap.GreedyUnique | lib/pimc/formatters/IndentBlock.hpp:98-152 | For every text only one arrangement of the words in lines is greedy, so the output is determined |

## Left out

- Packer.Pack: requires at most 180 prunes in a group, which the loader guarantees; with more the search for a builder never ends (`PackTheorems.BlockFitsIffBounded`).
- The log descriptions of the packets.
- The neighbor is an instance of the RFC, not code of the repository. It has no prune-pending delay, and state timers only in `Expiry`.
- The stop signal is a number of ticks; the clock, the opening of the interface and the outcomes of sends are parameters.
- The converters keep sets where the source copies them to vectors, because the comparison turns them into sets again.
- The inverse packer's builder classes repeat those of the packer line by line and are modelled once, in `Builders`.
- The YAML is already parsed into lists, and text that is no address is the same as none; a missing RP and one that is no address are the same error, and unknown keys are left out.
- The word wrapper's iterators and output are strings.
- Pointers into the deque of builders are object references in a sequence; moving a growing vector's elements is not modelled.
- The large bodies of the packers' and the wrapper's loops are split into several methods.
- Error messages, logging and all formatting of tables and addresses: only whether something failed is kept.
- Sockets, capabilities, signals and the IPv4 header checksum, which the kernel computes.
- IPv6: the templates are modelled for IPv4 only.
- The contents of Hello packets and their options.
- The number and address parsers, and the receiver tool `mclst`.
