# Verification of the VLAN engine, the configuration translators and the naming cores

This project models the parts of the network configuration service that carry real logic, and proves
what they achieve. `dafny verify dfyconfig.toml` checks all of it.

## What is modelled

**The intelligent-VLAN engine** (`sebastian/core/intelligent_vlan.go`). A request names end stations. The engine
finds the switch ports that must carry a VLAN so that the stations can talk, picks a VLAN id, and writes
per-device VLAN tables. The search is a multi-source breadth-first search over paths: each station's wave claims
the devices it reaches first and stops where it meets a device another station has claimed.

- `Graph.dfy`: links, hops, walks, trails, simple paths, forests; the links between end stations described once by
  simple paths and once by cuts.
- `VlanSearch.dfy`: the search as a step function, and the loops, proved to compute its final state.
- `SearchInvariant.dfy`, `SearchExactness.dfy`, `SearchTerritory.dfy`, `SearchTermination.dfy`, `SearchTheorems.dfy`: what
  every turn keeps on any network, why the local stopping rule finds exactly the right links whenever the search stops,
  which station claims which device, for exactly which requests the search stops.
- `VlanIds.dfy`, `DeviceConfig.dfy`, `VlanEngine.dfy`, `VlanEngineTheorems.dfy`: choosing an id; Create, Update and Delete
  as methods of a stored project; connectivity and isolation of the new VLAN; the invariants over every run.
- `RingExample.dfy`: a ring of switches with two admissible requests, one of which never ends.

**The configuration translators** (`sebastian/configmapper/act_maf_config_mapper.go`): `VlanMapping.dfy` (VLANs of a port to
ports of a VLAN), `GateControl.dfy` (gate state masks and cycle times), `IngressGroups.dfy` (grouping by port),
`Calendar.dfy` (dates as week and weekday).

**Names and addresses**: `LinkIdentities.dfy` (`netdl/link.go`), `MacAddresses.dfy` (`cogsworth/common/act_utilities.hpp`),
`AddressAllocator.dfy` (`AutoAssignIP` in `cogsworth/common/act_project.hpp`). `Text.dfy` and `Collections.dfy` are shared helpers.

## Results that go against expectation

The model follows the code. Where the code does not do what its purpose or its comments suggest, the exact condition
under which it does is proved.

- The search can run for ever. Each end station has a territory: the devices nearest to it, where of equally near stations
  the one listed first counts. The search stops exactly when no territory holds a cycle of links, or two links that each
  lead from a device to itself (`HaltsIffNoTerritoryCycle`, `CreateHaltsIff`). So a request for two hosts on one switch of a ring never ends, while one
  for hosts on two switches of the same ring does (`SameSwitchNeverEnds`, `TwoSwitchesEnds`). It stops for every request
  exactly on networks without a lap (`AlwaysHaltsIffNoLap`), which without links from devices to themselves are the
  forests (`AlwaysHaltsIffForest`).
- Whether an end station's own port is recorded depends on the order of the end stations: exactly when its link leads
  straight to another station, or to a device that a station listed earlier has a link to (`IsMember`,
  `ExactWheneverItStops`, `StationPortsDependOnOrder`). All other recorded ports do not (`OrderIrrelevant`).
- A Create whose stations are not connected succeeds, writes no table and leaves a group entry that has no static entry. The run
  invariant survives a Create exactly when two different stations are connected (`CreateKeepsInvariantIffJoined`), and
  otherwise the next request gets the same id (`UnjoinedCreateRepeatsId`). Deleting one of two groups with the same id takes
  the static entries of the other one away (`DeleteSparesOthersIff`). What does not need this holds on every run
  (`EveryRunKeepsTablesSound`).
- Update deletes first. When its Create half is refused or fails, the old VLAN is gone: an Update is all or nothing exactly
  if its Delete half is not carried out or its Create half is (`UpdateAllOrNothingIff`, `UpdateAdmittedIff`,
  `UpdateToOneStationLosesVlan`).
- Delete does not undo a Create. It restores the group and the static entries (`DeleteUndoesCreate`) but leaves the port-type
  and port-VLAN entries (`DeleteLeavesPortEntries`). A device's table is restored exactly when no port of the device was
  a member and no PVID was the id before, management VLAN apart (`DeleteRestoresTableIff`, `SwitchNotRestored`).
- With a configured maximum of 65535 the 16-bit counter wraps and can return an id below the range
  (`UniqueVlanIdWrapsBelowRange`). It runs for ever exactly when, besides, every 16-bit id is used (`SearchEndsIff`).
- The gate state is a 64-bit sum, so a queue listed twice opens other gates and a queue from 64 up none. It decodes exactly
  when all queues are below 64 and the repeated listings add up to a multiple of the word (`DecodesIff`); for the eight
  queues of a port that means exactly when no queue is repeated (`EightGatesIff`).
- The broadcast MAC address is refused in one single spelling, `FF-FF-FF-FF-FF-FF`; with colons, lower-case letters or
  padded parts it passes `CheckMacAddress` (`BroadcastRefusedIff`, `ColonBroadcastAccepted`, `TransferIsCanonical`), although the
  comment in `CheckMacAddress` excludes it outright. The pattern checked first never decides (`MacTextMatchesPattern`).
- The gateway text is the `.254` address of the subnet exactly when the last octet is below 100 (`GatewayIffShortOctet`).
- A date that does not exist is translated to another one (`DecodesIffValid`; `DecodesIff` for times of day out of range). The
  two clamps on the week never fire, the one on the weekday fires exactly on Sundays (`EncodingInRange`).
- Links between different nodes can share an identity string. Between nodes whose names do not run into one another at a
  dash, the strings tell what they should exactly when no node name is another one with a port (`IdentitiesTellIff`).
- `Swap` does not move the port labels, and a link from a node to itself keeps its identity only if its ports are equal
  (`SwapKeepsIdentityIff`).

## Model

| member | source | states |
|---|---|---|
| `VlanSearch.InsertPortMap` | sebastian/core/intelligent_vlan.go:19-26 | the given port is then listed with the given link, every other port exactly as before; only this device can be new |
| `VlanSearch.SeedWaves` | sebastian/core/intelligent_vlan.go:32-57 | the queue starts with one hop for each link of each end station, and each end station with a link claims itself |
| `VlanSearch.RecordPath` | sebastian/core/intelligent_vlan.go:71-79 | a met path is entered hop by hop, the first hop with its far end only and also as an edge port |
| `VlanSearch.ExtendPath` | sebastian/core/intelligent_vlan.go:83-109 | the new paths go on over every link of the device except the one just used |
| `VlanSearch.Turn` | sebastian/core/intelligent_vlan.go:59-112 | one turn of the loop is one `Step` |
| `VlanSearch.FindAllLinksBetweenEdges` | sebastian/core/intelligent_vlan.go:28-118 | whenever the search stops at all, the loops return the port tables of its final state |
| `SearchInvariant.StepInv` | sebastian/core/intelligent_vlan.go:59-112 | on any network a turn keeps the whole invariant: paths are trails in their station's own territory, claims are explained, all ways on are known, recorded ports come from meetings and meetings are recorded |
| `SearchInvariant.RunInv` | sebastian/core/intelligent_vlan.go:34-112 | the invariant holds after any number of turns |
| `SearchExactness.MeetingTrail` | sebastian/core/intelligent_vlan.go:67-81 | on any network every meeting extends to a trail joining two different end stations |
| `SearchExactness.OwnIsSimple` | sebastian/core/intelligent_vlan.go:59-112 | once the search has stopped, no path inside a station's territory visits a device twice, whatever cycles the network has elsewhere |
| `SearchExactness.EveryLinkMeets` | sebastian/core/intelligent_vlan.go:59-112 | once the search has stopped, every link on a trail between two end stations lies on a path that met another station |
| `SearchTheorems.SafeAfterAnyTurns` | sebastian/core/intelligent_vlan.go:28-118 | on any network, at any time: claims last and are held by end stations, queued paths stay in their territory, every recorded port is a real endpoint of a link on a trail between two different stations, edge ports are among the recorded ports |
| `SearchTheorems.RecordsIffJoined` | sebastian/core/intelligent_vlan.go:67-81 | on any network on which the search stops, something is recorded if and only if two different end stations are connected |
| `SearchExactness.StationPortsExact` | sebastian/core/intelligent_vlan.go:59-112 | once the search has stopped, an end station's own port is recorded exactly when the device at the far end of its link was claimed by another station |
| `SearchTheorems.ExactWheneverItStops` | sebastian/core/intelligent_vlan.go:28-118 | on any network, cyclic ones included, on which the search stops: the recorded links are exactly those on a trail (a walk never turning straight back) joining two different end stations; the recorded ports are exactly the member ports, that is a switch's ports whose link is on such a trail and an end station's own ports whose link leads to another station or to a device that a station listed earlier has a link to; the edge ports are exactly the far ends of station links that lead to another station |
| `SearchTheorems.ExactOnForest` | sebastian/core/intelligent_vlan.go:28-118 | on a forest the search stops, and the links and switch ports recorded are exactly those on a simple path between two end stations |
| `SearchTheorems.RecordedIffCut` | sebastian/core/intelligent_vlan.go:28-118 | on a forest a link is recorded exactly when removing it leaves an end station on both sides |
| `SearchTheorems.OrderIrrelevant` | sebastian/core/intelligent_vlan.go:34-57 | wherever the search stops for both, neither the order of the stations nor that of the adjacency lists affects the links, the switch ports or the edge ports found |
| `SearchTheorems.StationPortsDependOnOrder` | sebastian/core/intelligent_vlan.go:71-79 | of two end stations on one device, on any network, only the one listed last has its own port recorded |
| `SearchTheorems.TwoStationsOneSwitch` | sebastian/core/intelligent_vlan.go:71-79 | the smallest such networks, on which the search is sure to stop |
| `Graph.PathIffCut` | sebastian/core/intelligent_vlan.go:67-81 | on a forest the two descriptions of the links between end stations agree |
| `Graph.ForestIffNoCycle` | sebastian/core/intelligent_vlan.go:83-86 | the forest condition, stated on trails that never turn straight back, is the usual absence of cycles |
| `Graph.HopMeaning` | sebastian/core/intelligent_vlan.go:83-100 | a hop crosses a link from either end: out of the port at one end, into the port at the other |
| `SearchTermination.HaltsOnForest` | sebastian/core/intelligent_vlan.go:59-112 | on a forest the search stops for every list of end stations, repeated ones included |
| `SearchTerritory.RunFair` | sebastian/core/intelligent_vlan.go:59-111 | at every turn the queue is in order of length and, at equal length, of the place of the station in the list; claimed devices are claimed by the nearest station; whatever lies next to them is claimed or in the queue |
| `SearchTerritory.OwnerIsNearest` | sebastian/core/intelligent_vlan.go:67-111 | at any time, on any network, a device is claimed only by the end station nearest to it, the first listed of equally near ones |
| `SearchTerritory.NearestOwns` | sebastian/core/intelligent_vlan.go:67-111 | once the search has stopped, the nearest end station has claimed the device |
| `SearchTermination.HaltsIffNoTerritoryCycle` | sebastian/core/intelligent_vlan.go:59-112 | on every network, for each single request: the search stops if and only if the devices nearest to one end station never hold a cycle of links or two links that lead from a device to itself |
| `SearchTermination.NeverHaltsForOneStation` | sebastian/core/intelligent_vlan.go:59-112 | a request that names one device on a lap (a closed walk that turns straight back nowhere), once or more often, and no other keeps the search going for ever |
| `SearchTermination.AlwaysHaltsIffNoLap` | sebastian/core/intelligent_vlan.go:59-112 | the search stops for every request of at least two, not necessarily different, end stations if and only if the network has no lap |
| `SearchTermination.AlwaysHaltsIffForest` | sebastian/core/intelligent_vlan.go:59-112 | without links from a device to itself, that is if and only if the network is a forest |
| `Graph.LapHasCycleOrTwoLoops` | sebastian/core/intelligent_vlan.go:83-109 | a lap goes round a cycle of at least two links, or holds two links that lead from a device to itself |
| `VlanIds.FindUniqueVlanId` | sebastian/core/intelligent_vlan.go:131-144 | whenever it ends at all, the loop over a wrapping 16-bit counter returns the chosen id, or 0 and failure |
| `VlanIds.SearchEndsIff` | sebastian/core/intelligent_vlan.go:138-143 | the loop runs for ever exactly when the maximum is 65535 and every 16-bit id is used |
| `VlanIds.UniqueVlanIdInRange` | sebastian/core/intelligent_vlan.go:138-143 | with the maximum below 65535 the choice is the smallest free id of the range, and fails exactly when all are used |
| `VlanIds.UniqueVlanIdWrapsBelowRange` | sebastian/core/intelligent_vlan.go:138-143 | with the maximum at 65535 an id below the range is chosen exactly when the range is used up |
| `VlanEngine.CheckVlanIdUsed` | sebastian/core/intelligent_vlan.go:120-129 | true exactly when some static entry of some device has the id after truncation to 16 bits |
| `VlanEngine.CollectUsedIds` | sebastian/core/intelligent_vlan.go:132-137 | the set of all ids in use |
| `VlanEngineTheorems.UsedIdsMeaning` | sebastian/core/intelligent_vlan.go:120-137 | an id is in use exactly when some static entry of some device has it, counted in 16 bits |
| `VlanEngine.BuildTopology` | sebastian/core/intelligent_vlan.go:196-225 | the adjacency lists of the links whose two interfaces are active and used |
| `VlanEngineTheorems.UsableAdjacency` | sebastian/core/intelligent_vlan.go:207-225 | those lists describe exactly the usable links |
| `VlanEngineTheorems.UsableLinksMeaning` | sebastian/core/intelligent_vlan.go:196-225 | a link is usable exactly when at both its ends an interface of the last device of that id has the port and is both active and used |
| `VlanEngine.AdmitRequest` | sebastian/core/intelligent_vlan.go:156-191 | the checks on a request, in order, with their errors |
| `VlanEngineTheorems.AdmittedIff` | sebastian/core/intelligent_vlan.go:156-191 | for every configured range, exactly which requests are admitted and which id they get |
| `VlanEngineTheorems.RefusedWith` | sebastian/core/intelligent_vlan.go:156-191 | what each refused request is told: too few stations, the first unknown station, no free id, id out of range, id in use, or unknown stream type, in this order |
| `VlanEngine.WritePvids` | sebastian/core/intelligent_vlan.go:231-243 | in whatever order the map is iterated, each edge device gains one port-VLAN entry for each edge port, no other device changes |
| `VlanEngine.WriteStatics` | sebastian/core/intelligent_vlan.go:245-275 | each recorded device gains one static entry listing its recorded ports and its edge ports once each, and an access entry for each port |
| `VlanEngine.Backend.CreateIntelligentVlan` | sebastian/core/intelligent_vlan.go:146-288 | the outcome of a Create: unchanged project and the error, or the tables and the group extended for the admitted id |
| `VlanEngine.Backend.DeleteIntelligentVlan` | sebastian/core/intelligent_vlan.go:312-362 | the outcome of a Delete |
| `VlanEngine.Backend.UpdateIntelligentVlan` | sebastian/core/intelligent_vlan.go:298-310 | an Update is a Delete followed by a Create on the result; if only the Delete succeeds, its result stays |
| `VlanEngine.ClearTables` | sebastian/core/intelligent_vlan.go:335-354 | every table has its PVIDs reset and its first static entry for the id removed |
| `VlanEngineTheorems.VlanReachesExactlyMembers` | sebastian/core/intelligent_vlan.go:227-275 | isolation: whenever the search stops, the new VLAN is carried by exactly the member ports of its end stations, all on trails between two of them, and leaves untagged exactly at the edge ports, all of which carry it |
| `VlanEngineTheorems.VlanReachesExactlyStationPaths` | sebastian/core/intelligent_vlan.go:227-275 | on a forest the switch ports that carry it are exactly those on the simple paths between the end stations |
| `VlanEngineTheorems.VlanConnectsStations` | sebastian/core/intelligent_vlan.go:227-275 | connectivity: two connected end stations are joined by a simple path whose every switch port carries the VLAN (static VLAN registration entries, section 8.8.2 of IEEE 802.1Q) |
| `VlanEngineTheorems.UntaggedStreamPvids` | sebastian/core/intelligent_vlan.go:231-243 | the port-VLAN entries after a Create are the old ones and then, for an untagged stream, exactly one entry for each edge port, with the new id and no priority; for a tagged one no more |
| `VlanEngineTheorems.MembersBecomeAccess` | sebastian/core/intelligent_vlan.go:245-258 | the port-type entries are the old ones and then exactly one entry "Access" for each member port |
| `VlanEngineTheorems.CreateWritesStatic` | sebastian/core/intelligent_vlan.go:245-275 | a device gains one static entry if it has a member port and none otherwise: the new id, the name "v" and the id, the member ports as egress ports, the edge ports as untagged ports; exactly then a device without a table gets one |
| `VlanEngineTheorems.CreateTouchesOnly` | sebastian/core/intelligent_vlan.go:227-281 | device ids, management VLANs, devices, links and the range stay, and the group gains the request at its end |
| `VlanEngineTheorems.StaticIffJoined` | sebastian/core/intelligent_vlan.go:245-275 | the new id gets a static entry somewhere exactly when two of its stations are connected |
| `VlanEngineTheorems.CreateHaltsIff` | sebastian/core/intelligent_vlan.go:146-288 | a Create ends if and only if the id search does not run round a full 16-bit range and, if the request is admitted, the devices nearest to one of its end stations never hold a cycle of usable links or two links that lead from a device to itself |
| `VlanEngineTheorems.CreateHaltsOnForest` | sebastian/core/intelligent_vlan.go:146-288 | on a forest, with the maximum below 65535, a Create always ends |
| `RingExample.SameSwitchNeverEnds` | sebastian/core/intelligent_vlan.go:59-112 | on a ring of three switches the request for two hosts on the same switch is admitted and never ends |
| `RingExample.TwoSwitchesEnds` | sebastian/core/intelligent_vlan.go:59-112 | on the same ring the request for hosts on two switches is admitted and ends |
| `VlanEngineTheorems.AdmittedIsFree` | sebastian/core/intelligent_vlan.go:156-191 | an admitted request names only known, non-zero devices, and its id is in no static entry; with the maximum below 65535 it is in the configured range |
| `VlanEngineTheorems.CreateKeepsInvariantIffJoined` | sebastian/core/intelligent_vlan.go:146-288 | a Create keeps the run invariant if and only if it joins two different, connected stations |
| `VlanEngineTheorems.UnjoinedCreateRepeatsId` | sebastian/core/intelligent_vlan.go:156-191 | after a Create that joins nothing the same untagged request gets the same id again |
| `VlanEngineTheorems.DeleteKeepsInvariant` | sebastian/core/intelligent_vlan.go:312-362 | a Delete keeps the run invariant |
| `VlanEngineTheorems.DeleteRemovesExactly` | sebastian/core/intelligent_vlan.go:318-354 | a Delete removes every static entry of the id, its group entry unless the group holds the id twice, and nothing of another id |
| `VlanEngineTheorems.DeleteWrites` | sebastian/core/intelligent_vlan.go:335-354 | a device's table after a Delete, field by field: port types, device id and management VLAN as before, only the first static entry of the id gone, and only the PVIDs equal to the id changed |
| `VlanEngineTheorems.DeleteTouchesOnly` | sebastian/core/intelligent_vlan.go:318-333 | the group without the first entry of the id; devices, links, range and the set of tables as before |
| `VlanEngineTheorems.DeleteKeepsOtherStatics` | sebastian/core/intelligent_vlan.go:343-351 | in sound tables a static entry is there after a Delete exactly when it was there before, unchanged, and has another id |
| `VlanEngineTheorems.DeleteKeepsOtherVlans` | sebastian/core/intelligent_vlan.go:318-354 | so every other VLAN is carried, and leaves untagged, at exactly the same ports as before |
| `VlanEngineTheorems.DeleteSparesOthersIff` | sebastian/core/intelligent_vlan.go:318-354 | after a Delete every remaining group still has a static entry if and only if the group did not hold the id twice |
| `VlanEngineTheorems.EveryRunKeepsTablesSound` | sebastian/core/intelligent_vlan.go:146-362 | in every state of every run of requests that end, whatever they join, backend failures included: group ids are in range and no device has two static entries for one id |
| `VlanEngineTheorems.EveryRunKeepsInvariant` | sebastian/core/intelligent_vlan.go:146-362 | if each Create that is carried out joins two end stations, in every state of the run also: group ids are distinct and every group id has a static entry |
| `VlanEngineTheorems.UpdateAllOrNothingIff` | sebastian/core/intelligent_vlan.go:298-310 | an Update has either succeeded or changed nothing, if and only if its Delete half is not carried out or its Create half is |
| `VlanEngineTheorems.UpdateAdmittedIff` | sebastian/core/intelligent_vlan.go:156-191 | which requests the Create half admits, told from the project before the Update: an untagged one always finds an id, a tagged one needs an id that is unused or its own |
| `VlanEngineTheorems.UpdateToOneStationLosesVlan` | sebastian/core/intelligent_vlan.go:298-310 | an Update to fewer than two end stations is refused with the old VLAN gone |
| `VlanEngineTheorems.DeleteUndoesCreate` | sebastian/core/intelligent_vlan.go:245-354 | a Delete after a Create restores the group and every device's static entries, in their old order |
| `VlanEngineTheorems.DeleteLeavesPortEntries` | sebastian/core/intelligent_vlan.go:231-354 | a device's port entries after a Create and its Delete, field by field: the old ones, of which those with the id as PVID now have the management VLAN, then exactly one access entry for each member port and, if the stream is untagged, one port-VLAN entry with the management VLAN for each edge port |
| `VlanEngineTheorems.DeleteRestoresTableIff` | sebastian/core/intelligent_vlan.go:231-354 | a device's whole table is restored if and only if none of its ports is a member port and no port had the id as PVID before, unless that is the management VLAN |
| `RingExample.SwitchNotRestored` | sebastian/core/intelligent_vlan.go:245-354 | a switch whose table is not restored |
| `VlanMapping.AppendUnique` | sebastian/configmapper/act_maf_config_mapper.go:235-242 | the port is added to the VLAN's list unless it is there; other lists stay |
| `VlanMapping.MapVlanSetting` | sebastian/configmapper/act_maf_config_mapper.go:244-342 | a port is in a VLAN's egress ports exactly when some port setting that is not a LAG lists the VLAN, in its untagged ports exactly when listed untagged; no duplicates, untagged within egress; one port entry for each such setting |
| `VlanMapping.PortPlace` | sebastian/configmapper/act_maf_config_mapper.go:259-287 | the port entries keep the order of the settings that are not LAGs: each stands after exactly the earlier ones |
| `VlanMapping.PortOrigin` | sebastian/configmapper/act_maf_config_mapper.go:259-287 | every port entry comes from a setting that is not a LAG, the one with as many such settings before it |
| `VlanMapping.SettingMeaning` | sebastian/configmapper/act_maf_config_mapper.go:259-281 | a port is an egress or untagged port of a VLAN exactly when a setting whose alias does not begin with "po" lists it so |
| `VlanMapping.ModeNames` | sebastian/configmapper/act_maf_config_mapper.go:251-290 | the four mode names, the empty name of any other mode, and the priority mark |
| `GateControl.MapGclSetting` | sebastian/configmapper/act_maf_config_mapper.go:969-1036 | each port's list says what its schedule says; the stated length is the list's; the cycle time numerator is the sum of the emitted intervals, and the gate states are sums of shifted bits, both in 64-bit arithmetic |
| `GateControl.EmittedSlot` | sebastian/configmapper/act_maf_config_mapper.go:987-1030 | the emitted slot and cycle, field by field: each interval is the slot's microseconds times 1000, cut towards zero to a whole number; the numerator is the sum of the intervals in 64 bits |
| `GateControl.SumIntervalsAppend` | sebastian/configmapper/act_maf_config_mapper.go:985-992 | that sum takes every entry once |
| `GateControl.DecodesIff` | sebastian/configmapper/act_maf_config_mapper.go:994-998 | the bits of the gate state are exactly the open queues if and only if all queues are below 64 and the repeated listings add up to a multiple of 2^64 |
| `GateControl.EightGatesIff` | sebastian/configmapper/act_maf_config_mapper.go:994-998 | for queues in 0..7, in lists of fewer than 2^57 entries, that is if and only if no queue is listed twice |
| `GateControl.HighQueueLost` | sebastian/configmapper/act_maf_config_mapper.go:997 | queue 64 opens no gate |
| `GateControl.RepeatsMayVanish` | sebastian/configmapper/act_maf_config_mapper.go:997 | queue 62 listed five times opens gate 62 and no other |
| `GateControl.EightGates` | sebastian/configmapper/act_maf_config_mapper.go:994-998 | different queues in 0..7 give a value in 0..255 that decodes to them (section 8.6.8.4 of IEEE 802.1Q) |
| `GateControl.EncodingInjective` | sebastian/configmapper/act_maf_config_mapper.go:994-998 | two lists without repetitions have the same value exactly when they open the same queues below 64 |
| `IngressGroups.MapIngressTables` | sebastian/configmapper/act_maf_config_mapper.go:700-780 | for every iteration order: one group for each port that occurs, holding that port's entries |
| `IngressGroups.GroupIndices` | sebastian/configmapper/act_maf_config_mapper.go:716-719 | the ingress indices of a group are 0, 1, 2, ... and its entries are the port's own |
| `IngressGroups.StreamPlace` | sebastian/configmapper/act_maf_config_mapper.go:711-765 | every input entry is in its port's group, after exactly the earlier entries of that port |
| `IngressGroups.EntryFields` | sebastian/configmapper/act_maf_config_mapper.go:711-765 | what that entry holds, field by field, with the defaults for missing or unreadable values |
| `IngressGroups.PlacesIncrease` | sebastian/configmapper/act_maf_config_mapper.go:711-765 | no two entries of a port share a place |
| `IngressGroups.GroupingConserves` | sebastian/configmapper/act_maf_config_mapper.go:767-776 | the groups together hold exactly as many entries as the input |
| `Calendar.MapTransition` | sebastian/configmapper/act_maf_config_mapper.go:526-556 | the translation, clamps included, computes the week and weekday of the normalised date |
| `Calendar.MonthLengths` | sebastian/configmapper/act_maf_config_mapper.go:527-534 | the twelve month lengths, with the leap-year rule of the Gregorian calendar |
| `Calendar.MillenniumSaturday` | sebastian/configmapper/act_maf_config_mapper.go:546 | 1 January 2000 has the weekday Saturday |
| `Calendar.WeekdayAdvances` | sebastian/configmapper/act_maf_config_mapper.go:546 | from each date to the next, over ends of months and years too, the weekday advances by one; with the known day this fixes every weekday |
| `Calendar.EncodingInRange` | sebastian/configmapper/act_maf_config_mapper.go:536-548 | for every input the week is in 1..5 before its two clamps, which therefore never fire; the line that turns weekday 0 into 7 fires exactly on Sundays |
| `Calendar.NormalizeKeepsDay` | sebastian/configmapper/act_maf_config_mapper.go:527-534 | counting a day over into other months gives a real date with the same day number |
| `Calendar.DecodesIff` | sebastian/configmapper/act_maf_config_mapper.go:527-556 | for every input, year, month, week and weekday lead back to the date if and only if the time of day carries over by whole weeks, if at all, and the actual date is in the same week of its month |
| `Calendar.DecodesIffValid` | sebastian/configmapper/act_maf_config_mapper.go:527-556 | at a proper time of day that is if and only if the date exists |
| `Calendar.EncodingInjective` | sebastian/configmapper/act_maf_config_mapper.go:550-556 | two existing dates of one year with the same encoding are equal |
| `LinkIdentities.LinkIdentity.Swap` | netdl/link.go:120-124 | the two ends change places, the custom labels do not |
| `LinkIdentities.LinkIdentity.GetExactIdentity` | netdl/link.go:126-144 | the nodes in lexicographic order with their known ports |
| `LinkIdentities.LinkIdentity.GetIdentities` | netdl/link.go:146-180 | one string for each known port, one for both, one for none |
| `LinkIdentities.ExactIdentityReads` | netdl/link.go:126-144 | the exact identity is the two nodes around a dash, first the one that is not later in the dictionary, each with its own port in decimal if that is not 0 |
| `LinkIdentities.PartialIdentitiesRead` | netdl/link.go:161-167 | any other identity has the nodes in the same order and one of the known ports, behind its own node |
| `LinkIdentities.GreaterIffLater` | netdl/link.go:131-151 | the order of the nodes is that of a dictionary: a proper extension is later, else the first difference decides |
| `LinkIdentities.FirstDifferenceDecides` | netdl/link.go:131-151 | of two texts that first differ in one character the one with the greater character is later, whatever follows |
| `LinkIdentities.ShareIffAgree` | netdl/link.go:146-180 | over node names, dashes and colons allowed, none of which is another one with a port or begins with another one (with or without a port) and a dash, two links share an identity exactly when they join the same nodes and agree on a known port at the same node, or neither has a known port |
| `LinkIdentities.IdentitiesTellIff` | netdl/link.go:146-180 | over node names none of which begins with another one (with or without a port) and a dash: sharing an identity means agreeing, for all links, if and only if no name is another one with a port |
| `LinkIdentities.ImitationCollides` | netdl/link.go:161-164 | every name that is another one with a port gives two links with a common identity between different nodes |
| `LinkIdentities.DashCollides` | netdl/link.go:165-178 | a text that splits into two names at two different dashes gives such links too |
| `LinkIdentities.PlainNames` | netdl/link.go:146-180 | names without dashes do not begin with another one and a dash, names without colons are not another one with a port |
| `LinkIdentities.ExactIsLast` | netdl/link.go:169-177 | the exact identity is the last of the identities |
| `LinkIdentities.ExactIdentityInjective` | netdl/link.go:126-144 | over the same names as for `ShareIffAgree` exact identities are equal exactly when the ends are, up to the way round |
| `LinkIdentities.SwapKeepsIdentityIff` | netdl/link.go:120-144 | `Swap` is its own inverse and keeps the exact identity if and only if the nodes differ or the ports do not, whatever the names and ports |
| `LinkIdentities.SwapKeepsIdentities` | netdl/link.go:120-180 | between different nodes `Swap` changes none of the identities, whatever the names and ports |
| `MacAddresses.MacAddressToInt` | cogsworth/common/act_utilities.hpp:110-144 | six hexadecimal parts of at most 255 are accepted and combined; the empty text is 0; all else is refused |
| `MacAddresses.SixPartsParse` | cogsworth/common/act_utilities.hpp:110-144 | six parts around any mixture of colons and dashes parse exactly when each is a hexadecimal number of at most 255 |
| `MacAddresses.SixPartsValue` | cogsworth/common/act_utilities.hpp:134-144 | they parse to the number with these six bytes, the first part highest |
| `MacAddresses.HexReads` | cogsworth/common/act_utilities.hpp:134-140 | a part reads as the number with its hexadecimal digits, in letters of either case |
| `MacAddresses.IntToMacAddress` | cogsworth/common/act_utilities.hpp:154-170 | a non-zero 48-bit number is printed in canonical form, six dashed groups of two uppercase digits, and parses to itself; 0 and only 0 is printed empty |
| `MacAddresses.RoundTripIff48Bits` | cogsworth/common/act_utilities.hpp:110-170 | parsing the printed form gives the number back if and only if it fits 48 bits |
| `MacAddresses.CheckMacAddress` | cogsworth/common/act_utilities.hpp:172-205 | accepts the empty text, and the texts that parse to a non-zero value and are not the dashed broadcast address |
| `MacAddresses.MacTextMatchesPattern` | cogsworth/common/act_utilities.hpp:180-189 | every text that parses also matches the unanchored pattern |
| `MacAddresses.TransferChassisIdToMacFormat` | cogsworth/common/act_utilities.hpp:207-232 | an accepted chassis id becomes the printed form of its value, a refused one the empty text |
| `MacAddresses.NormalizedReads` | cogsworth/common/act_utilities.hpp:212-214 | before that, blanks become dashes and small letters capitals, and nothing else changes |
| `MacAddresses.TransferIsCanonical` | cogsworth/common/act_utilities.hpp:207-232 | the result is the canonical form, unchanged by a further transfer, and accepted again if and only if it is not the broadcast value |
| `MacAddresses.CanonicalFormUnique` | cogsworth/common/act_utilities.hpp:154-170 | every canonical text with a non-zero value is the printed form of that value |
| `MacAddresses.BroadcastRefusedIff` | cogsworth/common/act_utilities.hpp:197-202 | of all texts that parse to the broadcast value exactly one spelling is refused |
| `MacAddresses.ColonBroadcastAccepted` | cogsworth/common/act_utilities.hpp:197-202 | the spelling with colons is accepted, also as a chassis id |
| `AddressAllocator.AddressBook.AutoAssignIP` | cogsworth/common/act_project.hpp:1475-1507 | whenever the probe ends at all, it hands out the first eligible address in cyclic order from the start, of which there is only one; the used addresses stay as they are |
| `AddressAllocator.FirstEligibleMeaning` | cogsworth/common/act_project.hpp:1485-1488 | that address is unused, not 0 and does not end in 255, and every address passed over is used, 0, or ends in 255 |
| `AddressAllocator.QuadReads` | cogsworth/common/act_project.hpp:1490-1492 | its text is the decimal forms of its four octets, highest first, around dots |
| `AddressAllocator.ProbeEndsIff` | cogsworth/common/act_project.hpp:1485-1488 | the probe ends exactly when an eligible address exists |
| `AddressAllocator.GatewayIffShortOctet` | cogsworth/common/topology/act_device.hpp:262-275 | the gateway text is the .254 address of the subnet if and only if the last octet is below 100 |

## Assumptions

- End-station ids are not 0, the value the search reads as "unclaimed". Generated device ids start at 50001
  (`cogsworth/core/include/act_core.hpp:233-239`).
- Link ids are unique. The exactness results also need every device port to belong to at most one usable link and no link
  from a device to itself; cycles and parallel links are allowed wherever the search stops.
- Results that say "on a forest" (that the search stops, simple paths, cuts) need the
  usable links to have no cycle, no parallel links and no link from a device to itself.
- The run invariant is about configured ranges whose maximum is below 65535.

## Left out

- FindAllLinksBetweenEdges: needs the search to stop (HaltsIffNoTerritoryCycle says when); a search that does not is described by SafeAfterAnyTurns only.
- ExactWheneverItStops: networks with a link from a device to itself are not covered.
- AutoAssignIP: the start address is given as a number, so a malformed text, which the code reads as 0 with an error, is not modelled.
- MapGclSetting: intervals are exact reals cut to nanoseconds, so floating-point rounding and the conversion of intervals beyond 64 bits are not modelled; machine integers have 64 bits; queue numbers are not negative (the shift would panic); constant fields of the gate parameters are left out.
- MapIngressTables: reading an integer text is a parameter.
- IdentitiesTellIff: needs ports that are not negative and names that do not run into one another at a dash; among names that do, which sets still happen to be unambiguous is not characterised (DashCollides shows how they fail).
- UpdateAdmittedIff: static VLAN ids that do not fit 16 bits, which no request can create, are not covered.
- MacAddressToInt: the leniency of the Qt number parser (signs, blanks, prefixes) is not modelled, nor are other than ASCII letters in the upper-casing.
- IntToMacAddress: negative numbers are not modelled.
- GetProject and UpdateFullProject: reading and writing one stored project, each of which may fail; HTTP and JSON are left out, and so is GetIntelligentVLAN, which only returns the group.
- A path in the queue is its station and its hops; the station is not repeated in every hop as it is in the code.
- Device and port ids are unbounded integers; VLAN ids and addresses have their 16 and 32 bits.
- Table and device fields that the engine does not touch, error texts and logging.
- The mapper's translations of login policy, syslog, management interface, RSTP, time synchronisation, trap receivers, user accounts and device modules: each copies fields one to one and has no behaviour of its own.
- Deploying, monitoring, licensing, OPC UA, web and job code: it passes requests on to libraries and services whose code is not in the repository.
