/**
 Creating, updating and deleting intelligent VLANs: the part of a project they touch,
 the checks on a request, and the writes to the per-device VLAN tables.

 Iteration over a map has no fixed order; the methods take the next key with `AnyOf`,
 so that their contracts hold for every order.
 */
module VlanEngine {
  import opened Text
  import opened Collections
  import opened DeviceConfig
  import opened Graph
  import opened VlanSearch
  import opened VlanIds

  type VlanId = x: int | 0 <= x < ID_COUNT

  datatype StreamType = UnknownStream | Tagged | Untagged

  datatype IntelligentVlan = IntelligentVlan(vlanId: VlanId, streamType: StreamType, endStations: seq<int>)

  type VlanTables = map<int, VlanTable>

  datatype Interface = Interface(id: int, active: bool, used: bool)

  datatype NetDevice = NetDevice(id: int, interfaces: seq<Interface>)

  datatype Project = Project(
    devices: seq<NetDevice>, links: seq<Link>, vlanMin: int, vlanMax: int,
    tables: VlanTables, group: seq<IntelligentVlan>)

  datatype Response =
    | Ok
    | BackendError
    | TooFewStations
    | UnknownDevice(dev: int)
    | NoFreeVlanId
    | VlanIdOutOfRange
    | VlanIdInUse
    | UnknownStreamType
    | VlanNotFound

  // ----- the usable topology -----

  /** device -> its active and used interfaces; a later device of the same id replaces an earlier one. */
  function UsablePorts(devices: seq<NetDevice>): map<int, set<int>> {
    if devices == [] then map[]
    else
      var d := devices[|devices| - 1];
      UsablePorts(devices[..|devices| - 1])[d.id := set i | i in d.interfaces && i.active && i.used :: i.id]
  }

  predicate IsUsable(ports: map<int, set<int>>, l: Link) {
    && l.srcDev in ports && l.srcPort in ports[l.srcDev]
    && l.dstDev in ports && l.dstPort in ports[l.dstDev]
  }

  function UsableLinks(p: Project): set<Link> {
    set l | l in p.links && IsUsable(UsablePorts(p.devices), l)
  }

  function AddLink(topo: Topology, dev: int, l: Link): Topology {
    topo[dev := LinksAt(topo, dev) + [l]]
  }

  function AdjacencyLists(ports: map<int, set<int>>, links: seq<Link>): Topology {
    if links == [] then map[]
    else
      var l := links[|links| - 1];
      var topo := AdjacencyLists(ports, links[..|links| - 1]);
      if IsUsable(ports, l) then AddLink(AddLink(topo, l.srcDev, l), l.dstDev, l) else topo
  }

  function TopologyOf(p: Project): Topology {
    AdjacencyLists(UsablePorts(p.devices), p.links)
  }

  method BuildTopology(p: Project) returns (adj: Topology)
    ensures adj == TopologyOf(p)
  {
    var usable: map<int, set<int>> := map[];
    for i := 0 to |p.devices|
      invariant usable == UsablePorts(p.devices[..i])
    {
      var d := p.devices[i];
      var ids: set<int> := {};
      for j := 0 to |d.interfaces|
        invariant ids == set x | x in d.interfaces[..j] && x.active && x.used :: x.id
      {
        assert d.interfaces[..j + 1] == d.interfaces[..j] + [d.interfaces[j]];
        if d.interfaces[j].active && d.interfaces[j].used {
          ids := ids + {d.interfaces[j].id};
        }
      }
      assert d.interfaces[..|d.interfaces|] == d.interfaces;
      usable := usable[d.id := ids];
      assert p.devices[..i + 1][..i] == p.devices[..i];
    }
    assert p.devices[..|p.devices|] == p.devices;
    adj := map[];
    for i := 0 to |p.links|
      invariant adj == AdjacencyLists(usable, p.links[..i])
    {
      var l := p.links[i];
      assert p.links[..i + 1][..i] == p.links[..i];
      if !(l.srcDev in usable && l.srcPort in usable[l.srcDev]) {
        continue;
      }
      if !(l.dstDev in usable && l.dstPort in usable[l.dstDev]) {
        continue;
      }
      adj := AddLink(adj, l.srcDev, l);
      adj := AddLink(adj, l.dstDev, l);
    }
    assert p.links[..|p.links|] == p.links;
  }

  // ----- which VLAN ids are taken -----

  function UsedIds(tables: VlanTables): set<int> {
    set dev, e | dev in tables && e in tables[dev].statics :: UInt16(e.vlanId)
  }

  method CheckVlanIdUsed(tables: VlanTables, vlanId: VlanId) returns (used: bool)
    ensures used <==> vlanId in UsedIds(tables)
  {
    var rest := tables.Keys;
    while rest != {}
      invariant rest <= tables.Keys
      invariant forall dev, e :: dev in tables && dev !in rest && e in tables[dev].statics
                                 ==> UInt16(e.vlanId) != vlanId
    {
      var dev := AnyOf(rest);
      rest := rest - {dev};
      var entries := tables[dev].statics;
      for i := 0 to |entries|
        invariant forall j :: 0 <= j < i ==> UInt16(entries[j].vlanId) != vlanId
      {
        if UInt16(entries[i].vlanId) == vlanId {
          assert entries[i] in tables[dev].statics;
          return true;
        }
      }
    }
    return false;
  }

  method CollectUsedIds(tables: VlanTables) returns (used: set<int>)
    ensures used == UsedIds(tables)
  {
    used := {};
    var rest := tables.Keys;
    while rest != {}
      invariant rest <= tables.Keys
      invariant used == set dev, e | dev in tables && dev !in rest && e in tables[dev].statics :: UInt16(e.vlanId)
    {
      var dev := AnyOf(rest);
      ghost var before := used;
      var entries := tables[dev].statics;
      for i := 0 to |entries|
        invariant used == before + set e | e in entries[..i] :: UInt16(e.vlanId)
      {
        assert entries[..i + 1] == entries[..i] + [entries[i]];
        used := used + {UInt16(entries[i].vlanId)};
      }
      assert entries[..|entries|] == entries;
      rest := rest - {dev};
    }
  }

  // ----- the checks on a request -----

  datatype Admission = Admitted(vlanId: VlanId) | Refused(response: Response)

  predicate DeviceExists(devices: seq<NetDevice>, dev: int) {
    exists d :: d in devices && d.id == dev
  }

  function FirstUnknown(devices: seq<NetDevice>, stations: seq<int>): Option<int> {
    if stations == [] then None
    else if !DeviceExists(devices, stations[0]) then Some(stations[0])
    else FirstUnknown(devices, stations[1..])
  }

  function Admit(p: Project, req: IntelligentVlan): Admission {
    if |req.endStations| < 2 then Refused(TooFewStations)
    else match FirstUnknown(p.devices, req.endStations)
      case Some(dev) => Refused(UnknownDevice(dev))
      case None =>
        match req.streamType
        case Untagged =>
          (var id := UniqueVlanId(UsedIds(p.tables), UInt16(p.vlanMin), UInt16(p.vlanMax));
           FirstFreeIsSmallest(UsedIds(p.tables), UInt16(p.vlanMin), UInt16(p.vlanMax));
           FirstFreeIsSmallest(UsedIds(p.tables), 0, UInt16(p.vlanMax));
           if id.None? then Refused(NoFreeVlanId) else Admitted(id.value))
        case Tagged =>
          if !(UInt16(p.vlanMin) <= req.vlanId <= UInt16(p.vlanMax)) then Refused(VlanIdOutOfRange)
          else if req.vlanId in UsedIds(p.tables) then Refused(VlanIdInUse)
          else Admitted(req.vlanId)
        case UnknownStream => Refused(UnknownStreamType)
  }

  /** The request gets as far as the search for a free id, which then stops. */
  ghost predicate AdmissionHalts(p: Project, req: IntelligentVlan) {
    |req.endStations| >= 2 && FirstUnknown(p.devices, req.endStations).None? && req.streamType == Untagged
    ==> SearchEnds(UsedIds(p.tables), UInt16(p.vlanMin), UInt16(p.vlanMax))
  }

  /** The two loops of a Create that are not bounded by their input both stop, if they are reached. */
  ghost predicate CreateHalts(p: Project, req: IntelligentVlan) {
    AdmissionHalts(p, req) && (Admit(p, req).Admitted? ==> Halts(req.endStations, TopologyOf(p)))
  }

  method AdmitRequest(p: Project, req: IntelligentVlan) returns (adm: Admission)
    requires AdmissionHalts(p, req)
    ensures adm == Admit(p, req)
  {
    if |req.endStations| < 2 {
      return Refused(TooFewStations);
    }
    var known: set<int> := {};
    for i := 0 to |p.devices|
      invariant forall x :: x in known <==> exists j :: 0 <= j < i && p.devices[j].id == x
    {
      known := known + {p.devices[i].id};
    }
    forall x ensures x in known <==> DeviceExists(p.devices, x) {
      if DeviceExists(p.devices, x) {
        var d :| d in p.devices && d.id == x;
        var j :| 0 <= j < |p.devices| && p.devices[j] == d;
      }
    }
    for i := 0 to |req.endStations|
      invariant FirstUnknown(p.devices, req.endStations) == FirstUnknown(p.devices, req.endStations[i..])
    {
      if req.endStations[i] !in known {
        return Refused(UnknownDevice(req.endStations[i]));
      }
      assert req.endStations[i..][1..] == req.endStations[i + 1..];
    }
    if req.streamType == Untagged {
      var used := CollectUsedIds(p.tables);
      var id, found := FindUniqueVlanId(used, UInt16(p.vlanMin), UInt16(p.vlanMax));
      if !found {
        return Refused(NoFreeVlanId);
      }
      FirstFreeIsSmallest(used, UInt16(p.vlanMin), UInt16(p.vlanMax));
      FirstFreeIsSmallest(used, 0, UInt16(p.vlanMax));
      return Admitted(id);
    } else if req.streamType == Tagged {
      if req.vlanId < UInt16(p.vlanMin) || req.vlanId > UInt16(p.vlanMax) {
        return Refused(VlanIdOutOfRange);
      }
      var used := CheckVlanIdUsed(p.tables, req.vlanId);
      if used {
        return Refused(VlanIdInUse);
      }
      return Admitted(req.vlanId);
    } else {
      return Refused(UnknownStreamType);
    }
  }

  // ----- writing the tables -----

  /** A missing table reads as an empty one. */
  function TableOf(tables: VlanTables, dev: int): VlanTable {
    if dev in tables then tables[dev] else VlanTable(0, 0, [], [], [])
  }

  function PvidEntries(ports: seq<int>, vlanId: int): (r: seq<PortVlanEntry>)
    ensures |r| == |ports| && forall i :: 0 <= i < |ports| ==> r[i] == PortVlanEntry(ports[i], vlanId, "")
  {
    seq(|ports|, i requires 0 <= i < |ports| => PortVlanEntry(ports[i], vlanId, ""))
  }

  function AccessEntries(ports: seq<int>): (r: seq<PortTypeEntry>)
    ensures |r| == |ports| && forall i :: 0 <= i < |ports| ==> r[i] == PortTypeEntry(ports[i], "Access", "")
  {
    seq(|ports|, i requires 0 <= i < |ports| => PortTypeEntry(ports[i], "Access", ""))
  }

  function PortsOf(m: PortMap, dev: int): set<int> {
    if dev in m then m[dev].Keys else {}
  }

  /** The device has gained one PVID entry for each of these ports, and nothing else. */
  ghost predicate PvidsAdded(before: VlanTable, after: VlanTable, ports: set<int>, vlanId: int) {
    exists order :: Lists(order, ports)
                    && after == before.(portVlans := before.portVlans + PvidEntries(order, vlanId))
  }

  /** A static entry for the VLAN with these egress and untagged ports. */
  ghost predicate IsEntryFor(e: StaticEntry, egress: set<int>, untagged: set<int>, vlanId: VlanId) {
    && e.vlanId == vlanId && e.name == "v" + Decimal(vlanId) && !e.teMstid && e.vlanPriority == ""
    && Lists(e.egressPorts, egress) && Lists(e.untaggedPorts, untagged)
  }

  /** The device has gained one static entry for the VLAN and an access entry for each egress port. */
  ghost predicate StaticAdded(before: VlanTable, after: VlanTable, egress: set<int>, untagged: set<int>,
      vlanId: VlanId)
  {
    exists e :: IsEntryFor(e, egress, untagged, vlanId)
                && after == before.(statics := before.statics + [e],
                                    portTypes := before.portTypes + AccessEntries(e.egressPorts))
  }

  method ListPorts(ports: set<int>) returns (order: seq<int>)
    ensures Lists(order, ports)
  {
    order := [];
    var rest := ports;
    while rest != {}
      invariant rest <= ports
      invariant Lists(order, ports - rest)
    {
      var port := AnyOf(rest);
      order := order + [port];
      rest := rest - {port};
    }
  }

  method WritePvid(table: VlanTable, ports: set<int>, vlanId: VlanId) returns (written: VlanTable)
    ensures PvidsAdded(table, written, ports, vlanId)
  {
    written := table;
    ghost var order: seq<int> := [];
    var rest := ports;
    while rest != {}
      invariant rest <= ports
      invariant Lists(order, ports - rest)
      invariant written == table.(portVlans := table.portVlans + PvidEntries(order, vlanId))
    {
      var port := AnyOf(rest);
      written := written.(portVlans := written.portVlans + [PortVlanEntry(port, vlanId, "")]);
      assert PvidEntries(order + [port], vlanId) == PvidEntries(order, vlanId) + [PortVlanEntry(port, vlanId, "")];
      order := order + [port];
      rest := rest - {port};
    }
    assert Lists(order, ports);
  }

  method WritePvids(tables: VlanTables, edgePort: PortMap, vlanId: VlanId) returns (written: VlanTables)
    ensures written.Keys == tables.Keys + edgePort.Keys
    ensures forall dev :: dev in edgePort ==> PvidsAdded(TableOf(tables, dev), written[dev], edgePort[dev].Keys, vlanId)
    ensures forall dev :: dev in tables && dev !in edgePort ==> written[dev] == tables[dev]
  {
    written := tables;
    var devs := edgePort.Keys;
    while devs != {}
      invariant devs <= edgePort.Keys
      invariant written.Keys == tables.Keys + (edgePort.Keys - devs)
      invariant forall dev :: dev in edgePort.Keys - devs
                              ==> PvidsAdded(TableOf(tables, dev), written[dev], edgePort[dev].Keys, vlanId)
      invariant forall dev :: dev in tables && dev !in edgePort.Keys - devs ==> written[dev] == tables[dev]
    {
      var dev := AnyOf(devs);
      var table := WritePvid(TableOf(written, dev), edgePort[dev].Keys, vlanId);
      written := written[dev := table];
      devs := devs - {dev};
    }
  }

  method WriteStatic(table: VlanTable, egress: set<int>, untagged: set<int>, vlanId: VlanId)
    returns (written: VlanTable)
    ensures StaticAdded(table, written, egress, untagged, vlanId)
  {
    written := table;
    var egressPorts: seq<int> := [];
    var ports := egress;
    while ports != {}
      invariant ports <= egress
      invariant Lists(egressPorts, egress - ports)
      invariant written == table.(portTypes := table.portTypes + AccessEntries(egressPorts))
    {
      var port := AnyOf(ports);
      egressPorts := egressPorts + [port];
      written := written.(portTypes := written.portTypes + [PortTypeEntry(port, "Access", "")]);
      assert AccessEntries(egressPorts)
          == AccessEntries(egressPorts[..|egressPorts| - 1]) + [PortTypeEntry(port, "Access", "")];
      ports := ports - {port};
    }
    assert Lists(egressPorts, egress);
    var untaggedPorts := ListPorts(untagged);
    var e := StaticEntry(vlanId, "v" + Decimal(vlanId), false, egressPorts, untaggedPorts, "");
    assert IsEntryFor(e, egress, untagged, vlanId);
    written := written.(statics := written.statics + [e]);
  }

  method WriteStatics(tables: VlanTables, edgePort: PortMap, throughPort: PortMap, vlanId: VlanId)
    returns (written: VlanTables)
    ensures written.Keys == tables.Keys + throughPort.Keys
    ensures forall dev ::
              dev in throughPort ==> StaticAdded(TableOf(tables, dev), written[dev], throughPort[dev].Keys,
                  PortsOf(edgePort, dev), vlanId)
    ensures forall dev :: dev in tables && dev !in throughPort ==> written[dev] == tables[dev]
  {
    written := tables;
    var devs := throughPort.Keys;
    while devs != {}
      invariant devs <= throughPort.Keys
      invariant written.Keys == tables.Keys + (throughPort.Keys - devs)
      invariant forall dev ::
                  dev in throughPort.Keys - devs
                  ==> StaticAdded(TableOf(tables, dev), written[dev], throughPort[dev].Keys, PortsOf(edgePort, dev),
                      vlanId)
      invariant forall dev :: dev in tables && dev !in throughPort.Keys - devs ==> written[dev] == tables[dev]
    {
      var dev := AnyOf(devs);
      var table := WriteStatic(TableOf(written, dev), throughPort[dev].Keys, PortsOf(edgePort, dev), vlanId);
      written := written[dev := table];
      devs := devs - {dev};
    }
  }

  // ----- Create -----

  /** What a Create has done to one device's table. */
  ghost predicate TableCreated(before: VlanTable, after: VlanTable, dev: int, vlan: IntelligentVlan, found: State) {
    var mid := before.(portVlans := after.portVlans);
    && (if vlan.streamType == Untagged && dev in found.edgePort
        then PvidsAdded(before, mid, found.edgePort[dev].Keys, vlan.vlanId) else mid == before)
    && (if dev in found.throughPort
        then StaticAdded(mid, after, found.throughPort[dev].Keys, PortsOf(found.edgePort, dev), vlan.vlanId)
        else after == mid)
  }

  /** What a successful Create has done to the project. */
  ghost predicate Created(before: Project, after: Project, vlan: IntelligentVlan)
    requires Halts(vlan.endStations, TopologyOf(before))
  {
    var found := Final(vlan.endStations, TopologyOf(before));
    && after == before.(tables := after.tables, group := before.group + [vlan])
    && after.tables.Keys == before.tables.Keys + found.throughPort.Keys
                            + (if vlan.streamType == Untagged then found.edgePort.Keys else {})
    && (forall dev :: dev in after.tables
                      ==> TableCreated(TableOf(before.tables, dev), after.tables[dev], dev, vlan, found))
  }

  ghost predicate CreateOutcome(before: Project, after: Project, res: Response, getOk: bool, putOk: bool,
      req: IntelligentVlan)
    requires getOk ==> CreateHalts(before, req)
  {
    if !getOk then res == BackendError && after == before
    else match Admit(before, req)
      case Refused(response) => res == response && after == before
      case Admitted(id) =>
        if putOk then res == Ok && Created(before, after, req.(vlanId := id))
        else res == BackendError && after == before
  }

  // ----- Delete -----

  function GroupIndex(group: seq<IntelligentVlan>, vlanId: int): nat {
    FirstWhere(group, (v: IntelligentVlan) => v.vlanId == vlanId)
  }

  function StaticIndex(entries: seq<StaticEntry>, vlanId: int): nat {
    FirstWhere(entries, (e: StaticEntry) => e.vlanId == vlanId)
  }

  /** The sequence without its k-th element; unchanged if there is none. */
  function RemoveAt<T>(s: seq<T>, k: nat): seq<T> {
    if k < |s| then s[..k] + s[k + 1..] else s
  }

  function ResetPvids(entries: seq<PortVlanEntry>, vlanId: int, managementVlan: int): seq<PortVlanEntry> {
    seq(|entries|, i requires 0 <= i < |entries| =>
      if entries[i].pvid == vlanId then entries[i].(pvid := managementVlan) else entries[i])
  }

  function TableDeleted(t: VlanTable, vlanId: int): VlanTable {
    t.(portVlans := ResetPvids(t.portVlans, vlanId, t.managementVlan),
       statics := RemoveAt(t.statics, StaticIndex(t.statics, vlanId)))
  }

  function Deleted(p: Project, vlanId: int): Project {
    p.(group := RemoveAt(p.group, GroupIndex(p.group, vlanId)),
       tables := map dev | dev in p.tables :: TableDeleted(p.tables[dev], vlanId))
  }

  ghost predicate InGroup(p: Project, vlanId: int) {
    exists i :: 0 <= i < |p.group| && p.group[i].vlanId == vlanId
  }

  ghost predicate DeleteOutcome(before: Project, after: Project, res: Response, getOk: bool, putOk: bool,
      vlanId: VlanId)
  {
    if !getOk then res == BackendError && after == before
    else if !InGroup(before, vlanId) then res == VlanNotFound && after == before
    else if putOk then res == Ok && after == Deleted(before, vlanId)
    else res == BackendError && after == before
  }

  method ResetEntries(entries: seq<PortVlanEntry>, vlanId: VlanId, managementVlan: int)
    returns (reset: seq<PortVlanEntry>)
    ensures reset == ResetPvids(entries, vlanId, managementVlan)
  {
    reset := entries;
    for idx := 0 to |entries|
      invariant |reset| == |entries|
      invariant forall i :: 0 <= i < idx ==>
                  reset[i] == if entries[i].pvid == vlanId then entries[i].(pvid := managementVlan) else entries[i]
      invariant forall i :: idx <= i < |entries| ==> reset[i] == entries[i]
    {
      if reset[idx].pvid == vlanId {
        reset := reset[idx := reset[idx].(pvid := managementVlan)];
      }
    }
  }

  method RemoveStatic(entries: seq<StaticEntry>, vlanId: VlanId) returns (kept: seq<StaticEntry>)
    ensures kept == RemoveAt(entries, StaticIndex(entries, vlanId))
  {
    for idx := 0 to |entries|
      invariant StaticIndex(entries, vlanId) >= idx
    {
      if entries[idx].vlanId == vlanId {
        return entries[..idx] + entries[idx + 1..];
      }
    }
    return entries;
  }

  method ClearTable(table: VlanTable, vlanId: VlanId) returns (cleared: VlanTable)
    ensures cleared == TableDeleted(table, vlanId)
  {
    var portVlans := ResetEntries(table.portVlans, vlanId, table.managementVlan);
    var statics := RemoveStatic(table.statics, vlanId);
    cleared := table.(portVlans := portVlans, statics := statics);
  }

  method ClearTables(tables: VlanTables, vlanId: VlanId) returns (cleared: VlanTables)
    ensures cleared == map dev | dev in tables :: TableDeleted(tables[dev], vlanId)
  {
    cleared := tables;
    var rest := tables.Keys;
    while rest != {}
      invariant rest <= tables.Keys
      invariant cleared
              == map dev | dev in tables :: if dev in rest then tables[dev] else TableDeleted(tables[dev], vlanId)
    {
      var dev := AnyOf(rest);
      var table := ClearTable(cleared[dev], vlanId);
      cleared := cleared[dev := table];
      rest := rest - {dev};
    }
  }

  // ----- the stored project -----

  /** The project as the backend stores it. `getOk` and `putOk` say whether reading it and
      writing it back succeed. */
  class Backend {
    var project: Project

    constructor (p: Project)
      ensures project == p
    {
      project := p;
    }

    method CreateIntelligentVlan(getOk: bool, putOk: bool, req: IntelligentVlan) returns (res: Response)
      requires getOk ==> CreateHalts(project, req)
      modifies this
      ensures CreateOutcome(old(project), project, res, getOk, putOk, req)
      ensures res != Ok ==> project == old(project)
      ensures res == Ok <==> getOk && putOk && Admit(old(project), req).Admitted?
    {
      if !getOk {
        return BackendError;
      }
      var p := project;
      var adm := AdmitRequest(p, req);
      if adm.Refused? {
        return adm.response;
      }
      var vlan := req.(vlanId := adm.vlanId);
      var adj := BuildTopology(p);
      var edgePort, throughPort := FindAllLinksBetweenEdges(vlan.endStations, adj);
      var tables := p.tables;
      if vlan.streamType == Untagged {
        tables := WritePvids(tables, edgePort, vlan.vlanId);
      }
      ghost var mid := tables;
      tables := WriteStatics(tables, edgePort, throughPort, vlan.vlanId);
      forall dev | dev in tables
        ensures TableCreated(TableOf(p.tables, dev), tables[dev], dev, vlan, Final(vlan.endStations, adj))
      {
        assert dev in throughPort
            ==> StaticAdded(TableOf(mid, dev), tables[dev], throughPort[dev].Keys, PortsOf(edgePort, dev), vlan.vlanId);
        assert dev !in throughPort ==> tables[dev] == TableOf(mid, dev);
      }
      p := p.(tables := tables, group := p.group + [vlan]);
      if !putOk {
        return BackendError;
      }
      project := p;
      return Ok;
    }

    method DeleteIntelligentVlan(getOk: bool, putOk: bool, vlanId: VlanId) returns (res: Response)
      modifies this
      ensures DeleteOutcome(old(project), project, res, getOk, putOk, vlanId)
      ensures res != Ok ==> project == old(project)
      ensures res == Ok
              <==> getOk && putOk
                   && exists i :: 0 <= i < |old(project).group| && old(project).group[i].vlanId == vlanId
    {
      if !getOk {
        return BackendError;
      }
      var p := project;
      var found := false;
      for idx := 0 to |p.group|
        invariant !found && p == old(project) && GroupIndex(old(project).group, vlanId) >= idx
      {
        if p.group[idx].vlanId == vlanId {
          p := p.(group := p.group[..idx] + p.group[idx + 1..]);
          found := true;
          break;
        }
      }
      if !found {
        return VlanNotFound;
      }
      var tables := ClearTables(p.tables, vlanId);
      p := p.(tables := tables);
      if !putOk {
        return BackendError;
      }
      project := p;
      return Ok;
    }

    /** Delete, then Create; each half reads and writes the stored project for itself. */
    method UpdateIntelligentVlan(getOk: bool, putOk: bool, getOk2: bool, putOk2: bool, vlanId: VlanId,
        req: IntelligentVlan)
      returns (res: Response)
      requires getOk && putOk && InGroup(project, vlanId) && getOk2 ==> CreateHalts(Deleted(project, vlanId), req)
      modifies this
      ensures if getOk && putOk && InGroup(old(project), vlanId)
              then CreateOutcome(Deleted(old(project), vlanId), project, res, getOk2, putOk2, req)
              else res != Ok && DeleteOutcome(old(project), project, res, getOk, putOk, vlanId)
    {
      res := DeleteIntelligentVlan(getOk, putOk, vlanId);
      if res != Ok {
        return;
      }
      res := CreateIntelligentVlan(getOk2, putOk2, req);
    }
  }
}
