/**
 What creating and deleting intelligent VLANs achieves: the new VLAN reaches exactly
 the ports between its end stations, a Delete undoes a Create, and an invariant over
 every run of Create, Update and Delete.
 */
module VlanEngineTheorems {
  import opened Text
  import opened Collections
  import opened DeviceConfig
  import opened Graph
  import opened VlanSearch
  import opened VlanIds
  import opened VlanEngine
  import opened SearchInvariant
  import opened SearchExactness
  import opened SearchTermination
  import opened SearchTheorems

  /** Link ids are unique and no device has the id 0, which the search reads as "unclaimed". */
  ghost predicate SoundProject(p: Project) {
    && (forall i, j :: 0 <= i < j < |p.links| ==> p.links[i].id != p.links[j].id)
    && !DeviceExists(p.devices, 0)
  }

  // ----- the usable topology -----

  lemma {:induction false} AdjacencyMembers(ports: map<int, set<int>>, links: seq<Link>, d: int, l: Link)
    ensures l in LinksAt(AdjacencyLists(ports, links), d)
            <==> l in links && IsUsable(ports, l) && (l.srcDev == d || l.dstDev == d)
  {
    if links != [] {
      var k := |links| - 1;
      AdjacencyMembers(ports, links[..k], d, l);
      assert links == links[..k] + [links[k]];
    }
  }

  lemma UsableAdjacency(p: Project)
    ensures Adjacent(UsableLinks(p), TopologyOf(p))
  {
    forall d, l
      ensures l in LinksAt(TopologyOf(p), d) <==> l in UsableLinks(p) && (l.srcDev == d || l.dstDev == d)
    {
      AdjacencyMembers(UsablePorts(p.devices), p.links, d, l);
    }
  }

  /** An active and used interface of the device has the port. */
  ghost predicate PortUp(d: NetDevice, port: int) {
    exists x :: x in d.interfaces && x.id == port && x.active && x.used
  }

  /** The device at place k is the last one with the id. */
  ghost predicate IsLastOf(devices: seq<NetDevice>, dev: int, k: int) {
    0 <= k < |devices| && devices[k].id == dev && forall m :: k < m < |devices| ==> devices[m].id != dev
  }

  /** An active and used interface of the last device of that id has the port. */
  ghost predicate PortUsable(devices: seq<NetDevice>, dev: int, port: int) {
    exists k :: IsLastOf(devices, dev, k) && PortUp(devices[k], port)
  }

  lemma {:induction false} UsablePortsMeaning(devices: seq<NetDevice>, dev: int, port: int)
    ensures dev in UsablePorts(devices) && port in UsablePorts(devices)[dev] <==> PortUsable(devices, dev, port)
  {
    if devices != [] {
      var n := |devices| - 1;
      UsablePortsMeaning(devices[..n], dev, port);
      if devices[n].id == dev {
        assert IsLastOf(devices, dev, n);
        assert PortUsable(devices, dev, port) <==> PortUp(devices[n], port);
      } else {
        assert forall k :: IsLastOf(devices, dev, k) <==> IsLastOf(devices[..n], dev, k);
      }
    }
  }

  /** A link is usable exactly when the interfaces at both its ends are active and used. */
  lemma UsableLinksMeaning(p: Project, l: Link)
    ensures l in UsableLinks(p)
            <==> l in p.links
                 && PortUsable(p.devices, l.srcDev, l.srcPort) && PortUsable(p.devices, l.dstDev, l.dstPort)
  {
    UsablePortsMeaning(p.devices, l.srcDev, l.srcPort);
    UsablePortsMeaning(p.devices, l.dstDev, l.dstPort);
  }

  lemma UsableDistinctIds(p: Project)
    requires SoundProject(p)
    ensures DistinctIds(UsableLinks(p))
  {
    forall l, m | l in UsableLinks(p) && m in UsableLinks(p) && l.id == m.id ensures l == m {
      var i :| 0 <= i < |p.links| && p.links[i] == l;
      var j :| 0 <= j < |p.links| && p.links[j] == m;
      if i < j {} else if j < i {}
    }
  }

  // ----- admission -----

  lemma {:induction false} FirstUnknownNone(devices: seq<NetDevice>, stations: seq<int>)
    ensures FirstUnknown(devices, stations).None? <==> forall e :: e in stations ==> DeviceExists(devices, e)
  {
    if stations != [] {
      assert stations == [stations[0]] + stations[1..];
      FirstUnknownNone(devices, stations[1..]);
    }
  }

  /** An admitted request names existing devices and gets an id no static entry uses; the id is
      in the configured range unless the maximum is 65535. */
  lemma AdmittedIsFree(p: Project, req: IntelligentVlan)
    requires Admit(p, req).Admitted?
    ensures forall e :: e in req.endStations ==> DeviceExists(p.devices, e)
    ensures Admit(p, req).vlanId !in UsedIds(p.tables)
    ensures UInt16(p.vlanMax) < ID_COUNT - 1 ==> UInt16(p.vlanMin) <= Admit(p, req).vlanId <= UInt16(p.vlanMax)
    ensures SoundProject(p) ==> 0 !in req.endStations
  {
    FirstUnknownNone(p.devices, req.endStations);
    FirstFreeIsSmallest(UsedIds(p.tables), UInt16(p.vlanMin), UInt16(p.vlanMax));
    FirstFreeIsSmallest(UsedIds(p.tables), 0, UInt16(p.vlanMax));
  }

  /** Exactly which requests are admitted, and with which id: a tagged stream keeps its own unused id; an
      untagged one gets the smallest unused id of the range, or with the maximum at 65535 and the range used
      up, the smallest unused id of all. */
  lemma AdmittedIff(p: Project, req: IntelligentVlan)
    ensures var used, min, max := UsedIds(p.tables), UInt16(p.vlanMin), UInt16(p.vlanMax);
            var lowest := if max == ID_COUNT - 1 then 0 else min;
            Admit(p, req).Admitted?
            <==> |req.endStations| >= 2 && (forall e :: e in req.endStations ==> DeviceExists(p.devices, e))
                 && (|| (req.streamType == Tagged && min <= req.vlanId <= max && req.vlanId !in used)
                     || (req.streamType == Untagged && exists x :: lowest <= x <= max && x !in used))
    ensures Admit(p, req).Admitted? && req.streamType == Tagged ==> Admit(p, req).vlanId == req.vlanId
    ensures Admit(p, req).Admitted? && req.streamType == Untagged
            ==> var used, min, id := UsedIds(p.tables), UInt16(p.vlanMin), Admit(p, req).vlanId;
                && (forall x :: min <= x < id ==> x in used)
                && (id < min ==> forall x :: 0 <= x < id || min <= x < ID_COUNT ==> x in used)
  {
    var used, min, max := UsedIds(p.tables), UInt16(p.vlanMin), UInt16(p.vlanMax);
    FirstUnknownNone(p.devices, req.endStations);
    FirstFreeIsSmallest(used, min, max);
    FirstFreeIsSmallest(used, 0, max);
  }

  /** What a refused request is told. */
  lemma RefusedWith(p: Project, req: IntelligentVlan)
    requires Admit(p, req).Refused?
    ensures var res, min, max := Admit(p, req).response, UInt16(p.vlanMin), UInt16(p.vlanMax);
            if |req.endStations| < 2 then res == TooFewStations
            else if exists e :: e in req.endStations && !DeviceExists(p.devices, e)
            then exists k :: 0 <= k < |req.endStations| && res == UnknownDevice(req.endStations[k])
                             && !DeviceExists(p.devices, req.endStations[k])
                             && forall j :: 0 <= j < k ==> DeviceExists(p.devices, req.endStations[j])
            else if req.streamType == Untagged then res == NoFreeVlanId
            else if req.streamType == Tagged && (req.vlanId < min || max < req.vlanId) then res == VlanIdOutOfRange
            else if req.streamType == Tagged then res == VlanIdInUse && req.vlanId in UsedIds(p.tables)
            else res == UnknownStreamType
  {
    FirstUnknownNone(p.devices, req.endStations);
    if FirstUnknown(p.devices, req.endStations).Some? {
      var _ := FirstUnknownIsFirst(p.devices, req.endStations);
    }
  }

  lemma {:induction false} FirstUnknownIsFirst(devices: seq<NetDevice>, stations: seq<int>) returns (k: nat)
    requires FirstUnknown(devices, stations).Some?
    ensures k < |stations| && stations[k] == FirstUnknown(devices, stations).value
    ensures !DeviceExists(devices, stations[k])
    ensures forall j :: 0 <= j < k ==> DeviceExists(devices, stations[j])
  {
    k := 0;
    if DeviceExists(devices, stations[0]) {
      var rest := FirstUnknownIsFirst(devices, stations[1..]);
      k := rest + 1;
    }
  }

  /** Exactly which requests end: the search for an id must not run round a full 16-bit range, and no
      cycle of usable links, and no two links from devices to themselves, may lie wholly among the devices
      nearest to one of the end stations. */
  lemma CreateHaltsIff(p: Project, req: IntelligentVlan)
    requires SoundProject(p)
    ensures CreateHalts(p, req)
            <==> (|req.endStations| >= 2 && (forall e :: e in req.endStations ==> DeviceExists(p.devices, e))
                  && req.streamType == Untagged && UInt16(p.vlanMax) == ID_COUNT - 1
                  ==> exists x :: 0 <= x < ID_COUNT && x !in UsedIds(p.tables))
                 && (Admit(p, req).Admitted? ==> !TerritoryHasCycle(UsableLinks(p), req.endStations))
  {
    FirstUnknownNone(p.devices, req.endStations);
    SearchEndsIff(UsedIds(p.tables), UInt16(p.vlanMin), UInt16(p.vlanMax));
    if Admit(p, req).Admitted? {
      AdmittedIsFree(p, req);
      UsableDistinctIds(p);
      UsableAdjacency(p);
      HaltsIffNoTerritoryCycle(UsableLinks(p), req.endStations, TopologyOf(p));
    }
  }

  /** On a forest every request ends. */
  lemma CreateHaltsOnForest(p: Project, req: IntelligentVlan)
    requires SoundProject(p) && Forest(UsableLinks(p)) && UInt16(p.vlanMax) < ID_COUNT - 1
    ensures CreateHalts(p, req)
  {
    SearchEndsIff(UsedIds(p.tables), UInt16(p.vlanMin), UInt16(p.vlanMax));
    if Admit(p, req).Admitted? {
      AdmittedIsFree(p, req);
      UsableDistinctIds(p);
      UsableAdjacency(p);
      HaltsOnForest(UsableLinks(p), req.endStations, TopologyOf(p));
    }
  }

  // ----- static entries -----

  ghost predicate HasStatic(tables: VlanTables, vlanId: int) {
    exists dev, e :: dev in tables && e in tables[dev].statics && e.vlanId == vlanId
  }

  /** Port `port` of device `dev` is in the egress ports of a static entry for the VLAN. */
  ghost predicate Carries(tables: VlanTables, dev: int, port: int, vlanId: int) {
    dev in tables && exists e :: e in tables[dev].statics && e.vlanId == vlanId && port in e.egressPorts
  }

  ghost predicate SendsUntagged(tables: VlanTables, dev: int, port: int, vlanId: int) {
    dev in tables && exists e :: e in tables[dev].statics && e.vlanId == vlanId && port in e.untaggedPorts
  }

  /** An id is in use exactly when a static entry has it, counted in 16 bits. */
  lemma UsedIdsMeaning(tables: VlanTables, x: int)
    requires 0 <= x < 65536
    ensures x in UsedIds(tables)
            <==> exists dev, e :: dev in tables && e in tables[dev].statics && (e.vlanId - x) % 65536 == 0
  {
    if x in UsedIds(tables) {
      var dev, e :| dev in tables && e in tables[dev].statics && UInt16(e.vlanId) == x;
      assert (e.vlanId - x) % 65536 == 0;
    }
    if dev, e :| dev in tables && e in tables[dev].statics && (e.vlanId - x) % 65536 == 0 {
      assert UInt16(e.vlanId) == x;
    }
  }

  lemma UnusedHasNoStatic(tables: VlanTables, vlanId: VlanId)
    requires vlanId !in UsedIds(tables)
    ensures forall dev, e :: dev in tables && e in tables[dev].statics ==> e.vlanId != vlanId
  {
    forall dev, e | dev in tables && e in tables[dev].statics ensures e.vlanId != vlanId {
      assert UInt16(e.vlanId) in UsedIds(tables);
    }
  }

  /** A Create appends one static entry to each device the search has recorded, and touches no other. */
  lemma CreatedStatics(before: Project, after: Project, vlan: IntelligentVlan, dev: int) returns (e: StaticEntry)
    requires Halts(vlan.endStations, TopologyOf(before)) && Created(before, after, vlan) && dev in after.tables
    ensures var found := Final(vlan.endStations, TopologyOf(before));
            if dev in found.throughPort
            then IsEntryFor(e, found.throughPort[dev].Keys, PortsOf(found.edgePort, dev), vlan.vlanId)
                 && after.tables[dev].statics == TableOf(before.tables, dev).statics + [e]
            else after.tables[dev].statics == TableOf(before.tables, dev).statics
  {
    var found := Final(vlan.endStations, TopologyOf(before));
    var b, a := TableOf(before.tables, dev), after.tables[dev];
    assert TableCreated(b, a, dev, vlan, found);
    if dev in found.throughPort {
      var mid := b.(portVlans := a.portVlans);
      e :| IsEntryFor(e, found.throughPort[dev].Keys, PortsOf(found.edgePort, dev), vlan.vlanId)
           && a == mid.(statics := mid.statics + [e], portTypes := mid.portTypes + AccessEntries(e.egressPorts));
    } else {
      e := StaticEntry(0, "", false, [], [], "");
    }
  }

  /** The egress ports of the new entries are the recorded ports. */
  lemma CreatedCarries(before: Project, after: Project, vlan: IntelligentVlan, dev: int, port: int)
    requires Halts(vlan.endStations, TopologyOf(before)) && Created(before, after, vlan)
    requires vlan.vlanId !in UsedIds(before.tables)
    ensures var found := Final(vlan.endStations, TopologyOf(before));
            (Carries(after.tables, dev, port, vlan.vlanId) <==> HasPort(found.throughPort, dev, port))
            && (SendsUntagged(after.tables, dev, port, vlan.vlanId)
                <==> dev in found.throughPort && HasPort(found.edgePort, dev, port))
  {
    var found := Final(vlan.endStations, TopologyOf(before));
    UnusedHasNoStatic(before.tables, vlan.vlanId);
    if dev in after.tables {
      var e := CreatedStatics(before, after, vlan, dev);
      assert forall x :: x in TableOf(before.tables, dev).statics ==> x.vlanId != vlan.vlanId;
      if dev in found.throughPort {
        assert e in after.tables[dev].statics;
      }
    }
  }

  /** The VLAN gets a static entry somewhere exactly when the search has recorded anything. */
  lemma StaticIffRecorded(before: Project, after: Project, vlan: IntelligentVlan)
    requires vlan.vlanId !in UsedIds(before.tables)
    requires Halts(vlan.endStations, TopologyOf(before)) && Created(before, after, vlan)
    ensures HasStatic(after.tables, vlan.vlanId) <==> Final(vlan.endStations, TopologyOf(before)).throughPort != map[]
  {
    var found := Final(vlan.endStations, TopologyOf(before));
    if HasStatic(after.tables, vlan.vlanId) {
      var dev, e :| dev in after.tables && e in after.tables[dev].statics && e.vlanId == vlan.vlanId;
      var _ := CreatedStatics(before, after, vlan, dev);
      if dev !in found.throughPort {
        assert e in TableOf(before.tables, dev).statics;
        UnusedHasNoStatic(before.tables, vlan.vlanId);
        assert false;
      }
    }
    if found.throughPort != map[] {
      var dev := SomeKey(found.throughPort);
      var e := CreatedStatics(before, after, vlan, dev);
      assert e in after.tables[dev].statics;
    }
  }

  /** The VLAN gets a static entry somewhere exactly when two of its end stations are connected. */
  lemma StaticIffJoined(before: Project, after: Project, vlan: IntelligentVlan)
    requires SoundProject(before) && 0 !in vlan.endStations && vlan.vlanId !in UsedIds(before.tables)
    requires Halts(vlan.endStations, TopologyOf(before)) && Created(before, after, vlan)
    ensures HasStatic(after.tables, vlan.vlanId) <==> Joined(UsableLinks(before), vlan.endStations)
  {
    UsableAdjacency(before);
    UsableDistinctIds(before);
    RecordsIffJoined(UsableLinks(before), vlan.endStations, TopologyOf(before));
    StaticIffRecorded(before, after, vlan);
  }

  /** With no two end stations joined the search records no port at all. */
  lemma UnjoinedRecordsNothing(g: set<Link>, stations: seq<int>, topo: Topology)
    requires DistinctIds(g) && Adjacent(g, topo) && 0 !in stations && Halts(stations, topo) && !Joined(g, stations)
    ensures Final(stations, topo).throughPort == map[] && Final(stations, topo).edgePort == map[]
  {
    RecordsIffJoined(g, stations, topo);
    EdgeWithinThrough(g, stations, topo);
    var n: nat :| Run(stations, topo, n).queue == [];
    FinalIsRun(stations, topo, n);
    DevicesHavePorts(stations, topo, n);
    var edge := Final(stations, topo).edgePort;
    if edge != map[] {
      var d := SomeKey(edge);
      var p := SomeKey(edge[d]);
      assert HasPort(edge, d, p);
    }
  }

  /** A Create that joins nothing writes no table, so the same untagged request is given the same
      id again and the group then holds that id twice. */
  lemma UnjoinedCreateRepeatsId(p: Project, q: Project, r: Project, req: IntelligentVlan)
    requires SoundProject(p) && CreateHalts(p, req) && Admit(p, req).Admitted?
    requires req.streamType == Untagged && !Joined(UsableLinks(p), req.endStations)
    requires Created(p, q, req.(vlanId := Admit(p, req).vlanId))
    ensures q.tables == p.tables && Admit(q, req) == Admit(p, req)
    ensures Created(q, r, req.(vlanId := Admit(q, req).vlanId))
            ==> |r.group| == |p.group| + 2 && r.group[|p.group|].vlanId == r.group[|p.group| + 1].vlanId
  {
    var vlan := req.(vlanId := Admit(p, req).vlanId);
    AdmittedIsFree(p, req);
    UsableAdjacency(p);
    UsableDistinctIds(p);
    UnjoinedRecordsNothing(UsableLinks(p), req.endStations, TopologyOf(p));
    forall dev | dev in q.tables ensures q.tables[dev] == p.tables[dev] {
      assert TableCreated(TableOf(p.tables, dev), q.tables[dev], dev, vlan, Final(vlan.endStations, TopologyOf(p)));
    }
    assert q.tables.Keys == p.tables.Keys;
  }

  // ----- connectivity and isolation -----

  /** Whenever the search has stopped, the new VLAN is carried by exactly the member ports of its end
      stations, all on trails between two of them, and leaves untagged exactly at the edge ports. */
  lemma VlanReachesExactlyMembers(before: Project, after: Project, vlan: IntelligentVlan)
    requires SoundProject(before) && DistinctPorts(UsableLinks(before)) && NoLoopLinks(UsableLinks(before))
    requires 0 !in vlan.endStations && vlan.vlanId !in UsedIds(before.tables)
    requires Halts(vlan.endStations, TopologyOf(before)) && Created(before, after, vlan)
    ensures forall h :: h in Hops(UsableLinks(before))
                        ==> (Carries(after.tables, h.nextDev, h.nextPort, vlan.vlanId)
                             <==> IsMember(UsableLinks(before), vlan.endStations, h))
    ensures forall dev, port :: Carries(after.tables, dev, port, vlan.vlanId)
                                ==> exists l :: IsEndpoint(UsableLinks(before), dev, port, l)
                                                && OnStationTrail(UsableLinks(before), vlan.endStations, l)
    ensures forall dev, port :: SendsUntagged(after.tables, dev, port, vlan.vlanId)
                                <==> exists l :: IsEdgePort(UsableLinks(before), vlan.endStations, dev, port, l)
    ensures forall dev, port :: SendsUntagged(after.tables, dev, port, vlan.vlanId)
                                ==> Carries(after.tables, dev, port, vlan.vlanId)
  {
    var g, stations, topo := UsableLinks(before), vlan.endStations, TopologyOf(before);
    var found := Final(stations, topo);
    UsableAdjacency(before);
    UsableDistinctIds(before);
    ExactWheneverItStops(g, stations, topo);
    EdgeWithinThrough(g, stations, topo);
    forall h | h in Hops(g)
      ensures Carries(after.tables, h.nextDev, h.nextPort, vlan.vlanId) <==> IsMember(g, stations, h)
    {
      CreatedCarries(before, after, vlan, h.nextDev, h.nextPort);
      OwnPortsOnly(g, stations, topo, h);
    }
    forall dev, port | Carries(after.tables, dev, port, vlan.vlanId)
      ensures exists l :: IsEndpoint(g, dev, port, l) && OnStationTrail(g, stations, l)
    {
      CreatedCarries(before, after, vlan, dev, port);
      var l := found.throughPort[dev][port];
      assert PortLink(found.throughPort, dev, port, l);
      assert LinkRecorded(found.throughPort, l);
    }
    forall dev, port
      ensures SendsUntagged(after.tables, dev, port, vlan.vlanId) <==> exists l :: IsEdgePort(g, stations, dev, port, l)
      ensures SendsUntagged(after.tables, dev, port, vlan.vlanId) ==> Carries(after.tables, dev, port, vlan.vlanId)
    {
      CreatedCarries(before, after, vlan, dev, port);
      EdgePortMeaning(g, stations, found, dev, port);
    }
  }

  /** On a forest these are the switch ports on the simple paths between the end stations. */
  lemma VlanReachesExactlyStationPaths(before: Project, after: Project, vlan: IntelligentVlan)
    requires SoundProject(before) && DistinctPorts(UsableLinks(before)) && Forest(UsableLinks(before))
    requires 0 !in vlan.endStations && vlan.vlanId !in UsedIds(before.tables)
    requires Halts(vlan.endStations, TopologyOf(before)) && Created(before, after, vlan)
    ensures forall h :: h in Hops(UsableLinks(before)) && h.nextDev !in vlan.endStations
                        ==> (Carries(after.tables, h.nextDev, h.nextPort, vlan.vlanId)
                             <==> OnStationPath(UsableLinks(before), vlan.endStations, h.linkId))
  {
    ForestHasNoLoopLinks(UsableLinks(before));
    UsableDistinctIds(before);
    VlanReachesExactlyMembers(before, after, vlan);
    forall l ensures OnStationTrail(UsableLinks(before), vlan.endStations, l)
                    <==> OnStationPath(UsableLinks(before), vlan.endStations, l)
    {
      ForestStationTrails(UsableLinks(before), vlan.endStations, l);
    }
  }

  lemma EdgePortMeaning(g: set<Link>, stations: seq<int>, found: State, dev: int, port: int)
    requires forall d, p, l :: PortLink(found.edgePort, d, p, l) <==> IsEdgePort(g, stations, d, p, l)
    ensures HasPort(found.edgePort, dev, port) <==> exists l :: IsEdgePort(g, stations, dev, port, l)
  {
    if HasPort(found.edgePort, dev, port) {
      assert PortLink(found.edgePort, dev, port, found.edgePort[dev][port]);
    }
    if l :| IsEdgePort(g, stations, dev, port, l) {
      assert PortLink(found.edgePort, dev, port, l);
    }
  }

  lemma EdgeWithinThrough(g: set<Link>, stations: seq<int>, topo: Topology)
    requires DistinctIds(g) && Adjacent(g, topo) && 0 !in stations && Halts(stations, topo)
    ensures forall d, p :: HasPort(Final(stations, topo).edgePort, d, p)
                           ==> HasPort(Final(stations, topo).throughPort, d, p)
  {
    var n: nat :| Run(stations, topo, n).queue == [];
    FinalIsRun(stations, topo, n);
    SafeAfterAnyTurns(g, stations, topo, n);
  }

  /** Every switch port along the path carries the VLAN. */
  ghost predicate CarriedAlong(tables: VlanTables, stations: seq<int>, w: seq<Hop>, vlanId: int) {
    forall i :: 0 <= i < |w| ==>
      && (w[i].currDev !in stations ==> Carries(tables, w[i].currDev, w[i].currPort, vlanId))
      && (w[i].nextDev !in stations ==> Carries(tables, w[i].nextDev, w[i].nextPort, vlanId))
  }

  /** Connected end stations are joined by a path that carries the VLAN throughout. */
  lemma VlanConnectsStations(before: Project, after: Project, vlan: IntelligentVlan, s: int, t: int)
    returns (w: seq<Hop>)
    requires SoundProject(before) && DistinctPorts(UsableLinks(before)) && NoLoopLinks(UsableLinks(before))
    requires 0 !in vlan.endStations && vlan.vlanId !in UsedIds(before.tables)
    requires Halts(vlan.endStations, TopologyOf(before)) && Created(before, after, vlan)
    requires s in vlan.endStations && t in vlan.endStations && s != t && Connected(UsableLinks(before), s, t)
    ensures IsSimplePath(UsableLinks(before), w) && Start(w) == s && End(w) == t
    ensures CarriedAlong(after.tables, vlan.endStations, w, vlan.vlanId)
  {
    var g := UsableLinks(before);
    w := ConnectedBySimplePath(g, s, t);
    UsableDistinctIds(before);
    SimplePathIsTrail(g, w);
    VlanReachesExactlyMembers(before, after, vlan);
    forall i | 0 <= i < |w|
      ensures w[i].currDev !in vlan.endStations ==> Carries(after.tables, w[i].currDev, w[i].currPort, vlan.vlanId)
      ensures w[i].nextDev !in vlan.endStations ==> Carries(after.tables, w[i].nextDev, w[i].nextPort, vlan.vlanId)
    {
      assert UsesLink(w, w[i].linkId);
      FlipInHops(g, w[i]);
      assert w[i].Flip().nextDev == w[i].currDev;
    }
  }

  lemma CreatedEntries(before: Project, after: Project, vlan: IntelligentVlan, dev: int)
    returns (pvids: seq<int>, access: seq<int>)
    requires Halts(vlan.endStations, TopologyOf(before)) && Created(before, after, vlan)
    ensures var b, a := TableOf(before.tables, dev), TableOf(after.tables, dev);
            && a.deviceId == b.deviceId && a.managementVlan == b.managementVlan
            && a.portVlans == b.portVlans + PvidEntries(pvids, vlan.vlanId)
            && a.portTypes == b.portTypes + AccessEntries(access)
    ensures Lists(access, PortsOf(Final(vlan.endStations, TopologyOf(before)).throughPort, dev))
    ensures var edgePort := Final(vlan.endStations, TopologyOf(before)).edgePort;
            Lists(pvids, if vlan.streamType == Untagged then PortsOf(edgePort, dev) else {})
  {
    var found := Final(vlan.endStations, TopologyOf(before));
    var b, a := TableOf(before.tables, dev), TableOf(after.tables, dev);
    assert dev in after.tables ==> TableCreated(b, a, dev, vlan, found);
    pvids, access := [], [];
    if dev in found.throughPort {
      var e :| IsEntryFor(e, found.throughPort[dev].Keys, PortsOf(found.edgePort, dev), vlan.vlanId)
               && a == b.(portVlans := a.portVlans, statics := b.statics + [e],
                          portTypes := b.portTypes + AccessEntries(e.egressPorts));
      access := e.egressPorts;
    }
    if vlan.streamType == Untagged && dev in found.edgePort {
      pvids :| Lists(pvids, found.edgePort[dev].Keys)
               && b.(portVlans := a.portVlans) == b.(portVlans := b.portVlans + PvidEntries(pvids, vlan.vlanId));
    }
  }

  /** A member hop enters the device by this port. */
  ghost predicate MemberPort(g: set<Link>, stations: seq<int>, dev: int, port: int) {
    exists h :: h in Hops(g) && h.nextDev == dev && h.nextPort == port && IsMember(g, stations, h)
  }

  /** The port of the device faces an end station. */
  ghost predicate EdgePortAt(g: set<Link>, stations: seq<int>, dev: int, port: int) {
    exists l :: IsEdgePort(g, stations, dev, port, l)
  }

  lemma PortRecordedIffMember(g: set<Link>, stations: seq<int>, topo: Topology, dev: int, port: int)
    requires WellFormed(g, stations, topo) && NoLoopLinks(g) && Halts(stations, topo)
    ensures HasPort(Final(stations, topo).throughPort, dev, port)
            <==> MemberPort(g, stations, dev, port)
  {
    var through := Final(stations, topo).throughPort;
    ExactWheneverItStops(g, stations, topo);
    if HasPort(through, dev, port) {
      var l := through[dev][port];
      assert PortLink(through, dev, port, l);
      var h :| h in Hops(g) && h.nextDev == dev && h.nextPort == port && h.linkId == l;
      assert IsMember(g, stations, h);
    }
  }

  /** A device is recorded exactly when one of its ports is a member port. */
  lemma RecordedIffMember(g: set<Link>, stations: seq<int>, topo: Topology, dev: int)
    requires WellFormed(g, stations, topo) && NoLoopLinks(g) && Halts(stations, topo)
    ensures dev in Final(stations, topo).throughPort
            <==> exists port :: MemberPort(g, stations, dev, port)
  {
    var found := Final(stations, topo);
    if dev in found.throughPort {
      var n: nat :| Run(stations, topo, n).queue == [];
      FinalIsRun(stations, topo, n);
      DevicesHavePorts(stations, topo, n);
      var port := SomeKey(found.throughPort[dev]);
      PortRecordedIffMember(g, stations, topo, dev, port);
    }
    if port :| MemberPort(g, stations, dev, port) {
      PortRecordedIffMember(g, stations, topo, dev, port);
    }
  }

  lemma EdgeDevicesRecorded(g: set<Link>, stations: seq<int>, topo: Topology)
    requires DistinctIds(g) && Adjacent(g, topo) && 0 !in stations && Halts(stations, topo)
    ensures Final(stations, topo).edgePort.Keys <= Final(stations, topo).throughPort.Keys
  {
    var found := Final(stations, topo);
    EdgeWithinThrough(g, stations, topo);
    var n: nat :| Run(stations, topo, n).queue == [];
    FinalIsRun(stations, topo, n);
    DevicesHavePorts(stations, topo, n);
    forall d | d in found.edgePort ensures d in found.throughPort {
      var p := SomeKey(found.edgePort[d]);
      assert HasPort(found.edgePort, d, p);
    }
  }

  lemma EdgeRecordedIff(g: set<Link>, stations: seq<int>, topo: Topology, dev: int, port: int)
    requires WellFormed(g, stations, topo) && NoLoopLinks(g) && Halts(stations, topo)
    ensures HasPort(Final(stations, topo).edgePort, dev, port) <==> EdgePortAt(g, stations, dev, port)
  {
    ExactWheneverItStops(g, stations, topo);
    EdgePortMeaning(g, stations, Final(stations, topo), dev, port);
  }

  /** What the engine has to hold for the search to be exact on its usable links. */
  lemma EngineWellFormed(before: Project, stations: seq<int>)
    requires SoundProject(before) && DistinctPorts(UsableLinks(before)) && 0 !in stations
    ensures WellFormed(UsableLinks(before), stations, TopologyOf(before))
  {
    UsableAdjacency(before);
    UsableDistinctIds(before);
  }

  ghost predicate PvidFor(entries: seq<PortVlanEntry>, port: int) {
    exists i :: 0 <= i < |entries| && entries[i].portId == port
  }

  ghost predicate TypeFor(entries: seq<PortTypeEntry>, port: int) {
    exists i :: 0 <= i < |entries| && entries[i].portId == port
  }

  /** For an untagged stream exactly the edge ports gain a port-VLAN entry, each one, with the new id; for a tagged
      stream no port does. */
  lemma UntaggedStreamPvids(before: Project, after: Project, vlan: IntelligentVlan, dev: int)
    returns (pvids: seq<PortVlanEntry>)
    requires SoundProject(before) && DistinctPorts(UsableLinks(before)) && NoLoopLinks(UsableLinks(before))
    requires 0 !in vlan.endStations
    requires Halts(vlan.endStations, TopologyOf(before)) && Created(before, after, vlan)
    ensures TableOf(after.tables, dev).portVlans == TableOf(before.tables, dev).portVlans + pvids
    ensures forall i :: 0 <= i < |pvids| ==> pvids[i].pvid == vlan.vlanId && pvids[i].vlanPriority == ""
    ensures forall i, j :: 0 <= i < j < |pvids| ==> pvids[i].portId != pvids[j].portId
    ensures forall port :: PvidFor(pvids, port)
                           <==> vlan.streamType == Untagged
                                && EdgePortAt(UsableLinks(before), vlan.endStations, dev, port)
  {
    EngineWellFormed(before, vlan.endStations);
    var edges, _ := CreatedEntries(before, after, vlan, dev);
    pvids := PvidEntries(edges, vlan.vlanId);
    forall port
      ensures PvidFor(pvids, port)
              <==> vlan.streamType == Untagged && EdgePortAt(UsableLinks(before), vlan.endStations, dev, port)
    {
      if port in edges {
        var i :| 0 <= i < |edges| && edges[i] == port;
        assert pvids[i].portId == port;
      }
      assert PvidFor(pvids, port) <==> port in edges;
      EdgeRecordedIff(UsableLinks(before), vlan.endStations, TopologyOf(before), dev, port);
    }
  }

  /** Exactly the member ports gain a port-type entry, each one, as access port. */
  lemma MembersBecomeAccess(before: Project, after: Project, vlan: IntelligentVlan, dev: int)
    returns (access: seq<PortTypeEntry>)
    requires SoundProject(before) && DistinctPorts(UsableLinks(before)) && NoLoopLinks(UsableLinks(before))
    requires 0 !in vlan.endStations
    requires Halts(vlan.endStations, TopologyOf(before)) && Created(before, after, vlan)
    ensures TableOf(after.tables, dev).portTypes == TableOf(before.tables, dev).portTypes + access
    ensures forall i :: 0 <= i < |access| ==> access[i].portType == "Access" && access[i].vlanPriority == ""
    ensures forall i, j :: 0 <= i < j < |access| ==> access[i].portId != access[j].portId
    ensures forall port :: TypeFor(access, port) <==> MemberPort(UsableLinks(before), vlan.endStations, dev, port)
  {
    EngineWellFormed(before, vlan.endStations);
    var _, members := CreatedEntries(before, after, vlan, dev);
    access := AccessEntries(members);
    forall port ensures TypeFor(access, port) <==> MemberPort(UsableLinks(before), vlan.endStations, dev, port) {
      if port in members {
        var i :| 0 <= i < |members| && members[i] == port;
        assert access[i].portId == port;
      }
      assert TypeFor(access, port) <==> port in members;
      PortRecordedIffMember(UsableLinks(before), vlan.endStations, TopologyOf(before), dev, port);
    }
  }

  /** A device gains one static entry if it has a member port and none otherwise; a device without a table gets one
      exactly then. The entry has the new id and name, the member ports as egress ports and the edge ports as
      untagged ports, each one listed once. */
  lemma CreateWritesStatic(before: Project, after: Project, vlan: IntelligentVlan, dev: int)
    returns (added: seq<StaticEntry>)
    requires SoundProject(before) && DistinctPorts(UsableLinks(before)) && NoLoopLinks(UsableLinks(before))
    requires 0 !in vlan.endStations
    requires Halts(vlan.endStations, TopologyOf(before)) && Created(before, after, vlan)
    ensures TableOf(after.tables, dev).statics == TableOf(before.tables, dev).statics + added
    ensures |added| == if exists port :: MemberPort(UsableLinks(before), vlan.endStations, dev, port) then 1 else 0
    ensures dev in after.tables <==> dev in before.tables || |added| == 1
    ensures forall e :: e in added ==> e.vlanId == vlan.vlanId && e.name == "v" + Decimal(vlan.vlanId)
                                       && !e.teMstid && e.vlanPriority == ""
                                       && NoDuplicates(e.egressPorts) && NoDuplicates(e.untaggedPorts)
    ensures forall e, port :: e in added ==>
              && (port in e.egressPorts <==> MemberPort(UsableLinks(before), vlan.endStations, dev, port))
              && (port in e.untaggedPorts <==> EdgePortAt(UsableLinks(before), vlan.endStations, dev, port))
  {
    var g, stations, topo := UsableLinks(before), vlan.endStations, TopologyOf(before);
    EngineWellFormed(before, stations);
    RecordedIffMember(g, stations, topo, dev);
    EdgeDevicesRecorded(g, stations, topo);
    added := [];
    if dev in Final(stations, topo).throughPort {
      var e := CreatedStatics(before, after, vlan, dev);
      added := [e];
      forall port
        ensures port in e.egressPorts <==> MemberPort(g, stations, dev, port)
        ensures port in e.untaggedPorts <==> EdgePortAt(g, stations, dev, port)
      {
        PortRecordedIffMember(g, stations, topo, dev, port);
        EdgeRecordedIff(g, stations, topo, dev, port);
      }
    } else if dev in after.tables {
      var _ := CreatedStatics(before, after, vlan, dev);
    }
  }

  /** Of the project a Create touches nothing else. */
  lemma CreateTouchesOnly(before: Project, after: Project, vlan: IntelligentVlan)
    requires Halts(vlan.endStations, TopologyOf(before)) && Created(before, after, vlan)
    ensures after.devices == before.devices && after.links == before.links
    ensures after.vlanMin == before.vlanMin && after.vlanMax == before.vlanMax
    ensures after.group == before.group + [vlan]
    ensures forall dev :: TableOf(after.tables, dev).deviceId == TableOf(before.tables, dev).deviceId
                          && TableOf(after.tables, dev).managementVlan == TableOf(before.tables, dev).managementVlan
  {
    forall dev
      ensures TableOf(after.tables, dev).deviceId == TableOf(before.tables, dev).deviceId
              && TableOf(after.tables, dev).managementVlan == TableOf(before.tables, dev).managementVlan
    {
      var _, _ := CreatedEntries(before, after, vlan, dev);
    }
  }

  // ----- the invariant over runs -----

  ghost predicate DistinctStatics(t: VlanTable) {
    forall i, j :: 0 <= i < j < |t.statics| ==> t.statics[i].vlanId != t.statics[j].vlanId
  }

  /** Group ids lie in the configured range and no device has two static entries for one id. */
  ghost predicate TablesSound(p: Project) {
    && UInt16(p.vlanMax) < ID_COUNT - 1
    && (forall i :: 0 <= i < |p.group| ==> UInt16(p.vlanMin) <= p.group[i].vlanId <= UInt16(p.vlanMax))
    && (forall dev :: dev in p.tables ==> DistinctStatics(p.tables[dev]))
  }

  ghost predicate RunInvariant(p: Project) {
    && TablesSound(p)
    && (forall i, j :: 0 <= i < j < |p.group| ==> p.group[i].vlanId != p.group[j].vlanId)
    && GroupsHaveStatics(p)
  }

  lemma CreatedDistinctStatics(before: Project, after: Project, vlan: IntelligentVlan, dev: int)
    requires vlan.vlanId !in UsedIds(before.tables)
    requires Halts(vlan.endStations, TopologyOf(before)) && Created(before, after, vlan)
    requires dev in before.tables ==> DistinctStatics(before.tables[dev])
    ensures dev in after.tables ==> DistinctStatics(after.tables[dev])
  {
    if dev in after.tables {
      var b := TableOf(before.tables, dev);
      var e := CreatedStatics(before, after, vlan, dev);
      UnusedHasNoStatic(before.tables, vlan.vlanId);
      assert forall i :: 0 <= i < |b.statics| ==> b.statics[i].vlanId != vlan.vlanId;
    }
  }

  lemma GroupIdsUsed(p: Project, vlanId: VlanId)
    requires RunInvariant(p) && vlanId !in UsedIds(p.tables)
    ensures forall i :: 0 <= i < |p.group| ==> p.group[i].vlanId != vlanId
  {
    UnusedHasNoStatic(p.tables, vlanId);
    forall i | 0 <= i < |p.group| ensures p.group[i].vlanId != vlanId {
      assert HasStatic(p.tables, p.group[i].vlanId);
    }
  }

  /** Any Create keeps the tables sound, joined or not. */
  lemma CreateKeepsTablesSound(before: Project, after: Project, vlan: IntelligentVlan)
    requires TablesSound(before) && vlan.vlanId !in UsedIds(before.tables)
    requires UInt16(before.vlanMin) <= vlan.vlanId <= UInt16(before.vlanMax)
    requires Halts(vlan.endStations, TopologyOf(before)) && Created(before, after, vlan)
    ensures TablesSound(after)
  {
    forall dev | dev in after.tables ensures DistinctStatics(after.tables[dev]) {
      CreatedDistinctStatics(before, after, vlan, dev);
    }
  }

  /** A Create that leaves a static entry keeps the invariant. */
  lemma CreateWithStaticKeepsInvariant(before: Project, after: Project, vlan: IntelligentVlan)
    requires RunInvariant(before) && vlan.vlanId !in UsedIds(before.tables)
    requires UInt16(before.vlanMin) <= vlan.vlanId <= UInt16(before.vlanMax)
    requires Halts(vlan.endStations, TopologyOf(before)) && Created(before, after, vlan)
    requires HasStatic(after.tables, vlan.vlanId)
    ensures RunInvariant(after)
  {
    CreateKeepsTablesSound(before, after, vlan);
    GroupIdsUsed(before, vlan.vlanId);
    forall i | 0 <= i < |after.group| ensures HasStatic(after.tables, after.group[i].vlanId) {
      assert i < |before.group| ==> HasStatic(before.tables, before.group[i].vlanId);
    }
  }

  /** A Create keeps the invariant exactly when it joins two different, connected end stations. */
  lemma CreateKeepsInvariantIffJoined(before: Project, after: Project, req: IntelligentVlan)
    requires SoundProject(before) && RunInvariant(before) && CreateHalts(before, req)
    requires Admit(before, req).Admitted?
    requires Created(before, after, req.(vlanId := Admit(before, req).vlanId))
    ensures RunInvariant(after) <==> Joined(UsableLinks(before), req.endStations)
  {
    var vlan := req.(vlanId := Admit(before, req).vlanId);
    AdmittedIsFree(before, req);
    StaticIffJoined(before, after, vlan);
    assert after.group[|before.group|] == vlan;
    if HasStatic(after.tables, vlan.vlanId) {
      CreateWithStaticKeepsInvariant(before, after, vlan);
    }
  }

  lemma DeletedKeepsOthers(p: Project, vlanId: VlanId, other: int)
    requires other != vlanId && HasStatic(p.tables, other)
    ensures HasStatic(Deleted(p, vlanId).tables, other)
  {
    var dev, e :| dev in p.tables && e in p.tables[dev].statics && e.vlanId == other;
    var statics := p.tables[dev].statics;
    var k := StaticIndex(statics, vlanId);
    var i :| 0 <= i < |statics| && statics[i] == e;
    var kept := RemoveAt(statics, k);
    assert kept[if i < k then i else i - 1] == e;
    assert Deleted(p, vlanId).tables[dev].statics == kept;
  }

  /** What a Delete does to a device's table, field by field. */
  lemma DeleteWrites(p: Project, vlanId: VlanId, dev: int)
    requires dev in p.tables
    ensures dev in Deleted(p, vlanId).tables
    ensures var t, d := p.tables[dev], Deleted(p, vlanId).tables[dev];
            && d.deviceId == t.deviceId && d.managementVlan == t.managementVlan && d.portTypes == t.portTypes
            && |d.portVlans| == |t.portVlans|
            && (forall i :: 0 <= i < |t.portVlans| ==>
                  && d.portVlans[i].portId == t.portVlans[i].portId
                  && d.portVlans[i].vlanPriority == t.portVlans[i].vlanPriority
                  && d.portVlans[i].pvid
                     == if t.portVlans[i].pvid == vlanId then t.managementVlan else t.portVlans[i].pvid)
    ensures var t, d := p.tables[dev], Deleted(p, vlanId).tables[dev];
            && ((forall e :: e in t.statics ==> e.vlanId != vlanId) ==> d.statics == t.statics)
            && (forall k :: 0 <= k < |t.statics| && t.statics[k].vlanId == vlanId
                            && (forall j :: 0 <= j < k ==> t.statics[j].vlanId != vlanId)
                            ==> d.statics == t.statics[..k] + t.statics[k + 1..])
  {
  }

  /** And to the rest of the project. */
  lemma DeleteTouchesOnly(p: Project, vlanId: VlanId)
    ensures Deleted(p, vlanId).tables.Keys == p.tables.Keys
    ensures Deleted(p, vlanId).devices == p.devices && Deleted(p, vlanId).links == p.links
    ensures Deleted(p, vlanId).vlanMin == p.vlanMin && Deleted(p, vlanId).vlanMax == p.vlanMax
    ensures (forall v :: v in p.group ==> v.vlanId != vlanId) ==> Deleted(p, vlanId).group == p.group
    ensures forall k :: 0 <= k < |p.group| && p.group[k].vlanId == vlanId
                        && (forall j :: 0 <= j < k ==> p.group[j].vlanId != vlanId)
                        ==> Deleted(p, vlanId).group == p.group[..k] + p.group[k + 1..]
  {
  }

  /** A Delete keeps exactly the static entries of the other ids, unchanged. */
  lemma DeleteKeepsOtherStatics(p: Project, vlanId: VlanId, dev: int, e: StaticEntry)
    requires TablesSound(p) && dev in p.tables
    ensures e in Deleted(p, vlanId).tables[dev].statics <==> e in p.tables[dev].statics && e.vlanId != vlanId
  {
    var t, d := p.tables[dev].statics, Deleted(p, vlanId).tables[dev].statics;
    var k := StaticIndex(t, vlanId);
    if e in d {
      var i :| 0 <= i < |d| && d[i] == e;
      assert t[if i < k then i else i + 1] == e;
    }
    if e in t && e.vlanId != vlanId {
      var i :| 0 <= i < |t| && t[i] == e;
      assert d[if i < k then i else i - 1] == e;
    }
  }

  /** So every other VLAN reaches the same ports as before. */
  lemma DeleteKeepsOtherVlans(p: Project, vlanId: VlanId, other: VlanId, dev: int, port: int)
    requires TablesSound(p) && other != vlanId
    ensures Carries(Deleted(p, vlanId).tables, dev, port, other) <==> Carries(p.tables, dev, port, other)
    ensures SendsUntagged(Deleted(p, vlanId).tables, dev, port, other) <==> SendsUntagged(p.tables, dev, port, other)
  {
    if dev in p.tables {
      forall e ensures e in Deleted(p, vlanId).tables[dev].statics
                       <==> e in p.tables[dev].statics && e.vlanId != vlanId {
        DeleteKeepsOtherStatics(p, vlanId, dev, e);
      }
    }
  }

  /** The group holds the id at two places. */
  ghost predicate ListedTwice(p: Project, vlanId: int) {
    exists i, j :: 0 <= i < j < |p.group| && p.group[i].vlanId == vlanId && p.group[j].vlanId == vlanId
  }

  /** A Delete removes all static entries of the VLAN, and its group entry unless there were two; of any
      other VLAN it removes nothing. */
  lemma DeleteRemovesExactly(p: Project, vlanId: VlanId, other: int)
    requires TablesSound(p)
    ensures !HasStatic(Deleted(p, vlanId).tables, vlanId)
    ensures InGroup(Deleted(p, vlanId), vlanId) <==> ListedTwice(p, vlanId)
    ensures other != vlanId ==> (HasStatic(Deleted(p, vlanId).tables, other) <==> HasStatic(p.tables, other))
    ensures other != vlanId ==> (InGroup(Deleted(p, vlanId), other) <==> InGroup(p, other))
  {
    var q := Deleted(p, vlanId);
    forall dev, e | dev in q.tables && e in q.tables[dev].statics
      ensures e.vlanId != vlanId && e in p.tables[dev].statics
    {
    }
    if other != vlanId && HasStatic(p.tables, other) {
      DeletedKeepsOthers(p, vlanId, other);
    }
    DeletedGroupId(p, vlanId);
    if other != vlanId {
      DeletedGroupOthers(p, vlanId, other);
    }
  }

  lemma DeletedGroupId(p: Project, vlanId: VlanId)
    ensures InGroup(Deleted(p, vlanId), vlanId) <==> ListedTwice(p, vlanId)
  {
    var q := Deleted(p, vlanId);
    if i :| 0 <= i < |q.group| && q.group[i].vlanId == vlanId {
      var _ := DeletedGroup(p, vlanId, i);
    }
    if i, j :| 0 <= i < j < |p.group| && p.group[i].vlanId == vlanId && p.group[j].vlanId == vlanId {
      assert q.group[j - 1] == p.group[j];
    }
  }

  lemma DeletedGroupOthers(p: Project, vlanId: VlanId, other: int)
    requires other != vlanId
    ensures InGroup(Deleted(p, vlanId), other) <==> InGroup(p, other)
  {
    var q, k := Deleted(p, vlanId), GroupIndex(p.group, vlanId);
    if i :| 0 <= i < |q.group| && q.group[i].vlanId == other {
      var _ := DeletedGroup(p, vlanId, i);
    }
    if j :| 0 <= j < |p.group| && p.group[j].vlanId == other {
      assert q.group[if j < k then j else j - 1] == p.group[j];
    }
  }

  ghost predicate GroupsHaveStatics(p: Project) {
    forall i :: 0 <= i < |p.group| ==> HasStatic(p.tables, p.group[i].vlanId)
  }

  /** A Delete strips another VLAN of the group of its static entries exactly when the group holds the id
      twice, as it does after a Create that joined nothing. */
  lemma DeleteSparesOthersIff(p: Project, vlanId: VlanId)
    requires TablesSound(p) && GroupsHaveStatics(p)
    ensures GroupsHaveStatics(Deleted(p, vlanId)) <==> !ListedTwice(p, vlanId)
  {
    var q := Deleted(p, vlanId);
    DeleteRemovesExactly(p, vlanId, vlanId);
    forall i | 0 <= i < |q.group| && q.group[i].vlanId != vlanId ensures HasStatic(q.tables, q.group[i].vlanId) {
      var j := DeletedGroup(p, vlanId, i);
      DeletedKeepsOthers(p, vlanId, p.group[j].vlanId);
    }
  }

  lemma DeletedGroup(p: Project, vlanId: VlanId, i: nat) returns (j: nat)
    requires i < |Deleted(p, vlanId).group|
    ensures j < |p.group| && Deleted(p, vlanId).group[i] == p.group[j] && j != GroupIndex(p.group, vlanId)
    ensures j == if i < GroupIndex(p.group, vlanId) then i else i + 1
  {
    var k := GroupIndex(p.group, vlanId);
    j := if i < k then i else i + 1;
  }

  /** Any Delete keeps the tables sound. */
  lemma DeleteKeepsTablesSound(p: Project, vlanId: VlanId)
    requires TablesSound(p)
    ensures TablesSound(Deleted(p, vlanId))
  {
    var q := Deleted(p, vlanId);
    forall i | 0 <= i < |q.group| ensures UInt16(q.vlanMin) <= q.group[i].vlanId <= UInt16(q.vlanMax) {
      var j := DeletedGroup(p, vlanId, i);
    }
    forall dev | dev in q.tables ensures DistinctStatics(q.tables[dev]) {
    }
  }

  lemma DeleteKeepsInvariant(p: Project, vlanId: VlanId)
    requires RunInvariant(p)
    ensures RunInvariant(Deleted(p, vlanId))
  {
    var q := Deleted(p, vlanId);
    DeleteKeepsTablesSound(p, vlanId);
    forall i | 0 <= i < |q.group| ensures HasStatic(q.tables, q.group[i].vlanId) {
      var j := DeletedGroup(p, vlanId, i);
      DeletedKeepsOthers(p, vlanId, p.group[j].vlanId);
    }
    forall i, j | 0 <= i < j < |q.group| ensures q.group[i].vlanId != q.group[j].vlanId {
      var i' := DeletedGroup(p, vlanId, i);
      var j' := DeletedGroup(p, vlanId, j);
    }
  }

  /** A request to the engine, with the outcome of each exchange with the backend. */
  datatype Event =
    | Create(getOk: bool, putOk: bool, req: IntelligentVlan)
    | Delete(getOk: bool, putOk: bool, vlanId: VlanId)
    | Update(getOk: bool, putOk: bool, getOk2: bool, putOk2: bool, vlanId: VlanId, req: IntelligentVlan)

  /** The request comes to an end. */
  ghost predicate EventHalts(p: Project, ev: Event) {
    match ev
    case Create(getOk, putOk, req) => getOk ==> CreateHalts(p, req)
    case Delete(_, _, _) => true
    case Update(getOk, putOk, getOk2, putOk2, vlanId, req) =>
      getOk && putOk && InGroup(p, vlanId) && getOk2 ==> CreateHalts(Deleted(p, vlanId), req)
  }

  /** A Create that is carried out joins two different, connected end stations. */
  ghost predicate CreateJoins(p: Project, getOk: bool, putOk: bool, req: IntelligentVlan) {
    getOk && putOk && Admit(p, req).Admitted? ==> Joined(UsableLinks(p), req.endStations)
  }

  ghost predicate EventJoins(p: Project, ev: Event) {
    match ev
    case Create(getOk, putOk, req) => CreateJoins(p, getOk, putOk, req)
    case Delete(_, _, _) => true
    case Update(getOk, putOk, getOk2, putOk2, vlanId, req) =>
      getOk && putOk && InGroup(p, vlanId) ==> CreateJoins(Deleted(p, vlanId), getOk2, putOk2, req)
  }

  /** One request and its response, as the contracts of the Backend methods describe them. */
  ghost predicate Outcome(p: Project, q: Project, res: Response, ev: Event)
    requires EventHalts(p, ev)
  {
    match ev
    case Create(getOk, putOk, req) => CreateOutcome(p, q, res, getOk, putOk, req)
    case Delete(getOk, putOk, vlanId) => DeleteOutcome(p, q, res, getOk, putOk, vlanId)
    case Update(getOk, putOk, getOk2, putOk2, vlanId, req) =>
      if getOk && putOk && InGroup(p, vlanId) then CreateOutcome(Deleted(p, vlanId), q, res, getOk2, putOk2, req)
      else res != Ok && DeleteOutcome(p, q, res, getOk, putOk, vlanId)
  }

  ghost predicate Next(p: Project, q: Project, ev: Event)
    requires EventHalts(p, ev)
  {
    exists res :: Outcome(p, q, res, ev)
  }

  ghost predicate IsRun(states: seq<Project>, events: seq<Event>) {
    && |states| == |events| + 1
    && forall i :: 0 <= i < |events| ==> EventHalts(states[i], events[i]) && Next(states[i], states[i + 1], events[i])
  }

  lemma CreateOutcomeKeepsTablesSound(p: Project, q: Project, res: Response, getOk: bool, putOk: bool,
      req: IntelligentVlan)
    requires SoundProject(p) && TablesSound(p) && (getOk ==> CreateHalts(p, req))
    requires CreateOutcome(p, q, res, getOk, putOk, req)
    ensures SoundProject(q) && TablesSound(q)
  {
    if getOk && putOk && Admit(p, req).Admitted? {
      AdmittedIsFree(p, req);
      CreateKeepsTablesSound(p, q, req.(vlanId := Admit(p, req).vlanId));
    }
  }

  lemma NextKeepsTablesSound(p: Project, q: Project, ev: Event)
    requires SoundProject(p) && TablesSound(p) && EventHalts(p, ev) && Next(p, q, ev)
    ensures SoundProject(q) && TablesSound(q)
  {
    var res :| Outcome(p, q, res, ev);
    match ev
    case Create(getOk, putOk, req) =>
      CreateOutcomeKeepsTablesSound(p, q, res, getOk, putOk, req);
    case Delete(_, _, vlanId) =>
      DeleteKeepsTablesSound(p, vlanId);
    case Update(getOk, putOk, getOk2, putOk2, vlanId, req) =>
      DeleteKeepsTablesSound(p, vlanId);
      if getOk && putOk && InGroup(p, vlanId) {
        CreateOutcomeKeepsTablesSound(Deleted(p, vlanId), q, res, getOk2, putOk2, req);
      }
  }

  lemma NextKeepsInvariant(p: Project, q: Project, ev: Event)
    requires SoundProject(p) && RunInvariant(p) && EventHalts(p, ev) && EventJoins(p, ev) && Next(p, q, ev)
    ensures SoundProject(q) && RunInvariant(q)
  {
    match ev
    case Create(getOk, putOk, req) =>
      if getOk && putOk && Admit(p, req).Admitted? {
        CreateKeepsInvariantIffJoined(p, q, req);
      }
    case Delete(_, _, vlanId) =>
      DeleteKeepsInvariant(p, vlanId);
    case Update(getOk, putOk, getOk2, putOk2, vlanId, req) =>
      DeleteKeepsInvariant(p, vlanId);
      var mid := Deleted(p, vlanId);
      if getOk && putOk && InGroup(p, vlanId) && getOk2 && putOk2 && Admit(mid, req).Admitted? {
        CreateKeepsInvariantIffJoined(mid, q, req);
      }
  }

  /** Whatever the requests join, in every state of every run the group ids lie in the configured
      range and no device has two static entries for one id. */
  lemma {:induction false} EveryRunKeepsTablesSound(states: seq<Project>, events: seq<Event>, i: nat)
    requires IsRun(states, events) && SoundProject(states[0]) && TablesSound(states[0]) && i < |states|
    ensures SoundProject(states[i]) && TablesSound(states[i])
  {
    if i > 0 {
      EveryRunKeepsTablesSound(states, events, i - 1);
      NextKeepsTablesSound(states[i - 1], states[i], events[i - 1]);
    }
  }

  /** If every Create that is carried out joins two end stations, every state of the run satisfies the
      whole invariant, also when the Create half of an Update fails. */
  lemma {:induction false} EveryRunKeepsInvariant(states: seq<Project>, events: seq<Event>, i: nat)
    requires IsRun(states, events) && SoundProject(states[0]) && RunInvariant(states[0]) && i < |states|
    requires forall k :: 0 <= k < |events| ==> EventJoins(states[k], events[k])
    ensures SoundProject(states[i]) && RunInvariant(states[i])
  {
    if i > 0 {
      EveryRunKeepsInvariant(states, events, i - 1);
      NextKeepsInvariant(states[i - 1], states[i], events[i - 1]);
    }
  }

  // ----- an Update that loses its VLAN -----

  /** An Update has either succeeded or changed nothing, unless its Delete half is carried out and its
      Create half is not. */
  lemma UpdateAllOrNothingIff(p: Project, q: Project, res: Response, ev: Event)
    requires ev.Update? && EventHalts(p, ev) && Outcome(p, q, res, ev)
    ensures (res == Ok || q == p)
            <==> (ev.getOk && ev.putOk && InGroup(p, ev.vlanId)
                  ==> ev.getOk2 && ev.putOk2 && Admit(Deleted(p, ev.vlanId), ev.req).Admitted?)
  {
    if InGroup(p, ev.vlanId) {
      var k := GroupIndex(p.group, ev.vlanId);
      assert |Deleted(p, ev.vlanId).group| == |p.group| - 1;
    }
  }

  /** Static ids fit the 16 bits in which they are compared. */
  ghost predicate StaticIds16(tables: VlanTables) {
    forall dev, e :: dev in tables && e in tables[dev].statics ==> 0 <= e.vlanId < ID_COUNT
  }

  lemma DeletedUsedIds(p: Project, vlanId: VlanId)
    requires RunInvariant(p) && StaticIds16(p.tables)
    ensures UsedIds(Deleted(p, vlanId).tables) == UsedIds(p.tables) - {vlanId}
  {
    var q := Deleted(p, vlanId);
    forall x ensures x in UsedIds(q.tables) <==> x in UsedIds(p.tables) && x != vlanId {
      UsedIffStatic(p.tables, x);
      forall dev, e | dev in q.tables && e in q.tables[dev].statics ensures e in p.tables[dev].statics {
      }
      UsedIffStatic(q.tables, x);
      if 0 <= x < ID_COUNT {
        DeleteRemovesExactly(p, vlanId, x);
      }
    }
  }

  lemma UsedIffStatic(tables: VlanTables, x: int)
    requires StaticIds16(tables)
    ensures x in UsedIds(tables) <==> HasStatic(tables, x)
  {
    if x in UsedIds(tables) {
      var dev, e :| dev in tables && e in tables[dev].statics && UInt16(e.vlanId) == x;
      assert e.vlanId == x;
    }
    if HasStatic(tables, x) {
      var dev, e :| dev in tables && e in tables[dev].statics && e.vlanId == x;
      assert UInt16(e.vlanId) == x;
    }
  }

  /** Which requests the Create half of an Update admits, told from the project before the Update: an
      untagged one always finds an id, since the deleted one is free again; a tagged one needs an id
      that is unused or its own. */
  lemma UpdateAdmittedIff(p: Project, vlanId: VlanId, req: IntelligentVlan)
    requires RunInvariant(p) && StaticIds16(p.tables) && InGroup(p, vlanId)
    ensures Admit(Deleted(p, vlanId), req).Admitted?
            <==> |req.endStations| >= 2 && (forall e :: e in req.endStations ==> DeviceExists(p.devices, e))
                 && (|| req.streamType == Untagged
                     || (req.streamType == Tagged && UInt16(p.vlanMin) <= req.vlanId <= UInt16(p.vlanMax)
                         && (req.vlanId == vlanId || req.vlanId !in UsedIds(p.tables))))
  {
    DeletedUsedIds(p, vlanId);
    AdmittedIff(Deleted(p, vlanId), req);
    var i :| 0 <= i < |p.group| && p.group[i].vlanId == vlanId;
    assert UInt16(p.vlanMin) <= vlanId <= UInt16(p.vlanMax);
  }

  /** An Update to fewer than two end stations loses the VLAN. */
  lemma UpdateToOneStationLosesVlan(p: Project, q: Project, res: Response, ev: Event)
    requires RunInvariant(p) && ev.Update? && ev.getOk && ev.putOk && ev.getOk2 && InGroup(p, ev.vlanId)
    requires |ev.req.endStations| < 2 && EventHalts(p, ev) && Outcome(p, q, res, ev)
    ensures res == TooFewStations && !InGroup(q, ev.vlanId) && !HasStatic(q.tables, ev.vlanId)
  {
    DeleteRemovesExactly(p, ev.vlanId, ev.vlanId);
  }

  // ----- Delete undoes Create -----

  lemma UndoneStatics(before: seq<StaticEntry>, e: StaticEntry)
    requires forall x :: x in before ==> x.vlanId != e.vlanId
    ensures RemoveAt(before + [e], StaticIndex(before + [e], e.vlanId)) == before
    ensures RemoveAt(before, StaticIndex(before, e.vlanId)) == before
  {
    var k := StaticIndex(before + [e], e.vlanId);
    assert (before + [e])[|before|] == e;
    assert forall j :: 0 <= j < |before| ==> (before + [e])[j] == before[j] && before[j] in before;
  }

  /** Deleting a VLAN just created restores the group and every device's static entries. */
  lemma DeleteUndoesCreate(before: Project, after: Project, vlan: IntelligentVlan, dev: int)
    requires RunInvariant(before) && vlan.vlanId !in UsedIds(before.tables)
    requires Halts(vlan.endStations, TopologyOf(before)) && Created(before, after, vlan)
    ensures Deleted(after, vlan.vlanId).group == before.group
    ensures TableOf(Deleted(after, vlan.vlanId).tables, dev).statics == TableOf(before.tables, dev).statics
  {
    GroupIdsUsed(before, vlan.vlanId);
    assert after.group[|before.group|] == vlan;
    assert GroupIndex(after.group, vlan.vlanId) == |before.group|;
    UnusedHasNoStatic(before.tables, vlan.vlanId);
    if dev in after.tables {
      var b := TableOf(before.tables, dev);
      var found := Final(vlan.endStations, TopologyOf(before));
      var e := CreatedStatics(before, after, vlan, dev);
      if dev in found.throughPort {
        UndoneStatics(b.statics, e);
      } else {
        UndoneStatics(b.statics, StaticEntry(vlan.vlanId, "", false, [], [], ""));
      }
    }
  }

  /** Resetting a table's PVIDs after a Create: the new entries stay, with the management VLAN. */
  lemma ResetAdded(b: VlanTable, a: VlanTable, added: seq<PortVlanEntry>, vlanId: int)
    returns (left: seq<PortVlanEntry>)
    requires a.portVlans == b.portVlans + added && a.managementVlan == b.managementVlan
    requires forall i :: 0 <= i < |added| ==> added[i].pvid == vlanId
    requires forall i, j :: 0 <= i < j < |added| ==> added[i].portId != added[j].portId
    ensures TableDeleted(a, vlanId).portVlans == ResetPvids(b.portVlans, vlanId, b.managementVlan) + left
    ensures |left| == |added|
    ensures forall i :: 0 <= i < |left| ==> left[i].pvid == b.managementVlan
                                            && left[i].vlanPriority == added[i].vlanPriority
                                            && left[i].portId == added[i].portId
    ensures forall i, j :: 0 <= i < j < |left| ==> left[i].portId != left[j].portId
    ensures forall port :: PvidFor(left, port) <==> PvidFor(added, port)
  {
    left := ResetPvids(added, vlanId, b.managementVlan);
    forall port ensures PvidFor(left, port) <==> PvidFor(added, port) {
      if i :| 0 <= i < |added| && added[i].portId == port {
        assert left[i].portId == port;
      }
    }
  }

  /** What a Delete leaves of the VLAN's Create in a device's table, field by field: the access entry of each member
      port; and for an untagged stream, now with the management VLAN, the PVID entry of each edge port. */
  lemma DeleteLeavesPortEntries(before: Project, after: Project, vlan: IntelligentVlan, dev: int)
    returns (pvids: seq<PortVlanEntry>, access: seq<PortTypeEntry>)
    requires SoundProject(before) && DistinctPorts(UsableLinks(before)) && NoLoopLinks(UsableLinks(before))
    requires 0 !in vlan.endStations
    requires Halts(vlan.endStations, TopologyOf(before)) && Created(before, after, vlan)
    ensures var b, d := TableOf(before.tables, dev), TableOf(Deleted(after, vlan.vlanId).tables, dev);
            && d.deviceId == b.deviceId && d.managementVlan == b.managementVlan
            && |d.portVlans| == |b.portVlans| + |pvids|
            && d.portVlans[|b.portVlans|..] == pvids
            && (forall i :: 0 <= i < |b.portVlans| ==>
                  && d.portVlans[i].portId == b.portVlans[i].portId
                  && d.portVlans[i].vlanPriority == b.portVlans[i].vlanPriority
                  && d.portVlans[i].pvid
                     == if b.portVlans[i].pvid == vlan.vlanId then b.managementVlan else b.portVlans[i].pvid)
            && d.portTypes == b.portTypes + access
    ensures forall i :: 0 <= i < |pvids| ==> pvids[i].pvid == TableOf(before.tables, dev).managementVlan
                                             && pvids[i].vlanPriority == ""
    ensures forall i, j :: 0 <= i < j < |pvids| ==> pvids[i].portId != pvids[j].portId
    ensures forall port :: PvidFor(pvids, port)
                           <==> vlan.streamType == Untagged
                                && EdgePortAt(UsableLinks(before), vlan.endStations, dev, port)
    ensures forall i :: 0 <= i < |access| ==> access[i].portType == "Access" && access[i].vlanPriority == ""
    ensures forall i, j :: 0 <= i < j < |access| ==> access[i].portId != access[j].portId
    ensures forall port :: TypeFor(access, port) <==> MemberPort(UsableLinks(before), vlan.endStations, dev, port)
  {
    var b, a := TableOf(before.tables, dev), TableOf(after.tables, dev);
    CreateTouchesOnly(before, after, vlan);
    var added := UntaggedStreamPvids(before, after, vlan, dev);
    access := MembersBecomeAccess(before, after, vlan, dev);
    pvids := ResetAdded(b, a, added, vlan.vlanId);
    assert TableOf(Deleted(after, vlan.vlanId).tables, dev)
        == if dev in after.tables then TableDeleted(a, vlan.vlanId) else b;
  }

  /** A Delete right after a Create restores a device's whole table exactly when none of the device's
      ports is a member port and no port had the id as its PVID before, unless that is the device's
      management VLAN. */
  lemma DeleteRestoresTableIff(before: Project, after: Project, vlan: IntelligentVlan, dev: int)
    requires SoundProject(before) && DistinctPorts(UsableLinks(before)) && NoLoopLinks(UsableLinks(before))
    requires 0 !in vlan.endStations && RunInvariant(before) && vlan.vlanId !in UsedIds(before.tables)
    requires Halts(vlan.endStations, TopologyOf(before)) && Created(before, after, vlan)
    ensures var b := TableOf(before.tables, dev);
            TableOf(Deleted(after, vlan.vlanId).tables, dev) == b
            <==> (forall h :: h in Hops(UsableLinks(before)) && h.nextDev == dev
                              ==> !IsMember(UsableLinks(before), vlan.endStations, h))
                 && (forall e :: e in b.portVlans && e.pvid == vlan.vlanId ==> b.managementVlan == vlan.vlanId)
  {
    var g, stations, topo := UsableLinks(before), vlan.endStations, TopologyOf(before);
    var found := Final(stations, topo);
    EngineWellFormed(before, stations);
    RecordedIffMember(g, stations, topo, dev);
    var b, a := TableOf(before.tables, dev), TableOf(after.tables, dev);
    if dev in found.throughPort {
      var pvids, access := DeleteLeavesPortEntries(before, after, vlan, dev);
      var port :| MemberPort(g, stations, dev, port);
      assert TypeFor(access, port);
    } else {
      forall h | h in Hops(g) && h.nextDev == dev ensures !IsMember(g, stations, h) {
        assert !MemberPort(g, stations, dev, h.nextPort);
      }
      EdgeDevicesRecorded(g, stations, topo);
      assert dev in after.tables ==> TableCreated(b, a, dev, vlan, found);
      assert a == b;
      DeleteUndoesCreate(before, after, vlan, dev);
    }
  }
}
