/**
 Translating a device's VLAN setting into its VLAN table. The setting lists the VLANs of
 each port; the table lists the ports of each VLAN.
 */
module VlanMapping {
  import opened Text
  import opened Collections
  import opened DeviceConfig

  datatype PortSetting = PortSetting(
    portId: int, aliasName: string, pvid: int, mode: int, untaggedVlans: seq<int>, taggedVlans: seq<int>)

  datatype VlanName = VlanName(vlanId: int, name: string, teMstid: Option<bool>)

  datatype VlanSetting = VlanSetting(mgmtVlan: Option<int>, vlans: seq<VlanName>, ports: seq<PortSetting>)

  const PRIORITY := "NonTSN"

  function ModeName(mode: int): string {
    match mode
    case 1 => "Access"
    case 2 => "Trunk"
    case 3 => "Hybrid"
    case 4 => "None"
    case _ => ""
  }

  /** Link aggregation groups carry an alias that starts with "po"; they are passed over. */
  predicate IsLag(p: PortSetting) {
    |p.aliasName| >= 2 && p.aliasName[..2] == "po"
  }

  function Ports(ports: seq<PortSetting>): seq<PortSetting> {
    if ports == [] then []
    else Ports(ports[..|ports| - 1]) + if IsLag(ports[|ports| - 1]) then [] else [ports[|ports| - 1]]
  }

  predicate CarriesVlan(p: PortSetting, vlan: int, port: int) {
    !IsLag(p) && p.portId == port && (vlan in p.taggedVlans || vlan in p.untaggedVlans)
  }

  predicate SendsUntagged(p: PortSetting, vlan: int, port: int) {
    !IsLag(p) && p.portId == port && vlan in p.untaggedVlans
  }

  /** Some port setting lists the VLAN for this port, tagged or untagged. */
  ghost predicate IsEgress(ports: seq<PortSetting>, vlan: int, port: int) {
    exists i :: 0 <= i < |ports| && CarriesVlan(ports[i], vlan, port)
  }

  ghost predicate IsUntagged(ports: seq<PortSetting>, vlan: int, port: int) {
    exists i :: 0 <= i < |ports| && SendsUntagged(ports[i], vlan, port)
  }

  /** The same without the model's own words: a port is an egress port of the VLAN if a setting whose alias does
      not begin with "po" lists it, tagged or untagged; an untagged port if such a setting lists it untagged. */
  lemma SettingMeaning(ports: seq<PortSetting>, vlan: int, port: int)
    ensures IsEgress(ports, vlan, port)
            <==> exists k :: 0 <= k < |ports| && ports[k].portId == port && !("po" <= ports[k].aliasName)
                             && (vlan in ports[k].untaggedVlans || vlan in ports[k].taggedVlans)
    ensures IsUntagged(ports, vlan, port)
            <==> exists k :: 0 <= k < |ports| && ports[k].portId == port && !("po" <= ports[k].aliasName)
                             && vlan in ports[k].untaggedVlans
  {
    forall p: PortSetting ensures IsLag(p) <==> "po" <= p.aliasName {
      if IsLag(p) { assert p.aliasName[..2] == "po"; }
    }
    if IsEgress(ports, vlan, port) {
      var i :| 0 <= i < |ports| && CarriesVlan(ports[i], vlan, port);
    }
    if k :| 0 <= k < |ports| && ports[k].portId == port && !("po" <= ports[k].aliasName)
            && (vlan in ports[k].untaggedVlans || vlan in ports[k].taggedVlans) {
      assert CarriesVlan(ports[k], vlan, port);
    }
    if IsUntagged(ports, vlan, port) {
      var i :| 0 <= i < |ports| && SendsUntagged(ports[i], vlan, port);
    }
    if k :| 0 <= k < |ports| && ports[k].portId == port && !("po" <= ports[k].aliasName)
            && vlan in ports[k].untaggedVlans {
      assert SendsUntagged(ports[k], vlan, port);
    }
  }

  /** The names of the port modes, and the mark on every entry. */
  lemma ModeNames()
    ensures ModeName(1) == "Access" && ModeName(2) == "Trunk" && ModeName(3) == "Hybrid" && ModeName(4) == "None"
    ensures forall mode :: mode < 1 || mode > 4 ==> ModeName(mode) == ""
    ensures PRIORITY == "NonTSN"
  {
  }

  type PortLists = map<int, seq<int>>

  function PortsFor(m: PortLists, vlan: int): seq<int> {
    if vlan in m then m[vlan] else []
  }

  /** Adds the port to the VLAN's list unless it is there. */
  method AppendUnique(m: PortLists, vlan: int, port: int) returns (m': PortLists)
    ensures forall v :: PortsFor(m', v) == PortsFor(m, v) + if v == vlan && port !in PortsFor(m, v) then [port] else []
  {
    var list := PortsFor(m, vlan);
    for i := 0 to |list|
      invariant port !in list[..i]
    {
      if list[i] == port {
        return m;
      }
    }
    assert list[..|list|] == list;
    m' := m[vlan := list + [port]];
  }

  /** The lists hold each port once, and hold exactly what `holds` says. */
  ghost predicate Holds(m: PortLists, holds: (int, int) -> bool) {
    forall v :: NoDuplicates(PortsFor(m, v)) && forall p :: p in PortsFor(m, v) <==> holds(v, p)
  }

  /** Enters one port under each of the VLANs in a list. */
  method AppendAll(m: PortLists, vlans: seq<int>, port: int, ghost before: (int, int) -> bool) returns (m': PortLists)
    requires Holds(m, before)
    ensures Holds(m', (v, p) => before(v, p) || (p == port && v in vlans))
  {
    m' := m;
    for i := 0 to |vlans|
      invariant Holds(m', (v, p) => before(v, p) || (p == port && v in vlans[..i]))
    {
      ghost var sofar := (v: int, p: int) => before(v, p) || (p == port && v in vlans[..i]);
      ghost var previous := m';
      m' := AppendUnique(m', vlans[i], port);
      HoldsOneMore(previous, m', vlans[i], port, sofar);
      assert vlans[..i + 1] == vlans[..i] + [vlans[i]];
      SameHolds(m', (v, p) => sofar(v, p) || (p == port && v == vlans[i]),
                (v, p) => before(v, p) || (p == port && v in vlans[..i + 1]));
    }
    assert vlans[..|vlans|] == vlans;
  }

  lemma HoldsOneMore(m: PortLists, m': PortLists, vlan: int, port: int, holds: (int, int) -> bool)
    requires Holds(m, holds)
    requires forall v :: PortsFor(m', v) == PortsFor(m, v) + if v == vlan && port !in PortsFor(m, v) then [port] else []
    ensures Holds(m', (v, p) => holds(v, p) || (p == port && v == vlan))
  {
    forall v
      ensures NoDuplicates(PortsFor(m', v))
      ensures forall p :: p in PortsFor(m', v) <==> holds(v, p) || (p == port && v == vlan)
    {
      assert NoDuplicates(PortsFor(m, v)) && forall p :: p in PortsFor(m, v) <==> holds(v, p);
    }
  }

  /** A table entry says which ports carry the VLAN and which send it untagged. */
  ghost predicate Describes(e: StaticEntry, vlan: VlanName, ports: seq<PortSetting>) {
    && e.vlanId == vlan.vlanId && e.name == vlan.name && e.vlanPriority == PRIORITY
    && (e.teMstid <==> vlan.teMstid == Some(true))
    && NoDuplicates(e.egressPorts) && NoDuplicates(e.untaggedPorts)
    && (forall p :: p in e.egressPorts <==> IsEgress(ports, vlan.vlanId, p))
    && (forall p :: p in e.untaggedPorts <==> IsUntagged(ports, vlan.vlanId, p))
    && (forall p :: p in e.untaggedPorts ==> p in e.egressPorts)
  }

  method MapPortLists(ports: seq<PortSetting>)
    returns (portVlans: seq<PortVlanEntry>, portTypes: seq<PortTypeEntry>, egress: PortLists, untagged: PortLists)
    ensures |portVlans| == |portTypes| == |Ports(ports)|
    ensures forall i :: 0 <= i < |portVlans| ==>
              portVlans[i] == PortVlanEntry(Ports(ports)[i].portId, Ports(ports)[i].pvid, PRIORITY)
    ensures forall i :: 0 <= i < |portTypes| ==>
              portTypes[i] == PortTypeEntry(Ports(ports)[i].portId, ModeName(Ports(ports)[i].mode), PRIORITY)
    ensures Holds(egress, (v, p) => IsEgress(ports, v, p))
    ensures Holds(untagged, (v, p) => IsUntagged(ports, v, p))
  {
    portVlans, portTypes, egress, untagged := [], [], map[], map[];
    for i := 0 to |ports|
      invariant |portVlans| == |portTypes| == |Ports(ports[..i])|
      invariant forall j :: 0 <= j < |portVlans| ==>
                  portVlans[j] == PortVlanEntry(Ports(ports[..i])[j].portId, Ports(ports[..i])[j].pvid, PRIORITY)
      invariant forall j :: 0 <= j < |portTypes| ==>
                  portTypes[j]
                      == PortTypeEntry(Ports(ports[..i])[j].portId, ModeName(Ports(ports[..i])[j].mode), PRIORITY)
      invariant Holds(egress, (v, p) => IsEgress(ports[..i], v, p))
      invariant Holds(untagged, (v, p) => IsUntagged(ports[..i], v, p))
    {
      var entry := ports[i];
      assert ports[..i + 1][..i] == ports[..i];
      ExtendLists(ports, i);
      if IsLag(entry) {
        SameHolds(egress, (v, p) => IsEgress(ports[..i], v, p), (v, p) => IsEgress(ports[..i + 1], v, p));
        SameHolds(untagged, (v, p) => IsUntagged(ports[..i], v, p), (v, p) => IsUntagged(ports[..i + 1], v, p));
        continue;
      }
      portVlans := portVlans + [PortVlanEntry(entry.portId, entry.pvid, PRIORITY)];
      ghost var e0 := (v: int, p: int) => IsEgress(ports[..i], v, p);
      ghost var e1 := (v: int, p: int) => e0(v, p) || (p == entry.portId && v in entry.taggedVlans);
      egress := AppendAll(egress, entry.taggedVlans, entry.portId, e0);
      SameHolds(egress, (v, p) => e0(v, p) || (p == entry.portId && v in entry.taggedVlans), e1);
      egress := AppendAll(egress, entry.untaggedVlans, entry.portId, e1);
      SameHolds(egress, (v, p) => e1(v, p) || (p == entry.portId && v in entry.untaggedVlans),
                (v, p) => IsEgress(ports[..i + 1], v, p));
      ghost var u0 := (v: int, p: int) => IsUntagged(ports[..i], v, p);
      untagged := AppendAll(untagged, entry.untaggedVlans, entry.portId, u0);
      SameHolds(untagged, (v, p) => u0(v, p) || (p == entry.portId && v in entry.untaggedVlans),
                (v, p) => IsUntagged(ports[..i + 1], v, p));
      portTypes := portTypes + [PortTypeEntry(entry.portId, ModeName(entry.mode), PRIORITY)];
    }
    assert ports[..|ports|] == ports;
  }

  /** What one more port setting adds. */
  lemma ExtendLists(ports: seq<PortSetting>, i: nat)
    requires i < |ports|
    ensures forall v, p :: IsEgress(ports[..i + 1], v, p) <==> IsEgress(ports[..i], v, p) || CarriesVlan(ports[i], v, p)
    ensures forall v, p :: IsUntagged(ports[..i + 1], v, p)
                           <==> IsUntagged(ports[..i], v, p) || SendsUntagged(ports[i], v, p)
  {
    forall v, p
      ensures IsEgress(ports[..i + 1], v, p) <==> IsEgress(ports[..i], v, p) || CarriesVlan(ports[i], v, p)
      ensures IsUntagged(ports[..i + 1], v, p) <==> IsUntagged(ports[..i], v, p) || SendsUntagged(ports[i], v, p)
    {
      assert ports[..i + 1][i] == ports[i];
      assert forall j :: 0 <= j < i ==> ports[..i + 1][j] == ports[..i][j];
    }
  }

  lemma SameHolds(m: PortLists, a: (int, int) -> bool, b: (int, int) -> bool)
    requires Holds(m, a) && forall v, p :: a(v, p) == b(v, p)
    ensures Holds(m, b)
  {
  }

  method MapVlanSetting(setting: VlanSetting, deviceId: int) returns (table: VlanTable)
    ensures table.deviceId == deviceId
    ensures table.managementVlan == if setting.mgmtVlan.Some? then setting.mgmtVlan.value else -1
    ensures |table.portVlans| == |table.portTypes| == |Ports(setting.ports)|
    ensures forall i :: 0 <= i < |table.portVlans| ==>
              table.portVlans[i]
                  == PortVlanEntry(Ports(setting.ports)[i].portId, Ports(setting.ports)[i].pvid, PRIORITY)
    ensures forall i :: 0 <= i < |table.portTypes| ==>
              table.portTypes[i]
                  == PortTypeEntry(Ports(setting.ports)[i].portId, ModeName(Ports(setting.ports)[i].mode), PRIORITY)
    ensures |table.statics| == |setting.vlans|
    ensures forall i :: 0 <= i < |table.statics| ==> Describes(table.statics[i], setting.vlans[i], setting.ports)
  {
    var portVlans, portTypes, egress, untagged := MapPortLists(setting.ports);
    var statics: seq<StaticEntry> := [];
    for i := 0 to |setting.vlans|
      invariant |statics| == i
      invariant forall j :: 0 <= j < i ==> Describes(statics[j], setting.vlans[j], setting.ports)
    {
      var vlan := setting.vlans[i];
      var e := StaticEntry(vlan.vlanId, vlan.name, vlan.teMstid.Some? && vlan.teMstid.value,
                           PortsFor(egress, vlan.vlanId), PortsFor(untagged, vlan.vlanId), PRIORITY);
      statics := statics + [e];
    }
    var mgmtVlan := -1;
    if setting.mgmtVlan.Some? {
      mgmtVlan := setting.mgmtVlan.value;
    }
    table := VlanTable(deviceId, mgmtVlan, portVlans, portTypes, statics);
  }

  // ----- order of the port entries -----

  /** The i-th port setting that is not a group is the one after exactly the earlier such settings. */
  lemma {:induction false} PortPlace(ports: seq<PortSetting>, i: nat)
    requires i < |ports| && !IsLag(ports[i])
    ensures |Ports(ports[..i])| < |Ports(ports)| && Ports(ports)[|Ports(ports[..i])|] == ports[i]
  {
    var n := |ports| - 1;
    if i < n {
      PortPlace(ports[..n], i);
      assert ports[..n][..i] == ports[..i];
    }
  }

  /** And every port entry comes from such a setting: the one with as many such settings before it. */
  lemma {:induction false} PortOrigin(ports: seq<PortSetting>, j: nat) returns (i: nat)
    requires j < |Ports(ports)|
    ensures i < |ports| && !IsLag(ports[i]) && Ports(ports)[j] == ports[i] && |Ports(ports[..i])| == j
  {
    var n := |ports| - 1;
    if j < |Ports(ports[..n])| {
      i := PortOrigin(ports[..n], j);
      assert ports[..n][..i] == ports[..i];
    } else {
      i := n;
    }
  }
}
