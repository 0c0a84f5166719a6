/**
 Translating per-stream priority settings: the entries are grouped by port, and each
 entry gets the next free ingress index of its port.
 */
module IngressGroups {
  import opened Text
  import opened Collections

  datatype StreamType = L2 | L3Tcp | L3Udp | Inactive | OtherType

  datatype Stream = Stream(
    portId: int, streamType: StreamType, etherType: Option<string>, subType: Option<string>,
    tcpPort: Option<int>, udpPort: Option<int>, vlanId: int, priority: int)

  datatype StadEntry = StadEntry(
    portId: int, ingressIndex: int, enable: int, vlanId: int, vlanPcp: int, etherType: int,
    subTypeEnable: int, subType: int, types: seq<string>, udpPort: int, tcpPort: int)

  datatype PortGroup = PortGroup(interfaceId: int, entries: seq<StadEntry>)

  datatype IngressTable = IngressTable(deviceId: int, groups: seq<PortGroup>)

  const ENABLED := 1
  const DISABLED := 2

  function TypeNames(t: StreamType): seq<string> {
    match t
    case Inactive => ["inactive"]
    case L2 => ["etherType"]
    case L3Tcp => ["tcpPort"]
    case L3Udp => ["udpPort"]
    case OtherType => ["etherType"]
  }

  /** One entry with its place among its port's entries. `parse` reads an integer text; it
      fails on texts that are not numbers. */
  function Convert(s: Stream, index: nat, parse: string -> Option<int>): StadEntry {
    var etherType := if s.etherType.Some? && parse(s.etherType.value).Some? then parse(s.etherType.value).value else 0;
    var hasSubType := s.subType.Some? && parse(s.subType.value).Some?;
    StadEntry(
      s.portId, index, if s.streamType == Inactive then DISABLED else ENABLED, s.vlanId, s.priority, etherType,
      if hasSubType then ENABLED else DISABLED,
      if hasSubType then parse(s.subType.value).value else 0,
      TypeNames(s.streamType),
      if s.udpPort.Some? then s.udpPort.value else 1,
      if s.tcpPort.Some? then s.tcpPort.value else 1)
  }

  /** How many of the streams are on the port. */
  function CountOn(streams: seq<Stream>, port: int): (n: nat)
    ensures n <= |streams|
  {
    if streams == [] then 0
    else CountOn(streams[..|streams| - 1], port) + if streams[|streams| - 1].portId == port then 1 else 0
  }

  /** The entries of one port. */
  function GroupOf(streams: seq<Stream>, port: int, parse: string -> Option<int>): (g: seq<StadEntry>)
    ensures |g| == CountOn(streams, port)
  {
    if streams == [] then []
    else
      var k := |streams| - 1;
      GroupOf(streams[..k], port, parse)
      + if streams[k].portId == port then [Convert(streams[k], CountOn(streams[..k], port), parse)] else []
  }

  function SumSizes(groups: seq<PortGroup>): nat {
    if groups == [] then 0 else SumSizes(groups[..|groups| - 1]) + |groups[|groups| - 1].entries|
  }

  /** One group for each port that occurs, with exactly that port's entries. */
  ghost predicate IsGrouping(groups: seq<PortGroup>, streams: seq<Stream>, parse: string -> Option<int>) {
    && NoDuplicates(IdsOf(groups))
    && (forall i :: 0 <= i < |groups| ==> groups[i].entries == GroupOf(streams, groups[i].interfaceId, parse))
    && (forall port :: CountOn(streams, port) > 0 <==> port in IdsOf(groups))
  }

  method MapStream(s: Stream, index: nat, parse: string -> Option<int>) returns (entry: StadEntry)
    ensures entry == Convert(s, index, parse)
  {
    entry := StadEntry(-1, 0, DISABLED, 1, 0, 0, DISABLED, 0, ["etherType"], 1, 1);
    entry := entry.(portId := s.portId, ingressIndex := index, vlanId := s.vlanId, vlanPcp := s.priority);
    match s.streamType {
      case Inactive => entry := entry.(types := ["inactive"]);
      case L2 => entry := entry.(types := ["etherType"]);
      case L3Tcp => entry := entry.(types := ["tcpPort"]);
      case L3Udp => entry := entry.(types := ["udpPort"]);
      case OtherType =>
    }
    if s.streamType == Inactive {
      entry := entry.(enable := DISABLED);
    } else {
      entry := entry.(enable := ENABLED);
    }
    if s.etherType.Some? {
      var value := parse(s.etherType.value);
      if value.Some? {
        entry := entry.(etherType := value.value);
      }
    }
    if s.subType.Some? {
      var value := parse(s.subType.value);
      if value.None? {
        entry := entry.(subTypeEnable := DISABLED);
      } else {
        entry := entry.(subType := value.value, subTypeEnable := ENABLED);
      }
    }
    if s.tcpPort.Some? {
      entry := entry.(tcpPort := s.tcpPort.value);
    }
    if s.udpPort.Some? {
      entry := entry.(udpPort := s.udpPort.value);
    }
  }

  function IdsOf(groups: seq<PortGroup>): (ids: seq<int>)
    ensures |ids| == |groups| && forall i :: 0 <= i < |groups| ==> ids[i] == groups[i].interfaceId
  {
    seq(|groups|, i requires 0 <= i < |groups| => groups[i].interfaceId)
  }

  method ListGroups(portMap: map<int, seq<StadEntry>>) returns (groups: seq<PortGroup>)
    ensures Lists(IdsOf(groups), portMap.Keys)
    ensures forall i :: 0 <= i < |groups| ==>
              groups[i].interfaceId in portMap && groups[i].entries == portMap[groups[i].interfaceId]
  {
    groups := [];
    var ports := portMap.Keys;
    while ports != {}
      invariant ports <= portMap.Keys
      invariant Lists(IdsOf(groups), portMap.Keys - ports)
      invariant forall i :: 0 <= i < |groups| ==>
                  groups[i].interfaceId in portMap && groups[i].entries == portMap[groups[i].interfaceId]
    {
      var port := AnyOf(ports);
      assert IdsOf(groups + [PortGroup(port, portMap[port])]) == IdsOf(groups) + [port];
      groups := groups + [PortGroup(port, portMap[port])];
      ports := ports - {port};
    }
  }

  method MapIngressTables(deviceId: int, input: Option<seq<Stream>>, parse: string -> Option<int>)
    returns (table: Option<IngressTable>)
    ensures table.None? <==> input.None?
    ensures table.Some? ==> table.value.deviceId == deviceId && IsGrouping(table.value.groups, input.value, parse)
  {
    if input.None? {
      return None;
    }
    var streams := input.value;
    var portMap: map<int, seq<StadEntry>> := map[];
    for i := 0 to |streams|
      invariant forall port :: port in portMap <==> CountOn(streams[..i], port) > 0
      invariant forall port :: port in portMap ==> portMap[port] == GroupOf(streams[..i], port, parse)
    {
      var s := streams[i];
      assert streams[..i + 1][..i] == streams[..i];
      var sofar := if s.portId in portMap then portMap[s.portId] else [];
      assert sofar == GroupOf(streams[..i], s.portId, parse);
      var entry := MapStream(s, |sofar|, parse);
      portMap := portMap[s.portId := sofar + [entry]];
    }
    assert streams[..|streams|] == streams;
    var groups := ListGroups(portMap);
    return Some(IngressTable(deviceId, groups));
  }

  // ----- what the grouping means -----

  /** Within a group the ingress indices are 0, 1, 2, ... and every entry is the port's own. */
  lemma {:induction false} GroupIndices(streams: seq<Stream>, port: int, parse: string -> Option<int>, k: nat)
    requires k < |GroupOf(streams, port, parse)|
    ensures GroupOf(streams, port, parse)[k].ingressIndex == k
    ensures GroupOf(streams, port, parse)[k].portId == port
  {
    var n := |streams| - 1;
    if k < CountOn(streams[..n], port) {
      GroupIndices(streams[..n], port, parse, k);
    }
  }

  /** The i-th stream is found in its port's group, after exactly the earlier streams of that port:
      the groups keep the input order. */
  lemma {:induction false} StreamPlace(streams: seq<Stream>, i: nat, parse: string -> Option<int>)
    requires i < |streams|
    ensures var port, place := streams[i].portId, CountOn(streams[..i], streams[i].portId);
            place < |GroupOf(streams, port, parse)|
            && GroupOf(streams, port, parse)[place] == Convert(streams[i], place, parse)
  {
    var n := |streams| - 1;
    if i < n {
      StreamPlace(streams[..n], i, parse);
      assert streams[..n][..i] == streams[..i];
    }
  }

  /** The entry of the i-th stream, field by field. */
  lemma EntryFields(streams: seq<Stream>, i: nat, parse: string -> Option<int>)
    requires i < |streams|
    ensures var s, place := streams[i], CountOn(streams[..i], streams[i].portId);
            && place < |GroupOf(streams, s.portId, parse)|
            && var e := GroupOf(streams, s.portId, parse)[place];
               && e.portId == s.portId && e.ingressIndex == place
               && e.vlanId == s.vlanId && e.vlanPcp == s.priority
               && e.enable == (if s.streamType == Inactive then 2 else 1)
               && (s.streamType == Inactive ==> e.types == ["inactive"])
               && (s.streamType == L3Tcp ==> e.types == ["tcpPort"])
               && (s.streamType == L3Udp ==> e.types == ["udpPort"])
               && (s.streamType == L2 || s.streamType == OtherType ==> e.types == ["etherType"])
               && e.tcpPort == (if s.tcpPort == None then 1 else s.tcpPort.value)
               && e.udpPort == (if s.udpPort == None then 1 else s.udpPort.value)
    ensures var s, place := streams[i], CountOn(streams[..i], streams[i].portId);
            && place < |GroupOf(streams, s.portId, parse)|
            && var e := GroupOf(streams, s.portId, parse)[place];
               && (forall text, n :: s.etherType == Some(text) && parse(text) == Some(n) ==> e.etherType == n)
               && ((s.etherType == None || parse(s.etherType.value) == None) ==> e.etherType == 0)
               && (forall text, n :: s.subType == Some(text) && parse(text) == Some(n)
                                     ==> e.subType == n && e.subTypeEnable == 1)
               && ((s.subType == None || parse(s.subType.value) == None) ==> e.subType == 0 && e.subTypeEnable == 2)
  {
    StreamPlace(streams, i, parse);
  }

  /** Different streams have different places, so nothing is lost or doubled. */
  lemma {:induction false} PlacesIncrease(streams: seq<Stream>, i: nat, j: nat)
    requires i < j <= |streams|
    ensures CountOn(streams[..i], streams[i].portId) < CountOn(streams[..j], streams[i].portId)
    decreases j
  {
    var port := streams[i].portId;
    assert streams[..j][..j - 1] == streams[..j - 1];
    if i < j - 1 {
      PlacesIncrease(streams, i, j - 1);
    }
  }

  // ----- conservation -----

  function CountsOf(groups: seq<PortGroup>, streams: seq<Stream>): nat {
    if groups == [] then 0
    else CountsOf(groups[..|groups| - 1], streams) + CountOn(streams, groups[|groups| - 1].interfaceId)
  }

  lemma {:induction false} SumIsCounts(groups: seq<PortGroup>, streams: seq<Stream>, parse: string -> Option<int>)
    requires forall i :: 0 <= i < |groups| ==> groups[i].entries == GroupOf(streams, groups[i].interfaceId, parse)
    ensures SumSizes(groups) == CountsOf(groups, streams)
  {
    if groups != [] {
      SumIsCounts(groups[..|groups| - 1], streams, parse);
    }
  }

  /** Adding one stream adds one to the count of its own group only. */
  lemma {:induction false} CountsStep(groups: seq<PortGroup>, streams: seq<Stream>)
    requires streams != [] && NoDuplicates(IdsOf(groups))
    ensures var k := |streams| - 1;
            CountsOf(groups, streams) == CountsOf(groups, streams[..k])
                + if streams[k].portId in IdsOf(groups) then 1 else 0
  {
    if groups != [] {
      var n := |groups| - 1;
      assert IdsOf(groups) == IdsOf(groups[..n]) + [groups[n].interfaceId];
      assert forall i :: 0 <= i < n ==> IdsOf(groups)[i] == IdsOf(groups[..n])[i] != IdsOf(groups)[n];
      CountsStep(groups[..n], streams);
    }
  }

  lemma {:induction false} CountsTotal(groups: seq<PortGroup>, streams: seq<Stream>)
    requires NoDuplicates(IdsOf(groups))
    requires forall k :: 0 <= k < |streams| ==> streams[k].portId in IdsOf(groups)
    ensures CountsOf(groups, streams) == |streams|
  {
    if streams == [] {
      NoCounts(groups);
    } else {
      CountsStep(groups, streams);
      CountsTotal(groups, streams[..|streams| - 1]);
    }
  }

  lemma {:induction false} NoCounts(groups: seq<PortGroup>)
    ensures CountsOf(groups, []) == 0
  {
    if groups != [] {
      NoCounts(groups[..|groups| - 1]);
    }
  }

  /** However the ports are ordered, the groups hold as many entries as there are streams. */
  lemma GroupingConserves(groups: seq<PortGroup>, streams: seq<Stream>, parse: string -> Option<int>)
    requires IsGrouping(groups, streams, parse)
    ensures SumSizes(groups) == |streams|
  {
    SumIsCounts(groups, streams, parse);
    forall k | 0 <= k < |streams| ensures streams[k].portId in IdsOf(groups) {
      StreamPlace(streams, k, parse);
      assert CountOn(streams, streams[k].portId) > 0;
    }
    CountsTotal(groups, streams);
  }
}
