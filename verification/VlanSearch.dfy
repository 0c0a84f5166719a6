/**
 The search that decides which switch ports must carry a VLAN so that a set of end
 stations can talk: one wave of paths per end station, each wave claiming the devices
 it reaches first and stopping where it meets a device another station has claimed.

 `Step` is one turn of the main loop; `Run` iterates it. The method
 `FindAllLinksBetweenEdges` is the loop itself, proved to compute the final `Run` state.
 */
module VlanSearch {
  import opened Graph

  /** device -> port -> link id */
  type PortMap = map<int, map<int, int>>

  /** device -> the usable links attached to it */
  type Topology = map<int, seq<Link>>

  /** A path being explored; `from` is the end station it started at. */
  datatype Path = Path(from: int, hops: seq<Hop>)

  type Wave = p: Path | |p.hops| > 0 witness Path(0, [Hop(0, 0, 0, 0, 0)])

  datatype State = State(queue: seq<Wave>, visited: map<int, int>, edgePort: PortMap, throughPort: PortMap)

  /** The station that has claimed the device, 0 if none has. */
  function Owner(visited: map<int, int>, dev: int): int {
    if dev in visited then visited[dev] else 0
  }

  function LinksAt(topo: Topology, dev: int): seq<Link> {
    if dev in topo then topo[dev] else []
  }

  function HopFrom(dev: int, l: Link): Hop {
    if l.srcDev == dev then Forward(l) else Backward(l)
  }

  function InsertPort(m: PortMap, dev: int, port: int, linkId: int): PortMap {
    m[dev := (if dev in m then m[dev] else map[])[port := linkId]]
  }

  ghost predicate HasPort(m: PortMap, dev: int, port: int) {
    dev in m && port in m[dev]
  }

  ghost predicate PortLink(m: PortMap, dev: int, port: int, linkId: int) {
    dev in m && port in m[dev] && m[dev][port] == linkId
  }

  /** This port is now listed with this link, and every other port exactly as before. */
  ghost predicate OnlyPortSet(before: PortMap, after: PortMap, dev: int, port: int, linkId: int) {
    && after.Keys == before.Keys + {dev}
    && forall d, p, l :: PortLink(after, d, p, l)
                         <==> if d == dev && p == port then l == linkId else PortLink(before, d, p, l)
  }

  function InitialQueue(stations: seq<int>, topo: Topology): seq<Wave> {
    if stations == [] then []
    else
      var k := |stations| - 1;
      InitialQueue(stations[..k], topo) + StationWaves(stations[k], LinksAt(topo, stations[k]))
  }

  function StationWaves(station: int, links: seq<Link>): seq<Wave> {
    seq(|links|, i requires 0 <= i < |links| => Path(station, [HopFrom(station, links[i])]))
  }

  function InitialState(stations: seq<int>, topo: Topology): State {
    State(InitialQueue(stations, topo), OwnClaims(stations, topo), map[], map[])
  }

  /** Each station with a link claims itself. */
  function OwnClaims(stations: seq<int>, topo: Topology): map<int, int> {
    map e | e in stations && LinksAt(topo, e) != [] :: e
  }

  lemma OwnClaimsAppend(stations: seq<int>, station: int, topo: Topology)
    ensures LinksAt(topo, station) != []
            ==> OwnClaims(stations + [station], topo) == OwnClaims(stations, topo)[station := station]
    ensures LinksAt(topo, station) == [] ==> OwnClaims(stations + [station], topo) == OwnClaims(stations, topo)
  {
  }

  function Extensions(w: Wave, links: seq<Link>): seq<Wave> {
    if links == [] then []
    else
      var k := |links| - 1;
      if links[k].id == w.hops[|w.hops| - 1].linkId then Extensions(w, links[..k])
      else Extensions(w, links[..k]) + [Path(w.from, w.hops + [HopFrom(End(w.hops), links[k])])]
  }

  /** The first n hops of a path between stations, entered into the port table. */
  function RecordThrough(m: PortMap, hops: seq<Hop>, n: nat): PortMap
    requires n <= |hops|
  {
    if n == 0 then m
    else
      var h := hops[n - 1];
      var m' := RecordThrough(m, hops, n - 1);
      if n == 1 then InsertPort(m', h.nextDev, h.nextPort, h.linkId)
      else InsertPort(InsertPort(m', h.currDev, h.currPort, h.linkId), h.nextDev, h.nextPort, h.linkId)
  }

  function RecordEdge(m: PortMap, hops: seq<Hop>): PortMap
    requires |hops| > 0
  {
    InsertPort(m, hops[0].nextDev, hops[0].nextPort, hops[0].linkId)
  }

  predicate Meets(visited: map<int, int>, w: Wave) {
    var owner := Owner(visited, End(w.hops));
    owner != 0 && owner != w.from
  }

  function Step(topo: Topology, st: State): State
    requires st.queue != []
  {
    var w := st.queue[0];
    if Meets(st.visited, w) then
      State(st.queue[1..], st.visited,
            RecordEdge(st.edgePort, w.hops),
            RecordThrough(st.throughPort, w.hops, |w.hops|))
    else
      State(st.queue[1..] + Extensions(w, LinksAt(topo, End(w.hops))),
            st.visited[End(w.hops) := w.from],
            st.edgePort, st.throughPort)
  }

  function Run(stations: seq<int>, topo: Topology, n: nat): State {
    if n == 0 then InitialState(stations, topo)
    else
      var st := Run(stations, topo, n - 1);
      if st.queue == [] then st else Step(topo, st)
  }

  ghost predicate Halts(stations: seq<int>, topo: Topology) {
    exists n: nat :: Run(stations, topo, n).queue == []
  }

  /** The state in which the loop stops. */
  ghost function Final(stations: seq<int>, topo: Topology): State
    requires Halts(stations, topo)
  {
    var n: nat :| Run(stations, topo, n).queue == [];
    Run(stations, topo, n)
  }

  lemma {:induction false} RunStable(stations: seq<int>, topo: Topology, m: nat, n: nat)
    requires m <= n && Run(stations, topo, m).queue == []
    ensures Run(stations, topo, n) == Run(stations, topo, m)
    decreases n
  {
    if m < n {
      RunStable(stations, topo, m, n - 1);
    }
  }

  lemma FinalIsRun(stations: seq<int>, topo: Topology, n: nat)
    requires Run(stations, topo, n).queue == []
    ensures Halts(stations, topo) && Final(stations, topo) == Run(stations, topo, n)
  {
    var m: nat :| Run(stations, topo, m).queue == [] && Final(stations, topo) == Run(stations, topo, m);
    if m <= n { RunStable(stations, topo, m, n); } else { RunStable(stations, topo, n, m); }
  }

  // ----- the loop -----

  method InsertPortMap(m: PortMap, devId: int, portId: int, linkId: int) returns (updated: PortMap)
    ensures updated == InsertPort(m, devId, portId, linkId)
    ensures OnlyPortSet(m, updated, devId, portId, linkId)
  {
    var ports := map[];
    if devId in m {
      ports := m[devId];
    }
    ports := ports[portId := linkId];
    updated := m[devId := ports];
  }

  /** One station's first hops, one for each of its links. */
  method SeedStation(station: int, links: seq<Link>) returns (waves: seq<Wave>)
    ensures waves == StationWaves(station, links)
  {
    waves := [];
    for j := 0 to |links|
      invariant waves == StationWaves(station, links[..j])
    {
      var l := links[j];
      var hop := Forward(l);
      if l.srcDev != station {
        hop := Backward(l);
      }
      waves := waves + [Path(station, [hop])];
    }
    assert links[..|links|] == links;
  }

  method SeedWaves(stations: seq<int>, topo: Topology) returns (queue: seq<Wave>, visited: map<int, int>)
    ensures queue == InitialState(stations, topo).queue
    ensures visited == InitialState(stations, topo).visited
  {
    queue, visited := [], map[];
    for i := 0 to |stations|
      invariant queue == InitialQueue(stations[..i], topo)
      invariant visited == OwnClaims(stations[..i], topo)
    {
      var station := stations[i];
      assert stations[..i + 1] == stations[..i] + [station];
      OwnClaimsAppend(stations[..i], station, topo);
      var waves := SeedStation(station, LinksAt(topo, station));
      queue := queue + waves;
      if waves != [] {
        visited := visited[station := station];
      }
      assert stations[..i + 1][..i] == stations[..i];
    }
    assert stations[..|stations|] == stations;
  }

  method RecordPath(hops: seq<Hop>, edgePort: PortMap, throughPort: PortMap) returns (edge: PortMap, through: PortMap)
    requires |hops| > 0
    ensures edge == RecordEdge(edgePort, hops)
    ensures through == RecordThrough(throughPort, hops, |hops|)
  {
    edge, through := edgePort, throughPort;
    for idx := 0 to |hops|
      invariant edge == if idx == 0 then edgePort else RecordEdge(edgePort, hops)
      invariant through == RecordThrough(throughPort, hops, idx)
    {
      var hop := hops[idx];
      if idx == 0 {
        edge := InsertPortMap(edge, hop.nextDev, hop.nextPort, hop.linkId);
        through := InsertPortMap(through, hop.nextDev, hop.nextPort, hop.linkId);
      } else {
        through := InsertPortMap(through, hop.currDev, hop.currPort, hop.linkId);
        through := InsertPortMap(through, hop.nextDev, hop.nextPort, hop.linkId);
      }
    }
  }

  method ExtendPath(curPath: Wave, links: seq<Link>) returns (newPaths: seq<Wave>)
    ensures newPaths == Extensions(curPath, links)
  {
    newPaths := [];
    var curPort := curPath.hops[|curPath.hops| - 1];
    for i := 0 to |links|
      invariant newPaths == Extensions(curPath, links[..i])
    {
      var l := links[i];
      assert links[..i + 1][..i] == links[..i];
      if l.id == curPort.linkId {
        continue;
      }
      var hop := Forward(l);
      if l.srcDev != curPort.nextDev {
        hop := Backward(l);
      }
      newPaths := newPaths + [Path(curPath.from, curPath.hops + [hop])];
    }
    assert links[..|links|] == links;
  }

  /** One turn of the main loop. */
  method Turn(topo: Topology, st: State) returns (st': State)
    requires st.queue != []
    ensures st' == Step(topo, st)
  {
    var curPath := st.queue[0];
    var queue, visited := st.queue[1..], st.visited;
    var edgePort, throughPort := st.edgePort, st.throughPort;
    var nextDev := End(curPath.hops);
    if Owner(visited, nextDev) != 0 && Owner(visited, nextDev) != curPath.from {
      edgePort, throughPort := RecordPath(curPath.hops, edgePort, throughPort);
    } else {
      var newPaths := ExtendPath(curPath, LinksAt(topo, nextDev));
      queue := queue + newPaths;
      visited := visited[nextDev := curPath.from];
    }
    st' := State(queue, visited, edgePort, throughPort);
  }

  method FindAllLinksBetweenEdges(stations: seq<int>, topo: Topology) returns (edgePort: PortMap, throughPort: PortMap)
    requires Halts(stations, topo)
    ensures edgePort == Final(stations, topo).edgePort
    ensures throughPort == Final(stations, topo).throughPort
  {
    var queue, visited := SeedWaves(stations, topo);
    var st := State(queue, visited, map[], map[]);
    ghost var bound: nat :| Run(stations, topo, bound).queue == [];
    ghost var turns: nat := 0;
    while |st.queue| > 0
      invariant turns <= bound
      invariant Run(stations, topo, turns) == st
      decreases bound - turns
    {
      assert turns != bound;
      st := Turn(topo, st);
      turns := turns + 1;
    }
    FinalIsRun(stations, topo, turns);
    edgePort, throughPort := st.edgePort, st.throughPort;
  }
}
