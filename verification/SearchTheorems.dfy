/**
 The results about the VLAN search, stated about the state in which it stops.
 */
module SearchTheorems {
  import opened Collections
  import opened Graph
  import opened VlanSearch
  import opened SearchInvariant
  import opened SearchExactness
  import opened SearchTerritory
  import opened SearchTermination

  /** A network as the search expects it: links and ports named uniquely, adjacency lists in step. */
  ghost predicate WellFormed(g: set<Link>, stations: seq<int>, topo: Topology) {
    DistinctIds(g) && DistinctPorts(g) && Adjacent(g, topo) && 0 !in stations
  }

  /** Two different end stations can reach one another. */
  ghost predicate Joined(g: set<Link>, stations: seq<int>) {
    exists s, t :: s in stations && t in stations && s != t && Connected(g, s, t)
  }

  ghost predicate IsEndpoint(g: set<Link>, dev: int, port: int, linkId: int) {
    exists h :: h in Hops(g) && h.nextDev == dev && h.nextPort == port && h.linkId == linkId
  }

  // ----- on any network, after any number of turns -----

  /** Claims last, queued paths stay in their station's territory, recorded ports are real. */
  lemma SafeAfterAnyTurns(g: set<Link>, stations: seq<int>, topo: Topology, n: nat)
    requires DistinctIds(g) && Adjacent(g, topo) && 0 !in stations
    ensures ClaimsKept(Run(stations, topo, n).visited, Run(stations, topo, n + 1).visited)
    ensures forall d :: Owner(Run(stations, topo, n).visited, d) != 0
                        ==> Owner(Run(stations, topo, n).visited, d) in stations
    ensures forall w: Wave :: w in Run(stations, topo, n).queue
                              ==> WaveOk(g, stations, Run(stations, topo, n).visited, w)
    ensures forall d, p, l :: PortLink(Run(stations, topo, n).throughPort, d, p, l)
                              ==> IsEndpoint(g, d, p, l) && OnStationTrail(g, stations, l)
    ensures forall d, p :: HasPort(Run(stations, topo, n).edgePort, d, p)
                           ==> HasPort(Run(stations, topo, n).throughPort, d, p)
  {
    var st := Run(stations, topo, n);
    var hist := RunInv(g, stations, topo, n);
    assert forall w: Wave :: w in st.queue ==> Known(st, hist, w);
    forall d | Owner(st.visited, d) != 0 ensures Owner(st.visited, d) in stations {
      assert ClaimExplained(stations, st, hist, d);
    }
    forall d, p, l | PortLink(st.throughPort, d, p, l)
      ensures IsEndpoint(g, d, p, l) && OnStationTrail(g, stations, l)
    {
      assert PortExplained(hist, d, p, l);
      var w, i :| w in hist.met && Records(w.hops, i, d, p) && w.hops[i].linkId == l;
      RecordedPortIsEndpoint(g, stations, st, hist, w, i, d, p);
      var t := MeetingTrail(g, stations, st, hist, w);
      assert t[i] == w.hops[i];
    }
    forall d, p | HasPort(st.edgePort, d, p) ensures HasPort(st.throughPort, d, p) {
      assert PortLink(st.edgePort, d, p, st.edgePort[d][p]);
      assert EdgeExplained(hist, d, p, st.edgePort[d][p]);
      var w :| w in hist.met && w.hops[0].nextDev == d && w.hops[0].nextPort == p
          && w.hops[0].linkId == st.edgePort[d][p];
      assert Records(w.hops, 0, d, p);
    }
  }

  lemma {:induction false} DevicesHavePorts(stations: seq<int>, topo: Topology, n: nat)
    ensures forall d :: d in Run(stations, topo, n).throughPort ==> Run(stations, topo, n).throughPort[d] != map[]
    ensures forall d :: d in Run(stations, topo, n).edgePort ==> Run(stations, topo, n).edgePort[d] != map[]
  {
    if n > 0 {
      DevicesHavePorts(stations, topo, n - 1);
      var st := Run(stations, topo, n - 1);
      if st.queue != [] {
        var hops := st.queue[0].hops;
        RecordKeepsPorts(st.throughPort, hops, |hops|);
        InsertKeepsPorts(st.edgePort, hops[0].nextDev, hops[0].nextPort, hops[0].linkId);
      }
    }
  }

  lemma InsertKeepsPorts(m: PortMap, dev: int, port: int, linkId: int)
    requires forall d :: d in m ==> m[d] != map[]
    ensures forall d :: d in InsertPort(m, dev, port, linkId) ==> InsertPort(m, dev, port, linkId)[d] != map[]
  {
    assert port in InsertPort(m, dev, port, linkId)[dev];
  }

  lemma {:induction false} RecordKeepsPorts(m: PortMap, hops: seq<Hop>, n: nat)
    requires n <= |hops| && forall d :: d in m ==> m[d] != map[]
    ensures forall d :: d in RecordThrough(m, hops, n) ==> RecordThrough(m, hops, n)[d] != map[]
  {
    if n > 0 {
      RecordKeepsPorts(m, hops, n - 1);
      var h := hops[n - 1];
      var m' := RecordThrough(m, hops, n - 1);
      InsertKeepsPorts(m', h.currDev, h.currPort, h.linkId);
      InsertKeepsPorts(InsertPort(m', h.currDev, h.currPort, h.linkId), h.nextDev, h.nextPort, h.linkId);
      InsertKeepsPorts(m', h.nextDev, h.nextPort, h.linkId);
    }
  }

  // ----- on any network on which the search stops -----

  lemma FinalInv(g: set<Link>, stations: seq<int>, topo: Topology) returns (hist: History)
    requires Halts(stations, topo) && Adjacent(g, topo) && 0 !in stations
    ensures Final(stations, topo).queue == []
    ensures Inv(g, stations, Final(stations, topo), hist)
  {
    var n: nat :| Run(stations, topo, n).queue == [];
    FinalIsRun(stations, topo, n);
    hist := RunInv(g, stations, topo, n);
  }

  /** Something is recorded exactly when two different end stations are connected. */
  lemma RecordsIffJoined(g: set<Link>, stations: seq<int>, topo: Topology)
    requires DistinctIds(g) && Adjacent(g, topo) && 0 !in stations && Halts(stations, topo)
    ensures Final(stations, topo).throughPort != map[] <==> Joined(g, stations)
  {
    var st := Final(stations, topo);
    var hist := FinalInv(g, stations, topo);
    if st.throughPort != map[] {
      var n: nat :| Run(stations, topo, n).queue == [];
      FinalIsRun(stations, topo, n);
      DevicesHavePorts(stations, topo, n);
      var d := SomeKey(st.throughPort);
      var p := SomeKey(st.throughPort[d]);
      assert PortLink(st.throughPort, d, p, st.throughPort[d][p]);
      assert PortExplained(hist, d, p, st.throughPort[d][p]);
      var w :| w in hist.met;
      var t := MeetingTrail(g, stations, st, hist, w);
      assert Connected(g, Start(t), End(t));
    }
    if Joined(g, stations) {
      var s, t :| s in stations && t in stations && s != t && Connected(g, s, t);
      var w := ConnectedBySimplePath(g, s, t);
      SimplePathIsTrail(g, w);
      SimplePathCrossable(g, w);
      var m := SimplePathMeets(g, stations, st, hist, w);
      assert Records(m.hops, 0, m.hops[0].nextDev, m.hops[0].nextPort);
      assert HasPort(st.throughPort, m.hops[0].nextDev, m.hops[0].nextPort);
    }
  }

  lemma SimplePathCrossable(g: set<Link>, w: seq<Hop>)
    requires IsSimplePath(g, w)
    ensures AllCrossable(g, w)
  {
    forall h | h in w ensures Crossable(g, h) {
      var i :| 0 <= i < |w| && w[i] == h;
      assert Device(w, i) == w[i].currDev && Device(w, i + 1) == w[i].nextDev;
    }
  }

  // ----- exactness -----

  /** The station is among the first j + 1 in the list. */
  predicate ListedBy(stations: seq<int>, s: int, j: nat)
    requires j < |stations|
  {
    s in stations[..j + 1]
  }

  /** An end station with a link to the device is listed before the station s. */
  ghost predicate ServedBefore(g: set<Link>, stations: seq<int>, dev: int, s: int) {
    exists j: nat, h ::
      j < |stations| && !ListedBy(stations, s, j) && h in Hops(g) && h.currDev == stations[j] && h.nextDev == dev
  }

  /** Whether the search records the port the hop leads into: a switch's port if its link is on a
      trail between two different end stations; an end station's own port if its link leads
      directly to another one, or to a device that an end station listed earlier has a link to. */
  ghost predicate IsMember(g: set<Link>, stations: seq<int>, h: Hop) {
    if h.nextDev !in stations then OnStationTrail(g, stations, h.linkId)
    else h.currDev in stations || ServedBefore(g, stations, h.currDev, h.nextDev)
  }

  /** Next to an end station: the device is claimed by another one exactly when it is one, or
      has a link to one listed earlier. */
  lemma NeighbourOwner(g: set<Link>, stations: seq<int>, topo: Topology, n: nat, h: Hop)
    requires DistinctIds(g) && NoLoopLinks(g) && Adjacent(g, topo) && 0 !in stations
    requires Run(stations, topo, n).queue == [] && h in Hops(g) && h.nextDev in stations
    ensures Owner(Run(stations, topo, n).visited, h.currDev) != h.nextDev
            <==> h.currDev in stations || ServedBefore(g, stations, h.currDev, h.nextDev)
  {
    var st, far, s := Run(stations, topo, n), h.currDev, h.nextDev;
    var hist := RunInv(g, stations, topo, n);
    WalkHasNoSelfLoops(g, [h]);
    assert [h][0].currDev != [h][0].nextDev;
    FlipInHops(g, h);
    assert h.Flip().currDev in stations;
    if far !in stations {
      var _ := CrossLink(g, stations, st, hist, h.Flip());
      var i := OwnerIsNearest(g, stations, topo, n, far);
      var k: nat :| IsNearest(g, stations, i, k, far);
      var first := FirstPlace(stations, s);
      OneLinkOn(g, h.nextDev, 0, h.Flip());
      assert NoLater(k, i, 1, first);
      assert Reaches(g, stations[i], far, 1);
      if stations[i] != s {
        var w :| IsWalk(g, w) && |w| == 1 && Start(w) == stations[i] && End(w) == far;
        assert w[0] in Hops(g) && !ListedBy(stations, s, i);
      }
      if ServedBefore(g, stations, far, s) {
        var j: nat, u :| j < |stations| && !ListedBy(stations, s, j) && u in Hops(g) && u.currDev == stations[j]
            && u.nextDev == far;
        OneLinkOn(g, u.currDev, 0, u);
        assert NoLater(k, i, 1, j);
        assert stations[..j + 1][i] == stations[i];
      }
    }
  }

  /** Whenever the search stops, it has found exactly the links on trails that join two different
      end stations, exactly the member ports, and exactly the edge ports. */
  lemma ExactWheneverItStops(g: set<Link>, stations: seq<int>, topo: Topology)
    requires WellFormed(g, stations, topo) && NoLoopLinks(g) && Halts(stations, topo)
    ensures forall l :: LinkRecorded(Final(stations, topo).throughPort, l) <==> OnStationTrail(g, stations, l)
    ensures forall h :: h in Hops(g)
                        ==> (PortLink(Final(stations, topo).throughPort, h.nextDev, h.nextPort, h.linkId)
                             <==> IsMember(g, stations, h))
    ensures forall d, p, l :: PortLink(Final(stations, topo).throughPort, d, p, l) ==> IsEndpoint(g, d, p, l)
    ensures forall d, p, l :: PortLink(Final(stations, topo).edgePort, d, p, l) <==> IsEdgePort(g, stations, d, p, l)
  {
    var st := Final(stations, topo);
    var hist := FinalInv(g, stations, topo);
    forall l ensures LinkRecorded(st.throughPort, l) <==> OnStationTrail(g, stations, l) {
      ThroughLinksExact(g, stations, st, hist, l);
    }
    forall h | h in Hops(g)
      ensures PortLink(st.throughPort, h.nextDev, h.nextPort, h.linkId) <==> IsMember(g, stations, h)
    {
      if h.nextDev in stations {
        var n: nat :| Run(stations, topo, n).queue == [];
        FinalIsRun(stations, topo, n);
        StationPortsExact(g, stations, st, hist, h);
        NeighbourOwner(g, stations, topo, n, h);
      } else {
        SwitchPortsExact(g, stations, st, hist, h);
      }
    }
    forall d, p, l | PortLink(st.throughPort, d, p, l) ensures IsEndpoint(g, d, p, l) {
      ThroughPortsSound(g, stations, st, hist, d, p, l);
    }
    forall d, p, l ensures PortLink(st.edgePort, d, p, l) <==> IsEdgePort(g, stations, d, p, l) {
      EdgePortsExact(g, stations, st, hist, d, p, l);
    }
  }

  /** On a forest the search stops, and the links found are those on the simple paths. */
  lemma ExactOnForest(g: set<Link>, stations: seq<int>, topo: Topology)
    requires WellFormed(g, stations, topo) && Forest(g)
    ensures Halts(stations, topo)
    ensures forall l :: LinkRecorded(Final(stations, topo).throughPort, l) <==> OnStationPath(g, stations, l)
    ensures forall h :: h in Hops(g) && h.nextDev !in stations
                        ==> (PortLink(Final(stations, topo).throughPort, h.nextDev, h.nextPort, h.linkId)
                             <==> OnStationPath(g, stations, h.linkId))
  {
    HaltsOnForest(g, stations, topo);
    ForestHasNoLoopLinks(g);
    ExactWheneverItStops(g, stations, topo);
    forall l ensures OnStationTrail(g, stations, l) <==> OnStationPath(g, stations, l) {
      ForestStationTrails(g, stations, l);
    }
  }

  /** The same links in the cut form: a link is recorded exactly when removing it leaves
      an end station on both sides. */
  lemma RecordedIffCut(g: set<Link>, stations: seq<int>, topo: Topology, l: Link)
    requires WellFormed(g, stations, topo) && Forest(g) && l in g
    ensures Halts(stations, topo)
    ensures LinkRecorded(Final(stations, topo).throughPort, l.id) <==> CutsStations(g, stations, l)
  {
    ExactOnForest(g, stations, topo);
    PathIffCut(g, stations, l);
  }

  /** Wherever the search stops for both, neither the order of the end stations nor that of the
      adjacency lists matters to the links, the switch ports and the edge ports found. */
  lemma OrderIrrelevant(g: set<Link>, s1: seq<int>, t1: Topology, s2: seq<int>, t2: Topology)
    requires WellFormed(g, s1, t1) && WellFormed(g, s2, t2) && NoLoopLinks(g) && Halts(s1, t1) && Halts(s2, t2)
    requires forall e :: e in s1 <==> e in s2
    ensures forall l :: LinkRecorded(Final(s1, t1).throughPort, l) <==> LinkRecorded(Final(s2, t2).throughPort, l)
    ensures forall d, p, l ::
              d !in s1 ==> (PortLink(Final(s1, t1).throughPort, d, p, l)
                  <==> PortLink(Final(s2, t2).throughPort, d, p, l))
    ensures forall d, p, l :: PortLink(Final(s1, t1).edgePort, d, p, l) <==> PortLink(Final(s2, t2).edgePort, d, p, l)
  {
    ExactWheneverItStops(g, s1, t1);
    ExactWheneverItStops(g, s2, t2);
    forall l ensures OnStationTrail(g, s1, l) <==> OnStationTrail(g, s2, l) {
    }
    forall d, p, l | d !in s1
      ensures PortLink(Final(s1, t1).throughPort, d, p, l) <==> PortLink(Final(s2, t2).throughPort, d, p, l)
    {
      if h :| h in Hops(g) && h.nextDev == d && h.nextPort == p && h.linkId == l {
        assert h.nextDev !in s2;
      } else {
        assert !IsEndpoint(g, d, p, l);
      }
    }
    forall d, p, l ensures IsEdgePort(g, s1, d, p, l) <==> IsEdgePort(g, s2, d, p, l) {
    }
  }

  // ----- what does depend on the order -----

  /** Two end stations on one device, on any network: the port of the station listed last is
      recorded and that of the other is not. */
  lemma StationPortsDependOnOrder(g: set<Link>, a: Hop, b: Hop, topo: Topology)
    requires NoLoopLinks(g) && a in Hops(g) && b in Hops(g) && a.currDev == b.currDev && a.nextDev != b.nextDev
    requires WellFormed(g, [a.nextDev, b.nextDev], topo) && Halts([a.nextDev, b.nextDev], topo)
    requires a.currDev !in [a.nextDev, b.nextDev]
    ensures !PortLink(Final([a.nextDev, b.nextDev], topo).throughPort, a.nextDev, a.nextPort, a.linkId)
    ensures PortLink(Final([a.nextDev, b.nextDev], topo).throughPort, b.nextDev, b.nextPort, b.linkId)
  {
    var stations := [a.nextDev, b.nextDev];
    ExactWheneverItStops(g, stations, topo);
    FlipInHops(g, a);
    assert !ListedBy(stations, b.nextDev, 0) && stations[0] == a.Flip().currDev;
    assert ServedBefore(g, stations, b.currDev, b.nextDev);
    assert a.nextDev in stations && b.nextDev in stations;
    forall j: nat | j < |stations| ensures ListedBy(stations, a.nextDev, j) {
      assert stations[..j + 1][0] == a.nextDev;
    }
    assert !ServedBefore(g, stations, a.currDev, a.nextDev);
  }

  /** From one device to the other over the third, there is only the way back. */
  lemma AfterTwoHopsBack(a: Link, b: Link, x: Hop, y: Hop, z: Hop)
    requires a.id != b.id && a.dstDev == b.dstDev && a.srcDev != b.srcDev && a.dstDev !in {a.srcDev, b.srcDev}
    requires x in Hops({a, b}) && y in Hops({a, b}) && z in Hops({a, b})
    requires x.nextDev == y.currDev && y.nextDev == z.currDev && x.linkId != y.linkId
    ensures y.linkId == z.linkId
  {
    var l := LinkOfHop({a, b}, x);
    var m := LinkOfHop({a, b}, y);
    var n := LinkOfHop({a, b}, z);
  }

  /** Two devices on a third one form a forest. */
  lemma TwoLinksForest(a: Link, b: Link)
    requires a.id != b.id && a.dstDev == b.dstDev && a.srcDev != b.srcDev && a.dstDev !in {a.srcDev, b.srcDev}
    ensures Hops({a, b}) == {Forward(a), Backward(a), Forward(b), Backward(b)}
    ensures Forest({a, b})
  {
    HopsOfLink({a, b}, a);
    HopsOfLink({a, b}, b);
    forall w | IsTrail({a, b}, w) ensures Start(w) != End(w) {
      assert w[0] in Hops({a, b});
      assert |w| > 1 ==> w[1] in Hops({a, b});
      if |w| > 2 {
        AfterTwoHopsBack(a, b, w[0], w[1], w[2]);
        assert false;
      }
    }
  }

  /** The smallest such networks, on which the search is sure to stop. */
  lemma TwoStationsOneSwitch(a: Link, b: Link, topo: Topology)
    requires a.id != b.id && a.dstDev == b.dstDev && a.dstPort != b.dstPort
    requires a.srcDev != b.srcDev && a.dstDev !in {a.srcDev, b.srcDev} && 0 !in {a.srcDev, b.srcDev}
    requires topo == map[a.srcDev := [a], a.dstDev := [a, b], b.srcDev := [b]]
    ensures Halts([a.srcDev, b.srcDev], topo)
    ensures !HasPort(Final([a.srcDev, b.srcDev], topo).throughPort, a.srcDev, a.srcPort)
    ensures HasPort(Final([a.srcDev, b.srcDev], topo).throughPort, b.srcDev, b.srcPort)
  {
    var g, stations := {a, b}, [a.srcDev, b.srcDev];
    TwoLinksForest(a, b);
    assert WellFormed(g, stations, topo);
    ForestHasNoLoopLinks(g);
    HaltsOnForest(g, stations, topo);
    StationPortsDependOnOrder(g, Backward(a), Backward(b), topo);
    OwnPortsOnly(g, stations, topo, Backward(a));
  }

  /** With one link to each port, a port that is not recorded for its own link is not recorded. */
  lemma OwnPortsOnly(g: set<Link>, stations: seq<int>, topo: Topology, h: Hop)
    requires WellFormed(g, stations, topo) && NoLoopLinks(g) && Halts(stations, topo) && h in Hops(g)
    ensures HasPort(Final(stations, topo).throughPort, h.nextDev, h.nextPort)
            <==> PortLink(Final(stations, topo).throughPort, h.nextDev, h.nextPort, h.linkId)
  {
    var through := Final(stations, topo).throughPort;
    ExactWheneverItStops(g, stations, topo);
    if HasPort(through, h.nextDev, h.nextPort) {
      var l := through[h.nextDev][h.nextPort];
      assert PortLink(through, h.nextDev, h.nextPort, l);
      var k :| k in Hops(g) && k.nextDev == h.nextDev && k.nextPort == h.nextPort && k.linkId == l;
      FlipInHops(g, h);
      FlipInHops(g, k);
      assert h.Flip().linkId == k.Flip().linkId;
    }
  }
}
