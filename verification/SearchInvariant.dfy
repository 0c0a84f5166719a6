/**
 What every turn of the VLAN search keeps, on any network: claims are never taken
 back, every explored path is a trail from its station through devices that station
 has claimed, and every recorded port belongs to a path on which two stations met.
 */
module SearchInvariant {
  import opened Graph
  import opened VlanSearch

  /** The adjacency lists describe exactly the links of the network. */
  ghost predicate Adjacent(g: set<Link>, topo: Topology) {
    forall d, l :: l in LinksAt(topo, d) <==> l in g && (l.srcDev == d || l.dstDev == d)
  }

  /** Paths dequeued so far: those that met another station's territory, and those that were extended. */
  datatype History = History(met: set<Wave>, own: set<Wave>)

  ghost predicate Known(st: State, hist: History, w: Wave) {
    w in st.queue || w in hist.met || w in hist.own
  }

  /** Recording a path enters this port for its i-th hop. */
  ghost predicate Records(hops: seq<Hop>, i: int, dev: int, port: int) {
    && 0 <= i < |hops|
    && ((dev == hops[i].nextDev && port == hops[i].nextPort)
        || (i > 0 && dev == hops[i].currDev && port == hops[i].currPort))
  }

  // ----- the invariant, clause by clause -----

  /** A trail from its station, all of whose interior devices the station has claimed. */
  ghost predicate WaveOk(g: set<Link>, stations: seq<int>, visited: map<int, int>, w: Wave) {
    && IsTrail(g, w.hops)
    && w.from in stations
    && Start(w.hops) == w.from
    && Owner(visited, w.from) == w.from
    && (forall i :: 0 <= i < |w.hops| - 1 ==> Owner(visited, w.hops[i].nextDev) == w.from)
  }

  ghost predicate WavesOk(g: set<Link>, stations: seq<int>, st: State, hist: History) {
    forall w: Wave :: Known(st, hist, w) ==> WaveOk(g, stations, st.visited, w)
  }

  ghost predicate MetOk(st: State, hist: History) {
    forall w: Wave :: w in hist.met ==> Meets(st.visited, w)
  }

  ghost predicate OwnOk(st: State, hist: History) {
    forall w: Wave :: w in hist.own ==> Owner(st.visited, End(w.hops)) == w.from
  }

  /** Every way on from the end of the path, other than straight back, is known. */
  ghost predicate Extended(g: set<Link>, st: State, hist: History, w: Wave) {
    forall h :: Crossable(g, h) && h.currDev == End(w.hops)
                && h.linkId != w.hops[|w.hops| - 1].linkId
                ==> Known(st, hist, Path(w.from, w.hops + [h]))
  }

  ghost predicate AllExtended(g: set<Link>, st: State, hist: History) {
    forall w: Wave :: w in hist.own ==> Extended(g, st, hist, w)
  }

  /** Whatever a path goes on from has itself been extended. */
  ghost predicate ParentsOwn(st: State, hist: History) {
    forall w: Wave :: Known(st, hist, w) && |w.hops| > 1 ==> Path(w.from, w.hops[..|w.hops| - 1]) in hist.own
  }

  ghost predicate ClaimExplained(stations: seq<int>, st: State, hist: History, d: int) {
    var x := Owner(st.visited, d);
    x != 0 ==> x in stations && Owner(st.visited, x) == x
               && (d == x || exists w :: w in hist.own && w.from == x && End(w.hops) == d)
  }

  ghost predicate ClaimsExplained(stations: seq<int>, st: State, hist: History) {
    forall d :: ClaimExplained(stations, st, hist, d)
  }

  ghost predicate StationsSeeded(g: set<Link>, stations: seq<int>, st: State, hist: History) {
    forall h :: h in Hops(g) && h.currDev in stations
                ==> Owner(st.visited, h.currDev) == h.currDev
                    && (Crossable(g, h) ==> Known(st, hist, Path(h.currDev, [h])))
  }

  /** Every recorded port comes from a path on which two stations met. */
  ghost predicate PortExplained(hist: History, dev: int, port: int, linkId: int) {
    exists w, i :: w in hist.met && Records(w.hops, i, dev, port) && w.hops[i].linkId == linkId
  }

  ghost predicate EdgeExplained(hist: History, dev: int, port: int, linkId: int) {
    exists w :: w in hist.met && w.hops[0].nextDev == dev && w.hops[0].nextPort == port && w.hops[0].linkId == linkId
  }

  ghost predicate PortsExplained(st: State, hist: History) {
    && (forall d, p, l :: PortLink(st.throughPort, d, p, l) ==> PortExplained(hist, d, p, l))
    && (forall d, p, l :: PortLink(st.edgePort, d, p, l) ==> EdgeExplained(hist, d, p, l))
  }

  ghost predicate MeetingsRecorded(st: State, hist: History) {
    && (forall w: Wave, i, d, p :: w in hist.met && Records(w.hops, i, d, p) ==> HasPort(st.throughPort, d, p))
    && (forall w: Wave :: w in hist.met ==> HasPort(st.edgePort, w.hops[0].nextDev, w.hops[0].nextPort))
  }

  /** What the search keeps. */
  ghost predicate Inv(g: set<Link>, stations: seq<int>, st: State, hist: History) {
    && WavesOk(g, stations, st, hist)
    && MetOk(st, hist)
    && OwnOk(st, hist)
    && AllExtended(g, st, hist)
    && ParentsOwn(st, hist)
    && ClaimsExplained(stations, st, hist)
    && StationsSeeded(g, stations, st, hist)
    && PortsExplained(st, hist)
    && MeetingsRecorded(st, hist)
  }

  /** Claims are write-once. */
  ghost predicate ClaimsKept(before: map<int, int>, after: map<int, int>) {
    forall d :: Owner(before, d) != 0 ==> Owner(after, d) == Owner(before, d)
  }

  // ----- adjacency -----

  lemma AdjacentHop(g: set<Link>, topo: Topology, h: Hop) returns (l: Link)
    requires Adjacent(g, topo) && h in Hops(g)
    ensures l in LinksAt(topo, h.currDev) && l.id == h.linkId
    ensures Crossable(g, h) ==> HopFrom(h.currDev, l) == h
  {
    l := LinkOfHop(g, h);
    if h.currDev == h.nextDev && Crossable(g, h) {
      l :| l in g && h == Forward(l);
    }
  }

  lemma {:induction false} InitialQueueMembers(stations: seq<int>, topo: Topology, w: Wave)
    ensures w in InitialQueue(stations, topo)
            <==> exists l :: w.from in stations && l in LinksAt(topo, w.from) && w.hops == [HopFrom(w.from, l)]
  {
    if stations != [] {
      var k := |stations| - 1;
      var links := LinksAt(topo, stations[k]);
      InitialQueueMembers(stations[..k], topo, w);
      var waves := StationWaves(stations[k], links);
      assert stations == stations[..k] + [stations[k]];
      if l :| w.from == stations[k] && l in links && w.hops == [HopFrom(w.from, l)] {
        var i :| 0 <= i < |links| && links[i] == l;
        assert waves[i] == w;
      }
      if w in waves {
        var i :| 0 <= i < |waves| && waves[i] == w;
        assert links[i] in links;
      }
    }
  }

  lemma {:induction false} ExtensionMembers(w: Wave, links: seq<Link>, v: Wave)
    ensures v in Extensions(w, links)
            <==> exists l :: l in links && l.id != w.hops[|w.hops| - 1].linkId
                             && v == Path(w.from, w.hops + [HopFrom(End(w.hops), l)])
  {
    if links != [] {
      var k := |links| - 1;
      ExtensionMembers(w, links[..k], v);
      assert links == links[..k] + [links[k]];
    }
  }

  // ----- recording -----

  lemma {:induction false} RecordThroughLinks(m: PortMap, hops: seq<Hop>, n: nat, d: int, p: int, l: int)
    requires n <= |hops| && PortLink(RecordThrough(m, hops, n), d, p, l)
    ensures PortLink(m, d, p, l) || exists i :: 0 <= i < n && Records(hops, i, d, p) && hops[i].linkId == l
  {
    if n > 0 {
      var h := hops[n - 1];
      var m' := RecordThrough(m, hops, n - 1);
      if (d == h.nextDev && p == h.nextPort) || (n > 1 && d == h.currDev && p == h.currPort) {
        assert Records(hops, n - 1, d, p);
      } else {
        RecordThroughLinks(m, hops, n - 1, d, p, l);
      }
    }
  }

  lemma {:induction false} RecordThroughPorts(m: PortMap, hops: seq<Hop>, n: nat, d: int, p: int)
    requires n <= |hops|
    requires HasPort(m, d, p) || exists i :: 0 <= i < n && Records(hops, i, d, p)
    ensures HasPort(RecordThrough(m, hops, n), d, p)
  {
    if n > 0 && (HasPort(m, d, p) || exists i :: 0 <= i < n - 1 && Records(hops, i, d, p)) {
      RecordThroughPorts(m, hops, n - 1, d, p);
    }
  }

  // ----- the start -----

  lemma InitialInv(g: set<Link>, stations: seq<int>, topo: Topology)
    requires Adjacent(g, topo)
    ensures Inv(g, stations, InitialState(stations, topo), History({}, {}))
  {
    var st := InitialState(stations, topo);
    var hist := History({}, {});
    forall w: Wave | Known(st, hist, w) ensures WaveOk(g, stations, st.visited, w) {
      InitialQueueMembers(stations, topo, w);
      var l :| w.from in stations && l in LinksAt(topo, w.from) && w.hops == [HopFrom(w.from, l)];
    }
    assert ParentsOwn(st, hist) by {
      forall w: Wave | Known(st, hist, w) ensures |w.hops| == 1 {
        InitialQueueMembers(stations, topo, w);
      }
    }
    forall h | h in Hops(g) && h.currDev in stations
      ensures Owner(st.visited, h.currDev) == h.currDev
      ensures Crossable(g, h) ==> Known(st, hist, Path(h.currDev, [h]))
    {
      var l := AdjacentHop(g, topo, h);
      InitialQueueMembers(stations, topo, Path(h.currDev, [h]));
    }
  }

  // ----- one turn -----

  function After(st: State, hist: History): History
    requires st.queue != []
  {
    var w := st.queue[0];
    if Meets(st.visited, w) then hist.(met := hist.met + {w}) else hist.(own := hist.own + {w})
  }

  lemma StepWavesOk(g: set<Link>, stations: seq<int>, topo: Topology, st: State, hist: History)
    requires Adjacent(g, topo) && 0 !in stations
    requires st.queue != [] && WavesOk(g, stations, st, hist)
    ensures WavesOk(g, stations, Step(topo, st), After(st, hist))
  {
    var st', hist' := Step(topo, st), After(st, hist);
    var cur := st.queue[0];
    forall w: Wave | Known(st', hist', w) ensures WaveOk(g, stations, st'.visited, w) {
      assert Known(st, hist, cur);
      if Known(st, hist, w) {
        assert WaveOk(g, stations, st.visited, w);
      } else {
        var links := LinksAt(topo, End(cur.hops));
        assert w in Extensions(cur, links);
        ExtensionMembers(cur, links, w);
        var l :| l in links && l.id != cur.hops[|cur.hops| - 1].linkId
                 && w == Path(cur.from, cur.hops + [HopFrom(End(cur.hops), l)]);
      }
    }
  }

  lemma StepMetOwnOk(g: set<Link>, stations: seq<int>, topo: Topology, st: State, hist: History)
    requires 0 !in stations && st.queue != [] && WavesOk(g, stations, st, hist)
    requires MetOk(st, hist) && OwnOk(st, hist)
    ensures MetOk(Step(topo, st), After(st, hist)) && OwnOk(Step(topo, st), After(st, hist))
  {
    assert forall w: Wave :: w in hist.own || w in st.queue ==> Known(st, hist, w);
    assert forall w: Wave :: Known(st, hist, w) ==> w.from in stations;
  }

  lemma StepAllExtended(g: set<Link>, topo: Topology, st: State, hist: History)
    requires Adjacent(g, topo) && st.queue != [] && AllExtended(g, st, hist)
    ensures AllExtended(g, Step(topo, st), After(st, hist))
  {
    var st', hist' := Step(topo, st), After(st, hist);
    var cur := st.queue[0];
    forall w: Wave, h | w in hist'.own && Crossable(g, h) && h.currDev == End(w.hops)
                        && h.linkId != w.hops[|w.hops| - 1].linkId
      ensures Known(st', hist', Path(w.from, w.hops + [h]))
    {
      var next: Wave := Path(w.from, w.hops + [h]);
      if w in hist.own {
        assert Extended(g, st, hist, w);
      } else {
        var l := AdjacentHop(g, topo, h);
        ExtensionMembers(cur, LinksAt(topo, End(cur.hops)), next);
      }
    }
  }

  lemma StepParentsOwn(topo: Topology, st: State, hist: History)
    requires st.queue != [] && ParentsOwn(st, hist)
    ensures ParentsOwn(Step(topo, st), After(st, hist))
  {
    var st', hist' := Step(topo, st), After(st, hist);
    var cur := st.queue[0];
    forall w: Wave | Known(st', hist', w) && |w.hops| > 1
      ensures Path(w.from, w.hops[..|w.hops| - 1]) in hist'.own
    {
      if !Known(st, hist, w) {
        ExtensionMembers(cur, LinksAt(topo, End(cur.hops)), w);
        assert w.hops[..|w.hops| - 1] == cur.hops;
      }
    }
  }

  lemma StepClaimsExplained(g: set<Link>, stations: seq<int>, topo: Topology, st: State, hist: History)
    requires 0 !in stations && st.queue != []
    requires WavesOk(g, stations, st, hist) && ClaimsExplained(stations, st, hist)
    ensures ClaimsExplained(stations, Step(topo, st), After(st, hist))
  {
    var st', hist' := Step(topo, st), After(st, hist);
    var cur := st.queue[0];
    assert Known(st, hist, cur);
    assert WaveOk(g, stations, st.visited, cur);
    forall d ensures ClaimExplained(stations, st', hist', d) {
      assert ClaimExplained(stations, st, hist, d);
      if Owner(st.visited, d) == 0 && Owner(st'.visited, d) != 0 {
        assert cur in hist'.own && cur.from == Owner(st'.visited, d) && End(cur.hops) == d;
      } else if Owner(st.visited, d) != 0 && d != Owner(st.visited, d) {
        var w :| w in hist.own && w.from == Owner(st.visited, d) && End(w.hops) == d;
        assert w in hist'.own;
      }
    }
  }

  lemma StepPortsExplained(topo: Topology, st: State, hist: History)
    requires st.queue != [] && PortsExplained(st, hist)
    ensures PortsExplained(Step(topo, st), After(st, hist))
  {
    var st', hist' := Step(topo, st), After(st, hist);
    var cur := st.queue[0];
    forall d, p, l | PortLink(st'.throughPort, d, p, l) ensures PortExplained(hist', d, p, l) {
      if Meets(st.visited, cur) {
        RecordThroughLinks(st.throughPort, cur.hops, |cur.hops|, d, p, l);
      }
      if PortLink(st.throughPort, d, p, l) {
        var w, i :| w in hist.met && Records(w.hops, i, d, p) && w.hops[i].linkId == l;
        assert w in hist'.met;
      } else {
        assert cur in hist'.met;
      }
    }
    forall d, p, l | PortLink(st'.edgePort, d, p, l) ensures EdgeExplained(hist', d, p, l) {
      if PortLink(st.edgePort, d, p, l) {
        var w :| w in hist.met && w.hops[0].nextDev == d && w.hops[0].nextPort == p && w.hops[0].linkId == l;
        assert w in hist'.met;
      } else {
        assert cur in hist'.met;
      }
    }
  }

  lemma StepMeetingsRecorded(topo: Topology, st: State, hist: History)
    requires st.queue != [] && MeetingsRecorded(st, hist)
    ensures MeetingsRecorded(Step(topo, st), After(st, hist))
  {
    var st', hist' := Step(topo, st), After(st, hist);
    var cur := st.queue[0];
    forall w: Wave, i, d, p | w in hist'.met && Records(w.hops, i, d, p) ensures HasPort(st'.throughPort, d, p) {
      if Meets(st.visited, cur) {
        assert w == cur || HasPort(st.throughPort, d, p);
        RecordThroughPorts(st.throughPort, cur.hops, |cur.hops|, d, p);
      }
    }
  }

  /** One turn keeps the invariant, whatever the network. */
  lemma StepInv(g: set<Link>, stations: seq<int>, topo: Topology, st: State, hist: History)
    requires Adjacent(g, topo) && 0 !in stations
    requires st.queue != [] && Inv(g, stations, st, hist)
    ensures Inv(g, stations, Step(topo, st), After(st, hist))
  {
    StepWavesOk(g, stations, topo, st, hist);
    StepMetOwnOk(g, stations, topo, st, hist);
    StepAllExtended(g, topo, st, hist);
    StepParentsOwn(topo, st, hist);
    StepClaimsExplained(g, stations, topo, st, hist);
    StepPortsExplained(topo, st, hist);
    StepMeetingsRecorded(topo, st, hist);
  }

  /** The invariant holds after any number of turns. */
  lemma {:induction false} RunInv(g: set<Link>, stations: seq<int>, topo: Topology, n: nat) returns (hist: History)
    requires Adjacent(g, topo) && 0 !in stations
    ensures Inv(g, stations, Run(stations, topo, n), hist)
  {
    if n == 0 {
      InitialInv(g, stations, topo);
      hist := History({}, {});
    } else {
      hist := RunInv(g, stations, topo, n - 1);
      var st := Run(stations, topo, n - 1);
      if st.queue != [] {
        StepInv(g, stations, topo, st, hist);
        hist := After(st, hist);
      }
    }
  }

  lemma {:induction false} LongerThanAll(s: set<Wave>) returns (n: nat)
    ensures forall w :: w in s ==> |w.hops| <= n
  {
    if s == {} {
      n := 0;
    } else {
      var x :| x in s;
      n := LongerThanAll(s - {x});
      n := if |x.hops| > n then |x.hops| else n;
    }
  }
}
