/**
 A ring of three switches 1, 2 and 3, with the hosts 4 and 5 on switch 1 and the host 6 on
 switch 2: two admissible requests, one of which never ends.
 */
module RingExample {
  import opened Graph
  import opened VlanSearch
  import opened VlanEngine
  import opened SearchTerritory
  import opened SearchTermination
  import opened SearchTheorems
  import opened VlanEngineTheorems

  const RING: seq<Link> := [
    Link(10, 1, 1, 2, 1), Link(11, 2, 2, 3, 1), Link(12, 3, 2, 1, 2),
    Link(13, 4, 1, 1, 3), Link(14, 5, 1, 1, 4), Link(15, 6, 1, 2, 3)
  ]

  const PORTS: seq<Interface> := [Interface(1, true, true), Interface(2, true, true), Interface(3, true, true),
      Interface(4, true, true)]

  function RingProject(): Project {
    Project(seq(6, i requires 0 <= i < 6 => NetDevice(i + 1, PORTS)), RING, 1, 10, map[], [])
  }

  function Network(): set<Link> {
    set l | l in RING
  }

  function Request(hostA: int, hostB: int): IntelligentVlan {
    IntelligentVlan(0, Untagged, [hostA, hostB])
  }

  // ----- the project -----

  lemma {:induction false} AllPortsUsable(devices: seq<NetDevice>, dev: int, port: int)
    requires forall i :: 0 <= i < |devices| ==> devices[i] == NetDevice(i + 1, PORTS)
    requires 1 <= dev <= |devices| && 1 <= port <= 4
    ensures dev in UsablePorts(devices) && port in UsablePorts(devices)[dev]
  {
    var k := |devices| - 1;
    if dev == k + 1 {
      assert PORTS[port - 1] in PORTS && PORTS[port - 1].id == port;
    } else {
      AllPortsUsable(devices[..k], dev, port);
    }
  }

  lemma ProjectIsSound()
    ensures SoundProject(RingProject()) && UsableLinks(RingProject()) == Network()
  {
    var p := RingProject();
    forall l | l in RING ensures IsUsable(UsablePorts(p.devices), l) {
      AllPortsUsable(p.devices, l.srcDev, l.srcPort);
      AllPortsUsable(p.devices, l.dstDev, l.dstPort);
    }
  }

  lemma NetworkIsSound()
    ensures NoLoopLinks(Network()) && DistinctPorts(Network())
  {
    forall h, k | h in Hops(Network()) && k in Hops(Network()) && h.currDev == k.currDev && h.currPort == k.currPort
      ensures h.linkId == k.linkId
    {
      var l := LinkOfHop(Network(), h);
      var m := LinkOfHop(Network(), k);
    }
  }

  lemma Admitted(a: int, b: int)
    requires 1 <= a <= 6 && 1 <= b <= 6
    ensures Admit(RingProject(), Request(a, b)).Admitted?
  {
    var p := RingProject();
    assert p.devices[a - 1].id == a && p.devices[b - 1].id == b;
    assert 1 !in UsedIds(p.tables);
    AdmittedIff(p, Request(a, b));
  }

  // ----- two hosts on one switch -----

  lemma RoundTheRing()
    ensures IsCycle(Network(), [Forward(RING[0]), Forward(RING[1]), Forward(RING[2])])
  {
    HopsOfLink(Network(), RING[0]);
    HopsOfLink(Network(), RING[1]);
    HopsOfLink(Network(), RING[2]);
  }

  lemma WalkReaches(a: int, w: seq<Hop>, b: int)
    requires IsWalk(Network(), w) && Start(w) == a && End(w) == b
    ensures Reaches(Network(), a, b, |w|)
  {
  }

  lemma FromHost(host: int, d: int, k: nat)
    requires host in {4, 5, 6} && Reaches(Network(), host, d, k) && d != host
    ensures k > 0 && (k == 1 ==> d == if host == 6 then 2 else 1)
  {
    if k == 1 {
      var w :| IsWalk(Network(), w) && |w| == 1 && Start(w) == host && End(w) == d;
    }
  }

  lemma FirstHostNearest(d: int)
    requires d in {1, 2, 3}
    ensures InTerritory(Network(), [4, 5], 0, d)
  {
    HopsOfLink(Network(), RING[0]);
    HopsOfLink(Network(), RING[2]);
    HopsOfLink(Network(), RING[3]);
    var up := Forward(RING[3]);
    var w := if d == 1 then [up] else if d == 2 then [up, Forward(RING[0])] else [up, Backward(RING[2])];
    WalkReaches(4, w, d);
    forall j: nat, m: nat | j < 2 && Reaches(Network(), [4, 5][j], d, m) ensures NoLater(|w|, 0, m, j) {
      FromHost([4, 5][j], d, m);
    }
    assert IsNearest(Network(), [4, 5], 0, |w|, d);
  }

  /** The request for the two hosts on switch 1 is admitted, and its Create never ends. */
  lemma SameSwitchNeverEnds()
    ensures Admit(RingProject(), Request(4, 5)).Admitted? && !CreateHalts(RingProject(), Request(4, 5))
  {
    ProjectIsSound();
    NetworkIsSound();
    Admitted(4, 5);
    RoundTheRing();
    FirstHostNearest(1);
    FirstHostNearest(2);
    FirstHostNearest(3);
    var round := [Forward(RING[0]), Forward(RING[1]), Forward(RING[2])];
    assert CycleWithin(Network(), [4, 5], 0, round);
    CreateHaltsIff(RingProject(), Request(4, 5));
  }

  // ----- hosts on two switches -----

  /** A cycle goes on from where each of its hops leads, over another link. */
  lemma CycleGoesOn(g: set<Link>, c: seq<Hop>, h: Hop) returns (next: Hop)
    requires NoLoopLinks(g) && IsCycle(g, c) && h in c
    ensures next in c && next in Hops(g) && h in Hops(g) && next.currDev == h.nextDev && next.linkId != h.linkId
  {
    WalkHasNoSelfLoops(g, c);
    var i :| 0 <= i < |c| && c[i] == h;
    next := if i + 1 < |c| then c[i + 1] else c[0];
  }

  /** Two consecutive hops over different links: the first leads to a switch; two between switches
      pass all three of them. */
  lemma OnRing(h: Hop, next: Hop)
    requires h in Hops(Network()) && next in Hops(Network()) && next.currDev == h.nextDev && next.linkId != h.linkId
    ensures h.nextDev == 1 || h.nextDev == 2 || h.nextDev == 3
    ensures h.currDev <= 3 && next.nextDev <= 3
            ==> 1 in [h.currDev, h.nextDev, next.nextDev] && 2 in [h.currDev, h.nextDev, next.nextDev]
  {
    var l := LinkOfHop(Network(), h);
    var m := LinkOfHop(Network(), next);
    var devs := [h.currDev, h.nextDev, next.nextDev];
    assert devs[0] == h.currDev && devs[1] == h.nextDev && devs[2] == next.nextDev;
  }

  /** A cycle has a hop into switch 1 and a hop into switch 2. */
  lemma CyclePassesBoth(g: set<Link>, c: seq<Hop>)
    requires g == Network() && NoLoopLinks(g) && IsCycle(g, c)
    ensures exists h :: h in c && h.nextDev == 1
    ensures exists h :: h in c && h.nextDev == 2
  {
    var a := c[0];
    var b := CycleGoesOn(g, c, a);
    var d := CycleGoesOn(g, c, b);
    var e := CycleGoesOn(g, c, d);
    OnRing(a, b);
    OnRing(b, d);
    OnRing(d, e);
  }

  /** Each host is nearer to its own switch than the other host is. */
  lemma OwnSwitchOnly(i: nat)
    requires i < 2
    ensures !InTerritory(Network(), [4, 6], i, if i == 0 then 2 else 1)
  {
    var stations, d := [4, 6], if i == 0 then 2 else 1;
    HopsOfLink(Network(), RING[3]);
    HopsOfLink(Network(), RING[5]);
    WalkReaches(stations[1 - i], [Forward(if i == 0 then RING[5] else RING[3])], d);
    forall k: nat ensures !IsNearest(Network(), stations, i, k, d) {
      if Reaches(Network(), stations[i], d, k) {
        FromHost(stations[i], d, k);
        assert !NoLater(k, i, 1, 1 - i);
      }
    }
  }

  /** The request for a host on switch 1 and one on switch 2 of the same ring is admitted and ends. */
  lemma TwoSwitchesEnds()
    ensures Admit(RingProject(), Request(4, 6)).Admitted? && CreateHalts(RingProject(), Request(4, 6))
  {
    ProjectIsSound();
    NetworkIsSound();
    Admitted(4, 6);
    forall i: nat, c ensures !CycleWithin(Network(), [4, 6], i, c) {
      if CycleWithin(Network(), [4, 6], i, c) {
        CyclePassesBoth(Network(), c);
        assert InTerritory(Network(), [4, 6], i, 1) && InTerritory(Network(), [4, 6], i, 2);
        OwnSwitchOnly(i);
        assert false;
      }
    }
    CreateHaltsIff(RingProject(), Request(4, 6));
  }

  lemma SwitchOneIsMember() returns (h: Hop)
    ensures h in Hops(Network()) && h.nextDev == 1 && IsMember(Network(), [4, 6], h)
  {
    HopsOfLink(Network(), RING[0]);
    HopsOfLink(Network(), RING[3]);
    HopsOfLink(Network(), RING[5]);
    var w := [Forward(RING[3]), Forward(RING[0]), Backward(RING[5])];
    assert IsTrail(Network(), w) && Start(w) == 4 && End(w) == 6;
    h := w[0];
    assert UsesLink(w, h.linkId);
    assert OnStationTrail(Network(), [4, 6], h.linkId);
  }

  /** Deleting the VLAN of that request again does not restore the table of switch 1. */
  lemma SwitchNotRestored(p: Project, after: Project, vlan: IntelligentVlan)
    requires p == RingProject() && vlan.endStations == [4, 6] && vlan.vlanId !in UsedIds(p.tables)
    requires Halts(vlan.endStations, TopologyOf(p)) && Created(p, after, vlan)
    ensures TableOf(Deleted(after, vlan.vlanId).tables, 1) != TableOf(p.tables, 1)
  {
    ProjectIsSound();
    NetworkIsSound();
    var h := SwitchOneIsMember();
    assert RunInvariant(p);
    DeleteRestoresTableIff(p, after, vlan, 1);
  }
}
