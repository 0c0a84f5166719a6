/**
 When the VLAN search stops: exactly when no end station's territory can be gone round in,
 over a cycle of links or between two links from devices to themselves. So it stops for
 every request exactly when there is no such way round in the whole network.
 */
module SearchTermination {
  import opened Collections
  import opened Graph
  import opened VlanSearch
  import opened SearchInvariant
  import opened SearchExactness
  import opened SearchTerritory

  // ----- how much a queue of short paths can still give rise to -----

  function Power(base: nat, n: nat): nat {
    if n == 0 then 1 else base * Power(base, n - 1)
  }

  lemma {:induction false} PowerPositive(base: nat, n: nat)
    requires base > 0
    ensures Power(base, n) > 0
  {
    if n > 0 { PowerPositive(base, n - 1); }
  }

  lemma {:induction false} DegreeBound<K, V>(lists: map<K, seq<V>>) returns (b: nat)
    ensures forall k :: k in lists ==> |lists[k]| <= b
    decreases |lists|
  {
    b := 0;
    if lists != map[] {
      var k := SomeKey(lists);
      var rest := lists - {k};
      b := DegreeBound(rest);
      b := if |lists[k]| > b then |lists[k]| else b;
      assert forall x :: x in lists && x != k ==> lists[x] == rest[x];
    }
  }

  /** An upper bound on the turns the queue can still cause, if no path gets longer than `room` hops
      and no device has more than `degree` links. */
  function Remaining(degree: nat, room: nat, queue: seq<Wave>): nat {
    if queue == [] then 0
    else
      (if |queue[0].hops| > room then 0 else Power(degree + 1, room - |queue[0].hops|))
      + Remaining(degree, room, queue[1..])
  }

  lemma {:induction false} RemainingAppend(degree: nat, room: nat, a: seq<Wave>, b: seq<Wave>)
    ensures Remaining(degree, room, a + b) == Remaining(degree, room, a) + Remaining(degree, room, b)
  {
    if a == [] {
      assert a + b == b;
    } else {
      assert (a + b)[1..] == a[1..] + b;
      RemainingAppend(degree, room, a[1..], b);
    }
  }

  lemma {:induction false} ExtensionsRemaining(degree: nat, room: nat, w: Wave, links: seq<Link>)
    requires |w.hops| < room
    ensures Remaining(degree, room, Extensions(w, links)) <= |links| * Power(degree + 1, room - |w.hops| - 1)
  {
    if links != [] {
      var k := |links| - 1;
      var each := Power(degree + 1, room - |w.hops| - 1);
      ExtensionsRemaining(degree, room, w, links[..k]);
      assert (k + 1) * each == k * each + each;
      if links[k].id != w.hops[|w.hops| - 1].linkId {
        var next: Wave := Path(w.from, w.hops + [HopFrom(End(w.hops), links[k])]);
        RemainingAppend(degree, room, Extensions(w, links[..k]), [next]);
        assert Remaining(degree, room, [next]) == each;
      }
    }
  }

  /** As long as paths stay short, every turn leaves strictly less. */
  lemma StepShrinks(topo: Topology, st: State, degree: nat, room: nat)
    requires st.queue != [] && |st.queue[0].hops| < room
    requires forall d :: d in topo ==> |topo[d]| <= degree
    ensures Remaining(degree, room, Step(topo, st).queue) < Remaining(degree, room, st.queue)
  {
    var w := st.queue[0];
    var links := LinksAt(topo, End(w.hops));
    var each := Power(degree + 1, room - |w.hops| - 1);
    ExtensionsRemaining(degree, room, w, links);
    RemainingAppend(degree, room, st.queue[1..], Extensions(w, links));
    PowerPositive(degree + 1, room - |w.hops| - 1);
    FewerThanAll(|links|, degree, each);
  }

  lemma FewerThanAll(n: nat, degree: nat, each: nat)
    requires n <= degree && each > 0
    ensures n * each < (degree + 1) * each
  {
    var more := degree + 1 - n;
    assert (n + more) * each == n * each + more * each;
    assert more * each > 0;
  }

  // ----- ways round inside one territory -----

  /** A lap of devices that are all nearest to the i-th end station. */
  ghost predicate LapWithin(g: set<Link>, stations: seq<int>, i: nat, c: seq<Hop>) {
    IsLap(g, c) && forall h :: h in c ==> InTerritory(g, stations, i, h.nextDev)
  }

  /** A cycle of at least two links between devices that are all nearest to the i-th end station. */
  ghost predicate CycleWithin(g: set<Link>, stations: seq<int>, i: nat, c: seq<Hop>) {
    IsCycle(g, c) && |c| > 1 && forall h :: h in c ==> InTerritory(g, stations, i, h.nextDev)
  }

  /** Two links, each from a device to itself, at devices that are nearest to the i-th end station. */
  ghost predicate LoopsWithin(g: set<Link>, stations: seq<int>, i: nat, h: Hop, k: Hop) {
    && IsLoop(g, h) && IsLoop(g, k) && h.linkId != k.linkId
    && InTerritory(g, stations, i, h.nextDev) && InTerritory(g, stations, i, k.nextDev)
  }

  /** One end station's territory can be gone round in for ever. */
  ghost predicate TerritoryHasCycle(g: set<Link>, stations: seq<int>) {
    || (exists i: nat, c :: CycleWithin(g, stations, i, c))
    || (exists i: nat, h, k :: LoopsWithin(g, stations, i, h, k))
  }

  lemma LapWithinMeansCycle(g: set<Link>, stations: seq<int>, i: nat, c: seq<Hop>)
    requires DistinctIds(g) && LapWithin(g, stations, i, c)
    ensures TerritoryHasCycle(g, stations)
  {
    LapHasCycleOrTwoLoops(g, c);
    if d :| IsCycle(g, d) && |d| > 1 && forall h :: h in d ==> h in c {
      assert CycleWithin(g, stations, i, d);
    } else {
      var h, k :| h in c && k in c && IsLoop(g, h) && IsLoop(g, k) && h.linkId != k.linkId;
      assert LoopsWithin(g, stations, i, h, k);
    }
  }

  lemma CycleMeansLapWithin(g: set<Link>, stations: seq<int>) returns (i: nat, c: seq<Hop>)
    requires DistinctIds(g) && TerritoryHasCycle(g, stations)
    ensures LapWithin(g, stations, i, c)
  {
    if j: nat, d :| CycleWithin(g, stations, j, d) {
      i, c := j, d;
    } else {
      var h, k;
      i, h, k :| LoopsWithin(g, stations, i, h, k);
      var p := TerritoryPath(g, stations, i, h.nextDev, k.nextDev);
      c := TwoLoopsLap(g, h, p, k);
    }
  }

  /** A path with more hops than the network has passes over one of them twice, and so goes round. */
  lemma LongWalkHasLap(g: set<Link>, w: seq<Hop>) returns (c: seq<Hop>)
    requires IsTrail(g, w) && |w| > |Hops(g)|
    ensures IsLap(g, c) && forall h :: h in c ==> exists k :: 0 <= k < |w| - 1 && w[k].nextDev == h.nextDev
  {
    if forall i, j :: 0 <= i < j < |w| ==> w[i] != w[j] {
      DistinctFitsIn(w, Hops(g));
      assert false;
    }
    var i, j :| 0 <= i < j < |w| && w[i] == w[j];
    c := w[i + 1..j + 1];
    RepeatedHopLap(g, w, i, j);
    forall h | h in c ensures exists k :: 0 <= k < |w| - 1 && w[k].nextDev == h.nextDev {
      var x :| 0 <= x < |c| && c[x] == h;
      assert h == w[i + 1 + x];
      assert w[if i + 1 + x == j then i else i + 1 + x].nextDev == h.nextDev;
    }
  }

  lemma RepeatedHopLap(g: set<Link>, w: seq<Hop>, i: nat, j: nat)
    requires IsTrail(g, w) && i < j < |w| && w[i] == w[j]
    ensures IsLap(g, w[i + 1..j + 1])
  {
    var c := w[i + 1..j + 1];
    assert i + 1 < j + 1 && c[0] == w[i + 1] && c[|c| - 1] == w[j];
    assert w[i].nextDev == w[i + 1].currDev && w[i].linkId != w[i + 1].linkId;
  }

  lemma {:induction false} DistinctFitsIn(w: seq<Hop>, s: set<Hop>)
    requires forall i :: 0 <= i < |w| ==> w[i] in s
    requires forall i, j :: 0 <= i < j < |w| ==> w[i] != w[j]
    ensures |w| <= |s|
  {
    if w != [] {
      var k := |w| - 1;
      DistinctFitsIn(w[..k], s - {w[k]});
    }
  }

  /** A lap of devices one station has claimed lies in that station's territory. */
  lemma OwnedLapInTerritory(g: set<Link>, stations: seq<int>, topo: Topology, n: nat, c: seq<Hop>, s: int)
    requires DistinctIds(g) && Adjacent(g, topo) && 0 !in stations && s != 0
    requires IsLap(g, c) && forall h :: h in c ==> Owner(Run(stations, topo, n).visited, h.nextDev) == s
    ensures TerritoryHasCycle(g, stations)
  {
    assert c[0] in c;
    var i := OwnerIsNearest(g, stations, topo, n, c[0].nextDev);
    forall h | h in c ensures InTerritory(g, stations, i, h.nextDev) {
      var j := OwnerIsNearest(g, stations, topo, n, h.nextDev);
    }
    LapWithinMeansCycle(g, stations, i, c);
  }

  /** Where no territory can be gone round in, paths stay short. */
  lemma PathsStayShort(g: set<Link>, stations: seq<int>, topo: Topology, n: nat)
    requires DistinctIds(g) && Adjacent(g, topo) && 0 !in stations && !TerritoryHasCycle(g, stations)
    requires Run(stations, topo, n).queue != []
    ensures |Run(stations, topo, n).queue[0].hops| <= |Hops(g)|
  {
    var st := Run(stations, topo, n);
    var hist := RunInv(g, stations, topo, n);
    var w := st.queue[0];
    assert Known(st, hist, w);
    assert WaveOk(g, stations, st.visited, w);
    if |w.hops| > |Hops(g)| {
      var c := LongWalkHasLap(g, w.hops);
      OwnedLapInTerritory(g, stations, topo, n, c, w.from);
      assert false;
    }
  }

  lemma {:induction false} HaltsFrom(g: set<Link>, stations: seq<int>, topo: Topology, degree: nat, n: nat)
    requires DistinctIds(g) && Adjacent(g, topo) && 0 !in stations && !TerritoryHasCycle(g, stations)
    requires forall d :: d in topo ==> |topo[d]| <= degree
    ensures Halts(stations, topo)
    decreases Remaining(degree, |Hops(g)| + 1, Run(stations, topo, n).queue)
  {
    if Run(stations, topo, n).queue != [] {
      PathsStayShort(g, stations, topo, n);
      StepShrinks(topo, Run(stations, topo, n), degree, |Hops(g)| + 1);
      HaltsFrom(g, stations, topo, degree, n + 1);
    }
  }

  /** A lap inside one territory would have been gone round for ever. */
  lemma NeverHaltsOnTerritoryLap(g: set<Link>, stations: seq<int>, topo: Topology, i: nat, c: seq<Hop>)
    requires DistinctIds(g) && Adjacent(g, topo) && 0 !in stations && LapWithin(g, stations, i, c)
    ensures !Halts(stations, topo)
  {
    forall n: nat ensures Run(stations, topo, n).queue != [] {
      var st := Run(stations, topo, n);
      if st.queue == [] {
        var hist := RunInv(g, stations, topo, n);
        forall h | h in c ensures Owner(st.visited, h.nextDev) == stations[i] {
          assert h in Hops(g);
          FlipInHops(g, h);
          NearestOwns(g, stations, topo, n, i, h.Flip());
        }
        assert c[0] in c;
        NoOwnedLap(g, stations, st, hist, c, stations[i]);
        assert false;
      }
    }
  }

  /** On every network, for every request: the search stops exactly when no end station's territory, the
      devices nearest to that station (the first listed of equally near ones), holds a cycle of links
      or two links that lead from a device to itself. */
  lemma HaltsIffNoTerritoryCycle(g: set<Link>, stations: seq<int>, topo: Topology)
    requires DistinctIds(g) && Adjacent(g, topo) && 0 !in stations
    ensures Halts(stations, topo) <==> !TerritoryHasCycle(g, stations)
  {
    if TerritoryHasCycle(g, stations) {
      var i, c := CycleMeansLapWithin(g, stations);
      NeverHaltsOnTerritoryLap(g, stations, topo, i, c);
    } else {
      var degree := DegreeBound(topo);
      HaltsFrom(g, stations, topo, degree, 0);
    }
  }

  // ----- every request -----

  /** On a forest the search stops, whatever the end stations (repeated ones included). */
  lemma HaltsOnForest(g: set<Link>, stations: seq<int>, topo: Topology)
    requires Forest(g) && DistinctIds(g) && Adjacent(g, topo) && 0 !in stations
    ensures Halts(stations, topo)
  {
    if TerritoryHasCycle(g, stations) {
      var i, c := CycleMeansLapWithin(g, stations);
      assert false;
    }
    HaltsIffNoTerritoryCycle(g, stations, topo);
  }

  lemma LapClaimed(g: set<Link>, stations: seq<int>, st: State, hist: History, c: seq<Hop>, h: Hop)
    requires DistinctIds(g) && Inv(g, stations, st, hist) && st.queue == [] && 0 !in stations
    requires IsLap(g, c) && Start(c) in stations && h in c
    ensures Owner(st.visited, h.nextDev) != 0
  {
    var k :| 0 <= k < |c| && c[k] == h;
    TrailClaimed(g, stations, st, hist, c, if k + 1 < |c| then k + 1 else 0);
  }

  /** A request that names one device on a lap, and no other, keeps the search going for ever. */
  lemma NeverHaltsForOneStation(g: set<Link>, stations: seq<int>, topo: Topology, c: seq<Hop>)
    requires DistinctIds(g) && Adjacent(g, topo)
    requires IsLap(g, c) && Start(c) != 0 && Start(c) in stations && forall e :: e in stations ==> e == Start(c)
    ensures !Halts(stations, topo)
  {
    forall n: nat ensures Run(stations, topo, n).queue != [] {
      var st := Run(stations, topo, n);
      var hist := RunInv(g, stations, topo, n);
      if st.queue == [] {
        forall h | h in c ensures Owner(st.visited, h.nextDev) == Start(c) {
          LapClaimed(g, stations, st, hist, c, h);
          assert ClaimExplained(stations, st, hist, h.nextDev);
        }
        NoOwnedLap(g, stations, st, hist, c, Start(c));
        assert false;
      }
    }
  }

  /** The search stops for every request of at least two, not necessarily different, end stations exactly
      when the network has no lap at all. */
  lemma AlwaysHaltsIffNoLap(g: set<Link>, topo: Topology)
    requires DistinctIds(g) && Adjacent(g, topo)
    requires forall h :: h in Hops(g) ==> h.currDev != 0
    ensures (forall c :: !IsLap(g, c))
            <==> forall stations: seq<int> :: |stations| >= 2 && 0 !in stations ==> Halts(stations, topo)
  {
    if c :| IsLap(g, c) {
      assert c[0] in Hops(g);
      NeverHaltsForOneStation(g, [Start(c), Start(c)], topo, c);
    } else {
      forall stations: seq<int> | 0 !in stations ensures Halts(stations, topo) {
        if TerritoryHasCycle(g, stations) {
          var i, c := CycleMeansLapWithin(g, stations);
          assert false;
        }
        HaltsIffNoTerritoryCycle(g, stations, topo);
      }
    }
  }

  /** Without links from a device to itself, that is exactly on the forests. */
  lemma AlwaysHaltsIffForest(g: set<Link>, topo: Topology)
    requires DistinctIds(g) && NoLoopLinks(g) && Adjacent(g, topo)
    requires forall h :: h in Hops(g) ==> h.currDev != 0
    ensures Forest(g) <==> forall stations: seq<int> :: |stations| >= 2 && 0 !in stations ==> Halts(stations, topo)
  {
    AlwaysHaltsIffNoLap(g, topo);
    ForestIffNoCycle(g);
    if c :| IsCycle(g, c) {
      WalkHasNoSelfLoops(g, c);
      assert IsLap(g, c);
    }
  }
}
