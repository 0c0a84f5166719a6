/**
 Which end station the VLAN search lets claim a device: the nearest by links and, among
 equally near ones, the one listed first. This rests on the order of the queue: paths are
 worked off by length and, at equal length, by the place of their station in the list.
 */
module SearchTerritory {
  import opened Graph
  import opened VlanSearch
  import opened SearchInvariant

  /** A walk over k links leads from one device to the other. */
  ghost predicate Reaches(g: set<Link>, a: int, b: int, k: nat) {
    if k == 0 then a == b else exists w :: IsWalk(g, w) && |w| == k && Start(w) == a && End(w) == b
  }

  /** Nearer, or as near and listed no later. */
  predicate NoLater(k: nat, i: nat, m: nat, j: nat) {
    k < m || (k == m && i <= j)
  }

  /** The i-th station is k links from the device; no station is nearer, or as near and listed earlier. */
  ghost predicate IsNearest(g: set<Link>, stations: seq<int>, i: nat, k: nat, d: int) {
    && i < |stations| && Reaches(g, stations[i], d, k)
    && forall j: nat, m: nat :: j < |stations| && Reaches(g, stations[j], d, m) ==> NoLater(k, i, m, j)
  }

  ghost predicate InTerritory(g: set<Link>, stations: seq<int>, i: nat, d: int) {
    exists k: nat :: IsNearest(g, stations, i, k, d)
  }

  // ----- a territory is connected -----

  /** The links between devices of the territory. */
  ghost function TerritoryLinks(g: set<Link>, stations: seq<int>, i: nat): set<Link> {
    set l | l in g && InTerritory(g, stations, i, l.srcDev) && InTerritory(g, stations, i, l.dstDev)
  }

  lemma TerritoryHop(g: set<Link>, stations: seq<int>, i: nat, h: Hop)
    ensures h in Hops(TerritoryLinks(g, stations, i))
            <==> h in Hops(g) && InTerritory(g, stations, i, h.currDev) && InTerritory(g, stations, i, h.nextDev)
  {
    if h in Hops(g) {
      var l := LinkOfHop(g, h);
      if l in TerritoryLinks(g, stations, i) { HopsOfLink(TerritoryLinks(g, stations, i), l); }
    }
    if h in Hops(TerritoryLinks(g, stations, i)) {
      var l := LinkOfHop(TerritoryLinks(g, stations, i), h);
      HopsOfLink(g, l);
    }
  }

  /** The device before the last on a shortest walk from the nearest station is that station's too. */
  lemma BeforeNearest(g: set<Link>, stations: seq<int>, i: nat, k: nat, w: seq<Hop>)
    requires IsWalk(g, w) && |w| == k + 1 && i < |stations| && Start(w) == stations[i]
    requires IsNearest(g, stations, i, k + 1, End(w))
    ensures IsNearest(g, stations, i, k, w[k].currDev)
  {
    var x := w[k].currDev;
    PrefixReaches(g, w, k);
    forall j: nat, m: nat | j < |stations| && Reaches(g, stations[j], x, m) ensures NoLater(k, i, m, j) {
      OneLinkOn(g, stations[j], m, w[k]);
      assert NoLater(k + 1, i, m + 1, j);
    }
  }

  lemma OneLinkOn(g: set<Link>, a: int, m: nat, h: Hop)
    requires Reaches(g, a, h.currDev, m) && h in Hops(g)
    ensures Reaches(g, a, h.nextDev, m + 1)
  {
    var u: seq<Hop> := [];
    if m > 0 {
      u :| IsWalk(g, u) && |u| == m && Start(u) == a && End(u) == h.currDev;
    }
    assert IsWalk(g, u + [h]) && Start(u + [h]) == a && End(u + [h]) == h.nextDev;
  }

  lemma {:induction false} TerritoryConnected(g: set<Link>, stations: seq<int>, i: nat, k: nat, d: int)
    requires IsNearest(g, stations, i, k, d)
    ensures Connected(TerritoryLinks(g, stations, i), stations[i], d)
    decreases k
  {
    if k > 0 {
      var w: seq<Hop> :| IsWalk(g, w) && |w| == k && Start(w) == stations[i] && End(w) == d;
      var h: Hop := w[k - 1];
      BeforeNearest(g, stations, i, k - 1, w);
      TerritoryConnected(g, stations, i, k - 1, h.currDev);
      TerritoryHop(g, stations, i, h);
      assert IsWalk(TerritoryLinks(g, stations, i), [h]) && Start([h]) == h.currDev && End([h]) == d;
      ConnectedVia(TerritoryLinks(g, stations, i), stations[i], h.currDev, d);
    }
  }

  /** Two devices of a territory are joined by a simple path inside it. */
  lemma TerritoryPath(g: set<Link>, stations: seq<int>, i: nat, d: int, e: int) returns (p: seq<Hop>)
    requires InTerritory(g, stations, i, d) && InTerritory(g, stations, i, e)
    ensures if d == e then p == [] else IsSimplePath(g, p) && Start(p) == d && End(p) == e
    ensures forall h :: h in p ==> InTerritory(g, stations, i, h.currDev) && InTerritory(g, stations, i, h.nextDev)
  {
    p := [];
    if d != e {
      var inside := TerritoryLinks(g, stations, i);
      var k: nat :| IsNearest(g, stations, i, k, d);
      var m: nat :| IsNearest(g, stations, i, m, e);
      TerritoryConnected(g, stations, i, k, d);
      TerritoryConnected(g, stations, i, m, e);
      ConnectedBack(inside, stations[i], d);
      ConnectedVia(inside, d, stations[i], e);
      p := ConnectedBySimplePath(inside, d, e);
      forall h | h in p
        ensures h in Hops(g) && InTerritory(g, stations, i, h.currDev) && InTerritory(g, stations, i, h.nextDev)
      {
        TerritoryHop(g, stations, i, h);
      }
      assert forall x :: 0 <= x < |p| ==> p[x] in p;
    }
  }

  // ----- the order of the queue -----

  predicate Precedes(a: Wave, i: nat, b: Wave, j: nat) {
    (|a.hops| == |b.hops| && i <= j) || (|b.hops| == |a.hops| + 1 && j <= i)
  }

  /** Each path has its station's place in the list; together with the length they are in order. */
  ghost predicate InOrder(stations: seq<int>, queue: seq<Wave>, places: seq<nat>) {
    && |places| == |queue|
    && (forall q :: 0 <= q < |queue| ==> places[q] < |stations| && stations[places[q]] == queue[q].from)
    && (forall q, r :: 0 <= q < r < |queue| ==> Precedes(queue[q], places[q], queue[r], places[r]))
  }

  ghost predicate ClaimedByNearest(g: set<Link>, stations: seq<int>, visited: map<int, int>, d: int) {
    Owner(visited, d) != 0
    ==> exists i: nat, k: nat :: IsNearest(g, stations, i, k, d) && stations[i] == Owner(visited, d)
  }

  /** A path of k + 1 links to the device is in the queue, its station listed no later than the i-th. */
  ghost predicate Awaited(queue: seq<Wave>, places: seq<nat>, i: nat, k: nat, d: int)
    requires |places| == |queue|
  {
    exists q :: 0 <= q < |queue| && |queue[q].hops| == k + 1 && places[q] <= i && End(queue[q].hops) == d
  }

  /** Whatever lies next to claimed devices is claimed or waiting in the queue. */
  ghost predicate FrontierAwaited(g: set<Link>, stations: seq<int>, st: State, places: seq<nat>)
    requires |places| == |st.queue|
  {
    forall h: Hop, i: nat, k: nat ::
      h in Hops(g) && Owner(st.visited, h.currDev) != 0 && Owner(st.visited, h.nextDev) == 0
      && IsNearest(g, stations, i, k, h.currDev)
      ==> Awaited(st.queue, places, i, k, h.nextDev)
  }

  /** What the order of the queue keeps. */
  ghost predicate Fair(g: set<Link>, stations: seq<int>, st: State, places: seq<nat>) {
    && InOrder(stations, st.queue, places)
    && (forall d :: ClaimedByNearest(g, stations, st.visited, d))
    && FrontierAwaited(g, stations, st, places)
  }

  // ----- the start -----

  function InitialPlaces(stations: seq<int>, topo: Topology): seq<nat> {
    if stations == [] then []
    else
      var k := |stations| - 1;
      InitialPlaces(stations[..k], topo) + seq(|LinksAt(topo, stations[k])|, _ => k)
  }

  lemma {:induction false} InitialInOrder(stations: seq<int>, topo: Topology)
    ensures InOrder(stations, InitialQueue(stations, topo), InitialPlaces(stations, topo))
    ensures forall w: Wave :: w in InitialQueue(stations, topo) ==> |w.hops| == 1
    ensures forall p :: p in InitialPlaces(stations, topo) ==> p < |stations|
  {
    if stations != [] {
      var k := |stations| - 1;
      InitialInOrder(stations[..k], topo);
      var before, places := InitialQueue(stations[..k], topo), InitialPlaces(stations, topo);
      var queue := InitialQueue(stations, topo);
      forall q | 0 <= q < |queue| ensures places[q] < |stations| && stations[places[q]] == queue[q].from {
        assert q < |before| ==> stations[..k][places[q]] == stations[places[q]];
      }
    }
  }

  lemma {:induction false} InitialPlace(stations: seq<int>, topo: Topology, i: nat, l: Link) returns (q: nat)
    requires i < |stations| && l in LinksAt(topo, stations[i])
    ensures |InitialPlaces(stations, topo)| == |InitialQueue(stations, topo)| && q < |InitialQueue(stations, topo)|
    ensures InitialQueue(stations, topo)[q] == Path(stations[i], [HopFrom(stations[i], l)])
    ensures InitialPlaces(stations, topo)[q] == i
  {
    var k := |stations| - 1;
    InitialInOrder(stations[..k], topo);
    if i == k {
      var links := LinksAt(topo, stations[k]);
      var j :| 0 <= j < |links| && links[j] == l;
      q := |InitialQueue(stations[..k], topo)| + j;
      assert StationWaves(stations[k], links)[j] == Path(stations[k], [HopFrom(stations[k], l)]);
    } else {
      assert stations[..k][i] == stations[i];
      q := InitialPlace(stations[..k], topo, i, l);
    }
  }

  lemma {:induction false} FirstPlace(stations: seq<int>, s: int) returns (i: nat)
    requires s in stations
    ensures i < |stations| && stations[i] == s && forall j :: 0 <= j < i ==> stations[j] != s
  {
    if stations[0] == s {
      i := 0;
    } else {
      i := FirstPlace(stations[1..], s);
      assert forall j :: 0 < j < i + 1 ==> stations[j] == stations[1..][j - 1];
      i := i + 1;
    }
  }

  /** A station is nearest to itself. */
  lemma StationNearestItself(g: set<Link>, stations: seq<int>, s: int) returns (i: nat)
    requires s in stations
    ensures IsNearest(g, stations, i, 0, s) && stations[i] == s
  {
    i := FirstPlace(stations, s);
  }

  lemma InitialFair(g: set<Link>, stations: seq<int>, topo: Topology)
    requires Adjacent(g, topo) && 0 !in stations
    ensures Fair(g, stations, InitialState(stations, topo), InitialPlaces(stations, topo))
  {
    var st, places := InitialState(stations, topo), InitialPlaces(stations, topo);
    InitialInOrder(stations, topo);
    forall d ensures ClaimedByNearest(g, stations, st.visited, d) {
      if Owner(st.visited, d) != 0 {
        var i := StationNearestItself(g, stations, d);
      }
    }
    forall h: Hop, i: nat, k: nat |
      h in Hops(g) && Owner(st.visited, h.currDev) != 0 && Owner(st.visited, h.nextDev) == 0
      && IsNearest(g, stations, i, k, h.currDev)
      ensures Awaited(st.queue, places, i, k, h.nextDev)
    {
      var j := StationNearestItself(g, stations, h.currDev);
      var l := AdjacentHop(g, topo, h);
      var q := InitialPlace(stations, topo, i, l);
    }
  }

  // ----- one turn -----

  function PlacesAfter(topo: Topology, st: State, places: seq<nat>): seq<nat>
    requires st.queue != [] && |places| == |st.queue|
  {
    var w := st.queue[0];
    if Meets(st.visited, w) then places[1..]
    else places[1..] + seq(|Extensions(w, LinksAt(topo, End(w.hops)))|, _ => places[0])
  }

  lemma StepInOrder(stations: seq<int>, topo: Topology, st: State, places: seq<nat>)
    requires st.queue != [] && InOrder(stations, st.queue, places)
    ensures InOrder(stations, Step(topo, st).queue, PlacesAfter(topo, st, places))
  {
    var w := st.queue[0];
    var links := LinksAt(topo, End(w.hops));
    forall v: Wave | v in Extensions(w, links) ensures v.from == w.from && |v.hops| == |w.hops| + 1 {
      ExtensionMembers(w, links, v);
    }
    var queue', places' := Step(topo, st).queue, PlacesAfter(topo, st, places);
    forall q | 0 <= q < |queue'|
      ensures if q < |st.queue| - 1 then queue'[q] == st.queue[q + 1] && places'[q] == places[q + 1]
              else queue'[q] in Extensions(w, links) && places'[q] == places[0]
    {
    }
    forall q, r | 0 <= q < r < |queue'| ensures Precedes(queue'[q], places'[q], queue'[r], places'[r]) {
      if r < |st.queue| - 1 {
        assert Precedes(st.queue[q + 1], places[q + 1], st.queue[r + 1], places[r + 1]);
      } else if q < |st.queue| - 1 {
        assert Precedes(st.queue[0], places[0], st.queue[q + 1], places[q + 1]);
      }
    }
  }

  lemma {:induction false} LeavesClaimed(visited: map<int, int>, w: seq<Hop>, g: set<Link>) returns (t: nat)
    requires IsWalk(g, w) && Owner(visited, Start(w)) != 0 && Owner(visited, End(w)) == 0
    ensures t < |w| && Owner(visited, w[t].currDev) != 0 && Owner(visited, w[t].nextDev) == 0
    decreases |w|
  {
    var k := |w| - 1;
    if Owner(visited, w[k].currDev) != 0 {
      t := k;
    } else {
      assert w[k - 1].nextDev == w[k].currDev;
      t := LeavesClaimed(visited, w[..k], g);
    }
  }

  lemma PrefixReaches(g: set<Link>, w: seq<Hop>, t: nat)
    requires IsWalk(g, w) && t < |w|
    ensures Reaches(g, Start(w), w[t].currDev, t)
  {
    if t > 0 {
      assert IsWalk(g, w[..t]) && End(w[..t]) == w[t].currDev;
    }
  }

  /** The head of the queue is no later than any walk to a device not yet claimed. */
  lemma HeadNoLater(g: set<Link>, stations: seq<int>, st: State, hist: History, places: seq<nat>, j: nat, w: seq<Hop>)
    requires Inv(g, stations, st, hist) && Fair(g, stations, st, places) && 0 !in stations
    requires IsWalk(g, w) && j < |stations| && Start(w) == stations[j] && Owner(st.visited, End(w)) == 0
    ensures st.queue != [] && NoLater(|st.queue[0].hops|, places[0], |w|, j)
  {
    assert w[0] in Hops(g);
    var t := LeavesClaimed(st.visited, w, g);
    var x := w[t].currDev;
    assert ClaimedByNearest(g, stations, st.visited, x);
    var i: nat, k: nat :| IsNearest(g, stations, i, k, x) && stations[i] == Owner(st.visited, x);
    PrefixReaches(g, w, t);
    assert NoLater(k, i, t, j);
    assert Awaited(st.queue, places, i, k, w[t].nextDev);
    var q :| 0 <= q < |st.queue| && |st.queue[q].hops| == k + 1 && places[q] <= i
        && End(st.queue[q].hops) == w[t].nextDev;
    assert q > 0 ==> Precedes(st.queue[0], places[0], st.queue[q], places[q]);
  }

  /** A path that reaches an unclaimed device comes from the nearest station. */
  lemma HeadIsNearest(g: set<Link>, stations: seq<int>, st: State, hist: History, places: seq<nat>)
    requires Inv(g, stations, st, hist) && Fair(g, stations, st, places) && 0 !in stations && st.queue != []
    requires Owner(st.visited, End(st.queue[0].hops)) == 0
    ensures IsNearest(g, stations, places[0], |st.queue[0].hops|, End(st.queue[0].hops))
  {
    var w := st.queue[0];
    var d := End(w.hops);
    assert Known(st, hist, w);
    assert WaveOk(g, stations, st.visited, w);
    var last := w.hops[|w.hops| - 1];
    FlipInHops(g, last);
    assert last.Flip().currDev == d;
    assert Reaches(g, stations[places[0]], d, |w.hops|);
    forall j: nat, m: nat | j < |stations| && Reaches(g, stations[j], d, m)
      ensures NoLater(|w.hops|, places[0], m, j)
    {
      if m > 0 {
        var u :| IsWalk(g, u) && |u| == m && Start(u) == stations[j] && End(u) == d;
        HeadNoLater(g, stations, st, hist, places, j, u);
      }
    }
  }

  lemma StepClaimedByNearest(g: set<Link>, stations: seq<int>, topo: Topology, st: State, hist: History,
      places: seq<nat>, d: int)
    requires Inv(g, stations, st, hist) && Fair(g, stations, st, places) && 0 !in stations && st.queue != []
    ensures ClaimedByNearest(g, stations, Step(topo, st).visited, d)
  {
    assert ClaimedByNearest(g, stations, st.visited, d);
    if Owner(st.visited, d) == 0 && d == End(st.queue[0].hops) {
      HeadIsNearest(g, stations, st, hist, places);
    }
  }

  lemma StillAwaited(topo: Topology, st: State, places: seq<nat>, i: nat, k: nat, d: int)
    requires st.queue != [] && |places| == |st.queue| && Awaited(st.queue, places, i, k, d)
            && d != End(st.queue[0].hops)
    ensures |PlacesAfter(topo, st, places)| == |Step(topo, st).queue|
    ensures Awaited(Step(topo, st).queue, PlacesAfter(topo, st, places), i, k, d)
  {
    var q :| 0 <= q < |st.queue| && |st.queue[q].hops| == k + 1 && places[q] <= i && End(st.queue[q].hops) == d;
    assert Step(topo, st).queue[q - 1] == st.queue[q] && PlacesAfter(topo, st, places)[q - 1] == places[q];
  }

  lemma QueuedLast(topo: Topology, st: State, places: seq<nat>, v: Wave) returns (q: nat)
    requires st.queue != [] && |places| == |st.queue| && !Meets(st.visited, st.queue[0])
    requires v in Extensions(st.queue[0], LinksAt(topo, End(st.queue[0].hops)))
    ensures |PlacesAfter(topo, st, places)| == |Step(topo, st).queue| && q < |Step(topo, st).queue|
    ensures Step(topo, st).queue[q] == v && PlacesAfter(topo, st, places)[q] == places[0]
  {
    var e := Extensions(st.queue[0], LinksAt(topo, End(st.queue[0].hops)));
    var x :| 0 <= x < |e| && e[x] == v;
    q := |st.queue| - 1 + x;
  }

  /** Going on from a newly claimed device, every unclaimed neighbour is queued. */
  lemma ExtensionAwaited(g: set<Link>, stations: seq<int>, topo: Topology, st: State, hist: History, places: seq<nat>,
      h: Hop)
    requires DistinctIds(g) && Adjacent(g, topo) && Inv(g, stations, st, hist) && 0 !in stations
    requires st.queue != [] && |places| == |st.queue| && !Meets(st.visited, st.queue[0])
    requires h in Hops(g) && h.currDev == End(st.queue[0].hops) && Owner(Step(topo, st).visited, h.nextDev) == 0
    ensures |PlacesAfter(topo, st, places)| == |Step(topo, st).queue|
    ensures Awaited(Step(topo, st).queue, PlacesAfter(topo, st, places), places[0], |st.queue[0].hops|, h.nextDev)
  {
    var w := st.queue[0];
    assert Known(st, hist, w);
    assert WaveOk(g, stations, st.visited, w);
    var l := AdjacentHop(g, topo, h);
    var v: Wave := Path(w.from, w.hops + [h]);
    ExtensionMembers(w, LinksAt(topo, End(w.hops)), v);
    var q := QueuedLast(topo, st, places, v);
    assert End(v.hops) == h.nextDev;
  }

  lemma StepFrontierAwaited(g: set<Link>, stations: seq<int>, topo: Topology, st: State, hist: History,
      places: seq<nat>)
    requires DistinctIds(g) && Adjacent(g, topo) && 0 !in stations && st.queue != []
    requires Inv(g, stations, st, hist) && Fair(g, stations, st, places)
    ensures |PlacesAfter(topo, st, places)| == |Step(topo, st).queue|
    ensures FrontierAwaited(g, stations, Step(topo, st), PlacesAfter(topo, st, places))
  {
    var st' := Step(topo, st);
    var w := st.queue[0];
    StepInOrder(stations, topo, st, places);
    forall h: Hop, i: nat, k: nat |
      h in Hops(g) && Owner(st'.visited, h.currDev) != 0 && Owner(st'.visited, h.nextDev) == 0
      && IsNearest(g, stations, i, k, h.currDev)
      ensures Awaited(st'.queue, PlacesAfter(topo, st, places), i, k, h.nextDev)
    {
      if Owner(st.visited, h.currDev) == 0 {
        HeadIsNearest(g, stations, st, hist, places);
        ExtensionAwaited(g, stations, topo, st, hist, places, h);
      } else {
        assert Awaited(st.queue, places, i, k, h.nextDev);
        StillAwaited(topo, st, places, i, k, h.nextDev);
      }
    }
  }

  /** The order is kept at every turn. */
  lemma {:induction false} RunFair(g: set<Link>, stations: seq<int>, topo: Topology, n: nat)
    returns (places: seq<nat>, hist: History)
    requires DistinctIds(g) && Adjacent(g, topo) && 0 !in stations
    ensures Inv(g, stations, Run(stations, topo, n), hist)
    ensures Fair(g, stations, Run(stations, topo, n), places)
  {
    if n == 0 {
      InitialFair(g, stations, topo);
      InitialInv(g, stations, topo);
      places, hist := InitialPlaces(stations, topo), History({}, {});
    } else {
      places, hist := RunFair(g, stations, topo, n - 1);
      var st := Run(stations, topo, n - 1);
      if st.queue != [] {
        StepInv(g, stations, topo, st, hist);
        StepInOrder(stations, topo, st, places);
        StepFrontierAwaited(g, stations, topo, st, hist, places);
        forall d ensures ClaimedByNearest(g, stations, Step(topo, st).visited, d) {
          StepClaimedByNearest(g, stations, topo, st, hist, places, d);
        }
        places, hist := PlacesAfter(topo, st, places), After(st, hist);
      }
    }
  }

  // ----- whose a device is -----

  /** At any time, on any network: a device is claimed only by the station nearest to it. */
  lemma OwnerIsNearest(g: set<Link>, stations: seq<int>, topo: Topology, n: nat, d: int) returns (i: nat)
    requires DistinctIds(g) && Adjacent(g, topo) && 0 !in stations
    requires Owner(Run(stations, topo, n).visited, d) != 0
    ensures InTerritory(g, stations, i, d) && stations[i] == Owner(Run(stations, topo, n).visited, d)
  {
    var places, hist := RunFair(g, stations, topo, n);
    assert ClaimedByNearest(g, stations, Run(stations, topo, n).visited, d);
    var k: nat;
    i, k :| IsNearest(g, stations, i, k, d) && stations[i] == Owner(Run(stations, topo, n).visited, d);
  }

  /** Once the search has stopped, the nearest station has claimed the device. */
  lemma NearestOwns(g: set<Link>, stations: seq<int>, topo: Topology, n: nat, i: nat, h: Hop)
    requires DistinctIds(g) && Adjacent(g, topo) && 0 !in stations
    requires Run(stations, topo, n).queue == [] && h in Hops(g) && InTerritory(g, stations, i, h.currDev)
    ensures Owner(Run(stations, topo, n).visited, h.currDev) == stations[i]
  {
    var d, st := h.currDev, Run(stations, topo, n);
    var places, hist := RunFair(g, stations, topo, n);
    var k: nat :| IsNearest(g, stations, i, k, d);
    if k > 0 && Owner(st.visited, d) == 0 {
      var w: seq<Hop> :| IsWalk(g, w) && |w| == k && Start(w) == stations[i] && End(w) == d;
      HeadNoLater(g, stations, st, hist, places, i, w);
    }
    assert ClaimedByNearest(g, stations, st.visited, d);
    var j: nat, m: nat :| IsNearest(g, stations, j, m, d) && stations[j] == Owner(st.visited, d);
  }
}
