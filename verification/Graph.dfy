/**
 The network as an undirected multigraph of links between device ports, and the
 facts about walks in it that the VLAN search relies on.

 A walk is a sequence of hops; a hop is one traversal of a link, from the port it
 leaves (`curr`) to the port it enters (`next`).
 */
module Graph {

  datatype Link = Link(id: int, srcDev: int, srcPort: int, dstDev: int, dstPort: int)

  datatype Hop = Hop(currDev: int, currPort: int, nextDev: int, nextPort: int, linkId: int) {
    function Flip(): Hop {
      Hop(nextDev, nextPort, currDev, currPort, linkId)
    }
  }

  function Forward(l: Link): Hop {
    Hop(l.srcDev, l.srcPort, l.dstDev, l.dstPort, l.id)
  }

  function Backward(l: Link): Hop {
    Hop(l.dstDev, l.dstPort, l.srcDev, l.srcPort, l.id)
  }

  function Hops(g: set<Link>): set<Hop> {
    (set l | l in g :: Forward(l)) + (set l | l in g :: Backward(l))
  }

  ghost predicate DistinctIds(g: set<Link>) {
    forall l, m :: l in g && m in g && l.id == m.id ==> l == m
  }

  /** Every (device, port) pair belongs to at most one link. */
  ghost predicate DistinctPorts(g: set<Link>) {
    forall h, k :: h in Hops(g) && k in Hops(g) && h.currDev == k.currDev && h.currPort == k.currPort
                   ==> h.linkId == k.linkId
  }

  ghost predicate IsWalk(g: set<Link>, w: seq<Hop>) {
    && |w| > 0
    && (forall i :: 0 <= i < |w| ==> w[i] in Hops(g))
    && (forall i :: 0 <= i < |w| - 1 ==> w[i].nextDev == w[i + 1].currDev)
  }

  /** A walk that never leaves a device over the link it has just arrived by. */
  ghost predicate IsTrail(g: set<Link>, w: seq<Hop>) {
    && IsWalk(g, w)
    && (forall i :: 0 <= i < |w| - 1 ==> w[i].linkId != w[i + 1].linkId)
  }

  function Start(w: seq<Hop>): int
    requires |w| > 0
  {
    w[0].currDev
  }

  function End(w: seq<Hop>): int
    requires |w| > 0
  {
    w[|w| - 1].nextDev
  }

  /** The k-th device on a walk, counting from its start. */
  function Device(w: seq<Hop>, k: nat): int
    requires |w| > 0 && k <= |w|
  {
    if k == 0 then w[0].currDev else w[k - 1].nextDev
  }

  /** A walk that visits no device twice. */
  ghost predicate IsSimplePath(g: set<Link>, w: seq<Hop>) {
    && IsWalk(g, w)
    && (forall i, j :: 0 <= i < j <= |w| ==> Device(w, i) != Device(w, j))
  }

  ghost predicate UsesLink(w: seq<Hop>, linkId: int) {
    exists i :: 0 <= i < |w| && w[i].linkId == linkId
  }

  ghost predicate Connected(g: set<Link>, a: int, b: int) {
    a == b || exists w :: IsWalk(g, w) && Start(w) == a && End(w) == b
  }

  /** No trail comes back to where it started. */
  ghost predicate Forest(g: set<Link>) {
    forall w :: IsTrail(g, w) ==> Start(w) != End(w)
  }

  /** A closed walk that uses no link twice. */
  ghost predicate IsCycle(g: set<Link>, w: seq<Hop>) {
    && IsWalk(g, w)
    && Start(w) == End(w)
    && (forall i, j :: 0 <= i < j < |w| ==> w[i].linkId != w[j].linkId)
  }

  // ----- hops -----

  /** A hop crosses a link in one direction or the other, out of the port at one end and into that at the other. */
  lemma HopMeaning(g: set<Link>, h: Hop)
    ensures h in Hops(g)
            <==> exists l :: l in g && h.linkId == l.id &&
                             (Goes(h, l.srcDev, l.srcPort, l.dstDev, l.dstPort) ||
                              Goes(h, l.dstDev, l.dstPort, l.srcDev, l.srcPort))
  {
    if h in Hops(g) {
      var l := LinkOfHop(g, h);
    }
    if l :| l in g && h.linkId == l.id && (Goes(h, l.srcDev, l.srcPort, l.dstDev, l.dstPort) ||
                                           Goes(h, l.dstDev, l.dstPort, l.srcDev, l.srcPort)) {
      HopsOfLink(g, l);
      assert h == Forward(l) || h == Backward(l);
    }
  }

  ghost predicate Goes(h: Hop, outDev: int, outPort: int, inDev: int, inPort: int) {
    h.currDev == outDev && h.currPort == outPort && h.nextDev == inDev && h.nextPort == inPort
  }

  lemma HopsOfLink(g: set<Link>, l: Link)
    requires l in g
    ensures Forward(l) in Hops(g) && Backward(l) in Hops(g)
  {
  }

  lemma LinkOfHop(g: set<Link>, h: Hop) returns (l: Link)
    requires h in Hops(g)
    ensures l in g && (h == Forward(l) || h == Backward(l))
  {
    if m :| m in g && h == Forward(m) {
      l := m;
    } else {
      l :| l in g && h == Backward(l);
    }
  }

  lemma FlipInHops(g: set<Link>, h: Hop)
    requires h in Hops(g)
    ensures h.Flip() in Hops(g)
  {
    var l := LinkOfHop(g, h);
    HopsOfLink(g, l);
  }

  /** With distinct link ids, a link id names one traversal and its reverse. */
  lemma SameLink(g: set<Link>, h: Hop, k: Hop)
    requires DistinctIds(g) && h in Hops(g) && k in Hops(g) && h.linkId == k.linkId
    ensures k == h || k == h.Flip()
  {
    var l := LinkOfHop(g, h);
    var m := LinkOfHop(g, k);
    assert l == m;
  }

  // ----- links from a device to itself -----

  /** A hop as the search makes it: it crosses a link from a device to itself in one direction only. */
  ghost predicate Crossable(g: set<Link>, h: Hop) {
    h in Hops(g) && (h.currDev != h.nextDev || exists l :: l in g && h == Forward(l))
  }

  ghost predicate AllCrossable(g: set<Link>, w: seq<Hop>) {
    forall h :: h in w ==> Crossable(g, h)
  }

  /** The same walk, crossing links from a device to itself as the search does. */
  ghost function AsCrossed(g: set<Link>, w: seq<Hop>): (r: seq<Hop>)
    ensures |r| == |w|
    ensures forall i :: 0 <= i < |w| ==> r[i] == w[i] || (w[i].currDev == w[i].nextDev && r[i] == w[i].Flip())
    ensures (forall h :: h in w ==> h in Hops(g)) ==> AllCrossable(g, r)
  {
    CrossedOneWay(g);
    seq(|w|, i requires 0 <= i < |w| => if Crossable(g, w[i]) then w[i] else CrossedHop(g, w[i]))
  }

  ghost function CrossedHop(g: set<Link>, h: Hop): Hop {
    if h.currDev == h.nextDev then h.Flip() else h
  }

  lemma CrossedOneWay(g: set<Link>)
    ensures forall h :: h in Hops(g) && !Crossable(g, h) ==> h.currDev == h.nextDev && Crossable(g, h.Flip())
  {
    forall h | h in Hops(g) && !Crossable(g, h) ensures h.currDev == h.nextDev && Crossable(g, h.Flip()) {
      var l := LinkOfHop(g, h);
      HopsOfLink(g, l);
    }
  }

  // ----- trails -----

  lemma TrailConcat(g: set<Link>, u: seq<Hop>, v: seq<Hop>)
    requires IsTrail(g, u) && IsTrail(g, v)
    requires End(u) == Start(v) && u[|u| - 1].linkId != v[0].linkId
    ensures IsTrail(g, u + v) && Start(u + v) == Start(u) && End(u + v) == End(v)
  {
  }

  function Reverse(w: seq<Hop>): (r: seq<Hop>)
    ensures |r| == |w|
    ensures forall i :: 0 <= i < |w| ==> r[i] == w[|w| - 1 - i].Flip()
  {
    seq(|w|, i requires 0 <= i < |w| => w[|w| - 1 - i].Flip())
  }

  lemma ReverseTrail(g: set<Link>, w: seq<Hop>)
    requires IsTrail(g, w)
    ensures IsTrail(g, Reverse(w))
    ensures Start(Reverse(w)) == End(w) && End(Reverse(w)) == Start(w)
  {
    var r := Reverse(w);
    forall i | 0 <= i < |r| ensures r[i] in Hops(g) {
      FlipInHops(g, w[|w| - 1 - i]);
    }
    forall i | 0 <= i < |r| - 1
      ensures r[i].nextDev == r[i + 1].currDev && r[i].linkId != r[i + 1].linkId
    {
      var k := |w| - 2 - i;
      assert r[i] == w[k + 1].Flip() && r[i + 1] == w[k].Flip();
    }
  }

  /** A trail that uses a link twice contains a shorter closed trail. */
  lemma RepeatedLinkClosesTrail(g: set<Link>, w: seq<Hop>, i: nat, j: nat) returns (c: seq<Hop>)
    requires DistinctIds(g) && IsTrail(g, w)
    requires i < j < |w| && w[i].linkId == w[j].linkId
    ensures IsTrail(g, c) && Start(c) == End(c) && |c| < |w| && forall h :: h in c ==> h in w
  {
    SameLink(g, w[i], w[j]);
    if w[j] == w[i] {
      c := w[i..j];
    } else {
      assert j != i + 1;
      c := w[i + 1..j];
    }
  }

  /** On a forest a trail uses no link twice. */
  lemma ForestTrailLinksDistinct(g: set<Link>, w: seq<Hop>)
    requires Forest(g) && DistinctIds(g) && IsTrail(g, w)
    ensures forall i, j :: 0 <= i < j < |w| ==> w[i].linkId != w[j].linkId
  {
    forall i, j | 0 <= i < j < |w| ensures w[i].linkId != w[j].linkId {
      if w[i].linkId == w[j].linkId {
        var c := RepeatedLinkClosesTrail(g, w, i, j);
        assert false;
      }
    }
  }

  lemma {:induction false} ClosedTrailContainsCycle(g: set<Link>, w: seq<Hop>) returns (c: seq<Hop>)
    requires DistinctIds(g) && IsTrail(g, w) && Start(w) == End(w)
    ensures IsCycle(g, c) && forall h :: h in c ==> h in w
    decreases |w|
  {
    if i, j :| 0 <= i < j < |w| && w[i].linkId == w[j].linkId {
      c := RepeatedLinkClosesTrail(g, w, i, j);
      c := ClosedTrailContainsCycle(g, c);
    } else {
      c := w;
    }
  }

  /** `Forest` is acyclicity in the usual sense. */
  lemma ForestIffNoCycle(g: set<Link>)
    requires DistinctIds(g)
    ensures Forest(g) <==> forall w :: !IsCycle(g, w)
  {
    if Forest(g) {
      forall w ensures !IsCycle(g, w) {
        if IsCycle(g, w) {
          assert IsTrail(g, w);
        }
      }
    } else {
      var w :| IsTrail(g, w) && Start(w) == End(w);
      var c := ClosedTrailContainsCycle(g, w);
    }
  }

  lemma RevisitsDevice(g: set<Link>, w: seq<Hop>, i: nat)
    requires IsWalk(g, w) && i + 1 < |w| && (w[i + 1] == w[i] || w[i + 1] == w[i].Flip())
    ensures !IsSimplePath(g, w)
  {
    assert Device(w, i) == w[i].currDev;
    assert Device(w, i) == Device(w, i + 2);
  }

  lemma SimplePathIsTrail(g: set<Link>, w: seq<Hop>)
    requires DistinctIds(g) && IsSimplePath(g, w)
    ensures IsTrail(g, w)
  {
    forall i | 0 <= i < |w| - 1 ensures w[i].linkId != w[i + 1].linkId {
      if w[i].linkId == w[i + 1].linkId {
        SameLink(g, w[i], w[i + 1]);
        RevisitsDevice(g, w, i);
        assert false;
      }
    }
  }

  /** On a forest the trails are exactly the simple paths. */
  lemma ForestTrailIffSimplePath(g: set<Link>, w: seq<Hop>)
    requires Forest(g) && DistinctIds(g)
    ensures IsTrail(g, w) <==> IsSimplePath(g, w)
  {
    if IsTrail(g, w) {
      forall i, j | 0 <= i < j <= |w| ensures Device(w, i) != Device(w, j) {
        assert IsTrail(g, w[i..j]);
        assert Device(w, i) == Start(w[i..j]) && Device(w, j) == End(w[i..j]);
      }
    }
    if IsSimplePath(g, w) {
      SimplePathIsTrail(g, w);
    }
  }

  /** Any walk can be shortened to a simple path between the same two devices. */
  lemma {:induction false} WalkReducesToSimplePath(g: set<Link>, w: seq<Hop>) returns (p: seq<Hop>)
    requires IsWalk(g, w) && Start(w) != End(w)
    ensures IsSimplePath(g, p) && Start(p) == Start(w) && End(p) == End(w)
    decreases |w|
  {
    if i, j :| 0 <= i < j <= |w| && Device(w, i) == Device(w, j) {
      var v := w[..i] + w[j..];
      assert Device(w, 0) == Start(w) && Device(w, |w|) == End(w);
      assert v != [];
      if i > 0 && j < |w| { assert w[i - 1].nextDev == w[j].currDev; }
      assert IsWalk(g, v);
      p := WalkReducesToSimplePath(g, v);
    } else {
      p := w;
    }
  }

  lemma ConnectedBySimplePath(g: set<Link>, a: int, b: int) returns (p: seq<Hop>)
    requires Connected(g, a, b) && a != b
    ensures IsSimplePath(g, p) && Start(p) == a && End(p) == b
  {
    var w :| IsWalk(g, w) && Start(w) == a && End(w) == b;
    p := WalkReducesToSimplePath(g, w);
  }

  // ----- going round -----

  ghost predicate NoLoopLinks(g: set<Link>) {
    forall l :: l in g ==> l.srcDev != l.dstDev
  }

  lemma WithoutLoopsCrossable(g: set<Link>, w: seq<Hop>)
    requires NoLoopLinks(g) && IsWalk(g, w)
    ensures AllCrossable(g, w)
  {
    forall h | h in w ensures Crossable(g, h) {
      var l := LinkOfHop(g, h);
    }
  }

  ghost predicate NoSelfLoops(w: seq<Hop>) {
    forall i :: 0 <= i < |w| ==> w[i].currDev != w[i].nextDev
  }

  lemma WalkHasNoSelfLoops(g: set<Link>, w: seq<Hop>)
    requires NoLoopLinks(g) && IsWalk(g, w)
    ensures NoSelfLoops(w)
  {
    forall i | 0 <= i < |w| ensures w[i].currDev != w[i].nextDev {
      var l := LinkOfHop(g, w[i]);
    }
  }

  lemma ForestHasNoLoopLinks(g: set<Link>)
    requires Forest(g)
    ensures NoLoopLinks(g)
  {
    forall l | l in g ensures l.srcDev != l.dstDev {
      HopsOfLink(g, l);
      assert IsTrail(g, [Forward(l)]);
    }
  }

  /** A closed trail that can be gone round again: it does not end with the link it began with. */
  ghost predicate IsLap(g: set<Link>, c: seq<Hop>) {
    IsTrail(g, c) && Start(c) == End(c) && c[0].linkId != c[|c| - 1].linkId
  }

  ghost predicate IsLoop(g: set<Link>, h: Hop) {
    h in Hops(g) && h.currDev == h.nextDev
  }

  /** A lap goes round a cycle, or to and fro between two links that lead from a device to itself. */
  lemma LapHasCycleOrTwoLoops(g: set<Link>, c: seq<Hop>)
    requires DistinctIds(g) && IsLap(g, c)
    ensures || (exists d :: IsCycle(g, d) && |d| > 1 && forall h :: h in d ==> h in c)
            || (exists h, k :: h in c && k in c && IsLoop(g, h) && IsLoop(g, k) && h.linkId != k.linkId)
  {
    if k :| 0 <= k < |c| && IsLoop(g, c[k]) {
      if forall h :: h in c && IsLoop(g, h) ==> h.linkId == c[k].linkId {
        var r := c[k + 1..] + c[..k];
        AfterLoop(g, c, k, r);
        var d := ClosedPastLoop(g, r, c[k]);
        assert forall h :: h in d ==> h in c;
      } else {
        assert c[k] in c;
      }
    } else {
      assert forall h :: h in c ==> h in Hops(g);
      var d := ClosedTrailContainsCycle(g, c);
      assert d[0] in d;
    }
  }

  /** The rest of a lap, from one of its hops round to that hop again. */
  lemma AfterLoop(g: set<Link>, c: seq<Hop>, k: nat, r: seq<Hop>)
    requires IsLap(g, c) && k < |c| && IsLoop(g, c[k]) && r == c[k + 1..] + c[..k]
    ensures IsTrail(g, r) && Start(r) == c[k].currDev == End(r) && r[0].linkId != c[k].linkId
    ensures forall h :: h in r ==> h in c
  {
    var a, b := c[k + 1..], c[..k];
    if a == [] {
      assert r == b && r[0] == c[0] && End(r) == c[k].currDev;
    } else if b == [] {
      assert r == a && r[0] == c[1];
    } else {
      assert IsTrail(g, a) && Start(a) == c[k].nextDev && End(a) == End(c);
      assert IsTrail(g, b) && Start(b) == Start(c) && End(b) == c[k].currDev;
      assert a[|a| - 1] == c[|c| - 1] && b[0] == c[0];
      TrailConcat(g, a, b);
      assert r[0] == c[k + 1];
    }
  }

  /** A closed trail that sets out from a loop over another link contains a cycle, if it meets no other loop. */
  lemma {:induction false} ClosedPastLoop(g: set<Link>, r: seq<Hop>, loop: Hop) returns (d: seq<Hop>)
    requires DistinctIds(g) && IsTrail(g, r) && IsLoop(g, loop)
    requires Start(r) == loop.currDev == End(r) && r[0].linkId != loop.linkId
    requires forall h :: h in r && IsLoop(g, h) ==> h.linkId == loop.linkId
    ensures IsCycle(g, d) && |d| > 1 && forall h :: h in d ==> h in r
    decreases |r|
  {
    if m :| 0 < m < |r| && IsLoop(g, r[m]) {
      assert r[m] in r;
      SameLink(g, loop, r[m]);
      d := ClosedPastLoop(g, r[..m], loop);
    } else {
      assert forall i :: 0 <= i < |r| ==> r[i] in r;
      d := ClosedTrailContainsCycle(g, r);
      assert d[0] in d;
    }
  }

  /** To one loop, on to another, and back, round and round. */
  lemma TwoLoopsLap(g: set<Link>, h: Hop, p: seq<Hop>, k: Hop) returns (c: seq<Hop>)
    requires DistinctIds(g) && IsLoop(g, h) && IsLoop(g, k) && h.linkId != k.linkId
    requires if h.currDev == k.currDev then p == []
             else IsSimplePath(g, p) && Start(p) == h.currDev && End(p) == k.currDev
    ensures IsLap(g, c) && forall x :: x in c ==> x == h || x == k || x in p || x.Flip() in p
  {
    if p == [] {
      c := [h, k];
    } else {
      SimplePathIsTrail(g, p);
      ReverseTrail(g, p);
      NotThatLoop(g, p, h);
      NotThatLoop(g, p, k);
      var q := Reverse(p);
      assert q[0] == p[|p| - 1].Flip() && q[|q| - 1] == p[0].Flip();
      TrailConcat(g, [h], p);
      TrailConcat(g, [h] + p, [k]);
      c := [h] + p + [k];
      TrailConcat(g, c, q);
      c := c + q;
      assert forall x :: x in q ==> x.Flip() in p by {
        assert forall i :: 0 <= i < |q| ==> q[i].Flip() == p[|p| - 1 - i];
      }
    }
  }

  lemma NotThatLoop(g: set<Link>, p: seq<Hop>, h: Hop)
    requires DistinctIds(g) && IsSimplePath(g, p) && IsLoop(g, h)
    ensures forall x :: x in p ==> x.linkId != h.linkId
  {
    forall x | x in p ensures x.linkId != h.linkId {
      var i :| 0 <= i < |p| && p[i] == x;
      assert Device(p, i) == x.currDev && Device(p, i + 1) == x.nextDev;
      if x.linkId == h.linkId {
        SameLink(g, h, x);
        assert false;
      }
    }
  }

  lemma ConnectedBack(g: set<Link>, a: int, b: int)
    requires Connected(g, a, b)
    ensures Connected(g, b, a)
  {
    if a != b {
      var w :| IsWalk(g, w) && Start(w) == a && End(w) == b;
      var r := Reverse(w);
      forall i | 0 <= i < |r| ensures r[i] in Hops(g) {
        FlipInHops(g, w[|w| - 1 - i]);
      }
      assert IsWalk(g, r) && Start(r) == b && End(r) == a;
    }
  }

  lemma ConnectedVia(g: set<Link>, a: int, b: int, c: int)
    requires Connected(g, a, b) && Connected(g, b, c)
    ensures Connected(g, a, c)
  {
    if a != b && b != c {
      var u :| IsWalk(g, u) && Start(u) == a && End(u) == b;
      var v :| IsWalk(g, v) && Start(v) == b && End(v) == c;
      assert IsWalk(g, u + v) && Start(u + v) == a && End(u + v) == c;
    }
  }

  function Laps(c: seq<Hop>, n: nat): (w: seq<Hop>)
    ensures forall h :: h in w ==> h in c
  {
    if n == 0 then c else c + Laps(c, n - 1)
  }

  lemma {:induction false} LapsAreTrails(g: set<Link>, c: seq<Hop>, n: nat)
    requires IsLap(g, c)
    ensures IsTrail(g, Laps(c, n)) && Start(Laps(c, n)) == Start(c) && |Laps(c, n)| > n
    ensures Laps(c, n)[0] == c[0]
  {
    if n > 0 {
      LapsAreTrails(g, c, n - 1);
      TrailConcat(g, c, Laps(c, n - 1));
    }
  }

  // ----- the links that matter to a set of end stations -----

  /** The link lies on a trail that joins two different end stations. */
  ghost predicate OnStationTrail(g: set<Link>, stations: seq<int>, linkId: int) {
    exists w :: IsTrail(g, w) && Start(w) in stations && End(w) in stations && Start(w) != End(w) && UsesLink(w, linkId)
  }

  /** The port is the far end of an end station's own link that leads on to another end station. */
  ghost predicate IsEdgePort(g: set<Link>, stations: seq<int>, dev: int, port: int, linkId: int) {
    exists w: seq<Hop> :: IsTrail(g, w) && Start(w) in stations && End(w) in stations && Start(w) != End(w)
                          && w[0].nextDev == dev && w[0].nextPort == port && w[0].linkId == linkId
  }

  /** The link lies on a simple path between two end stations. */
  ghost predicate OnStationPath(g: set<Link>, stations: seq<int>, linkId: int) {
    exists w :: IsSimplePath(g, w) && Start(w) in stations && End(w) in stations && UsesLink(w, linkId)
  }

  /** Removing the link splits its two ends apart and leaves an end station on each side. */
  ghost predicate CutsStations(g: set<Link>, stations: seq<int>, l: Link) {
    !Connected(g - {l}, l.dstDev, l.srcDev)
    && exists s, t :: s in stations && t in stations
                      && Connected(g - {l}, s, l.srcDev) && Connected(g - {l}, l.dstDev, t)
  }

  /** On a forest the trails between end stations are the simple paths between them. */
  lemma ForestStationTrails(g: set<Link>, stations: seq<int>, linkId: int)
    requires Forest(g) && DistinctIds(g)
    ensures OnStationTrail(g, stations, linkId) <==> OnStationPath(g, stations, linkId)
  {
    if OnStationTrail(g, stations, linkId) {
      var w :| IsTrail(g, w) && Start(w) in stations && End(w) in stations && Start(w) != End(w) && UsesLink(w, linkId);
      ForestTrailIffSimplePath(g, w);
    }
    if OnStationPath(g, stations, linkId) {
      var w :| IsSimplePath(g, w) && Start(w) in stations && End(w) in stations && UsesLink(w, linkId);
      ForestTrailIffSimplePath(g, w);
    }
  }

  /** Before and after the one place where a path uses the link, it avoids the link. */
  lemma PathImpliesCut(g: set<Link>, stations: seq<int>, l: Link, w: seq<Hop>, i: nat)
    requires Forest(g) && DistinctIds(g) && l in g
    requires IsTrail(g, w) && Start(w) in stations && End(w) in stations
    requires i < |w| && w[i] == Forward(l)
    ensures CutsStations(g, stations, l)
  {
    ForestTrailLinksDistinct(g, w);
    if Connected(g - {l}, l.dstDev, l.srcDev) {
      var back := TrailAvoiding(g, l, l.dstDev, l.srcDev);
      assert IsTrail(g, [Forward(l)]);
      assert back != [];
      assert back[0].linkId != l.id;
      TrailConcat(g, [Forward(l)], back);
      assert false;
    }
    assert Connected(g - {l}, Start(w), l.srcDev) by {
      if i > 0 {
        assert End(w[..i]) == l.srcDev;
      }
    }
    assert Connected(g - {l}, l.dstDev, End(w)) by {
      if i + 1 < |w| {
        assert Start(w[i + 1..]) == l.dstDev;
      }
    }
  }

  lemma TrailAvoiding(g: set<Link>, l: Link, a: int, b: int) returns (t: seq<Hop>)
    requires DistinctIds(g) && l in g && Connected(g - {l}, a, b)
    ensures if a == b then t == []
            else IsTrail(g, t) && Start(t) == a && End(t) == b && !UsesLink(t, l.id)
  {
    if a == b {
      t := [];
    } else {
      t := ConnectedBySimplePath(g - {l}, a, b);
      SimplePathIsTrail(g - {l}, t);
    }
  }

  lemma CutImpliesPath(g: set<Link>, stations: seq<int>, l: Link) returns (w: seq<Hop>)
    requires DistinctIds(g) && l in g && CutsStations(g, stations, l)
    ensures IsTrail(g, w) && Start(w) in stations && End(w) in stations && UsesLink(w, l.id)
  {
    var s, t :| s in stations && t in stations
                && Connected(g - {l}, s, l.srcDev) && Connected(g - {l}, l.dstDev, t);
    var u := TrailAvoiding(g, l, s, l.srcDev);
    var v := TrailAvoiding(g, l, l.dstDev, t);
    HopsOfLink(g, l);
    w := [Forward(l)];
    if u != [] {
      assert u[|u| - 1].linkId != l.id;
      TrailConcat(g, u, w);
      w := u + w;
    }
    var k := |w| - 1;
    assert w[k] == Forward(l);
    if v != [] {
      assert v[0].linkId != l.id;
      TrailConcat(g, w, v);
      w := w + v;
    }
    assert w[k].linkId == l.id;
  }

  /** The path form and the cut form pick out the same links. */
  lemma PathIffCut(g: set<Link>, stations: seq<int>, l: Link)
    requires Forest(g) && DistinctIds(g) && l in g
    ensures OnStationPath(g, stations, l.id) <==> CutsStations(g, stations, l)
  {
    if OnStationPath(g, stations, l.id) {
      var w: seq<Hop> :| IsSimplePath(g, w) && Start(w) in stations && End(w) in stations && UsesLink(w, l.id);
      ForestTrailIffSimplePath(g, w);
      var i :| 0 <= i < |w| && w[i].linkId == l.id;
      HopsOfLink(g, l);
      SameLink(g, Forward(l), w[i]);
      if w[i] == Forward(l) {
        PathImpliesCut(g, stations, l, w, i);
      } else {
        ReverseTrail(g, w);
        assert Reverse(w)[|w| - 1 - i] == Forward(l);
        PathImpliesCut(g, stations, l, Reverse(w), |w| - 1 - i);
      }
    }
    if CutsStations(g, stations, l) {
      var w := CutImpliesPath(g, stations, l);
      ForestTrailIffSimplePath(g, w);
    }
  }
}
