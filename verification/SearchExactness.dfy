/**
 What the VLAN search has found when its queue runs empty: the links it records are
 exactly those on trails that join two different end stations.
 */
module SearchExactness {
  import opened Graph
  import opened VlanSearch
  import opened SearchInvariant

  ghost predicate Meeting(hist: History, w: Wave, linkId: int) {
    w in hist.met && UsesLink(w.hops, linkId)
  }

  ghost predicate LinkRecorded(m: PortMap, linkId: int) {
    exists d, p :: PortLink(m, d, p, linkId)
  }

  // ----- a meeting is a trail between two stations -----

  lemma LastHopLeavesOwnTerritory(g: set<Link>, stations: seq<int>, visited: map<int, int>, w: Wave)
    requires WaveOk(g, stations, visited, w)
    ensures Owner(visited, w.hops[|w.hops| - 1].currDev) == w.from
  {
    var k := |w.hops| - 1;
    if k > 0 {
      assert Owner(visited, w.hops[k - 1].nextDev) == w.from;
    }
  }

  /** Two stations' waves that reach one device have come over different links. */
  lemma DifferentLastLinks(g: set<Link>, stations: seq<int>, visited: map<int, int>, w: Wave, q: Wave)
    requires DistinctIds(g) && WaveOk(g, stations, visited, w) && WaveOk(g, stations, visited, q)
    requires End(w.hops) == End(q.hops) && Owner(visited, End(q.hops)) == q.from && w.from != q.from
    ensures w.hops[|w.hops| - 1].linkId != q.hops[|q.hops| - 1].linkId
  {
    LastHopLeavesOwnTerritory(g, stations, visited, w);
    LastHopLeavesOwnTerritory(g, stations, visited, q);
    var a, b := w.hops[|w.hops| - 1], q.hops[|q.hops| - 1];
    if a.linkId == b.linkId {
      SameLink(g, a, b);
      assert false;
    }
  }

  /** Every meeting extends to a trail joining two different end stations, on any network. */
  lemma MeetingTrail(g: set<Link>, stations: seq<int>, st: State, hist: History, w: Wave) returns (t: seq<Hop>)
    requires DistinctIds(g) && Inv(g, stations, st, hist) && w in hist.met
    ensures IsTrail(g, t) && w.hops <= t
    ensures Start(t) == w.from && Start(t) in stations && End(t) in stations && Start(t) != End(t)
  {
    var d := End(w.hops);
    var y := Owner(st.visited, d);
    assert Known(st, hist, w) && Meets(st.visited, w);
    assert WaveOk(g, stations, st.visited, w);
    assert ClaimExplained(stations, st, hist, d);
    if d == y {
      t := w.hops;
    } else {
      var q :| q in hist.own && q.from == y && End(q.hops) == d;
      assert Known(st, hist, q);
      assert WaveOk(g, stations, st.visited, q);
      DifferentLastLinks(g, stations, st.visited, w, q);
      ReverseTrail(g, q.hops);
      TrailConcat(g, w.hops, Reverse(q.hops));
      t := w.hops + Reverse(q.hops);
    }
  }

  // ----- a station's own territory has no way round -----

  lemma {:induction false} PrefixOwn(st: State, hist: History, w: Wave, k: nat)
    requires ParentsOwn(st, hist) && w in hist.own && 0 < k <= |w.hops|
    ensures Path(w.from, w.hops[..k]) in hist.own
    decreases |w.hops|
  {
    if k == |w.hops| {
      assert w.hops[..k] == w.hops;
    } else {
      assert Known(st, hist, w);
      var p: Wave := Path(w.from, w.hops[..|w.hops| - 1]);
      PrefixOwn(st, hist, p, k);
      assert p.hops[..k] == w.hops[..k];
    }
  }

  /** A finished wave has gone on as far as its station's claims go. */
  lemma {:induction false} FollowOwned(g: set<Link>, stations: seq<int>, st: State, hist: History, w: Wave,
      tail: seq<Hop>)
    requires Inv(g, stations, st, hist) && st.queue == [] && w in hist.own
    requires IsTrail(g, w.hops + tail) && AllCrossable(g, tail)
    requires forall h :: h in tail ==> Owner(st.visited, h.nextDev) == w.from
    ensures Path(w.from, w.hops + tail) in hist.own
    decreases |tail|
  {
    if tail == [] {
      assert w.hops + tail == w.hops;
    } else {
      var next := OneFurther(g, stations, st, hist, w, tail);
      assert !Meets(st.visited, next);
      FollowOwned(g, stations, st, hist, next, tail[1..]);
    }
  }

  lemma FirstOfTail(g: set<Link>, u: seq<Hop>, tail: seq<Hop>)
    requires IsTrail(g, u + tail) && u != [] && tail != [] && AllCrossable(g, tail)
    ensures tail[0] in Hops(g) && tail[0].currDev == End(u) && tail[0].linkId != u[|u| - 1].linkId
    ensures (u + [tail[0]]) + tail[1..] == u + tail && AllCrossable(g, tail[1..])
  {
    var k := |u|;
    var whole := u + tail;
    assert whole[k] == tail[0] && whole[k - 1] == u[k - 1] && whole[k] in Hops(g);
  }

  /** The next path along a trail is known. */
  lemma OneFurther(g: set<Link>, stations: seq<int>, st: State, hist: History, w: Wave, tail: seq<Hop>)
    returns (next: Wave)
    requires Inv(g, stations, st, hist) && st.queue == [] && w in hist.own
    requires IsTrail(g, w.hops + tail) && AllCrossable(g, tail) && tail != []
    ensures next == Path(w.from, w.hops + [tail[0]])
    ensures next.hops + tail[1..] == w.hops + tail && AllCrossable(g, tail[1..])
    ensures next in hist.own || next in hist.met
  {
    assert Extended(g, st, hist, w);
    FirstOfTail(g, w.hops, tail);
    next := Path(w.from, w.hops + [tail[0]]);
    assert Known(st, hist, next);
  }

  /** The part of a path since it was last at its end can be gone round again. */
  lemma ReturnIsLap(g: set<Link>, w: seq<Hop>, i: nat)
    requires DistinctIds(g) && NoLoopLinks(g) && IsTrail(g, w) && i < |w|
    requires forall a, b :: 0 <= a < b < |w| ==> Device(w, a) != Device(w, b)
    requires Device(w, i) == End(w)
    ensures IsLap(g, w[i..])
  {
    var n := |w|;
    WalkHasNoSelfLoops(g, w);
    assert Device(w, i) == w[i].currDev;
    assert i < n - 1;
    assert w[i..n] == w[i..];
    assert Device(w, n - 1) == w[n - 1].currDev && Device(w, i + 1) == w[i].nextDev;
    if w[i].linkId == w[n - 1].linkId {
      SameLink(g, w[i], w[n - 1]);
      assert false;
    }
  }

  lemma OwnDevices(g: set<Link>, stations: seq<int>, st: State, hist: History, w: Wave)
    requires Inv(g, stations, st, hist) && w in hist.own
    ensures forall h :: h in w.hops ==> Owner(st.visited, h.nextDev) == w.from
  {
    assert Known(st, hist, w);
    assert WaveOk(g, stations, st.visited, w);
    forall h | h in w.hops ensures Owner(st.visited, h.nextDev) == w.from {
      var k :| 0 <= k < |w.hops| && w.hops[k] == h;
    }
  }

  lemma LapDevices(c: seq<Hop>, visited: map<int, int>, s: int)
    requires |c| > 0 && Start(c) == End(c) && forall i :: 0 <= i < |c| - 1 ==> c[i].nextDev == c[i + 1].currDev
    requires forall h :: h in c ==> Owner(visited, h.nextDev) == s
    ensures forall h :: h in c ==> Owner(visited, h.currDev) == s
  {
    forall h | h in c ensures Owner(visited, h.currDev) == s {
      var i :| 0 <= i < |c| && c[i] == h;
      assert c[|c| - 1] in c;
      assert i > 0 ==> c[i - 1] in c && c[i - 1].nextDev == h.currDev;
    }
  }

  /** A path that reaches a lap inside its station's territory goes round it any number of times. */
  lemma LapFollowed(g: set<Link>, stations: seq<int>, st: State, hist: History, w: Wave, c: seq<Hop>, n: nat)
    returns (r: Wave)
    requires Inv(g, stations, st, hist) && st.queue == [] && w in hist.own
    requires IsLap(g, c) && AllCrossable(g, c)
    requires Start(c) == End(w.hops) && c[0].linkId != w.hops[|w.hops| - 1].linkId
    requires forall h :: h in c ==> Owner(st.visited, h.nextDev) == w.from
    ensures r in hist.own && |r.hops| > n
  {
    var laps := Laps(c, n);
    LapsAreTrails(g, c, n);
    assert Known(st, hist, w);
    assert WaveOk(g, stations, st.visited, w);
    TrailConcat(g, w.hops, laps);
    FollowOwned(g, stations, st, hist, w, laps);
    r := Path(w.from, w.hops + laps);
  }

  lemma LapFollowedFromStation(g: set<Link>, stations: seq<int>, st: State, hist: History, c: seq<Hop>, n: nat)
    returns (r: Wave)
    requires Inv(g, stations, st, hist) && st.queue == [] && 0 !in stations
    requires IsLap(g, c) && AllCrossable(g, c) && Start(c) in stations
    requires forall h :: h in c ==> Owner(st.visited, h.nextDev) == Start(c)
    ensures r in hist.own && |r.hops| > n
  {
    var laps := Laps(c, n);
    LapsAreTrails(g, c, n);
    var first: Wave := Path(Start(c), [c[0]]);
    assert c[0] in c && c[0] in Hops(g) && c[0].currDev in stations;
    assert Known(st, hist, first);
    assert !Meets(st.visited, first);
    assert first.hops + laps[1..] == laps;
    FollowOwned(g, stations, st, hist, first, laps[1..]);
    r := Path(Start(c), laps);
  }

  lemma CrossedLap(g: set<Link>, c: seq<Hop>, visited: map<int, int>, s: int)
    requires IsLap(g, c) && forall h :: h in c ==> Owner(visited, h.nextDev) == s
    ensures IsLap(g, AsCrossed(g, c)) && AllCrossable(g, AsCrossed(g, c)) && Start(AsCrossed(g, c)) == Start(c)
    ensures AsCrossed(g, c)[0].linkId == c[0].linkId
    ensures forall h :: h in AsCrossed(g, c) ==> Owner(visited, h.nextDev) == s
  {
    var r := AsCrossed(g, c);
    forall h | h in r ensures Owner(visited, h.nextDev) == s {
      var i :| 0 <= i < |r| && r[i] == h;
      assert c[i] in c && h.nextDev == c[i].nextDev;
    }
  }

  lemma ReverseLap(g: set<Link>, c: seq<Hop>)
    requires IsLap(g, c)
    ensures IsLap(g, Reverse(c)) && Start(Reverse(c)) == Start(c) && Reverse(c)[0].linkId == c[|c| - 1].linkId
    ensures forall h :: h in Reverse(c) ==> h.Flip() in c
  {
    ReverseTrail(g, c);
    forall h | h in Reverse(c) ensures h.Flip() in c {
      var i :| 0 <= i < |c| && Reverse(c)[i] == h;
      assert h.Flip() == c[|c| - 1 - i];
    }
  }

  /** A finished search leaves no lap inside one station's territory: it would have gone round for ever. */
  lemma NoOwnedLap(g: set<Link>, stations: seq<int>, st: State, hist: History, c: seq<Hop>, s: int)
    requires Inv(g, stations, st, hist) && st.queue == [] && 0 !in stations && s != 0
    requires forall h :: h in c ==> Owner(st.visited, h.nextDev) == s
    ensures !IsLap(g, c)
  {
    if IsLap(g, c) {
      var longest := LongerThanAll(hist.own);
      var d := Start(c);
      assert c[|c| - 1] in c;
      assert ClaimExplained(stations, st, hist, d);
      if d == s {
        CrossedLap(g, c, st.visited, s);
        var r := LapFollowedFromStation(g, stations, st, hist, AsCrossed(g, c), longest);
      } else {
        var p :| p in hist.own && p.from == s && End(p.hops) == d;
        LapDevices(c, st.visited, s);
        ReverseLap(g, c);
        var round := if c[0].linkId != p.hops[|p.hops| - 1].linkId then c else Reverse(c);
        CrossedLap(g, round, st.visited, s);
        var r := LapFollowed(g, stations, st, hist, p, AsCrossed(g, round), longest);
      }
      assert false;
    }
  }

  lemma SimplePrefixDistinct(g: set<Link>, w: seq<Hop>)
    requires |w| > 0 && (|w| > 1 ==> IsSimplePath(g, w[..|w| - 1]))
    ensures forall a, b :: 0 <= a < b < |w| ==> Device(w, a) != Device(w, b)
  {
    var n := |w|;
    forall a, b | 0 <= a < b < n ensures Device(w, a) != Device(w, b) {
      assert Device(w[..n - 1], a) == Device(w, a) && Device(w[..n - 1], b) == Device(w, b);
    }
  }

  /** When the search has stopped, no path inside a station's territory visits a device twice. */
  lemma {:induction false} OwnIsSimple(g: set<Link>, stations: seq<int>, st: State, hist: History, w: Wave)
    requires 0 !in stations && DistinctIds(g) && NoLoopLinks(g) && Inv(g, stations, st, hist) && st.queue == []
            && w in hist.own
    ensures IsSimplePath(g, w.hops)
    decreases |w.hops|
  {
    var hops, n := w.hops, |w.hops|;
    assert Known(st, hist, w);
    assert WaveOk(g, stations, st.visited, w);
    if n > 1 {
      PrefixOwn(st, hist, w, n - 1);
      OwnIsSimple(g, stations, st, hist, Path(w.from, hops[..n - 1]));
    }
    SimplePrefixDistinct(g, hops);
    forall i | 0 <= i < n ensures Device(hops, i) != End(hops) {
      if Device(hops, i) == End(hops) {
        ReturnIsLap(g, hops, i);
        OwnDevices(g, stations, st, hist, w);
        NoOwnedLap(g, stations, st, hist, hops[i..], w.from);
        assert false;
      }
    }
  }

  // ----- following a trail through the finished search -----

  /** A finished station's wave follows any trail until it meets another station or claims the whole of it. */
  lemma {:induction false} Follow(g: set<Link>, stations: seq<int>, st: State, hist: History, w: Wave, tail: seq<Hop>)
    requires Inv(g, stations, st, hist) && st.queue == []
    requires w in hist.own || w in hist.met
    requires IsTrail(g, w.hops + tail) && AllCrossable(g, tail)
    ensures (exists m :: m in hist.met && m.from == w.from && w.hops <= m.hops)
            || Path(w.from, w.hops + tail) in hist.own
    decreases |tail|
  {
    if w in hist.met {
    } else if tail == [] {
      assert w.hops + tail == w.hops;
    } else {
      var next := OneFurther(g, stations, st, hist, w, tail);
      Follow(g, stations, st, hist, next, tail[1..]);
    }
  }

  /** A station's own claim on itself. */
  lemma StationOwnsItself(g: set<Link>, stations: seq<int>, st: State, hist: History, w: seq<Hop>)
    requires Inv(g, stations, st, hist) && IsWalk(g, w)
    ensures Start(w) in stations ==> Owner(st.visited, Start(w)) == Start(w)
    ensures End(w) in stations ==> Owner(st.visited, End(w)) == End(w)
  {
    var last := w[|w| - 1];
    FlipInHops(g, last);
    assert w[0] in Hops(g);
    assert last.Flip().currDev == End(w);
  }

  /** A finished wave lying on a trail to a station has met somebody at or beyond where it stands. */
  lemma MeetsOnTheWay(g: set<Link>, stations: seq<int>, st: State, hist: History, w: Wave, tail: seq<Hop>)
    returns (m: Wave)
    requires 0 !in stations && DistinctIds(g) && NoLoopLinks(g) && Inv(g, stations, st, hist) && st.queue == []
    requires w in hist.own || w in hist.met
    requires IsTrail(g, w.hops + tail) && End(w.hops + tail) in stations
    ensures m in hist.met && m.from == w.from && w.hops <= m.hops
  {
    var whole := w.hops + tail;
    WithoutLoopsCrossable(g, whole);
    assert forall h :: h in tail ==> h in whole;
    Follow(g, stations, st, hist, w, tail);
    StationOwnsItself(g, stations, st, hist, whole);
    if Path(w.from, whole) in hist.own {
      OwnNeverReturns(g, stations, st, hist, Path(w.from, whole));
    }
    m :| m in hist.met && m.from == w.from && w.hops <= m.hops;
  }

  /** A path inside a station's territory does not end at a station. */
  lemma OwnNeverReturns(g: set<Link>, stations: seq<int>, st: State, hist: History, w: Wave)
    requires 0 !in stations && DistinctIds(g) && NoLoopLinks(g) && Inv(g, stations, st, hist) && st.queue == []
            && w in hist.own
    ensures Owner(st.visited, End(w.hops)) != End(w.hops)
  {
    OwnIsSimple(g, stations, st, hist, w);
    assert Known(st, hist, w);
    assert WaveOk(g, stations, st.visited, w);
    assert Device(w.hops, 0) == w.from && Device(w.hops, |w.hops|) == End(w.hops);
  }

  /** Also where links lead from a device to itself: the first hop of a trail to a different station
      starts a path that met another station. */
  lemma SimplePathMeets(g: set<Link>, stations: seq<int>, st: State, hist: History, w: seq<Hop>) returns (m: Wave)
    requires Inv(g, stations, st, hist) && st.queue == []
    requires IsTrail(g, w) && AllCrossable(g, w)
    requires Start(w) in stations && End(w) in stations && Start(w) != End(w)
    ensures m in hist.met && m.hops[0] == w[0]
  {
    var first: Wave := Path(w[0].currDev, [w[0]]);
    assert w[0] in Hops(g);
    assert Known(st, hist, first);
    assert first.hops + w[1..] == w;
    Follow(g, stations, st, hist, first, w[1..]);
    StationOwnsItself(g, stations, st, hist, w);
    assert Path(first.from, w) !in hist.own;
    m :| m in hist.met && m.from == first.from && first.hops <= m.hops;
  }

  /** A trail between stations: its first hop starts a path that met another station. */
  lemma FirstHopMeets(g: set<Link>, stations: seq<int>, st: State, hist: History, w: seq<Hop>) returns (m: Wave)
    requires 0 !in stations && DistinctIds(g) && NoLoopLinks(g) && Inv(g, stations, st, hist) && st.queue == []
    requires IsTrail(g, w) && Start(w) in stations && End(w) in stations
    ensures m in hist.met && m.hops[0] == w[0]
  {
    var first: Wave := Path(w[0].currDev, [w[0]]);
    WithoutLoopsCrossable(g, w);
    assert w[0] in w && w[0] in Hops(g);
    assert Known(st, hist, first);
    assert first.hops + w[1..] == w;
    m := MeetsOnTheWay(g, stations, st, hist, first, w[1..]);
  }

  /** A claimed device's wave has crossed each of its links, or arrived over it. */
  lemma CrossLink(g: set<Link>, stations: seq<int>, st: State, hist: History, h: Hop) returns (r: Wave)
    requires DistinctIds(g) && Inv(g, stations, st, hist) && st.queue == []
    requires h in Hops(g) && h.currDev != h.nextDev && Owner(st.visited, h.currDev) != 0
    ensures Owner(st.visited, h.nextDev) != 0
    ensures r in hist.own || r in hist.met
    ensures r.hops[|r.hops| - 1] == h || (r in hist.own && r.hops[|r.hops| - 1] == h.Flip())
  {
    var d := h.currDev;
    var x := Owner(st.visited, d);
    assert ClaimExplained(stations, st, hist, d);
    if d == x {
      r := Path(d, [h]);
    } else {
      var p :| p in hist.own && p.from == x && End(p.hops) == d;
      assert Known(st, hist, p);
      assert WaveOk(g, stations, st.visited, p);
      if p.hops[|p.hops| - 1].linkId == h.linkId {
        SameLink(g, h, p.hops[|p.hops| - 1]);
        LastHopLeavesOwnTerritory(g, stations, st.visited, p);
        return p;
      }
      assert Extended(g, st, hist, p);
      r := Path(x, p.hops + [h]);
    }
    assert Known(st, hist, r);
    assert WaveOk(g, stations, st.visited, r);
    assert End(r.hops) == h.nextDev;
  }

  lemma {:induction false} TrailClaimed(g: set<Link>, stations: seq<int>, st: State, hist: History, w: seq<Hop>, k: nat)
    requires DistinctIds(g) && Inv(g, stations, st, hist) && st.queue == []
    requires IsTrail(g, w) && Start(w) in stations && 0 !in stations && k < |w|
    ensures Owner(st.visited, w[k].currDev) != 0
  {
    if k == 0 {
      StationOwnsItself(g, stations, st, hist, w);
    } else {
      TrailClaimed(g, stations, st, hist, w, k - 1);
      if w[k - 1].currDev != w[k - 1].nextDev {
        var r := CrossLink(g, stations, st, hist, w[k - 1]);
      }
    }
  }

  /** A trail that has just crossed the i-th link of w can go on to the end of w on that side. */
  lemma ContinueToEnd(g: set<Link>, u: seq<Hop>, w: seq<Hop>, i: nat) returns (tail: seq<Hop>)
    requires IsTrail(g, u) && IsTrail(g, w) && i < |w|
    requires u[|u| - 1] == w[i] || u[|u| - 1] == w[i].Flip()
    ensures IsTrail(g, u + tail) && Start(u + tail) == Start(u)
    ensures End(u + tail) == End(w) || End(u + tail) == Start(w)
  {
    if u[|u| - 1] == w[i] {
      tail := w[i + 1..];
      if tail != [] {
        TrailConcat(g, u, tail);
      }
    } else {
      tail := Reverse(w[..i]);
      if tail != [] {
        ReverseTrail(g, w[..i]);
        assert tail[0] == w[i - 1].Flip();
        TrailConcat(g, u, tail);
      }
    }
    if tail == [] {
      assert u + tail == u;
    }
  }

  /** Every link on a trail between stations lies on a path that met another station. */
  lemma EveryLinkMeets(g: set<Link>, stations: seq<int>, st: State, hist: History, w: seq<Hop>, i: nat)
    returns (m: Wave)
    requires DistinctIds(g) && NoLoopLinks(g) && 0 !in stations
    requires Inv(g, stations, st, hist) && st.queue == []
    requires IsTrail(g, w) && Start(w) in stations && End(w) in stations && i < |w|
    ensures Meeting(hist, m, w[i].linkId)
  {
    WalkHasNoSelfLoops(g, w);
    TrailClaimed(g, stations, st, hist, w, i);
    var h := w[i];
    var r := CrossLink(g, stations, st, hist, h);
    var k := |r.hops| - 1;
    assert Known(st, hist, r);
    assert WaveOk(g, stations, st.visited, r);
    if r in hist.met {
      m := r;
    } else {
      var tail := ContinueToEnd(g, r.hops, w, i);
      m := MeetsOnTheWay(g, stations, st, hist, r, tail);
    }
    assert m.hops[k] == r.hops[k] && m.hops[k].linkId == h.linkId;
  }

  // ----- exactness -----

  /** Everything recorded lies on a trail between two different end stations. */
  lemma RecordedOnStationTrail(g: set<Link>, stations: seq<int>, st: State, hist: History, w: Wave, i: nat)
    requires DistinctIds(g) && Inv(g, stations, st, hist)
    requires w in hist.met && i < |w.hops|
    ensures OnStationTrail(g, stations, w.hops[i].linkId)
    ensures IsEdgePort(g, stations, w.hops[0].nextDev, w.hops[0].nextPort, w.hops[0].linkId)
  {
    var t := MeetingTrail(g, stations, st, hist, w);
    assert t[i] == w.hops[i] && t[0] == w.hops[0];
  }

  /** A recorded port belongs to the link it is recorded for, and to no other. */
  lemma RecordedPortIsEndpoint(g: set<Link>, stations: seq<int>, st: State, hist: History, w: Wave, i: nat, d: int,
      p: int)
    requires Inv(g, stations, st, hist) && w in hist.met && Records(w.hops, i, d, p)
    ensures exists h :: h in Hops(g) && h.nextDev == d && h.nextPort == p && h.linkId == w.hops[i].linkId
  {
    assert Known(st, hist, w);
    assert WaveOk(g, stations, st.visited, w);
    assert w.hops[i] in Hops(g);
    FlipInHops(g, w.hops[i]);
    var h := if d == w.hops[i].nextDev && p == w.hops[i].nextPort then w.hops[i] else w.hops[i].Flip();
    assert h in Hops(g);
  }

  /** With one link per port, a port that a meeting enters holds that meeting's link. */
  lemma MeetingPortLink(g: set<Link>, stations: seq<int>, st: State, hist: History, w: Wave, i: nat, d: int, p: int)
    requires DistinctPorts(g) && Inv(g, stations, st, hist)
    requires w in hist.met && Records(w.hops, i, d, p)
    ensures PortLink(st.throughPort, d, p, w.hops[i].linkId)
  {
    assert HasPort(st.throughPort, d, p);
    var l := st.throughPort[d][p];
    assert PortLink(st.throughPort, d, p, l);
    assert PortExplained(hist, d, p, l);
    var w', i' :| w' in hist.met && Records(w'.hops, i', d, p) && w'.hops[i'].linkId == l;
    RecordedPortIsEndpoint(g, stations, st, hist, w, i, d, p);
    RecordedPortIsEndpoint(g, stations, st, hist, w', i', d, p);
    var h :| h in Hops(g) && h.nextDev == d && h.nextPort == p && h.linkId == w.hops[i].linkId;
    var h' :| h' in Hops(g) && h'.nextDev == d && h'.nextPort == p && h'.linkId == l;
    FlipInHops(g, h);
    FlipInHops(g, h');
    assert h.Flip().currDev == h'.Flip().currDev && h.Flip().currPort == h'.Flip().currPort;
  }

  /** A link on a trail between two end stations lies on a path that met another station. */
  lemma StationTrailMeets(g: set<Link>, stations: seq<int>, st: State, hist: History, linkId: int)
    returns (m: Wave, j: nat)
    requires DistinctIds(g) && NoLoopLinks(g) && 0 !in stations
    requires Inv(g, stations, st, hist) && st.queue == []
    requires OnStationTrail(g, stations, linkId)
    ensures m in hist.met && WaveOk(g, stations, st.visited, m) && j < |m.hops| && m.hops[j].linkId == linkId
  {
    var w: seq<Hop> :| IsTrail(g, w) && Start(w) in stations && End(w) in stations && Start(w) != End(w)
        && UsesLink(w, linkId);
    var i :| 0 <= i < |w| && w[i].linkId == linkId;
    m := EveryLinkMeets(g, stations, st, hist, w, i);
    j :| 0 <= j < |m.hops| && m.hops[j].linkId == linkId;
    assert Known(st, hist, m);
  }

  lemma RecordedLinkOnStationTrail(g: set<Link>, stations: seq<int>, st: State, hist: History, linkId: int)
    requires DistinctIds(g) && Inv(g, stations, st, hist)
    requires LinkRecorded(st.throughPort, linkId)
    ensures OnStationTrail(g, stations, linkId)
  {
    var d, p :| PortLink(st.throughPort, d, p, linkId);
    assert PortExplained(hist, d, p, linkId);
    var w, i :| w in hist.met && Records(w.hops, i, d, p) && w.hops[i].linkId == linkId;
    RecordedOnStationTrail(g, stations, st, hist, w, i);
  }

  /** The recorded links are exactly those on a trail between two different end stations. */
  lemma ThroughLinksExact(g: set<Link>, stations: seq<int>, st: State, hist: History, linkId: int)
    requires DistinctIds(g) && DistinctPorts(g) && NoLoopLinks(g) && 0 !in stations
    requires Inv(g, stations, st, hist) && st.queue == []
    ensures LinkRecorded(st.throughPort, linkId) <==> OnStationTrail(g, stations, linkId)
  {
    if LinkRecorded(st.throughPort, linkId) {
      RecordedLinkOnStationTrail(g, stations, st, hist, linkId);
    }
    if OnStationTrail(g, stations, linkId) {
      var m, j := StationTrailMeets(g, stations, st, hist, linkId);
      MeetingPortLink(g, stations, st, hist, m, j, m.hops[j].nextDev, m.hops[j].nextPort);
    }
  }

  /** A port that is not an end station's is recorded exactly when its link is on a station trail. */
  lemma SwitchPortsExact(g: set<Link>, stations: seq<int>, st: State, hist: History, h: Hop)
    requires DistinctIds(g) && DistinctPorts(g) && NoLoopLinks(g) && 0 !in stations
    requires Inv(g, stations, st, hist) && st.queue == []
    requires h in Hops(g) && h.nextDev !in stations
    ensures PortLink(st.throughPort, h.nextDev, h.nextPort, h.linkId) <==> OnStationTrail(g, stations, h.linkId)
  {
    if PortLink(st.throughPort, h.nextDev, h.nextPort, h.linkId) {
      assert LinkRecorded(st.throughPort, h.linkId);
      RecordedLinkOnStationTrail(g, stations, st, hist, h.linkId);
    }
    if OnStationTrail(g, stations, h.linkId) {
      var m, j := StationTrailMeets(g, stations, st, hist, h.linkId);
      SameLink(g, h, m.hops[j]);
      assert j == 0 ==> m.hops[0].currDev in stations;
      MeetingPortLink(g, stations, st, hist, m, j, h.nextDev, h.nextPort);
    }
  }

  /** No recorded path passes through its own station again. */
  lemma MetAvoidsOwnStation(g: set<Link>, stations: seq<int>, st: State, hist: History, w: Wave, i: nat)
    requires 0 !in stations && DistinctIds(g) && NoLoopLinks(g) && Inv(g, stations, st, hist) && st.queue == []
    requires w in hist.met && i < |w.hops| - 1
    ensures Owner(st.visited, w.hops[i].nextDev) == w.from != w.hops[i].nextDev
  {
    assert Known(st, hist, w);
    assert WaveOk(g, stations, st.visited, w);
    var parent: Wave := Path(w.from, w.hops[..|w.hops| - 1]);
    PrefixOwn(st, hist, parent, i + 1);
    OwnNeverReturns(g, stations, st, hist, Path(w.from, parent.hops[..i + 1]));
    assert parent.hops[..i + 1][i] == w.hops[i];
  }

  /** A path that enters a station's port in the table arrives there from foreign territory. */
  lemma StationPortForeign(g: set<Link>, stations: seq<int>, st: State, hist: History, h: Hop, w: Wave, i: nat)
    requires 0 !in stations && DistinctIds(g) && NoLoopLinks(g) && Inv(g, stations, st, hist) && st.queue == []
    requires h in Hops(g) && h.nextDev in stations && w in hist.met
    requires Records(w.hops, i, h.nextDev, h.nextPort) && w.hops[i].linkId == h.linkId
    ensures Owner(st.visited, h.currDev) != h.nextDev
  {
    assert Known(st, hist, w);
    assert WaveOk(g, stations, st.visited, w);
    assert Meets(st.visited, w);
    FlipInHops(g, h);
    assert h.Flip().currDev in stations;
    SameLink(g, h, w.hops[i]);
    WalkHasNoSelfLoops(g, [h]);
    assert [h][0].currDev != [h][0].nextDev;
    if w.hops[i] == h {
      if i < |w.hops| - 1 {
        MetAvoidsOwnStation(g, stations, st, hist, w, i);
      } else {
        LastHopLeavesOwnTerritory(g, stations, st.visited, w);
      }
    } else {
      assert w.hops[i - 1].nextDev == h.nextDev;
      MetAvoidsOwnStation(g, stations, st, hist, w, i - 1);
    }
  }

  /** An end station's own port is recorded exactly when the device at the far end of its link
      belongs to another station's territory. */
  lemma StationPortsExact(g: set<Link>, stations: seq<int>, st: State, hist: History, h: Hop)
    requires DistinctIds(g) && DistinctPorts(g) && NoLoopLinks(g) && 0 !in stations
    requires Inv(g, stations, st, hist) && st.queue == []
    requires h in Hops(g) && h.nextDev in stations
    ensures PortLink(st.throughPort, h.nextDev, h.nextPort, h.linkId) <==> Owner(st.visited, h.currDev) != h.nextDev
  {
    if PortLink(st.throughPort, h.nextDev, h.nextPort, h.linkId) {
      assert PortExplained(hist, h.nextDev, h.nextPort, h.linkId);
      var w, i :| w in hist.met && Records(w.hops, i, h.nextDev, h.nextPort) && w.hops[i].linkId == h.linkId;
      StationPortForeign(g, stations, st, hist, h, w, i);
    } else {
      WalkHasNoSelfLoops(g, [h]);
      assert [h][0].currDev != [h][0].nextDev;
      FlipInHops(g, h);
      assert Owner(st.visited, h.nextDev) == h.nextDev by { assert h.Flip().currDev in stations; }
      var back := CrossLink(g, stations, st, hist, h.Flip());
      var r := CrossLink(g, stations, st, hist, h);
      assert Known(st, hist, r);
      assert WaveOk(g, stations, st.visited, r);
      LastHopLeavesOwnTerritory(g, stations, st.visited, r);
      if r in hist.met && r.hops[|r.hops| - 1] == h {
        MeetingPortLink(g, stations, st, hist, r, |r.hops| - 1, h.nextDev, h.nextPort);
      }
    }
  }

  /** The recorded port is an endpoint of a link on a station trail. */
  lemma ThroughPortsSound(g: set<Link>, stations: seq<int>, st: State, hist: History, d: int, p: int, l: int)
    requires DistinctIds(g) && Inv(g, stations, st, hist)
    requires PortLink(st.throughPort, d, p, l)
    ensures OnStationTrail(g, stations, l)
    ensures exists h :: h in Hops(g) && h.nextDev == d && h.nextPort == p && h.linkId == l
  {
    assert PortExplained(hist, d, p, l);
    var w, i :| w in hist.met && Records(w.hops, i, d, p) && w.hops[i].linkId == l;
    RecordedOnStationTrail(g, stations, st, hist, w, i);
    RecordedPortIsEndpoint(g, stations, st, hist, w, i, d, p);
  }

  /** The edge ports are exactly the far ends of the station links that lead to another station. */
  lemma EdgePortsExact(g: set<Link>, stations: seq<int>, st: State, hist: History, d: int, p: int, l: int)
    requires 0 !in stations && DistinctIds(g) && DistinctPorts(g) && NoLoopLinks(g)
    requires Inv(g, stations, st, hist) && st.queue == []
    ensures PortLink(st.edgePort, d, p, l) <==> IsEdgePort(g, stations, d, p, l)
  {
    if PortLink(st.edgePort, d, p, l) {
      assert EdgeExplained(hist, d, p, l);
      var w :| w in hist.met && w.hops[0].nextDev == d && w.hops[0].nextPort == p && w.hops[0].linkId == l;
      RecordedOnStationTrail(g, stations, st, hist, w, 0);
    }
    if IsEdgePort(g, stations, d, p, l) {
      var w: seq<Hop> :| IsTrail(g, w) && Start(w) in stations && End(w) in stations && Start(w) != End(w)
                         && w[0].nextDev == d && w[0].nextPort == p && w[0].linkId == l;
      var m := FirstHopMeets(g, stations, st, hist, w);
      assert HasPort(st.edgePort, d, p);
      var l' := st.edgePort[d][p];
      assert PortLink(st.edgePort, d, p, l');
      assert EdgeExplained(hist, d, p, l');
      var w' :| w' in hist.met && w'.hops[0].nextDev == d && w'.hops[0].nextPort == p && w'.hops[0].linkId == l';
      assert Records(w'.hops, 0, d, p) && Records(m.hops, 0, d, p);
      MeetingPortLink(g, stations, st, hist, w', 0, d, p);
      MeetingPortLink(g, stations, st, hist, m, 0, d, p);
    }
  }
}
