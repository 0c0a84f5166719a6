/**
 The identity strings of a link. They name the link by its two nodes, in a fixed
 order, with whichever ports are known; links are matched by sharing such a string.
 */
module LinkIdentities {
  import opened Text

  datatype DeviceBasic = DeviceBasic(deviceId: string, ip: string, mac: string)

  /** The fields of a link identity, as a value. */
  datatype Fields = Fields(
    fromDevice: DeviceBasic, fromDeviceId: string, toDevice: DeviceBasic, toDeviceId: string,
    fromPort: int, toPort: int,
    useCustomLabel: bool, fromPortLabel: string, toPortLabel: string)

  /** The two ends as the identity strings see them; port 0 is an unknown port. */
  datatype Ends = Ends(fromNode: string, fromPort: int, toNode: string, toPort: int)

  function EndsOf(f: Fields): Ends {
    Ends(f.fromDevice.ip, f.fromPort, f.toDevice.ip, f.toPort)
  }

  function Flipped(e: Ends): Ends {
    Ends(e.toNode, e.toPort, e.fromNode, e.fromPort)
  }

  /** The port labels stay where they are. */
  function Swapped(f: Fields): Fields {
    f.(fromDevice := f.toDevice, toDevice := f.fromDevice,
       fromDeviceId := f.toDeviceId, toDeviceId := f.fromDeviceId,
       fromPort := f.toPort, toPort := f.fromPort)
  }

  /** Lexicographic order of strings. */
  predicate Greater(s: string, t: string) {
    if s == [] then false
    else if t == [] then true
    else if s[0] != t[0] then s[0] > t[0]
    else Greater(s[1..], t[1..])
  }

  function Ordered(e: Ends): Ends {
    if Greater(e.fromNode, e.toNode) then Flipped(e) else e
  }

  function Integer(n: int): string {
    if n < 0 then "-" + Decimal(-n) else Decimal(n)
  }

  function End(node: string, port: int): string {
    if port != 0 then node + ":" + Integer(port) else node
  }

  /** The string for two ends in their fixed order. */
  function Key(fromNode: string, fromPort: int, toNode: string, toPort: int): string {
    End(fromNode, fromPort) + "-" + End(toNode, toPort)
  }

  function ExactIdentity(e: Ends): string {
    var o := Ordered(e);
    Key(o.fromNode, o.fromPort, o.toNode, o.toPort)
  }

  function Identities(e: Ends): seq<string> {
    var o := Ordered(e);
    (if o.fromPort != 0 then [Key(o.fromNode, o.fromPort, o.toNode, 0)] else [])
    + (if o.toPort != 0 then [Key(o.fromNode, 0, o.toNode, o.toPort)] else [])
    + (if o.fromPort != 0 && o.toPort != 0 then [Key(o.fromNode, o.fromPort, o.toNode, o.toPort)] else [])
    + (if o.fromPort == 0 && o.toPort == 0 then [Key(o.fromNode, 0, o.toNode, 0)] else [])
  }

  class LinkIdentity {
    var fromDevice: DeviceBasic
    var fromDeviceId: string
    var toDevice: DeviceBasic
    var toDeviceId: string
    var fromPort: int
    var toPort: int
    var useCustomLabel: bool
    var fromPortLabel: string
    var toPortLabel: string

    function Snapshot(): Fields
      reads this
    {
      Fields(fromDevice, fromDeviceId, toDevice, toDeviceId, fromPort, toPort, useCustomLabel, fromPortLabel,
          toPortLabel)
    }

    constructor (f: Fields)
      ensures Snapshot() == f
    {
      fromDevice, fromDeviceId, toDevice, toDeviceId := f.fromDevice, f.fromDeviceId, f.toDevice, f.toDeviceId;
      fromPort, toPort := f.fromPort, f.toPort;
      useCustomLabel, fromPortLabel, toPortLabel := f.useCustomLabel, f.fromPortLabel, f.toPortLabel;
    }

    method Swap()
      modifies this
      ensures Snapshot() == Swapped(old(Snapshot()))
      ensures fromDevice == old(toDevice) && fromDeviceId == old(toDeviceId) && fromPort == old(toPort)
      ensures toDevice == old(fromDevice) && toDeviceId == old(fromDeviceId) && toPort == old(fromPort)
      ensures unchanged(`useCustomLabel, `fromPortLabel, `toPortLabel)
    {
      fromDevice, toDevice := toDevice, fromDevice;
      fromDeviceId, toDeviceId := toDeviceId, fromDeviceId;
      fromPort, toPort := toPort, fromPort;
    }

    method GetExactIdentity() returns (id: string)
      ensures id == ExactIdentity(EndsOf(Snapshot()))
    {
      var from, to := fromDevice.ip, toDevice.ip;
      var fromPort, toPort := fromPort, toPort;
      if Greater(from, to) {
        from, to := to, from;
        fromPort, toPort := toPort, fromPort;
      }
      if fromPort != 0 {
        from := from + ":" + Integer(fromPort);
      }
      if toPort != 0 {
        to := to + ":" + Integer(toPort);
      }
      return from + "-" + to;
    }

    method GetIdentities() returns (output: seq<string>)
      ensures output == Identities(EndsOf(Snapshot()))
    {
      var fromNode, toNode := fromDevice.ip, toDevice.ip;
      var fromPort, toPort := fromPort, toPort;
      if Greater(fromNode, toNode) {
        fromNode, toNode := toNode, fromNode;
        fromPort, toPort := toPort, fromPort;
      }
      output := [];
      var from, to := fromNode, toNode;
      if fromPort != 0 {
        from := fromNode + ":" + Integer(fromPort);
        output := output + [from + "-" + toNode];
      }
      if toPort != 0 {
        to := toNode + ":" + Integer(toPort);
        output := output + [fromNode + "-" + to];
      }
      if fromPort != 0 && toPort != 0 {
        output := output + [from + "-" + to];
      }
      if fromPort == 0 && toPort == 0 {
        output := output + [fromNode + "-" + toNode];
      }
    }
  }

  // ----- the order of nodes -----

  lemma {:induction false} GreaterTotal(s: string, t: string)
    ensures s == t <==> !Greater(s, t) && !Greater(t, s)
    ensures !(Greater(s, t) && Greater(t, s))
  {
    if s != [] && t != [] {
      GreaterTotal(s[1..], t[1..]);
      assert s == [s[0]] + s[1..] && t == [t[0]] + t[1..];
    }
  }

  /** Later in the order of a dictionary: the first difference decides, and a longer text follows its beginning. */
  ghost predicate Later(s: string, t: string) {
    t < s || exists i :: 0 <= i < |s| && i < |t| && s[..i] == t[..i] && s[i] > t[i]
  }

  lemma {:induction false} GreaterIffLater(s: string, t: string)
    ensures Greater(s, t) <==> Later(s, t)
  {
    if s != [] && t != [] && s[0] == t[0] {
      GreaterIffLater(s[1..], t[1..]);
      if Later(s[1..], t[1..]) && !(t[1..] < s[1..]) {
        var i :| 0 <= i < |s| - 1 && i < |t| - 1 && s[1..][..i] == t[1..][..i] && s[1..][i] > t[1..][i];
        assert s[..i + 1] == [s[0]] + s[1..][..i] && t[..i + 1] == [t[0]] + t[1..][..i];
        assert s[i + 1] > t[i + 1];
      }
      if Later(s, t) && !(t < s) {
        var i :| 0 <= i < |s| && i < |t| && s[..i] == t[..i] && s[i] > t[i];
        assert i > 0;
        assert s[1..][..i - 1] == s[..i][1..] && t[1..][..i - 1] == t[..i][1..];
        assert s[1..][i - 1] > t[1..][i - 1];
      }
    } else if s != [] && t != [] {
      assert s[..0] == t[..0];
    }
  }

  /** The first differing character decides; what comes after it does not. */
  lemma {:induction false} FirstDifferenceDecides(u: string, c: char, v: string, d: char, w: string)
    requires c != d
    ensures Greater(u + [c] + v, u + [d] + w) <==> c > d
  {
    if u != [] {
      FirstDifferenceDecides(u[1..], c, v, d, w);
      assert (u + [c] + v)[1..] == u[1..] + [c] + v && (u + [d] + w)[1..] == u[1..] + [d] + w;
    }
  }

  /** A node as the identity strings print it. */
  ghost predicate Prints(text: string, node: string, port: int) {
    if port == 0 then text == node
    else exists digits: string :: text == node + ":" + digits && Reads(digits, port)
  }

  /** The text is the decimal form of the number, with a minus sign before negative ones. */
  ghost predicate Reads(digits: string, n: int) {
    && digits != []
    && if n < 0 then digits[0] == '-' && ReadDecimal(digits[1..]) == -n
       else digits[0] != '-' && ReadDecimal(digits) == n
  }

  lemma EndPrints(node: string, port: int)
    ensures Prints(End(node, port), node, port)
  {
    if port != 0 {
      DecimalReads(if port < 0 then -port else port);
      var digits := Integer(port);
      assert port < 0 ==> digits[1..] == Decimal(-port);
      assert Reads(digits, port);
      assert End(node, port) == node + ":" + digits;
    }
  }

  /** What the exact identity of a link is: its two nodes, the one that is not later in the dictionary first,
      joined by a dash, each with its port if that is known. */
  lemma ExactIdentityReads(f: Fields) returns (first: string, second: string)
    ensures ExactIdentity(EndsOf(f)) == first + "-" + second
    ensures if Later(f.fromDevice.ip, f.toDevice.ip)
            then Prints(first, f.toDevice.ip, f.toPort) && Prints(second, f.fromDevice.ip, f.fromPort)
            else Prints(first, f.fromDevice.ip, f.fromPort) && Prints(second, f.toDevice.ip, f.toPort)
  {
    var o := Ordered(EndsOf(f));
    GreaterIffLater(f.fromDevice.ip, f.toDevice.ip);
    first, second := End(o.fromNode, o.fromPort), End(o.toNode, o.toPort);
    EndPrints(o.fromNode, o.fromPort);
    EndPrints(o.toNode, o.toPort);
  }

  /** The further identities: with only the first node's port, and with only the second node's port, if known. */
  lemma PartialIdentitiesRead(f: Fields, s: string) returns (first: string, second: string)
    requires s in Identities(EndsOf(f)) && s != ExactIdentity(EndsOf(f))
    ensures s == first + "-" + second
    ensures if Later(f.fromDevice.ip, f.toDevice.ip)
            then || (f.toPort != 0 && Prints(first, f.toDevice.ip, f.toPort) && second == f.fromDevice.ip)
                 || (f.fromPort != 0 && first == f.toDevice.ip && Prints(second, f.fromDevice.ip, f.fromPort))
            else || (f.fromPort != 0 && Prints(first, f.fromDevice.ip, f.fromPort) && second == f.toDevice.ip)
                 || (f.toPort != 0 && first == f.fromDevice.ip && Prints(second, f.toDevice.ip, f.toPort))
  {
    var o := Ordered(EndsOf(f));
    GreaterIffLater(f.fromDevice.ip, f.toDevice.ip);
    EndPrints(o.fromNode, o.fromPort);
    EndPrints(o.toNode, o.toPort);
    if o.fromPort != 0 && s == Key(o.fromNode, o.fromPort, o.toNode, 0) {
      first, second := End(o.fromNode, o.fromPort), o.toNode;
    } else {
      first, second := o.fromNode, End(o.toNode, o.toPort);
    }
  }

  /** Ends that name different nodes are put in the same order from either side. */
  lemma OrderedFlipped(e: Ends)
    requires e.fromNode != e.toNode
    ensures Ordered(Flipped(e)) == Ordered(e)
  {
    GreaterTotal(e.fromNode, e.toNode);
  }

  // ----- reading an identity back -----

  /** No name begins with another one, with or without a port, followed by a dash. */
  ghost predicate Separated(names: set<string>) {
    forall x, y, k: nat :: x in names && y in names ==> !(End(y, k) + "-" <= x)
  }

  /** Some name is another one with a port. */
  ghost predicate ImitatesPort(names: set<string>) {
    exists x, y, k: nat :: x in names && y in names && k > 0 && x == End(y, k)
  }

  /** Ends between these nodes, with no negative ports. */
  ghost predicate Over(names: set<string>, e: Ends) {
    e.fromNode in names && e.toNode in names && e.fromPort >= 0 && e.toPort >= 0
  }

  /** Names without dashes do not run into one another, names without colons imitate no port. */
  lemma PlainNames(names: set<string>)
    ensures (forall x :: x in names ==> '-' !in x) ==> Separated(names)
    ensures (forall x :: x in names ==> ':' !in x) ==> !ImitatesPort(names)
  {
    if forall x :: x in names ==> '-' !in x {
      forall x, y, k: nat | x in names && y in names ensures !(End(y, k) + "-" <= x) {
        assert (End(y, k) + "-")[|End(y, k)|] == '-';
      }
    }
    if forall x :: x in names ==> ':' !in x {
      forall x, y, k: nat | x in names && y in names && k > 0 ensures x != End(y, k) {
        assert End(y, k)[|y|] == ':';
      }
    }
  }

  /** Where the separator does not occur after it, it splits the text in only one way. */
  lemma SplitLast(u: string, v: string, u': string, v': string, c: char)
    requires c !in v && c !in v' && u + [c] + v == u' + [c] + v'
    ensures u == u' && v == v'
  {
    var s := u + [c] + v;
    assert s[|u|] == c && s[|u'|] == c;
    assert forall i :: |u| < i < |s| ==> s[i] == v[i - |u| - 1];
    assert forall i :: |u'| < i < |s| ==> s[i] == v'[i - |u'| - 1];
    assert |u| == |u'|;
    assert u == s[..|u|] && u' == s[..|u|] && v == s[|u| + 1..] && v' == s[|u| + 1..];
  }

  lemma EndInjective(names: set<string>, node: string, port: nat, node': string, port': nat)
    requires !ImitatesPort(names) && node in names && node' in names && End(node, port) == End(node', port')
    ensures node == node' && port == port'
  {
    if port > 0 && port' > 0 {
      assert End(node, port) == node + [':'] + Decimal(port);
      assert End(node', port') == node' + [':'] + Decimal(port');
      SplitLast(node, Decimal(port), node', Decimal(port'), ':');
      DecimalInjective(port, port');
    }
  }

  /** A dash within the text of an end lies within its node's name. */
  lemma DashInName(node: string, port: nat, u: string)
    requires u + "-" <= End(node, port)
    ensures u + "-" <= node
  {
    var s := End(node, port);
    assert s[|u|] == '-';
    if port > 0 {
      assert s == node + ":" + Decimal(port);
      assert forall i :: |node| < i < |s| ==> s[i] == Decimal(port)[i - |node| - 1];
      assert s[..|node|] == node;
    }
  }

  lemma FirstEndsEqual(names: set<string>, x: string, a: nat, v: string, x': string, a': nat, v': string)
    requires Separated(names) && x in names && x' in names && End(x, a) + "-" + v == End(x', a') + "-" + v'
    ensures End(x, a) == End(x', a') && v == v'
  {
    var u, u' := End(x, a), End(x', a');
    var s := u + "-" + v;
    assert s[..|u|] == u && s[..|u'|] == u' && s[|u|] == '-' && s[|u'|] == '-';
    if |u| < |u'| {
      assert u + "-" == s[..|u| + 1] <= u';
      DashInName(x', a', u);
      assert false;
    } else if |u'| < |u| {
      assert u' + "-" == s[..|u'| + 1] <= u;
      DashInName(x, a, u');
      assert false;
    }
    assert v == s[|u| + 1..] && v' == s[|u| + 1..];
  }

  lemma KeyInjective(names: set<string>, x: string, a: nat, y: string, b: nat, x': string, a': nat, y': string, b': nat)
    requires Separated(names) && !ImitatesPort(names)
    requires x in names && y in names && x' in names && y' in names
    ensures Key(x, a, y, b) == Key(x', a', y', b') <==> x == x' && a == a' && y == y' && b == b'
  {
    if Key(x, a, y, b) == Key(x', a', y', b') {
      FirstEndsEqual(names, x, a, End(y, b), x', a', End(y', b'));
      EndInjective(names, x, a, x', a');
      EndInjective(names, y, b, y', b');
    }
  }

  // ----- when two links share an identity -----

  /** Same nodes the same way round, and a known port in common or no known port at all. */
  predicate AgreeAligned(e: Ends, f: Ends) {
    && e.fromNode == f.fromNode && e.toNode == f.toNode
    && (|| (e.fromPort != 0 && e.fromPort == f.fromPort)
        || (e.toPort != 0 && e.toPort == f.toPort)
        || (e.fromPort == 0 && e.toPort == 0 && f.fromPort == 0 && f.toPort == 0))
  }

  /** Links between two different nodes may be written either way round. */
  predicate Agree(e: Ends, f: Ends) {
    AgreeAligned(e, f) || (e.fromNode != e.toNode && AgreeAligned(e, Flipped(f)))
  }

  ghost predicate ShareIdentity(e: Ends, f: Ends) {
    exists s :: s in Identities(e) && s in Identities(f)
  }

  /** The ports that appear in one of the identities. */
  predicate Shows(o: Ends, a: int, b: int) {
    || (a != 0 && b == 0 && a == o.fromPort)
    || (a == 0 && b != 0 && b == o.toPort)
    || (a != 0 && b != 0 && a == o.fromPort && b == o.toPort)
    || (a == 0 && b == 0 && o.fromPort == 0 && o.toPort == 0)
  }

  lemma IdentityMembers(e: Ends, s: string)
    ensures var o := Ordered(e);
            s in Identities(e) <==> exists a, b :: Shows(o, a, b) && s == Key(o.fromNode, a, o.toNode, b)
  {
    var o := Ordered(e);
    assert Shows(o, o.fromPort, o.toPort);
    if o.fromPort != 0 { assert Shows(o, o.fromPort, 0); }
    if o.toPort != 0 { assert Shows(o, 0, o.toPort); }
  }

  lemma ShownPorts(e: Ends, s: string) returns (a: nat, b: nat)
    requires e.fromPort >= 0 && e.toPort >= 0 && Ordered(e) == e && s in Identities(e)
    ensures Shows(e, a, b) && s == Key(e.fromNode, a, e.toNode, b)
  {
    IdentityMembers(e, s);
    var x, y :| Shows(e, x, y) && s == Key(e.fromNode, x, e.toNode, y);
    a, b := x, y;
  }

  lemma ShareImpliesAgree(names: set<string>, e: Ends, f: Ends)
    requires Separated(names) && !ImitatesPort(names) && Over(names, e) && Over(names, f)
    requires Ordered(e) == e && Ordered(f) == f && ShareIdentity(e, f)
    ensures AgreeAligned(e, f)
  {
    var s :| s in Identities(e) && s in Identities(f);
    var a, b := ShownPorts(e, s);
    var a', b' := ShownPorts(f, s);
    KeyInjective(names, e.fromNode, a, e.toNode, b, f.fromNode, a', f.toNode, b');
  }

  lemma AgreeImpliesShare(e: Ends, f: Ends)
    requires Ordered(e) == e && Ordered(f) == f && AgreeAligned(e, f)
    ensures ShareIdentity(e, f)
  {
    var a := if e.fromPort != 0 && e.fromPort == f.fromPort then e.fromPort else 0;
    var b := if a == 0 then e.toPort else 0;
    assert Shows(e, a, b) && Shows(f, a, b);
    IdentityMembers(e, Key(e.fromNode, a, e.toNode, b));
    IdentityMembers(f, Key(e.fromNode, a, e.toNode, b));
  }

  /** Two links share an identity string exactly when they join the same nodes and agree on a
      known port at the same node, or neither has any known port. */
  lemma ShareIffAgree(names: set<string>, e: Ends, f: Ends)
    requires Separated(names) && !ImitatesPort(names) && Over(names, e) && Over(names, f)
    ensures ShareIdentity(e, f) <==> Agree(e, f)
  {
    var o, q := Ordered(e), Ordered(f);
    InOrder(e, f);
    if ShareIdentity(o, q) {
      ShareImpliesAgree(names, o, q);
    }
    if AgreeAligned(o, q) {
      AgreeImpliesShare(o, q);
    }
  }

  lemma InOrder(e: Ends, f: Ends)
    ensures Ordered(Ordered(e)) == Ordered(e) && Identities(Ordered(e)) == Identities(e)
    ensures Ordered(Ordered(f)) == Ordered(f) && Identities(Ordered(f)) == Identities(f)
    ensures Agree(e, f) <==> AgreeAligned(Ordered(e), Ordered(f))
  {
    GreaterTotal(e.fromNode, e.toNode);
    GreaterTotal(f.fromNode, f.toNode);
  }

  lemma {:induction false} PrefixNotGreater(s: string, t: string)
    requires s <= t
    ensures !Greater(s, t)
  {
    if s != [] {
      PrefixNotGreater(s[1..], t[1..]);
    }
  }

  /** A name that is another name with a port makes two links share an identity that join different nodes. */
  lemma ImitationCollides(x: string, y: string, k: nat)
    requires k > 0 && x == End(y, k)
    ensures ShareIdentity(Ends(x, 0, x, 0), Ends(y, k, x, 0)) && !Agree(Ends(x, 0, x, 0), Ends(y, k, x, 0))
  {
    var e, f := Ends(x, 0, x, 0), Ends(y, k, x, 0);
    PrefixNotGreater(y, x);
    PrefixNotGreater(x, x);
    var s := Key(x, 0, x, 0);
    assert s == Key(y, k, x, 0);
    assert s in Identities(e);
    assert s in Identities(f);
  }

  /** Names that run into one another at a dash: one text, split in two ways. */
  lemma DashCollides(x: string, y: string, z: string, u: string, v: string)
    requires u == x + "-" + y && v == y + "-" + z && !Greater(x, v) && !Greater(u, z)
    ensures ShareIdentity(Ends(x, 0, v, 0), Ends(u, 0, z, 0)) && !Agree(Ends(x, 0, v, 0), Ends(u, 0, z, 0))
  {
    PortlessIdentity(x, v);
    PortlessIdentity(u, z);
    assert x + "-" + v == u + "-" + z;
    assert x < u;
    LongerDisagrees(x, v, u, z);
  }

  lemma LongerDisagrees(x: string, v: string, u: string, z: string)
    requires x < u && !Greater(u, z)
    ensures !Agree(Ends(x, 0, v, 0), Ends(u, 0, z, 0))
  {
    PrefixNotGreater(x, u);
    GreaterTotal(x, u);
  }

  lemma PortlessIdentity(x: string, v: string)
    requires !Greater(x, v)
    ensures x + "-" + v in Identities(Ends(x, 0, v, 0))
  {
    assert Key(x, 0, v, 0) in Identities(Ends(x, 0, v, 0));
  }

  /** For exactly which node names the identities tell what they should: between nodes whose names do
      not run into one another at a dash, sharing an identity means agreeing, for all links, if and
      only if no name is another one with a port. */
  lemma IdentitiesTellIff(names: set<string>)
    requires Separated(names)
    ensures (forall e, f :: Over(names, e) && Over(names, f) ==> (ShareIdentity(e, f) <==> Agree(e, f)))
            <==> !ImitatesPort(names)
  {
    if ImitatesPort(names) {
      var x, y, k: nat :| x in names && y in names && k > 0 && x == End(y, k);
      ImitationCollides(x, y, k);
      assert Over(names, Ends(x, 0, x, 0)) && Over(names, Ends(y, k, x, 0));
    } else {
      forall e, f | Over(names, e) && Over(names, f) ensures ShareIdentity(e, f) <==> Agree(e, f) {
        ShareIffAgree(names, e, f);
      }
    }
  }

  // ----- the exact identity -----

  /** The exact identity is the last and most specific of the identities. */
  lemma ExactIsLast(e: Ends)
    ensures Identities(e) != [] && Identities(e)[|Identities(e)| - 1] == ExactIdentity(e)
  {
  }

  /** Equal exact identities mean equal ends, up to the way round. */
  lemma ExactIdentityInjective(names: set<string>, e: Ends, f: Ends)
    requires Separated(names) && !ImitatesPort(names) && Over(names, e) && Over(names, f)
    ensures ExactIdentity(e) == ExactIdentity(f) <==> f == e || (e.fromNode != e.toNode && f == Flipped(e))
  {
    var o, q := Ordered(e), Ordered(f);
    KeyInjective(names, o.fromNode, o.fromPort, o.toNode, o.toPort, q.fromNode, q.fromPort, q.toNode, q.toPort);
    GreaterTotal(e.fromNode, e.toNode);
    GreaterTotal(f.fromNode, f.toNode);
  }

  lemma IntegerInjective(a: int, b: int)
    requires Integer(a) == Integer(b)
    ensures a == b
  {
    assert a < 0 ==> Integer(a)[0] == '-' && Integer(a)[1..] == Decimal(-a);
    assert b < 0 ==> Integer(b)[0] == '-' && Integer(b)[1..] == Decimal(-b);
    assert a >= 0 ==> IsDigit(Integer(a)[0]);
    assert b >= 0 ==> IsDigit(Integer(b)[0]);
    DecimalInjective(if a < 0 then -a else a, if b < 0 then -b else b);
  }

  /** After the name comes a colon, after that a sign or a digit, and after that only digits. */
  lemma NoDashAfterEnd(node: string, port: int, i: nat)
    requires i < |End(node, port)| && (i == |node| || i > |node| + 1)
    ensures End(node, port)[i] != '-'
  {
    assert End(node, port)[i] == if i == |node| then ':' else Integer(port)[i - |node| - 1];
  }

  lemma ShorterEndNoPrefix(node: string, a: int, b: int, v: string, v': string)
    requires End(node, a) + "-" + v == End(node, b) + "-" + v'
    ensures |End(node, a)| >= |End(node, b)|
  {
    var u, u' := End(node, a), End(node, b);
    if |u| < |u'| {
      assert (u + "-" + v)[|u|] == '-' && (u' + "-" + v')[|u|] == u'[|u|];
      assert a != 0 ==> |u| > |node| + 1;
      NoDashAfterEnd(node, b, |u|);
      assert false;
    }
  }

  /** The two ends of a link from a node to itself can be told from the string, whatever the name. */
  lemma SameNodeKey(node: string, a: int, b: int)
    ensures Key(node, a, node, b) == Key(node, b, node, a) <==> a == b
  {
    if Key(node, a, node, b) == Key(node, b, node, a) {
      var u, u' := End(node, a), End(node, b);
      ShorterEndNoPrefix(node, a, b, u', u);
      ShorterEndNoPrefix(node, b, a, u, u');
      assert u == Key(node, a, node, b)[..|u|] && u' == Key(node, b, node, a)[..|u|];
      assert a == 0 <==> |u| == |node|;
      assert b == 0 <==> |u| == |node|;
      if a != 0 {
        assert u[|node| + 1..] == Integer(a) && u'[|node| + 1..] == Integer(b);
        IntegerInjective(a, b);
      }
    }
  }

  /** Swapping a link twice restores it, and swapping it once keeps its exact identity exactly when the
      nodes differ or the ports do not, whatever the names and ports. */
  lemma SwapKeepsIdentityIff(f: Fields)
    ensures Swapped(Swapped(f)) == f
    ensures ExactIdentity(EndsOf(Swapped(f))) == ExactIdentity(EndsOf(f))
            <==> f.fromDevice.ip != f.toDevice.ip || f.fromPort == f.toPort
  {
    var e := EndsOf(f);
    assert EndsOf(Swapped(f)) == Flipped(e);
    if e.fromNode != e.toNode {
      OrderedFlipped(e);
    } else {
      GreaterTotal(e.fromNode, e.toNode);
      SameNodeKey(e.fromNode, e.fromPort, e.toPort);
    }
  }

  /** Without any condition on names and ports: between different nodes Swap changes no identity. */
  lemma SwapKeepsIdentities(f: Fields)
    requires f.fromDevice.ip != f.toDevice.ip
    ensures ExactIdentity(EndsOf(Swapped(f))) == ExactIdentity(EndsOf(f))
    ensures Identities(EndsOf(Swapped(f))) == Identities(EndsOf(f))
  {
    OrderedFlipped(EndsOf(f));
  }
}
