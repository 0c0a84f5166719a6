/**
 Automatic IPv4 assignment: a probe that counts upwards in a wrapping 32-bit counter
 until it finds an address to hand out, and the gateway text derived from it.
 */
module AddressAllocator {
  import opened Text

  const ADDRESS_COUNT := 0x1_0000_0000

  type Address = a: int | 0 <= a < ADDRESS_COUNT

  predicate Eligible(used: set<Address>, a: Address) {
    a !in used && a % 256 != 255 && a != 0
  }

  /** How many steps upwards, wrapping round, lead from one address to another. */
  function Distance(start: Address, a: Address): nat {
    (a - start) % ADDRESS_COUNT
  }

  /** The eligible address that comes first when counting upwards from the start. */
  ghost predicate IsFirstEligible(used: set<Address>, start: Address, a: Address) {
    Eligible(used, a) && forall b: Address :: Eligible(used, b) ==> Distance(start, a) <= Distance(start, b)
  }

  lemma DistanceInjective(start: Address, a: Address, b: Address)
    requires Distance(start, a) == Distance(start, b)
    ensures a == b
  {
  }

  /** There is at most one first eligible address. */
  lemma FirstEligibleUnique(used: set<Address>, start: Address, a: Address, b: Address)
    requires IsFirstEligible(used, start, a) && IsFirstEligible(used, start, b)
    ensures a == b
  {
    DistanceInjective(start, a, b);
  }

  /** The first eligible address is unused, not 0 and does not end in 255, and every address passed over on the
      way up to it is used, 0, or ends in 255. */
  lemma FirstEligibleMeaning(used: set<Address>, start: Address, a: Address)
    requires IsFirstEligible(used, start, a)
    ensures a !in used && a % 256 != 255 && a != 0
    ensures forall b: Address :: (b - start) % 0x1_0000_0000 < (a - start) % 0x1_0000_0000
                                 ==> b in used || b % 256 == 255 || b == 0
  {
    forall b: Address | (b - start) % 0x1_0000_0000 < (a - start) % 0x1_0000_0000
      ensures b in used || b % 256 == 255 || b == 0
    {
      assert Distance(start, b) < Distance(start, a);
      assert !Eligible(used, b);
    }
  }

  lemma NextIsOneFurther(start: Address, a: Address)
    ensures var next := (a + 1) % ADDRESS_COUNT;
            Distance(start, next) == if Distance(start, a) + 1 == ADDRESS_COUNT then 0 else Distance(start, a) + 1
  {
  }

  /** The address probed in the n-th turn. */
  function Probe(start: Address, n: nat): Address {
    (start + n) % ADDRESS_COUNT
  }

  /** The probe comes to an end exactly when an eligible address exists at all. */
  lemma ProbeEndsIff(used: set<Address>, start: Address)
    ensures (exists n: nat :: Eligible(used, Probe(start, n))) <==> exists a: Address :: Eligible(used, a)
  {
    if a: Address :| Eligible(used, a) {
      assert Probe(start, Distance(start, a)) == a;
    }
  }

  // ----- address text -----

  /** The first three octets, as printed. */
  function Subnet(a: Address): string {
    Decimal(a / 0x100_0000) + "." + Decimal(a / 0x1_0000 % 256) + "." + Decimal(a / 256 % 256)
  }

  function DottedQuad(a: Address): string {
    Subnet(a) + "." + Decimal(a % 256)
  }

  /** The text names the four octets of the address, the highest first. */
  lemma QuadReads(a: Address) returns (o1: nat, o2: nat, o3: nat, o4: nat)
    ensures o1 < 256 && o2 < 256 && o3 < 256 && o4 < 256
    ensures a == ((o1 * 256 + o2) * 256 + o3) * 256 + o4
    ensures DottedQuad(a) == Decimal(o1) + "." + Decimal(o2) + "." + Decimal(o3) + "." + Decimal(o4)
    ensures Subnet(a) == Decimal(o1) + "." + Decimal(o2) + "." + Decimal(o3)
  {
    o1, o2, o3, o4 := a / 0x100_0000, a / 0x1_0000 % 256, a / 256 % 256, a % 256;
    OctetsOf(a);
  }

  lemma OctetsOf(a: Address)
    ensures a / 0x100_0000 < 256
    ensures a == ((a / 0x100_0000 * 256 + a / 0x1_0000 % 256) * 256 + a / 256 % 256) * 256 + a % 256
  {
    var q := a / 256;
    var r := q / 256;
    assert a / 0x1_0000 == r;
    assert a / 0x100_0000 == r / 256;
  }

  function LastIndexOf(s: string, c: char): (k: int)
    ensures -1 <= k < |s|
    ensures k >= 0 ==> s[k] == c
    ensures forall i :: k < i < |s| ==> s[i] != c
  {
    if s == [] then -1
    else if s[|s| - 1] == c then |s| - 1
    else LastIndexOf(s[..|s| - 1], c)
  }

  /** Replaces up to n characters from a position on; fewer are replaced at the end of the text. */
  function ReplaceAt(s: string, pos: nat, n: nat, r: string): string
    requires pos <= |s|
  {
    s[..pos] + r + if pos + n <= |s| then s[pos + n..] else []
  }

  datatype Ipv4 = Ipv4(ipAddress: string, subnetMask: string, gateway: string)

  /** The settings filled in for an address text. */
  function AutoAssign(ip: string): Ipv4
    requires LastIndexOf(ip, '.') >= 0
  {
    Ipv4(ip, "255.255.255.0", ReplaceAt(ip, LastIndexOf(ip, '.'), 3, ".254"))
  }

  lemma LastDotOfQuad(a: Address)
    ensures LastIndexOf(DottedQuad(a), '.') == |Subnet(a)|
  {
    var s := DottedQuad(a);
    var k := |Subnet(a)|;
    assert s[k] == '.';
    assert forall i :: k < i < |s| ==> s[i] == Decimal(a % 256)[i - k - 1];
  }

  lemma DecimalLength(n: nat)
    requires n < 1000
    ensures |Decimal(n)| == if n < 10 then 1 else if n < 100 then 2 else 3
    ensures n >= 100 ==> Decimal(n)[2] == Digit(n % 10)
  {
  }

  /** The gateway is the .254 address of the subnet exactly when the last octet has at most two
      digits; a three-digit octet leaves its last digit behind. */
  lemma GatewayIffShortOctet(a: Address)
    ensures LastIndexOf(DottedQuad(a), '.') >= 0
    ensures AutoAssign(DottedQuad(a)).gateway
         == Subnet(a) + ".254" + if a % 256 >= 100 then [Digit(a % 256 % 10)] else []
    ensures AutoAssign(DottedQuad(a)).gateway == Subnet(a) + ".254" <==> a % 256 < 100
  {
    LastDotOfQuad(a);
    var octet := Decimal(a % 256);
    DecimalLength(a % 256);
    var s := DottedQuad(a);
    var k := |Subnet(a)|;
    assert s[..k] == Subnet(a);
    assert |s| == k + 1 + |octet|;
    if a % 256 >= 100 {
      assert s[k + 3..] == [octet[2]];
    } else {
      assert k + 3 >= |s|;
    }
  }

  // ----- the probe -----

  class AddressBook {
    var used: set<Address>
    var lastAssigned: Address

    constructor (used: set<Address>)
      ensures this.used == used
    {
      this.used := used;
      lastAssigned := 0;
    }

    /** The address handed out is not entered as used; that happens when the device is stored. */
    method AutoAssignIP(start: Address) returns (ip: Ipv4)
      requires exists n: nat :: Eligible(used, Probe(start, n))
      modifies this`lastAssigned
      ensures IsFirstEligible(used, start, lastAssigned)
      ensures forall a: Address :: IsFirstEligible(used, start, a) ==> a == lastAssigned
      ensures ip.ipAddress == DottedQuad(lastAssigned) && ip.subnetMask == "255.255.255.0"
      ensures ip.gateway == Subnet(lastAssigned) + ".254"
              + if lastAssigned % 256 >= 100 then [Digit(lastAssigned % 256 % 10)] else []
    {
      ProbeEndsIff(used, start);
      ghost var goal: Address :| Eligible(used, goal);
      var newIp: Address := start;
      while newIp in used || newIp % 256 == 255 || newIp == 0
        invariant forall b: Address :: Distance(start, b) < Distance(start, newIp) ==> !Eligible(used, b)
        decreases Distance(start, goal) - Distance(start, newIp)
      {
        NextIsOneFurther(start, newIp);
        assert !Eligible(used, newIp);
        forall b: Address | Distance(start, b) <= Distance(start, newIp) ensures !Eligible(used, b) {
          if Distance(start, b) == Distance(start, newIp) {
            DistanceInjective(start, b, newIp);
          }
        }
        newIp := (newIp + 1) % ADDRESS_COUNT;
      }
      forall a: Address | IsFirstEligible(used, start, a) ensures a == newIp {
        FirstEligibleUnique(used, start, a, newIp);
      }
      lastAssigned := newIp;
      GatewayIffShortOctet(newIp);
      ip := AutoAssign(DottedQuad(newIp));
    }
  }
}
