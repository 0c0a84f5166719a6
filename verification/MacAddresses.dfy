/**
 MAC addresses as text and as 48-bit integers.
 */
module MacAddresses {
  const MAC_COUNT := 0x1_0000_0000_0000
  const BROADCAST := "FF-FF-FF-FF-FF-FF"

  datatype Status = Ok | BadRequest

  // ----- characters -----

  predicate IsSeparator(c: char) {
    c == ':' || c == '-'
  }

  predicate IsHex(c: char) {
    '0' <= c <= '9' || 'A' <= c <= 'F' || 'a' <= c <= 'f'
  }

  function HexValue(c: char): (v: nat)
    requires IsHex(c)
    ensures v < 16
  {
    if '0' <= c <= '9' then c as int - '0' as int
    else if 'A' <= c <= 'F' then c as int - 'A' as int + 10
    else c as int - 'a' as int + 10
  }

  function HexDigit(v: nat): (c: char)
    requires v < 16
    ensures IsHex(c) && !('a' <= c <= 'f') && HexValue(c) == v
  {
    "0123456789ABCDEF"[v]
  }

  function UpperChar(c: char): char {
    if 'a' <= c <= 'z' then (c as int - 'a' as int + 'A' as int) as char else c
  }

  function ToUpper(s: string): (r: string)
    ensures |r| == |s| && forall i :: 0 <= i < |s| ==> r[i] == UpperChar(s[i])
  {
    seq(|s|, i requires 0 <= i < |s| => UpperChar(s[i]))
  }

  function SpacesToDashes(s: string): (r: string)
    ensures |r| == |s| && forall i :: 0 <= i < |s| ==> r[i] == if s[i] == ' ' then '-' else s[i]
  {
    seq(|s|, i requires 0 <= i < |s| => if s[i] == ' ' then '-' else s[i])
  }

  // ----- parsing -----

  /** The text between the separators; empty parts are kept. */
  function Split(s: string): (parts: seq<string>)
    ensures |parts| > 0
  {
    if s == [] then [""]
    else if IsSeparator(s[0]) then [""] + Split(s[1..])
    else
      var rest := Split(s[1..]);
      [[s[0]] + rest[0]] + rest[1..]
  }

  predicate AllHex(s: string) {
    forall i :: 0 <= i < |s| ==> IsHex(s[i])
  }

  function HexNumber(s: string): nat
    requires AllHex(s)
  {
    if s == [] then 0 else HexNumber(s[..|s| - 1]) * 16 + HexValue(s[|s| - 1])
  }

  predicate IsByte(part: string) {
    part != [] && AllHex(part) && HexNumber(part) <= 255
  }

  function ByteOf(part: string): nat
    requires IsByte(part)
  {
    HexNumber(part)
  }

  function PartValues(parts: seq<string>): (values: seq<nat>)
    requires forall i :: 0 <= i < |parts| ==> IsByte(parts[i])
    ensures |values| == |parts| && forall i :: 0 <= i < |parts| ==> values[i] == ByteOf(parts[i])
  {
    seq(|parts|, i requires 0 <= i < |parts| => ByteOf(parts[i]))
  }

  /** The number with these base-256 digits. */
  function Base256(values: seq<nat>): nat {
    if values == [] then 0 else Base256(values[..|values| - 1]) * 256 + values[|values| - 1]
  }

  predicate IsMacText(s: string) {
    s == [] || (|Split(s)| == 6 && forall i :: 0 <= i < 6 ==> IsByte(Split(s)[i]))
  }

  function MacValue(s: string): nat
    requires IsMacText(s)
  {
    if s == [] then 0 else Base256(PartValues(Split(s)))
  }

  method MacAddressToInt(mac: string) returns (status: Status, result: nat)
    ensures status == Ok <==> IsMacText(mac)
    ensures status == Ok ==> result == MacValue(mac)
  {
    result := 0;
    if |mac| == 0 {
      return Ok, 0;
    }
    var parts := Split(mac);
    if |parts| != 6 {
      return BadRequest, result;
    }
    ghost var values: seq<nat> := [];
    for i := 0 to 6
      invariant |values| == i && forall j :: 0 <= j < i ==> IsByte(parts[j]) && values[j] == ByteOf(parts[j])
      invariant result == Base256(values)
    {
      if !IsByte(parts[i]) {
        return BadRequest, result;
      }
      result := result * 256 + HexNumber(parts[i]);
      assert (values + [HexNumber(parts[i])])[..i] == values;
      values := values + [HexNumber(parts[i])];
    }
    assert values == PartValues(parts);
    return Ok, result;
  }

  // ----- printing -----

  function Hex(n: nat): string {
    if n < 16 then [HexDigit(n)] else Hex(n / 16) + [HexDigit(n % 16)]
  }

  function PadLeft(s: string, width: nat): string
    decreases width - |s|
  {
    if |s| >= width then s else PadLeft("0" + s, width)
  }

  function InsertAt(s: string, pos: nat, c: char): string
    requires pos <= |s|
  {
    s[..pos] + [c] + s[pos..]
  }

  lemma {:induction false} PadLeftLength(s: string, width: nat)
    ensures |PadLeft(s, width)| == if |s| >= width then |s| else width
    decreases width - |s|
  {
    if |s| < width {
      PadLeftLength("0" + s, width);
    }
  }

  function Dashed(s: string): string
    requires |s| >= 12
  {
    InsertAt(InsertAt(InsertAt(InsertAt(InsertAt(s, 2, '-'), 5, '-'), 8, '-'), 11, '-'), 14, '-')
  }

  function MacText(n: nat): string {
    if n == 0 then ""
    else
      PadLeftLength(Hex(n), 12);
      Dashed(PadLeft(Hex(n), 12))
  }

  // ----- numbers as hexadecimal digits -----

  type Nibble = d: int | 0 <= d < 16

  function ValueOf(nibbles: seq<Nibble>): nat {
    if nibbles == [] then 0 else ValueOf(nibbles[..|nibbles| - 1]) * 16 + nibbles[|nibbles| - 1]
  }

  function Digits(nibbles: seq<Nibble>): string {
    seq(|nibbles|, i requires 0 <= i < |nibbles| => HexDigit(nibbles[i]))
  }

  function Pow16(k: nat): nat {
    if k == 0 then 1 else 16 * Pow16(k - 1)
  }

  lemma {:induction false} ToNibbles(n: nat, k: nat) returns (nibbles: seq<Nibble>)
    requires n < Pow16(k)
    ensures |nibbles| == k && ValueOf(nibbles) == n
  {
    if k == 0 {
      nibbles := [];
    } else {
      var q, r := n / 16, n % 16;
      assert q < Pow16(k - 1);
      var init := ToNibbles(q, k - 1);
      nibbles := init + [r];
      assert nibbles[..k - 1] == init;
    }
  }

  lemma HexMore(n: nat, q: nat, r: Nibble)
    requires n == 16 * q + r
    ensures Hex(n) == if q == 0 then [HexDigit(r)] else Hex(q) + [HexDigit(r)]
  {
    assert n / 16 == q && n % 16 == r;
  }

  function Zeros(k: nat): string {
    seq(k, i => '0')
  }

  lemma {:induction false} PadLeftIsZeros(s: string, width: nat)
    requires |s| <= width
    ensures PadLeft(s, width) == Zeros(width - |s|) + s
    decreases width - |s|
  {
    if |s| < width {
      PadLeftIsZeros("0" + s, width);
      assert Zeros(width - |s|) + s == Zeros(width - |s| - 1) + ("0" + s);
    } else {
      assert Zeros(0) + s == s;
    }
  }

  /** One more digit on the right of a padded text. */
  lemma PadMore(high: string, low: char, width: nat)
    requires |high| <= width
    ensures PadLeft(high + [low], width + 1) == PadLeft(high, width) + [low]
  {
    PadLeftIsZeros(high, width);
    PadLeftIsZeros(high + [low], width + 1);
    assert Zeros(width - |high|) + (high + [low]) == Zeros(width - |high|) + high + [low];
  }

  /** One digit after zeros. */
  lemma PadOne(low: char, width: nat)
    ensures PadLeft([low], width + 1) == Zeros(width) + [low]
    ensures width > 0 ==> PadLeft("0", width) == Zeros(width)
  {
    PadLeftIsZeros([low], width + 1);
    if width > 0 {
      PadLeftIsZeros("0", width);
      assert Zeros(width - 1) + "0" == Zeros(width);
    }
  }

  lemma PaddedMore(n: nat, q: nat, r: Nibble, init: string, width: nat)
    requires n == 16 * q + r && |Hex(q)| <= width && init == PadLeft(Hex(q), width)
    ensures |Hex(n)| <= width + 1 && PadLeft(Hex(n), width + 1) == init + [HexDigit(r)]
  {
    HexMore(n, q, r);
    if q == 0 {
      assert Hex(0) == "0";
      PadOne(HexDigit(r), width);
    } else {
      PadMore(Hex(q), HexDigit(r), width);
    }
  }

  /** Padding the hexadecimal digits of a number gives its printed nibbles. */
  lemma {:induction false} PaddedHexIsDigits(nibbles: seq<Nibble>)
    requires nibbles != []
    ensures |Hex(ValueOf(nibbles))| <= |nibbles|
    ensures PadLeft(Hex(ValueOf(nibbles)), |nibbles|) == Digits(nibbles)
  {
    var k := |nibbles| - 1;
    var init, r := nibbles[..k], nibbles[k];
    var n, q := ValueOf(nibbles), ValueOf(init);
    assert n == 16 * q + r;
    assert Digits(nibbles) == Digits(init) + [HexDigit(r)];
    if k == 0 {
      HexMore(n, 0, r);
      PadOne(HexDigit(r), 0);
      assert Digits(init) == Zeros(0);
    } else {
      PaddedHexIsDigits(init);
      PaddedMore(n, q, r, Digits(init), k);
    }
  }

  /** The j-th group of two digits. */
  function Pair(s: string, j: nat): string
    requires 2 * j + 2 <= |s|
  {
    s[2 * j..2 * j + 2]
  }

  /** The first k groups of two digits, separated. */
  function Groups(s: string, c: char, k: nat): string
    requires 2 * k <= |s|
  {
    if k == 0 then ""
    else if k == 1 then Pair(s, 0)
    else Groups(s, c, k - 1) + [c] + Pair(s, k - 1)
  }

  /** Twelve digits in groups of two. */
  function Grouped(s: string, c: char): string
    requires |s| == 12
  {
    Groups(s, c, 6)
  }

  lemma {:induction false} GroupsShape(s: string, c: char, k: nat)
    requires 0 < k && 2 * k <= |s|
    ensures |Groups(s, c, k)| == 3 * k - 1
    ensures forall i :: 0 <= i < 3 * k - 1 ==> Groups(s, c, k)[i] == if i % 3 == 2 then c else s[i / 3 * 2 + i % 3]
  {
    if k > 1 {
      GroupsShape(s, c, k - 1);
    }
  }

  /** One insertion turns the ungrouped rest after k groups into one more group. */
  lemma InsertGroups(s: string, k: nat)
    requires 0 < k && 2 * k + 2 <= |s|
    ensures |Groups(s, '-', k)| == 3 * k - 1
    ensures InsertAt(Groups(s, '-', k) + "-" + s[2 * k..], 3 * k + 2, '-')
         == Groups(s, '-', k + 1) + "-" + s[2 * k + 2..]
  {
    GroupsShape(s, '-', k);
    var g := Groups(s, '-', k);
    assert s[2 * k..] == Pair(s, k) + s[2 * k + 2..];
    var t := g + "-" + s[2 * k..];
    assert t[..3 * k + 2] == g + "-" + Pair(s, k);
    assert t[3 * k + 2..] == s[2 * k + 2..];
  }

  lemma DashedIsGrouped(s: string)
    requires |s| == 12
    ensures Dashed(s) == Grouped(s, '-')
  {
    assert InsertAt(s, 2, '-') == Groups(s, '-', 1) + "-" + s[2..];
    InsertGroups(s, 1);
    InsertGroups(s, 2);
    InsertGroups(s, 3);
    InsertGroups(s, 4);
    assert s[10..] == Pair(s, 5);
  }

  /** A non-zero 48-bit number prints as its twelve digits in dashed groups of two. */
  lemma MacTextIsGrouped(nibbles: seq<Nibble>)
    requires |nibbles| == 12 && ValueOf(nibbles) != 0
    ensures MacText(ValueOf(nibbles)) == Grouped(Digits(nibbles), '-')
  {
    PaddedHexIsDigits(nibbles);
    DashedIsGrouped(Digits(nibbles));
  }

  // ----- reading printed digits back -----

  lemma {:induction false} SplitNoSeparator(u: string)
    requires forall i :: 0 <= i < |u| ==> !IsSeparator(u[i])
    ensures Split(u) == [u]
  {
    if u != [] {
      SplitNoSeparator(u[1..]);
      assert !IsSeparator(u[0]) && [u[0]] + u[1..] == u;
    }
  }

  lemma SplitParts(c: char, a: seq<string>, b: seq<string>)
    requires |a| > 0
    ensures [[c] + (a + b)[0]] + (a + b)[1..] == ([[c] + a[0]] + a[1..]) + b
    ensures [""] + (a + b) == ([""] + a) + b
  {
  }

  lemma SplitAfter(d: char, t: string, v: string, whole: string)
    requires Split(whole) == Split(t) + Split(v)
    ensures Split([d] + whole) == Split([d] + t) + Split(v)
  {
    SplitParts(d, Split(t), Split(v));
  }

  lemma {:induction false} SplitAtSeparator(u: string, c: char, v: string)
    requires IsSeparator(c)
    ensures Split(u + [c] + v) == Split(u) + Split(v)
  {
    if u == [] {
      assert u + [c] + v == [c] + v;
    } else {
      var d, t := u[0], u[1..];
      SplitAtSeparator(t, c, v);
      SplitAfter(d, t, v, t + [c] + v);
      assert u == [d] + t && u + [c] + v == [d] + (t + [c] + v);
    }
  }

  /** Parts with a character between each two of them. */
  function Joined(parts: seq<string>, between: string): string
    requires |parts| == |between| + 1
  {
    var k := |between|;
    if k == 0 then parts[0] else Joined(parts[..k], between[..k - 1]) + [between[k - 1]] + parts[k]
  }

  lemma {:induction false} SplitJoined(parts: seq<string>, between: string)
    requires |parts| == |between| + 1
    requires forall i :: 0 <= i < |between| ==> between[i] == ':' || between[i] == '-'
    requires forall i :: 0 <= i < |parts| ==> ':' !in parts[i] && '-' !in parts[i]
    ensures Split(Joined(parts, between)) == parts
  {
    var k := |between|;
    SplitNoSeparator(parts[k]);
    if k > 0 {
      SplitJoined(parts[..k], between[..k - 1]);
      SplitAtSeparator(Joined(parts[..k], between[..k - 1]), between[k - 1], parts[k]);
    }
  }

  /** Which texts of six parts parse: those whose parts are hexadecimal numbers of at most 255. */
  lemma SixPartsParse(parts: seq<string>, between: string)
    requires |parts| == 6 && |between| == 5
    requires forall i :: 0 <= i < 5 ==> between[i] == ':' || between[i] == '-'
    requires forall i :: 0 <= i < 6 ==> ':' !in parts[i] && '-' !in parts[i]
    ensures IsMacText(Joined(parts, between))
            <==> forall i :: 0 <= i < 6 ==> parts[i] != [] && AllHex(parts[i]) && HexNumber(parts[i]) <= 255
  {
    SplitJoined(parts, between);
    assert |Joined(parts, between)| >= 1;
    assert forall i :: 0 <= i < 6 ==>
             (IsByte(parts[i]) <==> parts[i] != [] && AllHex(parts[i]) && HexNumber(parts[i]) <= 255);
  }

  /** And to what: the first part is the highest byte. */
  lemma SixPartsValue(parts: seq<string>, between: string, v: seq<nat>)
    requires |parts| == 6 && |between| == 5 && |v| == 6
    requires forall i :: 0 <= i < 5 ==> between[i] == ':' || between[i] == '-'
    requires forall i :: 0 <= i < 6 ==> ':' !in parts[i] && '-' !in parts[i]
    requires forall i :: 0 <= i < 6 ==> parts[i] != [] && AllHex(parts[i]) && HexNumber(parts[i]) == v[i] <= 255
    ensures IsMacText(Joined(parts, between))
    ensures MacValue(Joined(parts, between))
         == ((((v[0] * 256 + v[1]) * 256 + v[2]) * 256 + v[3]) * 256 + v[4]) * 256 + v[5]
  {
    SplitJoined(parts, between);
    SixPartsParse(parts, between);
    assert |Joined(parts, between)| >= 1;
    assert PartValues(parts) == v;
    SixBytes(v);
  }

  lemma SixBytes(v: seq<nat>)
    requires |v| == 6
    ensures Base256(v) == ((((v[0] * 256 + v[1]) * 256 + v[2]) * 256 + v[3]) * 256 + v[4]) * 256 + v[5]
  {
    assert v[..5][..4] == v[..4] && v[..4][..3] == v[..3] && v[..3][..2] == v[..2];
    assert v[..2][..1] == v[..1] && v[..1][..0] == [];
    assert Base256(v[..1]) == v[0] && Base256(v[..2]) == v[0] * 256 + v[1];
    assert Base256(v[..3]) == Base256(v[..2]) * 256 + v[2] && Base256(v[..4]) == Base256(v[..3]) * 256 + v[3];
    assert Base256(v[..5]) == Base256(v[..4]) * 256 + v[4];
  }

  /** A text of hexadecimal digits, in letters of either case, reads as the number with these digits. */
  lemma {:induction false} HexReads(part: string, digits: seq<Nibble>)
    requires |part| == |digits|
    requires forall i :: 0 <= i < |part| ==>
               part[i] == "0123456789abcdef"[digits[i]] || part[i] == "0123456789ABCDEF"[digits[i]]
    ensures AllHex(part) && HexNumber(part) == ValueOf(digits)
  {
    if part != [] {
      var k := |part| - 1;
      HexReads(part[..k], digits[..k]);
      HexTable(digits[k]);
    }
  }

  lemma HexTable(d: Nibble)
    ensures IsHex("0123456789abcdef"[d]) && HexValue("0123456789abcdef"[d]) == d
    ensures IsHex("0123456789ABCDEF"[d]) && HexValue("0123456789ABCDEF"[d]) == d
  {
  }

  predicate ArePairs(parts: seq<string>, s: string) {
    2 * |parts| <= |s| && forall j :: 0 <= j < |parts| ==> parts[j] == Pair(s, j)
  }

  lemma {:induction false} SplitGroups(s: string, c: char, k: nat)
    requires 0 < k && 2 * k <= |s| && AllHex(s) && IsSeparator(c)
    ensures |Split(Groups(s, c, k))| == k && ArePairs(Split(Groups(s, c, k)), s)
  {
    SplitNoSeparator(Pair(s, k - 1));
    if k > 1 {
      var g := Groups(s, c, k - 1);
      SplitGroups(s, c, k - 1);
      SplitAtSeparator(g, c, Pair(s, k - 1));
      assert Split(Groups(s, c, k)) == Split(g) + [Pair(s, k - 1)];
    }
  }

  function PairValue(high: nat, low: nat): nat {
    16 * high + low
  }

  lemma TwoDigits(t: string, a: Nibble, b: Nibble)
    requires t == [HexDigit(a), HexDigit(b)]
    ensures IsByte(t) && HexNumber(t) == PairValue(a, b)
  {
    assert t[..1] == [HexDigit(a)] && t[..1][..0] == [];
    assert HexNumber(t[..1]) == HexNumber([]) * 16 + a;
  }

  lemma PairOfDigits(nibbles: seq<Nibble>, j: nat)
    requires 2 * j + 2 <= |nibbles|
    ensures IsByte(Pair(Digits(nibbles), j))
    ensures HexNumber(Pair(Digits(nibbles), j)) == PairValue(nibbles[2 * j], nibbles[2 * j + 1])
  {
    TwoDigits(Pair(Digits(nibbles), j), nibbles[2 * j], nibbles[2 * j + 1]);
  }

  lemma ValueOfTwoMore(nibbles: seq<Nibble>, k: nat)
    requires |nibbles| == k + 2
    ensures ValueOf(nibbles) == ValueOf(nibbles[..k]) * 256 + PairValue(nibbles[k], nibbles[k + 1])
  {
    assert nibbles[..k + 1][..k] == nibbles[..k];
  }

  lemma PairsAreBytes(parts: seq<string>, nibbles: seq<Nibble>)
    requires ArePairs(parts, Digits(nibbles))
    ensures forall i :: 0 <= i < |parts| ==>
              IsByte(parts[i]) && ByteOf(parts[i]) == PairValue(nibbles[2 * i], nibbles[2 * i + 1])
  {
    forall i | 0 <= i < |parts|
      ensures IsByte(parts[i]) && ByteOf(parts[i]) == PairValue(nibbles[2 * i], nibbles[2 * i + 1])
    {
      PairOfDigits(nibbles, i);
    }
  }

  /** Digits taken two at a time are base-256 digits. */
  lemma {:induction false} PairsValue(values: seq<nat>, nibbles: seq<Nibble>)
    requires |nibbles| == 2 * |values|
    requires forall j :: 0 <= j < |values| ==> values[j] == PairValue(nibbles[2 * j], nibbles[2 * j + 1])
    ensures Base256(values) == ValueOf(nibbles)
  {
    if values != [] {
      var k := |values| - 1;
      PairsValue(values[..k], nibbles[..2 * k]);
      ValueOfTwoMore(nibbles, 2 * k);
    }
  }

  /** Twelve digits in groups parse to their value, whichever separator is used. */
  lemma GroupedParses(nibbles: seq<Nibble>, c: char)
    requires |nibbles| == 12 && IsSeparator(c)
    ensures var t := Grouped(Digits(nibbles), c);
            IsMacText(t) && t != [] && MacValue(t) == ValueOf(nibbles)
  {
    var parts := Split(Grouped(Digits(nibbles), c));
    SplitGroups(Digits(nibbles), c, 6);
    PairsAreBytes(parts, nibbles);
    PairsValue(PartValues(parts), nibbles);
  }

  lemma {:induction false} Base256Bounded(values: seq<nat>)
    requires forall i :: 0 <= i < |values| ==> values[i] <= 255
    ensures Base256(values) < Pow16(2 * |values|)
  {
    if values != [] {
      var k := |values| - 1;
      Base256Bounded(values[..k]);
      assert Pow16(2 * k + 2) == 16 * Pow16(2 * k + 1) == 256 * Pow16(2 * k);
    }
  }

  lemma MacValueBounded(s: string)
    requires IsMacText(s)
    ensures MacValue(s) < MAC_COUNT
  {
    if s != [] {
      Base256Bounded(PartValues(Split(s)));
      assert Pow16(12) == MAC_COUNT;
    }
  }

  lemma TwelveNibbles(n: nat) returns (nibbles: seq<Nibble>)
    requires n < MAC_COUNT
    ensures |nibbles| == 12 && ValueOf(nibbles) == n
  {
    assert Pow16(12) == MAC_COUNT;
    nibbles := ToNibbles(n, 12);
  }

  /** Printing and parsing give the number back exactly for the 48-bit numbers. */
  lemma RoundTripIff48Bits(n: nat)
    ensures (IsMacText(MacText(n)) && MacValue(MacText(n)) == n) <==> n < MAC_COUNT
  {
    if IsMacText(MacText(n)) {
      MacValueBounded(MacText(n));
    }
    if 0 < n < MAC_COUNT {
      var nibbles := TwelveNibbles(n);
      MacTextIsGrouped(nibbles);
      GroupedParses(nibbles, '-');
    }
  }

  // ----- checking -----

  /** Six groups of one or two hexadecimal digits at the start of the text. */
  predicate StartsWithGroups(s: string, k: nat) {
    if k == 0 then |s| >= 1 && IsHex(s[0])
    else
      || (|s| >= 2 && IsHex(s[0]) && IsSeparator(s[1]) && StartsWithGroups(s[2..], k - 1))
      || (|s| >= 3 && IsHex(s[0]) && IsHex(s[1]) && IsSeparator(s[2]) && StartsWithGroups(s[3..], k - 1))
  }

  /** The unanchored pattern: six groups somewhere, or a hexadecimal digit at the very end. */
  predicate MatchesPattern(s: string) {
    || (exists i :: 0 <= i <= |s| && StartsWithGroups(s[i..], 5))
    || (|s| >= 1 && IsHex(s[|s| - 1]))
  }

  predicate Acceptable(s: string) {
    s == [] || (IsMacText(s) && MacValue(s) != 0 && s != BROADCAST)
  }

  lemma {:induction false} LastPartEndsText(s: string)
    requires s != []
    ensures var parts := Split(s);
            parts[|parts| - 1] != [] ==> parts[|parts| - 1][|parts[|parts| - 1]| - 1] == s[|s| - 1]
  {
    if |s| > 1 {
      LastPartEndsText(s[1..]);
    }
  }

  /** Every text that parses passes the pattern, so the pattern never decides. */
  lemma MacTextMatchesPattern(s: string)
    requires s != [] && IsMacText(s)
    ensures MatchesPattern(s)
  {
    LastPartEndsText(s);
    var last := Split(s)[5];
    assert IsHex(last[|last| - 1]);
  }

  method CheckMacAddress(mac: string) returns (status: Status)
    ensures status == Ok <==> Acceptable(mac)
    ensures status == Ok
            <==> mac == "" || (IsMacText(mac) && MacValue(mac) != 0 && mac != "FF-FF-FF-FF-FF-FF")
  {
    if |mac| == 0 {
      return Ok;
    }
    if !MatchesPattern(mac) {
      if IsMacText(mac) { MacTextMatchesPattern(mac); }
      return BadRequest;
    }
    var parsed, macInt := MacAddressToInt(mac);
    if parsed != Ok {
      return parsed;
    }
    if macInt == 0 || mac == BROADCAST {
      return BadRequest;
    }
    return Ok;
  }

  // ----- chassis ids -----

  function Normalized(chassisId: string): string {
    ToUpper(SpacesToDashes(chassisId))
  }

  /** Blanks become dashes, small letters capitals, and all else stays. */
  lemma NormalizedReads(chassisId: string, i: nat)
    requires i < |chassisId|
    ensures |Normalized(chassisId)| == |chassisId|
    ensures chassisId[i] == ' ' ==> Normalized(chassisId)[i] == '-'
    ensures 'a' <= chassisId[i] <= 'z' ==> Normalized(chassisId)[i] as int == chassisId[i] as int - 32
    ensures chassisId[i] != ' ' && !('a' <= chassisId[i] <= 'z') ==> Normalized(chassisId)[i] == chassisId[i]
  {
  }

  method TransferChassisIdToMacFormat(chassisId: string) returns (status: Status, result: string)
    ensures status == Ok <==> Acceptable(Normalized(chassisId))
    ensures result == if status == Ok then MacText(MacValue(Normalized(chassisId))) else ""
  {
    result := "";
    var mac := ToUpper(SpacesToDashes(chassisId));
    status := CheckMacAddress(mac);
    if status != Ok {
      return;
    }
    var _, macInt := MacAddressToInt(mac);
    result := IntToMacAddress(macInt);
  }

  predicate IsUpperHex(c: char) {
    '0' <= c <= '9' || 'A' <= c <= 'F'
  }

  /** Six groups of two uppercase digits, separated by dashes. */
  predicate IsCanonical(t: string) {
    |t| == 17 && forall i :: 0 <= i < 17 ==> if i % 3 == 2 then t[i] == '-' else IsUpperHex(t[i])
  }

  /** The digits of a grouped text. */
  function Ungrouped(t: string): string
    requires |t| == 17
  {
    seq(12, i requires 0 <= i < 12 => t[i / 2 * 3 + i % 2])
  }

  lemma RegroupCanonical(t: string)
    requires IsCanonical(t)
    ensures Grouped(Ungrouped(t), '-') == t
    ensures forall i :: 0 <= i < 12 ==> IsUpperHex(Ungrouped(t)[i])
  {
    GroupsShape(Ungrouped(t), '-', 6);
  }

  lemma UpperHexIsDigits(s: string) returns (nibbles: seq<Nibble>)
    requires forall i :: 0 <= i < |s| ==> IsUpperHex(s[i])
    ensures |nibbles| == |s| && Digits(nibbles) == s
  {
    nibbles := seq(|s|, i requires 0 <= i < |s| => HexValue(s[i]));
    assert forall i :: 0 <= i < |s| ==> HexDigit(HexValue(s[i])) == s[i];
  }

  /** The canonical texts are exactly the printed numbers: each non-zero value has one. */
  lemma CanonicalFormUnique(t: string)
    requires IsCanonical(t)
    ensures IsMacText(t) && MacValue(t) < MAC_COUNT
    ensures MacValue(t) != 0 ==> MacText(MacValue(t)) == t
  {
    RegroupCanonical(t);
    var nibbles := UpperHexIsDigits(Ungrouped(t));
    GroupedParses(nibbles, '-');
    MacValueBounded(t);
    if MacValue(t) != 0 {
      MacTextIsGrouped(nibbles);
    }
  }

  lemma DigitsCanonical(nibbles: seq<Nibble>)
    requires |nibbles| == 12
    ensures IsCanonical(Grouped(Digits(nibbles), '-'))
  {
    GroupsShape(Digits(nibbles), '-', 6);
  }

  /** A non-zero 48-bit number prints in the canonical form of its value. */
  lemma PrintedIsCanonical(n: nat)
    requires 0 < n < MAC_COUNT
    ensures IsCanonical(MacText(n)) && IsMacText(MacText(n)) && MacValue(MacText(n)) == n
  {
    var nibbles := TwelveNibbles(n);
    MacTextIsGrouped(nibbles);
    DigitsCanonical(nibbles);
    RoundTripIff48Bits(n);
  }

  method IntToMacAddress(n: nat) returns (result: string)
    ensures n == 0 <==> result == ""
    ensures 0 < n < MAC_COUNT ==> IsCanonical(result) && IsMacText(result) && MacValue(result) == n
    ensures result == MacText(n)
  {
    result := "";
    if n == 0 {
      return;
    }
    result := PadLeft(Hex(n), 12);
    PadLeftLength(Hex(n), 12);
    result := InsertAt(result, 2, '-');
    result := InsertAt(result, 5, '-');
    result := InsertAt(result, 8, '-');
    result := InsertAt(result, 11, '-');
    result := InsertAt(result, 14, '-');
    if n < MAC_COUNT {
      PrintedIsCanonical(n);
    }
  }

  lemma CanonicalIsNormal(t: string)
    requires IsCanonical(t)
    ensures Normalized(t) == t
  {
    assert forall i :: 0 <= i < 17 ==> Normalized(t)[i] == t[i];
  }

  // ----- the broadcast address -----

  function AllOnes(k: nat): seq<Nibble> {
    seq(k, i => 15)
  }

  lemma {:induction false} AllOnesValue(k: nat)
    ensures ValueOf(AllOnes(k)) + 1 == Pow16(k)
  {
    if k > 0 {
      AllOnesValue(k - 1);
      assert AllOnes(k)[..k - 1] == AllOnes(k - 1);
    }
  }

  /** The broadcast address with the given separator. */
  function Broadcast(c: char): string {
    Grouped(Digits(AllOnes(12)), c)
  }

  lemma BroadcastValue(c: char)
    requires IsSeparator(c)
    ensures IsMacText(Broadcast(c)) && Broadcast(c) != [] && MacValue(Broadcast(c)) == MAC_COUNT - 1
  {
    AllOnesValue(12);
    assert Pow16(12) == MAC_COUNT;
    GroupedParses(AllOnes(12), c);
  }

  lemma BroadcastSpelling()
    ensures BROADCAST == Broadcast('-')
  {
    GroupsShape(Digits(AllOnes(12)), '-', 6);
    assert HexDigit(15) == 'F';
    assert forall i :: 0 <= i < 17 ==> BROADCAST[i] == if i % 3 == 2 then '-' else 'F';
  }

  lemma BroadcastText()
    ensures BROADCAST == Broadcast('-') && MacText(MAC_COUNT - 1) == BROADCAST
  {
    BroadcastSpelling();
    AllOnesValue(12);
    assert Pow16(12) == MAC_COUNT;
    MacTextIsGrouped(AllOnes(12));
  }

  lemma PrintsAsBroadcastIff(n: nat)
    requires n < MAC_COUNT
    ensures MacText(n) == BROADCAST <==> n == MAC_COUNT - 1
  {
    BroadcastText();
    RoundTripIff48Bits(n);
    RoundTripIff48Bits(MAC_COUNT - 1);
  }

  /** Of all the texts that stand for the broadcast address, one single spelling is refused. */
  lemma BroadcastRefusedIff(s: string)
    requires IsMacText(s) && MacValue(s) == MAC_COUNT - 1
    ensures !Acceptable(s) <==> s == BROADCAST
  {
  }

  /** Another spelling, with colons, is also left alone by the normalisation of chassis ids, and so accepted. */
  lemma ColonBroadcastAccepted()
    ensures Normalized(Broadcast(':')) == Broadcast(':') && Acceptable(Broadcast(':'))
    ensures MacValue(Broadcast(':')) == MAC_COUNT - 1
    ensures Normalized(Broadcast('-')) == Broadcast('-') && !Acceptable(Broadcast('-'))
  {
    BroadcastValue(':');
    BroadcastText();
    DigitsCanonical(AllOnes(12));
    CanonicalIsNormal(Broadcast('-'));
    ColonSpelling();
  }

  lemma ColonSpelling()
    ensures Normalized(Broadcast(':')) == Broadcast(':') != Broadcast('-')
  {
    var t := Broadcast(':');
    GroupsShape(Digits(AllOnes(12)), ':', 6);
    GroupsShape(Digits(AllOnes(12)), '-', 6);
    assert t[2] == ':' && Broadcast('-')[2] == '-';
    assert forall i :: 0 <= i < 17 ==> Normalized(t)[i] == t[i];
  }

  // ----- the transfer as a whole -----

  /** An accepted chassis id is turned into the canonical text of its value; turning that text
      again gives it back, except that the broadcast value is then refused. */
  lemma TransferIsCanonical(chassisId: string)
    requires Acceptable(Normalized(chassisId)) && chassisId != []
    ensures var t := MacText(MacValue(Normalized(chassisId)));
            && IsCanonical(t)
            && Normalized(t) == t
            && IsMacText(t) && MacText(MacValue(t)) == t
            && (Acceptable(t) <==> MacValue(Normalized(chassisId)) != MAC_COUNT - 1)
  {
    var n := MacValue(Normalized(chassisId));
    assert |Normalized(chassisId)| == |chassisId|;
    MacValueBounded(Normalized(chassisId));
    PrintedIsCanonical(n);
    CanonicalIsNormal(MacText(n));
    PrintsAsBroadcastIff(n);
  }
}
