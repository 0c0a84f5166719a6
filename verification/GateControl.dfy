/**
 Translating a time-aware shaper schedule into gate control lists: each slot's open
 queues become a gate state value, one bit a queue, and the slot intervals add up to
 the cycle time (section 8.6.8.4 of IEEE 802.1Q).
 */
module GateControl {
  import opened Text
  import opened Collections

  datatype GateEntry = GateEntry(slot: int, interval: real, openQueues: seq<int>)

  datatype PortShaper = PortShaper(portId: int, enable: bool, gateControlList: seq<GateEntry>)

  datatype AdminControl = AdminControl(index: int, operationName: string, gateStates: int, timeInterval: int)

  datatype GateParameters = GateParameters(
    controlList: seq<AdminControl>, controlListLength: int,
    cycleNumerator: int, cycleDenominator: int, configChange: bool, gateEnabled: bool)

  datatype InterfaceGate = InterfaceGate(interfaceId: int, parameters: GateParameters)

  datatype GclTable = GclTable(deviceId: int, interfaces: seq<InterfaceGate>)

  function Pow2(k: nat): nat {
    if k == 0 then 1 else 2 * Pow2(k - 1)
  }

  /** Microseconds to whole nanoseconds, truncated towards zero. */
  function Nanoseconds(interval: real): (n: int)
    ensures interval >= 0.0 ==> n as real <= interval * 1000.0 < n as real + 1.0
    ensures interval < 0.0 ==> n as real - 1.0 < interval * 1000.0 <= n as real
  {
    var ns := interval * 1000.0;
    if ns >= 0.0 then ns.Floor else -(-ns).Floor
  }

  // ----- 64-bit integers -----

  const WORD := 0x1_0000_0000_0000_0000

  /** Wrap-around to a signed 64-bit integer. */
  function Int64(x: int): (r: int)
    ensures -(WORD / 2) <= r < WORD / 2
  {
    (x + WORD / 2) % WORD - WORD / 2
  }

  /** The integer's 64 bits, read as a number. */
  function Bits64(x: int): nat {
    x % WORD
  }

  /** One shifted left; a bit shifted out of the word is lost. */
  function ShiftOne(queue: nat): int {
    if queue >= 64 then 0 else Int64(Pow2(queue))
  }

  // ----- one schedule -----

  predicate NonNegative(queues: seq<int>) {
    forall i :: 0 <= i < |queues| ==> queues[i] >= 0
  }

  function GateStates(queues: seq<int>): (r: int)
    requires NonNegative(queues)
    ensures -(WORD / 2) <= r < WORD / 2
  {
    if queues == [] then 0 else Int64(GateStates(queues[..|queues| - 1]) + ShiftOne(queues[|queues| - 1]))
  }

  function SumIntervals(list: seq<AdminControl>): int {
    if list == [] then 0 else SumIntervals(list[..|list| - 1]) + list[|list| - 1].timeInterval
  }

  /** The sum is taken over all entries, each once. */
  lemma {:induction false} SumIntervalsAppend(a: seq<AdminControl>, b: seq<AdminControl>)
    ensures SumIntervals(a + b) == SumIntervals(a) + SumIntervals(b)
    ensures |b| == 1 ==> SumIntervals(b) == b[0].timeInterval
  {
    if b == [] {
      assert a + b == a;
    } else {
      var k := |b| - 1;
      assert (a + b)[..|a| + k] == a + b[..k];
      SumIntervalsAppend(a, b[..k]);
    }
  }

  /** A negative queue number makes the shift panic. */
  ghost predicate QueuesOk(list: seq<GateEntry>) {
    forall i :: 0 <= i < |list| ==> NonNegative(list[i].openQueues)
  }

  /** One port's parameters say what its schedule says. */
  ghost predicate Translates(p: PortShaper, out: InterfaceGate)
    requires QueuesOk(p.gateControlList)
  {
    var gcl, list := p.gateControlList, out.parameters.controlList;
    && out.interfaceId == p.portId && out.parameters.gateEnabled == p.enable && out.parameters.configChange
    && |list| == |gcl| == out.parameters.controlListLength
    && (forall i :: 0 <= i < |gcl| ==>
          list[i] == AdminControl(gcl[i].slot, "set-gate-states", GateStates(gcl[i].openQueues),
              Nanoseconds(gcl[i].interval)))
    && out.parameters.cycleNumerator == Int64(SumIntervals(list))
    && out.parameters.cycleDenominator == 1000000000
  }

  /** What is emitted for one slot and for the whole cycle, field by field. */
  lemma EmittedSlot(p: PortShaper, out: InterfaceGate, i: nat)
    requires QueuesOk(p.gateControlList) && Translates(p, out) && i < |p.gateControlList|
    ensures var slot, all := p.gateControlList[i], out.parameters;
            && |all.controlList| == |p.gateControlList| == all.controlListLength
            && all.controlList[i].index == slot.slot && all.controlList[i].operationName == "set-gate-states"
            && (slot.interval >= 0.0 ==> var n := all.controlList[i].timeInterval;
                                         n as real <= slot.interval * 1000.0 < n as real + 1.0)
            && (slot.interval < 0.0 ==> var n := all.controlList[i].timeInterval;
                                        n as real - 1.0 < slot.interval * 1000.0 <= n as real)
            && (all.cycleNumerator - SumIntervals(all.controlList)) % 0x1_0000_0000_0000_0000 == 0
            && -0x8000_0000_0000_0000 <= all.cycleNumerator < 0x8000_0000_0000_0000
            && all.cycleDenominator == 1000000000
            && all.gateEnabled == p.enable && all.configChange && out.interfaceId == p.portId
    ensures forall k: int :: p.gateControlList[i].interval == k as real
                             ==> out.parameters.controlList[i].timeInterval == 1000 * k
  {
    forall k: int | p.gateControlList[i].interval == k as real
      ensures out.parameters.controlList[i].timeInterval == 1000 * k
    {
      assert (k as real) * 1000.0 == (1000 * k) as real;
    }
    assert (Int64(SumIntervals(out.parameters.controlList)) - SumIntervals(out.parameters.controlList)) % WORD == 0;
  }

  method MapGateStates(queues: seq<int>) returns (value: int)
    requires NonNegative(queues)
    ensures value == GateStates(queues)
  {
    value := 0;
    for i := 0 to |queues|
      invariant value == GateStates(queues[..i])
    {
      assert queues[..i + 1][..i] == queues[..i];
      value := Int64(value + ShiftOne(queues[i]));
    }
    assert queues[..|queues|] == queues;
  }

  method MapPort(p: PortShaper) returns (out: InterfaceGate)
    requires QueuesOk(p.gateControlList)
    ensures Translates(p, out)
  {
    var gcl := p.gateControlList;
    var list: seq<AdminControl> := [];
    var cycleTime := 0;
    for i := 0 to |gcl|
      invariant |list| == i
      invariant forall j :: 0 <= j < i ==>
                  list[j] == AdminControl(gcl[j].slot, "set-gate-states", GateStates(gcl[j].openQueues),
                      Nanoseconds(gcl[j].interval))
      invariant cycleTime == Int64(SumIntervals(list))
    {
      cycleTime := Int64(cycleTime + Nanoseconds(gcl[i].interval));
      var states := MapGateStates(gcl[i].openQueues);
      ghost var before := list;
      list := list + [AdminControl(gcl[i].slot, "set-gate-states", states, Nanoseconds(gcl[i].interval))];
      assert list[..i] == before;
    }
    out := InterfaceGate(p.portId, GateParameters(list, |list|, cycleTime, 1000000000, true, p.enable));
  }

  method MapGclSetting(deviceId: int, shaper: Option<seq<PortShaper>>) returns (table: Option<GclTable>)
    requires shaper.Some? ==> forall i :: 0 <= i < |shaper.value| ==> QueuesOk(shaper.value[i].gateControlList)
    ensures table.None? <==> shaper.None?
    ensures table.Some? ==>
              && table.value.deviceId == deviceId
              && |table.value.interfaces| == |shaper.value|
              && forall i :: 0 <= i < |shaper.value| ==> Translates(shaper.value[i], table.value.interfaces[i])
  {
    if shaper.None? {
      return None;
    }
    var interfaces: seq<InterfaceGate> := [];
    for i := 0 to |shaper.value|
      invariant |interfaces| == i
      invariant forall j :: 0 <= j < i ==> Translates(shaper.value[j], interfaces[j])
    {
      var out := MapPort(shaper.value[i]);
      interfaces := interfaces + [out];
    }
    return Some(GclTable(deviceId, interfaces));
  }

  // ----- what a gate state value means -----

  predicate Bit(v: nat, k: nat) {
    if k == 0 then v % 2 == 1 else Bit(v / 2, k - 1)
  }

  ghost predicate HasBits(v: nat, queues: seq<int>) {
    forall k: nat :: Bit(v, k) <==> k in queues
  }

  /** The value's bits are exactly the open queues. */
  ghost predicate Decodes(v: int, queues: seq<int>) {
    HasBits(Bits64(v), queues)
  }

  /** The sum of the queues' bits, without wrap-around. */
  function Weight(queues: seq<int>): nat
    requires NonNegative(queues)
  {
    if queues == [] then 0 else Weight(queues[..|queues| - 1]) + Pow2(queues[|queues| - 1])
  }

  /** The queues that fit the word. */
  function Low(queues: seq<int>): (low: seq<int>)
    ensures forall k :: k in low <==> k in queues && k < 64
    ensures NonNegative(queues) ==> NonNegative(low)
  {
    if queues == [] then []
    else
      var q := queues[|queues| - 1];
      Low(queues[..|queues| - 1]) + if q < 64 then [q] else []
  }

  /** Each queue's first listing. */
  function Firsts(queues: seq<int>): (firsts: seq<int>)
    ensures forall k :: k in firsts <==> k in queues
    ensures NonNegative(queues) ==> NonNegative(firsts)
  {
    if queues == [] then []
    else
      var q := queues[|queues| - 1];
      Firsts(queues[..|queues| - 1]) + if q in queues[..|queues| - 1] then [] else [q]
  }

  /** The further listings of queues already listed. */
  function Repeats(queues: seq<int>): (repeats: seq<int>)
    ensures forall k :: k in repeats ==> k in queues
    ensures NonNegative(queues) ==> NonNegative(repeats)
    ensures |repeats| <= |queues|
  {
    if queues == [] then []
    else
      var q := queues[|queues| - 1];
      Repeats(queues[..|queues| - 1]) + if q in queues[..|queues| - 1] then [q] else []
  }

  lemma {:induction false} AddBit(v: nat, q: nat, k: nat)
    requires !Bit(v, q)
    ensures Bit(v + Pow2(q), k) <==> k == q || Bit(v, k)
  {
    if q == 0 {
      assert (v + 1) / 2 == v / 2;
    } else {
      assert Pow2(q) == 2 * Pow2(q - 1);
      assert (v + Pow2(q)) / 2 == v / 2 + Pow2(q - 1) && (v + Pow2(q)) % 2 == v % 2;
      if k > 0 {
        AddBit(v / 2, q - 1, k - 1);
      }
    }
  }

  lemma {:induction false} ZeroHasNoBits(k: nat)
    ensures !Bit(0, k)
  {
    if k > 0 { ZeroHasNoBits(k - 1); }
  }

  /** Numbers with the same bits are equal. */
  lemma {:induction false} BitsInjective(u: nat, v: nat)
    requires forall k: nat :: Bit(u, k) <==> Bit(v, k)
    ensures u == v
    decreases u + v
  {
    assert Bit(u, 0) <==> Bit(v, 0);
    if u + v > 0 {
      forall k: nat ensures Bit(u / 2, k) <==> Bit(v / 2, k) {
        assert Bit(u, k + 1) <==> Bit(v, k + 1);
      }
      BitsInjective(u / 2, v / 2);
    }
  }

  /** A number whose bits all lie below n is below 2 to the n. */
  lemma {:induction false} BitsBelow(v: nat, n: nat)
    requires forall k: nat :: Bit(v, k) ==> k < n
    ensures v < Pow2(n)
    decreases n
  {
    if n == 0 {
      forall k: nat ensures Bit(v, k) <==> Bit(0, k) {
        ZeroHasNoBits(k);
      }
      BitsInjective(v, 0);
    } else {
      forall k: nat | Bit(v / 2, k) ensures k < n - 1 {
        assert Bit(v, k + 1);
      }
      BitsBelow(v / 2, n - 1);
    }
  }

  lemma {:induction false} PowSum(a: nat, b: nat)
    ensures Pow2(a + b) == Pow2(a) * Pow2(b)
  {
    if a > 0 { PowSum(a - 1, b); }
  }

  lemma PowSquare(k: nat, p: nat)
    requires Pow2(k) == p
    ensures Pow2(k + k) == p * p
  {
    PowSum(k, k);
  }

  lemma WordIsPow(n: nat)
    requires n == 64
    ensures Pow2(n) == WORD
  {
    assert Pow2(8) == 256;
    PowSquare(8, 256);
    PowSquare(16, 65536);
    PowSquare(32, 0x1_0000_0000);
  }

  lemma {:induction false} MultipleVanishes(m: nat)
    ensures (WORD * m) % WORD == 0
  {
    if m > 0 { MultipleVanishes(m - 1); }
  }

  lemma CongruentSum(a: int, b: int, c: int, d: int)
    requires a % WORD == c % WORD && b % WORD == d % WORD
    ensures (a + b) % WORD == (c + d) % WORD
  {
    var qa, qb, qc, qd := a / WORD, b / WORD, c / WORD, d / WORD;
    assert a + b == c + d + WORD * (qa - qc + qb - qd);
  }

  lemma BelowWord(x: nat)
    requires x < WORD
    ensures x % WORD == x
  {
  }

  lemma Int64Bits(x: int)
    ensures Bits64(Int64(x)) == Bits64(x)
  {
  }

  /** A bit at or above 64 is a multiple of the word. */
  lemma HighBitVanishes(k: nat)
    requires k >= 64
    ensures Pow2(k) % WORD == 0
  {
    var n := 64;
    PowSum(n, k - n);
    WordIsPow(n);
    MultipleVanishes(Pow2(k - n));
  }

  lemma ShiftBits(q: nat)
    ensures Bits64(ShiftOne(q)) == Bits64(Pow2(q))
  {
    if q >= 64 {
      HighBitVanishes(q);
    } else {
      Int64Bits(Pow2(q));
    }
  }

  /** The value's bits are the sum's, cut to the word. */
  lemma {:induction false} GateStatesBits(queues: seq<int>)
    requires NonNegative(queues)
    ensures Bits64(GateStates(queues)) == Weight(queues) % WORD
  {
    if queues != [] {
      var n := |queues| - 1;
      var g, x := GateStates(queues[..n]), ShiftOne(queues[n]);
      GateStatesBits(queues[..n]);
      ShiftBits(queues[n]);
      Int64Bits(g + x);
      CongruentSum(g, x, Weight(queues[..n]), Pow2(queues[n]));
    }
  }

  lemma LowWeightStep(low: seq<int>, weight: nat, q: nat)
    requires NonNegative(low) && Weight(low) % WORD == weight % WORD
    ensures var longer := low + if q < 64 then [q] else [];
            NonNegative(longer) && Weight(longer) % WORD == (weight + Pow2(q)) % WORD
  {
    if q >= 64 {
      HighBitVanishes(q);
      assert low + [] == low;
    } else {
      CongruentSum(Weight(low), Pow2(q), weight, Pow2(q));
    }
  }

  lemma {:induction false} LowWeight(queues: seq<int>)
    requires NonNegative(queues)
    ensures Weight(Low(queues)) % WORD == Weight(queues) % WORD
  {
    if queues != [] {
      var n := |queues| - 1;
      LowWeight(queues[..n]);
      LowWeightStep(Low(queues[..n]), Weight(queues[..n]), queues[n]);
    }
  }

  lemma {:induction false} FirstsDistinct(queues: seq<int>)
    ensures NoDuplicates(Firsts(queues))
    ensures NoDuplicates(queues) <==> Repeats(queues) == []
  {
    if queues != [] {
      var n := |queues| - 1;
      FirstsDistinct(queues[..n]);
      DistinctAppend(Firsts(queues[..n]), queues[n]);
      DistinctAppend(queues[..n], queues[n]);
      assert queues == queues[..n] + [queues[n]];
    }
  }

  lemma {:induction false} WeightSplits(queues: seq<int>)
    requires NonNegative(queues)
    ensures Weight(queues) == Weight(Firsts(queues)) + Weight(Repeats(queues))
  {
    if queues != [] {
      var n := |queues| - 1;
      var init, q := queues[..n], queues[n];
      WeightSplits(init);
      if q in init {
        assert Repeats(queues) == Repeats(init) + [q] && Firsts(queues) == Firsts(init);
      } else {
        assert Firsts(queues) == Firsts(init) + [q] && Repeats(queues) == Repeats(init);
      }
    }
  }

  lemma DistinctAppend(init: seq<int>, q: int)
    ensures NoDuplicates(init + [q]) <==> NoDuplicates(init) && q !in init
  {
    var whole := init + [q];
    assert whole[|init|] == q && forall i :: 0 <= i < |init| ==> whole[i] == init[i];
  }

  lemma {:induction false} DistinctDecodes(queues: seq<int>)
    requires NonNegative(queues) && NoDuplicates(queues)
    ensures HasBits(Weight(queues), queues)
  {
    if queues == [] {
      forall k: nat ensures !Bit(0, k) {
        ZeroHasNoBits(k);
      }
    } else {
      var n := |queues| - 1;
      var init, q := queues[..n], queues[n];
      DistinctDecodes(init);
      assert queues == init + [q];
      forall k: nat ensures Bit(Weight(queues), k) <==> k in queues {
        AddBit(Weight(init), q, k);
      }
    }
  }

  lemma {:induction false} BitsOfBounded(v: nat, n: nat, k: nat)
    requires v < Pow2(n) && Bit(v, k)
    ensures k < n
  {
    if n == 0 {
      ZeroHasNoBits(k);
    } else if k > 0 {
      BitsOfBounded(v / 2, n - 1, k - 1);
    }
  }

  /** Different queues below 64 fit the word and are its bits. */
  lemma DistinctFits(queues: seq<int>)
    requires NonNegative(queues) && NoDuplicates(queues) && forall k :: k in queues ==> k < 64
    ensures Weight(queues) < WORD
    ensures HasBits(Weight(queues), queues)
  {
    var n := 64;
    DistinctDecodes(queues);
    WordIsPow(n);
    BitsBelow(Weight(queues), n);
  }

  /** The value decodes, bit by bit, to exactly the open queues if and only if all queues fit the
      word and the repeated listings add up to a multiple of it. */
  lemma DecodesIff(queues: seq<int>)
    requires NonNegative(queues)
    ensures Decodes(GateStates(queues), queues)
            <==> (forall k :: k in queues ==> k < 64) && Weight(Repeats(queues)) % WORD == 0
  {
    if Decodes(GateStates(queues), queues) {
      DecodesInWord(queues);
    }
    if forall k :: k in queues ==> k < 64 {
      DecodesInWordIff(queues);
    }
  }

  lemma DecodesInWordIff(queues: seq<int>)
    requires NonNegative(queues) && forall k :: k in queues ==> k < 64
    ensures Decodes(GateStates(queues), queues) <==> Weight(Repeats(queues)) % WORD == 0
  {
    FirstsDistinct(queues);
    DistinctFits(Firsts(queues));
    var v, surplus := WordSplits(queues);
    SameQueuesIffEqual(Weight(Firsts(queues)), Firsts(queues), v, queues);
  }

  lemma WordSplits(queues: seq<int>) returns (v: nat, surplus: nat)
    requires NonNegative(queues) && Weight(Firsts(queues)) < WORD
    ensures v == Bits64(GateStates(queues)) && surplus == Weight(Repeats(queues))
    ensures Weight(Firsts(queues)) == v <==> surplus % WORD == 0
  {
    GateStatesBits(queues);
    WeightSplits(queues);
    v, surplus := Weight(queues) % WORD, Weight(Repeats(queues));
    SurplusVanishesIff(Weight(Firsts(queues)), surplus);
  }

  /** Numbers whose bits are two lists of queues are equal exactly when the lists open the same queues. */
  lemma SameQueuesIffEqual(u: nat, a: seq<int>, v: nat, b: seq<int>)
    requires HasBits(u, a) && forall k: nat :: k in a <==> k in b
    ensures HasBits(v, b) <==> u == v
  {
    if HasBits(v, b) {
      forall k: nat ensures Bit(u, k) <==> Bit(v, k) {
      }
      BitsInjective(u, v);
    }
  }

  lemma SurplusVanishesIff(w: nat, surplus: nat)
    requires w < WORD
    ensures (w + surplus) % WORD == w <==> surplus % WORD == 0
  {
  }

  /** Only queues below 64 can show among the bits. */
  lemma DecodesInWord(queues: seq<int>)
    requires NonNegative(queues) && Decodes(GateStates(queues), queues)
    ensures forall k :: k in queues ==> k < 64
  {
    var n := 64;
    WordIsPow(n);
    forall k | k in queues ensures k < n {
      BitsOfBounded(Bits64(GateStates(queues)), n, k);
    }
  }

  predicate EightQueues(queues: seq<int>) {
    forall i :: 0 <= i < |queues| ==> 0 <= queues[i] <= 7
  }

  lemma {:induction false} SmallWeight(queues: seq<int>)
    requires EightQueues(queues)
    ensures |queues| <= Weight(queues) <= 128 * |queues|
  {
    if queues != [] {
      var n := |queues| - 1;
      SmallWeight(queues[..n]);
      assert Pow2(7) == 128;
    }
  }

  /** For the eight queues of a port, and a list too short for its sum to overflow, the value decodes
      exactly when no queue is listed twice. */
  lemma EightGatesIff(queues: seq<int>)
    requires EightQueues(queues) && |queues| < WORD / 128
    ensures Decodes(GateStates(queues), queues) <==> NoDuplicates(queues)
  {
    var repeats := Repeats(queues);
    DecodesIff(queues);
    FirstsDistinct(queues);
    assert EightQueues(repeats) by {
      assert forall i :: 0 <= i < |repeats| ==> repeats[i] in queues;
    }
    SmallWeight(repeats);
    BelowWord(Weight(repeats));
  }

  /** It then fits the eight gates. */
  lemma EightGates(queues: seq<int>)
    requires EightQueues(queues) && NoDuplicates(queues)
    ensures 0 <= GateStates(queues) <= 255
    ensures Decodes(GateStates(queues), queues)
  {
    var n := 8;
    DistinctDecodes(queues);
    BitsBelow(Weight(queues), n);
    assert Pow2(n) == 256;
    GateStatesBits(queues);
    SmallWord(GateStates(queues), Weight(queues));
  }

  /** A word whose number is small is that number. */
  lemma SmallWord(x: int, w: nat)
    requires -(WORD / 2) <= x < WORD / 2 && Bits64(x) == w % WORD && w < WORD / 2
    ensures x == w && Bits64(x) == w
  {
  }

  /** A queue beyond the word opens no gate. */
  lemma HighQueueLost()
    ensures NoDuplicates([64]) && !Decodes(GateStates([64]), [64])
  {
    DecodesIff([64]);
    assert 64 in [64];
  }

  /** A queue listed often enough opens its own gate after all: four repetitions of 62 wrap round to nothing. */
  lemma RepeatsMayVanish(queues: seq<int>)
    requires queues == [62, 62, 62, 62, 62]
    ensures !NoDuplicates(queues) && Decodes(GateStates(queues), queues)
  {
    assert queues[0] == queues[1];
    RepeatsOfConstant(queues, 62);
    assert forall i :: 0 <= i < |Repeats(queues)| ==> Repeats(queues)[i] in queues;
    WeightOfConstant(Repeats(queues), 62);
    var n := 62;
    WordIsPow(n + 2);
    assert Pow2(n + 2) == 2 * Pow2(n + 1) && Pow2(n + 1) == 2 * Pow2(n);
    DecodesIff(queues);
  }

  lemma {:induction false} RepeatsOfConstant(queues: seq<int>, q: int)
    requires forall i :: 0 <= i < |queues| ==> queues[i] == q
    ensures |Repeats(queues)| == if queues == [] then 0 else |queues| - 1
  {
    if queues != [] {
      var n := |queues| - 1;
      RepeatsOfConstant(queues[..n], q);
      assert n > 0 ==> queues[..n][0] == q;
    }
  }

  lemma {:induction false} WeightOfConstant(queues: seq<int>, q: nat)
    requires forall i :: 0 <= i < |queues| ==> queues[i] == q
    ensures Weight(queues) == |queues| * Pow2(q)
  {
    if queues != [] {
      WeightOfConstant(queues[..|queues| - 1], q);
    }
  }

  lemma {:induction false} LowDistinct(queues: seq<int>)
    requires NoDuplicates(queues)
    ensures NoDuplicates(Low(queues))
  {
    if queues != [] {
      var n := |queues| - 1;
      assert queues == queues[..n] + [queues[n]];
      DistinctAppend(queues[..n], queues[n]);
      LowDistinct(queues[..n]);
      DistinctAppend(Low(queues[..n]), queues[n]);
    }
  }

  /** Two lists without repetitions have the same value exactly when they open the same queues below 64. */
  lemma EncodingInjective(a: seq<int>, b: seq<int>)
    requires NonNegative(a) && NonNegative(b) && NoDuplicates(a) && NoDuplicates(b)
    ensures GateStates(a) == GateStates(b) <==> forall k :: k < 64 ==> (k in a <==> k in b)
  {
    LowBits(a);
    LowBits(b);
    SameWordIff(GateStates(a), GateStates(b));
    SameLowIff(Bits64(GateStates(a)), a, Bits64(GateStates(b)), b);
  }

  lemma SameWordIff(x: int, y: int)
    requires -(WORD / 2) <= x < WORD / 2 && -(WORD / 2) <= y < WORD / 2
    ensures x == y <==> Bits64(x) == Bits64(y)
  {
  }

  lemma SameLowIff(u: nat, a: seq<int>, v: nat, b: seq<int>)
    requires NonNegative(a) && NonNegative(b) && HasBits(u, Low(a)) && HasBits(v, Low(b))
    ensures u == v <==> forall k :: k < 64 ==> (k in a <==> k in b)
  {
    if u == v {
      forall k | k < 64 ensures k in a <==> k in b {
        if k >= 0 {
          assert Bit(u, k) <==> k in Low(a);
          assert Bit(u, k) <==> k in Low(b);
        }
      }
    }
    if forall k :: k < 64 ==> (k in a <==> k in b) {
      SameQueuesIffEqual(u, Low(a), v, Low(b));
    }
  }

  lemma LowBits(queues: seq<int>)
    requires NonNegative(queues) && NoDuplicates(queues)
    ensures HasBits(Bits64(GateStates(queues)), Low(queues))
  {
    GateStatesBits(queues);
    LowWeight(queues);
    LowDistinct(queues);
    DistinctFits(Low(queues));
    BelowWord(Weight(Low(queues)));
  }
}
