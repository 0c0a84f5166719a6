/**
 Choosing a VLAN id for an untagged intelligent VLAN. Ids are 16-bit; the search
 counts upwards from the configured minimum in a 16-bit counter.
 */
module VlanIds {
  import opened Text

  const ID_COUNT := 65536

  /** Truncation to an unsigned 16-bit integer. */
  function UInt16(x: int): (r: int)
    ensures 0 <= r < ID_COUNT
  {
    x % ID_COUNT
  }

  function FirstFree(used: set<int>, id: int, max: int): Option<int>
    decreases max - id
  {
    if id > max then None
    else if id !in used then Some(id)
    else FirstFree(used, id + 1, max)
  }

  /** Counting past the last 16-bit id wraps round to 0. */
  function UniqueVlanId(used: set<int>, min: int, max: int): Option<int> {
    var free := FirstFree(used, min, max);
    if free == None && min <= max == ID_COUNT - 1 then FirstFree(used, 0, max) else free
  }

  lemma {:induction false} FirstFreeIsSmallest(used: set<int>, id: int, max: int)
    ensures match FirstFree(used, id, max)
            case None => forall x :: id <= x <= max ==> x in used
            case Some(r) => id <= r <= max && r !in used && forall x :: id <= x < r ==> x in used
    decreases max - id
  {
    if id <= max && id in used {
      FirstFreeIsSmallest(used, id + 1, max);
    }
  }

  /** With the maximum below 65535 the smallest free id of the range is chosen, and the
      search fails exactly when the whole range is used. */
  lemma UniqueVlanIdInRange(used: set<int>, min: int, max: int)
    requires max < ID_COUNT - 1
    ensures match UniqueVlanId(used, min, max)
            case None => forall x :: min <= x <= max ==> x in used
            case Some(r) => min <= r <= max && r !in used && forall x :: min <= x < r ==> x in used
  {
    FirstFreeIsSmallest(used, min, max);
  }

  /** With the maximum at 65535 and its range used up, the id chosen lies below the range. */
  lemma UniqueVlanIdWrapsBelowRange(used: set<int>, min: int)
    requires 0 <= min < ID_COUNT
    ensures match UniqueVlanId(used, min, ID_COUNT - 1)
            case None => forall x :: 0 <= x < ID_COUNT ==> x in used
            case Some(r) => r !in used && (r < min <==> forall x :: min <= x < ID_COUNT ==> x in used)
  {
    FirstFreeIsSmallest(used, min, ID_COUNT - 1);
    FirstFreeIsSmallest(used, 0, ID_COUNT - 1);
  }

  lemma {:induction false} FirstFreeStep(used: set<int>, from: int, id: int, max: int)
    requires from <= id <= max + 1 && forall x :: from <= x < id ==> x in used
    ensures FirstFree(used, from, max) == FirstFree(used, id, max)
    decreases id - from
  {
    if from < id {
      FirstFreeStep(used, from + 1, id, max);
    }
  }

  /** The id tried in the n-th turn of the loop. */
  function Counter(min: int, n: nat): int {
    (min + n) % ID_COUNT
  }

  /** In the n-th turn, if it gets so far, the loop is left. */
  predicate LeavesAt(used: set<int>, min: int, max: int, n: nat) {
    Counter(min, n) > max || Counter(min, n) !in used
  }

  ghost predicate SearchEnds(used: set<int>, min: int, max: int) {
    exists n: nat :: LeavesAt(used, min, max, n)
  }

  /** The loop runs for ever exactly when the maximum is 65535 and every 16-bit id is used. */
  lemma SearchEndsIff(used: set<int>, min: int, max: int)
    requires 0 <= min < ID_COUNT && 0 <= max < ID_COUNT
    ensures SearchEnds(used, min, max) <==> max < ID_COUNT - 1 || exists x :: 0 <= x < ID_COUNT && x !in used
  {
    if SearchEnds(used, min, max) {
      var n: nat :| LeavesAt(used, min, max, n);
      assert 0 <= Counter(min, n) < ID_COUNT;
    }
    if max < ID_COUNT - 1 {
      assert Counter(min, ID_COUNT - 1 - min) == ID_COUNT - 1;
      assert LeavesAt(used, min, max, ID_COUNT - 1 - min);
    }
    if x :| 0 <= x < ID_COUNT && x !in used {
      assert Counter(min, (x - min) % ID_COUNT) == x;
      assert LeavesAt(used, min, max, (x - min) % ID_COUNT);
    }
  }

  /** The loop, with its 16-bit counter. */
  method FindUniqueVlanId(used: set<int>, min: int, max: int) returns (id: int, found: bool)
    requires 0 <= min < ID_COUNT && 0 <= max < ID_COUNT
    requires SearchEnds(used, min, max)
    ensures found == UniqueVlanId(used, min, max).Some?
    ensures id == if found then UniqueVlanId(used, min, max).value else 0
  {
    id := min;
    ghost var wrapped := false;
    ghost var turns: nat := 0;
    ghost var bound: nat :| LeavesAt(used, min, max, bound);
    while id <= max
      invariant 0 <= id < ID_COUNT && (min <= max ==> id <= max + 1)
      invariant !wrapped ==> min <= id
      invariant !wrapped ==> forall x :: min <= x < id ==> x in used
      invariant wrapped ==> max == ID_COUNT - 1 && min <= max
      invariant wrapped ==> (forall x :: min <= x <= max ==> x in used) && forall x :: 0 <= x < id ==> x in used
      invariant turns <= bound && id == Counter(min, turns)
      decreases bound - turns
    {
      if id !in used {
        FirstFreeStep(used, if wrapped then 0 else min, id, max);
        FirstFreeIsSmallest(used, min, max);
        return id, true;
      }
      assert !LeavesAt(used, min, max, turns);
      wrapped := wrapped || id + 1 == ID_COUNT;
      id := (id + 1) % ID_COUNT;
      turns := turns + 1;
    }
    FirstFreeIsSmallest(used, min, max);
    return 0, false;
  }
}
