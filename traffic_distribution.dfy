/** The traffic distribution object: it holds the fraction map and its cycle
    length, and each call of `AllocateTraffic` runs one round against the shared
    counter store. */
module TrafficDistribution {
  import opened Wrappers
  import opened Arithmetic
  import opened TrafficLcm
  import opened TrafficQuota
  import opened CounterStore
  import opened TrafficRound

  class TrafficDistribution {
    var redis: Redis
    var fractionMap: FractionMap
    var lcm: nat

    /** The fraction map is usable and `lcm` is its cycle length. */
    ghost predicate Valid()
      reads this
    {
      ValidFractions(fractionMap) && lcm == CycleLength(fractionMap)
    }

    /** Stores the store and the fraction map and computes the cycle length. */
    constructor (redis: Redis, fractionMap: FractionMap)
      requires ValidFractions(fractionMap)
      ensures this.redis == redis && this.fractionMap == fractionMap
      ensures Valid()
    {
      this.redis := redis;
      this.fractionMap := fractionMap;
      this.lcm := 1;
      new;
      CalculateLcm();
    }

    /** The least common multiple of `a` and `b`, searched upward from the
        larger of the two. */
    method CalLcm(a: nat, b: nat) returns (l: nat)
      requires a >= 1 && b >= 1
      ensures l == Lcm(a, b)
    {
      l := 1;
      var greater := if a > b then a else b;
      forall k | 1 <= k < greater ensures !IsCommonMultiple(k, a, b) {
        if k < a { SmallIsNotMultiple(k, a); } else { SmallIsNotMultiple(k, b); }
      }
      while true
        invariant 1 <= greater <= Lcm(a, b)
        invariant forall k :: 1 <= k < greater ==> !IsCommonMultiple(k, a, b)
        decreases Lcm(a, b) - greater
      {
        if greater % a == 0 && greater % b == 0 {
          l := greater;
          assert IsLcm(a, b, l);
          LcmUnique(a, b, l, Lcm(a, b));
          break;
        }
        greater := greater + 1;
      }
    }

    /** The least common multiple of all elements of `arr`, folded from 1. */
    method LcmArr(arr: seq<nat>) returns (l: nat)
      requires AllPositive(arr)
      ensures l == LcmSeq(arr)
    {
      l := 1;
      var i := 0;
      while i < |arr|
        invariant 0 <= i <= |arr|
        invariant AllPositive(arr[..i]) && l == LcmSeq(arr[..i])
      {
        l := CalLcm(l, arr[i]);
        assert arr[..i + 1][..i] == arr[..i];
        i := i + 1;
      }
      assert arr[..|arr|] == arr;
    }

    /** Collects the denominators of the fraction map and stores their least
        common multiple in `lcm`. */
    method CalculateLcm()
      requires ValidFractions(fractionMap)
      modifies this`lcm
      ensures lcm == CycleLength(fractionMap)
    {
      var numArr: seq<nat> := [];
      var i := 0;
      while i < |fractionMap|
        invariant 0 <= i <= |fractionMap|
        invariant numArr == Denominators(fractionMap)[..i]
      {
        numArr := numArr + [fractionMap[i].1.denominator];
        i := i + 1;
      }
      assert numArr == Denominators(fractionMap);
      lcm := LcmArr(numArr);
    }

    /** The allocation table: one entry `numerator * (lcm / denominator)` per
        fraction, then ordered by count, highest first. */
    method CalTrafficAllocation() returns (result: seq<Entry>)
      requires ValidFractions(fractionMap)
      ensures result == Allocation(fractionMap, lcm)
    {
      result := [];
      var i := 0;
      while i < |fractionMap|
        invariant 0 <= i <= |fractionMap|
        invariant result == Entries(fractionMap, lcm)[..i]
      {
        var (id, fraction) := fractionMap[i];
        var factor := lcm / fraction.denominator;
        result := result + [Entry(id, fraction.numerator * factor)];
        i := i + 1;
      }
      assert result == Entries(fractionMap, lcm);
      result := OrderByCountDesc(result);
    }

    /** One round under the hash `redisKey`: probe every target, select the first
        one within quota, then reset or take back the probes of the others. */
    method AllocateTraffic(redisKey: string) returns (selectedId: Option<string>)
      requires Valid()
      modifies redis
      ensures Outcome(selectedId, redis.hash) == Round(old(redis.hash), redisKey, Allocation(fractionMap, lcm), lcm)
    {
      ghost var h0 := redis.hash;
      var result := CalTrafficAllocation();
      var operations: seq<Op> := [];
      var i := 0;
      while i < |result|
        invariant 0 <= i <= |result|
        invariant operations == ProbeOps(redisKey, result)[..i]
      {
        operations := operations + [HIncrBy(redisKey, Field(result[i].id), 1)];
        i := i + 1;
      }
      assert operations == ProbeOps(redisKey, result);
      var replies := redis.MultiExecute(operations);
      ProbeRepliesAreIntegers(h0, operations);
      ghost var h1 := redis.hash;
      ghost var counts := ReplyCounts(replies);
      var totalCount := Sum(ReplyCounts(replies));
      var shouldResetCounter := totalCount - |result| + 1 >= lcm;

      operations := [];
      selectedId := None;
      i := 0;
      while i < |result|
        invariant 0 <= i <= |result|
        invariant redis.hash == h1
        invariant operations == CompOps(redisKey, result, counts, shouldResetCounter, i)
        invariant selectedId == Selection(result, counts, i)
      {
        var redisCount, redisField := replies[i].n, Field(result[i].id);
        CompStep(redisKey, result, counts, shouldResetCounter, i);
        assert redisCount == counts[i];
        if redisCount <= result[i].count && selectedId == None {
          selectedId := Some(result[i].id);
          if shouldResetCounter {
            operations := operations + [HMSet(redisKey, redisField, 0)];
          }
        } else if shouldResetCounter {
          operations := operations + [HMSet(redisKey, redisField, 0)];
        } else {
          operations := operations + [HIncrBy(redisKey, redisField, -1)];
        }
        i := i + 1;
      }
      var _ := redis.MultiExecute(operations);
    }
  }

  /** The example of the source's documentation: `{ A: "1/2", B: "1/4", C: "1/4" }`. */
  function DocExample(): FractionMap {
    [("A", Fraction(1, 2)), ("B", Fraction(1, 4)), ("C", Fraction(1, 4))]
  }

  /** The documentation example has cycle length 4 and the table A:2, B:1, C:1. */
  lemma DocExampleTable()
    ensures ValidFractions(DocExample())
    ensures CycleLength(DocExample()) == 4
    ensures Allocation(DocExample(), 4) == [Entry("A", 2), Entry("B", 1), Entry("C", 1)]
  {
    var fm := DocExample();
    assert Denominators(fm) == [2, 4, 4];
    assert Lcm(1, 2) == 2;
    assert Lcm(2, 4) == 4;
    assert Lcm(4, 4) == 4;
    assert LcmSeq([2]) == 2 by { assert [2][..0] == []; }
    assert LcmSeq([2, 4]) == 4 by { assert [2, 4][..1] == [2]; }
    assert LcmSeq([2, 4, 4]) == 4 by { assert [2, 4, 4][..2] == [2, 4]; }
    assert Entries(fm, 4) == [Entry("A", 2), Entry("B", 1), Entry("C", 1)];
  }

  lemma SumOfThree(a: int, b: int, c: int)
    ensures Sum([a, b, c]) == a + b + c
  {
    assert [a, b, c][1..] == [b, c] && [b, c][1..] == [c] && [c][1..] == [];
    assert Sum([c]) == c + Sum([]);
  }

  /** The counters, the probe total and the row fields of the documentation
      table under `key`. */
  lemma DocExampleTableFacts(h: Hash, key: string, a: int, b: int, c: int)
    requires Get(h, (key, Field("A"))) == a && Get(h, (key, Field("B"))) == b && Get(h, (key, Field("C"))) == c
    ensures var alloc := [Entry("A", 2), Entry("B", 1), Entry("C", 1)];
      && DistinctIds(alloc)
      && CounterAt(key, alloc, 0) == (key, Field("A"))
      && CounterAt(key, alloc, 1) == (key, Field("B"))
      && CounterAt(key, alloc, 2) == (key, Field("C"))
      && ProbeTotal(h, key, alloc) - |alloc| + 1 == a + b + c + 1
      && RowCounters(key, alloc, 3) == {(key, Field("A")), (key, Field("B")), (key, Field("C"))}
  {
    var alloc := [Entry("A", 2), Entry("B", 1), Entry("C", 1)];
    assert DistinctIds(alloc);
    assert CountersBefore(h, key, alloc) == [a, b, c];
    SumOfThree(a, b, c);
    assert RowCounters(key, alloc, 3) == {(key, Field("A")), (key, Field("B")), (key, Field("C"))} by {
      assert forall j :: 0 <= j < 3 ==> CounterAt(key, alloc, j) in {(key, Field("A")), (key, Field("B")), (key, Field("C"))};
      assert CounterAt(key, alloc, 0) in RowCounters(key, alloc, 3);
      assert CounterAt(key, alloc, 1) in RowCounters(key, alloc, 3);
      assert CounterAt(key, alloc, 2) in RowCounters(key, alloc, 3);
    }
  }

  /** One round of the documentation example from counters `a`, `b`, `c`. */
  lemma DocExampleRound(h: Hash, key: string, a: int, b: int, c: int)
    requires Get(h, (key, Field("A"))) == a && Get(h, (key, Field("B"))) == b && Get(h, (key, Field("C"))) == c
    ensures var alloc := [Entry("A", 2), Entry("B", 1), Entry("C", 1)];
      var r := Round(h, key, alloc, 4);
      var reset := a + b + c + 1 >= 4;
      && (r.selected == Some("A") <==> a + 1 <= 2)
      && (r.selected == Some("B") <==> a + 1 > 2 && b + 1 <= 1)
      && (r.selected == Some("C") <==> a + 1 > 2 && b + 1 > 1 && c + 1 <= 1)
      && Get(r.hash, (key, Field("A"))) == (if reset then 0 else a + (if r.selected == Some("A") then 1 else 0))
      && Get(r.hash, (key, Field("B"))) == (if reset then 0 else b + (if r.selected == Some("B") then 1 else 0))
      && Get(r.hash, (key, Field("C"))) == (if reset then 0 else c + (if r.selected == Some("C") then 1 else 0))
      && forall d :: d !in {(key, Field("A")), (key, Field("B")), (key, Field("C"))} ==> Get(r.hash, d) == Get(h, d)
  {
    var alloc := [Entry("A", 2), Entry("B", 1), Entry("C", 1)];
    var r := Round(h, key, alloc, 4);
    DocExampleTableFacts(h, key, a, b, c);
    assert (r.selected == Some("A") <==> a + 1 <= 2)
      && (r.selected == Some("B") <==> a + 1 > 2 && b + 1 <= 1)
      && (r.selected == Some("C") <==> a + 1 > 2 && b + 1 > 1 && c + 1 <= 1) by {
      RoundSelectsFirstFit(h, key, alloc, 4);
    }
    RoundEffect(h, key, alloc, 4);
  }

  /** The documentation example driven from zero counters: four rounds answer
      A, A, B, C, and afterwards every counter is 0 again and nothing else has
      changed, so the next four rounds repeat the pattern. */
  lemma DocExampleCycle(h: Hash, key: string)
    requires Get(h, (key, Field("A"))) == 0 && Get(h, (key, Field("B"))) == 0 && Get(h, (key, Field("C"))) == 0
    ensures var fm := DocExample();
      var alloc := Allocation(fm, CycleLength(fm));
      var r1 := Round(h, key, alloc, CycleLength(fm));
      var r2 := Round(r1.hash, key, alloc, CycleLength(fm));
      var r3 := Round(r2.hash, key, alloc, CycleLength(fm));
      var r4 := Round(r3.hash, key, alloc, CycleLength(fm));
      && r1.selected == Some("A") && r2.selected == Some("A")
      && r3.selected == Some("B") && r4.selected == Some("C")
      && Get(r4.hash, (key, Field("A"))) == 0
      && Get(r4.hash, (key, Field("B"))) == 0
      && Get(r4.hash, (key, Field("C"))) == 0
      && forall d :: d !in {(key, Field("A")), (key, Field("B")), (key, Field("C"))} ==> Get(r4.hash, d) == Get(h, d)
  {
    DocExampleTable();
    var alloc := [Entry("A", 2), Entry("B", 1), Entry("C", 1)];
    assert Field("A")[4] == 'A' && Field("B")[4] == 'B' && Field("C")[4] == 'C';
    var r1 := Round(h, key, alloc, 4);
    DocExampleRound(h, key, 0, 0, 0);
    var r2 := Round(r1.hash, key, alloc, 4);
    DocExampleRound(r1.hash, key, 1, 0, 0);
    var r3 := Round(r2.hash, key, alloc, 4);
    DocExampleRound(r2.hash, key, 2, 0, 0);
    var r4 := Round(r3.hash, key, alloc, 4);
    DocExampleRound(r3.hash, key, 2, 1, 0);
  }

  /** The documentation example has no empty id, so under the source's own
      truthiness test its rounds are exactly the rounds proved above. */
  lemma DocExampleAsWritten(h: Hash, key: string)
    ensures var fm := DocExample();
      RoundAsWritten(h, key, Allocation(fm, CycleLength(fm)), CycleLength(fm))
        == Round(h, key, Allocation(fm, CycleLength(fm)), CycleLength(fm))
  {
    DocExampleTable();
    RoundAsWrittenAgrees(h, key, [Entry("A", 2), Entry("B", 1), Entry("C", 1)], 4);
  }
}
