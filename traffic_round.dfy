/** One allocation round against the counter store: probe every target with an
    increment, pick the first target of the table still within its quota, then
    either reset every counter (the cycle is over) or take back the probe of
    every target that was not picked. */
module TrafficRound {
  import opened Wrappers
  import opened TrafficQuota
  import opened CounterStore

  /** The hash field that counts the hits of target `id`: `obj:<id>:t`. */
  function Field(id: string): string {
    "obj:" + id + ":t"
  }

  /** Different targets count in different fields. */
  lemma FieldInjective(a: string, b: string)
    requires Field(a) == Field(b)
    ensures a == b
  {
    assert a == Field(a)[4..|Field(a)| - 2];
    assert b == Field(b)[4..|Field(b)| - 2];
  }

  /** The counter of the `i`-th row of the table under the hash `key`. */
  function CounterAt(key: string, alloc: seq<Entry>, i: nat): Counter
    requires i < |alloc|
  {
    (key, Field(alloc[i].id))
  }

  /** The counters of the first `n` rows of the table. */
  function RowCounters(key: string, alloc: seq<Entry>, n: nat): set<Counter>
    requires n <= |alloc|
  {
    set j | 0 <= j < n :: CounterAt(key, alloc, j)
  }

  /** The counter values of the table's targets before the round, in table order. */
  function CountersBefore(h: Hash, key: string, alloc: seq<Entry>): (vs: seq<int>)
    ensures |vs| == |alloc|
  {
    seq(|alloc|, i requires 0 <= i < |alloc| => Get(h, CounterAt(key, alloc, i)))
  }

  function Sum(s: seq<int>): int {
    if s == [] then 0 else s[0] + Sum(s[1..])
  }

  /** The `totalCount` the probe reports: the sum of the post-increment counters. */
  function ProbeTotal(h: Hash, key: string, alloc: seq<Entry>): int {
    Sum(CountersBefore(h, key, alloc)) + |alloc|
  }

  // ---------------------------------------------------------------------------
  // The two batches

  /** The probe batch: `HINCRBY key obj:<id>:t 1` for every row, in table order. */
  function ProbeOps(key: string, alloc: seq<Entry>): (ops: seq<Op>)
    ensures |ops| == |alloc|
  {
    seq(|alloc|, i requires 0 <= i < |alloc| => HIncrBy(key, Field(alloc[i].id), 1))
  }

  /** The counts carried by integer replies. */
  function ReplyCounts(replies: seq<Reply>): (counts: seq<int>)
    requires forall i :: 0 <= i < |replies| ==> replies[i].Integer?
    ensures |counts| == |replies|
  {
    seq(|replies|, i requires 0 <= i < |replies| => replies[i].n)
  }

  /** Row `i` can still take a hit: its post-increment counter is within quota. */
  predicate Fits(alloc: seq<Entry>, counts: seq<int>, i: nat)
    requires |counts| == |alloc| && i < |alloc|
  {
    counts[i] <= alloc[i].count
  }

  /** The first of the first `n` rows that fits, if any. */
  function FirstFit(alloc: seq<Entry>, counts: seq<int>, n: nat): (r: Option<nat>)
    requires |counts| == |alloc| && n <= |alloc|
    ensures r.Some? ==> r.value < n && Fits(alloc, counts, r.value)
    ensures r.Some? ==> forall k :: 0 <= k < r.value ==> !Fits(alloc, counts, k)
    ensures r.None? ==> forall k :: 0 <= k < n ==> !Fits(alloc, counts, k)
  {
    if n == 0 then None
    else
      var previous := FirstFit(alloc, counts, n - 1);
      if previous.Some? then previous
      else if Fits(alloc, counts, n - 1) then Some(n - 1)
      else None
  }

  /** Row `j` is the winner: it fits and nothing was selected before it. */
  predicate IsWinner(alloc: seq<Entry>, counts: seq<int>, j: nat)
    requires |counts| == |alloc| && j < |alloc|
  {
    Fits(alloc, counts, j) && FirstFit(alloc, counts, j).None?
  }

  /** The compensation command for row `j`: the winner keeps its hit (or is reset),
      every other row is decremented (or reset). */
  function CompOp(key: string, alloc: seq<Entry>, counts: seq<int>, reset: bool, j: nat): (ops: seq<Op>)
    requires |counts| == |alloc| && j < |alloc|
    ensures |ops| <= 1
    ensures forall k :: 0 <= k < |ops| ==> CounterOf(ops[k]) == CounterAt(key, alloc, j)
  {
    var field := Field(alloc[j].id);
    if IsWinner(alloc, counts, j) then
      (if reset then [HMSet(key, field, 0)] else [])
    else if reset then [HMSet(key, field, 0)]
    else [HIncrBy(key, field, -1)]
  }

  /** The compensation batch for the first `n` rows, in table order. */
  function CompOps(key: string, alloc: seq<Entry>, counts: seq<int>, reset: bool, n: nat): seq<Op>
    requires |counts| == |alloc| && n <= |alloc|
  {
    if n == 0 then [] else CompOps(key, alloc, counts, reset, n - 1) + CompOp(key, alloc, counts, reset, n - 1)
  }

  /** The id of the first fitting row among the first `n`, or `None` (`null`). */
  function Selection(alloc: seq<Entry>, counts: seq<int>, n: nat): Option<string>
    requires |counts| == |alloc| && n <= |alloc|
  {
    var winner := FirstFit(alloc, counts, n);
    if winner.Some? then Some(alloc[winner.value].id) else None
  }

  /** Extending the first `i` rows by row `i`: how the selection and the
      compensation batch grow. */
  lemma CompStep(key: string, alloc: seq<Entry>, counts: seq<int>, reset: bool, i: nat)
    requires |counts| == |alloc| && i < |alloc|
    ensures var selected := Selection(alloc, counts, i);
      var field := Field(alloc[i].id);
      && Selection(alloc, counts, i + 1)
         == (if Fits(alloc, counts, i) && selected == None then Some(alloc[i].id) else selected)
      && CompOps(key, alloc, counts, reset, i + 1)
         == CompOps(key, alloc, counts, reset, i)
            + (if Fits(alloc, counts, i) && selected == None then (if reset then [HMSet(key, field, 0)] else [])
               else if reset then [HMSet(key, field, 0)]
               else [HIncrBy(key, field, -1)])
  {
  }

  /** The outcome of a round: the selected id (`null` as `None`) and the store. */
  datatype Outcome = Outcome(selected: Option<string>, hash: Hash)

  /** One round of `allocateTraffic(key)` on the store `h`, with the table `alloc`
      and the cycle length `lcm`. */
  function Round(h: Hash, key: string, alloc: seq<Entry>, lcm: nat): Outcome {
    var probe := ProbeOps(key, alloc);
    ProbeRepliesAreIntegers(h, probe);
    var counts := ReplyCounts(Replies(h, probe));
    var reset := Sum(counts) - |alloc| + 1 >= lcm;
    Outcome(Selection(alloc, counts, |alloc|),
            Exec(Exec(h, probe), CompOps(key, alloc, counts, reset, |alloc|)))
  }

  // ---------------------------------------------------------------------------
  // Effects of the batches

  lemma {:induction false} ProbeRepliesAreIntegers(h: Hash, ops: seq<Op>)
    requires forall i :: 0 <= i < |ops| ==> ops[i].HIncrBy?
    ensures |Replies(h, ops)| == |ops|
    ensures forall i :: 0 <= i < |ops| ==> Replies(h, ops)[i].Integer?
    decreases |ops|
  {
    if ops != [] {
      ProbeRepliesAreIntegers(ApplyOp(h, ops[0]), ops[1..]);
      forall i | 0 <= i < |ops| ensures Replies(h, ops)[i].Integer? {
        if i > 0 { assert ops[1..][i - 1] == ops[i]; }
      }
    }
  }

  lemma RowCountersDistinct(key: string, alloc: seq<Entry>, i: nat, j: nat)
    requires DistinctIds(alloc) && i < j < |alloc|
    ensures CounterAt(key, alloc, i) != CounterAt(key, alloc, j)
  {
    if Field(alloc[i].id) == Field(alloc[j].id) {
      FieldInjective(alloc[i].id, alloc[j].id);
    }
  }

  /** The probe raises every row's counter by exactly one and answers the new
      values; nothing else changes. */
  lemma ProbeEffect(h: Hash, key: string, alloc: seq<Entry>)
    requires DistinctIds(alloc)
    ensures |Replies(h, ProbeOps(key, alloc))| == |alloc|
    ensures forall i :: 0 <= i < |alloc| ==>
      Replies(h, ProbeOps(key, alloc))[i] == Integer(Get(h, CounterAt(key, alloc, i)) + 1)
    ensures forall i :: 0 <= i < |alloc| ==>
      Get(Exec(h, ProbeOps(key, alloc)), CounterAt(key, alloc, i)) == Get(h, CounterAt(key, alloc, i)) + 1
    ensures forall c :: c !in RowCounters(key, alloc, |alloc|) ==>
      Get(Exec(h, ProbeOps(key, alloc)), c) == Get(h, c)
  {
    var ops := ProbeOps(key, alloc);
    assert forall i :: 0 <= i < |alloc| ==> CounterOf(ops[i]) == CounterAt(key, alloc, i);
    assert DistinctCounters(ops) by {
      forall i, j | 0 <= i < j < |ops| ensures CounterOf(ops[i]) != CounterOf(ops[j]) {
        RowCountersDistinct(key, alloc, i, j);
      }
    }
    RepliesLength(h, ops);
    forall i | 0 <= i < |alloc|
      ensures Replies(h, ops)[i] == Integer(Get(h, CounterAt(key, alloc, i)) + 1)
      ensures Get(Exec(h, ops), CounterAt(key, alloc, i)) == Get(h, CounterAt(key, alloc, i)) + 1
    {
      ExecDistinct(h, ops, i);
    }
    forall c | c !in RowCounters(key, alloc, |alloc|) ensures Get(Exec(h, ops), c) == Get(h, c) {
      assert c !in Counters(ops);
      ExecOutside(h, ops, c);
    }
  }

  /** The value compensation leaves in a row's counter that held `v`. */
  function Compensated(v: int, reset: bool, winner: bool): int {
    if reset then 0 else if winner then v else v - 1
  }

  /** The compensation command of one row acts on that row's counter only. */
  lemma CompOpEffect(h: Hash, key: string, alloc: seq<Entry>, counts: seq<int>, reset: bool, j: nat)
    requires |counts| == |alloc| && j < |alloc|
    ensures Get(Exec(h, CompOp(key, alloc, counts, reset, j)), CounterAt(key, alloc, j))
      == Compensated(Get(h, CounterAt(key, alloc, j)), reset, IsWinner(alloc, counts, j))
    ensures forall d :: d != CounterAt(key, alloc, j) ==>
      Get(Exec(h, CompOp(key, alloc, counts, reset, j)), d) == Get(h, d)
  {
    var ops := CompOp(key, alloc, counts, reset, j);
    if ops != [] {
      assert ops[1..] == [];
      assert Exec(h, ops) == ApplyOp(h, ops[0]);
    }
  }

  /** The compensation batch of the first `n` rows sets each of their counters
      as `Compensated` says and leaves every other field unchanged. */
  lemma {:induction false} CompEffect(h: Hash, key: string, alloc: seq<Entry>, counts: seq<int>, reset: bool, n: nat)
    requires DistinctIds(alloc) && |counts| == |alloc| && n <= |alloc|
    ensures forall j :: 0 <= j < n ==>
      Get(Exec(h, CompOps(key, alloc, counts, reset, n)), CounterAt(key, alloc, j))
      == Compensated(Get(h, CounterAt(key, alloc, j)), reset, IsWinner(alloc, counts, j))
    ensures forall c :: c !in RowCounters(key, alloc, n) ==>
      Get(Exec(h, CompOps(key, alloc, counts, reset, n)), c) == Get(h, c)
  {
    if n > 0 {
      var before := CompOps(key, alloc, counts, reset, n - 1);
      var last := CompOp(key, alloc, counts, reset, n - 1);
      CompEffect(h, key, alloc, counts, reset, n - 1);
      var h1 := Exec(h, before);
      ExecAppend(h, before, last);
      CompOpEffect(h1, key, alloc, counts, reset, n - 1);
      var c := CounterAt(key, alloc, n - 1);
      forall j | 0 <= j < n - 1 ensures CounterAt(key, alloc, j) != c {
        RowCountersDistinct(key, alloc, j, n - 1);
      }
      assert c !in RowCounters(key, alloc, n - 1);
    }
  }

  lemma {:induction false} SumShifted(a: seq<int>, b: seq<int>)
    requires |a| == |b| && forall i :: 0 <= i < |a| ==> b[i] == a[i] + 1
    ensures Sum(b) == Sum(a) + |a|
  {
    if a != [] {
      SumShifted(a[1..], b[1..]);
    }
  }

  /** The post-increment counts a round works with, and its reset decision. */
  lemma RoundCounts(h: Hash, key: string, alloc: seq<Entry>)
    requires DistinctIds(alloc)
    ensures |Replies(h, ProbeOps(key, alloc))| == |alloc|
    ensures forall i :: 0 <= i < |alloc| ==>
      Replies(h, ProbeOps(key, alloc))[i] == Integer(CountersBefore(h, key, alloc)[i] + 1)
    ensures forall i :: 0 <= i < |alloc| ==> Replies(h, ProbeOps(key, alloc))[i].Integer?
    ensures Sum(ReplyCounts(Replies(h, ProbeOps(key, alloc)))) == ProbeTotal(h, key, alloc)
  {
    ProbeEffect(h, key, alloc);
    var counts := ReplyCounts(Replies(h, ProbeOps(key, alloc)));
    SumShifted(CountersBefore(h, key, alloc), counts);
  }

  // ---------------------------------------------------------------------------
  // What a round promises

  /** The selected id is the first row of the table whose post-increment counter
      is within its quota; every earlier row had exceeded its quota; no id is
      selected exactly when no row fits. */
  lemma RoundSelectsFirstFit(h: Hash, key: string, alloc: seq<Entry>, lcm: nat)
    requires DistinctIds(alloc)
    ensures forall i :: 0 <= i < |alloc| ==>
      (Round(h, key, alloc, lcm).selected == Some(alloc[i].id) <==>
        Get(h, CounterAt(key, alloc, i)) + 1 <= alloc[i].count &&
        forall k :: 0 <= k < i ==> Get(h, CounterAt(key, alloc, k)) + 1 > alloc[k].count)
    ensures Round(h, key, alloc, lcm).selected == None <==>
      forall i :: 0 <= i < |alloc| ==> Get(h, CounterAt(key, alloc, i)) + 1 > alloc[i].count
  {
    RoundCounts(h, key, alloc);
    var counts := ReplyCounts(Replies(h, ProbeOps(key, alloc)));
    assert forall i :: 0 <= i < |alloc| ==> counts[i] == Get(h, CounterAt(key, alloc, i)) + 1;
    var winner := FirstFit(alloc, counts, |alloc|);
    forall i | 0 <= i < |alloc|
      ensures Round(h, key, alloc, lcm).selected == Some(alloc[i].id) <==>
        Fits(alloc, counts, i) && forall k :: 0 <= k < i ==> !Fits(alloc, counts, k)
    {
      if winner.Some? && winner.value != i {
        if alloc[winner.value].id == alloc[i].id {
          assert false;
        }
      }
    }
  }

  /** Without a reset (`totalCount - n + 1 < lcm`) only the winner keeps the hit
      of its probe: its counter is one up, every other row's counter is back to
      its value before the round, every other field is untouched, and with no
      winner the store reads exactly as before. */
  lemma RoundWithoutReset(h: Hash, key: string, alloc: seq<Entry>, lcm: nat)
    requires DistinctIds(alloc)
    requires ProbeTotal(h, key, alloc) - |alloc| + 1 < lcm
    ensures forall i :: 0 <= i < |alloc| ==>
      Get(Round(h, key, alloc, lcm).hash, CounterAt(key, alloc, i)) ==
        Get(h, CounterAt(key, alloc, i)) + (if Round(h, key, alloc, lcm).selected == Some(alloc[i].id) then 1 else 0)
    ensures forall c :: c !in RowCounters(key, alloc, |alloc|) ==>
      Get(Round(h, key, alloc, lcm).hash, c) == Get(h, c)
    ensures Round(h, key, alloc, lcm).selected == None ==>
      forall c :: Get(Round(h, key, alloc, lcm).hash, c) == Get(h, c)
  {
    RoundEffect(h, key, alloc, lcm);
  }

  /** With a reset (`totalCount - n + 1 >= lcm`) every row's counter is 0 after
      the round, the winner's included, and every other field is untouched. */
  lemma RoundWithReset(h: Hash, key: string, alloc: seq<Entry>, lcm: nat)
    requires DistinctIds(alloc)
    requires ProbeTotal(h, key, alloc) - |alloc| + 1 >= lcm
    ensures forall i :: 0 <= i < |alloc| ==> Get(Round(h, key, alloc, lcm).hash, CounterAt(key, alloc, i)) == 0
    ensures forall c :: c !in RowCounters(key, alloc, |alloc|) ==>
      Get(Round(h, key, alloc, lcm).hash, c) == Get(h, c)
  {
    RoundEffect(h, key, alloc, lcm);
  }

  /** A round touches no field of any other hash key. */
  lemma RoundKeepsOtherKeys(h: Hash, key: string, alloc: seq<Entry>, lcm: nat)
    requires DistinctIds(alloc)
    ensures forall c: Counter :: c.0 != key ==> Get(Round(h, key, alloc, lcm).hash, c) == Get(h, c)
  {
    RoundEffect(h, key, alloc, lcm);
  }

  /** The counter of row `i` after a round. */
  lemma RoundRow(h: Hash, key: string, alloc: seq<Entry>, lcm: nat, i: nat)
    requires DistinctIds(alloc) && i < |alloc|
    ensures Get(Round(h, key, alloc, lcm).hash, CounterAt(key, alloc, i)) ==
      if ProbeTotal(h, key, alloc) - |alloc| + 1 >= lcm then 0
      else Get(h, CounterAt(key, alloc, i)) + (if Round(h, key, alloc, lcm).selected == Some(alloc[i].id) then 1 else 0)
  {
    var probe := ProbeOps(key, alloc);
    var c := CounterAt(key, alloc, i);
    RoundCounts(h, key, alloc);
    var counts := ReplyCounts(Replies(h, probe));
    var reset := Sum(counts) - |alloc| + 1 >= lcm;
    var h1 := Exec(h, probe);
    var r := Round(h, key, alloc, lcm);
    assert r.hash == Exec(h1, CompOps(key, alloc, counts, reset, |alloc|));
    assert reset <==> ProbeTotal(h, key, alloc) - |alloc| + 1 >= lcm;
    assert Get(h1, c) == Get(h, c) + 1 by {
      ProbeEffect(h, key, alloc);
    }
    assert Get(r.hash, c) == Compensated(Get(h1, c), reset, IsWinner(alloc, counts, i)) by {
      CompEffect(h1, key, alloc, counts, reset, |alloc|);
    }
    assert IsWinner(alloc, counts, i) <==> r.selected == Some(alloc[i].id) by {
      assert counts[i] == Get(h, c) + 1 by { ProbeEffect(h, key, alloc); }
      RoundSelectsFirstFit(h, key, alloc, lcm);
    }
  }

  /** A field that belongs to no row is the same after a round. */
  lemma RoundOutside(h: Hash, key: string, alloc: seq<Entry>, lcm: nat, c: Counter)
    requires DistinctIds(alloc) && c !in RowCounters(key, alloc, |alloc|)
    ensures Get(Round(h, key, alloc, lcm).hash, c) == Get(h, c)
  {
    var probe := ProbeOps(key, alloc);
    RoundCounts(h, key, alloc);
    ProbeEffect(h, key, alloc);
    var counts := ReplyCounts(Replies(h, probe));
    var reset := Sum(counts) - |alloc| + 1 >= lcm;
    var h1 := Exec(h, probe);
    CompEffect(h1, key, alloc, counts, reset, |alloc|);
    assert Round(h, key, alloc, lcm).hash == Exec(h1, CompOps(key, alloc, counts, reset, |alloc|));
  }

  /** The store after a round, row by row. */
  lemma RoundEffect(h: Hash, key: string, alloc: seq<Entry>, lcm: nat)
    requires DistinctIds(alloc)
    ensures forall i :: 0 <= i < |alloc| ==>
      Get(Round(h, key, alloc, lcm).hash, CounterAt(key, alloc, i)) ==
        if ProbeTotal(h, key, alloc) - |alloc| + 1 >= lcm then 0
        else Get(h, CounterAt(key, alloc, i)) + (if Round(h, key, alloc, lcm).selected == Some(alloc[i].id) then 1 else 0)
    ensures forall c :: c !in RowCounters(key, alloc, |alloc|) ==>
      Get(Round(h, key, alloc, lcm).hash, c) == Get(h, c)
    ensures ProbeTotal(h, key, alloc) - |alloc| + 1 < lcm && Round(h, key, alloc, lcm).selected == None ==>
      forall c :: Get(Round(h, key, alloc, lcm).hash, c) == Get(h, c)
    ensures forall c: Counter :: c.0 != key ==> c !in RowCounters(key, alloc, |alloc|)
  {
    forall i | 0 <= i < |alloc|
      ensures Get(Round(h, key, alloc, lcm).hash, CounterAt(key, alloc, i)) ==
        if ProbeTotal(h, key, alloc) - |alloc| + 1 >= lcm then 0
        else Get(h, CounterAt(key, alloc, i)) + (if Round(h, key, alloc, lcm).selected == Some(alloc[i].id) then 1 else 0)
    {
      RoundRow(h, key, alloc, lcm, i);
    }
    forall c | c !in RowCounters(key, alloc, |alloc|)
      ensures Get(Round(h, key, alloc, lcm).hash, c) == Get(h, c)
    {
      RoundOutside(h, key, alloc, lcm, c);
    }
    if ProbeTotal(h, key, alloc) - |alloc| + 1 < lcm && Round(h, key, alloc, lcm).selected == None {
      forall c ensures Get(Round(h, key, alloc, lcm).hash, c) == Get(h, c) {
        if c in RowCounters(key, alloc, |alloc|) {
          var i :| 0 <= i < |alloc| && c == CounterAt(key, alloc, i);
          RoundRow(h, key, alloc, lcm, i);
        } else {
          RoundOutside(h, key, alloc, lcm, c);
        }
      }
    }
  }

  // ---------------------------------------------------------------------------
  // The selection test as written: `redisCount <= obj.count && ! selectedId`

  /** JavaScript truthiness of `selectedId`: `null` and the empty string are both falsy. */
  predicate SelectedIsTruthy(selected: Option<string>) {
    selected.Some? && selected.value != ""
  }

  /** `selectedId` after the first `n` rows, with the truthiness test of the source. */
  function SelectionAsWritten(alloc: seq<Entry>, counts: seq<int>, n: nat): Option<string>
    requires |counts| == |alloc| && n <= |alloc|
  {
    if n == 0 then None
    else
      var selected := SelectionAsWritten(alloc, counts, n - 1);
      if counts[n - 1] <= alloc[n - 1].count && !SelectedIsTruthy(selected) then Some(alloc[n - 1].id)
      else selected
  }

  /** The compensation batch with the truthiness test of the source. */
  function CompOpsAsWritten(key: string, alloc: seq<Entry>, counts: seq<int>, reset: bool, n: nat): seq<Op>
    requires |counts| == |alloc| && n <= |alloc|
  {
    if n == 0 then []
    else
      var field := Field(alloc[n - 1].id);
      var picked := counts[n - 1] <= alloc[n - 1].count && !SelectedIsTruthy(SelectionAsWritten(alloc, counts, n - 1));
      CompOpsAsWritten(key, alloc, counts, reset, n - 1) +
        (if picked then (if reset then [HMSet(key, field, 0)] else [])
         else if reset then [HMSet(key, field, 0)]
         else [HIncrBy(key, field, -1)])
  }

  /** A round with the truthiness test of the source. */
  function RoundAsWritten(h: Hash, key: string, alloc: seq<Entry>, lcm: nat): Outcome {
    var probe := ProbeOps(key, alloc);
    ProbeRepliesAreIntegers(h, probe);
    var counts := ReplyCounts(Replies(h, probe));
    var reset := Sum(counts) - |alloc| + 1 >= lcm;
    Outcome(SelectionAsWritten(alloc, counts, |alloc|),
            Exec(Exec(h, probe), CompOpsAsWritten(key, alloc, counts, reset, |alloc|)))
  }

  /** With the fraction map `{"": "1/2", B: "1/2"}` (quotas 1 and 1, cycle 2) and
      an empty store, the source's test lets the empty id win and then lets `B`
      win too: the round answers `B` and both counters keep their probe, so one
      request consumes two hits. With the `null` test the empty id is answered
      and only its counter moves. */
  lemma EmptyIdSelectsTwice()
    ensures var alloc := [Entry("", 1), Entry("B", 1)];
      var r := RoundAsWritten(map[], "k", alloc, 2);
      r.selected == Some("B") &&
      Get(r.hash, ("k", Field(""))) == 1 && Get(r.hash, ("k", Field("B"))) == 1
    ensures var alloc := [Entry("", 1), Entry("B", 1)];
      var r := Round(map[], "k", alloc, 2);
      r.selected == Some("") &&
      Get(r.hash, ("k", Field(""))) == 1 && Get(r.hash, ("k", Field("B"))) == 0
  {
    var alloc := [Entry("", 1), Entry("B", 1)];
    var probe := ProbeOps("k", alloc);
    ProbeEffect(map[], "k", alloc);
    var counts := ReplyCounts(Replies(map[], probe));
    assert counts == [1, 1];
    assert Sum(counts) == 2 by {
      assert counts[1..] == [1] && counts[1..][1..] == [];
      assert Sum([1]) == 1;
    }
    assert SelectionAsWritten(alloc, counts, 1) == Some("");
    assert SelectionAsWritten(alloc, counts, 2) == Some("B");
    assert CompOpsAsWritten("k", alloc, counts, false, 1) == [];
    assert CompOpsAsWritten("k", alloc, counts, false, 2) == [];
    assert FirstFit(alloc, counts, 1) == Some(0);
    assert Selection(alloc, counts, 2) == Some("");
    assert CompOps("k", alloc, counts, false, 1) == [];
    assert CompOps("k", alloc, counts, false, 2) == [HIncrBy("k", Field("B"), -1)];
    assert Field("") != Field("B");
    var h1 := Exec(map[], probe);
    assert Exec(h1, [HIncrBy("k", Field("B"), -1)]) == ApplyOp(h1, HIncrBy("k", Field("B"), -1));
  }

  /** No row of the table has the empty id. */
  predicate NoEmptyId(alloc: seq<Entry>) {
    forall i :: 0 <= i < |alloc| ==> alloc[i].id != ""
  }

  /** Without an empty id, the truthiness test and the `null` test agree row by
      row: the same selection and the same compensation commands. */
  lemma {:induction false} AsWrittenAgrees(key: string, alloc: seq<Entry>, counts: seq<int>, reset: bool, n: nat)
    requires |counts| == |alloc| && n <= |alloc| && NoEmptyId(alloc)
    ensures SelectionAsWritten(alloc, counts, n) == Selection(alloc, counts, n)
    ensures CompOpsAsWritten(key, alloc, counts, reset, n) == CompOps(key, alloc, counts, reset, n)
  {
    if n > 0 {
      AsWrittenAgrees(key, alloc, counts, reset, n - 1);
      var previous := Selection(alloc, counts, n - 1);
      assert SelectedIsTruthy(previous) <==> FirstFit(alloc, counts, n - 1).Some?;
      assert IsWinner(alloc, counts, n - 1) <==>
        counts[n - 1] <= alloc[n - 1].count && !SelectedIsTruthy(SelectionAsWritten(alloc, counts, n - 1));
    }
  }

  /** For every table without an empty id, the round as written is exactly the
      round with the `null` test, so every property proved about `Round` holds
      for the source's code on such tables. */
  lemma RoundAsWrittenAgrees(h: Hash, key: string, alloc: seq<Entry>, lcm: nat)
    requires NoEmptyId(alloc)
    ensures RoundAsWritten(h, key, alloc, lcm) == Round(h, key, alloc, lcm)
  {
    var probe := ProbeOps(key, alloc);
    ProbeRepliesAreIntegers(h, probe);
    var counts := ReplyCounts(Replies(h, probe));
    var reset := Sum(counts) - |alloc| + 1 >= lcm;
    AsWrittenAgrees(key, alloc, counts, reset, |alloc|);
  }
}
