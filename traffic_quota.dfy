/** The quota table of the traffic allocator: every fraction is scaled to the
    common cycle length, and the table is ordered by quota, highest first, with
    ties kept in the order of the fraction map. */
module TrafficQuota {
  import opened TrafficLcm

  /** A configured share `numerator/denominator` of the traffic, already parsed. */
  datatype Fraction = Fraction(numerator: nat, denominator: nat)

  /** One row of the allocation table: a target and the number of hits it may
      take in one cycle. */
  datatype Entry = Entry(id: string, count: nat)

  /** The fraction map, in its iteration order. */
  type FractionMap = seq<(string, Fraction)>

  /** The ids of a fraction map are distinct (they are the keys of an object). */
  predicate DistinctKeys(fm: FractionMap) {
    forall i, j :: 0 <= i < j < |fm| ==> fm[i].0 != fm[j].0
  }

  /** A fraction map the allocator can work with: distinct keys, positive denominators. */
  predicate ValidFractions(fm: FractionMap) {
    DistinctKeys(fm) && forall i :: 0 <= i < |fm| ==> fm[i].1.denominator >= 1
  }

  /** The denominators of the fraction map, in iteration order. */
  function Denominators(fm: FractionMap): (ds: seq<nat>)
    ensures |ds| == |fm|
    ensures forall i :: 0 <= i < |fm| ==> ds[i] == fm[i].1.denominator
  {
    seq(|fm|, i requires 0 <= i < |fm| => fm[i].1.denominator)
  }

  /** The cycle length: the least common multiple of all denominators. */
  function CycleLength(fm: FractionMap): (l: nat)
    requires ValidFractions(fm)
    ensures l >= 1 && forall i :: 0 <= i < |fm| ==> l % fm[i].1.denominator == 0
    ensures forall k :: 1 <= k < l ==> !IsMultipleOfAll(k, Denominators(fm))
  {
    LcmSeqIsLeast(Denominators(fm));
    LcmSeq(Denominators(fm))
  }

  /** The hit quota of one fraction in a cycle of length `lcm`. */
  function Quota(f: Fraction, lcm: nat): nat
    requires f.denominator >= 1
  {
    f.numerator * (lcm / f.denominator)
  }

  /** The unsorted table, one entry per fraction, in iteration order. */
  function Entries(fm: FractionMap, lcm: nat): (es: seq<Entry>)
    requires ValidFractions(fm)
  {
    seq(|fm|, i requires 0 <= i < |fm| => Entry(fm[i].0, Quota(fm[i].1, lcm)))
  }

  // ---------------------------------------------------------------------------
  // Stable ordering by count, highest first

  predicate SortedDesc(s: seq<Entry>) {
    forall i, j :: 0 <= i < j < |s| ==> s[i].count >= s[j].count
  }

  /** The entries of `s` whose count is `c`, in their order in `s`. */
  function WithCount(s: seq<Entry>, c: nat): seq<Entry> {
    if s == [] then [] else (if s[0].count == c then [s[0]] else []) + WithCount(s[1..], c)
  }

  predicate DistinctIds(s: seq<Entry>) {
    forall i, j :: 0 <= i < j < |s| ==> s[i].id != s[j].id
  }

  function IdSet(s: seq<Entry>): set<string> {
    set i | 0 <= i < |s| :: s[i].id
  }

  /** Puts `e` in front of the first entry whose count does not exceed its own. */
  function InsertDesc(e: Entry, s: seq<Entry>): seq<Entry> {
    if s == [] || e.count >= s[0].count then [e] + s
    else [s[0]] + InsertDesc(e, s[1..])
  }

  /** A stable sort by descending count, the ordering `orderBy(result, ['count'],
      ['desc'])` produces. */
  function OrderByCountDesc(s: seq<Entry>): seq<Entry> {
    if s == [] then [] else InsertDesc(s[0], OrderByCountDesc(s[1..]))
  }

  lemma SortedCons(x: Entry, s: seq<Entry>)
    requires SortedDesc(s)
    requires forall k :: 0 <= k < |s| ==> s[k].count <= x.count
    ensures SortedDesc([x] + s)
  {
    forall i, j | 0 <= i < j < |[x] + s| ensures ([x] + s)[i].count >= ([x] + s)[j].count {
      assert ([x] + s)[j] == s[j - 1];
      if i > 0 { assert ([x] + s)[i] == s[i - 1]; }
    }
  }

  lemma SortedTail(s: seq<Entry>)
    requires SortedDesc(s) && s != []
    ensures SortedDesc(s[1..])
  {
    forall i, j | 0 <= i < j < |s[1..]| ensures s[1..][i].count >= s[1..][j].count {
      assert s[1..][i] == s[i + 1] && s[1..][j] == s[j + 1];
    }
  }

  lemma DistinctTail(s: seq<Entry>)
    requires DistinctIds(s) && s != []
    ensures DistinctIds(s[1..]) && s[0].id !in IdSet(s[1..])
  {
    forall i, j | 0 <= i < j < |s[1..]| ensures s[1..][i].id != s[1..][j].id {
      assert s[1..][i] == s[i + 1] && s[1..][j] == s[j + 1];
    }
  }

  lemma IdSetCons(e: Entry, s: seq<Entry>)
    ensures IdSet([e] + s) == IdSet(s) + {e.id}
  {
    forall x | x in IdSet(s) ensures x in IdSet([e] + s) {
      var m :| 0 <= m < |s| && s[m].id == x;
      assert ([e] + s)[m + 1] == s[m];
    }
    forall x | x in IdSet([e] + s) ensures x in IdSet(s) + {e.id} {
      var m :| 0 <= m < |[e] + s| && ([e] + s)[m].id == x;
      if m > 0 { assert ([e] + s)[m] == s[m - 1]; }
    }
    assert ([e] + s)[0] == e;
  }

  lemma DistinctCons(e: Entry, s: seq<Entry>)
    requires DistinctIds(s) && e.id !in IdSet(s)
    ensures DistinctIds([e] + s)
  {
    forall i, j | 0 <= i < j < |[e] + s| ensures ([e] + s)[i].id != ([e] + s)[j].id {
      assert ([e] + s)[j] == s[j - 1];
      if i > 0 { assert ([e] + s)[i] == s[i - 1]; }
    }
  }

  lemma {:induction false} InsertDescPermutes(e: Entry, s: seq<Entry>)
    ensures multiset(InsertDesc(e, s)) == multiset(s) + multiset{e}
  {
    if !(s == [] || e.count >= s[0].count) {
      InsertDescPermutes(e, s[1..]);
      assert s == [s[0]] + s[1..];
    }
  }

  lemma {:induction false} InsertDescSorted(e: Entry, s: seq<Entry>)
    requires SortedDesc(s)
    ensures SortedDesc(InsertDesc(e, s))
  {
    if s == [] || e.count >= s[0].count {
      SortedCons(e, s);
    } else {
      var rest := InsertDesc(e, s[1..]);
      SortedTail(s);
      InsertDescSorted(e, s[1..]);
      InsertDescPermutes(e, s[1..]);
      forall k | 0 <= k < |rest| ensures rest[k].count <= s[0].count {
        assert rest[k] in multiset(rest);
        if rest[k] != e {
          assert rest[k] in multiset(s[1..]);
          var m :| 0 <= m < |s[1..]| && s[1..][m] == rest[k];
          assert s[1..][m] == s[m + 1];
        }
      }
      SortedCons(s[0], rest);
    }
  }

  lemma {:induction false} InsertDescStable(e: Entry, s: seq<Entry>, c: nat)
    ensures WithCount(InsertDesc(e, s), c) == WithCount([e] + s, c)
  {
    if !(s == [] || e.count >= s[0].count) {
      var rest := InsertDesc(e, s[1..]);
      InsertDescStable(e, s[1..], c);
      assert ([s[0]] + rest)[1..] == rest;
      assert ([e] + s)[1..] == s;
      assert ([e] + s[1..])[1..] == s[1..];
    }
  }

  lemma {:induction false} InsertDescIds(e: Entry, s: seq<Entry>)
    ensures IdSet(InsertDesc(e, s)) == IdSet(s) + {e.id}
    ensures DistinctIds(s) && e.id !in IdSet(s) ==> DistinctIds(InsertDesc(e, s))
  {
    if s == [] || e.count >= s[0].count {
      IdSetCons(e, s);
      if DistinctIds(s) && e.id !in IdSet(s) { DistinctCons(e, s); }
    } else {
      var rest := InsertDesc(e, s[1..]);
      InsertDescIds(e, s[1..]);
      assert s == [s[0]] + s[1..];
      IdSetCons(s[0], rest);
      IdSetCons(s[0], s[1..]);
      if DistinctIds(s) && e.id !in IdSet(s) {
        DistinctTail(s);
        DistinctCons(s[0], rest);
      }
    }
  }

  /** The ordering is a sorted permutation of its input. */
  lemma {:induction false} OrderByCountDescSortedPermutation(s: seq<Entry>)
    ensures multiset(OrderByCountDesc(s)) == multiset(s)
    ensures |OrderByCountDesc(s)| == |s|
    ensures SortedDesc(OrderByCountDesc(s))
  {
    if s != [] {
      OrderByCountDescSortedPermutation(s[1..]);
      InsertDescPermutes(s[0], OrderByCountDesc(s[1..]));
      InsertDescSorted(s[0], OrderByCountDesc(s[1..]));
      assert s == [s[0]] + s[1..];
    }
  }

  /** The ordering is stable: the entries of any one count keep their relative
      order. */
  lemma {:induction false} OrderByCountDescStable(s: seq<Entry>, c: nat)
    ensures WithCount(OrderByCountDesc(s), c) == WithCount(s, c)
  {
    if s != [] {
      var rest := OrderByCountDesc(s[1..]);
      OrderByCountDescStable(s[1..], c);
      InsertDescStable(s[0], rest, c);
      assert ([s[0]] + rest)[1..] == rest;
    }
  }

  /** The ordering keeps the ids, and keeps them distinct. */
  lemma {:induction false} OrderByCountDescIds(s: seq<Entry>)
    ensures IdSet(OrderByCountDesc(s)) == IdSet(s)
    ensures DistinctIds(s) ==> DistinctIds(OrderByCountDesc(s))
  {
    if s != [] {
      var rest := OrderByCountDesc(s[1..]);
      OrderByCountDescIds(s[1..]);
      InsertDescIds(s[0], rest);
      assert s == [s[0]] + s[1..];
      IdSetCons(s[0], s[1..]);
      if DistinctIds(s) { DistinctTail(s); }
    }
  }

  // ---------------------------------------------------------------------------
  // The allocation table

  /** The allocation table: the quota entries ordered by count, highest first. */
  function Allocation(fm: FractionMap, lcm: nat): seq<Entry>
    requires ValidFractions(fm)
  {
    OrderByCountDesc(Entries(fm, lcm))
  }

  /** With the cycle length of the map, every scaling factor `lcm / denominator`
      is exact. */
  lemma QuotaFactorExact(fm: FractionMap)
    requires ValidFractions(fm)
    ensures forall i :: 0 <= i < |fm| ==>
      (CycleLength(fm) / fm[i].1.denominator) * fm[i].1.denominator == CycleLength(fm)
  {
    var ds := Denominators(fm);
    LcmSeqIsLeast(ds);
    forall i | 0 <= i < |fm|
      ensures (CycleLength(fm) / fm[i].1.denominator) * fm[i].1.denominator == CycleLength(fm)
    {
      assert ds[i] == fm[i].1.denominator;
    }
  }

  /** The allocation table is a permutation of the quota entries, sorted by
      count, highest first, with ties in the fraction map's order, and with
      distinct ids. */
  lemma AllocationProperties(fm: FractionMap, lcm: nat)
    requires ValidFractions(fm)
    ensures |Allocation(fm, lcm)| == |fm|
    ensures multiset(Allocation(fm, lcm)) == multiset(Entries(fm, lcm))
    ensures SortedDesc(Allocation(fm, lcm))
    ensures forall c :: WithCount(Allocation(fm, lcm), c) == WithCount(Entries(fm, lcm), c)
    ensures DistinctIds(Allocation(fm, lcm))
  {
    var es := Entries(fm, lcm);
    OrderByCountDescSortedPermutation(es);
    OrderByCountDescIds(es);
    forall c ensures WithCount(Allocation(fm, lcm), c) == WithCount(es, c) {
      OrderByCountDescStable(es, c);
    }
    assert DistinctIds(es) by {
      forall i, j | 0 <= i < j < |es| ensures es[i].id != es[j].id {
        assert es[i].id == fm[i].0 && es[j].id == fm[j].0;
      }
    }
  }

  /** Every row of the allocation table is the quota entry of some fraction:
      its count is `numerator * (lcm / denominator)`. */
  lemma AllocationEntry(fm: FractionMap, lcm: nat, k: nat)
    requires ValidFractions(fm) && k < |Allocation(fm, lcm)|
    ensures exists i :: (0 <= i < |fm| &&
      Allocation(fm, lcm)[k] == Entry(fm[i].0, fm[i].1.numerator * (lcm / fm[i].1.denominator)))
  {
    var es, r := Entries(fm, lcm), Allocation(fm, lcm);
    AllocationProperties(fm, lcm);
    assert r[k] in multiset(es) by { assert r[k] in multiset(r); }
    var i :| 0 <= i < |es| && es[i] == r[k];
    assert r[k] == Entry(fm[i].0, fm[i].1.numerator * (lcm / fm[i].1.denominator));
  }
}
