/** Grouped summation of distance (`groupby(key)['Distance'].sum()`) over a
    list of records. */
module Aggregate {
  import opened Loading
  import opened Distinct

  /** One group of a grouped sum: the key and its summed distance. */
  datatype Entry<K> = Entry(key: K, total: int)

  function SumDistance(rs: seq<Record>): int {
    if |rs| == 0 then 0 else SumDistance(rs[..|rs| - 1]) + rs[|rs| - 1].distance
  }

  /** The grouping key of every record, in order. */
  function KeysOf<K>(rs: seq<Record>, key: Record -> K): (ks: seq<K>)
    ensures |ks| == |rs|
    ensures forall i :: 0 <= i < |rs| ==> ks[i] == key(rs[i])
  {
    seq(|rs|, i requires 0 <= i < |rs| => key(rs[i]))
  }

  /** The keys of a grouped result, in order. */
  function Keys<K>(es: seq<Entry<K>>): (ks: seq<K>)
    ensures |ks| == |es|
    ensures forall i :: 0 <= i < |es| ==> ks[i] == es[i].key
  {
    seq(|es|, i requires 0 <= i < |es| => es[i].key)
  }

  /** The summed distance of the records whose key is k. */
  function KeySum<K(==)>(rs: seq<Record>, key: Record -> K, k: K): int {
    if |rs| == 0 then 0
    else KeySum(rs[..|rs| - 1], key, k) + (if key(rs[|rs| - 1]) == k then rs[|rs| - 1].distance else 0)
  }

  function TotalOf<K>(es: seq<Entry<K>>): int {
    if |es| == 0 then 0 else es[0].total + TotalOf(es[1..])
  }

  lemma {:induction false} TotalOfSnoc<K>(es: seq<Entry<K>>, e: Entry<K>)
    ensures TotalOf(es + [e]) == TotalOf(es) + e.total
  {
    if |es| > 0 {
      assert (es + [e])[1..] == es[1..] + [e];
      TotalOfSnoc(es[1..], e);
    }
  }

  lemma {:induction false} KeySumAbsent<K>(rs: seq<Record>, key: Record -> K, k: K)
    requires k !in KeysOf(rs, key)
    ensures KeySum(rs, key, k) == 0
  {
    if |rs| > 0 {
      var init := rs[..|rs| - 1];
      assert KeysOf(init, key) == KeysOf(rs, key)[..|rs| - 1];
      KeySumAbsent(init, key, k);
    }
  }

  /** Adds distance d to the group of key k, opening a new group at the end
      when k has none yet. */
  function Accumulate<K(==)>(es: seq<Entry<K>>, k: K, d: int): (r: seq<Entry<K>>)
    requires NoDup(Keys(es))
    ensures Keys(r) == if k in Keys(es) then Keys(es) else Keys(es) + [k]
    ensures forall i :: 0 <= i < |es| ==>
              r[i].total == es[i].total + (if es[i].key == k then d else 0)
    ensures k !in Keys(es) ==> r[|es|].total == d
    ensures TotalOf(r) == TotalOf(es) + d
    decreases |es|, 1
  {
    if |es| == 0 then [Entry(k, d)]
    else if es[0].key == k then
      var r := [Entry(k, es[0].total + d)] + es[1..];
      AccumulateHere(es, k, d, r);
      r
    else
      AccumulateLater(es, k, d);
      [es[0]] + Accumulate(es[1..], k, d)
  }

  /** The first group has another key: k is accumulated in the rest. */
  lemma AccumulateLater<K>(es: seq<Entry<K>>, k: K, d: int)
    requires NoDup(Keys(es)) && |es| > 0 && es[0].key != k
    ensures NoDup(Keys(es[1..]))
    ensures var r := [es[0]] + Accumulate(es[1..], k, d);
            && Keys(r) == (if k in Keys(es) then Keys(es) else Keys(es) + [k])
            && (forall i :: 0 <= i < |es| ==> r[i].total == es[i].total + (if es[i].key == k then d else 0))
            && (k !in Keys(es) ==> r[|es|].total == d)
            && TotalOf(r) == TotalOf(es) + d
    decreases |es|, 0
  {
    KeysCons(es);
    var rest := Accumulate(es[1..], k, d);
    LaterKeys(es, k, rest);
    LaterTotals(es, k, d, rest);
    LaterSum(es, d, rest);
  }

  lemma KeysCons<K>(es: seq<Entry<K>>)
    requires |es| > 0
    ensures Keys(es) == [es[0].key] + Keys(es[1..])
  {
  }

  /** The first group has key k: only its total changes. */
  lemma AccumulateHere<K>(es: seq<Entry<K>>, k: K, d: int, r: seq<Entry<K>>)
    requires NoDup(Keys(es)) && |es| > 0 && es[0].key == k
    requires r == [Entry(k, es[0].total + d)] + es[1..]
    ensures Keys(r) == Keys(es)
    ensures forall i :: 0 <= i < |es| ==> r[i].total == es[i].total + (if es[i].key == k then d else 0)
    ensures TotalOf(r) == TotalOf(es) + d
  {
    assert r[1..] == es[1..];
    KeysCons(es);
    KeysCons(r);
    forall i | 1 <= i < |es|
      ensures es[i].key != k
    {
      assert Keys(es)[0] == k && Keys(es)[i] == es[i].key;
    }
  }

  /** The keys are those of the rest behind the first one, ... */
  lemma LaterKeys<K>(es: seq<Entry<K>>, k: K, rest: seq<Entry<K>>)
    requires |es| > 0 && es[0].key != k
    requires Keys(rest) == if k in Keys(es[1..]) then Keys(es[1..]) else Keys(es[1..]) + [k]
    ensures Keys([es[0]] + rest) == if k in Keys(es) then Keys(es) else Keys(es) + [k]
  {
    var t := es[1..];
    var r := [es[0]] + rest;
    assert r[1..] == rest;
    KeysCons(es);
    KeysCons(r);
    if k in Keys(t) {
      assert k in Keys(es);
    } else {
      assert k !in Keys(es);
      assert Keys(es) + [k] == [es[0].key] + (Keys(t) + [k]);
    }
  }

  /** ... the totals are those of the rest behind the first one, ... */
  lemma LaterTotals<K>(es: seq<Entry<K>>, k: K, d: int, rest: seq<Entry<K>>)
    requires |es| > 0 && es[0].key != k
    requires |rest| == if k in Keys(es[1..]) then |es| - 1 else |es|
    requires forall i :: 0 <= i < |es| - 1 ==>
               rest[i].total == es[1..][i].total + (if es[1..][i].key == k then d else 0)
    requires k !in Keys(es[1..]) ==> rest[|es| - 1].total == d
    ensures forall i :: 0 <= i < |es| ==>
              ([es[0]] + rest)[i].total == es[i].total + (if es[i].key == k then d else 0)
    ensures k !in Keys(es) ==> ([es[0]] + rest)[|es|].total == d
  {
    var r := [es[0]] + rest;
    forall i | 0 <= i < |es|
      ensures r[i].total == es[i].total + (if es[i].key == k then d else 0)
    {
      if i > 0 {
        assert r[i] == rest[i - 1] && es[1..][i - 1] == es[i];
      }
    }
    if k !in Keys(es) {
      KeysCons(es);
      assert r[|es|] == rest[|es| - 1];
    }
  }

  /** ... and so is the overall total. */
  lemma LaterSum<K>(es: seq<Entry<K>>, d: int, rest: seq<Entry<K>>)
    requires |es| > 0
    requires TotalOf(rest) == TotalOf(es[1..]) + d
    ensures TotalOf([es[0]] + rest) == TotalOf(es) + d
  {
    assert ([es[0]] + rest)[1..] == rest;
  }

  /** `groupby(key)['Distance'].sum()` over the records: one group per
      distinct key, each holding the sum of its records' distances. The
      model keeps the groups in order of first occurrence where pandas
      sorts them by key; the two differ only in how ties come out of the
      later sort, which the model does not promise. */
  function GroupSum<K(==)>(rs: seq<Record>, key: Record -> K): (r: seq<Entry<K>>)
    ensures Keys(r) == Dedup(KeysOf(rs, key))
    ensures TotalOf(r) == SumDistance(rs)
    ensures forall i :: 0 <= i < |r| ==> r[i].total == KeySum(rs, key, r[i].key)
  {
    if |rs| == 0 then []
    else
      var done := GroupSum(rs[..|rs| - 1], key);
      var last := rs[|rs| - 1];
      var r := Accumulate(done, key(last), last.distance);
      GroupKeysStep(rs, key, done);
      GroupTotalStep(rs, key, done);
      NewKeySum(rs, key, done);
      GroupKeySumStep(rs, key, done);
      r
  }

  /** Folding the last record into the groups of the other records gives
      the keys of the groups of all records. */
  lemma GroupKeysStep<K>(rs: seq<Record>, key: Record -> K, done: seq<Entry<K>>)
    requires |rs| > 0
    requires Keys(done) == Dedup(KeysOf(rs[..|rs| - 1], key))
    ensures Keys(Accumulate(done, key(rs[|rs| - 1]), rs[|rs| - 1].distance)) == Dedup(KeysOf(rs, key))
  {
    assert KeysOf(rs, key)[..|rs| - 1] == KeysOf(rs[..|rs| - 1], key);
  }

  /** The same step keeps the overall total. */
  lemma GroupTotalStep<K>(rs: seq<Record>, key: Record -> K, done: seq<Entry<K>>)
    requires |rs| > 0
    requires NoDup(Keys(done))
    requires TotalOf(done) == SumDistance(rs[..|rs| - 1])
    ensures TotalOf(Accumulate(done, key(rs[|rs| - 1]), rs[|rs| - 1].distance)) == SumDistance(rs)
  {
  }

  /** A key with no group so far has no distance so far. */
  lemma NewKeySum<K>(rs: seq<Record>, key: Record -> K, done: seq<Entry<K>>)
    requires |rs| > 0
    requires Keys(done) == Dedup(KeysOf(rs[..|rs| - 1], key))
    ensures key(rs[|rs| - 1]) !in Keys(done) ==> KeySum(rs[..|rs| - 1], key, key(rs[|rs| - 1])) == 0
  {
    if key(rs[|rs| - 1]) !in Keys(done) {
      KeySumAbsent(rs[..|rs| - 1], key, key(rs[|rs| - 1]));
    }
  }

  /** The same step keeps every group's sum. */
  lemma GroupKeySumStep<K>(rs: seq<Record>, key: Record -> K, done: seq<Entry<K>>)
    requires |rs| > 0 && NoDup(Keys(done))
    requires key(rs[|rs| - 1]) !in Keys(done) ==> KeySum(rs[..|rs| - 1], key, key(rs[|rs| - 1])) == 0
    requires forall i :: 0 <= i < |done| ==> done[i].total == KeySum(rs[..|rs| - 1], key, done[i].key)
    ensures var r := Accumulate(done, key(rs[|rs| - 1]), rs[|rs| - 1].distance);
            forall i :: 0 <= i < |r| ==> r[i].total == KeySum(rs, key, r[i].key)
  {
    var init, last := rs[..|rs| - 1], rs[|rs| - 1];
    AccumulateSums(done, key(last), last.distance, x => KeySum(init, key, x), x => KeySum(rs, key, x));
  }

  /** Accumulating d under k turns groups summed by f into groups summed
      by g, when g adds d to f at k and agrees with f elsewhere. */
  lemma AccumulateSums<K>(done: seq<Entry<K>>, k: K, d: int, f: K -> int, g: K -> int)
    requires NoDup(Keys(done))
    requires forall i :: 0 <= i < |done| ==> done[i].total == f(done[i].key)
    requires k !in Keys(done) ==> f(k) == 0
    requires forall x :: g(x) == f(x) + (if x == k then d else 0)
    ensures forall i :: 0 <= i < |Accumulate(done, k, d)| ==>
              Accumulate(done, k, d)[i].total == g(Accumulate(done, k, d)[i].key)
  {
    var r := Accumulate(done, k, d);
    if k in Keys(done) {
      assert Keys(r) == Keys(done);
      forall i | 0 <= i < |r|
        ensures r[i].total == g(r[i].key)
      {
        assert Keys(r)[i] == Keys(done)[i];
      }
    } else {
      assert Keys(r) == Keys(done) + [k];
      forall i | 0 <= i < |r|
        ensures r[i].total == g(r[i].key)
      {
        if i < |done| {
          assert Keys(r)[i] == Keys(done)[i];
        } else {
          assert i == |done| && Keys(r)[i] == k;
        }
      }
    }
  }

  /** The three groupings the pages use. */
  function TeamKey(r: Record): string {
    r.team
  }

  function RunnerKey(r: Record): string {
    r.runner
  }

  function RunnerTeamKey(r: Record): (string, string) {
    (r.runner, r.team)
  }

  /** The distinct values of a column, as `nunique()` counts them. */
  function DistinctRunners(rs: seq<Record>): set<string> {
    set i | 0 <= i < |rs| :: rs[i].runner
  }

  function DistinctTeams(rs: seq<Record>): set<string> {
    set i | 0 <= i < |rs| :: rs[i].team
  }

  /** The number of distinct keys is the number of groups, and at most the
      number of records. */
  lemma {:induction false} CountDistinct<K>(rs: seq<Record>, key: Record -> K)
    ensures |Dedup(KeysOf(rs, key))| == |set i | 0 <= i < |rs| :: key(rs[i])|
    ensures |Dedup(KeysOf(rs, key))| <= |rs|
  {
    var ks := KeysOf(rs, key);
    DedupCard(ks);
    assert (set x | x in ks) == (set i | 0 <= i < |rs| :: key(rs[i])) by {
      forall x | x in ks
        ensures x in (set i | 0 <= i < |rs| :: key(rs[i]))
      {
        var i :| 0 <= i < |ks| && ks[i] == x;
      }
    }
  }
}
