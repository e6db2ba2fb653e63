/** Ordering grouped sums by distance, labelling positions and truncating to
    the top entries: `sort_values('Distance', ascending=False)`, the medal
    loop, the `Rank` column and `head(k)`. */
module Ranking {
  import opened Loading
  import opened Distinct
  import opened Decimal
  import opened Aggregate

  /** Sorted by distance, largest first. The sort the pages call is not
      stable, so nothing is promised about the order of equal distances. */
  predicate NonIncreasing<K>(es: seq<Entry<K>>) {
    forall i, j :: 0 <= i < j < |es| ==> es[i].total >= es[j].total
  }

  lemma ConsNonIncreasing<K>(x: Entry<K>, rest: seq<Entry<K>>)
    requires NonIncreasing(rest)
    requires forall y :: y in rest ==> y.total <= x.total
    ensures NonIncreasing([x] + rest)
  {
    var r := [x] + rest;
    forall i, j | 0 <= i < j < |r|
      ensures r[i].total >= r[j].total
    {
      assert r[j] == rest[j - 1];
      if i > 0 {
        assert r[i] == rest[i - 1];
      }
    }
  }

  lemma BoundedByHead<K>(e: Entry<K>, s: seq<Entry<K>>, rest: seq<Entry<K>>)
    requires |s| > 0 && NonIncreasing(s) && e.total < s[0].total
    requires multiset(rest) == multiset(s[1..]) + multiset{e}
    ensures forall y :: y in rest ==> y.total <= s[0].total
  {
    forall y | y in rest
      ensures y.total <= s[0].total
    {
      assert y in multiset(rest);
      if y != e {
        assert y in multiset(s[1..]);
        var k :| 0 <= k < |s[1..]| && s[1..][k] == y;
        assert s[k + 1] == y;
      }
    }
  }

  /** Inserts one entry into a distance-sorted list, before the first entry
      with a smaller or equal distance. */
  function Insert<K(==)>(e: Entry<K>, s: seq<Entry<K>>): (r: seq<Entry<K>>)
    requires NonIncreasing(s)
    ensures NonIncreasing(r)
    ensures multiset(r) == multiset(s) + multiset{e}
    ensures TotalOf(r) == TotalOf(s) + e.total
  {
    if |s| == 0 then [e]
    else if e.total >= s[0].total then
      ConsNonIncreasing(e, s);
      [e] + s
    else
      var rest := Insert(e, s[1..]);
      BoundedByHead(e, s, rest);
      ConsNonIncreasing(s[0], rest);
      InsertCons(e, s, rest);
      [s[0]] + rest
  }

  lemma InsertCons<K>(e: Entry<K>, s: seq<Entry<K>>, rest: seq<Entry<K>>)
    requires |s| > 0
    requires multiset(rest) == multiset(s[1..]) + multiset{e}
    requires TotalOf(rest) == TotalOf(s[1..]) + e.total
    ensures multiset([s[0]] + rest) == multiset(s) + multiset{e}
    ensures TotalOf([s[0]] + rest) == TotalOf(s) + e.total
  {
    assert s == [s[0]] + s[1..];
    assert ([s[0]] + rest)[1..] == rest;
  }

  /** The distance-descending sort of a grouped result. */
  function SortByTotal<K(==)>(es: seq<Entry<K>>): (r: seq<Entry<K>>)
    ensures NonIncreasing(r)
    ensures multiset(r) == multiset(es)
    ensures TotalOf(r) == TotalOf(es)
  {
    if |es| == 0 then []
    else
      assert es == [es[0]] + es[1..];
      Insert(es[0], SortByTotal(es[1..]))
  }

  /** Reordering entries whose keys are distinct keeps them distinct. */
  lemma DistinctKeysPermutation<K>(g: seq<Entry<K>>, r: seq<Entry<K>>)
    requires NoDup(Keys(g)) && multiset(g) == multiset(r)
    ensures NoDup(Keys(r))
    ensures |r| == |g|
  {
    assert |multiset(r)| == |multiset(g)|;
    assert NoDup(g) by {
      forall i, j | 0 <= i < j < |g|
        ensures g[i] != g[j]
      {
        assert Keys(g)[i] != Keys(g)[j];
      }
    }
    NoDupPermutation(g, r);
    forall i, j | 0 <= i < j < |r|
      ensures r[i].key != r[j].key
    {
      assert r[i] in multiset(g) && r[j] in multiset(g);
      var p :| 0 <= p < |g| && g[p] == r[i];
      var q :| 0 <= q < |g| && g[q] == r[j];
      assert Keys(g)[p] == r[i].key && Keys(g)[q] == r[j].key;
    }
  }

  /** Group, sum and sort: the pipeline shared by every leaderboard. Each
      distinct key of the input appears exactly once, with the summed
      distance of its records, largest first, and the totals add up to the
      total distance of the input. */
  function Standings<K(==)>(rs: seq<Record>, key: Record -> K): (r: seq<Entry<K>>)
    ensures NonIncreasing(r)
    ensures NoDup(Keys(r))
    ensures forall i :: 0 <= i < |r| ==> r[i].key in KeysOf(rs, key)
    ensures forall i :: 0 <= i < |rs| ==> key(rs[i]) in Keys(r)
    ensures forall i :: 0 <= i < |r| ==> r[i].total == KeySum(rs, key, r[i].key)
    ensures TotalOf(r) == SumDistance(rs)
    ensures |r| == |set i | 0 <= i < |rs| :: key(rs[i])|
  {
    var g := GroupSum(rs, key);
    var r := SortByTotal(g);
    DistinctKeysPermutation(g, r);
    CountDistinct(rs, key);
    PermutedKeys(rs, key, g, r);
    PermutedTotals(rs, key, g, r);
    r
  }

  /** Reordered entries have the same keys. */
  lemma SameKeys<K>(g: seq<Entry<K>>, r: seq<Entry<K>>)
    requires multiset(r) == multiset(g)
    ensures forall i :: 0 <= i < |r| ==> r[i].key in Keys(g) && r[i] in g
    ensures forall p :: 0 <= p < |g| ==> g[p].key in Keys(r)
  {
    forall i | 0 <= i < |r|
      ensures r[i].key in Keys(g) && r[i] in g
    {
      assert r[i] in multiset(g);
      var p :| 0 <= p < |g| && g[p] == r[i];
      assert Keys(g)[p] == r[i].key;
    }
    forall p | 0 <= p < |g|
      ensures g[p].key in Keys(r)
    {
      assert g[p] in multiset(r);
      var q :| 0 <= q < |r| && r[q] == g[p];
      assert Keys(r)[q] == g[p].key;
    }
  }

  /** A reordered grouping has the keys of the records, and all of them. */
  lemma PermutedKeys<K>(rs: seq<Record>, key: Record -> K, g: seq<Entry<K>>, r: seq<Entry<K>>)
    requires Keys(g) == Dedup(KeysOf(rs, key))
    requires multiset(r) == multiset(g)
    ensures forall i :: 0 <= i < |r| ==> r[i].key in KeysOf(rs, key)
    ensures forall i :: 0 <= i < |rs| ==> key(rs[i]) in Keys(r)
  {
    SameKeys(g, r);
    forall i | 0 <= i < |rs|
      ensures key(rs[i]) in Keys(r)
    {
      assert KeysOf(rs, key)[i] == key(rs[i]);
      assert key(rs[i]) in Keys(g);
      var p :| 0 <= p < |g| && Keys(g)[p] == key(rs[i]);
    }
  }

  /** A reordered grouping keeps every key's summed distance. */
  lemma PermutedTotals<K>(rs: seq<Record>, key: Record -> K, g: seq<Entry<K>>, r: seq<Entry<K>>)
    requires forall i :: 0 <= i < |g| ==> g[i].total == KeySum(rs, key, g[i].key)
    requires multiset(r) == multiset(g)
    ensures forall i :: 0 <= i < |r| ==> r[i].total == KeySum(rs, key, r[i].key)
  {
    forall i | 0 <= i < |r|
      ensures r[i].total == KeySum(rs, key, r[i].key)
    {
      assert r[i] in multiset(g);
      var p :| 0 <= p < |g| && g[p] == r[i];
    }
  }

  /** The decorative labels of the first three places. */
  const Medals: seq<string> := ["\U{1F947}", "\U{1F948}", "\U{1F949}"]

  /** The position label at 0-based index i: a medal for the first three
      places, the 1-based position written in decimal after that. */
  function PositionLabel(i: nat): (pos: string)
    ensures i < 3 ==> pos == Medals[i]
    ensures i >= 3 ==> AllDigits(pos) && Parse(pos) == i + 1 && pos[0] != '0'
  {
    if i < 3 then Medals[i] else ParseShow(i + 1); Show(i + 1)
  }

  /** No two positions share a label. */
  lemma LabelsDistinct(i: nat, j: nat)
    requires i != j
    ensures PositionLabel(i) != PositionLabel(j)
  {
    if i < 3 && j >= 3 {
      assert !IsDigit(PositionLabel(i)[0]);
    } else if i >= 3 && j < 3 {
      assert !IsDigit(PositionLabel(j)[0]);
    }
  }

  /** One row of a ranked table: the 1-based `Rank` column, the position
      label (`Pos` / `Medal`), the key and its distance. */
  datatype Placed<K> = Placed(rank: nat, pos: string, key: K, total: int)

  /** Numbers the rows of a sorted table (the `Rank` column and the medal
      loop): one row per entry, carrying it unchanged, ranked 1..n in table
      order, medals on the first three and no label used twice. */
  function Place<K>(es: seq<Entry<K>>): (r: seq<Placed<K>>)
    ensures |r| == |es|
    ensures forall i :: 0 <= i < |r| ==> r[i].rank == i + 1 && r[i].key == es[i].key && r[i].total == es[i].total
    ensures forall i :: 0 <= i < |r| && i < 3 ==> r[i].pos == Medals[i]
    ensures forall i :: 3 <= i < |r| ==> r[i].pos == Show(i + 1)
    ensures forall i, j :: 0 <= i < j < |r| ==> r[i].pos != r[j].pos
  {
    var r := seq(|es|, i requires 0 <= i < |es| => Placed(i + 1, PositionLabel(i), es[i].key, es[i].total));
    forall i, j | 0 <= i < j < |r|
      ensures r[i].pos != r[j].pos
    {
      LabelsDistinct(i, j);
    }
    r
  }

  /** Numbering a distance-sorted table: the ranks are 1..n in table
      order, a better rank never has a smaller distance, the labels are
      pairwise distinct, and the rows carry the sorted entries unchanged. */
  lemma PlacementConsistent<K>(es: seq<Entry<K>>)
    requires NonIncreasing(es)
    ensures forall i :: 0 <= i < |es| ==>
              Place(es)[i].key == es[i].key && Place(es)[i].total == es[i].total
    ensures forall i :: 0 <= i < |es| ==> Place(es)[i].rank == i + 1
    ensures forall i, j :: 0 <= i < j < |es| ==>
              Place(es)[i].rank < Place(es)[j].rank && Place(es)[i].total >= Place(es)[j].total
    ensures forall i, j :: 0 <= i < j < |es| ==> Place(es)[i].pos != Place(es)[j].pos
  {
    var p := Place(es);
    forall i, j | 0 <= i < j < |es|
      ensures p[i].pos != p[j].pos
    {
      LabelsDistinct(i, j);
    }
  }

  /** `head(n)`: the first n rows, or all of them when there are fewer. */
  function Head<T>(s: seq<T>, n: nat): (r: seq<T>)
    ensures |r| == if |s| < n then |s| else n
    ensures r == s[..|r|]
  {
    if |s| <= n then s else s[..n]
  }

  /** The first a rows of the first b rows are the first a rows. */
  lemma HeadOfHead<T>(s: seq<T>, a: nat, b: nat)
    requires a <= b
    ensures Head(s, a) == Head(s, b)[..|Head(s, a)|]
  {
  }

  /** Truncating after sorting keeps the best entries: every shown row has
      at least the distance of every row cut off. */
  lemma TopDominates<K>(es: seq<Entry<K>>, n: nat)
    requires NonIncreasing(es)
    ensures forall x, y :: x in Head(es, n) && y in es[|Head(es, n)|..] ==> x.total >= y.total
  {
    var h := Head(es, n);
    forall x, y | x in h && y in es[|h|..]
      ensures x.total >= y.total
    {
      var i :| 0 <= i < |h| && h[i] == x;
      var j :| 0 <= j < |es[|h|..]| && es[|h|..][j] == y;
      assert es[i] == x && es[|h| + j] == y;
    }
  }

  /** Labels are fixed on the whole sorted table before truncation, so the
      truncated table keeps each row's rank and label. */
  lemma HeadKeepsPlaces<K>(es: seq<Entry<K>>, n: nat)
    ensures Head(Place(es), n) == Place(Head(es, n))
  {
  }

  /** The sum of the distances shown in a ranked table. */
  function PlacedTotal<K>(p: seq<Placed<K>>): int {
    if |p| == 0 then 0 else PlacedTotal(p[..|p| - 1]) + p[|p| - 1].total
  }

  /** Some row of the table carries key x. */
  predicate Listed<K(==)>(p: seq<Placed<K>>, x: K) {
    exists i :: 0 <= i < |p| && p[i].key == x
  }

  /** What a ranked table of the records promises, independently of how it
      is computed: one row per distinct key of the records and no other,
      each carrying the key's summed distance, in non-increasing distance
      order, numbered 1..n and labelled by `PositionLabel`. */
  predicate RankedTable<K(==)>(p: seq<Placed<K>>, rs: seq<Record>, key: Record -> K) {
    && (forall i :: 0 <= i < |p| ==> p[i].rank == i + 1 && p[i].pos == PositionLabel(i))
    && (forall i :: 0 <= i < |p| ==> p[i].key in KeysOf(rs, key))
    && (forall i :: 0 <= i < |p| ==> p[i].total == KeySum(rs, key, p[i].key))
    && (forall j :: 0 <= j < |rs| ==> Listed(p, key(rs[j])))
    && (forall i, j :: 0 <= i < j < |p| ==> p[i].key != p[j].key)
    && (forall i, j :: 0 <= i < j < |p| ==> p[i].total >= p[j].total)
  }

  lemma {:induction false} PlacedTotalIsTotalOf<K>(es: seq<Entry<K>>)
    ensures PlacedTotal(Place(es)) == TotalOf(es)
  {
    if |es| > 0 {
      var init := es[..|es| - 1];
      assert Place(es)[..|es| - 1] == Place(init);
      assert es == init + [es[|es| - 1]];
      TotalOfSnoc(init, es[|es| - 1]);
      PlacedTotalIsTotalOf(init);
    }
  }

  lemma PlaceCoversKeys<K>(s: seq<Entry<K>>, rs: seq<Record>, key: Record -> K)
    requires NoDup(Keys(s))
    requires forall j :: 0 <= j < |rs| ==> key(rs[j]) in Keys(s)
    ensures forall j :: 0 <= j < |rs| ==> Listed(Place(s), key(rs[j]))
    ensures forall i, j :: 0 <= i < j < |Place(s)| ==> Place(s)[i].key != Place(s)[j].key
  {
    var p := Place(s);
    forall j | 0 <= j < |rs|
      ensures Listed(p, key(rs[j]))
    {
      var i :| 0 <= i < |s| && Keys(s)[i] == key(rs[j]);
      assert p[i].key == key(rs[j]);
    }
    forall i, j | 0 <= i < j < |p|
      ensures p[i].key != p[j].key
    {
      assert Keys(s)[i] != Keys(s)[j];
    }
  }

  /** Group, sum, sort by distance descending and number the rows: the
      shape of every leaderboard table. The distances shown add up to the
      distance of all the records. */
  function Ranked<K(==)>(rs: seq<Record>, key: Record -> K): (p: seq<Placed<K>>)
    ensures RankedTable(p, rs, key)
    ensures PlacedTotal(p) == SumDistance(rs)
    ensures |p| == |set j | 0 <= j < |rs| :: key(rs[j])|
  {
    var s := Standings(rs, key);
    PlaceRanked(s, rs, key);
    PlacedTotalIsTotalOf(s);
    Place(s)
  }

  /** Numbering the standings of the records gives a `RankedTable`. */
  lemma PlaceRanked<K>(s: seq<Entry<K>>, rs: seq<Record>, key: Record -> K)
    requires NonIncreasing(s) && NoDup(Keys(s))
    requires forall i :: 0 <= i < |s| ==> s[i].key in KeysOf(rs, key)
    requires forall i :: 0 <= i < |rs| ==> key(rs[i]) in Keys(s)
    requires forall i :: 0 <= i < |s| ==> s[i].total == KeySum(rs, key, s[i].key)
    ensures RankedTable(Place(s), rs, key)
  {
    var p := Place(s);
    PlacementConsistent(s);
    PlaceCoversKeys(s, rs, key);
    forall i | 0 <= i < |p|
      ensures p[i].rank == i + 1 && p[i].pos == PositionLabel(i)
      ensures p[i].key in KeysOf(rs, key) && p[i].total == KeySum(rs, key, p[i].key)
    {
      assert p[i].key == s[i].key && p[i].total == s[i].total;
    }
  }

  /** A table that meets `RankedTable` has no empty ranking: it has a row
      exactly when there are records. */
  lemma RankedTableEmpty<K>(p: seq<Placed<K>>, rs: seq<Record>, key: Record -> K)
    requires RankedTable(p, rs, key)
    ensures |p| == 0 <==> |rs| == 0
  {
    if |p| > 0 {
      assert p[0].key in KeysOf(rs, key);
    }
    if |rs| > 0 {
      assert Listed(p, key(rs[0]));
    }
  }

  /** A table that meets `RankedTable` lists exactly the keys of the
      records. */
  lemma ListedKeys<K>(p: seq<Placed<K>>, rs: seq<Record>, key: Record -> K, x: K)
    requires RankedTable(p, rs, key)
    ensures Listed(p, x) <==> x in KeysOf(rs, key)
  {
    if x in KeysOf(rs, key) {
      var j :| 0 <= j < |rs| && KeysOf(rs, key)[j] == x;
      assert Listed(p, key(rs[j]));
    }
  }

  /** A table that meets `RankedTable` has exactly as many rows as there
      are distinct keys among the records, hence at most one per record. */
  lemma RankedTableSize<K>(p: seq<Placed<K>>, rs: seq<Record>, key: Record -> K)
    requires RankedTable(p, rs, key)
    ensures |p| == |set x | x in KeysOf(rs, key)|
    ensures |p| <= |rs|
  {
    var ks := PlacedKeys(p);
    PlacedKeysDistinct(p, rs, key);
    NoDupCard(ks);
    PlacedKeysCover(p, rs, key);
    DedupCard(KeysOf(rs, key));
  }

  /** The keys of a table's rows, in order. */
  function PlacedKeys<K>(p: seq<Placed<K>>): (ks: seq<K>)
    ensures |ks| == |p|
    ensures forall i :: 0 <= i < |p| ==> ks[i] == p[i].key
  {
    seq(|p|, i requires 0 <= i < |p| => p[i].key)
  }

  lemma PlacedKeysDistinct<K>(p: seq<Placed<K>>, rs: seq<Record>, key: Record -> K)
    requires RankedTable(p, rs, key)
    ensures NoDup(PlacedKeys(p))
  {
  }

  lemma PlacedKeysCover<K>(p: seq<Placed<K>>, rs: seq<Record>, key: Record -> K)
    requires RankedTable(p, rs, key)
    ensures (set x | x in PlacedKeys(p)) == (set x | x in KeysOf(rs, key))
  {
    var ks := PlacedKeys(p);
    forall x | x in KeysOf(rs, key)
      ensures x in ks
    {
      var j :| 0 <= j < |rs| && KeysOf(rs, key)[j] == x;
      assert Listed(p, key(rs[j]));
      var i :| 0 <= i < |p| && p[i].key == x;
      assert ks[i] == x;
    }
  }

  /** Truncating a ranked table keeps its best rows: the rows shown keep
      their ranks and labels, and every row shown has at least the distance
      of every row cut off. */
  lemma HeadDominates<K>(p: seq<Placed<K>>, rs: seq<Record>, key: Record -> K, n: nat)
    requires RankedTable(p, rs, key)
    ensures forall i :: 0 <= i < |Head(p, n)| ==> Head(p, n)[i].rank == i + 1 && Head(p, n)[i].pos == PositionLabel(i)
    ensures forall i, j :: 0 <= i < |Head(p, n)| <= j < |p| ==> Head(p, n)[i].total >= p[j].total
  {
  }
}
