/** Python's ordering of `str` values and a descending sort of distinct
    strings, as `sorted(..., reverse=True)` applies it to period labels. */
module StringOrder {
  import opened Distinct

  /** `a < b` on Python strings: lexicographic by code point, with a proper
      prefix coming first. */
  predicate Below(a: string, b: string)
    decreases |a|
  {
    if |a| == 0 then |b| > 0
    else if |b| == 0 then false
    else if a[0] != b[0] then a[0] < b[0]
    else Below(a[1..], b[1..])
  }

  lemma {:induction false} BelowIrreflexive(a: string)
    ensures !Below(a, a)
    decreases |a|
  {
    if |a| > 0 {
      BelowIrreflexive(a[1..]);
    }
  }

  lemma {:induction false} BelowTransitive(a: string, b: string, c: string)
    requires Below(a, b) && Below(b, c)
    ensures Below(a, c)
    decreases |a|
  {
    if |a| > 0 && a[0] == b[0] && b[0] == c[0] {
      BelowTransitive(a[1..], b[1..], c[1..]);
    }
  }

  lemma {:induction false} BelowTotal(a: string, b: string)
    ensures a == b || Below(a, b) || Below(b, a)
    decreases |a|
  {
    if |a| > 0 && |b| > 0 && a[0] == b[0] {
      BelowTotal(a[1..], b[1..]);
      if a[1..] == b[1..] {
        assert a == [a[0]] + a[1..];
        assert b == [b[0]] + b[1..];
      }
    }
  }

  lemma BelowAsymmetric(a: string, b: string)
    ensures !(Below(a, b) && Below(b, a))
  {
    if Below(a, b) && Below(b, a) {
      BelowTransitive(a, b, a);
      BelowIrreflexive(a);
    }
  }

  /** Most recent label first: every later label is strictly below every
      earlier one. */
  predicate StrictlyDescending(s: seq<string>) {
    forall i, j :: 0 <= i < j < |s| ==> Below(s[j], s[i])
  }

  function InsertDescending(x: string, s: seq<string>): (r: seq<string>)
    requires StrictlyDescending(s) && x !in s
    ensures StrictlyDescending(r)
    ensures |r| == |s| + 1
    ensures forall y :: y in r <==> y == x || y in s
  {
    if |s| == 0 then [x]
    else if Below(s[0], x) then
      assert forall j :: 0 <= j < |s| ==> Below(s[j], x) by {
        forall j | 0 < j < |s|
          ensures Below(s[j], x)
        {
          BelowTransitive(s[j], s[0], x);
        }
      }
      [x] + s
    else
      BelowTotal(s[0], x);
      var rest := InsertDescending(x, s[1..]);
      assert forall y :: y in rest ==> Below(y, s[0]) by {
        forall y | y in rest
          ensures Below(y, s[0])
        {
          if y != x {
            var j :| 1 <= j < |s| && s[j] == y;
          }
        }
      }
      [s[0]] + rest
  }

  /** `sorted(labels, reverse=True)` for distinct labels. */
  function SortDescending(s: seq<string>): (r: seq<string>)
    requires NoDup(s)
    ensures StrictlyDescending(r)
    ensures |r| == |s|
    ensures forall y :: y in r <==> y in s
  {
    if |s| == 0 then []
    else
      var rest := SortDescending(s[1..]);
      assert s[0] !in s[1..];
      InsertDescending(s[0], rest)
  }
}
