/** Character-level helpers for the archive flag: Python's `str.upper()` and
    `str.strip()` as both pages apply them to the Archive column. */
module Text {

  /** Python's `str.isspace()` for one character: the Unicode white-space
      characters plus the four ASCII information separators. */
  predicate IsSpace(c: char) {
    || c == ' '
    || ('\t' <= c <= '\r')
    || ('\U{1C}' <= c <= '\U{1F}')
    || c == '\U{85}'
    || c == '\U{A0}'
    || c == '\U{1680}'
    || ('\U{2000}' <= c <= '\U{200A}')
    || c == '\U{2028}'
    || c == '\U{2029}'
    || c == '\U{202F}'
    || c == '\U{205F}'
    || c == '\U{3000}'
  }

  predicate AllSpace(s: string) {
    forall i :: 0 <= i < |s| ==> IsSpace(s[i])
  }

  /** No white space at either end: the shape `strip()` leaves behind. */
  predicate Trimmed(s: string) {
    |s| == 0 || (!IsSpace(s[0]) && !IsSpace(s[|s| - 1]))
  }

  /** `str.upper()` on one character, for the ASCII letters and for the two
      non-ASCII letters whose upper case is an ASCII letter (dotless i and
      long s). Every other character is left as it is. */
  function UpperChar(c: char): (u: char)
    ensures IsSpace(u) <==> IsSpace(c)
    ensures 'a' <= c <= 'z' ==> 'A' <= u <= 'Z' && u as int + 32 == c as int
    ensures c == '\U{131}' ==> u == 'I'
    ensures c == '\U{17F}' ==> u == 'S'
    ensures !('a' <= c <= 'z') && c != '\U{131}' && c != '\U{17F}' ==> u == c
    ensures !('a' <= u <= 'z')
  {
    if 'a' <= c <= 'z' then (c as int - 32) as char
    else if c == '\U{131}' then 'I'
    else if c == '\U{17F}' then 'S'
    else c
  }

  function Upper(s: string): (u: string)
    ensures |u| == |s|
    ensures forall i :: 0 <= i < |s| ==> u[i] == UpperChar(s[i])
  {
    seq(|s|, i requires 0 <= i < |s| => UpperChar(s[i]))
  }

  /** `str.strip()`: drops white space from both ends. */
  function Strip(s: string): (r: string)
    ensures Trimmed(r)
    ensures |r| <= |s|
    decreases |s|
  {
    if |s| == 0 then s
    else if IsSpace(s[0]) then Strip(s[1..])
    else if IsSpace(s[|s| - 1]) then Strip(s[..|s| - 1])
    else s
  }

  /** Stripping only removes characters: every character left was in the
      input. */
  lemma StripChars(s: string)
    ensures forall k :: 0 <= k < |Strip(s)| ==> Strip(s)[k] in s
  {
    var i, j := StripKeepsCore(s);
    forall k | 0 <= k < |Strip(s)|
      ensures Strip(s)[k] in s
    {
      assert Strip(s)[k] == s[i + k];
    }
  }

  lemma AllSpaceConcat(a: string, b: string)
    ensures AllSpace(a + b) <==> AllSpace(a) && AllSpace(b)
  {
    if AllSpace(a) && AllSpace(b) {
      forall k | 0 <= k < |a + b|
        ensures IsSpace((a + b)[k])
      {
        if k >= |a| {
          assert (a + b)[k] == b[k - |a|];
        }
      }
    }
    if AllSpace(a + b) {
      forall k | 0 <= k < |a|
        ensures IsSpace(a[k])
      {
        assert (a + b)[k] == a[k];
      }
      forall k | 0 <= k < |b|
        ensures IsSpace(b[k])
      {
        assert (a + b)[|a| + k] == b[k];
      }
    }
  }

  /** What `Strip` keeps is one contiguous piece of its input, s[i..j], and
      all it drops is white space. */
  lemma {:induction false} StripKeepsCore(s: string) returns (i: int, j: int)
    ensures 0 <= i <= j <= |s| && Strip(s) == s[i..j]
    ensures AllSpace(s[..i]) && AllSpace(s[j..])
    decreases |s|
  {
    if |s| == 0 {
      i, j := 0, 0;
    } else if IsSpace(s[0]) {
      var t := s[1..];
      var a, b := StripKeepsCore(t);
      i, j := a + 1, b + 1;
      DropFront(s, a, b);
    } else if IsSpace(s[|s| - 1]) {
      var t := s[..|s| - 1];
      i, j := StripKeepsCore(t);
      DropBack(s, i, j);
    } else {
      i, j := 0, |s|;
      assert s[|s|..] == [];
    }
  }

  lemma DropFront(s: string, a: int, b: int)
    requires |s| > 0 && IsSpace(s[0]) && 0 <= a <= b <= |s| - 1
    requires AllSpace(s[1..][..a]) && AllSpace(s[1..][b..])
    ensures s[1..][a..b] == s[a + 1..b + 1]
    ensures AllSpace(s[..a + 1]) && AllSpace(s[b + 1..])
  {
    var t := s[1..];
    assert t[a..b] == s[a + 1..b + 1];
    assert t[b..] == s[b + 1..];
    assert s[..a + 1] == [s[0]] + t[..a];
    AllSpaceConcat([s[0]], t[..a]);
  }

  lemma DropBack(s: string, i: int, j: int)
    requires |s| > 0 && IsSpace(s[|s| - 1]) && 0 <= i <= j <= |s| - 1
    requires AllSpace(s[..|s| - 1][..i]) && AllSpace(s[..|s| - 1][j..])
    ensures s[..|s| - 1][i..j] == s[i..j]
    ensures AllSpace(s[..i]) && AllSpace(s[j..])
  {
    var t := s[..|s| - 1];
    assert t[..i] == s[..i];
    assert s[j..] == t[j..] + [s[|s| - 1]];
    AllSpaceConcat(t[j..], [s[|s| - 1]]);
  }

  /** `Strip` undoes white-space padding around a trimmed string. */
  lemma {:induction false} StripOfPadded(l: string, m: string, t: string)
    requires AllSpace(l) && AllSpace(t) && Trimmed(m)
    ensures Strip(l + m + t) == m
    decreases |l| + |t|
  {
    var s := l + m + t;
    if |l| > 0 {
      assert s[0] == l[0];
      assert s[1..] == l[1..] + m + t;
      StripOfPadded(l[1..], m, t);
    } else if |m| > 0 {
      assert s[0] == m[0];
      if |t| > 0 {
        assert s[|s| - 1] == t[|t| - 1];
        assert s[..|s| - 1] == l + m + t[..|t| - 1];
        StripOfPadded(l, m, t[..|t| - 1]);
      } else {
        assert s == m;
      }
    } else if |t| > 0 {
      assert s == t;
      assert s[1..] == l + m + t[1..];
      StripOfPadded(l, m, t[1..]);
    } else {
      assert s == [];
    }
  }

  /** Upper-casing never creates or removes white space, so upper-casing
      before or after stripping gives the same string. */
  lemma {:induction false} StripUpperCommute(s: string)
    ensures Strip(Upper(s)) == Upper(Strip(s))
    decreases |s|
  {
    var u := Upper(s);
    if |s| > 0 {
      if IsSpace(s[0]) {
        assert IsSpace(u[0]);
        assert u[1..] == Upper(s[1..]);
        StripUpperCommute(s[1..]);
        assert Strip(u) == Strip(u[1..]);
      } else if IsSpace(s[|s| - 1]) {
        assert !IsSpace(u[0]) && IsSpace(u[|u| - 1]);
        assert u[..|u| - 1] == Upper(s[..|s| - 1]);
        StripUpperCommute(s[..|s| - 1]);
        assert Strip(u) == Strip(u[..|u| - 1]);
      } else {
        assert !IsSpace(u[0]) && !IsSpace(u[|u| - 1]);
      }
    }
  }

  /** Upper-casing twice is upper-casing once. */
  lemma UpperIdempotent(s: string)
    ensures Upper(Upper(s)) == Upper(s)
  {
  }

  /** Stripping a trimmed string changes nothing. */
  lemma StripTrimmed(s: string)
    requires Trimmed(s)
    ensures Strip(s) == s
  {
    StripOfPadded([], s, []);
    assert [] + s + [] == s;
  }
}
