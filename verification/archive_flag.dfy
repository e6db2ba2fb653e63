/** Classification of the Archive column: the flag is upper-cased, stripped
    and compared with a fixed set of "true" spellings. */
module ArchiveFlag {
  import opened Text

  /** The spellings both pages treat as "this row is archived". */
  const ArchiveTokens: set<string> := {"TRUE", "T", "1", "YES", "Y"}

  /** The flag as both pages rewrite it into the Archive column: no white
      space at either end, no lower-case ASCII letter, never longer than
      the cell. */
  function Normalize(flag: string): (n: string)
    ensures Trimmed(n) && |n| <= |flag|
    ensures forall k :: 0 <= k < |n| ==> !('a' <= n[k] <= 'z')
  {
    StripChars(Upper(flag));
    Strip(Upper(flag))
  }

  /** The flag marks an archived row exactly when, after removing
      white-space padding from both ends, it upper-cases to one of the five
      tokens. */
  predicate IsArchived(flag: string): (b: bool)
    ensures b <==> exists i, j :: PaddedToken(flag, i, j)
  {
    ArchivedIff(flag);
    Normalize(flag) in ArchiveTokens
  }

  lemma TokensTrimmed(t: string)
    requires t in ArchiveTokens
    ensures Trimmed(t) && |t| > 0
  {
  }

  /** The padding-and-case description of an archived flag: some piece of the
      flag, with only white space around it, upper-cases to a token. */
  predicate PaddedToken(flag: string, i: int, j: int) {
    && 0 <= i <= j <= |flag|
    && AllSpace(flag[..i]) && AllSpace(flag[j..])
    && Upper(flag[i..j]) in ArchiveTokens
  }

  /** The normalized flag is a token exactly when some padded piece of the
      flag upper-cases to one. */
  lemma ArchivedIff(flag: string)
    ensures Normalize(flag) in ArchiveTokens <==> exists i, j :: PaddedToken(flag, i, j)
  {
    if Normalize(flag) in ArchiveTokens {
      var i, j := ArchivedHasCore(flag);
    }
    if exists i, j :: PaddedToken(flag, i, j) {
      var i, j :| PaddedToken(flag, i, j);
      PaddedTokenIsArchived(flag, i, j);
    }
  }

  lemma ArchivedHasCore(flag: string) returns (i: int, j: int)
    requires Normalize(flag) in ArchiveTokens
    ensures PaddedToken(flag, i, j)
  {
    StripUpperCommute(flag);
    i, j := StripKeepsCore(flag);
  }

  lemma PaddedTokenIsArchived(flag: string, i: int, j: int)
    requires PaddedToken(flag, i, j)
    ensures Normalize(flag) in ArchiveTokens
  {
    var m := flag[i..j];
    TokensTrimmed(Upper(m));
    assert Trimmed(m);
    assert flag == flag[..i] + m + flag[j..];
    StripOfPadded(flag[..i], m, flag[j..]);
    StripUpperCommute(flag);
  }

  /** Normalizing an already normalized flag changes nothing, so the
      rewritten Archive column classifies every row the same way again. */
  lemma NormalizeIdempotent(flag: string)
    ensures Normalize(Normalize(flag)) == Normalize(flag)
    ensures IsArchived(Normalize(flag)) <==> IsArchived(flag)
  {
    var n := Normalize(flag);
    StripUpperCommute(Upper(flag));
    UpperIdempotent(flag);
    StripTrimmed(n);
  }

  /** Spellings that are archived: the words in either case. */
  lemma ArchivedExamples()
    ensures IsArchived("true") && IsArchived("TRUE") && IsArchived("yes")
  {
    assert Upper("true") == "TRUE" == Upper("TRUE");
    StripTrimmed("TRUE");
    assert Upper("yes") == "YES";
    StripTrimmed("YES");
  }

  /** The short spellings, with and without padding. */
  lemma ArchivedShortExamples()
    ensures IsArchived(" T ") && IsArchived("1") && IsArchived(" y")
  {
    assert PaddedToken(" T ", 1, 2) by { assert " T "[1..2] == "T"; assert Upper("T") == "T"; }
    PaddedTokenIsArchived(" T ", 1, 2);
    assert PaddedToken("1", 0, 1) by { assert "1"[0..1] == "1"; assert Upper("1") == "1"; }
    PaddedTokenIsArchived("1", 0, 1);
    assert PaddedToken(" y", 1, 2) by { assert " y"[1..2] == "y"; assert Upper("y") == "Y"; }
    PaddedTokenIsArchived(" y", 1, 2);
  }

  /** Spellings that stay current: the negative words and the empty cell. */
  lemma CurrentExamples()
    ensures !IsArchived("false") && !IsArchived("0") && !IsArchived("")
  {
    assert Upper("false") == "FALSE";
    StaysCurrent("false", "FALSE");
    assert Upper("0") == "0";
    StaysCurrent("0", "0");
    StaysCurrent("", "");
  }

  /** What a blank cell reads as after `astype(str)` ("nan") and a numeric
      cell ("1.0") stay current too. */
  lemma CurrentCellExamples()
    ensures !IsArchived("nan") && !IsArchived("1.0")
  {
    assert Upper("nan") == "NAN";
    StaysCurrent("nan", "NAN");
    assert Upper("1.0") == "1.0";
    StaysCurrent("1.0", "1.0");
  }

  /** A flag whose upper case is already trimmed and is no token stays
      current. */
  lemma StaysCurrent(flag: string, u: string)
    requires Upper(flag) == u && Trimmed(u) && u !in ArchiveTokens
    ensures !IsArchived(flag)
  {
    StripTrimmed(u);
  }
}
