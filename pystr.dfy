/**
 * The few Python string built-ins the scraper relies on, over `seq<char>`:
 * substring membership (`pat in s`), `s.find(pat, start)` and the last piece
 * of `s.split(pat)`.
 */
module PyStr {

  /** `pat` occurs in `s` starting at index `i`. */
  predicate MatchesAt(s: string, pat: string, i: int)
  {
    0 <= i && i + |pat| <= |s| && s[i..i + |pat|] == pat
  }

  /** The first `n` characters of `s` end with `pat`. */
  predicate EndsWithAt(s: string, pat: string, n: int)
  {
    |pat| <= n <= |s| && s[n - |pat|..n] == pat
  }

  /** Python's `pat in s` for strings. */
  predicate Contains(s: string, pat: string)
  {
    exists i | 0 <= i <= |s| - |pat| :: MatchesAt(s, pat, i)
  }

  /**
   * Python's `s.find(pat, start)`: the lowest index at or after `start` where
   * `pat` occurs, or -1 when there is none.
   */
  function Find(s: string, pat: string, start: nat): (r: int)
    ensures r == -1 || (start <= r && MatchesAt(s, pat, r))
    ensures r == -1 ==> forall i :: start <= i ==> !MatchesAt(s, pat, i)
    ensures r != -1 ==> forall i :: start <= i < r ==> !MatchesAt(s, pat, i)
    decreases |s| - start
  {
    if start + |pat| > |s| then -1
    else if MatchesAt(s, pat, start) then start
    else Find(s, pat, start + 1)
  }

  /** `pat in s` holds exactly when `s.find(pat)` finds a match. */
  lemma ContainsIffFound(s: string, pat: string)
    ensures Contains(s, pat) <==> Find(s, pat, 0) >= 0
  {
    var r := Find(s, pat, 0);
    if r >= 0 {
      assert MatchesAt(s, pat, r);
    }
  }

  /**
   * `s.split(pat)[-1]`: Python's split scans from the left, cutting at each
   * match it finds and resuming the search just after that match, so matches
   * never overlap; the last piece is what follows the last cut. An empty
   * separator makes Python raise, hence the requires.
   */
  function LastPiece(s: string, pat: string): (r: string)
    requires |pat| > 0
    ensures |r| <= |s|
    decreases |s|
  {
    var i := Find(s, pat, 0);
    if i < 0 then s else LastPiece(s[i + |pat|..], pat)
  }

  /** A slice of a suffix is a slice of the whole. */
  lemma DropSlice(s: string, k: nat, a: nat, b: nat)
    requires k <= |s| && a <= b <= |s| - k
    ensures s[k..][a..b] == s[k + a..k + b]
  {
  }

  /**
   * A match was found: the last piece is the last piece of what follows that
   * first match.
   */
  lemma LastPieceStep(s: string, pat: string, i: int)
    requires |pat| > 0 && i == Find(s, pat, 0) && i >= 0
    ensures MatchesAt(s, pat, i) && LastPiece(s, pat) == LastPiece(s[i + |pat|..], pat)
  {
  }

  /** No match was found: there is no cut. */
  lemma LastPieceNoCut(s: string, pat: string, i: int)
    requires |pat| > 0 && i == Find(s, pat, 0) && i < 0
    ensures LastPiece(s, pat) == s
  {
  }

  /**
   * The position of the last cut: the last piece is what follows it, and
   * unless it is 0 (no cut at all) a copy of the separator ends there.
   */
  lemma {:induction false} LastCut(s: string, pat: string) returns (c: nat)
    requires |pat| > 0
    ensures c <= |s| && LastPiece(s, pat) == s[c..]
    ensures c == 0 || EndsWithAt(s, pat, c)
    decreases |s|
  {
    var i := Find(s, pat, 0);
    if i < 0 {
      LastPieceNoCut(s, pat, i);
      c := 0;
    } else {
      LastPieceStep(s, pat, i);
      var k := i + |pat|;
      var c' := LastCut(s[k..], pat);
      c := k + c';
      assert s[k..][c'..] == s[c..];
      if c' == 0 {
        assert s[c - |pat|..c] == s[i..i + |pat|];
      } else {
        DropSlice(s, k, c' - |pat|, c');
      }
    }
  }

  /** The last piece is a suffix of `s`. */
  lemma LastPieceIsSuffix(s: string, pat: string)
    requires |pat| > 0
    ensures LastPiece(s, pat) == s[|s| - |LastPiece(s, pat)|..]
  {
    var c := LastCut(s, pat);
  }

  /**
   * When the last piece is shorter than `s`, it is preceded in `s` by a copy
   * of the separator (the last cut).
   */
  lemma LastPieceFollowsCut(s: string, pat: string)
    requires |pat| > 0
    ensures |LastPiece(s, pat)| < |s| ==> EndsWithAt(s, pat, |s| - |LastPiece(s, pat)|)
  {
    var c := LastCut(s, pat);
  }

  /** The last piece holds no match of the separator. */
  lemma {:induction false} LastPieceHasNoMatch(s: string, pat: string)
    requires |pat| > 0
    ensures !Contains(LastPiece(s, pat), pat)
    decreases |s|
  {
    var i := Find(s, pat, 0);
    if i >= 0 {
      LastPieceHasNoMatch(s[i + |pat|..], pat);
    } else {
      LastPieceNoCut(s, pat, i);
    }
  }

  /** Without a match there is no cut: the last piece is the whole string. */
  lemma LastPieceWithoutMatch(s: string, pat: string)
    requires |pat| > 0 && !Contains(s, pat)
    ensures LastPiece(s, pat) == s
  {
  }

  /**
   * The piece after the last cut splits `s` into a prefix, one copy of the
   * separator and the piece.
   */
  lemma LastPieceSplits(s: string, pat: string)
    requires |pat| > 0 && Contains(s, pat)
    ensures var r := LastPiece(s, pat);
            s == s[..|s| - |r| - |pat|] + pat + r
  {
    var r := LastPiece(s, pat);
    LastPieceIsSuffix(s, pat);
    LastPieceFollowsCut(s, pat);
    LastPieceHasNoMatch(s, pat);
    assert |r| < |s|;
    var k := |s| - |r| - |pat|;
    assert s[k..k + |pat|] == pat;
    assert s[k + |pat|..] == r;
    assert s == s[..k] + s[k..k + |pat|] + s[k + |pat|..];
  }

  /**
   * Round trip: joining `base`, the separator and a piece free of the
   * separator gives back that piece, provided no match of the separator
   * starts inside `base` (a match may otherwise begin in `base` and end in
   * the appended separator, and the scan would cut there instead).
   */
  lemma {:induction false} LastPieceOfJoin(base: string, pat: string, piece: string)
    requires |pat| > 0
    requires !Contains(base + pat[..|pat| - 1], pat)
    requires !Contains(piece, pat)
    ensures LastPiece(base + pat + piece, pat) == piece
  {
    var s := base + pat + piece;
    var n := |base|;
    assert s[n..n + |pat|] == pat;
    assert MatchesAt(s, pat, n);
    forall j | 0 <= j < n
      ensures !MatchesAt(s, pat, j)
    {
      if MatchesAt(s, pat, j) {
        var t := base + pat[..|pat| - 1];
        assert s[j..j + |pat|] == t[j..j + |pat|];
        assert MatchesAt(t, pat, j);
        assert false;
      }
    }
    var i := Find(s, pat, 0);
    assert i == n;
    assert s[n + |pat|..] == piece;
    LastPieceWithoutMatch(piece, pat);
  }

  /** No two occurrences of `pat` in `s` share a character. */
  ghost predicate NoOverlappingMatches(s: string, pat: string)
  {
    forall i, j :: 0 <= i < j && MatchesAt(s, pat, i) && MatchesAt(s, pat, j) ==> i + |pat| <= j
  }

  /** A match in a suffix of `s` is a match in `s`, shifted by where the suffix starts. */
  lemma MatchInSuffix(s: string, pat: string, k: nat, m: int)
    requires k <= |s|
    ensures MatchesAt(s[k..], pat, m) <==> m >= 0 && MatchesAt(s, pat, k + m)
  {
    if m >= 0 && m + |pat| <= |s| - k {
      DropSlice(s, k, m, m + |pat|);
    }
  }

  /**
   * When no two occurrences of the separator overlap, the scan's last piece
   * is the text after the rightmost occurrence.
   */
  lemma LastPieceAfterRightmostMatch(s: string, pat: string, j: nat)
    requires |pat| > 0 && NoOverlappingMatches(s, pat)
    requires MatchesAt(s, pat, j) && forall m :: j < m ==> !MatchesAt(s, pat, m)
    ensures LastPiece(s, pat) == s[j + |pat|..]
  {
    var c := LastCut(s, pat);
    LastPieceHasNoMatch(s, pat);
    // the piece holds no match, so the match at j starts before the cut
    MatchInSuffix(s, pat, c, j - c);
    assert j < c;
    // so there is a cut, and the separator that ends there is a match
    assert MatchesAt(s, pat, c - |pat|);
    // which is neither after the rightmost match nor overlapping it
    assert c - |pat| == j;
  }

  /**
   * Because "/projects/" begins and ends with '/', two of its occurrences can
   * share that character; the scan takes the left one and skips the other,
   * so the last piece is not always the text after the rightmost occurrence.
   */
  lemma OverlappingMarkerExample()
    ensures LastPiece("a/projects/projects/b", "/projects/") == "projects/b"
    ensures MatchesAt("a/projects/projects/b", "/projects/", 10)
    ensures !NoOverlappingMatches("a/projects/projects/b", "/projects/")
  {
    var s := "a/projects/projects/b";
    var pat := "/projects/";
    assert s[0..10][0] == 'a';
    assert !MatchesAt(s, pat, 0);
    assert MatchesAt(s, pat, 1);
    assert Find(s, pat, 0) == 1;
    var rest := "projects/b";
    assert s[11..] == rest;
    assert !Contains(rest, pat) by {
      forall i ensures !MatchesAt(rest, pat, i) {
        if 0 <= i && i + |pat| <= |rest| {
          assert i == 0;
          assert rest[0..10][0] != pat[0];
        }
      }
    }
    LastPieceWithoutMatch(rest, pat);
    assert MatchesAt(s, pat, 10) && 1 + |pat| > 10;
  }
}
