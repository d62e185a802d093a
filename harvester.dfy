/**
 * The identifier-harvesting loop of the scraper, with the browser replaced by
 * its only output that matters here: the sequence of `href` attributes of the
 * links the page query returned, in document order.
 */
module Harvester {
  import opened PyStr

  /** The path segment that marks a project link. */
  const Marker: string := "/projects/"

  /** The limit the driver passes. */
  const DefaultLimit: int := 5

  /** A sequence without repeated elements. */
  predicate NoDuplicates<T(==)>(s: seq<T>)
  {
    forall i, j :: 0 <= i < j < |s| ==> s[i] != s[j]
  }

  /** The index of the first occurrence of `x` in `xs`. */
  function FirstIndex<T(==)>(xs: seq<T>, x: T): (k: nat)
    requires x in xs
    ensures k < |xs| && xs[k] == x && x !in xs[..k]
  {
    if xs[0] == x then 0
    else
      var k := 1 + FirstIndex(xs[1..], x);
      assert xs[..k] == [xs[0]] + xs[1..][..k - 1];
      k
  }

  /**
   * The identifier a matching link yields: the last piece of its split, a
   * suffix of the link that never contains the marker.
   */
  function ProjectId(href: string): (id: string)
    ensures |id| <= |href| && id == href[|href| - |id|..]
    ensures !Contains(id, Marker)
  {
    LastPieceIsSuffix(href, Marker);
    LastPieceHasNoMatch(href, Marker);
    LastPiece(href, Marker)
  }

  /**
   * The identifiers of the matching links, in link order, repeats included:
   * the links the loop body acts on, mapped to their identifiers.
   */
  function Extracted(hrefs: seq<string>): (ids: seq<string>)
    ensures |ids| <= |hrefs|
  {
    if hrefs == [] then []
    else
      var last := hrefs[|hrefs| - 1];
      Extracted(hrefs[..|hrefs| - 1]) + (if Contains(last, Marker) then [ProjectId(last)] else [])
  }

  /** First-seen deduplication: each element kept at its first occurrence. */
  function Dedup<T(==)>(xs: seq<T>): (r: seq<T>)
  {
    if xs == [] then []
    else
      var d := Dedup(xs[..|xs| - 1]);
      if xs[|xs| - 1] in d then d else d + [xs[|xs| - 1]]
  }

  /** The first `n` distinct identifiers, in order of first occurrence. */
  function FirstDistinctIds(hrefs: seq<string>, n: nat): (ids: seq<string>)
    ensures |ids| <= n
  {
    var d := Dedup(Extracted(hrefs));
    if |d| <= n then d else d[..n]
  }

  /**
   * `get_undp_project_ids` once the page has been queried. The limit check
   * follows the append and sits outside the membership test, so it runs after
   * every link: with a limit of at least one, the result is the first `limit`
   * distinct identifiers; with a limit of zero or less the loop stops after
   * the first link, whatever that link yields.
   */
  method GetProjectIds(hrefs: seq<string>, limit: int) returns (ids: seq<string>)
    ensures limit >= 1 ==> ids == FirstDistinctIds(hrefs, limit)
    ensures limit <= 0 ==>
              ids == if |hrefs| > 0 && Contains(hrefs[0], Marker) then [ProjectId(hrefs[0])] else []
  {
    ids := [];
    var i := 0;
    while i < |hrefs|
      invariant 0 <= i <= |hrefs|
      invariant ids == Dedup(Extracted(hrefs[..i]))
      invariant i == 0 || |ids| < limit
    {
      var href := hrefs[i];
      assert hrefs[..i + 1][..i] == hrefs[..i];
      assert Extracted(hrefs[..i + 1]) ==
             Extracted(hrefs[..i]) + (if Contains(href, Marker) then [ProjectId(href)] else []);
      if Contains(href, Marker) {
        var projectId := LastPiece(href, Marker);
        DedupSnoc(Extracted(hrefs[..i]), projectId);
        if projectId !in ids {
          ids := ids + [projectId];
        }
      } else {
        assert Extracted(hrefs[..i + 1]) == Extracted(hrefs[..i]) + [];
        assert Extracted(hrefs[..i]) + [] == Extracted(hrefs[..i]);
      }
      i := i + 1;
      if |ids| >= limit {
        if limit >= 1 {
          TakenAtLimit(hrefs, i, limit);
        } else {
          assert hrefs[..1] == [hrefs[0]];
        }
        return;
      }
    }
    assert hrefs[..i] == hrefs;
  }

  // ---------------------------------------------------------------------
  // Properties of the specification functions
  // ---------------------------------------------------------------------

  /** Deduplication yields no repeats and keeps exactly the elements of its input. */
  lemma {:induction false} DedupElements<T>(xs: seq<T>)
    ensures NoDuplicates(Dedup(xs))
    ensures forall x :: x in Dedup(xs) ==> x in xs
    ensures forall x :: x in xs ==> x in Dedup(xs)
  {
    if xs != [] {
      var init := xs[..|xs| - 1];
      DedupElements(init);
      assert xs == init + [xs[|xs| - 1]];
    }
  }

  /** One more input element is appended exactly when it has not been seen. */
  lemma DedupSnoc<T>(xs: seq<T>, y: T)
    ensures Dedup(xs + [y]) == if y in Dedup(xs) then Dedup(xs) else Dedup(xs) + [y]
  {
    assert (xs + [y])[..|xs|] == xs;
  }

  /** Appending at most one element adds at most one to the deduplication. */
  lemma DedupGrowsByAtMostOne<T>(xs: seq<T>, ys: seq<T>)
    requires |ys| <= 1
    ensures |Dedup(xs + ys)| <= |Dedup(xs)| + 1
  {
    if |ys| == 1 {
      assert ys == [ys[0]];
      DedupSnoc(xs, ys[0]);
    } else {
      assert xs + ys == xs;
    }
  }

  /** Extending the input only extends the deduplication. */
  lemma {:induction false} DedupPrefix<T>(xs: seq<T>, ys: seq<T>)
    requires xs <= ys
    ensures Dedup(xs) <= Dedup(ys)
    decreases |ys|
  {
    if |ys| > |xs| {
      var init := ys[..|ys| - 1];
      assert xs <= init;
      DedupPrefix(xs, init);
    } else {
      assert xs == ys;
    }
  }

  /** Extracting from a prefix of the links gives a prefix of the identifiers. */
  lemma {:induction false} ExtractedPrefix(hrefs: seq<string>, i: nat)
    requires i <= |hrefs|
    ensures Extracted(hrefs[..i]) <= Extracted(hrefs)
    decreases |hrefs|
  {
    if i < |hrefs| {
      var init := hrefs[..|hrefs| - 1];
      assert init[..i] == hrefs[..i];
      ExtractedPrefix(init, i);
    } else {
      assert hrefs[..i] == hrefs;
    }
  }

  /**
   * Round trip: a link built from a prefix, the marker and an identifier free
   * of the marker yields that identifier, provided no match of the marker
   * starts inside the prefix (not even one ending in the appended marker).
   */
  lemma ProjectIdOfLink(prefix: string, id: string)
    requires !Contains(prefix + Marker[..|Marker| - 1], Marker) && !Contains(id, Marker)
    ensures Contains(prefix + Marker + id, Marker)
    ensures ProjectId(prefix + Marker + id) == id
  {
    LastPieceOfJoin(prefix, Marker, id);
    var link := prefix + Marker + id;
    assert link[|prefix|..|prefix| + |Marker|] == Marker;
    assert MatchesAt(link, Marker, |prefix|);
  }

  /** A single link yields its identifier exactly when it contains the marker. */
  lemma ExtractedSingleton(href: string)
    ensures Extracted([href]) == if Contains(href, Marker) then [ProjectId(href)] else []
  {
    assert [href][..0] == [];
  }

  /** Extraction distributes over concatenation of link sequences. */
  lemma {:induction false} ExtractedAppend(a: seq<string>, b: seq<string>)
    ensures Extracted(a + b) == Extracted(a) + Extracted(b)
    decreases |b|
  {
    if b == [] {
      assert a + b == a;
    } else {
      var init := b[..|b| - 1];
      assert (a + b)[..|a + b| - 1] == a + init;
      ExtractedAppend(a, init);
    }
  }

  /** Where the loop stops at a positive limit, it holds the first `limit` distinct ids. */
  lemma TakenAtLimit(hrefs: seq<string>, i: nat, limit: nat)
    requires 1 <= i <= |hrefs| && limit >= 1
    requires |Dedup(Extracted(hrefs[..i - 1]))| < limit <= |Dedup(Extracted(hrefs[..i]))|
    ensures FirstDistinctIds(hrefs, limit) == Dedup(Extracted(hrefs[..i]))
  {
    var e := Extracted(hrefs[..i]);
    var init := hrefs[..i - 1];
    var h := hrefs[i - 1];
    assert hrefs[..i] == init + [h];
    ExtractedAppend(init, [h]);
    ExtractedSingleton(h);
    DedupGrowsByAtMostOne(Extracted(init), Extracted([h]));
    assert |Dedup(e)| == limit;
    ExtractedPrefix(hrefs, i);
    DedupPrefix(e, Extracted(hrefs));
  }

  /** The harvested identifiers are pairwise distinct. */
  lemma HarvestNoDuplicates(hrefs: seq<string>, n: nat)
    ensures NoDuplicates(FirstDistinctIds(hrefs, n))
  {
    DedupElements(Extracted(hrefs));
  }

  /**
   * Exactly `min(n, d)` identifiers are harvested, `d` being the number of
   * distinct identifiers the links yield: no padding, no early stop.
   */
  lemma HarvestLength(hrefs: seq<string>, n: nat)
    ensures var d := Dedup(Extracted(hrefs));
            |FirstDistinctIds(hrefs, n)| == if |d| <= n then |d| else n
    ensures |FirstDistinctIds(hrefs, n)| <= n
  {
  }

  /** The harvest is a prefix of the first-seen deduplication of all identifiers. */
  lemma HarvestIsPrefix(hrefs: seq<string>, n: nat)
    ensures FirstDistinctIds(hrefs, n) <= Dedup(Extracted(hrefs))
  {
  }

  /** Every extracted identifier is the last piece of some link that contains the marker. */
  lemma {:induction false} ExtractedComesFromLink(hrefs: seq<string>, x: string)
    requires x in Extracted(hrefs)
    ensures exists i :: 0 <= i < |hrefs| && Contains(hrefs[i], Marker) && ProjectId(hrefs[i]) == x
    decreases |hrefs|
  {
    var init := hrefs[..|hrefs| - 1];
    if x in Extracted(init) {
      ExtractedComesFromLink(init, x);
      var i :| 0 <= i < |init| && Contains(init[i], Marker) && ProjectId(init[i]) == x;
      assert hrefs[i] == init[i];
    } else {
      assert Contains(hrefs[|init|], Marker) && ProjectId(hrefs[|init|]) == x;
    }
  }

  /** Every link that contains the marker contributes its last piece. */
  lemma {:induction false} MatchingLinkExtracted(hrefs: seq<string>, i: int)
    requires 0 <= i < |hrefs| && Contains(hrefs[i], Marker)
    ensures ProjectId(hrefs[i]) in Extracted(hrefs)
    decreases |hrefs|
  {
    var init := hrefs[..|hrefs| - 1];
    if i < |init| {
      MatchingLinkExtracted(init, i);
      assert init[i] == hrefs[i];
    }
  }

  /**
   * An identifier is extracted exactly when some link contains the marker
   * and has it as its last piece.
   */
  lemma ExtractedOrigin(hrefs: seq<string>, x: string)
    ensures x in Extracted(hrefs) <==>
              exists i :: 0 <= i < |hrefs| && Contains(hrefs[i], Marker) && ProjectId(hrefs[i]) == x
  {
    if x in Extracted(hrefs) {
      ExtractedComesFromLink(hrefs, x);
    }
    if exists i :: 0 <= i < |hrefs| && Contains(hrefs[i], Marker) && ProjectId(hrefs[i]) == x {
      var i :| 0 <= i < |hrefs| && Contains(hrefs[i], Marker) && ProjectId(hrefs[i]) == x;
      MatchingLinkExtracted(hrefs, i);
    }
  }

  /**
   * Each harvested identifier is the last piece of the split of some link
   * that contains the marker.
   */
  lemma HarvestOrigin(hrefs: seq<string>, n: nat, x: string)
    requires x in FirstDistinctIds(hrefs, n)
    ensures exists i :: 0 <= i < |hrefs| && Contains(hrefs[i], Marker) && ProjectId(hrefs[i]) == x
  {
    var r := FirstDistinctIds(hrefs, n);
    var k :| 0 <= k < |r| && r[k] == x;
    assert Dedup(Extracted(hrefs))[k] == x;
    DedupElements(Extracted(hrefs));
    ExtractedComesFromLink(hrefs, x);
  }

  /**
   * A harvested identifier is what follows the last cut of its link: the
   * link is a prefix, the marker and the identifier, and the identifier
   * itself does not contain the marker.
   */
  lemma HarvestShape(hrefs: seq<string>, n: nat, x: string)
    requires x in FirstDistinctIds(hrefs, n)
    ensures exists i, prefix :: 0 <= i < |hrefs| && Contains(hrefs[i], Marker) &&
              ProjectId(hrefs[i]) == x && hrefs[i] == prefix + Marker + x
    ensures !Contains(x, Marker)
  {
    HarvestOrigin(hrefs, n, x);
    var i :| 0 <= i < |hrefs| && Contains(hrefs[i], Marker) && ProjectId(hrefs[i]) == x;
    LastPieceSplits(hrefs[i], Marker);
    LastPieceHasNoMatch(hrefs[i], Marker);
    var href := hrefs[i];
    var prefix := href[..|href| - |x| - |Marker|];
    assert hrefs[i] == prefix + Marker + x;
  }

  /** A link without the marker contributes nothing, wherever it stands. */
  lemma NonMatchingLinkIgnored(a: seq<string>, href: string, b: seq<string>, n: nat)
    requires !Contains(href, Marker)
    ensures FirstDistinctIds(a + [href] + b, n) == FirstDistinctIds(a + b, n)
  {
    assert [href][..0] == [];
    assert Extracted([href]) == [];
    calc {
      Extracted(a + [href] + b);
      { ExtractedAppend(a + [href], b); }
      Extracted(a + [href]) + Extracted(b);
      { ExtractedAppend(a, [href]); assert Extracted(a) + [] == Extracted(a); }
      Extracted(a) + Extracted(b);
      { ExtractedAppend(a, b); }
      Extracted(a + b);
    }
  }

  /** Deduplication lists elements in increasing order of their first occurrence. */
  lemma {:induction false} DedupFirstSeenOrder<T>(xs: seq<T>)
    ensures forall i, j :: 0 <= i < j < |Dedup(xs)| ==>
              Dedup(xs)[i] in xs && Dedup(xs)[j] in xs &&
              FirstIndex(xs, Dedup(xs)[i]) < FirstIndex(xs, Dedup(xs)[j])
  {
    if xs != [] {
      var init := xs[..|xs| - 1];
      var y := xs[|xs| - 1];
      DedupFirstSeenOrder(init);
      DedupElements(init);
      assert xs == init + [y];
      var d0, d := Dedup(init), Dedup(xs);
      DedupSnoc(init, y);
      forall i, j | 0 <= i < j < |Dedup(xs)|
        ensures Dedup(xs)[i] in xs && Dedup(xs)[j] in xs &&
                FirstIndex(xs, Dedup(xs)[i]) < FirstIndex(xs, Dedup(xs)[j])
      {
        assert i < |d0| && d[i] == d0[i] && d0[i] in d0;
        assert d0[i] in init;
        FirstIndexOfExtension(init, y, d0[i]);
        if j < |d0| {
          FirstIndexOfExtension(init, y, d0[j]);
        } else {
          assert d[j] == y && y !in init;
          assert FirstIndex(xs, y) == |init|;
        }
      }
    } else {
      assert Dedup(xs) == [];
    }
  }

  /**
   * `r` lists the elements of `xs` without repeats, in increasing order of
   * their first occurrence in `xs`.
   */
  ghost predicate FirstSeenListing<T>(xs: seq<T>, r: seq<T>)
  {
    && NoDuplicates(r)
    && (forall i :: 0 <= i < |r| ==> r[i] in xs)
    && (forall i :: 0 <= i < |xs| ==> xs[i] in r)
    && (forall i, j :: 0 <= i < j < |r| ==>
          r[i] in xs && r[j] in xs && FirstIndex(xs, r[i]) < FirstIndex(xs, r[j]))
  }

  /**
   * First-seen deduplication is the one and only listing of the elements of
   * `xs` without repeats in order of first occurrence.
   */
  lemma DedupIsFirstSeenListing<T>(xs: seq<T>, r: seq<T>)
    ensures FirstSeenListing(xs, Dedup(xs))
    ensures FirstSeenListing(xs, r) ==> r == Dedup(xs)
  {
    DedupElements(xs);
    DedupFirstSeenOrder(xs);
    if FirstSeenListing(xs, r) {
      DedupUnique(xs, r);
    }
  }

  lemma {:induction false} DedupUnique<T>(xs: seq<T>, r: seq<T>)
    requires FirstSeenListing(xs, r)
    ensures r == Dedup(xs)
    decreases |xs|
  {
    if xs == [] {
      assert Dedup(xs) == [];
    } else {
      var init := xs[..|xs| - 1];
      var y := xs[|xs| - 1];
      assert xs == init + [y];
      DedupSnoc(init, y);
      DedupElements(init);
      if y in init {
        ListingWithSeenLast(init, y, r);
        DedupUnique(init, r);
      } else {
        ListingWithNewLast(init, y, r);
        DedupUnique(init, r[..|r| - 1]);
        assert r == r[..|r| - 1] + [y];
      }
    }
  }

  /** A repeated last element changes nothing in the listing. */
  lemma ListingWithSeenLast<T>(init: seq<T>, y: T, r: seq<T>)
    requires y in init && FirstSeenListing(init + [y], r)
    ensures FirstSeenListing(init, r)
  {
    forall i | 0 <= i < |init|
      ensures init[i] in r
    {
      assert (init + [y])[i] == init[i];
    }
    forall x | x in init
      ensures FirstIndex(init + [y], x) == FirstIndex(init, x)
    {
      FirstIndexOfExtension(init, y, x);
    }
  }

  /** A new last element comes last in the listing. */
  lemma NewLastComesLast<T>(init: seq<T>, y: T, r: seq<T>) returns (p: nat)
    requires y !in init && FirstSeenListing(init + [y], r)
    ensures p == |r| - 1 && r[p] == y
  {
    var xs := init + [y];
    assert xs[|init|] == y;
    p :| 0 <= p < |r| && r[p] == y;
    assert FirstIndex(xs, y) == |init| by {
      assert xs[..|init|] == init;
    }
    var last := r[|r| - 1];
    assert last in xs && FirstIndex(xs, last) < |xs| == |init| + 1;
  }

  /** A new last element comes last in the listing, after a listing of the rest. */
  lemma ListingWithNewLast<T>(init: seq<T>, y: T, r: seq<T>)
    requires y !in init && FirstSeenListing(init + [y], r)
    ensures |r| > 0 && r[|r| - 1] == y && FirstSeenListing(init, r[..|r| - 1])
  {
    var p := NewLastComesLast(init, y, r);
    ListingWithoutNewLastElements(init, y, r);
    ListingWithoutNewLastOrder(init, y, r);
  }

  /** Without its new last element, the listing holds exactly the earlier elements. */
  lemma ListingWithoutNewLastElements<T>(init: seq<T>, y: T, r: seq<T>)
    requires y !in init && FirstSeenListing(init + [y], r) && |r| > 0 && r[|r| - 1] == y
    ensures forall i :: 0 <= i < |r| - 1 ==> r[i] in init
    ensures forall i :: 0 <= i < |init| ==> init[i] in r[..|r| - 1]
  {
    var xs := init + [y];
    var r0 := r[..|r| - 1];
    forall i | 0 <= i < |r0|
      ensures r[i] in init
    {
      assert r[i] in xs && r[i] != y;
    }
    forall i | 0 <= i < |init|
      ensures init[i] in r0
    {
      var x := init[i];
      assert xs[i] == x && x in r && x != y;
      var q :| 0 <= q < |r| && r[q] == x;
      assert q != |r| - 1;
      assert r0[q] == x;
    }
  }

  /** Without its new last element, the listing keeps the first-seen order of the earlier elements. */
  lemma ListingWithoutNewLastOrder<T>(init: seq<T>, y: T, r: seq<T>)
    requires y !in init && FirstSeenListing(init + [y], r) && |r| > 0 && r[|r| - 1] == y
    requires forall i :: 0 <= i < |r| - 1 ==> r[i] in init
    ensures forall i, j :: 0 <= i < j < |r| - 1 ==>
              r[i] in init && r[j] in init && FirstIndex(init, r[i]) < FirstIndex(init, r[j])
  {
    var r0 := r[..|r| - 1];
    forall i, j | 0 <= i < j < |r0|
      ensures r[i] in init && r[j] in init && FirstIndex(init, r[i]) < FirstIndex(init, r[j])
    {
      assert r[i] == r0[i] && r[j] == r0[j];
      FirstIndexOfExtension(init, y, r[i]);
      FirstIndexOfExtension(init, y, r[j]);
    }
  }

  /** Appending an element does not move the first occurrence of an earlier one. */
  lemma FirstIndexOfExtension<T>(xs: seq<T>, y: T, x: T)
    requires x in xs
    ensures FirstIndex(xs + [y], x) == FirstIndex(xs, x)
  {
    var k := FirstIndex(xs, x);
    var k' := FirstIndex(xs + [y], x);
    assert (xs + [y])[..k] == xs[..k];
    assert (xs + [y])[..k + 1] == xs[..k + 1];
    assert xs[..k + 1][k] == x;
  }

  /**
   * The harvest lists identifiers in the order of their first occurrence
   * among the matching links.
   */
  lemma HarvestOrder(hrefs: seq<string>, n: nat)
    ensures forall i, j :: 0 <= i < j < |FirstDistinctIds(hrefs, n)| ==>
              var e, r := Extracted(hrefs), FirstDistinctIds(hrefs, n);
              r[i] in e && r[j] in e && FirstIndex(e, r[i]) < FirstIndex(e, r[j])
  {
    var e, r := Extracted(hrefs), FirstDistinctIds(hrefs, n);
    var d := Dedup(e);
    DedupFirstSeenOrder(e);
    forall i, j | 0 <= i < j < |r|
      ensures r[i] in e && r[j] in e && FirstIndex(e, r[i]) < FirstIndex(e, r[j])
    {
      assert r[i] == d[i] && r[j] == d[j];
    }
  }
}
