/**
 * `main`: harvest the identifiers with the default limit, then resolve each
 * one in harvest order. The browser session, the console and the network are
 * inputs here: `hrefs` is what the page query returned and `respond` gives the
 * outcome of a GET on each endpoint. The printed lines are returned as rows.
 */
module Driver {
  import opened PyStr
  import opened Harvester
  import opened Resolver

  /** One printed line: a project and the country resolved for it. */
  datatype Row = Row(projectId: string, country: Json)

  /**
   * Resolves the harvested identifiers one after another. A lookup that
   * raises ends the loop (the error escapes `main`, after the browser is
   * shut down), so the rows are those of the identifiers before it.
   */
  method Run(hrefs: seq<string>, respond: string -> HttpOutcome)
    returns (ids: seq<string>, rows: seq<Row>, aborted: bool)
    ensures ids == FirstDistinctIds(hrefs, DefaultLimit)
    ensures |rows| <= |ids|
    ensures forall k :: 0 <= k < |rows| ==>
              FetchCountry(respond(ApiUrl(ids[k]))) == Returns(rows[k].country) &&
              rows[k].projectId == ids[k]
    ensures aborted <==> |rows| < |ids|
    ensures aborted ==> FetchCountry(respond(ApiUrl(ids[|rows|]))).RaisesAttributeError?
  {
    ids := GetProjectIds(hrefs, DefaultLimit);
    rows := [];
    aborted := false;
    var k := 0;
    while k < |ids|
      invariant 0 <= k <= |ids| && |rows| == k
      invariant forall j :: 0 <= j < k ==>
                  FetchCountry(respond(ApiUrl(ids[j]))) == Returns(rows[j].country) &&
                  rows[j].projectId == ids[j]
    {
      var country := FetchCountry(respond(ApiUrl(ids[k])));
      if country.RaisesAttributeError? {
        aborted := true;
        return;
      }
      rows := rows + [Row(ids[k], country.value)];
      k := k + 1;
    }
  }

  /** The identifiers of four links, one of them repeated. */
  lemma RepeatedLinksExtracted()
    ensures Extracted(["/projects/A", "/projects/B", "/projects/B", "/projects/C"]) == ["A", "B", "B", "C"]
  {
    var a, b, c := "/projects/A", "/projects/B", "/projects/C";
    SimpleLinkAppended([], "A", a);
    SimpleLinkAppended([a], "B", b);
    SimpleLinkAppended([a, b], "B", b);
    SimpleLinkAppended([a, b, b], "C", c);
    assert [] + [a] == [a] && [a] + [b] == [a, b] && [a, b] + [b] == [a, b, b];
    assert [a, b, b] + [c] == [a, b, b, c];
  }

  /** Appending a link that is the marker and a one-letter identifier appends that letter. */
  lemma SimpleLinkAppended(hrefs: seq<string>, id: string, link: string)
    requires |id| == 1 && id[0] != '/' && link == Marker + id
    ensures Extracted(hrefs + [link]) == Extracted(hrefs) + [id]
  {
    SimpleLink(id, link);
    ExtractedAppend(hrefs, [link]);
  }

  /** A link that is the marker followed by a one-letter identifier yields that letter. */
  lemma SimpleLink(id: string, link: string)
    requires |id| == 1 && id[0] != '/' && link == Marker + id
    ensures Extracted([link]) == [id]
  {
    assert !Contains(id, Marker);
    assert !Contains("" + Marker[..|Marker| - 1], Marker) by {
      assert "" + Marker[..|Marker| - 1] == "/projects";
    }
    ProjectIdOfLink("", id);
    assert "" + Marker + id == link;
    ExtractedSingleton(link);
  }

  /**
   * Links repeating an identifier give each distinct identifier once, in
   * first-seen order.
   */
  lemma RepeatedLinksExample()
    ensures FirstDistinctIds(["/projects/A", "/projects/B", "/projects/B", "/projects/C"], DefaultLimit)
            == ["A", "B", "C"]
  {
    RepeatedLinksExtracted();
    var e := ["A", "B", "B", "C"];
    assert e[..3] == ["A", "B", "B"] && e[..2] == ["A", "B"] && e[..1] == ["A"] && e[..0] == [];
    assert ["A", "B", "B"][..2] == ["A", "B"] && ["A", "B"][..1] == ["A"] && ["A"][..0] == [];
  }
}
