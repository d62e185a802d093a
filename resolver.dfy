/**
 * `fetch_country_by_project_id`: the country lookup for one project, with the
 * HTTP request replaced by its outcome. What is left is the status check of
 * `raise_for_status`, the decoding of the body and the chained dictionary
 * lookups with their defaults, and the mapping of request failures to the
 * sentinel "Error".
 */
module Resolver {

  /** A decoded JSON document, as Python's json module hands it over. */
  datatype Json =
    | JNull
    | JBool(b: bool)
    | JNumber(n: int)
    | JString(s: string)
    | JArray(items: seq<Json>)
    | JObject(fields: map<string, Json>)

  /** The response body: valid JSON, or text that does not decode. */
  datatype Body = Decoded(value: Json) | Undecodable

  /** What the HTTP GET gives back: no response at all, or a status and a body. */
  datatype HttpOutcome = TransportFailure | Response(status: int, body: Body)

  /**
   * How a call ends: it returns a value, or an `AttributeError` (from calling
   * `.get` on something that is not a dictionary) escapes to the caller.
   */
  datatype Returned = Returns(value: Json) | RaisesAttributeError

  /** What a path lookup into a document finds. */
  datatype Lookup = Found(value: Json) | Missing | NotAnObject

  const ApiPrefix: string := "https://api.open.undp.org/api/v1/project/details/"
  const ErrorSentinel: Json := JString("Error")
  const NotAvailable: Json := JString("N/A")
  const CountryPath: seq<string> := ["data", "operating_unit", "name"]

  /** The endpoint for a project: the identifier interpolated after a fixed prefix. */
  function ApiUrl(projectId: string): (url: string)
    ensures |url| == |ApiPrefix| + |projectId|
    ensures url[..|ApiPrefix|] == ApiPrefix && url[|ApiPrefix|..] == projectId
  {
    ApiPrefix + projectId
  }

  /** Distinct projects are asked for at distinct endpoints. */
  lemma ApiUrlInjective(a: string, b: string)
    requires ApiUrl(a) == ApiUrl(b)
    ensures a == b
  {
    assert a == ApiUrl(a)[|ApiPrefix|..];
  }

  /**
   * The statuses for which `raise_for_status` raises: client errors (400 to
   * 499) and server errors (500 to 599), that is the 4xx and 5xx classes.
   */
  function RaisesForStatus(status: int): (r: bool)
    ensures r <==> status / 100 == 4 || status / 100 == 5
  {
    (400 <= status < 500) || (500 <= status < 600)
  }

  /** Python's `obj.get(key, default)`, which fails unless `obj` is a dictionary. */
  function Get(obj: Json, key: string, default: Json): (r: Returned)
    ensures r.RaisesAttributeError? <==> !obj.JObject?
    ensures obj.JObject? && key in obj.fields ==> r == Returns(obj.fields[key])
    ensures obj.JObject? && key !in obj.fields ==> r == Returns(default)
  {
    match obj
    case JObject(fields) => Returns(if key in fields then fields[key] else default)
    case _ => RaisesAttributeError
  }

  /**
   * A reference reading of a key path: walk down the path, stopping at the
   * first level that is not an object or lacks the next key.
   */
  function LookupPath(v: Json, path: seq<string>): (r: Lookup)
  {
    if path == [] then Found(v)
    else if !v.JObject? then NotAnObject
    else if path[0] !in v.fields then Missing
    else LookupPath(v.fields[path[0]], path[1..])
  }

  /** The country path read one level at a time. */
  lemma LookupCountryPath(doc: Json)
    ensures LookupPath(doc, CountryPath) ==
              if !doc.JObject? then NotAnObject
              else if "data" !in doc.fields then Missing
              else LookupPath(doc.fields["data"], ["operating_unit", "name"])
    ensures forall data: Json :: LookupPath(data, ["operating_unit", "name"]) ==
              if !data.JObject? then NotAnObject
              else if "operating_unit" !in data.fields then Missing
              else LookupPath(data.fields["operating_unit"], ["name"])
    ensures forall unit: Json :: LookupPath(unit, ["name"]) ==
              if !unit.JObject? then NotAnObject
              else if "name" !in unit.fields then Missing
              else Found(unit.fields["name"])
  {
    assert CountryPath[1..] == ["operating_unit", "name"];
    assert ["operating_unit", "name"][1..] == ["name"];
    assert ["name"][1..] == [];
  }

  /**
   * The chained lookup `data.get("data", {}).get("operating_unit", {})
   * .get("name", "N/A")`: the name when the whole path is there, "N/A" when
   * some key on it is missing, and an escaping `AttributeError` when a level
   * that is present is not an object.
   */
  function CountryOf(doc: Json): (r: Returned)
    ensures LookupPath(doc, CountryPath).Found? ==> r == Returns(LookupPath(doc, CountryPath).value)
    ensures LookupPath(doc, CountryPath).Missing? ==> r == Returns(NotAvailable)
    ensures LookupPath(doc, CountryPath).NotAnObject? <==> r.RaisesAttributeError?
  {
    var empty := JObject(map[]);
    LookupCountryPath(doc);
    match Get(doc, "data", empty)
    case RaisesAttributeError => RaisesAttributeError
    case Returns(data) =>
      match Get(data, "operating_unit", empty)
      case RaisesAttributeError => RaisesAttributeError
      case Returns(unit) => Get(unit, "name", NotAvailable)
  }

  /**
   * `fetch_country_by_project_id` given the outcome of its request. Every
   * request failure the function catches (no response, an error status, a
   * body that does not decode) yields "Error"; otherwise the result is the
   * chained lookup into the decoded document.
   */
  function FetchCountry(outcome: HttpOutcome): (r: Returned)
    ensures outcome.TransportFailure? ==> r == Returns(ErrorSentinel)
    ensures outcome.Response? && RaisesForStatus(outcome.status) ==> r == Returns(ErrorSentinel)
    ensures outcome.Response? && outcome.body.Undecodable? ==> r == Returns(ErrorSentinel)
    ensures outcome.Response? && !RaisesForStatus(outcome.status) && outcome.body.Decoded? ==>
              match LookupPath(outcome.body.value, CountryPath)
              case Found(name) => r == Returns(name)
              case Missing => r == Returns(NotAvailable)
              case NotAnObject => r == RaisesAttributeError
  {
    match outcome
    case TransportFailure => Returns(ErrorSentinel)
    case Response(status, body) =>
      if RaisesForStatus(status) then Returns(ErrorSentinel)
      else
        match body
        case Undecodable => Returns(ErrorSentinel)
        case Decoded(doc) => CountryOf(doc)
  }

  /**
   * An exception escapes only from a successful, decoded response whose
   * document has a non-object on the path; transport and status failures
   * never raise.
   */
  lemma OnlyMalformedDocumentsRaise(outcome: HttpOutcome)
    ensures FetchCountry(outcome).RaisesAttributeError? <==>
              outcome.Response? && !RaisesForStatus(outcome.status) && outcome.body.Decoded? &&
              LookupPath(outcome.body.value, CountryPath).NotAnObject?
  {
  }

  /**
   * When every level of the path that is present is an object, the lookup
   * never raises: the result is the name or "N/A".
   */
  lemma WellShapedDocumentNeverRaises(doc: Json)
    requires doc.JObject?
    requires "data" in doc.fields ==> doc.fields["data"].JObject?
    requires "data" in doc.fields && "operating_unit" in doc.fields["data"].fields ==>
               doc.fields["data"].fields["operating_unit"].JObject?
    ensures CountryOf(doc).Returns?
    ensures CountryOf(doc).value == NotAvailable ||
            LookupPath(doc, CountryPath) == Found(CountryOf(doc).value)
  {
  }

  /** A status-200 document naming the operating unit gives that name. */
  lemma NamedUnitExample()
    ensures var doc := JObject(map["data" := JObject(map["operating_unit" :=
                          JObject(map["name" := JString("Kenya")])])]);
            FetchCountry(Response(200, Decoded(doc))) == Returns(JString("Kenya"))
  {
  }

  /** A document whose "data" object is empty gives "N/A". */
  lemma EmptyDataExample()
    ensures FetchCountry(Response(200, Decoded(JObject(map["data" := JObject(map[])])))) ==
            Returns(NotAvailable)
  {
  }

  /** A timeout and a server error both give "Error". */
  lemma FailureExamples(body: Body)
    ensures FetchCountry(TransportFailure) == Returns(ErrorSentinel)
    ensures FetchCountry(Response(500, body)) == Returns(ErrorSentinel)
  {
  }
}
