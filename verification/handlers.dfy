/** The two POI request handlers. The flight lookup, the polygon builder and
    the Overpass round trip (`run_query` then `collect_elements`) are
    parameters; each handler reports the queries it submitted together with
    its response, so "rejected before any query" is observable. */
module Handlers {
  import opened Wrappers
  import opened Osm
  import opened Query
  import opened Aggregate
  import opened Details

  /** An HTTP error response: status code and detail message. */
  datatype HttpError = HttpError(status: nat, detail: string)

  const FlightNotFound := HttpError(404, "Flight not found")
  const NoPoiIds := HttpError(400, "No POI IDs provided")
  const PoisNotFound := HttpError(404, "POIs not found")

  /** What a handler did: the queries it submitted, in order, and the response. */
  datatype Exchange<T> = Exchange(sent: seq<string>, response: Result<T, HttpError>)

  /** `POST /poi/flight/{icao24}/pois`: with the flight found, builds the
      polygon and the filter query, submits it once, and aggregates what comes
      back; an unknown flight is a 404 and nothing is submitted. */
  method GetAggregatedPois<F>(flight: Option<F>, request: FilterRequest,
                              makePolyStr: (F, nat) -> string, overpass: string -> seq<Element>)
    returns (x: Exchange<FlightPoiResponse>)
    ensures flight.None? <==> x.response.Failure?
    ensures flight.None? ==> x.sent == [] && x.response.error == FlightNotFound
    ensures flight.Some? ==> x.sent == [FilterQuery(request.overpassFilters, makePolyStr(flight.value, request.distance))]
    ensures x.response.Success? ==>
      var r := x.response.value;
      && r.pois == KeptPois(overpass(x.sent[0]))
      && r.aggregations.Keys == TypesOf(r.pois)
      && (forall t :: t in r.aggregations ==> r.aggregations[t] == CountType(r.pois, t))
      && MapSum(r.aggregations) == |r.pois|
  {
    if flight.None? {
      return Exchange([], Failure(FlightNotFound));
    }
    var polyStr := makePolyStr(flight.value, request.distance);
    var queryStr := FilterQuery(request.overpassFilters, polyStr);
    var elems := overpass(queryStr);
    var response := AggregatePois(elems);
    x := Exchange([queryStr], Success(response));
  }

  /** The detail query for a list of ids, or 400 for an empty list. The query
      reads back as exactly the ids given, in order. */
  function DetailsQuery(poiIds: seq<int>): (r: Result<string, HttpError>)
    ensures r.Failure? <==> |poiIds| == 0
    ensures r.Failure? ==> r.error == NoPoiIds
    ensures r.Success? ==> DecodeIdsQuery(r.value) == Some(poiIds)
    ensures r.Success? ==> r.value == IdsQuery(poiIds)
  {
    if |poiIds| == 0 then Failure(NoPoiIds)
    else
      IdsQueryRoundTrip(poiIds);
      Success(IdsQuery(poiIds))
  }

  /** `POST /poi/pois/details`: an empty id list is a 400 and nothing is
      submitted; otherwise one query naming every id is submitted, an empty
      answer is a 404, and any other answer is keyed by element id. */
  function GetPoisDetails(poiIds: seq<int>, overpass: string -> seq<Element>): (x: Exchange<map<int, PoiDetail>>)
    ensures |poiIds| == 0 ==> x.sent == [] && x.response == Failure(NoPoiIds)
    ensures |poiIds| > 0 ==> |x.sent| == 1 && DecodeIdsQuery(x.sent[0]) == Some(poiIds)
    ensures |poiIds| > 0 ==> x.sent == [IdsQuery(poiIds)]
    ensures |poiIds| > 0 ==> (x.response.Failure? <==> |overpass(x.sent[0])| == 0)
    ensures |poiIds| > 0 && x.response.Failure? ==> x.response.error == PoisNotFound
    ensures x.response.Success? ==>
      var elems := overpass(x.sent[0]);
      && x.response.value.Keys == IdsOf(elems)
      && forall i :: 0 <= i < |elems| && LastWithId(elems, i) ==> x.response.value[elems[i].id] == DetailOf(elems[i])
  {
    match DetailsQuery(poiIds)
    case Failure(e) => Exchange([], Failure(e))
    case Success(queryStr) =>
      var elems := overpass(queryStr);
      if |elems| == 0 then Exchange([queryStr], Failure(PoisNotFound))
      else Exchange([queryStr], Success(DetailsById(elems)))
  }
}
