# POI views: query building and result projection

This project models, in Dafny, the pure logic of the two point-of-interest
handlers of the flight service: `get_aggregated_pois` and `get_pois_details`
in `app/api/poi/views.py`.

- **Filter translation.** Each filter condition becomes one Overpass QL node
  clause scoped by the flight's polygon. The clauses are joined one per line
  inside the fixed `[out:json]` ... `out body;` template. The operator is not
  consulted.
- **Aggregated view.** Each returned element gets a type from the first truthy
  tag among `place`, `historic`, `natural` and `tourism`. Elements without one
  are dropped. The rest are listed as POIs and counted per type.
- **Detail query.** An empty id list is rejected with 400 before any query.
  Otherwise there is one `node(id);` clause per id. An empty answer is a 404.
- **Detail view.** Each element gets a curated map of labelled fields and
  optional coordinates. The results are keyed by element id.

Modules:
- `Wrappers`: `Option` and `Result`.
- `Text`: Python's `join`, `split` and `str(int)`, with their inverses.
- `Osm`: the element record (id, tag map, optional lat/lon).
- `Query`: query building, plus decoders that read a query back.
- `Aggregate`: type resolution, the POI list and the per-type tally.
- `Details`: the detail map, coordinates and the id-keyed result.
- `Handlers`: the two endpoints.

The Overpass round trip, the flight lookup and the polygon builder are
parameters of the handlers. Each handler returns the queries it submitted
along with its response, so rejection before any query can be stated.

Behaviour of the code worth noting:
- Type resolution uses Python truthiness, so an empty `place` falls through
  to `historic`.
- An empty filter list is not rejected; it gives an empty union group.

## Model

| member | source | states |
|---|---|---|
| Query.Clauses | app/api/poi/views.py:82-88 | one clause per filter condition, in input order, each the node clause of that condition |
| Query.ParseConditionClause | app/api/poi/views.py:84-87 | a quote-free condition's clause reads back as its condition's key and value (if present) over the polygon; a condition without a value gives a tag-presence clause |
| Query.ClauseDeterminedByKeyAndValue | app/api/poi/views.py:83-87 | two quote-free conditions print the same clause exactly when key and value agree, so the operator never matters and nothing else is lost |
| Query.ClauseCollision | app/api/poi/views.py:85-87 | keys and values are inserted unescaped, so a quote in a key can mimic a key/value clause |
| Query.OperatorsIgnored | app/api/poi/views.py:82-90 | filter lists that differ only in operators produce the same query |
| Query.FilterQueryRoundTrip | app/api/poi/views.py:82-90 | the whole query decodes to exactly one clause per condition, in order, with each condition's key, value and the polygon |
| Query.EmptyFilterQuery | app/api/poi/views.py:90 | an empty filter list gives an empty union group inside the template |
| Query.DefaultFilterQuery | app/api/poi/views.py:41-49 | the default request has distance 400, no summarization and the filters place=city, place=village, nature=water, nature=mountain; for every polygon its query is the template around exactly these four `node["key"="value"](poly:"…");` clauses, one per line, in this order; for a polygon without line breaks it decodes to those four pairs |
| Query.ClauseLiterals | app/api/poi/views.py:84-87 | `place`=`city` over polygon `P` prints `node["place"="city"](poly:"P");`; a value-less `historic` condition prints `node["historic"](poly:"P");` |
| Query.IdsQueryLiteral | app/api/poi/views.py:141-148 | the ids 1 and -2 give the clauses `node(1); node(-2);` inside the indented template |
| Query.IdsQueryRoundTrip | app/api/poi/views.py:141-148 | the detail query decodes to exactly the given ids, in order, one `node(id);` clause each |
| Text.SplitJoin | app/api/poi/views.py:90 | splitting the join of a non-empty list of parts recovers the parts when no part holds the separator |
| Text.JoinSplit | app/api/poi/views.py:90 | the other half of Text.SplitJoin: joining the pieces of a split gives back the original text, so the two are inverse |
| Text.ParseIntToDecimal | app/api/poi/views.py:141 | the decimal text of an id reads back as that id |
| Osm.NameOf | app/api/poi/views.py:104 | the name is the `name` tag when present (even if empty), otherwise "Unknown" |
| Aggregate.FirstNonEmpty | app/api/poi/views.py:101 | the result exists exactly when some listed key holds a non-empty value, and it is the value of the first such key |
| Aggregate.ResolveTypeByPriority | app/api/poi/views.py:101-103 | the `or` chain with its falsy check is first-non-empty lookup over place, historic, natural, tourism; an empty value falls through |
| Aggregate.PlaceWins | app/api/poi/views.py:101 | a non-empty `place` decides the type even when `natural` is also tagged |
| Aggregate.PoiOf | app/api/poi/views.py:101-104 | an element yields a POI exactly when its type resolves; the POI has the element's id, its name and the non-empty type |
| Aggregate.KeptPois | app/api/poi/views.py:100-104 | the list is no longer than the input and every POI in it comes from some element with a resolvable type |
| Aggregate.KeptPoisAppend | app/api/poi/views.py:100-104 | keeping distributes over concatenation, so input order is preserved |
| Aggregate.KeptPoisSingle | app/api/poi/views.py:101-104 | a single element contributes its POI when its type resolves and nothing otherwise |
| Aggregate.KeptPoisComplete | app/api/poi/views.py:100-104 | every element with a resolvable type appears in the POI list |
| Aggregate.Tally | app/api/poi/views.py:99-105 | the keys are exactly the types of the POIs and each count is the number of POIs of that type, never zero |
| Aggregate.TallySum | app/api/poi/views.py:99-105 | the counts sum to the length of the POI list |
| Aggregate.AggregatePois | app/api/poi/views.py:98-106 | the loop yields the kept POIs in order with counts whose keys are the POI types, whose values count them and whose sum is the list length |
| Aggregate.AggregateExample | app/api/poi/views.py:98-106 | a named town and an unnamed water body give `{city: 1, water: 1}` and the POIs Town/city and Unknown/water |
| Details.DetailsOf | app/api/poi/views.py:159-180 | only the six labels occur; each verbatim field is present exactly when its tag is, with its value; the full address excludes the joined address; the joined address is street and house number joined by one space |
| Details.DetailsByTable | app/api/poi/views.py:159-180 | the chain of conditionals equals a lookup table of (tag, label) pairs plus the address rule |
| Details.CoordinatesOf | app/api/poi/views.py:187-188 | coordinates are present exactly when both latitude and longitude are, and carry them |
| Details.LatestByIdKeys | app/api/poi/views.py:190 | storing by id leaves exactly the element ids as keys |
| Details.LatestByIdLast | app/api/poi/views.py:190 | the entry stored under an id is the last element carrying it |
| Details.DetailsById | app/api/poi/views.py:157-190 | one entry per distinct id, each the detail of the last element with that id, so a later duplicate overwrites an earlier one |
| Details.EntryIsLastWithId | app/api/poi/views.py:157-190 | every entry of the result is the detail of the last element with its id |
| Query.ConditionClause | app/api/poi/views.py:84-87 | no contract of its own; described by Query.ParseConditionClause, Query.ClauseDeterminedByKeyAndValue and Query.ClauseLiterals |
| Query.FilterQuery | app/api/poi/views.py:90 | no contract of its own; described by Query.FilterQueryRoundTrip, Query.OperatorsIgnored and Query.DefaultFilterQuery |
| Query.IdClause | app/api/poi/views.py:141 | no contract of its own; described by Query.IdsQueryRoundTrip and Query.IdsQueryLiteral |
| Query.IdsQuery | app/api/poi/views.py:141-148 | no contract of its own; described by Query.IdsQueryRoundTrip and Query.IdsQueryLiteral |
| Aggregate.TypeByOrChain | app/api/poi/views.py:101 | no contract of its own; described by Aggregate.ResolveTypeByPriority |
| Aggregate.ResolveType | app/api/poi/views.py:101-102 | no contract of its own; described by Aggregate.ResolveTypeByPriority and Aggregate.PlaceWins |
| Details.DetailOf | app/api/poi/views.py:182-189 | no contract of its own; described by Details.DetailsById |
| Text.Join | app/api/poi/views.py:90 | no contract of its own; described by Text.SplitJoin and Text.JoinSplit (also used for the address at line 173) |
| Text.IntToDecimal | app/api/poi/views.py:141 | no contract of its own; described by Text.ParseIntToDecimal |
| Handlers.GetAggregatedPois | app/api/poi/views.py:74-106 | an unknown flight is a 404 with nothing submitted; otherwise exactly the filter query is submitted and the answer is aggregated as above |
| Handlers.DetailsQuery | app/api/poi/views.py:137-148 | an empty id list is rejected with 400; otherwise the query is the id query of the list, and it reads back as exactly the ids given |
| Handlers.GetPoisDetails | app/api/poi/views.py:136-192 | an empty id list is a 400 with nothing submitted; otherwise exactly the id query of the list is submitted and reads back as every id; an empty answer is a 404; any other answer is keyed by element id, the last duplicate winning |

## Left out

- HTTP routing, the `HTTPException` plumbing and pydantic validation. Errors
  are `Result` values with the source's status codes and messages. The
  `distance >= 0` check shows up only as `distance: nat`.
- The Overpass client (`Client`, `Query`, `run_query`, `collect_elements`)
  and its environment variable. The round trip is a total function from
  query text to an element list. Upstream failures are not modelled, because
  the source does not handle them.
- `get_flight_info` and `make_poly_str` are not part of this model. They are
  parameters: an optional opaque flight and a function to a polygon string.
- Filter values are held as the text Python would format them to. How
  `int` and `float` values are printed is left out. Coordinates are opaque
  `real`s that are only copied.
- `lat`/`lon` being `Option` stands for whether the attribute exists, which is
  what `hasattr` tests at `app/api/poi/views.py:188`. An attribute that exists
  but holds `None` is not modelled.
- `with_summarization` and `SummarizationResponse` are unused by the handlers.
- `test.py` is a Wikidata SPARQL client with demo output and is not part of this model.
- Query.FilterQueryRoundTrip: requires keys and values free of `"` and line
  breaks, and a polygon free of line breaks. The source does no escaping, so
  for other inputs the clause text no longer determines the condition (see
  Query.ClauseCollision).
- Query.DefaultFilterQuery: the decoding half holds only for a polygon
  without line breaks, because the decoder splits the union group at line
  breaks. The printed text is stated for every polygon.
- The response maps (aggregations, details, the id-keyed result) are
  unordered Dafny maps. Python dict insertion order, and so the JSON key
  order, is not modelled. That includes an overwritten id keeping the
  position of its first occurrence (`app/api/poi/views.py:190`).
