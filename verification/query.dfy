/** Translation of filter conditions and POI ids into Overpass QL query
    strings, with decoders that read the queries back. */
module Query {
  import opened Wrappers
  import opened Text

  /** The comparison operators a filter condition may name. */
  datatype Operator = Eq | Neq | Regex | Lt | Gt | Lte | Gte

  /** One filter condition. The value is held as the text it is formatted to;
      `None` asks only for the presence of the tag. */
  datatype FilterCondition = FilterCondition(key: string, operator: Option<Operator>, value: Option<string>)

  /** The body of the aggregated-POI request. */
  datatype FilterRequest = FilterRequest(distance: nat, overpassFilters: seq<FilterCondition>, withSummarization: bool)

  /** The filters used when the request names none. */
  const DefaultFilters: seq<FilterCondition> := [
    FilterCondition("place", Some(Eq), Some("city")),
    FilterCondition("place", Some(Eq), Some("village")),
    FilterCondition("nature", Some(Eq), Some("water")),
    FilterCondition("nature", Some(Eq), Some("mountain"))
  ]

  /** The request every omitted field defaults to. */
  const DefaultRequest: FilterRequest := FilterRequest(400, DefaultFilters, false)

  const ClauseHead := "node[\""
  const PolyOpen := "](poly:\""
  const ClauseTail := "\");"

  /** The node clause for one condition scoped by the polygon: a key/value
      clause when a value is given, a tag-presence clause otherwise. The
      operator is not consulted. */
  function ConditionClause(c: FilterCondition, poly: string): string
  {
    match c.value
    case Some(v) => ClauseHead + c.key + "\"=\"" + v + "\"" + PolyOpen + poly + ClauseTail
    case None => ClauseHead + c.key + "\"" + PolyOpen + poly + ClauseTail
  }

  /** What a node clause says: the tag key, the value if any, the polygon. */
  datatype ParsedClause = ParsedClause(key: string, value: Option<string>, poly: string)

  /** Reads a node clause back; `None` when the text is not one. */
  function ParseClause(s: string): Option<ParsedClause>
  {
    match Group(s, ClauseHead, ClauseTail)
    case None => None
    case Some(inner) =>
      match FindChar(inner, '"')
      case None => None
      case Some(i) => ParseAfterKey(inner[..i], inner[i + 1..])
  }

  /** Reads what follows the closing quote of the key: either the polygon
      filter directly, or `="value"` and then the polygon filter. */
  function ParseAfterKey(key: string, rest: string): Option<ParsedClause>
  {
    if StartsWith(rest, PolyOpen) then Some(ParsedClause(key, None, rest[|PolyOpen|..]))
    else if StartsWith(rest, "=\"") then
      var tail := rest[2..];
      match FindChar(tail, '"')
      case None => None
      case Some(j) =>
        var after := tail[j + 1..];
        if StartsWith(after, PolyOpen) then Some(ParsedClause(key, Some(tail[..j]), after[|PolyOpen|..]))
        else None
    else None
  }

  /** A condition whose key and value hold no double quote, the characters
      that delimit them in a clause. */
  predicate QuoteFree(c: FilterCondition) {
    '"' !in c.key && (c.value.Some? ==> '"' !in c.value.value)
  }

  lemma {:induction false} SliceOfConcat(a: string, b: string, c: string)
    ensures (a + b + c)[|a|..|a + b + c| - |c|] == b
  {
  }

  lemma {:induction false} GroupOfWrapped(head: string, body: string, tail: string)
    ensures Group(head + body + tail, head, tail) == Some(body)
  {
    var q := head + body + tail;
    assert q[..|head|] == head;
    assert q[|q| - |tail|..] == tail;
    SliceOfConcat(head, body, tail);
  }

  lemma {:induction false} ParseAfterPolyOpen(key: string, poly: string)
    ensures ParseAfterKey(key, PolyOpen + poly) == Some(ParsedClause(key, None, poly))
  {
    var rest := PolyOpen + poly;
    assert rest[..|PolyOpen|] == PolyOpen;
    assert rest[|PolyOpen|..] == poly;
  }

  lemma {:induction false} ParseAfterValue(key: string, v: string, poly: string)
    requires '"' !in v
    ensures ParseAfterKey(key, "=\"" + v + "\"" + PolyOpen + poly) == Some(ParsedClause(key, Some(v), poly))
  {
    var rest := "=\"" + v + "\"" + PolyOpen + poly;
    assert !StartsWith(rest, PolyOpen) by { assert rest[0] != PolyOpen[0]; }
    assert rest[..2] == "=\"";
    var tail := v + "\"" + PolyOpen + poly;
    assert rest[2..] == tail;
    var after := PolyOpen + poly;
    assert tail == v + ['"'] + after;
    FindCharAfter(v, '"', after);
    assert tail[..|v|] == v;
    assert tail[|v| + 1..] == after;
    assert after[..|PolyOpen|] == PolyOpen;
    assert after[|PolyOpen|..] == poly;
  }

  lemma {:induction false} ParseClauseSplitsKey(key: string, rest: string)
    requires '"' !in key
    ensures ParseClause(ClauseHead + (key + ['"'] + rest) + ClauseTail) == ParseAfterKey(key, rest)
  {
    var inner := key + ['"'] + rest;
    GroupOfWrapped(ClauseHead, inner, ClauseTail);
    FindCharAfter(key, '"', rest);
    assert inner[..|key|] == key;
    assert inner[|key| + 1..] == rest;
  }

  /** The clause of a condition whose key and value hold no `"` can be read
      back into the key, value and polygon it was built from (ClauseCollision
      shows why the quote-free condition is needed). */
  lemma {:induction false} ParseConditionClause(c: FilterCondition, poly: string)
    requires QuoteFree(c)
    ensures ParseClause(ConditionClause(c, poly)) == Some(ParsedClause(c.key, c.value, poly))
  {
    match c.value {
      case Some(v) =>
        var rest := "=\"" + v + "\"" + PolyOpen + poly;
        assert ConditionClause(c, poly) == ClauseHead + (c.key + ['"'] + rest) + ClauseTail;
        ParseClauseSplitsKey(c.key, rest);
        ParseAfterValue(c.key, v, poly);
      case None =>
        var rest := PolyOpen + poly;
        assert ConditionClause(c, poly) == ClauseHead + (c.key + ['"'] + rest) + ClauseTail;
        ParseClauseSplitsKey(c.key, rest);
        ParseAfterPolyOpen(c.key, poly);
    }
  }

  /** Two quote-free conditions give the same clause exactly when they have
      the same key and value: the operator never changes the clause, and
      nothing else is lost. */
  lemma ClauseDeterminedByKeyAndValue(c1: FilterCondition, c2: FilterCondition, poly: string)
    requires QuoteFree(c1) && QuoteFree(c2)
    ensures ConditionClause(c1, poly) == ConditionClause(c2, poly) <==> c1.key == c2.key && c1.value == c2.value
  {
    ParseConditionClause(c1, poly);
    ParseConditionClause(c2, poly);
  }

  /** Without the quote-free condition the clause no longer determines the
      condition: a presence test on the key `a"="b` prints exactly like the
      equality test `a` = `b`, since keys and values are inserted unescaped. */
  lemma ClauseCollision(poly: string)
    ensures ConditionClause(FilterCondition("a\"=\"b", None, None), poly)
         == ConditionClause(FilterCondition("a", Some(Eq), Some("b")), poly)
  {
  }

  /** The clauses for a list of conditions, one per condition, in order. */
  function Clauses(filters: seq<FilterCondition>, poly: string): (parts: seq<string>)
    ensures |parts| == |filters|
    ensures forall i :: 0 <= i < |filters| ==> parts[i] == ConditionClause(filters[i], poly)
  {
    if |filters| == 0 then []
    else Clauses(filters[..|filters| - 1], poly) + [ConditionClause(filters[|filters| - 1], poly)]
  }

  /** Two filter lists that differ only in their operators give the same
      query. */
  lemma {:induction false} OperatorsIgnored(filters: seq<FilterCondition>, others: seq<FilterCondition>, poly: string)
    requires |filters| == |others|
    requires forall i :: 0 <= i < |filters| ==> filters[i].key == others[i].key && filters[i].value == others[i].value
    ensures FilterQuery(filters, poly) == FilterQuery(others, poly)
  {
    assert Clauses(filters, poly) == Clauses(others, poly);
  }

  const QueryHead := "[out:json];\n(\n"
  const QueryTail := "\n);\nout body;"

  /** The full query for the aggregated-POI request: the clauses, one per
      line, grouped as a union and followed by `out body;`. */
  function FilterQuery(filters: seq<FilterCondition>, poly: string): string
  {
    QueryHead + Join(Clauses(filters, poly), '\n') + QueryTail
  }

  /** The union group of a query: the text between the fixed head and tail. */
  function Group(q: string, head: string, tail: string): Option<string>
  {
    if |head| + |tail| <= |q| && StartsWith(q, head) && EndsWith(q, tail)
    then Some(q[|head|..|q| - |tail|])
    else None
  }

  /** Reads every line of a group as a clause; `None` if some line is not one. */
  function ParseClauses(lines: seq<string>): Option<seq<ParsedClause>>
  {
    if |lines| == 0 then Some([])
    else
      match (ParseClause(lines[0]), ParseClauses(lines[1..]))
      case (Some(c), Some(cs)) => Some([c] + cs)
      case _ => None
  }

  /** Reads a filter query back into its clauses; an empty group reads as no
      clauses at all. */
  function DecodeFilterQuery(q: string): Option<seq<ParsedClause>>
  {
    match Group(q, QueryHead, QueryTail)
    case None => None
    case Some(g) => if g == "" then Some([]) else ParseClauses(Split(g, '\n'))
  }

  /** What each condition contributes to the query once the operator is
      dropped, in order. */
  function Meanings(filters: seq<FilterCondition>, poly: string): (r: seq<ParsedClause>)
    ensures |r| == |filters|
    ensures forall i :: 0 <= i < |filters| ==> r[i] == ParsedClause(filters[i].key, filters[i].value, poly)
  {
    if |filters| == 0 then []
    else [ParsedClause(filters[0].key, filters[0].value, poly)] + Meanings(filters[1..], poly)
  }

  /** A condition whose text cannot break the query's layout: no quote in key
      or value, no line break in either. */
  predicate WellFormed(c: FilterCondition) {
    QuoteFree(c) && '\n' !in c.key && (c.value.Some? ==> '\n' !in c.value.value)
  }

  lemma {:induction false} ParseClausesOfConditions(filters: seq<FilterCondition>, poly: string)
    requires forall i :: 0 <= i < |filters| ==> QuoteFree(filters[i])
    ensures ParseClauses(Clauses(filters, poly))
      == Some(Meanings(filters, poly))
    decreases |filters|
  {
    if |filters| > 0 {
      var parts := Clauses(filters, poly);
      ParseConditionClause(filters[0], poly);
      ParseClausesOfConditions(filters[1..], poly);
      assert parts[1..] == Clauses(filters[1..], poly);
    }
  }

  lemma {:induction false} ClauseHasNoNewline(c: FilterCondition, poly: string)
    requires WellFormed(c) && '\n' !in poly
    ensures '\n' !in ConditionClause(c, poly)
  {
  }

  /** For well-formed conditions (keys and values without `"` or line breaks)
      and a polygon without line breaks, the query holds exactly one clause
      per condition, in order, and each clause says the condition's key and
      value over the given polygon. An empty list gives an empty group. */
  lemma {:induction false} FilterQueryRoundTrip(filters: seq<FilterCondition>, poly: string)
    requires forall i :: 0 <= i < |filters| ==> WellFormed(filters[i])
    requires '\n' !in poly
    ensures DecodeFilterQuery(FilterQuery(filters, poly))
      == Some(Meanings(filters, poly))
  {
    var parts := Clauses(filters, poly);
    GroupOfWrapped(QueryHead, Join(parts, '\n'), QueryTail);
    if |filters| > 0 {
      forall i | 0 <= i < |parts| ensures '\n' !in parts[i] {
        ClauseHasNoNewline(filters[i], poly);
      }
      SplitJoin(parts, '\n');
      assert |parts[0]| > 0 by { assert parts[0] == ConditionClause(filters[0], poly); }
      assert Join(parts, '\n') != "" by {
        if |parts| > 1 { assert |Join(parts, '\n')| >= |parts[0]|; }
      }
      ParseClausesOfConditions(filters, poly);
    }
  }

  /** An empty filter list yields an empty union group. */
  lemma EmptyFilterQuery(poly: string)
    ensures FilterQuery([], poly) == "[out:json];\n(\n\n);\nout body;"
  {
  }

  lemma DefaultFiltersWellFormed()
    ensures forall i :: 0 <= i < |DefaultFilters| ==> WellFormed(DefaultFilters[i])
  {
    assert WellFormed(DefaultFilters[0]);
    assert WellFormed(DefaultFilters[1]);
    assert WellFormed(DefaultFilters[2]);
    assert WellFormed(DefaultFilters[3]);
  }

  /** The default request: distance 400, no summarization, and filters
      `place=city`, `place=village`, `nature=water`, `nature=mountain`, which
      print as these four clauses, in this order, for every polygon. Without
      line breaks in the polygon, the query decodes to those four key/value
      pairs. */
  lemma {:induction false} DefaultFilterQuery(poly: string)
    ensures DefaultRequest.distance == 400 && !DefaultRequest.withSummarization
    ensures FilterQuery(DefaultRequest.overpassFilters, poly)
      == QueryHead
      + ("node[\"place\"=\"city\"](poly:\"" + poly + "\");") + "\n"
      + ("node[\"place\"=\"village\"](poly:\"" + poly + "\");") + "\n"
      + ("node[\"nature\"=\"water\"](poly:\"" + poly + "\");") + "\n"
      + ("node[\"nature\"=\"mountain\"](poly:\"" + poly + "\");")
      + QueryTail
    ensures '\n' !in poly ==> DecodeFilterQuery(FilterQuery(DefaultRequest.overpassFilters, poly)) == Some([
      ParsedClause("place", Some("city"), poly),
      ParsedClause("place", Some("village"), poly),
      ParsedClause("nature", Some("water"), poly),
      ParsedClause("nature", Some("mountain"), poly)])
  {
    DefaultText(poly);
    if '\n' !in poly {
      DefaultFiltersWellFormed();
      FilterQueryRoundTrip(DefaultFilters, poly);
      DefaultMeanings(poly);
    }
  }

  lemma DefaultMeanings(poly: string)
    ensures Meanings(DefaultFilters, poly) == [
      ParsedClause("place", Some("city"), poly),
      ParsedClause("place", Some("village"), poly),
      ParsedClause("nature", Some("water"), poly),
      ParsedClause("nature", Some("mountain"), poly)]
  {
    var m := Meanings(DefaultFilters, poly);
    assert m == [m[0], m[1], m[2], m[3]];
  }

  lemma {:induction false} DefaultText(poly: string)
    ensures FilterQuery(DefaultFilters, poly)
      == QueryHead
      + ("node[\"place\"=\"city\"](poly:\"" + poly + "\");") + "\n"
      + ("node[\"place\"=\"village\"](poly:\"" + poly + "\");") + "\n"
      + ("node[\"nature\"=\"water\"](poly:\"" + poly + "\");") + "\n"
      + ("node[\"nature\"=\"mountain\"](poly:\"" + poly + "\");")
      + QueryTail
  {
    FourConditionQuery(DefaultFilters, poly);
    CityClause(poly);
    VillageClause(poly);
    WaterClause(poly);
    MountainClause(poly);
  }

  /** The four default clauses, one at a time. */
  lemma CityClause(poly: string)
    ensures ConditionClause(DefaultFilters[0], poly) == "node[\"place\"=\"city\"](poly:\"" + poly + "\");"
  {
    ValueClauseText("place", "city", poly);
  }

  lemma VillageClause(poly: string)
    ensures ConditionClause(DefaultFilters[1], poly) == "node[\"place\"=\"village\"](poly:\"" + poly + "\");"
  {
    ValueClauseText("place", "village", poly);
  }

  lemma WaterClause(poly: string)
    ensures ConditionClause(DefaultFilters[2], poly) == "node[\"nature\"=\"water\"](poly:\"" + poly + "\");"
  {
    ValueClauseText("nature", "water", poly);
  }

  lemma MountainClause(poly: string)
    ensures ConditionClause(DefaultFilters[3], poly) == "node[\"nature\"=\"mountain\"](poly:\"" + poly + "\");"
  {
    ValueClauseText("nature", "mountain", poly);
  }

  lemma JoinTwo(a: string, b: string, sep: char)
    ensures Join([a, b], sep) == a + [sep] + b
  {
    assert [a, b][1..] == [b];
  }

  lemma {:induction false} FourConditionQuery(filters: seq<FilterCondition>, poly: string)
    requires |filters| == 4
    ensures FilterQuery(filters, poly) == QueryHead
      + ConditionClause(filters[0], poly) + "\n" + ConditionClause(filters[1], poly) + "\n"
      + ConditionClause(filters[2], poly) + "\n" + ConditionClause(filters[3], poly) + QueryTail
  {
    var parts := Clauses(filters, poly);
    assert parts == [parts[0], parts[1], parts[2], parts[3]];
    JoinFour(parts[0], parts[1], parts[2], parts[3], '\n');
    assert Join(parts, '\n') == parts[0] + "\n" + parts[1] + "\n" + parts[2] + "\n" + parts[3];
  }

  lemma ValueClauseText(k: string, v: string, poly: string)
    ensures ConditionClause(FilterCondition(k, Some(Eq), Some(v)), poly)
      == "node[\"" + k + "\"=\"" + v + "\"](poly:\"" + poly + "\");"
  {
  }

  lemma JoinFour(a: string, b: string, c: string, d: string, sep: char)
    ensures Join([a, b, c, d], sep) == a + [sep] + b + [sep] + c + [sep] + d
  {
    assert [a, b, c, d][1..] == [b, c, d];
    assert [b, c, d][1..] == [c, d];
    assert [c, d][1..] == [d];
    assert Join([d], sep) == d;
    assert Join([c, d], sep) == c + [sep] + d;
    assert Join([b, c, d], sep) == b + [sep] + (c + [sep] + d);
  }

  /** Concrete clause texts: a key/value condition and a presence test. */
  lemma ClauseLiterals()
    ensures ConditionClause(FilterCondition("place", Some(Eq), Some("city")), "P") == "node[\"place\"=\"city\"](poly:\"P\");"
    ensures ConditionClause(FilterCondition("historic", Some(Neq), None), "P") == "node[\"historic\"](poly:\"P\");"
  {
  }

  /** The clause that selects one node by id. */
  function IdClause(id: int): string {
    "node(" + IntToDecimal(id) + ");"
  }

  /** Reads an id clause back. */
  function ParseIdClause(s: string): Option<int> {
    if |s| >= 7 && StartsWith(s, "node(") && EndsWith(s, ");") then ParseInt(s[5..|s| - 2]) else None
  }

  /** The id clauses, one per id, in order. */
  function IdClauses(ids: seq<int>): (parts: seq<string>)
    ensures |parts| == |ids|
    ensures forall i :: 0 <= i < |ids| ==> parts[i] == IdClause(ids[i])
  {
    if |ids| == 0 then [] else IdClauses(ids[..|ids| - 1]) + [IdClause(ids[|ids| - 1])]
  }

  const IdsHead := "\n    [out:json];\n    (\n      "
  const IdsTail := "\n    );\n    out body;\n    "

  /** The detail query: the id clauses separated by single spaces inside the
      indented query template. */
  function IdsQuery(ids: seq<int>): string {
    IdsHead + Join(IdClauses(ids), ' ') + IdsTail
  }

  function ParseIdClauses(parts: seq<string>): Option<seq<int>> {
    if |parts| == 0 then Some([])
    else
      match (ParseIdClause(parts[0]), ParseIdClauses(parts[1..]))
      case (Some(id), Some(ids)) => Some([id] + ids)
      case _ => None
  }

  /** Reads a detail query back into the ids it selects. */
  function DecodeIdsQuery(q: string): Option<seq<int>> {
    match Group(q, IdsHead, IdsTail)
    case None => None
    case Some(g) => if g == "" then Some([]) else ParseIdClauses(Split(g, ' '))
  }

  lemma {:induction false} ParseIdClauseOf(id: int)
    ensures ParseIdClause(IdClause(id)) == Some(id)
    ensures ' ' !in IdClause(id)
  {
    var d := IntToDecimal(id);
    var s := IdClause(id);
    assert s[..5] == "node(";
    assert s[|s| - 2..] == ");";
    assert s[5..|s| - 2] == d;
    ParseIntToDecimal(id);
    DecimalAlphabet(id, ' ');
  }

  lemma {:induction false} ParseIdClausesOf(ids: seq<int>)
    ensures ParseIdClauses(IdClauses(ids)) == Some(ids)
    decreases |ids|
  {
    if |ids| > 0 {
      var parts := IdClauses(ids);
      ParseIdClauseOf(ids[0]);
      ParseIdClausesOf(ids[1..]);
      IdClausesTail(ids);
      ParseIdClausesStep(parts, ids[0], ids[1..]);
      assert [ids[0]] + ids[1..] == ids;
    }
  }

  lemma ParseIdClausesStep(parts: seq<string>, id: int, rest: seq<int>)
    requires |parts| > 0
    requires ParseIdClause(parts[0]) == Some(id)
    requires ParseIdClauses(parts[1..]) == Some(rest)
    ensures ParseIdClauses(parts) == Some([id] + rest)
  {
  }

  lemma IdClausesTail(ids: seq<int>)
    requires |ids| > 0
    ensures IdClauses(ids)[0] == IdClause(ids[0])
    ensures IdClauses(ids)[1..] == IdClauses(ids[1..])
  {
    var parts, rest := IdClauses(ids), IdClauses(ids[1..]);
    assert |parts[1..]| == |rest|;
    forall i | 0 <= i < |rest| ensures parts[1..][i] == rest[i] {
      assert parts[i + 1] == IdClause(ids[i + 1]);
    }
  }

  /** The detail query holds exactly one `node(id);` clause per id, in order. */
  lemma {:induction false} IdsQueryRoundTrip(ids: seq<int>)
    ensures DecodeIdsQuery(IdsQuery(ids)) == Some(ids)
  {
    var parts := IdClauses(ids);
    GroupOfWrapped(IdsHead, Join(parts, ' '), IdsTail);
    if |ids| > 0 {
      forall i | 0 <= i < |parts| ensures ' ' !in parts[i] {
        ParseIdClauseOf(ids[i]);
      }
      SplitJoin(parts, ' ');
      assert |parts[0]| > 0 by { assert parts[0] == IdClause(ids[0]); }
      assert Join(parts, ' ') != "" by {
        if |parts| > 1 { assert |Join(parts, ' ')| >= |parts[0]|; }
      }
      ParseIdClausesOf(ids);
    }
  }

  /** Concrete detail query for the ids 1 and -2. */
  lemma IdsQueryLiteral()
    ensures IdsQuery([1, -2]) == IdsHead + "node(1); node(-2);" + IdsTail
  {
    TwoIdQuery(1, -2);
    assert IntToDecimal(1) == "1";
    assert IntToDecimal(-2) == "-2";
    assert IdClause(1) == "node(1);";
    assert IdClause(-2) == "node(-2);";
  }

  lemma {:induction false} TwoIdQuery(x: int, y: int)
    ensures IdsQuery([x, y]) == IdsHead + IdClause(x) + " " + IdClause(y) + IdsTail
  {
    var parts := IdClauses([x, y]);
    assert parts == [IdClause(x), IdClause(y)];
    JoinTwo(IdClause(x), IdClause(y), ' ');
  }
}
