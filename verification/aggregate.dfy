/** The aggregated view: each element's type is resolved from its tags, the
    elements without one are dropped, and the kept ones are listed and counted
    per type. */
module Aggregate {
  import opened Wrappers
  import opened Osm

  /** The tags consulted for an element's type, highest priority first. */
  const TypePriority: seq<string> := ["place", "historic", "natural", "tourism"]

  /** Python's `a or b` on optional strings: `a` when it is truthy, else `b`. */
  function PyOr(a: Option<string>, b: Option<string>): Option<string> {
    if Truthy(a) then a else b
  }

  /** The chain `tags.get("place") or tags.get("historic") or
      tags.get("natural") or tags.get("tourism")`, as written. */
  function TypeByOrChain(tags: Tags): Option<string> {
    PyOr(PyOr(PyOr(Get(tags, "place"), Get(tags, "historic")), Get(tags, "natural")), Get(tags, "tourism"))
  }

  /** The resolved type, or `None` when the chain's value is falsy. */
  function ResolveType(tags: Tags): Option<string> {
    var t := TypeByOrChain(tags);
    if Truthy(t) then t else None
  }

  /** True when `key` holds a non-empty value in `tags`: `tags.get(key)` is truthy. */
  predicate HasValue(tags: Tags, key: string) {
    Truthy(Get(tags, key))
  }

  /** The value of the first key of `keys` that holds a non-empty value. */
  function FirstNonEmpty(tags: Tags, keys: seq<string>): (r: Option<string>)
    ensures r.Some? <==> exists i :: 0 <= i < |keys| && HasValue(tags, keys[i])
    ensures r.Some? ==> exists i :: 0 <= i < |keys| && HasValue(tags, keys[i]) && tags[keys[i]] == r.value
                                   && forall j :: 0 <= j < i ==> !HasValue(tags, keys[j])
  {
    if |keys| == 0 then None
    else if HasValue(tags, keys[0]) then Some(tags[keys[0]])
    else
      var r := FirstNonEmpty(tags, keys[1..]);
      assert forall i :: 1 <= i < |keys| ==> keys[i] == keys[1..][i - 1];
      r
  }

  /** The or-chain resolves the type by priority: the value of the first of
      place, historic, natural, tourism that is present and non-empty. An
      empty value falls through to the next tag. */
  lemma {:induction false} ResolveTypeByPriority(tags: Tags)
    ensures ResolveType(tags) == FirstNonEmpty(tags, TypePriority)
  {
    FirstNonEmptyCons(tags, "tourism", []);
    FirstNonEmptyCons(tags, "natural", ["tourism"]);
    FirstNonEmptyCons(tags, "historic", ["natural", "tourism"]);
    FirstNonEmptyCons(tags, "place", ["historic", "natural", "tourism"]);
  }

  lemma {:induction false} FirstNonEmptyCons(tags: Tags, k: string, ks: seq<string>)
    ensures FirstNonEmpty(tags, [k] + ks) == if HasValue(tags, k) then Some(tags[k]) else FirstNonEmpty(tags, ks)
  {
    assert ([k] + ks)[1..] == ks;
  }

  /** A non-empty `place` tag decides the type whatever else is tagged, for
      instance `natural`. */
  lemma PlaceWins(tags: Tags)
    requires HasValue(tags, "place")
    ensures ResolveType(tags) == Some(tags["place"])
  {
    ResolveTypeByPriority(tags);
  }

  /** One POI of the summary list. */
  datatype Poi = Poi(id: int, name: string, poiType: string)

  /** The summary response: a count per type and the POI list. */
  datatype FlightPoiResponse = FlightPoiResponse(aggregations: map<string, nat>, pois: seq<Poi>)

  /** The POI an element contributes, if it has a type. */
  function PoiOf(e: Element): (r: Option<Poi>)
    ensures r.Some? <==> ResolveType(e.tags).Some?
    ensures r.Some? ==> r.value.id == e.id && r.value.name == NameOf(e.tags)
                        && Some(r.value.poiType) == ResolveType(e.tags) && r.value.poiType != ""
  {
    match ResolveType(e.tags)
    case None => None
    case Some(t) => Some(Poi(e.id, NameOf(e.tags), t))
  }

  /** The POIs of the elements that have a type, in input order. */
  function KeptPois(elems: seq<Element>): (r: seq<Poi>)
    ensures |r| <= |elems|
    ensures forall i :: 0 <= i < |r| ==> exists j :: 0 <= j < |elems| && PoiOf(elems[j]) == Some(r[i])
  {
    if |elems| == 0 then []
    else
      var prefix := KeptPois(elems[..|elems| - 1]);
      assert forall j :: 0 <= j < |elems| - 1 ==> elems[..|elems| - 1][j] == elems[j];
      match PoiOf(elems[|elems| - 1])
      case None => prefix
      case Some(p) => prefix + [p]
  }

  /** Keeping distributes over concatenation: the kept POIs of `a + b` are
      those of `a` followed by those of `b`, so input order is kept. */
  lemma {:induction false} KeptPoisAppend(a: seq<Element>, b: seq<Element>)
    ensures KeptPois(a + b) == KeptPois(a) + KeptPois(b)
    decreases |b|
  {
    if |b| == 0 {
      assert a + b == a;
    } else {
      var b' := b[..|b| - 1];
      KeptPoisAppend(a, b');
      assert (a + b)[..|a + b| - 1] == a + b';
      assert (a + b)[|a + b| - 1] == b[|b| - 1];
    }
  }

  /** A single element is kept, as its POI, exactly when its type resolves. */
  lemma KeptPoisSingle(e: Element)
    ensures KeptPois([e]) == match PoiOf(e) case None => [] case Some(p) => [p]
  {
    assert [e][..0] == [];
  }

  /** Every element with a type shows up in the POI list. */
  lemma {:induction false} KeptPoisComplete(elems: seq<Element>, j: int)
    requires 0 <= j < |elems| && PoiOf(elems[j]).Some?
    ensures PoiOf(elems[j]).value in KeptPois(elems)
  {
    assert elems == elems[..j] + ([elems[j]] + elems[j + 1..]);
    KeptPoisAppend(elems[..j], [elems[j]] + elems[j + 1..]);
    KeptPoisAppend([elems[j]], elems[j + 1..]);
    KeptPoisSingle(elems[j]);
  }

  /** How many POIs of the list have type `t`. */
  function CountType(pois: seq<Poi>, t: string): nat {
    if |pois| == 0 then 0
    else CountType(pois[..|pois| - 1], t) + (if pois[|pois| - 1].poiType == t then 1 else 0)
  }

  lemma {:induction false} CountAbsent(pois: seq<Poi>, t: string)
    requires t !in TypesOf(pois)
    ensures CountType(pois, t) == 0
    decreases |pois|
  {
    if |pois| > 0 {
      var prefix := pois[..|pois| - 1];
      assert forall i :: 0 <= i < |prefix| ==> prefix[i] == pois[i];
      assert pois[|pois| - 1].poiType in TypesOf(pois);
      CountAbsent(prefix, t);
    }
  }

  /** The types occurring in a POI list. */
  function TypesOf(pois: seq<Poi>): set<string> {
    set i | 0 <= i < |pois| :: pois[i].poiType
  }

  /** Python's `m[t] = m.get(t, 0) + 1`. */
  function Bump(m: map<string, nat>, t: string): map<string, nat> {
    m[t := (if t in m then m[t] else 0) + 1]
  }

  /** The frequency count `aggregations[t] = aggregations.get(t, 0) + 1`
      folded over the POI list: one key per occurring type, holding the
      number of POIs of that type. */
  function Tally(pois: seq<Poi>): (m: map<string, nat>)
    ensures m.Keys == TypesOf(pois)
    ensures forall t :: t in m ==> m[t] == CountType(pois, t) && m[t] > 0
  {
    if |pois| == 0 then map[]
    else
      var prefix := pois[..|pois| - 1];
      var m := Tally(prefix);
      var t := pois[|pois| - 1].poiType;
      assert TypesOf(pois) == TypesOf(prefix) + {t} by {
        assert forall i :: 0 <= i < |prefix| ==> prefix[i] == pois[i];
      }
      var m' := Bump(m, t);
      assert forall u :: u in m' ==> m'[u] == CountType(pois, u) by {
        forall u | u in m' ensures m'[u] == CountType(pois, u) {
          if u == t {
            if t !in m {
              assert CountType(prefix, t) == 0 by { CountAbsent(prefix, t); }
            }
          }
        }
      }
      m'
  }

  /** The sum of the counts of a map. */
  ghost function MapSum(m: map<string, nat>): nat
    decreases |m|
  {
    if m == map[] then 0
    else
      var k :| k in m;
      m[k] + MapSum(m - {k})
  }

  /** The sum does not depend on which key is taken first. */
  lemma {:induction false} MapSumRemove(m: map<string, nat>, k: string)
    requires k in m
    ensures MapSum(m) == m[k] + MapSum(m - {k})
    decreases |m|
  {
    var k' :| k' in m && MapSum(m) == m[k'] + MapSum(m - {k'});
    if k' != k {
      MapSumRemove(m - {k'}, k);
      MapSumRemove(m - {k}, k');
      assert m - {k'} - {k} == m - {k} - {k'};
    }
  }

  /** Raising one key's count by one raises the sum by one. */
  lemma {:induction false} MapSumIncrement(m: map<string, nat>, k: string)
    ensures MapSum(Bump(m, k)) == MapSum(m) + 1
  {
    var m' := Bump(m, k);
    MapSumRemove(m', k);
    assert m' - {k} == m - {k};
    if k in m {
      MapSumRemove(m, k);
    } else {
      assert m - {k} == m;
    }
  }

  /** The counts sum to the length of the POI list. */
  lemma {:induction false} TallySum(pois: seq<Poi>)
    ensures MapSum(Tally(pois)) == |pois|
    decreases |pois|
  {
    if |pois| > 0 {
      var prefix := pois[..|pois| - 1];
      TallySum(prefix);
      var t := pois[|pois| - 1].poiType;
      MapSumIncrement(Tally(prefix), t);
    }
  }

  lemma {:induction false} KeptPoisStep(prefix: seq<Element>, e: Element)
    ensures KeptPois(prefix + [e]) == if Truthy(TypeByOrChain(e.tags))
      then KeptPois(prefix) + [Poi(e.id, NameOf(e.tags), TypeByOrChain(e.tags).value)]
      else KeptPois(prefix)
  {
    assert (prefix + [e])[..|prefix|] == prefix;
  }

  lemma {:induction false} TallyStep(pois: seq<Poi>, p: Poi)
    ensures Tally(pois + [p]) == Bump(Tally(pois), p.poiType)
  {
    assert (pois + [p])[..|pois|] == pois;
  }

  /** The aggregation loop of the summary endpoint, over the collected
      elements. */
  method AggregatePois(elems: seq<Element>) returns (response: FlightPoiResponse)
    ensures response.pois == KeptPois(elems)
    ensures response.aggregations.Keys == TypesOf(response.pois)
    ensures forall t :: t in response.aggregations ==> response.aggregations[t] == CountType(response.pois, t)
    ensures MapSum(response.aggregations) == |response.pois|
  {
    var pois: seq<Poi> := [];
    var aggregations: map<string, nat> := map[];
    var i := 0;
    while i < |elems|
      invariant 0 <= i <= |elems|
      invariant pois == KeptPois(elems[..i])
      invariant aggregations == Tally(pois)
    {
      var node := elems[i];
      var poiType := TypeByOrChain(node.tags);
      assert elems[..i + 1] == elems[..i] + [node];
      KeptPoisStep(elems[..i], node);
      if Truthy(poiType) {
        var t := poiType.value;
        TallyStep(pois, Poi(node.id, NameOf(node.tags), t));
        pois := pois + [Poi(node.id, NameOf(node.tags), t)];
        aggregations := Bump(aggregations, t);
      }
      i := i + 1;
    }
    assert elems[..|elems|] == elems;
    TallySum(pois);
    response := FlightPoiResponse(aggregations, pois);
  }

  const Town := Element(1, map["place" := "city", "name" := "Town"], None, None)
  const Water := Element(2, map["natural" := "water"], None, None)

  lemma ExampleKept()
    ensures KeptPois([Town, Water]) == [Poi(1, "Town", "city"), Poi(2, "Unknown", "water")]
  {
    assert ResolveType(Town.tags) == Some("city");
    assert ResolveType(Water.tags) == Some("water");
    KeptPoisSingle(Town);
    KeptPoisSingle(Water);
    KeptPoisAppend([Town], [Water]);
    assert [Town] + [Water] == [Town, Water];
  }

  lemma ExampleTally()
    ensures Tally([Poi(1, "Town", "city"), Poi(2, "Unknown", "water")]) == map["city" := 1, "water" := 1]
  {
    var pois := [Poi(1, "Town", "city"), Poi(2, "Unknown", "water")];
    TallyStep([pois[0]], pois[1]);
    TallyStep([], pois[0]);
    assert [pois[0]] + [pois[1]] == pois;
  }

  /** The worked example: a named town and an unnamed water body give one
      city and one water, the latter named "Unknown". */
  method AggregateExample() returns (response: FlightPoiResponse)
    ensures response.aggregations == map["city" := 1, "water" := 1]
    ensures response.pois == [Poi(1, "Town", "city"), Poi(2, "Unknown", "water")]
  {
    ExampleKept();
    ExampleTally();
    response := AggregatePois([Town, Water]);
  }
}
