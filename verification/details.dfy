/** The detailed view: per element a curated map of human-readable fields,
    the optional coordinates, and the result keyed by element id. */
module Details {
  import opened Wrappers
  import opened Text
  import opened Osm

  const DescriptionLabel := "Описание"
  const FullAddressLabel := "Полный адрес"
  const AddressLabel := "Адрес"
  const WebsiteLabel := "Веб-сайт"
  const PhoneLabel := "Телефон"
  const HoursLabel := "Часы работы"

  /** The six labels a details map may use. */
  const DetailLabels: set<string> :=
    {DescriptionLabel, FullAddressLabel, AddressLabel, WebsiteLabel, PhoneLabel, HoursLabel}

  lemma LabelsDistinct()
    ensures |DetailLabels| == 6
  {
    assert DescriptionLabel[0] != WebsiteLabel[0];
  }

  /** The coordinates attached to a detail. */
  datatype Coordinates = Coordinates(latitude: real, longitude: real)

  /** One entry of the detail response. */
  datatype PoiDetail = PoiDetail(id: int, name: string, tags: Tags, details: map<string, string>,
                                 coordinates: Option<Coordinates>)

  /** The address pieces present on an element, street first. */
  function AddressParts(tags: Tags): seq<string> {
    (if "addr:street" in tags then [tags["addr:street"]] else [])
    + (if "addr:housenumber" in tags then [tags["addr:housenumber"]] else [])
  }

  /** Copies `tags[key]` under `heading` when the key is present. */
  function CopyIfPresent(d: map<string, string>, tags: Tags, key: string, heading: string): map<string, string> {
    if key in tags then d[heading := tags[key]] else d
  }

  /** Adds the address: the full address when `addr:full` is present,
      otherwise the street and house number present, joined by a space. */
  function AddAddress(d: map<string, string>, tags: Tags): map<string, string> {
    if "addr:full" in tags then d[FullAddressLabel := tags["addr:full"]]
    else if |AddressParts(tags)| > 0 then d[AddressLabel := Join(AddressParts(tags), ' ')]
    else d
  }

  /** The curated details of an element, built field by field in the order the
      handler adds them. */
  function DetailsOf(tags: Tags): (d: map<string, string>)
    ensures d.Keys <= DetailLabels
    ensures DescriptionLabel in d <==> "description" in tags
    ensures DescriptionLabel in d ==> d[DescriptionLabel] == tags["description"]
    ensures FullAddressLabel in d <==> "addr:full" in tags
    ensures FullAddressLabel in d ==> d[FullAddressLabel] == tags["addr:full"] && AddressLabel !in d
    ensures AddressLabel in d <==> "addr:full" !in tags && ("addr:street" in tags || "addr:housenumber" in tags)
    ensures AddressLabel in d && "addr:street" in tags && "addr:housenumber" in tags ==>
              d[AddressLabel] == tags["addr:street"] + " " + tags["addr:housenumber"]
    ensures AddressLabel in d && "addr:street" in tags && "addr:housenumber" !in tags ==>
              d[AddressLabel] == tags["addr:street"]
    ensures AddressLabel in d && "addr:street" !in tags ==> d[AddressLabel] == tags["addr:housenumber"]
    ensures WebsiteLabel in d <==> "website" in tags
    ensures WebsiteLabel in d ==> d[WebsiteLabel] == tags["website"]
    ensures PhoneLabel in d <==> "phone" in tags
    ensures PhoneLabel in d ==> d[PhoneLabel] == tags["phone"]
    ensures HoursLabel in d <==> "opening_hours" in tags
    ensures HoursLabel in d ==> d[HoursLabel] == tags["opening_hours"]
  {
    var described := CopyIfPresent(map[], tags, "description", DescriptionLabel);
    var parts := AddressParts(tags);
    assert "addr:street" in tags && "addr:housenumber" in tags ==>
      Join(parts, ' ') == tags["addr:street"] + " " + tags["addr:housenumber"] by {
      if "addr:street" in tags && "addr:housenumber" in tags {
        assert parts[1..] == [tags["addr:housenumber"]];
      }
    }
    var addressed := AddAddress(described, tags);
    var withSite := CopyIfPresent(addressed, tags, "website", WebsiteLabel);
    var withPhone := CopyIfPresent(withSite, tags, "phone", PhoneLabel);
    CopyIfPresent(withPhone, tags, "opening_hours", HoursLabel)
  }

  /** The verbatim fields as an ordered lookup table of (tag key, heading). */
  const CopiedFields: seq<(string, string)> := [
    ("description", DescriptionLabel),
    ("website", WebsiteLabel),
    ("phone", PhoneLabel),
    ("opening_hours", HoursLabel)
  ]

  /** The table-driven copy of the verbatim fields, applied in table order. */
  function CopyFields(tags: Tags, table: seq<(string, string)>): map<string, string>
  {
    if |table| == 0 then map[]
    else
      var last := table[|table| - 1];
      CopyIfPresent(CopyFields(tags, table[..|table| - 1]), tags, last.0, last.1)
  }

  /** The address fields alone. */
  function AddressFields(tags: Tags): map<string, string> {
    AddAddress(map[], tags)
  }

  lemma {:induction false} CopiedFieldsUnfold(tags: Tags)
    ensures CopyFields(tags, CopiedFields) ==
      CopyIfPresent(CopyIfPresent(CopyIfPresent(CopyIfPresent(map[], tags, "description", DescriptionLabel),
        tags, "website", WebsiteLabel), tags, "phone", PhoneLabel), tags, "opening_hours", HoursLabel)
  {
    var t := CopiedFields;
    assert t[..3] == [("description", DescriptionLabel), ("website", WebsiteLabel), ("phone", PhoneLabel)];
    assert t[..3][..2] == [("description", DescriptionLabel), ("website", WebsiteLabel)];
    assert t[..3][..2][..1] == [("description", DescriptionLabel)];
    assert t[..3][..2][..1][..0] == [];
    assert CopyFields(tags, t[..3][..2][..1]) == CopyIfPresent(map[], tags, "description", DescriptionLabel);
    assert CopyFields(tags, t[..3][..2]) == CopyIfPresent(CopyFields(tags, t[..3][..2][..1]), tags, "website", WebsiteLabel);
    assert CopyFields(tags, t[..3]) == CopyIfPresent(CopyFields(tags, t[..3][..2]), tags, "phone", PhoneLabel);
  }

  /** Adding the address commutes with copying a field under another label. */
  lemma AddAddressCommutes(d: map<string, string>, tags: Tags, key: string, heading: string)
    requires heading != FullAddressLabel && heading != AddressLabel
    ensures CopyIfPresent(AddAddress(d, tags), tags, key, heading) == AddAddress(CopyIfPresent(d, tags, key, heading), tags)
  {
  }

  /** Adding the address to a map without address labels is a union. */
  lemma AddAddressUnion(d: map<string, string>, tags: Tags)
    ensures AddAddress(d, tags) == d + AddressFields(tags)
  {
  }

  /** The chain of conditionals equals the lookup table for the verbatim
      fields together with the address rule. */
  lemma {:induction false} DetailsByTable(tags: Tags)
    ensures DetailsOf(tags) == CopyFields(tags, CopiedFields) + AddressFields(tags)
  {
    CopiedFieldsUnfold(tags);
    LabelsDistinct();
    var described := CopyIfPresent(map[], tags, "description", DescriptionLabel);
    AddAddressCommutes(described, tags, "website", WebsiteLabel);
    var w := CopyIfPresent(described, tags, "website", WebsiteLabel);
    AddAddressCommutes(w, tags, "phone", PhoneLabel);
    var p := CopyIfPresent(w, tags, "phone", PhoneLabel);
    AddAddressCommutes(p, tags, "opening_hours", HoursLabel);
    AddAddressUnion(CopyIfPresent(p, tags, "opening_hours", HoursLabel), tags);
  }

  /** Coordinates are attached only when both latitude and longitude exist. */
  function CoordinatesOf(e: Element): (c: Option<Coordinates>)
    ensures c.Some? <==> e.lat.Some? && e.lon.Some?
    ensures c.Some? ==> c.value.latitude == e.lat.value && c.value.longitude == e.lon.value
  {
    if e.lat.Some? && e.lon.Some? then Some(Coordinates(e.lat.value, e.lon.value)) else None
  }

  /** The detail entry of one element. */
  function DetailOf(e: Element): PoiDetail
  {
    PoiDetail(e.id, NameOf(e.tags), e.tags, DetailsOf(e.tags), CoordinatesOf(e))
  }

  /** The ids of a list of elements. */
  function IdsOf(elems: seq<Element>): set<int> {
    set i | 0 <= i < |elems| :: elems[i].id
  }

  lemma IdsOfSnoc(elems: seq<Element>)
    requires |elems| > 0
    ensures IdsOf(elems) == IdsOf(elems[..|elems| - 1]) + {elems[|elems| - 1].id}
  {
    var prefix := elems[..|elems| - 1];
    assert forall i :: 0 <= i < |prefix| ==> prefix[i] == elems[i];
  }

  /** True when no element after position `i` has the id of `elems[i]`. */
  predicate LastWithId(elems: seq<Element>, i: int)
    requires 0 <= i < |elems|
  {
    forall j :: i < j < |elems| ==> elems[j].id != elems[i].id
  }

  /** The element each id ends up with when the elements are stored by id in
      order, `result[node.id] = node`. */
  function LatestById(elems: seq<Element>): map<int, Element>
  {
    if |elems| == 0 then map[]
    else LatestById(elems[..|elems| - 1])[elems[|elems| - 1].id := elems[|elems| - 1]]
  }

  /** Exactly the ids of the elements are keys. */
  lemma {:induction false} LatestByIdKeys(elems: seq<Element>)
    ensures LatestById(elems).Keys == IdsOf(elems)
    decreases |elems|
  {
    if |elems| > 0 {
      LatestByIdKeys(elems[..|elems| - 1]);
      IdsOfSnoc(elems);
    }
  }

  /** The last element with a given id is the one stored under it. */
  lemma {:induction false} LatestByIdLast(elems: seq<Element>, i: int)
    requires 0 <= i < |elems| && LastWithId(elems, i)
    ensures elems[i].id in LatestById(elems) && LatestById(elems)[elems[i].id] == elems[i]
    decreases |elems|
  {
    var n := |elems| - 1;
    if i < n {
      var prefix := elems[..n];
      assert prefix[i] == elems[i];
      assert elems[n].id != elems[i].id;
      assert LastWithId(prefix, i) by {
        forall j | i < j < n ensures prefix[j].id != prefix[i].id {
          assert prefix[j] == elems[j];
        }
      }
      LatestByIdLast(prefix, i);
    }
  }

  /** The result map `result[node.id] = detail` over all elements: one entry
      per distinct id, taken from the last element with that id, so a later
      duplicate overwrites an earlier one. */
  function DetailsById(elems: seq<Element>): (r: map<int, PoiDetail>)
    ensures r.Keys == IdsOf(elems)
    ensures forall i :: 0 <= i < |elems| && LastWithId(elems, i) ==> r[elems[i].id] == DetailOf(elems[i])
  {
    var latest := LatestById(elems);
    LatestByIdKeys(elems);
    assert forall i :: 0 <= i < |elems| && LastWithId(elems, i) ==> latest[elems[i].id] == elems[i] by {
      forall i | 0 <= i < |elems| && LastWithId(elems, i) ensures latest[elems[i].id] == elems[i] {
        LatestByIdLast(elems, i);
      }
    }
    map k | k in latest :: DetailOf(latest[k])
  }

  /** Every id that occurs has a last occurrence. */
  lemma {:induction false} LastOccurrence(elems: seq<Element>, k: int) returns (i: int)
    requires k in IdsOf(elems)
    ensures 0 <= i < |elems| && elems[i].id == k && LastWithId(elems, i)
    decreases |elems|
  {
    var n := |elems| - 1;
    if elems[n].id == k {
      i := n;
    } else {
      var prefix := elems[..n];
      var w :| 0 <= w < |elems| && elems[w].id == k;
      assert w < n && prefix[w] == elems[w];
      i := LastOccurrence(prefix, k);
      assert prefix[i] == elems[i];
      assert forall j :: i < j < n ==> prefix[j] == elems[j];
    }
  }

  /** Every entry of the result is the detail of the last element carrying
      its id. */
  lemma {:induction false} EntryIsLastWithId(elems: seq<Element>, k: int)
    requires k in DetailsById(elems)
    ensures exists i :: 0 <= i < |elems| && elems[i].id == k && LastWithId(elems, i)
                        && DetailsById(elems)[k] == DetailOf(elems[i])
  {
    var i := LastOccurrence(elems, k);
  }
}
