/** The OpenStreetMap elements an Overpass query returns, as the handlers see
    them: an id, a tag map and, for nodes, optional coordinates. */
module Osm {
  import opened Wrappers

  /** A tag map, `node.tags`. */
  type Tags = map<string, string>

  /** A returned element. Coordinates are opaque to the handlers: they are
      only copied, never computed with. */
  datatype Element = Element(id: int, tags: Tags, lat: Option<real>, lon: Option<real>)

  /** Python's `tags.get(key)`. */
  function Get(tags: Tags, key: string): Option<string> {
    if key in tags then Some(tags[key]) else None
  }

  /** Python truthiness of an optional string: present and non-empty. */
  predicate Truthy(o: Option<string>) {
    o.Some? && o.value != ""
  }

  /** Python's `tags.get("name", "Unknown")`: an empty name stays empty. */
  function NameOf(tags: Tags): (name: string)
    ensures "name" in tags ==> name == tags["name"]
    ensures "name" !in tags ==> name == "Unknown"
  {
    Get(tags, "name").GetOr("Unknown")
  }
}
