/** The published-documents manifest the renderer reads: the records the
    sync marked for publishing, in the order it wrote them. */
module Manifest {
  import opened Wrappers
  import opened NotionProperties

  /** One manifest entry; `properties` is `None` when the entry has no
      `properties` key. */
  datatype PublishedDoc = PublishedDoc(docId: string, title: string, properties: Option<seq<(string, Value)>>)

  /** `dict.get(name)` on a property list: the first entry with that name. */
  function PropertyValue(props: seq<(string, Value)>, name: string): (r: Option<Value>)
    ensures r.Some? <==> exists i :: 0 <= i < |props| && props[i].0 == name
    ensures r.Some? ==> (name, r.value) in props
  {
    if props == [] then None
    else if props[0].0 == name then Some(props[0].1)
    else PropertyValue(props[1..], name)
  }

  /** `doc.get("properties", {}).get(name, "")`. */
  function PropertyOrEmpty(doc: PublishedDoc, name: string): Value {
    PropertyValue(doc.properties.GetOr([]), name).GetOr(Str(""))
  }
}
