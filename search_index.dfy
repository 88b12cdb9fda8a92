/** `generate_search_index`: one search record per manifest entry, written
    to `search-index.json` for the client-side search. */
module SearchIndex {
  import opened Wrappers
  import opened Text
  import opened NotionProperties
  import opened Manifest

  /** One record of `search-index.json`. */
  datatype SearchEntry = SearchEntry(
    docId: string,
    title: string,
    category: Value,
    author: Value,
    tags: Value,
    url: string)

  const UrlPrefix: string := "/documents/"
  const UrlSuffix: string := ".html"

  /** The address of a rendered document. */
  function DocumentUrl(docId: string): (r: string)
    ensures |r| == |UrlPrefix| + |docId| + |UrlSuffix|
    ensures StartsWith(r, UrlPrefix) && EndsWith(r, UrlSuffix)
    ensures r[|UrlPrefix|..|r| - |UrlSuffix|] == docId
  {
    UrlPrefix + docId + UrlSuffix
  }

  /** The document id inside an address of the `/documents/{id}.html` form. */
  function UrlDocId(url: string): Option<string> {
    if StartsWith(url, UrlPrefix) && EndsWith(url, UrlSuffix) && |url| >= |UrlPrefix| + |UrlSuffix|
    then Some(url[|UrlPrefix|..|url| - |UrlSuffix|])
    else None
  }

  /** The record built for one manifest entry. */
  function EntryOf(doc: PublishedDoc): SearchEntry {
    SearchEntry(
      doc.docId,
      doc.title,
      PropertyOrEmpty(doc, "CATEGORY"),
      PropertyOrEmpty(doc, "AUTHOR"),
      PropertyOrEmpty(doc, "TAGS"),
      DocumentUrl(doc.docId))
  }

  /** The records for a manifest, in manifest order. */
  function Entries(docs: seq<PublishedDoc>): seq<SearchEntry> {
    seq(|docs|, i requires 0 <= i < |docs| => EntryOf(docs[i]))
  }

  /** What is written: nothing without a manifest, the records otherwise. */
  function SearchIndexFile(manifest: Option<seq<PublishedDoc>>): Option<seq<SearchEntry>> {
    if manifest.None? then None else Some(Entries(manifest.value))
  }

  /** The document id is recovered from every record's address. */
  lemma UrlRoundTrip(docId: string)
    ensures UrlDocId(DocumentUrl(docId)) == Some(docId)
  {
  }

  /** Addresses of different documents differ. */
  lemma DocumentUrlInjective(a: string, b: string)
    requires DocumentUrl(a) == DocumentUrl(b)
    ensures a == b
  {
    UrlRoundTrip(a);
    UrlRoundTrip(b);
  }

  /** A property the entry lacks, or an entry without properties, gives the
      empty string; a present property gives its value as stored. */
  lemma PropertyDefaults(doc: PublishedDoc, name: string)
    ensures doc.properties.None? ==> PropertyOrEmpty(doc, name) == Str("")
    ensures doc.properties.Some? && (forall i :: 0 <= i < |doc.properties.value| ==> doc.properties.value[i].0 != name)
            ==> PropertyOrEmpty(doc, name) == Str("")
    ensures doc.properties.Some? && PropertyValue(doc.properties.value, name).Some?
            ==> (name, PropertyOrEmpty(doc, name)) in doc.properties.value
  {
  }

  /** One record per manifest entry, in the same order, each carrying the
      entry's id and title, its three properties and its address; every
      record leads back to its entry through its address. */
  lemma EntriesFacts(docs: seq<PublishedDoc>)
    ensures |Entries(docs)| == |docs|
    ensures forall i :: 0 <= i < |docs| ==>
              && Entries(docs)[i].docId == docs[i].docId
              && Entries(docs)[i].title == docs[i].title
              && Entries(docs)[i].category == PropertyOrEmpty(docs[i], "CATEGORY")
              && Entries(docs)[i].author == PropertyOrEmpty(docs[i], "AUTHOR")
              && Entries(docs)[i].tags == PropertyOrEmpty(docs[i], "TAGS")
              && UrlDocId(Entries(docs)[i].url) == Some(docs[i].docId)
  {
    forall i | 0 <= i < |docs| ensures UrlDocId(Entries(docs)[i].url) == Some(docs[i].docId) {
      UrlRoundTrip(docs[i].docId);
    }
  }

  /** `generate_search_index`: `None` when no manifest exists (no file is
      written), the list of records otherwise. */
  method GenerateSearchIndex(manifest: Option<seq<PublishedDoc>>) returns (written: Option<seq<SearchEntry>>)
    ensures written == SearchIndexFile(manifest)
    ensures written.None? <==> manifest.None?
  {
    if manifest.None? {
      return None;
    }
    var docs := manifest.value;
    var index: seq<SearchEntry> := [];
    for i := 0 to |docs|
      invariant |index| == i
      invariant forall j :: 0 <= j < i ==> index[j] == EntryOf(docs[j])
    {
      var doc := docs[i];
      var entry := SearchEntry(
        doc.docId,
        doc.title,
        PropertyValue(doc.properties.GetOr([]), "CATEGORY").GetOr(Str("")),
        PropertyValue(doc.properties.GetOr([]), "AUTHOR").GetOr(Str("")),
        PropertyValue(doc.properties.GetOr([]), "TAGS").GetOr(Str("")),
        "/documents/" + doc.docId + ".html");
      index := index + [entry];
    }
    assert index == Entries(docs);
    written := Some(index);
  }
}
