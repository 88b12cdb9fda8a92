/** `cleanup_revoked_documents`: delete the rendered page of every document
    that is no longer in the manifest. */
module Cleanup {
  import opened Wrappers
  import opened Text
  import opened Manifest

  /** The ids the manifest publishes; none without a manifest. */
  function PublishedIds(manifest: Option<seq<PublishedDoc>>): (ids: set<string>)
    ensures forall id :: id in ids <==>
              manifest.Some? && exists i :: 0 <= i < |manifest.value| && manifest.value[i].docId == id
  {
    if manifest.None? then {} else set i | 0 <= i < |manifest.value| :: manifest.value[i].docId
  }

  /** A file name the pattern `DOC-*.html` matches. */
  predicate Matches(name: string) {
    |name| >= 9 && StartsWith(name, "DOC-") && EndsWith(name, ".html")
  }

  /** The name without its `.html` suffix. */
  function Stem(name: string): string
    requires Matches(name)
  {
    name[..|name| - 5]
  }

  /** A page that is deleted: it matches the pattern and its document is not
      published. */
  predicate Revoked(name: string, ids: set<string>) {
    Matches(name) && Stem(name) !in ids
  }

  /** The deleted pages, in listing order. */
  function Removed(files: seq<string>, ids: set<string>): seq<string> {
    if files == [] then []
    else Removed(files[..|files| - 1], ids)
         + (if Revoked(files[|files| - 1], ids) then [files[|files| - 1]] else [])
  }

  /** The files left behind, in listing order. */
  function Kept(files: seq<string>, ids: set<string>): seq<string> {
    if files == [] then []
    else Kept(files[..|files| - 1], ids)
         + (if Revoked(files[|files| - 1], ids) then [] else [files[|files| - 1]])
  }

  /** The deleted files are exactly the revoked ones, the kept files exactly
      the others, and together they are the listing. */
  lemma {:induction false} CleanupFacts(files: seq<string>, ids: set<string>)
    ensures forall f :: f in Removed(files, ids) <==> f in files && Revoked(f, ids)
    ensures forall f :: f in Kept(files, ids) <==> f in files && !Revoked(f, ids)
    ensures multiset(Removed(files, ids)) + multiset(Kept(files, ids)) == multiset(files)
  {
    if files != [] {
      var init := files[..|files| - 1];
      CleanupFacts(init, ids);
      assert files == init + [files[|files| - 1]];
    }
  }

  /** A page of the form `{id}.html`, as the document renderer names it, is
      revoked exactly when its id is not published. */
  lemma StemOfPage(docId: string, ids: set<string>)
    requires StartsWith(docId, "DOC-")
    ensures Matches(docId + ".html") && Stem(docId + ".html") == docId
    ensures Revoked(docId + ".html", ids) <==> docId !in ids
  {
    assert (docId + ".html")[..|docId|] == docId;
    assert (docId + ".html")[..4] == docId[..4];
  }

  /** The page of a published document is never deleted. */
  lemma PublishedPageKept(manifest: Option<seq<PublishedDoc>>, files: seq<string>, i: nat)
    requires manifest.Some? && i < |manifest.value|
    requires StartsWith(manifest.value[i].docId, "DOC-")
    requires manifest.value[i].docId + ".html" in files
    ensures manifest.value[i].docId + ".html" !in Removed(files, PublishedIds(manifest))
    ensures manifest.value[i].docId + ".html" in Kept(files, PublishedIds(manifest))
  {
    var ids := PublishedIds(manifest);
    StemOfPage(manifest.value[i].docId, ids);
    CleanupFacts(files, ids);
  }

  /** Without a manifest every file matching `DOC-*.html` is deleted, and
      nothing else. */
  lemma NoManifestRemovesAllPages(files: seq<string>)
    ensures forall f :: f in Removed(files, PublishedIds(None)) <==> f in files && Matches(f)
  {
    CleanupFacts(files, {});
  }

  /** Files outside the pattern, such as `index.html`, are never deleted. */
  lemma OtherFilesKept(files: seq<string>, ids: set<string>, f: string)
    requires f in files && !Matches(f)
    ensures f in Kept(files, ids) && f !in Removed(files, ids)
  {
    CleanupFacts(files, ids);
  }

  /** `cleanup_revoked_documents` over the listing `files` of the documents
      directory: the files it deletes, those it leaves, and the count it
      reports. */
  method CleanupRevokedDocuments(manifest: Option<seq<PublishedDoc>>, files: seq<string>)
    returns (removed: seq<string>, kept: seq<string>, removedCount: nat)
    ensures removed == Removed(files, PublishedIds(manifest))
    ensures kept == Kept(files, PublishedIds(manifest))
    ensures removedCount == |removed|
  {
    var publishedIds: set<string> := {};
    if manifest.Some? {
      publishedIds := set i | 0 <= i < |manifest.value| :: manifest.value[i].docId;
    }
    removed, kept, removedCount := [], [], 0;
    for k := 0 to |files|
      invariant removed == Removed(files[..k], publishedIds)
      invariant kept == Kept(files[..k], publishedIds)
      invariant removedCount == |removed|
    {
      var name := files[k];
      assert files[..k + 1][..k] == files[..k];
      if |name| >= 9 && name[..4] == "DOC-" && name[|name| - 5..] == ".html" {
        var docId := name[..|name| - 5];
        if docId !in publishedIds {
          removed := removed + [name];
          removedCount := removedCount + 1;
        } else {
          kept := kept + [name];
        }
      } else {
        kept := kept + [name];
      }
    }
    assert files[..|files|] == files;
  }
}
