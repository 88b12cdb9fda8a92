/** `generate_homepage`: the manifest sorted by document id, newest first,
    cut into pages of ten, page 1 written to `index.html` and page k to
    `page-k.html`. */
module Homepage {
  import opened Wrappers
  import opened Text
  import opened StringOrder
  import opened Manifest
  import opened Metrics

  // ---- `docs.sort(key=lambda x: x["doc_id"], reverse=True)` ----

  /** Non-increasing by document id. */
  predicate SortedDesc(docs: seq<PublishedDoc>) {
    forall i, j :: 0 <= i < j < |docs| ==> !Less(docs[i].docId, docs[j].docId)
  }

  /** Place `x` after every entry whose id is not smaller than its own. */
  function Insert(x: PublishedDoc, s: seq<PublishedDoc>): seq<PublishedDoc> {
    if s == [] then [x]
    else if Less(s[0].docId, x.docId) then [x] + s
    else [s[0]] + Insert(x, s[1..])
  }

  /** The stable descending sort, entry by entry from the left. */
  function SortByDocIdDesc(docs: seq<PublishedDoc>): seq<PublishedDoc> {
    if docs == [] then [] else Insert(docs[|docs| - 1], SortByDocIdDesc(docs[..|docs| - 1]))
  }

  /** The entries with a given id, in order. */
  function WithId(docs: seq<PublishedDoc>, id: string): seq<PublishedDoc> {
    if docs == [] then []
    else (if docs[0].docId == id then [docs[0]] else []) + WithId(docs[1..], id)
  }

  /** In a sorted list whose first id is below `id`, every id is below it. */
  lemma AllBelow(s: seq<PublishedDoc>, id: string)
    requires SortedDesc(s) && s != [] && Less(s[0].docId, id)
    ensures forall j :: 0 <= j < |s| ==> Less(s[j].docId, id)
  {
    forall j | 0 <= j < |s| ensures Less(s[j].docId, id) {
      if j > 0 {
        LessTotal(s[j].docId, s[0].docId);
        if Less(s[j].docId, s[0].docId) {
          LessTransitive(s[j].docId, s[0].docId, id);
        }
      }
    }
  }

  lemma {:induction false} WithIdNone(s: seq<PublishedDoc>, id: string)
    requires forall j :: 0 <= j < |s| ==> s[j].docId != id
    ensures WithId(s, id) == []
  {
    if s != [] {
      WithIdNone(s[1..], id);
    }
  }

  lemma SortedTail(s: seq<PublishedDoc>)
    requires SortedDesc(s) && s != []
    ensures SortedDesc(s[1..])
    ensures forall j :: 0 <= j < |s[1..]| ==> !Less(s[0].docId, s[1..][j].docId)
  {
    forall i, j | 0 <= i < j < |s[1..]| ensures !Less(s[1..][i].docId, s[1..][j].docId) {
      assert s[1..][i] == s[i + 1] && s[1..][j] == s[j + 1];
    }
  }

  /** Inserting adds exactly `x`. */
  lemma {:induction false} InsertMultiset(x: PublishedDoc, s: seq<PublishedDoc>)
    ensures multiset(Insert(x, s)) == multiset(s) + multiset{x}
  {
    if s != [] && !Less(s[0].docId, x.docId) {
      InsertMultiset(x, s[1..]);
      assert s == [s[0]] + s[1..];
    }
  }

  /** Inserting keeps the list sorted. */
  lemma {:induction false} InsertSorted(x: PublishedDoc, s: seq<PublishedDoc>)
    requires SortedDesc(s)
    ensures SortedDesc(Insert(x, s))
  {
    if s == [] {
    } else if Less(s[0].docId, x.docId) {
      AllBelow(s, x.docId);
      var r := [x] + s;
      forall i, j | 0 <= i < j < |r| ensures !Less(r[i].docId, r[j].docId) {
        if i == 0 {
          LessAsymmetric(s[j - 1].docId, x.docId);
        } else {
          assert r[i] == s[i - 1] && r[j] == s[j - 1];
        }
      }
    } else {
      SortedTail(s);
      InsertSorted(x, s[1..]);
      InsertNotAbove(x, s[1..], s[0].docId);
      SortedCons(s[0], Insert(x, s[1..]));
    }
  }

  /** An id at or above `x` and every entry of `s` is at or above every
      entry after the insertion. */
  lemma InsertNotAbove(x: PublishedDoc, s: seq<PublishedDoc>, id: string)
    requires !Less(id, x.docId)
    requires forall j :: 0 <= j < |s| ==> !Less(id, s[j].docId)
    ensures forall y :: y in Insert(x, s) ==> !Less(id, y.docId)
  {
    InsertMultiset(x, s);
    forall y | y in Insert(x, s) ensures !Less(id, y.docId) {
      assert y in multiset(Insert(x, s));
      if y != x {
        assert y in multiset(s);
      }
    }
  }

  lemma SortedCons(d: PublishedDoc, rest: seq<PublishedDoc>)
    requires SortedDesc(rest)
    requires forall y :: y in rest ==> !Less(d.docId, y.docId)
    ensures SortedDesc([d] + rest)
  {
    var r := [d] + rest;
    forall i, j | 0 <= i < j < |r| ensures !Less(r[i].docId, r[j].docId) {
      assert r[j] == rest[j - 1];
      if i > 0 {
        assert r[i] == rest[i - 1];
      } else {
        assert r[j] in rest;
      }
    }
  }

  /** Inserting puts `x` after the entries that share its id. */
  lemma {:induction false} InsertWithId(x: PublishedDoc, s: seq<PublishedDoc>, id: string)
    requires SortedDesc(s)
    ensures WithId(Insert(x, s), id) == WithId(s, id) + (if x.docId == id then [x] else [])
  {
    if s == [] {
      assert WithId([x], id) == (if x.docId == id then [x] else []) + WithId([], id);
    } else if Less(s[0].docId, x.docId) {
      var r := [x] + s;
      assert r[1..] == s;
      if x.docId == id {
        AllBelow(s, x.docId);
        forall j | 0 <= j < |s| ensures s[j].docId != id {
          LessIrreflexive(id);
        }
        WithIdNone(s, id);
      }
    } else {
      var head := if s[0].docId == id then [s[0]] else [];
      var r := Insert(x, s[1..]);
      SortedTail(s);
      InsertWithId(x, s[1..], id);
      assert ([s[0]] + r)[1..] == r;
      assert WithId([s[0]] + r, id) == head + WithId(r, id);
      assert WithId(s, id) == head + WithId(s[1..], id);
      AppendAssoc(head, WithId(s[1..], id), if x.docId == id then [x] else []);
    }
  }

  /** The sort is non-increasing. */
  lemma {:induction false} SortSorted(docs: seq<PublishedDoc>)
    ensures SortedDesc(SortByDocIdDesc(docs))
  {
    if docs != [] {
      var init := docs[..|docs| - 1];
      SortSorted(init);
      InsertSorted(docs[|docs| - 1], SortByDocIdDesc(init));
    }
  }

  /** The sort is a permutation. */
  lemma {:induction false} SortPermutation(docs: seq<PublishedDoc>)
    ensures multiset(SortByDocIdDesc(docs)) == multiset(docs)
  {
    if docs != [] {
      var init, x := docs[..|docs| - 1], docs[|docs| - 1];
      assert docs == init + [x];
      SortPermutation(init);
      InsertMultiset(x, SortByDocIdDesc(init));
    }
  }

  /** The sort is stable: the entries sharing an id keep their manifest
      order. */
  lemma {:induction false} SortStable(docs: seq<PublishedDoc>, id: string)
    ensures WithId(SortByDocIdDesc(docs), id) == WithId(docs, id)
  {
    if docs != [] {
      var init, x := docs[..|docs| - 1], docs[|docs| - 1];
      assert docs == init + [x];
      SortStable(init, id);
      SortSorted(init);
      InsertWithId(x, SortByDocIdDesc(init), id);
      WithIdAppend(init, [x], id);
      assert WithId([x], id) == (if x.docId == id then [x] else []) + WithId([], id);
    }
  }

  /** The sort is non-increasing, a permutation, and stable. */
  lemma SortFacts(docs: seq<PublishedDoc>)
    ensures SortedDesc(SortByDocIdDesc(docs))
    ensures multiset(SortByDocIdDesc(docs)) == multiset(docs)
    ensures forall id :: WithId(SortByDocIdDesc(docs), id) == WithId(docs, id)
  {
    SortSorted(docs);
    SortPermutation(docs);
    forall id ensures WithId(SortByDocIdDesc(docs), id) == WithId(docs, id) {
      SortStable(docs, id);
    }
  }

  lemma {:induction false} WithIdAppend(a: seq<PublishedDoc>, b: seq<PublishedDoc>, id: string)
    ensures WithId(a + b, id) == WithId(a, id) + WithId(b, id)
  {
    if a == [] {
      assert a + b == b;
    } else {
      var head := if a[0].docId == id then [a[0]] else [];
      assert (a + b)[1..] == a[1..] + b;
      WithIdAppend(a[1..], b, id);
      assert WithId(a + b, id) == head + WithId(a[1..] + b, id);
      AppendAssoc(head, WithId(a[1..], id), WithId(b, id));
    }
  }

  // ---- pages ----

  const PerPage: nat := 10

  /** `(len(docs) + items_per_page - 1) // items_per_page`. */
  function TotalPages(n: nat): nat {
    (n + PerPage - 1) / PerPage
  }

  function Min(a: nat, b: nat): nat {
    if a <= b then a else b
  }

  /** `docs[(k - 1) * 10 : (k - 1) * 10 + 10]`, with Python's clamping. */
  function PageSlice(docs: seq<PublishedDoc>, k: nat): seq<PublishedDoc>
    requires k >= 1
  {
    docs[Min((k - 1) * PerPage, |docs|)..Min((k - 1) * PerPage + PerPage, |docs|)]
  }

  /** The file page `k` is written to. */
  function PageFileName(k: nat): string {
    if k == 1 then "index.html" else "page-" + NatToDecimal(k) + ".html"
  }

  /** One written page: its file, its entries, its number and the page
      count it shows. */
  datatype HomepageFile = HomepageFile(name: string, docs: seq<PublishedDoc>, pageNum: nat, totalPages: nat)

  /** What `generate_homepage` writes: without a manifest, one empty
      `index.html` (page 1 of 1); with one, every page of the sorted list. */
  function HomepageFiles(manifest: Option<seq<PublishedDoc>>): seq<HomepageFile> {
    match manifest
    case None => [HomepageFile("index.html", [], 1, 1)]
    case Some(docs) =>
      var sorted := SortByDocIdDesc(docs);
      var total := TotalPages(|docs|);
      seq(total, i requires 0 <= i < total => HomepageFile(PageFileName(i + 1), PageSlice(sorted, i + 1), i + 1, total))
  }

  /** The entries of the first `m` pages, one page after another. */
  function PagesText(docs: seq<PublishedDoc>, m: nat): seq<PublishedDoc> {
    if m == 0 then [] else PagesText(docs, m - 1) + PageSlice(docs, m)
  }

  lemma {:induction false} PagesPrefix(docs: seq<PublishedDoc>, m: nat)
    ensures PagesText(docs, m) == docs[..Min(m * PerPage, |docs|)]
  {
    if m > 0 {
      PagesPrefix(docs, m - 1);
      var a, b := Min((m - 1) * PerPage, |docs|), Min(m * PerPage, |docs|);
      assert docs[..a] + docs[a..b] == docs[..b];
    }
  }

  /** The pages partition the sorted list: read one after another they give
      it back, each holds between one and ten entries, and only the last
      may hold fewer than ten. */
  lemma PagesPartition(docs: seq<PublishedDoc>)
    ensures PagesText(docs, TotalPages(|docs|)) == docs
    ensures forall k :: 1 <= k <= TotalPages(|docs|) ==> 1 <= |PageSlice(docs, k)| <= PerPage
    ensures forall k :: 1 <= k < TotalPages(|docs|) ==> |PageSlice(docs, k)| == PerPage
  {
    PagesPrefix(docs, TotalPages(|docs|));
    assert docs[..|docs|] == docs;
  }

  /** A manifest that exists but is empty writes no page at all, not even
      `index.html`. */
  lemma EmptyManifestWritesNothing()
    ensures HomepageFiles(Some([])) == []
  {
  }

  /** Example: 23 entries give pages of 10, 10 and 3. */
  lemma TwentyThreeDocs(docs: seq<PublishedDoc>)
    requires |docs| == 23
    ensures TotalPages(|docs|) == 3
    ensures |PageSlice(docs, 1)| == 10 && |PageSlice(docs, 2)| == 10 && |PageSlice(docs, 3)| == 3
  {
  }

  /** Different pages go to different files. */
  lemma PageFileNamesDistinct(j: nat, k: nat)
    requires 1 <= j && 1 <= k && j != k
    ensures PageFileName(j) != PageFileName(k)
  {
    if j != 1 && k != 1 {
      var fj, fk := PageFileName(j), PageFileName(k);
      assert fj[5..|fj| - 5] == NatToDecimal(j);
      assert fk[5..|fk| - 5] == NatToDecimal(k);
    } else {
      assert PageFileName(j)[0] != PageFileName(k)[0];
    }
  }

  // ---- `get_metrics` on every listed entry (`_build_homepage_html`) ----

  /** The metrics table after the rows of `docs` are built: `get_metrics`
      on each id in turn. */
  function ListedMetrics(table: MetricsTable, docs: seq<PublishedDoc>): MetricsTable
    decreases |docs|
  {
    if docs == [] then table else ListedMetrics(WithDocument(table, docs[0].docId), docs[1..])
  }

  /** Listing entries adds the zero counters for each listed id that had
      none, and changes no existing entry. */
  lemma {:induction false} ListedMetricsFacts(table: MetricsTable, docs: seq<PublishedDoc>)
    ensures var r := ListedMetrics(table, docs);
            && (forall d :: d in r <==> d in table || exists x :: x in docs && x.docId == d)
            && (forall d :: d in table ==> r[d] == table[d])
            && (forall d :: d in r && d !in table ==> r[d] == Zeros)
    decreases |docs|
  {
    if docs != [] {
      var t1 := WithDocument(table, docs[0].docId);
      WithDocumentFacts(table, docs[0].docId);
      ListedMetricsFacts(t1, docs[1..]);
      assert docs == [docs[0]] + docs[1..];
      forall x ensures x in docs <==> x == docs[0] || x in docs[1..] {
      }
    }
  }

  /** The metrics table after `generate_homepage`: unchanged without a
      manifest, otherwise `get_metrics` on the entries of every page in turn. */
  function HomepageMetrics(table: MetricsTable, manifest: Option<seq<PublishedDoc>>): MetricsTable {
    match manifest
    case None => table
    case Some(docs) =>
      var sorted := SortByDocIdDesc(docs);
      ListedMetrics(table, PagesText(sorted, TotalPages(|sorted|)))
  }

  /** Building the homepage gives every published document without counters
      the zero counters, and changes no counters that exist. */
  lemma HomepageMetricsFacts(table: MetricsTable, manifest: Option<seq<PublishedDoc>>)
    ensures var r := HomepageMetrics(table, manifest);
            && (forall d :: d in r <==> d in table || (manifest.Some? && exists x :: x in manifest.value && x.docId == d))
            && (forall d :: d in table ==> r[d] == table[d])
            && (forall d :: d in r && d !in table ==> r[d] == Zeros)
  {
    if manifest.Some? {
      var docs := manifest.value;
      var sorted := SortByDocIdDesc(docs);
      PagesPartition(sorted);
      SortPermutation(docs);
      forall x ensures x in sorted <==> x in docs {
        assert x in sorted <==> x in multiset(sorted);
        assert x in docs <==> x in multiset(docs);
      }
      ListedMetricsFacts(table, sorted);
    }
  }

  /** `generate_homepage`: sort, then write the pages one by one. */
  method GenerateHomepage(manifest: Option<seq<PublishedDoc>>) returns (files: seq<HomepageFile>)
    ensures files == HomepageFiles(manifest)
  {
    if manifest.None? {
      return [HomepageFile("index.html", [], 1, 1)];
    }
    var docs := SortByDocIdDesc(manifest.value);
    var totalPages := (|docs| + PerPage - 1) / PerPage;
    assert |docs| == |manifest.value| by {
      SortFacts(manifest.value);
      assert |multiset(docs)| == |multiset(manifest.value)|;
    }
    files := [];
    for pageNum := 1 to totalPages + 1
      invariant |files| == pageNum - 1
      invariant forall i :: 0 <= i < |files| ==>
                  files[i] == HomepageFile(PageFileName(i + 1), PageSlice(docs, i + 1), i + 1, totalPages)
    {
      var startIdx := (pageNum - 1) * PerPage;
      var endIdx := startIdx + PerPage;
      var pageDocs := docs[Min(startIdx, |docs|)..Min(endIdx, |docs|)];
      var outputFile := if pageNum == 1 then "index.html" else "page-" + NatToDecimal(pageNum) + ".html";
      files := files + [HomepageFile(outputFile, pageDocs, pageNum, totalPages)];
    }
  }
}
