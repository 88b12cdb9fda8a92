/** The identity reconciler of the sync module (`process_pages`): for every
    fetched page it keeps the local document counter, the local map from page
    id to document id and the page's remote DOC_ID field consistent, and it
    builds the processed and published record lists. */
module Reconciler {
  import opened Wrappers
  import opened Text
  import opened DocIds
  import opened NotionProperties

  /** A page as the Notion query returns it; `id` is `None` when the page
      dictionary has no `id` key (processing that page raises and it is skipped). */
  datatype Page = Page(id: Option<string>, properties: Properties)

  /** One processed document: `doc_data` without the pass-through timestamps and URL. */
  datatype Record = Record(pageId: string, docId: Value, title: Value, publish: Value,
                           properties: seq<(string, Value)>)

  /** The persisted local store: `doc_counter.json` and `doc_mapping.json`. */
  datatype Store = Store(counter: nat, mapping: map<string, Value>)

  /** A write of `docId` into the DOC_ID field of page `pageId` (`update_notion_doc_id`). */
  type WriteBack = (string, Value)

  /** `int(existing_doc_id.split('-')[1])` on whatever value the DOC_ID property
      held; a non-text value has no `split`, and that error is swallowed too. */
  function Ordinal(v: Value): Option<int> {
    match v
    case Str(s) => DocOrdinal(s)
    case _ => None
  }

  /** The effect of one page's decision: the new store, the write-backs issued
      and the ordinals minted (for the proofs). */
  datatype StepResult = StepResult(store: Store, writes: seq<WriteBack>, minted: seq<nat>)

  /** Reconciles one page id against the store, given the DOC_ID value read
      from the page. */
  function Step(st: Store, pageId: string, existing: Option<Value>): StepResult
  {
    if pageId !in st.mapping && !Truthy(existing) then
      var c := st.counter + 1;
      var id := Str(GenerateDocId(c));
      StepResult(Store(c, st.mapping[pageId := id]), [(pageId, id)], [c])
    else if Truthy(existing) && pageId !in st.mapping then
      var n := Ordinal(existing.value);
      var c := if n.Some? && n.value > st.counter then n.value else st.counter;
      StepResult(Store(c, st.mapping[pageId := existing.value]), [], [])
    else if pageId in st.mapping && !Truthy(existing) then
      StepResult(st, [(pageId, st.mapping[pageId])], [])
    else
      StepResult(st, [], [])
  }

  /** The decision table of one page: what each of the four cases does to
      the counter, the map and the remote field. */
  lemma StepEffects(st: Store, pageId: string, existing: Option<Value>)
    ensures var r := Step(st, pageId, existing);
      // the page always ends up mapped, and no other entry is touched
      && r.store.mapping.Keys == st.mapping.Keys + {pageId}
      && (forall k :: k in st.mapping ==> r.store.mapping[k] == st.mapping[k])
      && r.store.counter >= st.counter
      // a write-back is issued exactly when the remote field is empty, and it carries the local id
      && r.writes == (if Truthy(existing) then [] else [(pageId, r.store.mapping[pageId])])
      // mint: the counter rises by one and the new id is formatted from it
      && (pageId !in st.mapping && !Truthy(existing) ==>
            r.store.counter == st.counter + 1 && r.minted == [st.counter + 1] &&
            r.store.mapping[pageId] == Str(GenerateDocId(st.counter + 1)))
      && (r.minted != [] ==> pageId !in st.mapping && !Truthy(existing))
      // adopt: the remote value is taken, the counter catches up with its ordinal
      && (pageId !in st.mapping && Truthy(existing) ==>
            r.store.mapping[pageId] == existing.value &&
            r.store.counter == (match Ordinal(existing.value)
                                case Some(n) => if n > st.counter then n else st.counter
                                case None => st.counter))
      // local entry present: the store is unchanged whatever the remote says
      && (pageId in st.mapping ==> r.store == st)
  {
  }

  const Unassigned: Value := Str("UNASSIGNED")

  /** `title = extract(...) or 'Untitled'`. */
  function TitleOf(props: Properties): Value {
    var v := ExtractPropertyValue(Lookup(props, "TITLE"));
    if Truthy(v) then v.value else Str("Untitled")
  }

  /** `publish = extract(...) or False`. */
  function PublishOf(props: Properties): Value {
    var v := ExtractPropertyValue(Lookup(props, "PUBLISH"));
    if Truthy(v) then v.value else Bool(false)
  }

  /** `existing_doc_id`. */
  function RemoteDocId(props: Properties): Option<Value> {
    ExtractPropertyValue(Lookup(props, "DOC_ID"))
  }

  predicate IsPublished(r: Record) {
    Truthy(Some(r.publish))
  }

  /** Everything `process_pages` produces for a batch. */
  datatype Outcome = Outcome(store: Store, writes: seq<WriteBack>, processed: seq<Record>,
                             minted: seq<nat>)

  /** One iteration of the loop: a page without an id is skipped; any other
      page is reconciled and yields one record. */
  function PageStep(st: Store, page: Page): Outcome {
    match page.id
    case None => Outcome(st, [], [], [])
    case Some(pid) =>
      var r := Step(st, pid, RemoteDocId(page.properties));
      var m := r.store.mapping;
      var docId := if pid in m then m[pid] else Unassigned;
      var rec := Record(pid, docId, TitleOf(page.properties), PublishOf(page.properties),
                        RecordProperties(page.properties));
      Outcome(r.store, r.writes, [rec], r.minted)
  }

  /** What a batch produced, followed by one more page. */
  function Extend(o: Outcome, page: Page): Outcome {
    var last := PageStep(o.store, page);
    Outcome(last.store, o.writes + last.writes, o.processed + last.processed, o.minted + last.minted)
  }

  /** The whole batch: the pages before the last one, then the last one. */
  function Reconcile(st: Store, pages: seq<Page>): Outcome
    decreases |pages|
  {
    if pages == [] then Outcome(st, [], [], [])
    else Extend(Reconcile(st, pages[..|pages| - 1]), pages[|pages| - 1])
  }

  /** `published_docs`: the processed records whose `publish` is truthy, in order. */
  function Published(rs: seq<Record>): seq<Record> {
    if rs == [] then []
    else
      var init := Published(rs[..|rs| - 1]);
      var last := rs[|rs| - 1];
      if IsPublished(last) then init + [last] else init
  }

  /** The published list holds exactly the published records. */
  lemma {:induction false} PublishedFacts(rs: seq<Record>)
    ensures |Published(rs)| <= |rs|
    ensures forall x :: x in Published(rs) <==> x in rs && IsPublished(x)
  {
    if rs != [] {
      PublishedFacts(rs[..|rs| - 1]);
      assert forall x :: x in rs <==> x in rs[..|rs| - 1] || x == rs[|rs| - 1];
    }
  }

  /** The page ids of the pages that have one, in order. */
  function PageIds(pages: seq<Page>): seq<string> {
    if pages == [] then []
    else
      var last := pages[|pages| - 1];
      PageIds(pages[..|pages| - 1]) + (if last.id.Some? then [last.id.value] else [])
  }

  /** The record `process_pages` builds for each page with an id, given the
      map its `doc_id` is read from. */
  function Records(m: map<string, Value>, pages: seq<Page>): seq<Record> {
    if pages == [] then []
    else
      var last := pages[|pages| - 1];
      Records(m, pages[..|pages| - 1]) +
        match last.id
        case None => []
        case Some(pid) =>
          [Record(pid, if pid in m then m[pid] else Unassigned, TitleOf(last.properties),
                  PublishOf(last.properties), RecordProperties(last.properties))]
  }

  /** One record per page id, in page order, reading its `doc_id` from `m`. */
  lemma {:induction false} RecordsFacts(m: map<string, Value>, pages: seq<Page>)
    ensures |Records(m, pages)| == |PageIds(pages)|
    ensures forall j :: 0 <= j < |PageIds(pages)| ==>
              var pid := PageIds(pages)[j];
              Records(m, pages)[j].pageId == pid
              && Records(m, pages)[j].docId == if pid in m then m[pid] else Unassigned
  {
    if pages != [] {
      RecordsFacts(m, pages[..|pages| - 1]);
    }
  }

  /** Records only depend on the map entries of the batch's own pages. */
  lemma {:induction false} RecordsAgree(m1: map<string, Value>, m2: map<string, Value>, pages: seq<Page>)
    requires forall pid :: pid in PageIds(pages) ==> pid in m1 && pid in m2 && m1[pid] == m2[pid]
    ensures Records(m1, pages) == Records(m2, pages)
  {
    if pages != [] {
      var init := pages[..|pages| - 1];
      assert forall pid :: pid in PageIds(init) ==> pid in PageIds(pages);
      RecordsAgree(m1, m2, init);
    }
  }

  /** Over a batch the counter never decreases, no existing entry is changed
      or removed, and exactly the batch's page ids are added. */
  lemma {:induction false} ReconcileGrows(st: Store, pages: seq<Page>)
    ensures var o := Reconcile(st, pages);
            && o.store.counter >= st.counter
            && (forall k :: k in st.mapping ==> k in o.store.mapping && o.store.mapping[k] == st.mapping[k])
            && (forall k :: k in o.store.mapping <==> k in st.mapping || k in PageIds(pages))
  {
    if pages != [] {
      var init := pages[..|pages| - 1];
      var last := pages[|pages| - 1];
      var mid := Reconcile(st, init).store;
      ReconcileGrows(st, init);
      if last.id.Some? {
        StepEffects(mid, last.id.value, RemoteDocId(last.properties));
      }
    }
  }

  /** Every processed record carries the `doc_id` the page has in the map
      saved at the end of the batch. */
  lemma {:induction false} ReconcileRecords(st: Store, pages: seq<Page>)
    ensures var o := Reconcile(st, pages);
            o.processed == Records(o.store.mapping, pages)
  {
    if pages != [] {
      var init := pages[..|pages| - 1];
      var last := pages[|pages| - 1];
      var mid := Reconcile(st, init).store;
      var o := Reconcile(st, pages);
      ReconcileRecords(st, init);
      ReconcileGrows(st, init);
      if last.id.Some? {
        StepEffects(mid, last.id.value, RemoteDocId(last.properties));
      }
      RecordsAgree(mid.mapping, o.store.mapping, init);
    }
  }

  /** A batch whose pages are all mapped already changes neither counter nor
      map and mints nothing. */
  lemma {:induction false} ReconcileMappedUnchanged(st: Store, pages: seq<Page>)
    requires forall pid :: pid in PageIds(pages) ==> pid in st.mapping
    ensures Reconcile(st, pages).store == st && Reconcile(st, pages).minted == []
  {
    if pages != [] {
      var init := pages[..|pages| - 1];
      var last := pages[|pages| - 1];
      assert forall pid :: pid in PageIds(init) ==> pid in PageIds(pages);
      ReconcileMappedUnchanged(st, init);
      if last.id.Some? {
        StepEffects(st, last.id.value, RemoteDocId(last.properties));
      }
    }
  }

  /** Re-running on the same pages with the saved counter and map leaves
      both unchanged, mints nothing and reports the same records. */
  lemma ReconcileIdempotent(st: Store, pages: seq<Page>)
    ensures var o1 := Reconcile(st, pages);
            var o2 := Reconcile(o1.store, pages);
            o2.store == o1.store && o2.minted == [] && o2.processed == o1.processed
  {
    var o1 := Reconcile(st, pages);
    ReconcileGrows(st, pages);
    ReconcileMappedUnchanged(o1.store, pages);
    ReconcileRecords(st, pages);
    ReconcileRecords(o1.store, pages);
  }

  /** The ordinals minted in a batch are strictly increasing and lie above
      the counter the batch started from and up to the one it ends with. */
  lemma {:induction false} ReconcileMintedOrdinals(st: Store, pages: seq<Page>)
    ensures var o := Reconcile(st, pages);
            && (forall j :: 0 <= j < |o.minted| ==> st.counter < o.minted[j] <= o.store.counter)
            && (forall j, k :: 0 <= j < k < |o.minted| ==> o.minted[j] < o.minted[k])
  {
    if pages != [] {
      var init := pages[..|pages| - 1];
      var last := pages[|pages| - 1];
      var o0 := Reconcile(st, init);
      var step := PageStep(o0.store, last);
      ReconcileMintedOrdinals(st, init);
      ReconcileGrows(st, init);
      assert Reconcile(st, pages) == Extend(o0, last);
      assert step.store.counter >= o0.store.counter
             && (step.minted == [] || (step.minted == [o0.store.counter + 1] && step.store.counter == o0.store.counter + 1)) by {
        if last.id.Some? {
          StepEffects(o0.store, last.id.value, RemoteDocId(last.properties));
        }
      }
      IncreasingAppend(st.counter, o0.store.counter, step.store.counter, o0.minted, step.minted);
    }
  }

  /** Appending the next ordinal keeps a run of ordinals increasing and
      within its bounds. */
  lemma IncreasingAppend(lo: int, mid: int, hi: int, xs: seq<nat>, ys: seq<nat>)
    requires forall j :: 0 <= j < |xs| ==> lo < xs[j] <= mid
    requires forall j, k :: 0 <= j < k < |xs| ==> xs[j] < xs[k]
    requires lo <= mid <= hi
    requires ys == [] || (ys == [mid + 1] && hi == mid + 1)
    ensures forall j :: 0 <= j < |xs + ys| ==> lo < (xs + ys)[j] <= hi
    ensures forall j, k :: 0 <= j < k < |xs + ys| ==> (xs + ys)[j] < (xs + ys)[k]
  {
    if ys == [] {
      assert xs + ys == xs;
    } else {
      var zs := xs + ys;
      forall j | 0 <= j < |zs| ensures lo < zs[j] <= hi {
        if j < |xs| {
          assert zs[j] == xs[j];
        }
      }
      forall j, k | 0 <= j < k < |zs| ensures zs[j] < zs[k] {
        assert zs[j] == xs[j];
        if k < |xs| {
          assert zs[k] == xs[k];
        }
      }
    }
  }

  /** Ids minted in one batch are pairwise distinct. */
  lemma ReconcileMintedDistinct(st: Store, pages: seq<Page>)
    ensures var o := Reconcile(st, pages);
            forall j, k :: 0 <= j < k < |o.minted| ==> GenerateDocId(o.minted[j]) != GenerateDocId(o.minted[k])
  {
    var o := Reconcile(st, pages);
    ReconcileMintedOrdinals(st, pages);
    forall j, k | 0 <= j < k < |o.minted|
      ensures GenerateDocId(o.minted[j]) != GenerateDocId(o.minted[k])
    {
      if GenerateDocId(o.minted[j]) == GenerateDocId(o.minted[k]) {
        GenerateDocIdInjective(o.minted[j], o.minted[k]);
      }
    }
  }

  /** No two pages share a document id. */
  predicate Injective(m: map<string, Value>) {
    forall k1, k2 :: k1 in m && k2 in m && k1 != k2 ==> m[k1] != m[k2]
  }

  /** An id whose ordinal parses is at most `c`. */
  predicate OrdinalAtMost(v: Value, c: nat) {
    Ordinal(v).Some? ==> Ordinal(v).value <= c
  }

  /** The counter is at least the ordinal of every id in the map, so the
      next minted id is new. */
  predicate Covers(st: Store) {
    forall k :: k in st.mapping ==> OrdinalAtMost(st.mapping[k], st.counter)
  }

  /** One page keeps the counter above every mapped ordinal; in particular
      an adopted remote id's ordinal is at most the new counter. */
  lemma StepKeepsCovers(st: Store, pageId: string, existing: Option<Value>)
    requires Covers(st)
    ensures Covers(Step(st, pageId, existing).store)
  {
    var r := Step(st, pageId, existing);
    StepEffects(st, pageId, existing);
    if pageId !in st.mapping && !Truthy(existing) {
      DocOrdinalOfGenerated(st.counter + 1);
    }
    forall k | k in r.store.mapping ensures OrdinalAtMost(r.store.mapping[k], r.store.counter) {
      if k in st.mapping {
        assert OrdinalAtMost(st.mapping[k], st.counter);
      }
    }
  }

  /** Over a whole batch the counter stays above every mapped ordinal, the
      adopted remote ids included. */
  lemma {:induction false} ReconcileKeepsCovers(st: Store, pages: seq<Page>)
    requires Covers(st)
    ensures Covers(Reconcile(st, pages).store)
  {
    if pages != [] {
      var init := pages[..|pages| - 1];
      var last := pages[|pages| - 1];
      ReconcileKeepsCovers(st, init);
      if last.id.Some? {
        StepKeepsCovers(Reconcile(st, init).store, last.id.value, RemoteDocId(last.properties));
      }
    }
  }

  /** A minted id is new: no page is mapped to it yet. */
  lemma StepMintFresh(st: Store, pageId: string, existing: Option<Value>)
    requires Covers(st)
    requires pageId !in st.mapping && !Truthy(existing)
    ensures Step(st, pageId, existing).store.mapping[pageId] !in st.mapping.Values
  {
    DocOrdinalOfGenerated(st.counter + 1);
    forall k | k in st.mapping ensures st.mapping[k] != Str(GenerateDocId(st.counter + 1)) {
      assert OrdinalAtMost(st.mapping[k], st.counter);
    }
  }

  /** A batch in which no page adopts a remote id keeps distinct pages on
      distinct document ids. */
  lemma {:induction false} ReconcileKeepsInjective(st: Store, pages: seq<Page>)
    requires Covers(st) && Injective(st.mapping)
    requires forall i :: (0 <= i < |pages| && pages[i].id.Some? && Truthy(RemoteDocId(pages[i].properties)))
                           ==> pages[i].id.value in st.mapping
    ensures Injective(Reconcile(st, pages).store.mapping)
  {
    if pages != [] {
      var init := pages[..|pages| - 1];
      var last := pages[|pages| - 1];
      ReconcileKeepsInjective(st, init);
      var mid := Reconcile(st, init).store;
      ReconcileKeepsCovers(st, init);
      ReconcileGrows(st, init);
      if last.id.Some? {
        var pid := last.id.value;
        var existing := RemoteDocId(last.properties);
        StepEffects(mid, pid, existing);
        if pid !in mid.mapping && !Truthy(existing) {
          StepMintFresh(mid, pid, existing);
        }
      }
    }
  }

  /** Adopting a remote id that another page already has gives two pages
      the same document id. */
  lemma AdoptMayDuplicate()
    ensures var id := Str(GenerateDocId(1));
            !Injective(Step(Store(1, map["a" := id]), "b", Some(id)).store.mapping)
  {
    var id := Str(GenerateDocId(1));
    GenerateDocIdShape(1);
    assert Truthy(Some(id));
    var m := Step(Store(1, map["a" := id]), "b", Some(id)).store.mapping;
    assert m == map["a" := id, "b" := id];
    assert "a" != "b" && m["a"] == m["b"];
  }

  /** The counter only follows a remote id when the page is adopted: a page
      already mapped locally leaves it below the remote id's ordinal. */
  lemma MappedRemoteOrdinalIgnored()
    ensures var remote := Str(GenerateDocId(99));
            var r := Step(Store(1, map["a" := Str(GenerateDocId(1))]), "a", Some(remote));
            Ordinal(remote) == Some(99) && r.store.counter == 1
  {
    DocOrdinalOfGenerated(99);
  }

  lemma ReconcileSnoc(st: Store, pages: seq<Page>, i: nat)
    requires i < |pages|
    ensures Reconcile(st, pages[..i + 1]) == Extend(Reconcile(st, pages[..i]), pages[i])
  {
    assert pages[..i + 1][..i] == pages[..i];
  }

  lemma PublishedAppend(rs: seq<Record>, added: seq<Record>)
    requires |added| <= 1
    ensures Published(rs + added)
              == if added != [] && IsPublished(added[0]) then Published(rs) + added else Published(rs)
  {
    if added == [] {
      assert rs + added == rs;
    } else {
      assert (rs + added)[..|rs|] == rs;
    }
  }

  /** The sync state of the module: the two persisted files, plus the log of
      DOC_ID write-backs sent to the remote workspace. */
  class NotionSync {
    var counter: nat
    var mapping: map<string, Value>
    var remoteWrites: seq<WriteBack>

    /** The store as `load_counter` and `load_doc_mapping` read it. */
    constructor (counter: nat, mapping: map<string, Value>)
      ensures this.counter == counter && this.mapping == mapping && remoteWrites == []
    {
      this.counter := counter;
      this.mapping := mapping;
      remoteWrites := [];
    }

    /** The body of the loop of `process_pages` for one page: the cascade,
        then the record built from the page. */
    method ProcessPage(page: Page) returns (record: Option<Record>)
      modifies this
      ensures var o := PageStep(Store(old(counter), old(mapping)), page);
              && counter == o.store.counter && mapping == o.store.mapping
              && remoteWrites == old(remoteWrites) + o.writes
              && (if record.Some? then [record.value] else []) == o.processed
    {
      if page.id.None? {
        return None;
      }
      var pageId := page.id.value;
      var props := page.properties;
      var title := TitleOf(props);
      var publish := PublishOf(props);
      var existing := RemoteDocId(props);
      if pageId !in mapping && !Truthy(existing) {
        var c := counter + 1;
        var docId := Str(GenerateDocId(c));
        counter := c;
        mapping := mapping[pageId := docId];
        remoteWrites := remoteWrites + [(pageId, docId)];
      } else if Truthy(existing) && pageId !in mapping {
        mapping := mapping[pageId := existing.value];
        var n := Ordinal(existing.value);
        if n.Some? && n.value > counter {
          counter := n.value;
        }
      } else if pageId in mapping && !Truthy(existing) {
        remoteWrites := remoteWrites + [(pageId, mapping[pageId])];
      }
      var docId := if pageId in mapping then mapping[pageId] else Unassigned;
      record := Some(Record(pageId, docId, title, publish, RecordProperties(props)));
    }

    /** `process_pages`: every page in turn, collecting the processed and the
        published records; counter and map are saved after the loop. */
    method ProcessPages(pages: seq<Page>) returns (processed: seq<Record>, published: seq<Record>)
      modifies this
      ensures var o := Reconcile(Store(old(counter), old(mapping)), pages);
              && counter == o.store.counter && mapping == o.store.mapping
              && remoteWrites == old(remoteWrites) + o.writes
              && processed == o.processed
      ensures published == Published(processed)
    {
      processed, published := [], [];
      ghost var st0 := Store(counter, mapping);
      ghost var out := Outcome(st0, [], [], []);
      var i := 0;
      while i < |pages|
        invariant 0 <= i <= |pages|
        invariant out == Reconcile(st0, pages[..i])
        invariant counter == out.store.counter && mapping == out.store.mapping
        invariant remoteWrites == old(remoteWrites) + out.writes
        invariant processed == out.processed
        invariant published == Published(processed)
      {
        assert Store(counter, mapping) == out.store;
        ReconcileSnoc(st0, pages, i);
        ghost var step := PageStep(out.store, pages[i]);
        var record := ProcessPage(pages[i]);
        AppendAssoc(old(remoteWrites), out.writes, step.writes);
        var added := if record.Some? then [record.value] else [];
        assert added == step.processed;
        PublishedAppend(processed, added);
        processed := processed + added;
        if record.Some? && IsPublished(record.value) {
          published := published + [record.value];
        }
        out := Extend(out, pages[i]);
        i := i + 1;
      }
      assert pages[..i] == pages;
    }
  }
}
