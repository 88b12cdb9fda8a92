# INTRA-HUB document pipeline — a Dafny model

INTRA-HUB publishes pages from a Notion database as a static intranet site.
This project models the two parts of it that carry real logic:

- **The identity reconciler of the sync step** (`sync/notion_sync.py`).
  `process_pages` walks every fetched page and keeps three things consistent:
  - the local document counter;
  - the local map from page id to public document id `DOC-NNNN`;
  - the page's remote `DOC_ID` field.

  It also builds the processed record list and the published record list.
  The model is the class `Reconciler.NotionSync`. Its loop is proved against
  the pure function `Reconciler.Reconcile`. The helpers `generate_doc_id`
  (module `DocIds`, with Python's `int()` parse of the ordinal) and
  `extract_property_value` (module `NotionProperties`) are pure functions.
- **The HTML renderer** (`renderer/html_renderer.py`):
  - the metrics dictionary (`Metrics.MetricsManager`);
  - the list-grouping pass over content blocks (`BlockGrouping`);
  - the property table (`PropertyTable`);
  - the chained placeholder substitution that assembles a document page (`PageAssembly`);
  - the homepage sort and pagination (`Homepage`);
  - the navigation bar (`Pagination`);
  - the search index entries (`SearchIndex`);
  - the selection of revoked pages to delete (`Cleanup`).

  The backup copy `renderer.BEFORE_FINAL_FIXED_20260214-052140/html_renderer.py`
  has the same logic and differs only in paths and CSS text. Lines 1-270 are
  numbered alike in both copies. After that, the backup holds:

  | function | main copy | backup copy |
  |---|---|---|
  | `generate_homepage` | 627-660 | 821-854 |
  | `_build_pagination` | 750-772 | 944-966 |
  | `generate_search_index` | 945-972 | 1310-1337 |
  | `cleanup_revoked_documents` | 974-994 | 1339-1359 |

  One model covers both copies.

Shared modules:

- `Wrappers`: the `Option` type.
- `Text`: Python's `str()` of integers, `join`, `startswith` and `endswith`.
- `StringOrder`: Python's ordering of `str`.
- `Manifest`: the published-documents manifest the renderer reads.

Side effects become values:

- A write of a document id back to Notion is an entry appended to the log
  `NotionSync.remoteWrites`.
- Files the renderer writes are returned as values: `HomepageFile` records,
  the search entries, and the list of deleted file names.
- The saved metrics file is the field `MetricsManager.saved`.

## Model

| member | source | states |
|---|---|---|
| Text.NatToDecimal | sync/notion_sync.py:69 | The decimal text of `n` has only digits, no leading zero unless it is `0`, and denotes `n`. |
| Text.IntToString | renderer/html_renderer.py:264-266 | `str(i)` denotes `i`: digits with no leading zero for `i >= 0`, and `-` then the digits of `-i`, again with no leading zero, otherwise. |
| Text.DecimalCanonical | renderer/html_renderer.py:264-266 | A digit string without a leading zero is the decimal text of the number it denotes, so `str(i)` is the one canonical text of `i`. |
| Text.DecimalInjective | sync/notion_sync.py:69 | Different numbers have different decimal texts. |
| Text.JoinAppend | renderer/html_renderer.py:168 | Joining one more part appends the separator and that part to the previous join. |
| Text.JoinLength | renderer/html_renderer.py:168 | The joined length is the parts' lengths plus one separator between each pair of neighbours. |
| Text.ConcatAppend | renderer/html_renderer.py:146 | `''.join` of two lists put together is the join of the first followed by the join of the second. |
| DocIds.ZeroPad | sync/notion_sync.py:69 | `:04d` padding keeps the value and gives at least four digits. |
| DocIds.GenerateDocIdShape | sync/notion_sync.py:67-69 | A generated id is `DOC-` followed by digits that denote the counter: exactly four when the counter has at most four digits, and exactly the counter's own digits otherwise. |
| DocIds.GenerateDocIdFirst | sync/notion_sync.py:67-69 | Counter 1 gives `DOC-0001`. |
| DocIds.GenerateDocIdWide | sync/notion_sync.py:67-69 | Counter 12345 gives `DOC-12345`, not truncated. |
| DocIds.GenerateDocIdInjective | sync/notion_sync.py:67-69 | Different counters give different ids. |
| DocIds.FirstIndexFacts | sync/notion_sync.py:185 | The search for the first dash finds nothing exactly when there is no dash. Otherwise it finds a dash with no dash before it. |
| DocIds.SecondFieldFacts | sync/notion_sync.py:185 | `split('-')[1]` exists exactly when the text has a dash. It holds no dash. It is the text after the first dash, up to the next dash or the end. |
| DocIds.StripLeftFacts | sync/notion_sync.py:185 | `int()` strips only a run of leading whitespace (space, tab to carriage return, and the Unicode spaces `str.isspace` accepts, but not the separators 0x1C-0x1F), and the result starts with a non-space. |
| DocIds.StripRightFacts | sync/notion_sync.py:185 | `int()` strips only a run of trailing whitespace (the same set), and the result ends with a non-space. |
| DocIds.RemoveUnderscores | sync/notion_sync.py:185 | Dropping the underscores `int()` allows between digits leaves only digits, and no more of them than the text had. |
| DocIds.RemoveUnderscoresFacts | sync/notion_sync.py:185 | The underscores are dropped piece by piece: a digit is kept, an underscore is dropped, and a concatenation is handled part by part, so the digits stay in order. |
| DocIds.PythonIntAsciiSpace | sync/notion_sync.py:185 | `int(' 42\n')` is 42. |
| DocIds.PythonIntUnicodeSpace | sync/notion_sync.py:185 | A leading no-break space is stripped: `int('\xa05')` is 5. |
| DocIds.PythonIntUnderscore | sync/notion_sync.py:185 | `int('-0_07')` is -7. |
| DocIds.PythonIntRejects | sync/notion_sync.py:185 | `int()` raises on a leading 0x1C separator, on a double underscore and on a lone sign. |
| DocIds.PythonIntOfDigits | sync/notion_sync.py:185 | `int()` of a plain digit string is the number it denotes. |
| DocIds.DocOrdinalOfGenerated | sync/notion_sync.py:185 | `int(generate_doc_id(n).split('-')[1]) == n`: parsing the ordinal undoes the formatting. |
| NotionProperties.ExtractPropertyValue | sync/notion_sync.py:71-104 | Unknown types give `None`. A checkbox always gives a boolean, `False` when unset, and only a checkbox does. Only a set number gives a number. An empty title or rich text gives `None`. An empty `multi_select` or `people` list gives `None`, and a single name is returned as it is. A non-empty title or rich text gives the concatenation of its pieces, and a non-empty `multi_select` or `people` list the names joined by `, `. A `select`, `date`, `email`, `phone_number` or `url` gives a value exactly when the field is set, and then the stored text. |
| NotionProperties.NamesAppend | sync/notion_sync.py:84-96 | One more `multi_select` or `people` name appends `, ` and that name to the previous text. |
| NotionProperties.LookupFacts | sync/notion_sync.py:162-169 | `props.get(name, {})` finds the first property of that name. A missing name reads as a property without a type. |
| NotionProperties.RecordPropertiesFacts | sync/notion_sync.py:207-212 | A record's extra properties are exactly the properties outside `TITLE`/`PUBLISH`/`DOC_ID` whose value is not `None`. |
| Reconciler.StepEffects | sync/notion_sync.py:172-193 | The four-way cascade, case by case. **Mint:** the counter rises by one, the id is `generate_doc_id(counter)`, and one write-back is issued. **Adopt:** the remote value is taken, and the counter becomes the larger of itself and the parsed ordinal (unchanged when the parse fails). **Push:** the local id is written back. **Both present:** nothing changes. In every case the page ends up mapped, no other entry changes and the counter never falls. |
| Reconciler.PublishedFacts | sync/notion_sync.py:216-217 | The published list holds exactly the processed records whose `publish` is truthy. |
| Reconciler.RecordsFacts | sync/notion_sync.py:193-214 | One record per page that has an id, in page order. Each record carries `mapping.get(page_id, 'UNASSIGNED')`, its title, its publish flag and its extra properties. |
| Reconciler.ReconcileGrows | sync/notion_sync.py:153-193 | Over a batch the counter never decreases. No existing mapping entry is changed or removed. Exactly the batch's page ids are added. |
| Reconciler.ReconcileRecords | sync/notion_sync.py:193-214 | Every processed record carries the doc id its page has in the mapping saved at the end of the batch. |
| Reconciler.ReconcileMappedUnchanged | sync/notion_sync.py:189-193 | A batch whose pages are all mapped already changes neither the counter nor the mapping, and mints nothing. |
| Reconciler.ReconcileIdempotent | sync/notion_sync.py:153-225 | Re-running the batch on the saved counter and mapping leaves both unchanged, mints nothing and reports the same records. |
| Reconciler.ReconcileMintedOrdinals | sync/notion_sync.py:172-179 | Ordinals minted in one batch are strictly increasing. They lie above the starting counter and at most at the final one. |
| Reconciler.ReconcileMintedDistinct | sync/notion_sync.py:172-179 | Ids minted in one batch are pairwise distinct. |
| Reconciler.StepKeepsCovers | sync/notion_sync.py:172-188 | If the counter is at least every mapped id's ordinal, that still holds after any one page. |
| Reconciler.ReconcileKeepsCovers | sync/notion_sync.py:153-193 | The same holds over a whole batch. |
| Reconciler.StepMintFresh | sync/notion_sync.py:172-176 | When the counter is at least every mapped ordinal, a minted id is new: no page is mapped to it yet. |
| Reconciler.ReconcileKeepsInjective | sync/notion_sync.py:172-193 | In a batch where no page adopts a remote id, distinct pages keep distinct document ids. |
| Reconciler.AdoptMayDuplicate | sync/notion_sync.py:180-182 | Adopting a remote id that another page already holds maps two pages to the same id. |
| Reconciler.MappedRemoteOrdinalIgnored | sync/notion_sync.py:189-193 | For a page already mapped locally, the counter does not follow the remote id's ordinal. |
| Reconciler.NotionSync.constructor | sync/notion_sync.py:153-154 | The counter and mapping as loaded, with no write-backs yet. |
| Reconciler.NotionSync.ProcessPage | sync/notion_sync.py:159-221 | One loop iteration. The new counter, mapping, write-backs and record are exactly those of the cascade for that page. A page without an id is skipped. |
| Reconciler.NotionSync.ProcessPages | sync/notion_sync.py:151-225 | After the loop, the counter and mapping are those of `Reconcile`. The write-back log grows by its writes. The processed list is its records, and the published list is their truthy-`publish` subsequence. |
| Metrics.WithDocumentFacts | renderer/html_renderer.py:41-46 | `get_metrics` adds the zero counters only for a missing document and leaves every existing entry as it is. |
| Metrics.IncrementedFacts | renderer/html_renderer.py:48-52 | `increment` adds one to a single counter of a single document. A missing counter counts as 0. No other counter and no other document changes. |
| Metrics.IncrementNewDocument | renderer/html_renderer.py:48-52 | The first `views` increment of a new document gives `{views: 1, downloads: 0, shares: 0}`. |
| Metrics.MetricsManager.constructor | renderer/html_renderer.py:24-34 | The table is the stored file when it exists, and empty otherwise. |
| Metrics.MetricsManager.Save | renderer/html_renderer.py:36-39 | The saved file becomes the table in memory. |
| Metrics.MetricsManager.GetMetrics | renderer/html_renderer.py:41-46 | The new table is `WithDocument` of the old one, and the result is the document's counters. The file is saved only when the document was missing. |
| Metrics.MetricsManager.Increment | renderer/html_renderer.py:48-52 | The new table is `Incremented` of the old one, and the file is saved. |
| BlockGrouping.GroupsFlatten | renderer/html_renderer.py:137-166 | Every block lands in exactly one group, in input order, and the open group is flushed at the end. |
| BlockGrouping.GroupsWellGrouped | renderer/html_renderer.py:140-161 | Each list group is non-empty and holds items of its own kind only. Two neighbouring groups are never lists of the same kind. |
| BlockGrouping.GroupsFacts | renderer/html_renderer.py:130-168 | The two facts above together. |
| BlockGrouping.GroupsUnique | renderer/html_renderer.py:137-166 | The grouping is the only well-grouped segmentation of its blocks, so each maximal same-kind run is wrapped exactly once. |
| BlockGrouping.GroupsRun | renderer/html_renderer.py:140-152 | A run of same-kind items after a boundary becomes a single list. |
| BlockGrouping.GroupsBulletsAroundParagraph | renderer/html_renderer.py:137-161 | Bulleted, bulleted, paragraph, bulleted gives a list of two, the paragraph, and a list of one. |
| BlockGrouping.GroupsKindSwitch | renderer/html_renderer.py:143-149 | A bulleted item followed by a numbered one gives two separate lists. |
| BlockGrouping.RenderBlocks | renderer/html_renderer.py:130-168 | The one-pass loop returns the groups' parts joined by newlines, so an empty input gives `""`. |
| PropertyTable.ShownFacts | renderer/html_renderer.py:176-178 | The shown entries are exactly those whose value is neither `None` nor `""`. |
| PropertyTable.ShownAppend | renderer/html_renderer.py:176-178 | Rows keep the dictionary order. |
| PropertyTable.PropertyTableEmpty | renderer/html_renderer.py:172-181 | The result is `""` exactly when no entry has a displayable value. This includes an empty dictionary. |
| PropertyTable.BuildPropertyTable | renderer/html_renderer.py:170-190 | The loop builds the header, the rows in order and the footer, or `""` when there are no rows. |
| PageAssembly.MarkerInjective | renderer/html_renderer.py:205-255 | The ten placeholders of the template are pairwise distinct. |
| PageAssembly.MarkerPrefix | renderer/html_renderer.py:205-255 | A placeholder that starts another placeholder is that placeholder. |
| PageAssembly.FirstMatch | renderer/html_renderer.py:257-268 | The rule found is the first one whose pattern starts the text. None is found only when no pattern does. |
| PageAssembly.ChainPosition | renderer/html_renderer.py:257-268 | Every placeholder is replaced exactly once in the chain. |
| PageAssembly.ReplaceStep | renderer/html_renderer.py:258 | One `str.replace` call replaces every occurrence of its placeholder, and it leaves the other placeholders and the values inserted earlier alone. |
| PageAssembly.ChainPartial | renderer/html_renderer.py:257-268 | The rest of the chain completes a partly filled template. |
| PageAssembly.ChainMatchesFill | renderer/html_renderer.py:257-268 | For a template whose literal text holds no `@@` and values without `@@`, the chain fills every occurrence of every placeholder. This includes both `@@TITLE@@`. |
| PageAssembly.ChainFirstTwo | renderer/html_renderer.py:258-259 | The chain begins with the title and then the style sheet. |
| PageAssembly.ChainRewritesInsertedMarker | renderer/html_renderer.py:257-268 | The chain is not single-pass. A title that reads `@@CSS@@` is replaced in turn by the style sheet, so the page differs from the filled template. |
| PageAssembly.SubstConcat | renderer/html_renderer.py:257-268 | A one-pass scan of two texts with a clean boundary is the scans of each, put together. |
| PageAssembly.SinglePassMarker | renderer/html_renderer.py:257-268 | In a one-pass substitution each placeholder becomes its own value. |
| PageAssembly.SinglePassFills | renderer/html_renderer.py:257-268 | One-pass substitution fills every well-formed template correctly, whatever the values contain. |
| StringOrder.LessIrreflexive | renderer/html_renderer.py:640 | Python's `str` order is irreflexive. |
| StringOrder.LessTransitive | renderer/html_renderer.py:640 | Python's `str` order is transitive. |
| StringOrder.LessTotal | renderer/html_renderer.py:640 | Python's `str` order is total on different strings. |
| StringOrder.LexicographicNotNumeric | renderer/html_renderer.py:640 | `DOC-10000` sorts below `DOC-9999`. |
| Manifest.PropertyValue | renderer/html_renderer.py:962-964 | `dict.get` finds a value exactly when the name is present, and the value is the one stored under it. |
| Homepage.SortSorted | renderer/html_renderer.py:640 | The sorted manifest is non-increasing by document id. |
| Homepage.SortPermutation | renderer/html_renderer.py:640 | The sort is a permutation of the manifest. |
| Homepage.SortStable | renderer/html_renderer.py:640 | Entries sharing an id keep their manifest order. `reverse=True` is stable in Python. |
| Homepage.SortFacts | renderer.BEFORE_FINAL_FIXED_20260214-052140/html_renderer.py:834 | The three sort facts together. |
| Homepage.InsertSorted | renderer/html_renderer.py:640 | Inserting one entry keeps the list sorted. |
| Homepage.PagesPrefix | renderer/html_renderer.py:645-649 | The first `m` pages, read in order, are the first `min(10m, n)` entries. |
| Homepage.PagesPartition | renderer/html_renderer.py:642-649 | `ceil(n/10)` pages partition the sorted list. Every page holds 1 to 10 entries, and all pages but the last hold 10. |
| Homepage.TwentyThreeDocs | renderer/html_renderer.py:642-649 | 23 entries give pages of 10, 10 and 3. |
| Homepage.EmptyManifestWritesNothing | renderer/html_renderer.py:643-645 | An existing but empty manifest writes no page, not even `index.html`. |
| Homepage.PageFileNamesDistinct | renderer/html_renderer.py:652-655 | Different pages go to different files. |
| Homepage.ListedMetricsFacts | renderer/html_renderer.py:668-672 | Building the rows of a page calls `get_metrics` on each listed id: ids without counters get the zero counters, and existing counters are unchanged. |
| Homepage.HomepageMetricsFacts | renderer/html_renderer.py:627-672 | After the homepage is built, every manifest id has counters. Those it had are unchanged, and new ones are zero. Without a manifest the table is unchanged. |
| Homepage.GenerateHomepage | renderer/html_renderer.py:627-660 | The written files are `HomepageFiles`. Without a manifest this is one empty `index.html`, page 1 of 1. With one, page `k` of the sorted list goes to `index.html` or `page-k.html`. |
| Pagination.NumberPartFacts | renderer/html_renderer.py:760-765 | The numbered entries are pages 1 to `total`, in order. |
| Pagination.LinkAt | renderer/html_renderer.py:755-769 | Where each element of the bar comes from: the previous link, page `k`, or the next link. |
| Pagination.LinksShape | renderer/html_renderer.py:755-769 | The bar holds a previous link exactly when `current > 1` and a next link exactly when `current < total`. The numbers run from 1 to `total`, and the current page is a non-link span. |
| Pagination.LinkTargets | renderer/html_renderer.py:756-758 | From page 2 the previous link goes to `index.html`, and from a later page to `page-(c-1).html`. |
| Pagination.PaginationEmpty | renderer/html_renderer.py:752-753 | The bar is `""` exactly when `total <= 1`. |
| Pagination.NumberItem | renderer/html_renderer.py:761-765 | The entry the loop adds for page `i`. |
| Pagination.PrevItem | renderer/html_renderer.py:756-758 | The previous link added on a page after the first. |
| Pagination.AppendNumbers | renderer/html_renderer.py:760-765 | The loop appends the numbered entries 1 to `total`. |
| Pagination.BuildPagination | renderer.BEFORE_FINAL_FIXED_20260214-052140/html_renderer.py:944-966 | The returned HTML is `PaginationHtml(current, total)`. |
| SearchIndex.DocumentUrl | renderer.BEFORE_FINAL_FIXED_20260214-052140/html_renderer.py:1330 | The url is `/documents/`, the id, then `.html`. |
| SearchIndex.UrlRoundTrip | renderer.BEFORE_FINAL_FIXED_20260214-052140/html_renderer.py:1330 | The document id is recovered from its url. |
| SearchIndex.DocumentUrlInjective | renderer.BEFORE_FINAL_FIXED_20260214-052140/html_renderer.py:1330 | Different documents get different urls. |
| SearchIndex.PropertyDefaults | renderer.BEFORE_FINAL_FIXED_20260214-052140/html_renderer.py:1327-1329 | A missing CATEGORY/AUTHOR/TAGS, or missing `properties`, gives `""`. A present property gives its stored value. |
| SearchIndex.EntriesFacts | renderer.BEFORE_FINAL_FIXED_20260214-052140/html_renderer.py:1321-1332 | One entry per manifest entry, in manifest order, with its id, title and three properties. Each entry's url leads back to its id. |
| SearchIndex.GenerateSearchIndex | renderer.BEFORE_FINAL_FIXED_20260214-052140/html_renderer.py:1310-1337 | No file without a manifest. Otherwise the loop writes `Entries` of the manifest. |
| Cleanup.PublishedIds | renderer/html_renderer.py:978-984 | The published ids are exactly the manifest's ids, and empty without a manifest. |
| Cleanup.CleanupFacts | renderer/html_renderer.py:987-992 | Deleted are exactly the `DOC-*.html` files whose stem is not published, and kept are exactly the others. Together they make up the listing. |
| Cleanup.StemOfPage | renderer/html_renderer.py:987-989 | A page `{id}.html` with an id starting `DOC-` matches the pattern, and its stem is the id. |
| Cleanup.PublishedPageKept | renderer/html_renderer.py:987-992 | The page of a published document is never deleted. |
| Cleanup.NoManifestRemovesAllPages | renderer/html_renderer.py:983-992 | Without a manifest every `DOC-*.html` file is deleted, and nothing else. |
| Cleanup.OtherFilesKept | renderer/html_renderer.py:987 | Files outside the pattern, such as `index.html`, are never deleted. |
| Cleanup.CleanupRevokedDocuments | renderer.BEFORE_FINAL_FIXED_20260214-052140/html_renderer.py:1339-1359 | The loop deletes `Removed`, keeps `Kept`, and the count it reports is the number deleted. |

## Left out

- **Network calls.** The Notion client calls `fetch_all_pages`, `update_notion_doc_id`,
  `fetch_page_blocks` and `fetch_and_cache_content` are not modelled. A write-back is an
  entry in `NotionSync.remoteWrites`. Whether it succeeds remotely is not modelled; the
  source logs and swallows that error too.
- **Persistence.** File and JSON handling, `mkdir` and logging are not modelled. This covers
  `load_counter`, `save_counter`, `load_doc_mapping`, `save_doc_mapping`, the cache
  files, the metrics file, `glob` and `unlink`. The manifest, the metrics file and the
  directory listing are parameters. The files written and deleted are results.
- **Timestamps.** `datetime.now()` (the sync time, `created_time`/`last_edited_time`/`url`
  pass-through fields, the page timestamp) is left out. The page timestamp is an opaque
  string among `PageValues`.
- **`render_block`.** `NotionBlockRenderer.render_block` is not part of this model. It is a
  function parameter of `RenderBlocks`, with no assumptions about its output.
- **Templates and style sheets.** The CSS texts, the document template's literal text and the
  homepage template (`_build_homepage_html`, `_create_empty_homepage`) are not modelled.
  The document template is abstracted as literal text interleaved with placeholders.
  A homepage page is the `HomepageFile` record (file name, entries, page number, page
  count) instead of its HTML. The `get_metrics` call for each listed document is kept:
  its effect on the metrics table is `HomepageMetrics`.
- Homepage.GenerateHomepage: does not take the metrics manager. The counters that
  `_build_homepage_html` inserts are given by `HomepageMetrics` instead, and the save of
  the metrics file after each insertion is not modelled.
- **Non-string document ids.** The manifest model keeps `doc_id` as a string. A `DOC_ID`
  property of number or checkbox type, which the sync keeps as it is, is not carried into
  the renderer model. In the source it would reach the sort at
  `renderer/html_renderer.py:640`, where comparing it with a string raises.
- DocIds.PythonInt: non-ASCII decimal digits (Unicode category Nd), which `int()` reads
  as their ASCII values, are rejected by the model.
- **Floats.** Notion `number` values are integers in the model; fractional numbers are not
  represented.
- NotionProperties.ExtractPropertyValue: The rich-text and title pieces are
  their `plain_text` strings. Pieces without the key count as `""`, as
  `t.get('plain_text', '')` does. The shape of the raw JSON dictionaries is not modelled.
- **Exceptions.** Any exception in the loop of `process_pages` skips the page. The model
  raises one only for a page dictionary without `id`, which is the only `KeyError` the
  loop body can raise on well-typed properties.
- Metrics.MetricsManager.GetMetrics: The result is a copy of the counters. In the source it
  is the dictionary itself, which `increment` then updates in place. `Increment` therefore
  updates the table directly, which has the same effect.
- Reconciler.ReconcileKeepsInjective: Distinct pages keep distinct ids only in batches without
  adoption. The source does not promise more: see `Reconciler.AdoptMayDuplicate`.
- **Negative counters.** The counter is a `nat`. The counter file is only ever written by
  this loop, which starts from 0 and never decreases it. A negative stored counter (and
  its formatting as `DOC--001`) is not modelled.
- **Other parts of the repository.** The barcode generator, the pipeline script
  `sync/main.py` and the maintenance scripts are not modelled: they are foreign
  imaging libraries, orchestration and one-shot source patching.

## Findings

| source | as written | input that shows it | evidently intended | confidence | as-written member | corrected member |
|---|---|---|---|---|---|---|
| renderer/html_renderer.py:257-268 | The page is assembled by ten chained `str.replace` calls. Text inserted by an earlier call is searched again by the later ones. | A document titled `@@CSS@@`: its `<title>` and heading receive the whole style sheet instead of the title. The same happens for a property value or content containing `@@VIEWS@@`. | Each placeholder of the template is replaced by its own value, and inserted values are left as they are. | not executed; follows from the code | `PageAssembly.ChainRewritesInsertedMarker` | `PageAssembly.SinglePassFills` |

Other behaviours worth knowing about, all as the code does them:

- Adopting a remote id does not check that id against the local map, so two pages can
  end up with the same document id (`Reconciler.AdoptMayDuplicate`).
- The counter follows a remote id's ordinal only when the page is adopted
  (`Reconciler.MappedRemoteOrdinalIgnored`).
- Document ids sort as strings, so `DOC-10000` comes after `DOC-9999` on the homepage
  (`StringOrder.LexicographicNotNumeric`).
- A missing manifest writes an empty `index.html`, but an existing empty manifest writes
  no homepage at all (`Homepage.EmptyManifestWritesNothing`).
- The next link always points at `page-(c+1).html`, which is correct because the next
  page is never page 1.
