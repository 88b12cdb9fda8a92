/** `MetricsManager`: per-document counters kept in a dictionary and saved
    to a file after every change. */
module Metrics {
  import opened Wrappers

  type Counters = map<string, int>
  type MetricsTable = map<string, Counters>

  /** The counters a document starts with. */
  const Zeros: Counters := map["views" := 0, "downloads" := 0, "shares" := 0]

  /** The table after `get_metrics(docId)`: a missing document gets the zero
      counters. */
  function WithDocument(table: MetricsTable, docId: string): MetricsTable {
    if docId in table then table else table[docId := Zeros]
  }

  /** The table after `increment(docId, metric)`. */
  function Incremented(table: MetricsTable, docId: string, metric: string): MetricsTable {
    var t := WithDocument(table, docId);
    var counters := t[docId];
    t[docId := counters[metric := (if metric in counters then counters[metric] else 0) + 1]]
  }

  /** `get_metrics` only adds the zero counters for a missing document and
      leaves every other entry as it was. */
  lemma WithDocumentFacts(table: MetricsTable, docId: string)
    ensures docId in table ==> WithDocument(table, docId) == table
    ensures docId !in table ==> WithDocument(table, docId)[docId] == Zeros
    ensures WithDocument(table, docId).Keys == table.Keys + {docId}
    ensures forall d :: d in table ==> WithDocument(table, docId)[d] == table[d]
  {
  }

  /** `increment` raises one counter of one document by one (a missing
      counter counts as 0) and changes nothing else. */
  lemma IncrementedFacts(table: MetricsTable, docId: string, metric: string)
    ensures var r := Incremented(table, docId, metric);
            && r.Keys == table.Keys + {docId}
            && (forall d :: d in table && d != docId ==> r[d] == table[d])
            && var before := WithDocument(table, docId)[docId];
               && r[docId].Keys == before.Keys + {metric}
               && r[docId][metric] == (if metric in before then before[metric] else 0) + 1
               && (forall m :: m in before && m != metric ==> r[docId][m] == before[m])
  {
    WithDocumentFacts(table, docId);
  }

  /** The first increment of a counter of a new document gives 1 there and
      0 for the other two standard counters. */
  lemma IncrementNewDocument(table: MetricsTable, docId: string)
    requires docId !in table
    ensures Incremented(table, docId, "views")[docId] == map["views" := 1, "downloads" := 0, "shares" := 0]
  {
  }

  class MetricsManager {
    /** The dictionary in memory. */
    var metrics: MetricsTable
    /** What the metrics file holds: `None` while it does not exist. */
    var saved: Option<MetricsTable>

    /** `__init__`: load the file when it exists, start empty otherwise. */
    constructor (stored: Option<MetricsTable>)
      ensures metrics == stored.GetOr(map[]) && saved == stored
    {
      metrics := stored.GetOr(map[]);
      saved := stored;
    }

    /** `_save_metrics`. */
    method Save()
      modifies this
      ensures metrics == old(metrics) && saved == Some(metrics)
    {
      saved := Some(metrics);
    }

    /** `get_metrics`: the counters of a document, created as zeros (and
        saved) on first access. */
    method GetMetrics(docId: string) returns (counters: Counters)
      modifies this
      ensures metrics == WithDocument(old(metrics), docId)
      ensures counters == metrics[docId]
      ensures saved == if docId in old(metrics) then old(saved) else Some(metrics)
    {
      if docId !in metrics {
        metrics := metrics[docId := Zeros];
        Save();
      }
      counters := metrics[docId];
    }

    /** `increment`: one counter of one document goes up by one, and the
        table is saved. */
    method Increment(docId: string, metric: string)
      modifies this
      ensures metrics == Incremented(old(metrics), docId, metric)
      ensures saved == Some(metrics)
    {
      var counters := GetMetrics(docId);
      counters := counters[metric := (if metric in counters then counters[metric] else 0) + 1];
      metrics := metrics[docId := counters];
      Save();
    }
  }
}
