/** `_build_property_table`: one table row per property whose value is
    neither `None` nor the empty string, in dictionary order. */
module PropertyTable {
  import opened Wrappers
  import opened Text
  import opened NotionProperties

  /** A property as the cached record holds it: a name and a value that may
      be `None`. */
  type Entry = (string, Option<Value>)

  /** `value is not None and value != ""` (`False` and `0` are shown). */
  predicate Displayed(v: Option<Value>) {
    v.Some? && v.value != Str("")
  }

  /** The entries that get a row, in order. */
  function Shown(props: seq<Entry>): seq<(string, Value)> {
    if props == [] then []
    else
      var e := props[|props| - 1];
      Shown(props[..|props| - 1]) + (if Displayed(e.1) then [(e.0, e.1.value)] else [])
  }

  function Row(key: string, v: Value): string {
    "<tr><th>" + key + "</th><td>" + ValueText(v) + "</td></tr>"
  }

  function Rows(shown: seq<(string, Value)>): (r: seq<string>)
    ensures |r| == |shown|
    ensures forall i :: 0 <= i < |shown| ==> r[i] == Row(shown[i].0, shown[i].1)
  {
    seq(|shown|, i requires 0 <= i < |shown| => Row(shown[i].0, shown[i].1))
  }

  const Header: string :=
    "<div class=\"document-properties\">\n<h3>Document Properties</h3>\n<table class=\"properties-table\">\n"

  const Footer: string := "</table>\n</div>"

  /** The table around the rows (joined without separator). */
  function Table(rows: seq<string>): string {
    Header + Concat(rows) + "\n" + Footer
  }

  /** What `_build_property_table` returns: nothing when no entry is shown,
      the table of the shown entries otherwise. */
  function PropertyTableHtml(props: seq<Entry>): string {
    if Shown(props) == [] then "" else Table(Rows(Shown(props)))
  }

  lemma ShownSnoc(props: seq<Entry>, e: Entry)
    ensures Shown(props + [e]) == Shown(props) + (if Displayed(e.1) then [(e.0, e.1.value)] else [])
  {
    assert (props + [e])[..|props|] == props;
  }

  /** The shown entries are exactly the entries with a displayable value. */
  lemma {:induction false} ShownFacts(props: seq<Entry>)
    ensures |Shown(props)| <= |props|
    ensures forall k, v :: (k, v) in Shown(props) <==> (k, Some(v)) in props && v != Str("")
  {
    if props != [] {
      var init, e := props[..|props| - 1], props[|props| - 1];
      ShownFacts(init);
      assert props == init + [e];
      forall k, v ensures (k, Some(v)) in props <==> (k, Some(v)) in init || (k, Some(v)) == e {
      }
    }
  }

  /** Rows keep the dictionary order: the rows of two consecutive stretches
      of entries are the rows of each, one after the other. */
  lemma {:induction false} ShownAppend(a: seq<Entry>, b: seq<Entry>)
    ensures Shown(a + b) == Shown(a) + Shown(b)
    decreases |b|
  {
    if b == [] {
      assert a + b == a;
    } else {
      var init, e := b[..|b| - 1], b[|b| - 1];
      assert a + b == (a + init) + [e];
      ShownSnoc(a + init, e);
      ShownAppend(a, init);
      ShownSnoc(init, e);
      assert b == init + [e];
    }
  }

  /** The result is empty exactly when no entry has a displayable value
      (an empty dictionary included). */
  lemma PropertyTableEmpty(props: seq<Entry>)
    ensures PropertyTableHtml(props) == "" <==> forall i :: 0 <= i < |props| ==> !Displayed(props[i].1)
  {
    ShownFacts(props);
    if Shown(props) != [] {
      var kv := Shown(props)[0];
      assert kv in Shown(props);
      var i :| 0 <= i < |props| && props[i] == (kv.0, Some(kv.1));
      assert Displayed(props[i].1);
    } else {
      forall i | 0 <= i < |props| && props[i].1.Some? ensures props[i].1.value == Str("") {
        assert (props[i].0, Some(props[i].1.value)) in props;
        assert (props[i].0, props[i].1.value) !in Shown(props);
      }
    }
  }

  /** `_build_property_table`, row by row. */
  method BuildPropertyTable(props: seq<Entry>) returns (html: string)
    ensures html == PropertyTableHtml(props)
  {
    if props == [] {
      return "";
    }
    var rows: seq<string> := [];
    for i := 0 to |props|
      invariant rows == Rows(Shown(props[..i]))
    {
      var (key, value) := props[i];
      assert props[..i + 1] == props[..i] + [props[i]];
      ShownSnoc(props[..i], props[i]);
      if value.Some? && value.value != Str("") {
        rows := rows + [Row(key, value.value)];
      }
    }
    assert props[..|props|] == props;
    if rows == [] {
      return "";
    }
    html := Header + Concat(rows) + "\n" + Footer;
  }
}
