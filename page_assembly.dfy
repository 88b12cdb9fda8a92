/** The document page assembly of the renderer (`_build_document_page`): the
    page template holds `@@NAME@@` markers, and the page is the template with
    each marker replaced by its value. The code does it as a chain of ten
    `str.replace` calls; this module models that chain, a single-pass
    substitution, and when the two agree. */
module PageAssembly {
  import opened Wrappers
  import opened Text

  /** The markers of the document template. */
  datatype Token =
    | Title | Css | DocId | BarcodeHtml | PropertyHtml | ContentHtml
    | Views | Downloads | Shares | Timestamp

  function Name(t: Token): string {
    match t
    case Title => "TITLE"
    case Css => "CSS"
    case DocId => "DOC_ID"
    case BarcodeHtml => "BARCODE_HTML"
    case PropertyHtml => "PROPERTY_HTML"
    case ContentHtml => "CONTENT_HTML"
    case Views => "VIEWS"
    case Downloads => "DOWNLOADS"
    case Shares => "SHARES"
    case Timestamp => "TIMESTAMP"
  }

  /** The text of a marker in the template, e.g. `@@TITLE@@`. */
  function Marker(t: Token): string {
    "@@" + Name(t) + "@@"
  }

  predicate NameChar(c: char) {
    'A' <= c <= 'Z' || c == '_'
  }

  /** The characters a marker is made of. */
  predicate MarkerChar(c: char) {
    c == '@' || NameChar(c)
  }

  /** The shape of a marker: `@@`, then a name of capitals and underscores,
      then `@@`. */
  predicate IsMarker(m: string) {
    && |m| >= 5
    && m[0] == '@' && m[1] == '@' && m[|m| - 2] == '@' && m[|m| - 1] == '@'
    && forall i :: 2 <= i < |m| - 2 ==> NameChar(m[i])
  }

  /** Names are runs of at least three capitals and underscores. */
  lemma NameShape(t: Token)
    ensures |Name(t)| >= 3 && forall i :: 0 <= i < |Name(t)| ==> NameChar(Name(t)[i])
  {
  }

  lemma MarkerIsMarker(t: Token)
    ensures IsMarker(Marker(t))
  {
    var m := Marker(t);
    NameShape(t);
    forall i | 2 <= i < |m| - 2 ensures NameChar(m[i]) {
      assert m[i] == Name(t)[i - 2];
    }
  }

  /** Distinct tokens have distinct markers. */
  lemma MarkerInjective(t: Token, u: Token)
    requires Marker(t) == Marker(u)
    ensures t == u
  {
    assert Name(t) == Marker(t)[2..|Marker(t)| - 2];
    assert Name(u) == Marker(u)[2..|Marker(u)| - 2];
  }

  /** Every character of a marker is `@` or a name character. */
  lemma MarkerChars(m: string)
    requires IsMarker(m)
    ensures forall i :: 0 <= i < |m| ==> MarkerChar(m[i])
  {
  }

  /** A marker found at the start of another marker (followed by anything)
      is that same marker: no marker is a prefix of a different one. */
  lemma MarkerPrefix(m1: string, m2: string, rest: string)
    requires IsMarker(m1) && IsMarker(m2)
    requires StartsWith(m1 + rest, m2)
    ensures m1 == m2
  {
    var s := m1 + rest;
    var n1, n2 := |m1|, |m2|;
    assert s[..n2] == m2;
    assert s[..n1] == m1;
    forall k | 0 <= k < n1 && k < n2 ensures m1[k] == m2[k] {
      assert s[k] == m1[k] && s[k] == m2[k];
    }
    // Three positions where the two shapes disagree unless the lengths match:
    // the last `@` of `m2` inside the name of `m1`, the same one place earlier,
    // and the closing `@@` of `m1` inside the name of `m2`.
    var a := if n2 < n1 then n2 - 1 else n1 - 1;
    var b := if n2 - 2 < n1 then n2 - 2 else n1 - 1;
    var c := if n1 - 2 < n2 then n1 - 2 else n2 - 1;
    assert m1[a] == m2[a] && m1[b] == m2[b] && m1[c] == m2[c];
  }

  /** No two adjacent `@`: such a string holds no marker. */
  predicate NoDoubleAt(s: string) {
    forall i :: 0 <= i < |s| - 1 ==> !(s[i] == '@' && s[i + 1] == '@')
  }

  /** A literal after which no marker can begin across the boundary: no
      `@@`, and it does not end in `@`. */
  predicate TailSafe(s: string) {
    NoDoubleAt(s) && (s == [] || s[|s| - 1] != '@')
  }

  /** A text before which no marker can end across the boundary: it starts
      with a character no marker contains. */
  predicate HeadSafe(s: string) {
    s != [] && !MarkerChar(s[0])
  }

  /** A replacement rule: occurrences of `0` are replaced by `1`. */
  type Rule = (string, string)

  predicate NonEmptyPatterns(rules: seq<Rule>) {
    forall i :: 0 <= i < |rules| ==> rules[i].0 != []
  }

  predicate AllMarkers(rules: seq<Rule>) {
    forall i :: 0 <= i < |rules| ==> IsMarker(rules[i].0)
  }

  /** The index of the first rule whose pattern starts `s`. */
  function FirstMatch(s: string, rules: seq<Rule>): (r: Option<nat>)
    ensures r.Some? ==> r.value < |rules| && StartsWith(s, rules[r.value].0)
    ensures r.Some? ==> forall j :: 0 <= j < r.value ==> !StartsWith(s, rules[j].0)
    ensures r.None? ==> forall i :: 0 <= i < |rules| ==> !StartsWith(s, rules[i].0)
  {
    if rules == [] then None
    else if StartsWith(s, rules[0].0) then Some(0)
    else
      match FirstMatch(s, rules[1..])
      case None => None
      case Some(i) => Some(i + 1)
  }

  /** A left-to-right scan that replaces every occurrence of a pattern by its
      replacement, without looking at the replacement text again. With a
      single rule this is Python's `s.replace(old, new)`: leftmost
      occurrences first, never overlapping. */
  function Subst(s: string, rules: seq<Rule>): string
    requires NonEmptyPatterns(rules)
    decreases |s|
  {
    if s == [] then []
    else
      match FirstMatch(s, rules)
      case Some(i) => rules[i].1 + Subst(s[|rules[i].0|..], rules)
      case None => [s[0]] + Subst(s[1..], rules)
  }

  /** `s.replace("@@NAME@@", v)`. */
  function Replace(s: string, t: Token, v: string): string {
    Subst(s, [(Marker(t), v)])
  }

  /** The values the page is assembled from. */
  datatype PageValues = PageValues(title: string, css: string, docId: string, barcodeHtml: string,
                                   propertyHtml: string, contentHtml: string, views: string,
                                   downloads: string, shares: string, timestamp: string)

  function Value(vals: PageValues, t: Token): string {
    match t
    case Title => vals.title
    case Css => vals.css
    case DocId => vals.docId
    case BarcodeHtml => vals.barcodeHtml
    case PropertyHtml => vals.propertyHtml
    case ContentHtml => vals.contentHtml
    case Views => vals.views
    case Downloads => vals.downloads
    case Shares => vals.shares
    case Timestamp => vals.timestamp
  }

  /** `metrics.get(key, 0)`. */
  function MetricOr0(metrics: map<string, int>, key: string): int {
    if key in metrics then metrics[key] else 0
  }

  /** The arguments of the ten `replace` calls: `str(...)` of each input,
      the three counters read from the metrics with 0 as default, and the
      formatted clock reading. */
  function DocumentValues(docId: string, title: string, barcodeHtml: string, propertyHtml: string,
                          contentHtml: string, metrics: map<string, int>, css: string,
                          timestamp: string): (vals: PageValues)
    ensures vals.views == IntToString(MetricOr0(metrics, "views"))
    ensures vals.downloads == IntToString(MetricOr0(metrics, "downloads"))
    ensures vals.shares == IntToString(MetricOr0(metrics, "shares"))
    ensures vals.title == title && vals.docId == docId && vals.contentHtml == contentHtml
  {
    PageValues(title, css, docId, barcodeHtml, propertyHtml, contentHtml,
               IntToString(MetricOr0(metrics, "views")), IntToString(MetricOr0(metrics, "downloads")),
               IntToString(MetricOr0(metrics, "shares")), timestamp)
  }

  /** A counter missing from the metrics shows as `0`; a recorded count
      shows as its shortest decimal text. */
  lemma MetricText(metrics: map<string, int>, key: string)
    ensures key !in metrics ==> IntToString(MetricOr0(metrics, key)) == "0"
    ensures key in metrics && metrics[key] >= 0 ==>
              var r := IntToString(MetricOr0(metrics, key));
              AllDigits(r) && DigitsValue(r) == metrics[key] && (|r| > 1 ==> r[0] != '0')
  {
    if key !in metrics {
      assert NatToDecimal(0) == "0";
    }
  }

  /** The order of the `replace` chain. */
  const ChainOrder: seq<Token> :=
    [Title, Css, DocId, BarcodeHtml, PropertyHtml, ContentHtml, Views, Downloads, Shares, Timestamp]

  /** Where a token sits in the chain: every token is replaced exactly once. */
  function ChainPosition(t: Token): (i: nat)
    ensures i < |ChainOrder| && ChainOrder[i] == t
    ensures forall j :: 0 <= j < |ChainOrder| && ChainOrder[j] == t ==> j == i
  {
    match t
    case Title => 0
    case Css => 1
    case DocId => 2
    case BarcodeHtml => 3
    case PropertyHtml => 4
    case ContentHtml => 5
    case Views => 6
    case Downloads => 7
    case Shares => 8
    case Timestamp => 9
  }

  /** Replace the markers one token after another, each on the result of the
      previous replacement. */
  function Chain(s: string, vals: PageValues, order: seq<Token>): string
    decreases |order|
  {
    if order == [] then s
    else Chain(Replace(s, order[0], Value(vals, order[0])), vals, order[1..])
  }

  /** `_build_document_page` as written: the chain in its fixed order. */
  function BuildDocumentPage(template: string, vals: PageValues): string {
    Chain(template, vals, ChainOrder)
  }

  /** One rule per token, in chain order. */
  function AllRules(vals: PageValues): (rules: seq<Rule>)
    ensures NonEmptyPatterns(rules)
  {
    seq(|ChainOrder|, i requires 0 <= i < |ChainOrder| => (Marker(ChainOrder[i]), Value(vals, ChainOrder[i])))
  }

  /** Single-pass assembly: every marker of the template is replaced by its
      value in one scan, and no inserted value is scanned again. */
  function SinglePassPage(template: string, vals: PageValues): string {
    Subst(template, AllRules(vals))
  }

  /** A template: literal text, then markers each followed by literal text. */
  datatype Template = Template(head: string, holes: seq<(Token, string)>)

  /** The literals sit cleanly between markers: none holds `@@`, none ends
      in `@`, and each literal after a marker is non-empty and starts with a
      character no marker contains. */
  predicate WellFormed(tpl: Template) {
    TailSafe(tpl.head) && SafeLiterals(tpl.holes)
  }

  predicate SafeLiterals(holes: seq<(Token, string)>) {
    forall i :: 0 <= i < |holes| ==> HeadSafe(holes[i].1) && TailSafe(holes[i].1)
  }

  function MarkersText(holes: seq<(Token, string)>): string {
    if holes == [] then [] else Marker(holes[0].0) + holes[0].1 + MarkersText(holes[1..])
  }

  /** The template as a string. */
  function TemplateText(tpl: Template): string {
    tpl.head + MarkersText(tpl.holes)
  }

  function FilledText(holes: seq<(Token, string)>, vals: PageValues): string {
    if holes == [] then [] else Value(vals, holes[0].0) + holes[0].1 + FilledText(holes[1..], vals)
  }

  /** The page the template describes: every marker occurrence replaced by
      its value. */
  function Fill(tpl: Template, vals: PageValues): string {
    tpl.head + FilledText(tpl.holes, vals)
  }

  /** The template after the tokens in `done` have been replaced. */
  function PartialText(holes: seq<(Token, string)>, vals: PageValues, done: set<Token>): string {
    if holes == [] then [] else Segment(holes[0].0, vals, done) + holes[0].1 + PartialText(holes[1..], vals, done)
  }

  /** A hole after the tokens in `done` have been replaced. */
  function Segment(u: Token, vals: PageValues, done: set<Token>): string {
    if u in done then Value(vals, u) else Marker(u)
  }

  // ---- the scan on its own ----

  /** No marker starts a text without `@@`. */
  lemma NoMarkerAt(s: string, m: string)
    requires IsMarker(m) && NoDoubleAt(s)
    ensures !StartsWith(s, m)
  {
    if |m| <= |s| {
      assert !(s[0] == '@' && s[1] == '@');
      assert s[..|m|][0] == s[0] && s[..|m|][1] == s[1];
    }
  }

  /** Text without `@@` is left as it is. */
  lemma {:induction false} SubstNoDoubleAt(s: string, rules: seq<Rule>)
    requires AllMarkers(rules) && NoDoubleAt(s)
    ensures Subst(s, rules) == s
  {
    if s != [] {
      forall i | 0 <= i < |rules| ensures !StartsWith(s, rules[i].0) {
        NoMarkerAt(s, rules[i].0);
      }
      SubstNoDoubleAt(s[1..], rules);
    }
  }

  /** With a clean boundary a marker starts `a + b` only if it starts `a`. */
  lemma NoStraddle(a: string, b: string, m: string)
    requires IsMarker(m)
    requires a != [] && (TailSafe(a) || HeadSafe(b))
    ensures StartsWith(a + b, m) <==> StartsWith(a, m)
  {
    if StartsWith(a + b, m) {
      PrefixWithin(a, b, m);
      assert (a + b)[..|m|] == a[..|m|];
    }
    if StartsWith(a, m) {
      assert (a + b)[..|m|] == a[..|m|];
    }
  }

  /** A marker at the start of `a + b` lies within `a` when the boundary is
      clean. */
  lemma PrefixWithin(a: string, b: string, m: string)
    requires IsMarker(m)
    requires a != [] && (TailSafe(a) || HeadSafe(b))
    requires StartsWith(a + b, m)
    ensures |m| <= |a|
  {
    MarkerChars(m);
    var s := a + b;
    assert s[..|m|] == m;
    var k := if |a| < |m| then |a| else |m| - 1;
    assert s[k] == m[k];
    var j := if |a| >= 2 then 1 else 0;
    assert s[0] == a[0] == m[0] && s[j] == a[j] == m[j];
  }

  /** With a clean boundary the first rule matching `a + b` is the first
      rule matching `a`. */
  lemma {:induction false} FirstMatchConcat(a: string, b: string, rules: seq<Rule>)
    requires AllMarkers(rules)
    requires a != [] && (TailSafe(a) || HeadSafe(b))
    ensures FirstMatch(a + b, rules) == FirstMatch(a, rules)
  {
    if rules != [] {
      NoStraddle(a, b, rules[0].0);
      FirstMatchConcat(a, b, rules[1..]);
    }
  }

  /** The scan of a concatenation is the concatenation of the scans, when no
      marker can straddle the boundary. */
  lemma {:induction false} SubstConcat(a: string, b: string, rules: seq<Rule>)
    requires AllMarkers(rules)
    requires a == [] || TailSafe(a) || HeadSafe(b)
    ensures Subst(a + b, rules) == Subst(a, rules) + Subst(b, rules)
    decreases |a|
  {
    if a == [] {
      assert a + b == b;
    } else {
      var s := a + b;
      FirstMatchConcat(a, b, rules);
      match FirstMatch(a, rules)
      case Some(i) =>
        var k := |rules[i].0|;
        assert s[k..] == a[k..] + b;
        SubstConcat(a[k..], b, rules);
        assert Subst(s, rules) == rules[i].1 + Subst(s[k..], rules);
        assert Subst(a, rules) == rules[i].1 + Subst(a[k..], rules);
        AppendAssoc(rules[i].1, Subst(a[k..], rules), Subst(b, rules));
      case None =>
        assert s[1..] == a[1..] + b;
        SubstConcat(a[1..], b, rules);
        assert Subst(s, rules) == [a[0]] + Subst(s[1..], rules);
        assert Subst(a, rules) == [a[0]] + Subst(a[1..], rules);
        AppendAssoc([a[0]], Subst(a[1..], rules), Subst(b, rules));
    }
  }

  /** A marker is replaced by the value of the first rule for it. */
  lemma SubstMarker(m: string, rules: seq<Rule>, v: string)
    requires AllMarkers(rules) && IsMarker(m)
    requires (m, v) in rules
    requires forall i :: 0 <= i < |rules| && rules[i].0 == m ==> rules[i].1 == v
    ensures Subst(m, rules) == v
  {
    assert m + [] == m;
    var j :| 0 <= j < |rules| && rules[j] == (m, v);
    assert StartsWith(m, rules[j].0);
    var i := FirstMatch(m, rules).value;
    MarkerPrefix(m, rules[i].0, []);
    assert m[|m|..] == [];
  }

  /** `@@` alone holds no marker. */
  lemma SubstAtAt(rules: seq<Rule>)
    requires AllMarkers(rules)
    ensures Subst("@@", rules) == "@@"
  {
    SubstNoDoubleAt("@@"[1..], rules);
    assert FirstMatch("@@", rules) == None by {
      forall i | 0 <= i < |rules| ensures !StartsWith("@@", rules[i].0) {
      }
    }
  }

  /** A marker without its first `@` does not start with a marker. */
  lemma NoMarkerInTail(m: string, m2: string)
    requires IsMarker(m) && IsMarker(m2)
    ensures !StartsWith(m[1..], m2)
  {
    var m1 := m[1..];
    if |m2| <= |m1| {
      assert m1[..|m2|][1] == m[2];
      assert NameChar(m[2]);
    }
  }

  /** A marker without its first `@` holds no marker. */
  lemma SubstMarkerTail(m: string, rules: seq<Rule>)
    requires AllMarkers(rules) && IsMarker(m)
    ensures Subst(m[1..], rules) == m[1..]
  {
    var m1 := m[1..];
    assert FirstMatch(m1, rules) == None by {
      forall i | 0 <= i < |rules| ensures !StartsWith(m1, rules[i].0) {
        NoMarkerInTail(m, rules[i].0);
      }
    }
    var name := m[2..|m| - 2];
    assert m1[1..] == name + "@@";
    assert TailSafe(name);
    SubstConcat(name, "@@", rules);
    SubstNoDoubleAt(name, rules);
    SubstAtAt(rules);
  }

  /** A marker no rule is about is left as it is. */
  lemma SubstOtherMarker(m: string, rules: seq<Rule>)
    requires AllMarkers(rules) && IsMarker(m)
    requires forall i :: 0 <= i < |rules| ==> rules[i].0 != m
    ensures Subst(m, rules) == m
  {
    assert m + [] == m;
    assert FirstMatch(m, rules) == None by {
      forall i | 0 <= i < |rules| ensures !StartsWith(m + [], rules[i].0) {
        if StartsWith(m + [], rules[i].0) {
          MarkerPrefix(m, rules[i].0, []);
        }
      }
    }
    SubstMarkerTail(m, rules);
  }

  // ---- the template ----

  lemma {:induction false} PartialNone(holes: seq<(Token, string)>, vals: PageValues)
    ensures PartialText(holes, vals, {}) == MarkersText(holes)
  {
    if holes != [] {
      PartialNone(holes[1..], vals);
    }
  }

  lemma {:induction false} PartialAll(holes: seq<(Token, string)>, vals: PageValues, done: set<Token>)
    requires forall i :: 0 <= i < |holes| ==> holes[i].0 in done
    ensures PartialText(holes, vals, done) == FilledText(holes, vals)
  {
    if holes != [] {
      PartialAll(holes[1..], vals, done);
    }
  }

  /** A clean literal splits the scan in two. */
  lemma SubstAroundLiteral(seg: string, lit: string, rest: string, rules: seq<Rule>)
    requires AllMarkers(rules) && HeadSafe(lit) && TailSafe(lit)
    ensures Subst(seg + lit + rest, rules) == Subst(seg, rules) + lit + Subst(rest, rules)
  {
    assert seg + lit + rest == seg + (lit + rest);
    assert HeadSafe(lit + rest) by { assert (lit + rest)[0] == lit[0]; }
    SubstConcat(seg, lit + rest, rules);
    SubstConcat(lit, rest, rules);
    SubstNoDoubleAt(lit, rules);
  }

  /** One `replace` call on a single hole. */
  lemma ReplaceSegment(u: Token, t: Token, vals: PageValues, done: set<Token>)
    requires u in done ==> NoDoubleAt(Value(vals, u))
    ensures Replace(Segment(u, vals, done), t, Value(vals, t)) == Segment(u, vals, done + {t})
  {
    if u in done {
      ReplaceFilled(u, t, vals, done);
    } else if u == t {
      ReplaceOwnMarker(t, vals, done);
    } else {
      ReplaceOtherMarker(u, t, vals, done);
    }
  }

  /** A value already inserted is left alone. */
  lemma ReplaceFilled(u: Token, t: Token, vals: PageValues, done: set<Token>)
    requires u in done && NoDoubleAt(Value(vals, u))
    ensures Replace(Segment(u, vals, done), t, Value(vals, t)) == Segment(u, vals, done + {t})
  {
    MarkerIsMarker(t);
    SubstNoDoubleAt(Value(vals, u), [(Marker(t), Value(vals, t))]);
  }

  /** The marker of the token being replaced becomes its value. */
  lemma ReplaceOwnMarker(t: Token, vals: PageValues, done: set<Token>)
    requires t !in done
    ensures Replace(Segment(t, vals, done), t, Value(vals, t)) == Segment(t, vals, done + {t})
  {
    MarkerIsMarker(t);
    SubstMarker(Marker(t), [(Marker(t), Value(vals, t))], Value(vals, t));
  }

  /** The marker of another token is left alone. */
  lemma ReplaceOtherMarker(u: Token, t: Token, vals: PageValues, done: set<Token>)
    requires u !in done && u != t
    ensures Replace(Segment(u, vals, done), t, Value(vals, t)) == Segment(u, vals, done + {t})
  {
    MarkerIsMarker(t);
    MarkerIsMarker(u);
    if Marker(u) == Marker(t) {
      MarkerInjective(u, t);
    }
    SubstOtherMarker(Marker(u), [(Marker(t), Value(vals, t))]);
  }

  /** One `replace` call turns the markers of its token into the value and
      leaves the rest of the partly filled template alone, provided the
      values inserted so far hold no `@@`. */
  lemma {:induction false} ReplaceStep(holes: seq<(Token, string)>, vals: PageValues, done: set<Token>, t: Token)
    requires SafeLiterals(holes)
    requires forall u :: u in done ==> NoDoubleAt(Value(vals, u))
    ensures Replace(PartialText(holes, vals, done), t, Value(vals, t)) == PartialText(holes, vals, done + {t})
  {
    if holes != [] {
      var u, lit := holes[0].0, holes[0].1;
      MarkerIsMarker(t);
      SubstAroundLiteral(Segment(u, vals, done), lit, PartialText(holes[1..], vals, done), [(Marker(t), Value(vals, t))]);
      ReplaceSegment(u, t, vals, done);
      assert SafeLiterals(holes[1..]) by {
        forall i | 0 <= i < |holes[1..]| ensures HeadSafe(holes[1..][i].1) && TailSafe(holes[1..][i].1) {
          assert holes[1..][i] == holes[i + 1];
        }
      }
      ReplaceStep(holes[1..], vals, done, t);
    }
  }

  /** The rest of the chain, from a partly filled template. */
  lemma {:induction false} ChainPartial(head: string, holes: seq<(Token, string)>, vals: PageValues,
                                        done: set<Token>, order: seq<Token>)
    requires TailSafe(head) && SafeLiterals(holes)
    requires forall u :: NoDoubleAt(Value(vals, u))
    ensures Chain(head + PartialText(holes, vals, done), vals, order)
              == head + PartialText(holes, vals, done + (set u | u in order))
    decreases |order|
  {
    if order == [] {
      assert done + (set u | u in order) == done;
    } else {
      var t := order[0];
      var rules := [(Marker(t), Value(vals, t))];
      var before, after := PartialText(holes, vals, done), PartialText(holes, vals, done + {t});
      assert Replace(head + before, t, Value(vals, t)) == head + after by {
        MarkerIsMarker(t);
        SubstConcat(head, before, rules);
        SubstNoDoubleAt(head, rules);
        ReplaceStep(holes, vals, done, t);
      }
      assert Chain(head + before, vals, order) == Chain(head + after, vals, order[1..]);
      ChainPartial(head, holes, vals, done + {t}, order[1..]);
      assert done + {t} + (set u | u in order[1..]) == done + (set u | u in order);
    }
  }

  /** The chain of `_build_document_page` gives the page the template
      describes whenever no value holds `@@`. */
  lemma ChainMatchesFill(tpl: Template, vals: PageValues)
    requires WellFormed(tpl)
    requires forall u :: NoDoubleAt(Value(vals, u))
    ensures BuildDocumentPage(TemplateText(tpl), vals) == Fill(tpl, vals)
  {
    var all := {} + (set u | u in ChainOrder);
    forall u: Token ensures u in all {
      var k := ChainPosition(u);
      assert ChainOrder[k] == u;
    }
    PartialNone(tpl.holes, vals);
    assert TemplateText(tpl) == tpl.head + PartialText(tpl.holes, vals, {});
    ChainPartial(tpl.head, tpl.holes, vals, {}, ChainOrder);
    PartialAll(tpl.holes, vals, all);
  }

  lemma AllRulesMarkers(vals: PageValues)
    ensures AllMarkers(AllRules(vals))
  {
    var rules := AllRules(vals);
    forall i | 0 <= i < |rules| ensures IsMarker(rules[i].0) {
      MarkerIsMarker(ChainOrder[i]);
    }
  }

  /** In one scan each marker becomes its own token's value. */
  lemma SinglePassMarker(t: Token, vals: PageValues)
    ensures Subst(Marker(t), AllRules(vals)) == Value(vals, t)
  {
    var rules := AllRules(vals);
    AllRulesMarkers(vals);
    MarkerIsMarker(t);
    assert rules[ChainPosition(t)] == (Marker(t), Value(vals, t));
    forall i | 0 <= i < |rules| && rules[i].0 == Marker(t) ensures rules[i].1 == Value(vals, t) {
      MarkerInjective(ChainOrder[i], t);
    }
    SubstMarker(Marker(t), rules, Value(vals, t));
  }

  lemma {:induction false} SinglePassHoles(holes: seq<(Token, string)>, vals: PageValues)
    requires SafeLiterals(holes)
    ensures Subst(MarkersText(holes), AllRules(vals)) == FilledText(holes, vals)
  {
    if holes != [] {
      var u, lit := holes[0].0, holes[0].1;
      AllRulesMarkers(vals);
      SubstAroundLiteral(Marker(u), lit, MarkersText(holes[1..]), AllRules(vals));
      SinglePassMarker(u, vals);
      assert SafeLiterals(holes[1..]) by {
        forall i | 0 <= i < |holes[1..]| ensures HeadSafe(holes[1..][i].1) && TailSafe(holes[1..][i].1) {
          assert holes[1..][i] == holes[i + 1];
        }
      }
      SinglePassHoles(holes[1..], vals);
    }
  }

  /** Single-pass assembly gives the page the template describes, whatever
      the values hold. */
  lemma SinglePassFills(tpl: Template, vals: PageValues)
    requires WellFormed(tpl)
    ensures SinglePassPage(TemplateText(tpl), vals) == Fill(tpl, vals)
  {
    AllRulesMarkers(vals);
    SubstConcat(tpl.head, MarkersText(tpl.holes), AllRules(vals));
    SubstNoDoubleAt(tpl.head, AllRules(vals));
    SinglePassHoles(tpl.holes, vals);
  }

  /** Text without `@@` goes through the whole chain unchanged. */
  lemma {:induction false} ChainNoDoubleAt(s: string, vals: PageValues, order: seq<Token>)
    requires NoDoubleAt(s)
    ensures Chain(s, vals, order) == s
    decreases |order|
  {
    if order != [] {
      MarkerIsMarker(order[0]);
      SubstNoDoubleAt(s, [(Marker(order[0]), Value(vals, order[0]))]);
      ChainNoDoubleAt(s, vals, order[1..]);
    }
  }

  lemma NoDoubleAtJoin(a: string, b: string)
    requires NoDoubleAt(a) && NoDoubleAt(b)
    requires a == [] || b == [] || a[|a| - 1] != '@' || b[0] != '@'
    ensures NoDoubleAt(a + b)
  {
    forall i | 0 <= i < |a + b| - 1 ensures !((a + b)[i] == '@' && (a + b)[i + 1] == '@') {
      if i + 1 < |a| {
        assert (a + b)[i] == a[i] && (a + b)[i + 1] == a[i + 1];
      } else if i >= |a| {
        assert (a + b)[i] == b[i - |a|] && (a + b)[i + 1] == b[i + 1 - |a|];
      }
    }
  }

  /** The first `replace` on an unfilled template. */
  lemma ReplaceInTemplate(head: string, holes: seq<(Token, string)>, vals: PageValues, t: Token)
    requires TailSafe(head) && SafeLiterals(holes)
    ensures Replace(head + MarkersText(holes), t, Value(vals, t)) == head + PartialText(holes, vals, {t})
  {
    var rules := [(Marker(t), Value(vals, t))];
    MarkerIsMarker(t);
    PartialNone(holes, vals);
    SubstConcat(head, MarkersText(holes), rules);
    SubstNoDoubleAt(head, rules);
    ReplaceStep(holes, vals, {}, t);
    assert {} + {t} == {t};
  }

  /** The first two steps of the chain on a template holding only a title:
      the title value `@@CSS@@` is replaced by the style sheet. */
  lemma TitleThenCss(head: string, tail: string, vals: PageValues)
    requires WellFormed(Template(head, [(Title, tail)]))
    requires vals.title == Marker(Css)
    ensures Replace(Replace(TemplateText(Template(head, [(Title, tail)])), Title, vals.title), Css, vals.css)
            == head + vals.css + tail
  {
    ReplaceInTemplate(head, [(Title, tail)], vals, Title);
    assert PartialText([(Title, tail)], vals, {Title}) == MarkersText([(Css, tail)]);
    assert SafeLiterals([(Css, tail)]);
    ReplaceInTemplate(head, [(Css, tail)], vals, Css);
  }

  /** The chain begins with the title and then the style sheet. */
  lemma ChainFirstTwo(s: string, vals: PageValues)
    ensures BuildDocumentPage(s, vals)
            == Chain(Replace(Replace(s, Title, vals.title), Css, vals.css), vals, ChainOrder[2..])
  {
    assert ChainOrder[0] == Title && ChainOrder[1..][0] == Css;
    assert ChainOrder[1..][1..] == ChainOrder[2..];
  }

  lemma FillTitleOnly(head: string, tail: string, vals: PageValues)
    ensures Fill(Template(head, [(Title, tail)]), vals) == head + vals.title + tail
  {
    assert FilledText([(Title, tail)], vals) == vals.title + tail + FilledText([], vals);
  }

  /** Text without `@@` differs from a marker in any surroundings. */
  lemma MarkerDiffers(head: string, tail: string, a: string, m: string)
    requires NoDoubleAt(a) && IsMarker(m)
    ensures head + a + tail != head + m + tail
  {
    if head + a + tail == head + m + tail {
      assert a == m by {
        assert a == (head + a + tail)[|head|..|head| + |a|];
        assert m == (head + m + tail)[|head|..|head| + |m|];
      }
    }
  }

  /** The chain is not single-pass: a title that reads `@@CSS@@` is itself
      replaced by the style sheet in the next step, so the page differs from
      the one the template describes. */
  lemma ChainRewritesInsertedMarker(head: string, tail: string, vals: PageValues)
    requires WellFormed(Template(head, [(Title, tail)]))
    requires vals.title == Marker(Css) && NoDoubleAt(vals.css)
    ensures BuildDocumentPage(TemplateText(Template(head, [(Title, tail)])), vals) == head + vals.css + tail
    ensures Fill(Template(head, [(Title, tail)]), vals) == head + Marker(Css) + tail
    ensures BuildDocumentPage(TemplateText(Template(head, [(Title, tail)])), vals)
            != Fill(Template(head, [(Title, tail)]), vals)
  {
    TitleThenCss(head, tail, vals);
    ChainFirstTwo(TemplateText(Template(head, [(Title, tail)])), vals);
    // the remaining steps find no marker
    NoDoubleAtJoin(head, vals.css);
    NoDoubleAtJoin(head + vals.css, tail);
    ChainNoDoubleAt(head + vals.css + tail, vals, ChainOrder[2..]);
    FillTitleOnly(head, tail, vals);
    MarkerIsMarker(Css);
    MarkerDiffers(head, tail, vals.css, Marker(Css));
  }
}
