/** `_build_pagination`: the navigation bar under a homepage page. */
module Pagination {
  import opened Text

  /** The file of page `i`: `index.html` for page 1, `page-i.html` otherwise. */
  function PageUrl(i: int): string {
    if i == 1 then "index.html" else "page-" + IntToString(i) + ".html"
  }

  /** One element of the bar, by the page it stands for. */
  datatype Link =
    | PrevLink(target: int)
    | PageLink(num: int)
    | ActivePage(num: int)
    | NextLink(target: int)
  /** `<a href="/{url}" class="page-link">{caption}</a>`. */
  function Anchor(url: string, caption: string): string {
    "<a href=\"/" + url + "\" class=\"page-link\">" + caption + "</a>"
  }

  /** The HTML of one element. The "previous" link names `index.html` for
      page 1; the "next" link always has the `page-k.html` form. */
  function LinkHtml(l: Link): string {
    match l
    case PrevLink(t) => Anchor(PageUrl(t), "&larr; Previous")
    case PageLink(i) => Anchor(PageUrl(i), IntToString(i))
    case ActivePage(i) => "<span class=\"page-link active\">" + IntToString(i) + "</span>"
    case NextLink(t) => Anchor("page-" + IntToString(t) + ".html", "Next &rarr;")
  }

  function LinksHtml(ls: seq<Link>): seq<string> {
    seq(|ls|, i requires 0 <= i < |ls| => LinkHtml(ls[i]))
  }

  /** The "previous" link, when there is one. */
  function PrevPart(current: int): seq<Link> {
    if current > 1 then [PrevLink(current - 1)] else []
  }

  /** The entry for page `i`: plain text for the current page, a link
      otherwise. */
  function NumberEntry(current: int, i: int): Link {
    if i == current then ActivePage(i) else PageLink(i)
  }

  /** The numbered entries for pages 1 to `m`. */
  function NumberPart(current: int, m: nat): (r: seq<Link>)
    ensures |r| == m
  {
    if m == 0 then [] else NumberPart(current, m - 1) + [NumberEntry(current, m)]
  }

  /** The "next" link, when there is one. */
  function NextPart(current: int, total: int): seq<Link> {
    if current < total then [NextLink(current + 1)] else []
  }

  /** The bar's elements when there is more than one page. */
  function Links(current: int, total: nat): seq<Link> {
    PrevPart(current) + NumberPart(current, total) + NextPart(current, total)
  }

  /** What `_build_pagination` returns. */
  function PaginationHtml(current: int, total: int): string {
    if total <= 1 then "" else "<div class=\"pagination\">" + Join(LinksHtml(Links(current, total)), " ") + "</div>"
  }

  lemma {:induction false} NumberPartFacts(current: int, m: nat)
    ensures forall i :: 1 <= i <= m ==> NumberPart(current, m)[i - 1] == NumberEntry(current, i)
  {
    if m > 0 {
      NumberPartFacts(current, m - 1);
    }
  }

  /** Where each element of the bar comes from. */
  lemma LinkAt(current: int, total: nat, k: int)
    requires 0 <= k < |Links(current, total)|
    ensures var p := if current > 1 then 1 else 0;
            && (k < p ==> Links(current, total)[k] == PrevLink(current - 1))
            && (p <= k < p + total ==> Links(current, total)[k] == NumberEntry(current, k - p + 1))
            && (k >= p + total ==> Links(current, total)[k] == NextLink(current + 1) && current < total)
  {
    var p := if current > 1 then 1 else 0;
    var ls := Links(current, total);
    NumberPartFacts(current, total);
    if k < p {
      assert ls[k] == PrevPart(current)[k];
    } else if k < p + total {
      assert ls[k] == NumberPart(current, total)[k - p];
    } else {
      assert ls[k] == NextPart(current, total)[k - p - total];
    }
  }

  /** The bar holds a "previous" link exactly when the page is not the first
      (pointing at the page before), the numbers 1 to `total` in order with
      only the current page as plain text, and a "next" link exactly when
      the page is not the last (pointing at the page after). */
  lemma LinksShape(current: int, total: nat)
    ensures var ls := Links(current, total);
            var p := if current > 1 then 1 else 0;
            && |ls| == p + total + (if current < total then 1 else 0)
            && ((exists k :: 0 <= k < |ls| && ls[k].PrevLink?) <==> current > 1)
            && (current > 1 ==> ls[0] == PrevLink(current - 1))
            && (forall i :: 1 <= i <= total ==> ls[p + i - 1] == (if i == current then ActivePage(i) else PageLink(i)))
            && ((exists k :: 0 <= k < |ls| && ls[k].NextLink?) <==> current < total)
            && (current < total ==> ls[|ls| - 1] == NextLink(current + 1))
  {
    var ls := Links(current, total);
    var p := if current > 1 then 1 else 0;
    NumberPartFacts(current, total);
    var nums := NumberPart(current, total);
    assert ls == PrevPart(current) + nums + NextPart(current, total);
    assert |ls| == p + total + |NextPart(current, total)|;
    forall i | 1 <= i <= total ensures ls[p + i - 1] == (if i == current then ActivePage(i) else PageLink(i)) {
      LinkAt(current, total, p + i - 1);
    }
    forall k | 0 <= k < |ls| && ls[k].PrevLink? ensures k == 0 && current > 1 {
      LinkAt(current, total, k);
    }
    forall k | 0 <= k < |ls| && ls[k].NextLink? ensures k == |ls| - 1 && current < total {
      LinkAt(current, total, k);
    }
    if current > 1 {
      assert ls[0].PrevLink?;
    }
    if current < total {
      assert ls[|ls| - 1].NextLink?;
    }
  }

  /** From page 2 the "previous" link goes to `index.html`; from a later
      page, and for every "next" link, to `page-k.html`. */
  lemma LinkTargets(current: int)
    ensures current == 2 ==> LinkHtml(PrevLink(current - 1)) == Anchor("index.html", "&larr; Previous")
    ensures current > 2 ==>
              LinkHtml(PrevLink(current - 1)) == Anchor("page-" + IntToString(current - 1) + ".html", "&larr; Previous")
  {
  }

  /** The bar is empty exactly when there is at most one page. */
  lemma PaginationEmpty(current: int, total: int)
    ensures PaginationHtml(current, total) == "" <==> total <= 1
  {
  }

  lemma PaginationHtmlOf(current: int, total: int, links: seq<string>)
    requires total > 1
    requires links == LinksHtml(PrevPart(current) + NumberPart(current, total) + NextPart(current, total))
    ensures PaginationHtml(current, total) == "<div class=\"pagination\">" + Join(links, " ") + "</div>"
  {
  }

  lemma NumberStep(current: int, i: nat)
    requires i >= 1
    ensures PrevPart(current) + NumberPart(current, i) == PrevPart(current) + NumberPart(current, i - 1) + [NumberEntry(current, i)]
  {
  }

  lemma StartLinks(current: int, links: seq<string>)
    requires links == LinksHtml(PrevPart(current))
    ensures links == LinksHtml(PrevPart(current) + NumberPart(current, 0))
  {
    assert PrevPart(current) + NumberPart(current, 0) == PrevPart(current);
  }

  lemma LinksHtmlSnoc(ls: seq<Link>, l: Link)
    ensures LinksHtml(ls + [l]) == LinksHtml(ls) + [LinkHtml(l)]
  {
  }

  /** The entry the loop of `_build_pagination` adds for page `i`. */
  method NumberItem(currentPage: int, i: int) returns (item: string)
    ensures item == LinkHtml(NumberEntry(currentPage, i))
  {
    var url := PageUrl(i);
    if i == currentPage {
      item := "<span class=\"page-link active\">" + IntToString(i) + "</span>";
    } else {
      item := Anchor(url, IntToString(i));
    }
  }

  /** The "previous" link `_build_pagination` adds on a page after the first. */
  method PrevItem(currentPage: int) returns (item: string)
    requires currentPage > 1
    ensures item == LinkHtml(PrevLink(currentPage - 1))
  {
    var prevUrl := PageUrl(currentPage - 1);
    item := Anchor(prevUrl, "&larr; Previous");
  }

  /** The numbered entries the loop of `_build_pagination` appends after
      `links`, for pages 1 to `totalPages`. */
  method AppendNumbers(currentPage: int, totalPages: nat, links0: seq<string>) returns (links: seq<string>)
    requires links0 == LinksHtml(PrevPart(currentPage))
    ensures links == LinksHtml(PrevPart(currentPage) + NumberPart(currentPage, totalPages))
  {
    links := links0;
    StartLinks(currentPage, links);
    for i := 1 to totalPages + 1
      invariant links == LinksHtml(PrevPart(currentPage) + NumberPart(currentPage, i - 1))
    {
      var item := NumberItem(currentPage, i);
      LinksHtmlSnoc(PrevPart(currentPage) + NumberPart(currentPage, i - 1), NumberEntry(currentPage, i));
      NumberStep(currentPage, i);
      links := links + [item];
    }
  }

  /** `_build_pagination`, link by link. */
  method BuildPagination(currentPage: int, totalPages: int) returns (html: string)
    ensures html == PaginationHtml(currentPage, totalPages)
  {
    if totalPages <= 1 {
      return "";
    }
    var links: seq<string> := [];
    if currentPage > 1 {
      var prev := PrevItem(currentPage);
      links := [prev];
    }
    assert links == LinksHtml(PrevPart(currentPage));
    links := AppendNumbers(currentPage, totalPages, links);
    ghost var numbered := PrevPart(currentPage) + NumberPart(currentPage, totalPages);
    if currentPage < totalPages {
      LinksHtmlSnoc(numbered, NextLink(currentPage + 1));
      links := links + [LinkHtml(NextLink(currentPage + 1))];
    } else {
      assert numbered + NextPart(currentPage, totalPages) == numbered;
    }
    html := "<div class=\"pagination\">" + Join(links, " ") + "</div>";
    PaginationHtmlOf(currentPage, totalPages, links);
  }
}
