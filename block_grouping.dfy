/** `_render_blocks_to_html`: consecutive list items of the same kind are
    wrapped in one `<ul>` or `<ol>`; every other block stands on its own. */
module BlockGrouping {
  import opened Wrappers
  import opened Text

  /** A Notion block: its `type` (absent when the dictionary has none) and
      the rest of the dictionary, which only the block renderer reads. */
  datatype Block = Block(blockType: Option<string>, body: string)

  datatype ListTag = Ul | Ol

  function TagName(t: ListTag): string {
    match t
    case Ul => "ul"
    case Ol => "ol"
  }

  /** The list a block belongs in, if it is a list item. */
  function ListKind(b: Block): Option<ListTag> {
    if b.blockType == Some("bulleted_list_item") then Some(Ul)
    else if b.blockType == Some("numbered_list_item") then Some(Ol)
    else None
  }

  /** A part of the page: a run of list items, or one other block. */
  datatype Segment = Run(tag: ListTag, items: seq<Block>) | Single(block: Block)

  /** One step of the grouping: a list item joins the last segment when
      that is a run of its kind, and starts a new run otherwise; any other
      block becomes a segment of its own. */
  function AddBlock(segs: seq<Segment>, b: Block): seq<Segment> {
    match ListKind(b)
    case None => segs + [Single(b)]
    case Some(t) =>
      if segs != [] && segs[|segs| - 1].Run? && segs[|segs| - 1].tag == t
      then segs[..|segs| - 1] + [Run(t, segs[|segs| - 1].items + [b])]
      else segs + [Run(t, [b])]
  }

  /** The grouping of a block list, built from the left. */
  function Groups(blocks: seq<Block>): seq<Segment> {
    if blocks == [] then [] else AddBlock(Groups(blocks[..|blocks| - 1]), blocks[|blocks| - 1])
  }

  /** The blocks of the segments, in order. */
  function Flatten(segs: seq<Segment>): seq<Block> {
    if segs == [] then [] else Flatten(segs[..|segs| - 1]) + Blocks(segs[|segs| - 1])
  }

  function Blocks(s: Segment): seq<Block> {
    match s
    case Run(_, items) => items
    case Single(b) => [b]
  }

  /** A run is non-empty and holds list items of its own kind only; a single
      block is not a list item. */
  predicate SegmentOk(s: Segment) {
    match s
    case Run(t, items) => items != [] && forall j :: 0 <= j < |items| ==> ListKind(items[j]) == Some(t)
    case Single(b) => ListKind(b).None?
  }

  /** Two neighbouring segments are not runs of the same kind. */
  predicate Separated(s: Segment, s': Segment) {
    !(s.Run? && s'.Run? && s.tag == s'.tag)
  }

  /** Every segment is well formed and each run is maximal. */
  predicate WellGrouped(segs: seq<Segment>) {
    && (forall i :: 0 <= i < |segs| ==> SegmentOk(segs[i]))
    && (forall i :: 0 <= i < |segs| - 1 ==> Separated(segs[i], segs[i + 1]))
  }

  lemma FlattenAppend(segs: seq<Segment>, s: Segment)
    ensures Flatten(segs + [s]) == Flatten(segs) + Blocks(s)
  {
    assert (segs + [s])[..|segs|] == segs;
  }

  lemma AddBlockFlatten(segs: seq<Segment>, b: Block)
    ensures Flatten(AddBlock(segs, b)) == Flatten(segs) + [b]
  {
    match ListKind(b)
    case None =>
      FlattenAppend(segs, Single(b));
    case Some(t) =>
      if segs != [] && segs[|segs| - 1].Run? && segs[|segs| - 1].tag == t {
        var front, last := segs[..|segs| - 1], segs[|segs| - 1];
        assert segs == front + [last];
        FlattenAppend(front, last);
        FlattenAppend(front, Run(t, last.items + [b]));
      } else {
        FlattenAppend(segs, Run(t, [b]));
      }
  }

  lemma AddBlockWellGrouped(segs: seq<Segment>, b: Block)
    requires WellGrouped(segs)
    ensures WellGrouped(AddBlock(segs, b))
  {
    var g := AddBlock(segs, b);
    match ListKind(b)
    case None =>
      assert g == segs + [Single(b)];
    case Some(t) =>
      if segs != [] && segs[|segs| - 1].Run? && segs[|segs| - 1].tag == t {
        var last := segs[|segs| - 1];
        assert g == segs[..|segs| - 1] + [Run(t, last.items + [b])];
        assert SegmentOk(last);
        forall i | 0 <= i < |g| ensures SegmentOk(g[i]) {
          if i < |g| - 1 {
            assert g[i] == segs[i];
          }
        }
        forall i | 0 <= i < |g| - 1 ensures Separated(g[i], g[i + 1]) {
          assert g[i] == segs[i];
          if i + 1 < |g| - 1 {
            assert g[i + 1] == segs[i + 1];
          } else {
            assert Separated(segs[i], last);
          }
        }
      } else {
        assert g == segs + [Run(t, [b])];
      }
  }

  /** Every block lands in exactly one segment, in input order. */
  lemma {:induction false} GroupsFlatten(blocks: seq<Block>)
    ensures Flatten(Groups(blocks)) == blocks
  {
    if blocks != [] {
      var init, b := blocks[..|blocks| - 1], blocks[|blocks| - 1];
      assert blocks == init + [b];
      GroupsFlatten(init);
      AddBlockFlatten(Groups(init), b);
    }
  }

  /** The segments are well grouped. */
  lemma {:induction false} GroupsWellGrouped(blocks: seq<Block>)
    ensures WellGrouped(Groups(blocks))
  {
    if blocks != [] {
      var init := blocks[..|blocks| - 1];
      GroupsWellGrouped(init);
      AddBlockWellGrouped(Groups(init), blocks[|blocks| - 1]);
    }
  }

  /** Every block lands in exactly one segment, in input order, and the
      segments are well grouped. */
  lemma GroupsFacts(blocks: seq<Block>)
    ensures Flatten(Groups(blocks)) == blocks
    ensures WellGrouped(Groups(blocks))
  {
    GroupsFlatten(blocks);
    GroupsWellGrouped(blocks);
  }

  /** The grouping of one more block of the input. */
  lemma GroupsPrefix(blocks: seq<Block>, i: nat)
    requires i < |blocks|
    ensures Groups(blocks[..i + 1]) == AddBlock(Groups(blocks[..i]), blocks[i])
  {
    assert blocks[..i + 1][..i] == blocks[..i];
  }

  lemma GroupsSnoc(blocks: seq<Block>, b: Block)
    ensures Groups(blocks + [b]) == AddBlock(Groups(blocks), b)
  {
    assert (blocks + [b])[..|blocks|] == blocks;
  }

  lemma RunStart(x: seq<Block>, front: seq<Segment>, t: ListTag, b: Block)
    requires Groups(x) == front
    requires front == [] || Separated(front[|front| - 1], Run(t, [b]))
    requires ListKind(b) == Some(t)
    ensures Groups(x + [b]) == front + [Run(t, [b])]
  {
    GroupsSnoc(x, b);
  }

  lemma RunExtend(y: seq<Block>, front: seq<Segment>, t: ListTag, run: seq<Block>, b: Block)
    requires Groups(y) == front + [Run(t, run)]
    requires ListKind(b) == Some(t)
    ensures Groups(y + [b]) == front + [Run(t, run + [b])]
  {
    GroupsSnoc(y, b);
    assert (front + [Run(t, run)])[..|front|] == front;
  }

  /** A run of items of one kind after a grouping that does not end in a
      run of that kind is grouped into one segment. */
  lemma {:induction false} GroupsRun(x: seq<Block>, front: seq<Segment>, t: ListTag, items: seq<Block>, k: nat)
    requires Groups(x) == front
    requires front == [] || Separated(front[|front| - 1], Run(t, items))
    requires forall j :: 0 <= j < |items| ==> ListKind(items[j]) == Some(t)
    requires 1 <= k <= |items|
    ensures Groups(x + items[..k]) == front + [Run(t, items[..k])]
  {
    var b := items[k - 1];
    var run := items[..k - 1];
    assert x + items[..k] == (x + run) + [b];
    assert items[..k] == run + [b];
    if k == 1 {
      assert x + run == x;
      RunStart(x, front, t, b);
    } else {
      GroupsRun(x, front, t, items, k - 1);
      RunExtend(x + run, front, t, run, b);
    }
  }

  /** The grouping is the only well-grouped segmentation of its blocks:
      regrouping the blocks of well-grouped segments gives them back. */
  lemma {:induction false} GroupsUnique(segs: seq<Segment>)
    requires WellGrouped(segs)
    ensures Groups(Flatten(segs)) == segs
  {
    if segs != [] {
      var front, last := segs[..|segs| - 1], segs[|segs| - 1];
      assert segs == front + [last];
      assert WellGrouped(front) by {
        forall i | 0 <= i < |front| - 1 ensures Separated(front[i], front[i + 1]) {
          assert front[i] == segs[i] && front[i + 1] == segs[i + 1];
        }
      }
      GroupsUnique(front);
      assert SegmentOk(last);
      match last
      case Single(b) =>
        GroupsSnoc(Flatten(front), b);
      case Run(t, items) =>
        assert front != [] ==> Separated(segs[|segs| - 2], segs[|segs| - 1]);
        GroupsRun(Flatten(front), front, t, items, |items|);
        assert items[..|items|] == items;
    }
  }

  /** Example: bulleted, bulleted, paragraph, bulleted gives a list of two,
      the paragraph, and a list of one. */
  lemma GroupsBulletsAroundParagraph(b1: Block, b2: Block, p: Block, b3: Block)
    requires ListKind(b1) == ListKind(b2) == ListKind(b3) == Some(Ul) && ListKind(p) == None
    ensures Groups([b1, b2, p, b3]) == [Run(Ul, [b1, b2]), Single(p), Run(Ul, [b3])]
  {
    assert Groups([b1]) == [Run(Ul, [b1])] by {
      GroupsSnoc([], b1);
      assert [] + [b1] == [b1];
    }
    assert Groups([b1, b2]) == [Run(Ul, [b1, b2])] by {
      GroupsSnoc([b1], b2);
      assert [b1] + [b2] == [b1, b2];
    }
    assert Groups([b1, b2, p]) == [Run(Ul, [b1, b2]), Single(p)] by {
      GroupsSnoc([b1, b2], p);
      assert [b1, b2] + [p] == [b1, b2, p];
    }
    GroupsSnoc([b1, b2, p], b3);
    assert [b1, b2, p] + [b3] == [b1, b2, p, b3];
  }

  /** Example: a bulleted item followed by a numbered one gives two lists. */
  lemma GroupsKindSwitch(b: Block, n: Block)
    requires ListKind(b) == Some(Ul) && ListKind(n) == Some(Ol)
    ensures Groups([b, n]) == [Run(Ul, [b]), Run(Ol, [n])]
  {
    GroupsSnoc([], b);
    assert [] + [b] == [b];
    assert Groups([b]) == [Run(Ul, [b])];
    GroupsSnoc([b], n);
    assert [b] + [n] == [b, n];
  }

  /** The renderer's output for each block of a run. */
  function RenderEach(blocks: seq<Block>, render: Block -> string): (r: seq<string>)
    ensures |r| == |blocks|
    ensures forall i :: 0 <= i < |blocks| ==> r[i] == render(blocks[i])
  {
    seq(|blocks|, i requires 0 <= i < |blocks| => render(blocks[i]))
  }

  /** `<ul>…</ul>` or `<ol>…</ol>` around the items' HTML, without separators. */
  function Wrap(t: ListTag, itemHtml: seq<string>): string {
    "<" + TagName(t) + ">" + Concat(itemHtml) + "</" + TagName(t) + ">"
  }

  function RenderSegment(s: Segment, render: Block -> string): string {
    match s
    case Run(t, items) => Wrap(t, RenderEach(items, render))
    case Single(b) => render(b)
  }

  function RenderSegments(segs: seq<Segment>, render: Block -> string): (r: seq<string>)
    ensures |r| == |segs|
    ensures forall i :: 0 <= i < |segs| ==> r[i] == RenderSegment(segs[i], render)
  {
    seq(|segs|, i requires 0 <= i < |segs| => RenderSegment(segs[i], render))
  }

  /** The grouping so far as the loop below holds it: the closed segments,
      then the open list when it has items. */
  function Open(closed: seq<Segment>, pending: seq<Block>, t: ListTag): seq<Segment> {
    if pending == [] then closed else closed + [Run(t, pending)]
  }

  /** An item of the open list's kind joins it. */
  lemma AddToOpen(closed: seq<Segment>, pending: seq<Block>, t: ListTag, b: Block)
    requires pending != [] && ListKind(b) == Some(t)
    ensures AddBlock(Open(closed, pending, t), b) == Open(closed, pending + [b], t)
  {
    assert (closed + [Run(t, pending)])[..|closed|] == closed;
  }

  /** An item of another kind, or with no list open, starts a new list. */
  lemma StartOpen(closed: seq<Segment>, pending: seq<Block>, t: ListTag, t': ListTag, b: Block)
    requires ListKind(b) == Some(t')
    requires pending != [] ==> t != t'
    requires pending == [] ==> closed == [] || closed[|closed| - 1].Single?
    ensures AddBlock(Open(closed, pending, t), b) == Open(Open(closed, pending, t), [b], t')
  {
  }

  /** Any other block closes the open list and stands on its own. */
  lemma AddOther(closed: seq<Segment>, pending: seq<Block>, t: ListTag, b: Block)
    requires ListKind(b).None?
    ensures AddBlock(Open(closed, pending, t), b) == Open(closed, pending, t) + [Single(b)]
  {
  }

  lemma RenderSegmentsSnoc(segs: seq<Segment>, s: Segment, render: Block -> string)
    ensures RenderSegments(segs + [s], render) == RenderSegments(segs, render) + [RenderSegment(s, render)]
  {
  }

  lemma RenderEachSnoc(blocks: seq<Block>, b: Block, render: Block -> string)
    ensures RenderEach(blocks + [b], render) == RenderEach(blocks, render) + [render(b)]
  {
  }

  /** `_render_blocks_to_html`: one pass over the blocks holding the open
      list's kind and its rendered items; the open list is closed when a
      block of another kind arrives and at the end. `render` stands for the
      block renderer. */
  method RenderBlocks(blocks: seq<Block>, render: Block -> string) returns (html: string)
    ensures html == Join(RenderSegments(Groups(blocks), render), "\n")
  {
    var parts: seq<string> := [];
    var currentType: Option<ListTag> := None;
    var currentItems: seq<string> := [];
    ghost var closed: seq<Segment> := [];
    ghost var pending: seq<Block> := [];
    for i := 0 to |blocks|
      invariant currentType.Some? <==> pending != []
      invariant Groups(blocks[..i]) == Open(closed, pending, currentType.GetOr(Ul))
      invariant pending == [] ==> closed == [] || closed[|closed| - 1].Single?
      invariant currentItems == RenderEach(pending, render)
      invariant parts == RenderSegments(closed, render)
    {
      var block := blocks[i];
      GroupsPrefix(blocks, i);
      ghost var tag := currentType.GetOr(Ul);
      var kind := ListKind(block);
      if kind.Some? {
        if currentType != kind {
          StartOpen(closed, pending, tag, kind.value, block);
          if currentType.Some? && currentItems != [] {
            parts := parts + [Wrap(currentType.value, currentItems)];
            RenderSegmentsSnoc(closed, Run(tag, pending), render);
            closed := closed + [Run(currentType.value, pending)];
            currentItems := [];
            pending := [];
          }
          currentType := kind;
        } else {
          AddToOpen(closed, pending, tag, block);
        }
        RenderEachSnoc(pending, block, render);
        assert pending == [] ==> pending + [block] == [block];
        currentItems := currentItems + [render(block)];
        pending := pending + [block];
      } else {
        AddOther(closed, pending, tag, block);
        if currentType.Some? && currentItems != [] {
          parts := parts + [Wrap(currentType.value, currentItems)];
          RenderSegmentsSnoc(closed, Run(tag, pending), render);
          closed := closed + [Run(currentType.value, pending)];
          currentItems := [];
          pending := [];
          currentType := None;
        }
        RenderSegmentsSnoc(closed, Single(block), render);
        parts := parts + [render(block)];
        closed := closed + [Single(block)];
      }
    }
    if currentType.Some? && currentItems != [] {
      RenderSegmentsSnoc(closed, Run(currentType.value, pending), render);
      parts := parts + [Wrap(currentType.value, currentItems)];
      closed := closed + [Run(currentType.value, pending)];
    }
    assert blocks[..|blocks|] == blocks;
    html := Join(parts, "\n");
  }
}
