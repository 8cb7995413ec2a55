/** The markdown renderer of the older engine in sync.py: `MarkdownGenerator`
    and its `CollectionGeneratorContext`. It differs from the newer one in
    the published test and link target of rows, in filtering no `None`
    rendering (a page root or column joins them and raises TypeError,
    `indent_children` calls `.replace` on them and raises AttributeError),
    in the column-list wrapper, in the image alt text and in having no
    divider branch. The CollectionView branch of the source has an empty
    body, which Python rejects; it is modelled as giving no output. */
module LegacyMarkdown {
  import opened Python
  import opened Strings
  import opened Notion
  import opened Markdown
  import RowMeta
  import LegacyMeta

  /** What the renderer consults: the id of the root collection, and the day
      `date.today()` returns while the page is rendered. */
  datatype Context = Context(rootCollectionId: string, today: Date)

  /** `contains_row`: the block is in the root collection, is a row block
      (always so for a row) and is published by the older test. */
  function ContainsRow(ctx: Context, row: Row): bool
  {
    row.collectionId == ctx.rootCollectionId && LegacyMeta.IsRowPublished(row, ctx.today)
  }

  /** `get_block_url`: "./" and the slug; for an undated row the slug is
      None and the concatenation raises TypeError. */
  function GetBlockUrl(row: Row): Result<string>
  {
    match LegacyMeta.GetRowLinkSlug(row)
    case None => Raise(TypeError)
    case Some(slug) => Ok("./" + slug)
  }

  /** The link a non-root row renders to, or "" when the context does not
      contain it. The title is decorated with the icon as in the newer one. */
  function RowLink(ctx: Context, row: Row): Rendered
  {
    if !ContainsRow(ctx, row) then Markdown("")
    else
      match GetBlockUrl(row)
      case Raise(e) => Raised(e)
      case Ok(url) => Markdown("[" + RowMeta.GetDecoratedRowTitle(row) + "](" + url + ")")
  }

  /** What stops `indent_children`'s comprehension, which renders and
      indents the children one at a time: the first child that raises, or
      that renders to `None`, on which `.replace` raises AttributeError. */
  function FirstFailure(rs: seq<Rendered>): (r: Option<Exception>)
    ensures r.None? <==> forall i :: 0 <= i < |rs| ==> rs[i].Markdown?
  {
    if rs == [] then None
    else if rs[0].Raised? then Some(rs[0].error)
    else if rs[0].NoOutput? then Some(AttributeError)
    else
      var r := FirstFailure(rs[1..]);
      assert forall i :: 1 <= i < |rs| ==> rs[i] == rs[1..][i - 1];
      r
  }

  /** `get_markdown_from_page(block, is_page_root)` of sync.py. Only a
      CollectionView gives no output. */
  function Render(ctx: Context, b: Block, isPageRoot: bool): (r: Rendered)
    decreases b, 1
    ensures r.NoOutput? <==> b.CollectionView?
  {
    match b
    case CollectionRow(row) =>
      if isPageRoot then Wrap("", JoinEvery("\n\n", RenderAll(ctx, row.children)), "")
      else RowLink(ctx, row)
    case Text(title) => Markdown(title)
    case Header(title) => Markdown("# " + title)
    case Subheader(title) => Markdown("## " + title)
    case SubSubHeader(markdownTitle) => Markdown("### " + markdownTitle)
    case BulletedList(title, children) => Wrap("- " + title + "\n", IndentChildren(ctx, children), "")
    case NumberedList(title, children) => Wrap("1. " + title + "\n", IndentChildren(ctx, children), "")
    case ColumnList(children) =>
      Wrap("<section style=\"display:flex;\">\n", JoinEvery("\n", RenderAll(ctx, children)), "\n</section>")
    case Column(columnRatio, children) =>
      Wrap("<section style=\"flex: " + columnRatio + "\">\n", JoinEvery("\n", RenderAll(ctx, children)), "\n</section>")
    case Image(source, sourceBasename) => Markdown("![" + sourceBasename + "](" + source + ")")
    case Code(language, source) => Markdown("```" + language + "\n" + source + "\n```")
    case Quote(title) => Markdown("> " + Join("\n> ", Split(title, '\n')))
    case Todo(checked, title, children) =>
      Wrap("[" + (if checked then "x" else " ") + "] " + title + "\n", IndentChildren(ctx, children), "")
    case Divider(repr) => Markdown(repr)
    case CollectionView => NoOutput
    case Unknown(repr) => Markdown(repr)
  }

  /** The renderings of a list of children, none of them a page root. */
  function RenderAll(ctx: Context, children: seq<Block>): (rs: seq<Rendered>)
    decreases children, 0
    ensures |rs| == |children|
  {
    seq(|children|, i requires 0 <= i < |children| => Render(ctx, children[i], false))
  }

  /** `indent_children` of sync.py: every child is rendered and indented in
      turn, with no filtering, and the results are concatenated with no
      separator. */
  function IndentChildren(ctx: Context, children: seq<Block>): Result<string>
    decreases children, 2
  {
    var rs := RenderAll(ctx, children);
    match FirstFailure(rs)
    case Some(e) => Raise(e)
    case None => Ok(Concat(IndentedTexts(Texts(rs))))
  }

  // ----- properties -----

  /** A row below the page root renders to "" unless the context contains
      it, and then to a link to "./" and its dated slug: a contained row is
      published, so it has a date and the slug is never None here. */
  lemma NonRootRowIsLink(ctx: Context, row: Row)
    ensures !ContainsRow(ctx, row) ==> Render(ctx, CollectionRow(row), false) == Markdown("")
    ensures ContainsRow(ctx, row) <==> Render(ctx, CollectionRow(row), false).Markdown?
                                        && Render(ctx, CollectionRow(row), false).text != ""
    ensures ContainsRow(ctx, row) ==>
              var d := RowMeta.GetRowPublishDate(row).value;
              Render(ctx, CollectionRow(row), false) ==
                Markdown("[" + RowMeta.GetDecoratedRowTitle(row) + "](./"
                         + RowMeta.DateSlug(d) + "-" + Replace(row.title, ' ', "-") + ")")
  {
    assert Render(ctx, CollectionRow(row), false) == RowLink(ctx, row);
    if ContainsRow(ctx, row) {
      var d := RowMeta.GetRowPublishDate(row).value;
      LegacyMeta.DatedSlugShape(row);
      var title, rest := RowMeta.GetDecoratedRowTitle(row), RowMeta.DateSlug(d) + "-" + Replace(row.title, ' ', "-");
      assert GetBlockUrl(row) == Ok("./" + rest);
      LinkTextAssoc(title, rest);
    }
  }

  lemma LinkTextAssoc(title: string, rest: string)
    ensures "[" + title + "](" + ("./" + rest) + ")" == "[" + title + "](./" + rest + ")"
    ensures ("[" + title + "](" + ("./" + rest) + ")")[0] == '['
  {
    assert "](" + "./" == "](./";
  }

  /** An undated row in the root collection is never contained, so the
      TypeError of `get_block_url` cannot be reached from a rendering. */
  lemma UndatedRowIsNoLink(ctx: Context, row: Row)
    requires RowMeta.GetRowPublishDate(row).None?
    ensures GetBlockUrl(row) == Raise(TypeError)
    ensures Render(ctx, CollectionRow(row), false) == Markdown("")
  {
  }

  /** A page root joins every child rendering with blank lines, with no
      filtering: it raises TypeError when a child is a CollectionView (and no
      child raised), and otherwise gives one piece per child, empty links
      included. */
  lemma PageRootJoinsEveryChild(ctx: Context, row: Row)
    requires forall i :: 0 <= i < |row.children| ==> !Render(ctx, row.children[i], false).Raised?
    ensures var r := Render(ctx, CollectionRow(row), true);
            r == Raised(TypeError) <==> CollectionView in row.children
    ensures var r := Render(ctx, CollectionRow(row), true);
            CollectionView !in row.children ==>
              var ts := Texts(RenderAll(ctx, row.children));
              r == Markdown(Join("\n\n", ts)) && |ts| == |row.children|
              && forall i :: 0 <= i < |row.children| ==> ts[i] == Render(ctx, row.children[i], false).text
  {
    var rs := RenderAll(ctx, row.children);
    assert FirstRaised(rs).None?;
    if CollectionView in row.children {
      var i :| 0 <= i < |row.children| && row.children[i] == CollectionView;
      assert rs[i] == NoOutput;
    } else {
      assert forall i :: 0 <= i < |rs| ==> rs[i].Markdown?;
      assert NoOutput !in rs;
    }
  }

  /** The newer renderer drops the CollectionView that makes the older page
      root raise. */
  lemma CollectionViewOnlyBreaksLegacyPageRoot(lctx: Context, ctx: Markdown.Context, title: string)
    ensures var row := Row("r", "t", None, "c", [], map[], [Text(title), CollectionView]);
            Render(lctx, CollectionRow(row), true) == Raised(TypeError)
            && Markdown.Render(ctx, CollectionRow(row), true) == Markdown(title)
  {
    var row := Row("r", "t", None, "c", [], map[], [Text(title), CollectionView]);
    PageRootJoinsEveryChild(lctx, row);
    assert CollectionView in row.children;
    var rs := Markdown.RenderAll(ctx, row.children);
    assert row.children[0] == Text(title) && row.children[1] == CollectionView;
    assert Markdown.Render(ctx, Text(title), false) == Markdown(title);
    assert rs[0] == Markdown(title) && rs[1] == NoOutput;
    assert rs == [Markdown(title), NoOutput];
    assert FirstRaised(rs).None?;
    TextsCons(Markdown(title), [NoOutput]);
    assert [Markdown(title)] + [NoOutput] == rs;
    assert Texts([NoOutput]) == [] by {
      TextsCons(NoOutput, []);
      assert [NoOutput] + [] == [NoOutput];
    }
    assert Texts(rs) == [title];
    assert Join("\n\n", [title]) == title;
  }

  /** `indent_children` stops at the first child that raises or gives no
      output; a CollectionView child, with no failure before it, makes it
      raise AttributeError, and so does the list item around it. */
  lemma IndentCollectionViewRaises(ctx: Context, title: string, children: seq<Block>, i: nat)
    requires i < |children| && children[i] == CollectionView
    requires forall j :: 0 <= j < i ==> Render(ctx, children[j], false).Markdown?
    ensures IndentChildren(ctx, children) == Raise(AttributeError)
    ensures Render(ctx, BulletedList(title, children), false) == Raised(AttributeError)
  {
    var rs := RenderAll(ctx, children);
    FirstFailureAt(rs, i);
  }

  lemma {:induction false} FirstFailureAt(rs: seq<Rendered>, i: nat)
    requires i < |rs| && rs[i].NoOutput? && forall j :: 0 <= j < i ==> rs[j].Markdown?
    ensures FirstFailure(rs) == Some(AttributeError)
  {
    if i > 0 {
      assert rs[1..][i - 1] == rs[i];
      FirstFailureAt(rs[1..], i - 1);
    }
  }

  /** Indenting one child that renders to `s` puts "  " at the start of each
      of its lines: the newlines are kept and the length grows by two per
      line. */
  lemma IndentSingleChild(ctx: Context, child: Block)
    requires Render(ctx, child, false).Markdown?
    ensures var s := Render(ctx, child, false).text;
            IndentChildren(ctx, [child]) == Ok(PrefixLines("  ", s))
            && Count(PrefixLines("  ", s), '\n') == Count(s, '\n')
            && |PrefixLines("  ", s)| == |s| + 2 * (Count(s, '\n') + 1)
  {
    var s := Render(ctx, child, false).text;
    var rs := RenderAll(ctx, [child]);
    assert rs == [Markdown(s)];
    assert Texts(rs) == [s];
    assert IndentedTexts([s]) == [PrefixLines("  ", s)];
    assert Concat([PrefixLines("  ", s)]) == PrefixLines("  ", s);
    PrefixLinesCount("  ", s);
  }

  /** The leaf kinds whose rendering the two engines share: text, headers,
      code, quotes and unknown blocks render alike. */
  lemma SharedLeavesAgree(lctx: Context, ctx: Markdown.Context, b: Block)
    requires b.Text? || b.Header? || b.Subheader? || b.SubSubHeader? || b.Code? || b.Quote? || b.Unknown?
    ensures Render(lctx, b, false) == Markdown.Render(ctx, b, false)
  {
  }

  /** The leaf kinds that differ: the image's alt text is the base name of
      its source (empty in the newer engine), and a divider renders as
      `str(block)` (the newer engine writes "---\n"). */
  lemma DifferingLeaves(lctx: Context, ctx: Markdown.Context, source: string, sourceBasename: string, repr: string)
    ensures Render(lctx, Image(source, sourceBasename), false) == Markdown("![" + sourceBasename + "](" + source + ")")
    ensures Markdown.Render(ctx, Image(source, sourceBasename), false) == Markdown("![](" + source + ")")
    ensures Render(lctx, Divider(repr), false) == Markdown(repr)
    ensures Markdown.Render(ctx, Divider(repr), false) == Markdown("---\n")
  {
  }

  /** A column list wraps its children, joined by newlines, in a flex
      section without the newer engine's class attribute. */
  lemma ColumnListWrapper(ctx: Context, children: seq<Block>)
    requires forall i :: 0 <= i < |children| ==> Render(ctx, children[i], false).Markdown?
    ensures Render(ctx, ColumnList(children), false) ==
            Markdown("<section style=\"display:flex;\">\n" + Join("\n", Texts(RenderAll(ctx, children))) + "\n</section>")
  {
    var rs := RenderAll(ctx, children);
    assert FirstRaised(rs).None?;
    assert NoOutput !in rs by {
      assert forall i :: 0 <= i < |rs| ==> rs[i].Markdown?;
    }
  }
}
