/** The markdown renderer of notion_sync/__main__.py: `MarkdownGenerator`
    (`get_markdown_from_page`, `indent_children`) and the
    `CollectionGeneratorContext` it consults for links between rows. */
module Markdown {
  import opened Python
  import opened Strings
  import opened Notion
  import opened RowMeta

  /** `CollectionGeneratorContext`: what it reads of its collection generator,
      the id of the root collection. */
  datatype Context = Context(rootCollectionId: string)

  /** `contains_row`: the row is in the root collection and published. The
      `and` short-circuits, so the published test, and the TypeError it can
      raise, is only reached for rows of the root collection. */
  function ContainsRow(ctx: Context, row: Row): (r: Result<bool>)
    ensures r == Ok(true) <==> row.collectionId == ctx.rootCollectionId && IsRowPublished(row) == Ok(true)
    ensures r.Raise? <==> row.collectionId == ctx.rootCollectionId && IsRowPublished(row).Raise?
  {
    if row.collectionId != ctx.rootCollectionId then Ok(false) else IsRowPublished(row)
  }

  /** `get_block_url`. */
  function GetBlockUrl(row: Row): string
  {
    "/posts/" + GetRowLinkSlug(row)
  }

  /** What rendering one block gives: markdown text, Python `None` (the
      CollectionView branch falls off the end), or an exception. */
  datatype Rendered = Markdown(text: string) | NoOutput | Raised(error: Exception)

  /** The exception of the first rendering that raised, if any: the children
      are rendered left to right and the first exception propagates. */
  function FirstRaised(rs: seq<Rendered>): (r: Option<Exception>)
    ensures r.None? <==> forall i :: 0 <= i < |rs| ==> !rs[i].Raised?
  {
    if rs == [] then None
    else if rs[0].Raised? then Some(rs[0].error)
    else FirstRaised(rs[1..])
  }

  /** `[md for md in rs if md is not None]`: the texts, in order, with the
      `None`s dropped and the empty strings kept. */
  function Texts(rs: seq<Rendered>): (ts: seq<string>)
    ensures forall t :: t in ts <==> Markdown(t) in rs
    ensures (forall i :: 0 <= i < |rs| ==> rs[i].Markdown?) ==>
              |ts| == |rs| && forall i :: 0 <= i < |rs| ==> ts[i] == rs[i].text
  {
    if rs == [] then []
    else
      var rest := Texts(rs[1..]);
      assert forall t :: Markdown(t) in rs <==> Markdown(t) == rs[0] || Markdown(t) in rs[1..];
      var ts := if rs[0].Markdown? then [rs[0].text] + rest else rest;
      assert forall t :: t in ts <==> t in rest || (rs[0].Markdown? && t == rs[0].text);
      assert rs[0].Markdown? ==> forall i :: 1 <= i < |ts| ==> ts[i] == rest[i - 1];
      ts
  }

  /** `sep.join` of the texts with the `None`s filtered out, once every
      rendering has been computed. */
  function JoinKept(sep: string, rs: seq<Rendered>): Result<string>
  {
    match FirstRaised(rs)
    case Some(e) => Raise(e)
    case None => Ok(Join(sep, Texts(rs)))
  }

  /** `sep.join` of every rendering with no filtering: joining a `None` is a
      TypeError. */
  function JoinEvery(sep: string, rs: seq<Rendered>): Result<string>
  {
    match FirstRaised(rs)
    case Some(e) => Raise(e)
    case None => if NoOutput in rs then Raise(TypeError) else Ok(Join(sep, Texts(rs)))
  }

  /** Each text with "  " at its start and after every newline. */
  function IndentedTexts(ts: seq<string>): (r: seq<string>)
    ensures |r| == |ts|
  {
    seq(|ts|, i requires 0 <= i < |ts| => PrefixLines("  ", ts[i]))
  }

  /** `before + s + after` around a text that may instead have raised. */
  function Wrap(before: string, r: Result<string>, after: string): Rendered
  {
    match r
    case Ok(s) => Markdown(before + s + after)
    case Raise(e) => Raised(e)
  }

  /** The link a non-root row renders to, or "" when the context does not
      contain it. */
  function RowLink(ctx: Context, row: Row): Rendered
  {
    match ContainsRow(ctx, row)
    case Raise(e) => Raised(e)
    case Ok(contained) =>
      if !contained then Markdown("")
      else Markdown("[" + GetDecoratedRowTitle(row) + "](" + GetBlockUrl(row) + ")")
  }

  /** `get_markdown_from_page(block, is_page_root)`. Only a CollectionView gives
      no output. */
  function Render(ctx: Context, b: Block, isPageRoot: bool): (r: Rendered)
    decreases b, 1
    ensures r.NoOutput? <==> b.CollectionView?
  {
    match b
    case CollectionRow(row) =>
      if isPageRoot then Wrap("", JoinKept("\n\n", RenderAll(ctx, row.children)), "")
      else RowLink(ctx, row)
    case Text(title) => Markdown(title)
    case Header(title) => Markdown("# " + title)
    case Subheader(title) => Markdown("## " + title)
    case SubSubHeader(markdownTitle) => Markdown("### " + markdownTitle)
    case BulletedList(title, children) => Wrap("- " + title + "\n", IndentChildren(ctx, children), "")
    case NumberedList(title, children) => Wrap("1. " + title + "\n", IndentChildren(ctx, children), "")
    case ColumnList(children) =>
      Wrap("<section class=\"columnSplit\" style=\"display:flex;\">\n", JoinEvery("\n", RenderAll(ctx, children)), "\n</section>")
    case Column(columnRatio, children) =>
      Wrap("<section style=\"flex: " + columnRatio + "\">\n", JoinEvery("\n", RenderAll(ctx, children)), "\n</section>")
    case Image(source, _) => Markdown("![](" + source + ")")
    case Code(language, source) => Markdown("```" + language + "\n" + source + "\n```")
    case Quote(title) => Markdown("> " + Join("\n> ", Split(title, '\n')))
    case Todo(checked, title, children) =>
      Wrap("[" + (if checked then "x" else " ") + "] " + title + "\n", IndentChildren(ctx, children), "")
    case Divider(_) => Markdown("---\n")
    case CollectionView => NoOutput
    case Unknown(repr) => Markdown(repr)
  }

  /** The renderings of a list of children, none of them a page root. */
  function RenderAll(ctx: Context, children: seq<Block>): (rs: seq<Rendered>)
    decreases children, 0
    ensures |rs| == |children|
  {
    seq(|children|, i requires 0 <= i < |children| => Render(ctx, children[i], false))
  }

  /** `indent_children`: every child is rendered, the `None`s are dropped, and
      the rest are indented and concatenated with no separator. */
  function IndentChildren(ctx: Context, children: seq<Block>): Result<string>
    decreases children, 2
  {
    var rs := RenderAll(ctx, children);
    match FirstRaised(rs)
    case Some(e) => Raise(e)
    case None => Ok(Concat(IndentedTexts(Texts(rs))))
  }

  // ----- properties -----

  /** A page root renders to the renderings of its children that produced
      output, joined by blank lines; when no child is a CollectionView there is
      one piece per child, empty links included. */
  lemma PageRootJoinsChildren(ctx: Context, row: Row)
    requires forall i :: 0 <= i < |row.children| ==> !Render(ctx, row.children[i], false).Raised?
    ensures var r := Render(ctx, CollectionRow(row), true);
            r.Markdown? && r.text == Join("\n\n", Texts(RenderAll(ctx, row.children)))
    ensures var ts := Texts(RenderAll(ctx, row.children));
            (forall i :: 0 <= i < |row.children| ==> !row.children[i].CollectionView?) ==>
              |ts| == |row.children| && forall i :: 0 <= i < |row.children| ==> ts[i] == Render(ctx, row.children[i], false).text
  {
    var rs := RenderAll(ctx, row.children);
    assert FirstRaised(rs).None?;
  }

  /** A page root raises exactly when one of its children raises, and then
      with the first child's exception. */
  lemma PageRootRaises(ctx: Context, row: Row)
    ensures var r := Render(ctx, CollectionRow(row), true);
            r.Raised? <==> exists i :: 0 <= i < |row.children| && Render(ctx, row.children[i], false).Raised?
  {
    var rs := RenderAll(ctx, row.children);
    if exists i :: 0 <= i < |row.children| && Render(ctx, row.children[i], false).Raised? {
      var i :| 0 <= i < |row.children| && Render(ctx, row.children[i], false).Raised?;
      assert rs[i].Raised?;
    }
  }

  /** A row below the page root renders to a link exactly when the context
      contains it, and to "" when it does not. The link text is the decorated
      title and the target is "/posts/" and the slug. */
  lemma NonRootRowIsLink(ctx: Context, row: Row)
    requires var date := GetRowPublishDate(row); date.Some? ==> ValidDate(date.value)
    ensures var r := Render(ctx, CollectionRow(row), false);
            ContainsRow(ctx, row) == Ok(false) ==> r == Markdown("")
    ensures var r := Render(ctx, CollectionRow(row), false);
            ContainsRow(ctx, row) == Ok(true) <==> r.Markdown? && r.text != ""
    ensures var r := Render(ctx, CollectionRow(row), false);
            ContainsRow(ctx, row) == Ok(true) ==>
              r.text == "[" + GetDecoratedRowTitle(row) + "](/posts/"
                        + DatePart(GetRowPublishDate(row)) + "-" + Replace(row.title, ' ', "-") + ")"
  {
    assert Render(ctx, CollectionRow(row), false) == RowLink(ctx, row);
    RowLinkText(ctx, row);
  }

  lemma RowLinkText(ctx: Context, row: Row)
    requires var date := GetRowPublishDate(row); date.Some? ==> ValidDate(date.value)
    ensures ContainsRow(ctx, row) == Ok(false) ==> RowLink(ctx, row) == Markdown("")
    ensures ContainsRow(ctx, row) == Ok(true) <==> RowLink(ctx, row).Markdown? && RowLink(ctx, row).text != ""
    ensures ContainsRow(ctx, row) == Ok(true) ==>
              RowLink(ctx, row).text == "[" + GetDecoratedRowTitle(row) + "](/posts/"
                        + DatePart(GetRowPublishDate(row)) + "-" + Replace(row.title, ' ', "-") + ")"
  {
    var c := ContainsRow(ctx, row);
    if c == Ok(true) {
      LinkSlugShape(row);
      var title, slug := GetDecoratedRowTitle(row), GetRowLinkSlug(row);
      var text := "[" + title + "](" + GetBlockUrl(row) + ")";
      assert RowLink(ctx, row) == Markdown(text);
      assert text[0] == '[';
      LinkTextAssoc(title, DatePart(GetRowPublishDate(row)), Replace(row.title, ' ', "-"));
    }
  }

  lemma LinkTextAssoc(title: string, datePart: string, rest: string)
    ensures "[" + title + "](" + ("/posts/" + (datePart + "-" + rest)) + ")"
            == "[" + title + "](/posts/" + datePart + "-" + rest + ")"
  {
    assert "](" + "/posts/" == "](/posts/";
  }

  /** The link target holds no space: every space of the title became "-". */
  lemma BlockUrlHasNoSpace(row: Row)
    requires var date := GetRowPublishDate(row); date.Some? ==> ValidDate(date.value)
    ensures ' ' !in GetBlockUrl(row)
    ensures GetBlockUrl(row)[..7] == "/posts/" && GetBlockUrl(row)[17] == '-'
  {
    LinkSlugShape(row);
  }

  /** The fixed prefixes of the leaf kinds: each kind's marker followed by its
      text, which is kept as it is. */
  lemma LeafKindPrefixes(ctx: Context, title: string, checked: bool, repr: string)
    ensures Render(ctx, Header(title), false).text[2..] == title && Render(ctx, Header(title), false).text[..2] == "# "
    ensures Render(ctx, Subheader(title), false).text[3..] == title && Render(ctx, Subheader(title), false).text[..3] == "## "
    ensures Render(ctx, SubSubHeader(title), false).text[4..] == title && Render(ctx, SubSubHeader(title), false).text[..4] == "### "
    ensures Render(ctx, Todo(checked, title, []), false) == Markdown((if checked then "[x] " else "[ ] ") + title + "\n")
    ensures Render(ctx, Divider(repr), false) == Markdown("---\n")
    ensures Render(ctx, Unknown(repr), false) == Markdown(repr)
  {
    assert IndentChildren(ctx, []) == Ok("") by {
      assert RenderAll(ctx, []) == [];
    }
    var mark := if checked then "x" else " ";
    assert Render(ctx, Todo(checked, title, []), false) == Markdown("[" + mark + "] " + title + "\n" + "" + "");
    assert "[" + mark + "] " == (if checked then "[x] " else "[ ] ");
  }

  /** A bulleted item, a numbered item and a to-do render as their marker
      ("- ", "1. ", "[x] " or "[ ] "), the title, a newline and the indented
      children, whatever the title and the children; when a child raises, so
      does the item. */
  lemma ListItems(ctx: Context, title: string, checked: bool, children: seq<Block>)
    ensures var ic := IndentChildren(ctx, children);
            Render(ctx, BulletedList(title, children), false)
              == if ic.Ok? then Markdown("- " + title + "\n" + ic.value) else Raised(ic.error)
    ensures var ic := IndentChildren(ctx, children);
            Render(ctx, NumberedList(title, children), false)
              == if ic.Ok? then Markdown("1. " + title + "\n" + ic.value) else Raised(ic.error)
    ensures var ic := IndentChildren(ctx, children);
            Render(ctx, Todo(checked, title, children), false)
              == if ic.Ok? then Markdown((if checked then "[x] " else "[ ] ") + title + "\n" + ic.value) else Raised(ic.error)
  {
    var mark := if checked then "x" else " ";
    assert "[" + mark + "] " == (if checked then "[x] " else "[ ] ");
    var ic := IndentChildren(ctx, children);
    if ic.Ok? {
      assert "- " + title + "\n" + ic.value + "" == "- " + title + "\n" + ic.value;
      assert "1. " + title + "\n" + ic.value + "" == "1. " + title + "\n" + ic.value;
      assert "[" + mark + "] " + title + "\n" + ic.value + "" == (if checked then "[x] " else "[ ] ") + title + "\n" + ic.value;
    }
  }

  /** A quote keeps the lines of its body, each with "> " in front: the same
      number of lines, and two more characters per line. */
  lemma QuoteLines(ctx: Context, body: string)
    ensures var r := Render(ctx, Quote(body), false);
            r.Markdown? && r.text == PrefixLines("> ", body)
    ensures var r := Render(ctx, Quote(body), false);
            Split(r.text, '\n') == Prefixed("> ", Split(body, '\n'))
    ensures var r := Render(ctx, Quote(body), false);
            Count(r.text, '\n') == Count(body, '\n') && |r.text| == |body| + 2 * (Count(body, '\n') + 1)
  {
    JoinSplitIsReplace(body, '\n', "\n> ");
    assert "\n" + "> " == "\n> ";
    PrefixLinesSplit("> ", body);
    PrefixLinesCount("> ", body);
  }

  /** The lines of a code block whose language holds no newline are the
      opening fence with the language, the lines of the source, and the
      closing fence. */
  lemma CodeLines(ctx: Context, language: string, source: string)
    requires '\n' !in language
    ensures var r := Render(ctx, Code(language, source), false);
            r.Markdown? && Split(r.text, '\n') == ["```" + language] + Split(source, '\n') + ["```"]
  {
    var open, close := "```" + language, "```";
    assert "```" + language + "\n" + source + "\n```" == open + ['\n'] + (source + ['\n'] + close);
    SplitConcat(open, source + ['\n'] + close, '\n');
    SplitConcat(source, close, '\n');
    SplitWithoutSeparator(open, '\n');
    SplitWithoutSeparator(close, '\n');
  }

  /** Indenting one child that renders to `s` puts "  " at the start of each
      of its lines: the number of newlines is kept and the length grows by two
      per line. */
  lemma IndentSingleChild(ctx: Context, child: Block)
    requires Render(ctx, child, false).Markdown?
    ensures var s := Render(ctx, child, false).text;
            IndentChildren(ctx, [child]) == Ok(PrefixLines("  ", s))
    ensures var s := Render(ctx, child, false).text;
            Split(IndentChildren(ctx, [child]).value, '\n') == Prefixed("  ", Split(s, '\n'))
    ensures var s := Render(ctx, child, false).text;
            Count(IndentChildren(ctx, [child]).value, '\n') == Count(s, '\n')
            && |IndentChildren(ctx, [child]).value| == |s| + 2 * (Count(s, '\n') + 1)
  {
    var s := Render(ctx, child, false).text;
    var rs := RenderAll(ctx, [child]);
    assert rs == [Markdown(s)];
    assert Texts(rs) == [s];
    assert IndentedTexts([s]) == [PrefixLines("  ", s)];
    assert Concat([PrefixLines("  ", s)]) == PrefixLines("  ", s);
    PrefixLinesSplit("  ", s);
    PrefixLinesCount("  ", s);
  }

  lemma RenderAllCons(ctx: Context, first: Block, rest: seq<Block>)
    ensures RenderAll(ctx, [first] + rest) == [Render(ctx, first, false)] + RenderAll(ctx, rest)
  {
    var all := RenderAll(ctx, [first] + rest);
    var other := [Render(ctx, first, false)] + RenderAll(ctx, rest);
    assert |all| == |other|;
    forall i | 0 <= i < |all|
      ensures all[i] == other[i]
    {
      if i > 0 {
        assert ([first] + rest)[i] == rest[i - 1];
      }
    }
  }

  lemma TextsCons(r: Rendered, rs: seq<Rendered>)
    ensures Texts([r] + rs) == (if r.Markdown? then [r.text] else []) + Texts(rs)
  {
    assert ([r] + rs)[1..] == rs;
  }

  lemma IndentedTextsAppend(ts: seq<string>, us: seq<string>)
    ensures IndentedTexts(ts + us) == IndentedTexts(ts) + IndentedTexts(us)
  {
  }

  lemma ConcatAppend(ts: seq<string>, us: seq<string>)
    ensures Concat(ts + us) == Concat(ts) + Concat(us)
  {
    if ts == [] {
      assert ts + us == us;
    } else {
      assert (ts + us)[1..] == ts[1..] + us;
      ConcatAppend(ts[1..], us);
    }
  }

  /** Indenting splits over the children: the children that give output are
      indented one by one and concatenated in order, and a CollectionView child
      adds nothing. */
  lemma IndentChildrenAppend(ctx: Context, first: Block, rest: seq<Block>)
    requires IndentChildren(ctx, rest).Ok? && !Render(ctx, first, false).Raised?
    ensures var r := Render(ctx, first, false);
            IndentChildren(ctx, [first] + rest) ==
              Ok((if r.Markdown? then PrefixLines("  ", r.text) else "") + IndentChildren(ctx, rest).value)
  {
    var r := Render(ctx, first, false);
    var tail := RenderAll(ctx, rest);
    RenderAllCons(ctx, first, rest);
    var all := [r] + tail;
    assert all[1..] == tail;
    assert FirstRaised(tail).None?;
    assert FirstRaised(all).None?;
    TextsCons(r, tail);
    var head: seq<string> := if r.Markdown? then [r.text] else [];
    IndentedTextsAppend(head, Texts(tail));
    ConcatAppend(IndentedTexts(head), IndentedTexts(Texts(tail)));
    if r.Markdown? {
      assert IndentedTexts(head) == [PrefixLines("  ", r.text)];
      assert Concat(IndentedTexts(head)) == PrefixLines("  ", r.text);
    } else {
      assert IndentedTexts(head) == [];
    }
  }

  lemma PrefixListItem(c: char)
    requires c != '\n'
    ensures PrefixLines("  ", ['-', ' ', c, '\n']) == [' ', ' ', '-', ' ', c, '\n', ' ', ' ']
  {
    var s := ['-', ' ', c, '\n'];
    assert "\n" + "  " == "\n  ";
    assert s[1..] == [' ', c, '\n'] && s[1..][1..] == [c, '\n'] && s[1..][1..][1..] == ['\n'] && ['\n'][1..] == [];
    assert Replace(['\n'], '\n', "\n  ") == "\n  ";
    assert Replace([c, '\n'], '\n', "\n  ") == [c, '\n', ' ', ' '];
    assert Replace([' ', c, '\n'], '\n', "\n  ") == [' ', c, '\n', ' ', ' '];
    assert Replace(s, '\n', "\n  ") == ['-', ' ', c, '\n', ' ', ' '];
  }

  /** A one-character list item with no children, alone and indented. */
  lemma LeafItem(ctx: Context, c: char)
    requires c != '\n'
    ensures Render(ctx, BulletedList([c], []), false) == Markdown(['-', ' ', c, '\n'])
    ensures IndentChildren(ctx, [BulletedList([c], [])]) == Ok([' ', ' ', '-', ' ', c, '\n', ' ', ' '])
  {
    var item := BulletedList([c], []);
    assert IndentChildren(ctx, []) == Ok("") by {
      assert RenderAll(ctx, []) == [];
    }
    assert "- " + [c] + "\n" + "" == ['-', ' ', c, '\n'];
    assert Render(ctx, item, false) == Wrap("- " + [c] + "\n", IndentChildren(ctx, []), "");
    assert Render(ctx, item, false).text == ['-', ' ', c, '\n'];
    PrefixListItem(c);
    assert PrefixLines("  ", Render(ctx, item, false).text) == [' ', ' ', '-', ' ', c, '\n', ' ', ' '];
    IndentChildrenAppend(ctx, item, []);
    assert [item] + [] == [item];
    assert IndentChildren(ctx, [item]) == Ok([' ', ' ', '-', ' ', c, '\n', ' ', ' '] + "");
    assert [' ', ' ', '-', ' ', c, '\n', ' ', ' '] + "" == [' ', ' ', '-', ' ', c, '\n', ' ', ' '];
  }

  /** Indentation is not reset between siblings: a child that ends with a
      newline leaves "  " behind, so the next sibling starts two columns
      further in. The second item of a nested list lands four columns in. */
  lemma SiblingIndentDrift(ctx: Context)
    ensures Render(ctx, BulletedList("x", [BulletedList("a", []), BulletedList("b", [])]), false)
            == Markdown("- x\n  - a\n    - b\n  ")
  {
    var a, b := BulletedList("a", []), BulletedList("b", []);
    LeafItem(ctx, 'a');
    LeafItem(ctx, 'b');
    var ia, ib := "  - a\n  ", "  - b\n  ";
    assert PrefixLines("  ", Render(ctx, a, false).text) == ia by {
      PrefixListItem('a');
    }
    IndentChildrenAppend(ctx, a, [b]);
    assert [a] + [b] == [a, b];
    assert IndentChildren(ctx, [a, b]) == Ok(ia + ib);
    assert Render(ctx, BulletedList("x", [a, b]), false) == Wrap("- " + "x" + "\n", IndentChildren(ctx, [a, b]), "");
    DriftText();
  }

  lemma DriftText()
    ensures "- " + "x" + "\n" + ("  - a\n  " + "  - b\n  ") + "" == "- x\n  - a\n    - b\n  "
  {
    assert "  - a\n  " + "  - b\n  " == "  - a\n    - b\n  ";
    assert "- " + "x" + "\n" == "- x\n";
  }

  /** A column list or column with a CollectionView child raises TypeError
      unless an earlier child raised first: the source joins every
      child rendering, `None` included. */
  lemma ColumnWithCollectionViewRaises(ctx: Context, ratio: string, children: seq<Block>)
    requires CollectionView in children
    requires forall i :: 0 <= i < |children| ==> !Render(ctx, children[i], false).Raised?
    ensures Render(ctx, ColumnList(children), false) == Raised(TypeError)
    ensures Render(ctx, Column(ratio, children), false) == Raised(TypeError)
  {
    var rs := RenderAll(ctx, children);
    var i :| 0 <= i < |children| && children[i] == CollectionView;
    assert rs[i] == NoOutput;
    assert FirstRaised(rs).None?;
  }
}
