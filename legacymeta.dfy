/** The row-metadata helpers of the older engine in sync.py: the published
    test (an exact "Published" status and a publish date not after today),
    the slug (None for an undated row) and the front-matter (the plain title).
    The publish date is computed as in notion_sync/__main__.py, and the
    current date is a parameter. */
module LegacyMeta {
  import opened Python
  import opened Strings
  import opened Notion
  import RowMeta

  // ----- the published test -----

  /** `any([get_property(id) == 'Published' for each Status entry])`, from
      entry `i` on. The comparison is `==`, so a value of another type, or
      any other text, is simply not equal. */
  function PublishedStatusFrom(row: Row, i: nat): (r: bool)
    requires i <= |row.schema|
    decreases |row.schema| - i
    ensures r <==> exists k :: i <= k < |row.schema| && RowMeta.IsStatusEntry(row.schema[k])
                              && Prop(row, row.schema[k].id) == TextValue("Published")
  {
    if i == |row.schema| then false
    else
      (RowMeta.IsStatusEntry(row.schema[i]) && Prop(row, row.schema[i].id) == TextValue("Published"))
      || PublishedStatusFrom(row, i + 1)
  }

  /** `is_row_published`: a Status entry holds exactly "Published", and the
      row has a publish date that is not after today. */
  function IsRowPublished(row: Row, today: Date): (r: bool)
    ensures r <==>
              (exists k :: 0 <= k < |row.schema| && RowMeta.IsStatusEntry(row.schema[k])
                           && Prop(row, row.schema[k].id) == TextValue("Published"))
              && RowMeta.GetRowPublishDate(row).Some?
              && !Before(today, RowMeta.GetRowPublishDate(row).value)
  {
    var date := RowMeta.GetRowPublishDate(row);
    PublishedStatusFrom(row, 0) && date.Some? && !Before(today, date.value)
  }

  /** A row the older test publishes is published by the newer one too, once
      no Status value is a non-string: "Published" is a substring of itself.
      The converse fails, see `SubstringStatusPublishedOnlyByNewTest`. */
  lemma PublishedByBothTests(row: Row, today: Date)
    requires IsRowPublished(row, today)
    requires forall k :: 0 <= k < |row.schema| && RowMeta.IsStatusEntry(row.schema[k]) ==>
               Prop(row, row.schema[k].id).TextValue?
    ensures RowMeta.IsRowPublished(row) == Ok(true)
  {
    var k :| 0 <= k < |row.schema| && RowMeta.IsStatusEntry(row.schema[k])
             && Prop(row, row.schema[k].id) == TextValue("Published");
    assert IsSubstring(Prop(row, row.schema[k].id).text, "Published") by {
      assert "Published" <= "Published";
    }
  }

  /** A dated row whose Status is "Pub" passes the newer `in` test but not
      the older `==` test. */
  lemma SubstringStatusPublishedOnlyByNewTest(d: Date, today: Date)
    requires !Before(today, d)
    ensures var row := Row("r", "t", None, "c",
                           [SchemaEntry("s", "Status", "select"), SchemaEntry("p", "Publish Date", "date")],
                           map["s" := TextValue("Pub"), "p" := DateValue(d)], []);
            RowMeta.IsRowPublished(row) == Ok(true) && !IsRowPublished(row, today)
  {
    var row := Row("r", "t", None, "c",
                   [SchemaEntry("s", "Status", "select"), SchemaEntry("p", "Publish Date", "date")],
                   map["s" := TextValue("Pub"), "p" := DateValue(d)], []);
    assert "Pub" <= "Published";
    assert RowMeta.IsStatusEntry(row.schema[0]) && IsSubstring(Prop(row, row.schema[0].id).text, "Published");
    assert !RowMeta.IsStatusEntry(row.schema[1]);
    assert TextValue("Pub") != TextValue("Published");
  }

  // ----- slug -----

  /** `get_row_link_slug`: None for an undated row, otherwise the date and
      the pieces of the title split at single spaces, joined with "-". */
  function GetRowLinkSlug(row: Row): (r: Option<string>)
    ensures r.None? <==> RowMeta.GetRowPublishDate(row).None?
    ensures r.Some? ==> r.value == RowMeta.GetRowLinkSlug(row)
  {
    match RowMeta.GetRowPublishDate(row)
    case None => None
    case Some(d) => Some(Join("-", [RowMeta.DateSlug(d)] + Split(row.title, ' ')))
  }

  /** `"%s" % slug`: the slug, or "None" when there is none. */
  function SlugText(slug: Option<string>): string
  {
    match slug
    case None => "None"
    case Some(s) => s
  }

  /** A dated slug starts with the zero-padded date and a "-", and the rest
      is the title with its spaces turned into "-". */
  lemma DatedSlugShape(row: Row)
    requires RowMeta.GetRowPublishDate(row).Some?
    ensures var d := RowMeta.GetRowPublishDate(row).value;
            GetRowLinkSlug(row) == Some(RowMeta.DateSlug(d) + "-" + Replace(row.title, ' ', "-"))
  {
    var d := RowMeta.GetRowPublishDate(row).value;
    var pieces := Split(row.title, ' ');
    assert ([RowMeta.DateSlug(d)] + pieces)[1..] == pieces;
    JoinSplitIsReplace(row.title, ' ', "-");
  }

  // ----- front-matter -----

  /** `get_post_meta`: the plain title, never decorated with the icon, and
      the tags of every "Tags" multi_select entry. */
  function GetPostMeta(row: Row): string
  {
    "---\ntitle: " + row.title + "\ntags: " + Join(", ", RowMeta.Tags(row)) + "\n---"
  }

  /** The older front-matter is the newer one for a row without an icon, and
      ignores the icon otherwise. */
  lemma PostMetaIgnoresIcon(row: Row)
    ensures GetPostMeta(row) == RowMeta.GetPostMeta(row.(icon := None))
    ensures forall icon :: GetPostMeta(row.(icon := icon)) == GetPostMeta(row)
  {
    assert RowMeta.Tags(row.(icon := None)) == RowMeta.Tags(row) by {
      RowMeta.TagsIgnoreIcon(row, None);
    }
    forall icon
      ensures GetPostMeta(row.(icon := icon)) == GetPostMeta(row)
    {
      RowMeta.TagsIgnoreIcon(row, icon);
    }
  }

  /** The front-matter has four lines: the fences, the plain title and the
      comma-joined tags; the tags line is there even when there are none. */
  lemma PostMetaLines(row: Row)
    requires '\n' !in row.title && '\n' !in Join(", ", RowMeta.Tags(row))
    ensures Split(GetPostMeta(row), '\n') ==
            ["---", "title: " + row.title, "tags: " + Join(", ", RowMeta.Tags(row)), "---"]
    ensures RowMeta.Tags(row) == [] ==> Split(GetPostMeta(row), '\n')[2] == "tags: "
  {
    var a, b := "title: " + row.title, "tags: " + Join(", ", RowMeta.Tags(row));
    assert GetPostMeta(row) == "---\n" + a + "\n" + b + "\n---";
    RowMeta.FrontMatterSplit(a, b);
  }
}
