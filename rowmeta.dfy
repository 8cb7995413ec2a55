/** The row-metadata helpers of notion_sync/__main__.py: the publish date, the
    derived status and its write-back, the published test, the slug, the
    decorated title and the front-matter. The current date is a parameter. */
module RowMeta {
  import opened Python
  import opened Strings
  import opened Notion

  // ----- publish date -----

  predicate IsPublishDateEntry(e: SchemaEntry)
  {
    e.name == "Publish Date" && e.propType == "date"
  }

  /** The date a schema entry contributes: the `start` of a non-None value of
      an entry named "Publish Date" of type "date", and nothing otherwise. The
      client library converts a date-typed property to a date or None. */
  function EntryDate(row: Row, e: SchemaEntry): Option<Date>
  {
    if IsPublishDateEntry(e) && Prop(row, e.id).DateValue? then Some(Prop(row, e.id).start) else None
  }

  /** The dates of the entries from index `i` on, in schema order. */
  function PublishDatesFrom(row: Row, i: nat): (ds: seq<Date>)
    requires i <= |row.schema|
    decreases |row.schema| - i
    ensures forall d :: d in ds <==> exists k :: i <= k < |row.schema| && EntryDate(row, row.schema[k]) == Some(d)
  {
    if i == |row.schema| then []
    else
      var rest := PublishDatesFrom(row, i + 1);
      match EntryDate(row, row.schema[i])
      case Some(d) => [d] + rest
      case None => rest
  }

  /** Python's `max` over dates. */
  function MaxDate(ds: seq<Date>): (m: Date)
    requires |ds| > 0
    ensures m in ds
    ensures forall k :: 0 <= k < |ds| ==> !Before(m, ds[k])
  {
    if |ds| == 1 then ds[0]
    else
      var m := MaxDate(ds[1..]);
      assert forall k :: 1 <= k < |ds| ==> ds[k] == ds[1..][k - 1];
      if Before(ds[0], m) then m else ds[0]
  }

  /** `get_row_publish_date`: None when no entry contributes a date, and
      otherwise the latest of the contributed dates. */
  function GetRowPublishDate(row: Row): (r: Option<Date>)
    ensures r.None? <==> forall k :: 0 <= k < |row.schema| ==> EntryDate(row, row.schema[k]).None?
    ensures r.Some? ==> exists k :: 0 <= k < |row.schema| && EntryDate(row, row.schema[k]) == r
    ensures r.Some? ==> forall k :: 0 <= k < |row.schema| && EntryDate(row, row.schema[k]).Some? ==>
                          !Before(r.value, EntryDate(row, row.schema[k]).value)
  {
    var dates := PublishDatesFrom(row, 0);
    if |dates| == 0 then
      None
    else
      var m := MaxDate(dates);
      assert forall k :: 0 <= k < |row.schema| && EntryDate(row, row.schema[k]).Some? ==>
               EntryDate(row, row.schema[k]).value in dates;
      Some(m)
  }

  // ----- status -----

  /** The three states a row's publish date puts it in. */
  datatype Status = Unpublished | Pending | Published

  /** The branches of `set_row_published_pending`: no date, a date after
      today, a date on or before today. */
  function Classify(date: Option<Date>, today: Date): Status
  {
    if date.None? then Unpublished
    else if Before(today, date.value) then Pending
    else Published
  }

  /** The value written to the Status property. */
  function StatusName(s: Status): string
  {
    match s
    case Unpublished => "Unpublished"
    case Pending => "Pending"
    case Published => "Published"
  }

  predicate IsStatusEntry(e: SchemaEntry)
  {
    e.name == "Status"
  }

  /** The ids of the schema entries named "Status". */
  function StatusIds(schema: seq<SchemaEntry>): set<string>
  {
    set k | 0 <= k < |schema| && IsStatusEntry(schema[k]) :: schema[k].id
  }

  predicate HasStatusEntry(row: Row)
  {
    exists k :: 0 <= k < |row.schema| && IsStatusEntry(row.schema[k])
  }

  /** `props` with every id in `ids` set to the text `value`. */
  function StatusWritten(props: map<string, Value>, ids: set<string>, value: string): map<string, Value>
  {
    map k | k in props.Keys + ids :: if k in ids then TextValue(value) else props[k]
  }

  /** The row after `set_row_status(row, value)`: every Status property holds
      `value`, every other property is as it was. */
  function WithStatus(row: Row, value: string): Row
  {
    row.(props := StatusWritten(row.props, StatusIds(row.schema), value))
  }

  /** The row after `set_row_published_pending(row)` on the given day. */
  function WithDerivedStatus(row: Row, today: Date): Row
  {
    WithStatus(row, StatusName(Classify(GetRowPublishDate(row), today)))
  }

  lemma StatusIdsStep(schema: seq<SchemaEntry>, i: nat)
    requires i < |schema|
    ensures StatusIds(schema[..i + 1]) ==
            StatusIds(schema[..i]) + (if IsStatusEntry(schema[i]) then {schema[i].id} else {})
  {
    var pre, post := schema[..i], schema[..i + 1];
    assert forall k :: 0 <= k < i ==> post[k] == pre[k];
    if IsStatusEntry(schema[i]) {
      assert post[i] == schema[i];
    }
  }

  lemma StatusWrittenAdd(props: map<string, Value>, ids: set<string>, id: string, value: string)
    ensures StatusWritten(props, ids, value)[id := TextValue(value)] == StatusWritten(props, ids + {id}, value)
  {
  }

  /** `set_row_status`: writes `value` to every schema entry named "Status",
      one entry at a time; with no such entry the row is unchanged. */
  method SetRowStatus(row: Row, value: string) returns (r: Row)
    ensures r == WithStatus(row, value)
  {
    r := row;
    var i := 0;
    while i < |row.schema|
      invariant 0 <= i <= |row.schema|
      invariant r == row.(props := StatusWritten(row.props, StatusIds(row.schema[..i]), value))
    {
      var entry := row.schema[i];
      StatusIdsStep(row.schema, i);
      if entry.name == "Status" {
        StatusWrittenAdd(row.props, StatusIds(row.schema[..i]), entry.id, value);
        r := r.(props := r.props[entry.id := TextValue(value)]);
      }
      i := i + 1;
    }
    assert row.schema[..i] == row.schema;
  }

  /** `set_row_published_pending`: classifies the row against `today` and
      writes the classification to its Status properties. Afterwards the
      published test holds exactly when the row has a Status entry and a
      publish date on or before today. */
  method SetRowPublishedPending(row: Row, today: Date) returns (r: Row)
    ensures r == WithDerivedStatus(row, today)
    ensures IsRowPublished(r) == Ok(HasStatusEntry(row) && Classify(GetRowPublishDate(row), today) == Published)
  {
    var publishDate := GetRowPublishDate(row);
    if publishDate.None? {
      r := SetRowStatus(row, "Unpublished");
    } else if Before(today, publishDate.value) {
      r := SetRowStatus(row, "Pending");
    } else {
      r := SetRowStatus(row, "Published");
    }
    PublishedAfterStatusWrite(row, StatusName(Classify(publishDate, today)));
    StatusNameInPublished(Classify(publishDate, today));
  }

  /** The property ids of a collection's schema are distinct. */
  predicate DistinctIds(schema: seq<SchemaEntry>)
  {
    forall j, k :: 0 <= j < k < |schema| ==> schema[j].id != schema[k].id
  }

  lemma {:induction false} PublishDatesFromSame(r1: Row, r2: Row, i: nat)
    requires r1.schema == r2.schema && i <= |r1.schema|
    requires forall k :: i <= k < |r1.schema| ==> EntryDate(r1, r1.schema[k]) == EntryDate(r2, r2.schema[k])
    decreases |r1.schema| - i
    ensures PublishDatesFrom(r1, i) == PublishDatesFrom(r2, i)
  {
    if i < |r1.schema| {
      assert PublishDatesFrom(r1, i + 1) == PublishDatesFrom(r2, i + 1) by {
        PublishDatesFromSame(r1, r2, i + 1);
      }
    }
  }

  /** Writing the status leaves the publish date alone: a Status entry and a
      Publish Date entry have different names, so different ids. */
  lemma StatusWriteKeepsPublishDate(row: Row, value: string)
    requires DistinctIds(row.schema)
    ensures GetRowPublishDate(WithStatus(row, value)) == GetRowPublishDate(row)
  {
    var w := WithStatus(row, value);
    forall k | 0 <= k < |row.schema|
      ensures EntryDate(w, w.schema[k]) == EntryDate(row, row.schema[k])
    {
      var e := row.schema[k];
      if IsPublishDateEntry(e) {
        assert forall j :: 0 <= j < |row.schema| && IsStatusEntry(row.schema[j]) ==> j != k && row.schema[j].id != e.id;
        assert e.id !in StatusIds(row.schema);
        assert Prop(w, e.id) == Prop(row, e.id);
      }
    }
    PublishDatesFromSame(w, row, 0);
  }

  /** `set_row_published_pending` is idempotent: run again on the same day it
      writes the same status. */
  lemma DerivedStatusIdempotent(row: Row, today: Date)
    requires DistinctIds(row.schema)
    ensures WithDerivedStatus(WithDerivedStatus(row, today), today) == WithDerivedStatus(row, today)
  {
    var v := StatusName(Classify(GetRowPublishDate(row), today));
    var w := WithStatus(row, v);
    StatusWriteKeepsPublishDate(row, v);
    StatusWrittenTwice(row.props, StatusIds(row.schema), v);
  }

  lemma StatusWrittenTwice(props: map<string, Value>, ids: set<string>, value: string)
    ensures StatusWritten(StatusWritten(props, ids, value), ids, value) == StatusWritten(props, ids, value)
  {
  }

  // ----- the published test -----

  /** `any([value in "Published" for each Status entry])`, from entry `i` on.
      The list is built first, so a Status value that is not a string raises
      TypeError even when an earlier entry matched. */
  function PublishedStatusFrom(row: Row, i: nat): (r: Result<bool>)
    requires i <= |row.schema|
    decreases |row.schema| - i
    ensures r.Raise? <==> exists k :: i <= k < |row.schema| && IsStatusEntry(row.schema[k]) && !Prop(row, row.schema[k].id).TextValue?
    ensures r.Raise? ==> r.error == TypeError
    ensures r == Ok(true) <==>
              r.Ok? && exists k :: i <= k < |row.schema| && IsStatusEntry(row.schema[k]) && Prop(row, row.schema[k].id).TextValue?
                                   && IsSubstring(Prop(row, row.schema[k].id).text, "Published")
  {
    if i == |row.schema| then Ok(false)
    else
      var rest := PublishedStatusFrom(row, i + 1);
      if !IsStatusEntry(row.schema[i]) then rest
      else match Prop(row, row.schema[i].id)
        case TextValue(t) =>
          if rest.Raise? then rest else Ok(IsSubstring(t, "Published") || rest.value)
        case _ => Raise(TypeError)
  }

  /** `is_row_published`: raises TypeError when some Status value is not a
      string, and otherwise holds exactly when some Status value is a
      substring of "Published" (the source tests `in`, not `==`). */
  function IsRowPublished(row: Row): (r: Result<bool>)
    ensures r.Raise? <==> exists k :: 0 <= k < |row.schema| && IsStatusEntry(row.schema[k]) && !Prop(row, row.schema[k].id).TextValue?
    ensures r == Ok(true) <==>
              r.Ok? && exists k :: 0 <= k < |row.schema| && IsStatusEntry(row.schema[k]) && Prop(row, row.schema[k].id).TextValue?
                                   && IsSubstring(Prop(row, row.schema[k].id).text, "Published")
  {
    PublishedStatusFrom(row, 0)
  }

  lemma StatusWrittenReads(row: Row, value: string, k: nat)
    requires k < |row.schema| && IsStatusEntry(row.schema[k])
    ensures Prop(WithStatus(row, value), row.schema[k].id) == TextValue(value)
  {
    assert row.schema[k].id in StatusIds(row.schema);
  }

  /** Once a value is written to the Status properties, the published test
      reads it back: it holds exactly when a Status entry exists and the value
      is a substring of "Published". */
  lemma PublishedAfterStatusWrite(row: Row, value: string)
    ensures IsRowPublished(WithStatus(row, value)) == Ok(HasStatusEntry(row) && IsSubstring(value, "Published"))
  {
    var w := WithStatus(row, value);
    assert w.schema == row.schema;
    forall k | 0 <= k < |w.schema| && IsStatusEntry(w.schema[k])
      ensures Prop(w, w.schema[k].id) == TextValue(value)
    {
      StatusWrittenReads(row, value, k);
    }
    var r := IsRowPublished(w);
    assert !r.Raise?;
    if HasStatusEntry(row) && IsSubstring(value, "Published") {
      var k :| 0 <= k < |row.schema| && IsStatusEntry(row.schema[k]);
      assert Prop(w, w.schema[k].id) == TextValue(value);
      assert r == Ok(true);
    } else {
      assert r.Ok?;
      assert r.value != true;
    }
  }

  lemma {:induction false} SubstringHasRoom(a: string, b: string)
    requires IsSubstring(a, b)
    ensures |a| <= |b|
  {
    if !(a <= b) {
      SubstringHasRoom(a, b[1..]);
    }
  }

  /** Of the three status names only "Published" passes the `in "Published"`
      test. */
  lemma StatusNameInPublished(s: Status)
    ensures IsSubstring(StatusName(s), "Published") <==> s == Published
  {
    var p := "Published";
    match s
    case Published =>
      assert StatusName(s) <= p;
    case Unpublished =>
      if IsSubstring(StatusName(s), p) {
        SubstringHasRoom(StatusName(s), p);
      }
    case Pending =>
      var n := "Pending";
      assert !(n <= p) by { assert p[1] != n[1]; }
      assert !(n <= p[1..]) by { assert p[1..][0] != n[0]; }
      assert !(n <= p[2..]) by { assert p[2..][0] != n[0]; }
      assert p[1..][1..] == p[2..] && p[2..][1..] == p[3..];
      if IsSubstring(n, p[3..]) {
        SubstringHasRoom(n, p[3..]);
      }
  }

  /** Right after `set_row_published_pending`, the published test holds
      exactly when the row has a Status entry and a publish date on or before
      today; it never raises. */
  lemma PublishedAfterDerivedStatus(row: Row, today: Date)
    ensures IsRowPublished(WithDerivedStatus(row, today)) ==
            Ok(HasStatusEntry(row) && GetRowPublishDate(row).Some? && !Before(today, GetRowPublishDate(row).value))
  {
    var s := Classify(GetRowPublishDate(row), today);
    PublishedAfterStatusWrite(row, StatusName(s));
    StatusNameInPublished(s);
  }

  // ----- slug -----

  /** `"%04d-%02d-%02d" % (year, month, day)`. */
  function DateSlug(d: Date): string
  {
    Pad(d.year, 4) + "-" + Pad(d.month, 2) + "-" + Pad(d.day, 2)
  }

  /** The date part of the slug of an undated row. */
  const UndatedSlug: string := "0000-00-00"

  function DatePart(date: Option<Date>): string
  {
    if date.None? then UndatedSlug else DateSlug(date.value)
  }

  /** `get_row_link_slug`: the date part and the pieces of the title split at
      single spaces, joined with "-". */
  function GetRowLinkSlug(row: Row): string
  {
    Join("-", [DatePart(GetRowPublishDate(row))] + Split(row.title, ' '))
  }

  /** Reads the date back from the first ten characters of a slug. */
  function ParseDateSlug(s: string): Date
    requires |s| >= 10
  {
    Date(ParseDigits(s[..4]), ParseDigits(s[5..7]), ParseDigits(s[8..10]))
  }

  /** A valid date's slug is ten characters and gives the date back. */
  lemma DateSlugRoundTrip(d: Date)
    requires ValidDate(d)
    ensures |DateSlug(d)| == 10
    ensures ParseDateSlug(DateSlug(d)) == d
  {
    var y, m, dd := Pad(d.year, 4), Pad(d.month, 2), Pad(d.day, 2);
    assert Pow10(4) == 10000 && Pow10(2) == 100;
    var s := DateSlug(d);
    assert s[..4] == y;
    assert s[5..7] == m;
    assert s[8..10] == dd;
  }

  /** The undated sentinel is the slug of the date 0-0-0, which no valid date
      has: undated rows never share a date part with dated ones. */
  lemma UndatedSlugIsZeroDate()
    ensures UndatedSlug == DateSlug(Date(0, 0, 0))
    ensures ParseDateSlug(UndatedSlug) == Date(0, 0, 0)
  {
    assert Pad(0, 2) == "00" by {
      assert Pad(0, 1) == "0";
    }
    assert Pad(0, 4) == "0000" by {
      assert Pad(0, 1) == "0";
      assert Pad(0, 2) == "00";
      assert Pad(0, 3) == "000";
    }
    var s := UndatedSlug;
    assert s[..4] == "0000" && s[5..7] == "00" && s[8..10] == "00";
  }

  lemma DatePartLength(date: Option<Date>)
    requires date.Some? ==> ValidDate(date.value)
    ensures |DatePart(date)| == 10 && ' ' !in DatePart(date)
  {
    if date.Some? {
      DateSlugRoundTrip(date.value);
      var d := date.value;
      assert DateSlug(d) == Pad(d.year, 4) + "-" + Pad(d.month, 2) + "-" + Pad(d.day, 2);
      assert AllDigits(Pad(d.year, 4)) && AllDigits(Pad(d.month, 2)) && AllDigits(Pad(d.day, 2));
      assert forall i :: 0 <= i < 10 ==> DateSlug(d)[i] != ' ';
    }
  }

  /** The slug is the date part, "-" and the title with every single space
      replaced by "-"; it holds no space, and for a valid or absent date its
      first ten characters give back the date (0-0-0 when undated). */
  lemma LinkSlugShape(row: Row)
    requires var date := GetRowPublishDate(row); date.Some? ==> ValidDate(date.value)
    ensures var date := GetRowPublishDate(row);
            GetRowLinkSlug(row) == DatePart(date) + "-" + Replace(row.title, ' ', "-")
    ensures ' ' !in GetRowLinkSlug(row)
    ensures |GetRowLinkSlug(row)| >= 11 && GetRowLinkSlug(row)[10] == '-'
    ensures var date := GetRowPublishDate(row);
            ParseDateSlug(GetRowLinkSlug(row)) == if date.None? then Date(0, 0, 0) else date.value
  {
    var date := GetRowPublishDate(row);
    var dp := DatePart(date);
    var pieces := Split(row.title, ' ');
    assert ([dp] + pieces)[1..] == pieces;
    JoinSplitIsReplace(row.title, ' ', "-");
    ReplaceRemoves(row.title, ' ', "-");
    DatePartLength(date);
    var slug := GetRowLinkSlug(row);
    assert slug == dp + "-" + Replace(row.title, ' ', "-");
    assert slug[..10] == dp;
    if date.None? {
      UndatedSlugIsZeroDate();
    } else {
      DateSlugRoundTrip(date.value);
    }
    DateFieldsOfPrefix(slug, dp);
  }

  /** A string that starts with the ten characters `dp` has the same three
      date fields. */
  lemma DateFieldsOfPrefix(s: string, dp: string)
    requires |dp| == 10 && |s| >= 10 && s[..10] == dp
    ensures s[..4] == dp[..4] && s[5..7] == dp[5..7] && s[8..10] == dp[8..10]
  {
    assert forall i :: 0 <= i < 10 ==> s[i] == s[..10][i];
  }

  /** The slug keeps only the title with its spaces turned into dashes:
      titles that agree after that replacement ("a b" and "a-b") give the same
      slug on the same date, and so the same file. */
  lemma SlugConflatesSpaceAndDash(r1: Row, r2: Row)
    requires GetRowPublishDate(r1) == GetRowPublishDate(r2)
    requires var date := GetRowPublishDate(r1); date.Some? ==> ValidDate(date.value)
    requires Replace(r1.title, ' ', "-") == Replace(r2.title, ' ', "-")
    ensures GetRowLinkSlug(r1) == GetRowLinkSlug(r2)
  {
    LinkSlugShape(r1);
    LinkSlugShape(r2);
  }

  /** The witness that `SlugConflatesSpaceAndDash` applies to distinct
      titles: "a b" and "a-b" differ, yet agree once spaces become dashes. */
  lemma SpaceAndDashTitles()
    ensures "a b" != "a-b" && Replace("a b", ' ', "-") == Replace("a-b", ' ', "-")
  {
    assert Replace("b", ' ', "-") == "b";
    assert Replace("-b", ' ', "-") == "-b";
    assert Replace(" b", ' ', "-") == "-b";
    assert Replace("a b", ' ', "-") == "a-b" by {
      assert "a b"[1..] == " b";
    }
    assert Replace("a-b", ' ', "-") == "a-b" by {
      assert "a-b"[1..] == "-b";
      assert "-b"[1..] == "b";
    }
  }

  // ----- title and front-matter -----

  /** `get_decorated_row_title`: the icon, a space and the title when the row
      has an icon, else the title. */
  function GetDecoratedRowTitle(row: Row): string
  {
    match row.icon
    case Some(icon) => icon + " " + row.title
    case None => row.title
  }

  predicate IsTagsEntry(e: SchemaEntry)
  {
    e.name == "Tags" && e.propType == "multi_select"
  }

  /** The tags of one entry: the client library converts a multi_select
      property to a list of strings. */
  function EntryTags(row: Row, e: SchemaEntry): seq<string>
  {
    if IsTagsEntry(e) && Prop(row, e.id).ListValue? then Prop(row, e.id).items else []
  }

  /** The tags of every "Tags" multi_select entry from index `i` on, chained
      in schema order. */
  function TagsFrom(row: Row, i: nat): (tags: seq<string>)
    requires i <= |row.schema|
    decreases |row.schema| - i
    ensures forall t :: t in tags <==> exists k :: i <= k < |row.schema| && t in EntryTags(row, row.schema[k])
  {
    if i == |row.schema| then [] else EntryTags(row, row.schema[i]) + TagsFrom(row, i + 1)
  }

  function Tags(row: Row): seq<string>
  {
    TagsFrom(row, 0)
  }

  /** With no entry from index `i` on contributing tags, none are chained. */
  lemma {:induction false} TagsFromNone(row: Row, i: nat)
    requires i <= |row.schema|
    requires forall j :: i <= j < |row.schema| ==> EntryTags(row, row.schema[j]) == []
    decreases |row.schema| - i
    ensures TagsFrom(row, i) == []
  {
    if i < |row.schema| {
      TagsFromNone(row, i + 1);
    }
  }

  /** With `schema[k]` the only entry from index `i` on that contributes
      tags, the chained tags are its items, in order and with repetitions. */
  lemma {:induction false} TagsFromOnly(row: Row, k: nat, i: nat)
    requires i <= k < |row.schema|
    requires forall j :: i <= j < |row.schema| && j != k ==> EntryTags(row, row.schema[j]) == []
    decreases k - i
    ensures TagsFrom(row, i) == EntryTags(row, row.schema[k])
  {
    if i == k {
      TagsFromNone(row, k + 1);
      assert EntryTags(row, row.schema[k]) + [] == EntryTags(row, row.schema[k]);
    } else {
      TagsFromOnly(row, k, i + 1);
    }
  }

  /** A row whose only tag-contributing entry is `schema[k]` (the usual
      single "Tags" property) has exactly that entry's tags, in order and
      with repetitions, on its "tags:" line. */
  lemma SingleTagsEntry(row: Row, k: nat)
    requires k < |row.schema|
    requires forall j :: 0 <= j < |row.schema| && j != k ==> EntryTags(row, row.schema[j]) == []
    ensures Tags(row) == EntryTags(row, row.schema[k])
  {
    TagsFromOnly(row, k, 0);
  }

  lemma {:induction false} TagsFromIgnoreIcon(row: Row, icon: Option<string>, i: nat)
    requires i <= |row.schema|
    decreases |row.schema| - i
    ensures TagsFrom(row.(icon := icon), i) == TagsFrom(row, i)
  {
    if i < |row.schema| {
      TagsFromIgnoreIcon(row, icon, i + 1);
    }
  }

  /** The tags do not depend on the icon. */
  lemma TagsIgnoreIcon(row: Row, icon: Option<string>)
    ensures Tags(row.(icon := icon)) == Tags(row)
  {
    TagsFromIgnoreIcon(row, icon, 0);
  }

  /** `get_post_meta`. */
  function GetPostMeta(row: Row): string
  {
    "---\ntitle: " + GetDecoratedRowTitle(row) + "\ntags: " + Join(", ", Tags(row)) + "\n---"
  }

  /** The lines of a four-line front-matter block `---`, `<a>`, `<b>`, `---`. */
  lemma FrontMatterSplit(a: string, b: string)
    requires '\n' !in a && '\n' !in b
    ensures Split("---\n" + a + "\n" + b + "\n---", '\n') == ["---", a, b, "---"]
  {
    var parts := ["---", a, b, "---"];
    assert Join("\n", parts) == "---\n" + a + "\n" + b + "\n---" by {
      assert parts[1..] == [a, b, "---"] && parts[1..][1..] == [b, "---"] && parts[1..][1..][1..] == ["---"];
      assert Join("\n", ["---"]) == "---";
      assert Join("\n", [b, "---"]) == b + "\n" + "---";
      assert Join("\n", [a, b, "---"]) == a + "\n" + (b + "\n" + "---");
      assert Join("\n", parts) == "---" + "\n" + (a + "\n" + (b + "\n" + "---"));
      FrontMatterAssoc(a, b);
    }
    assert forall i :: 0 <= i < |parts| ==> '\n' !in parts[i];
    SplitJoinRoundTrip(parts, '\n');
  }

  lemma FrontMatterAssoc(a: string, b: string)
    ensures "---" + "\n" + (a + "\n" + (b + "\n" + "---")) == "---\n" + a + "\n" + b + "\n---"
  {
    assert "---" + "\n" == "---\n" && "\n" + "---" == "\n---";
  }

  /** The front-matter has exactly four lines: the fences, the decorated
      title and the comma-joined tags; the tags line is there even when the
      row has no tags. */
  lemma PostMetaLines(row: Row)
    requires '\n' !in GetDecoratedRowTitle(row) && '\n' !in Join(", ", Tags(row))
    ensures Split(GetPostMeta(row), '\n') ==
            ["---", "title: " + GetDecoratedRowTitle(row), "tags: " + Join(", ", Tags(row)), "---"]
    ensures Tags(row) == [] ==> Split(GetPostMeta(row), '\n')[2] == "tags: "
  {
    var a, b := "title: " + GetDecoratedRowTitle(row), "tags: " + Join(", ", Tags(row));
    assert GetPostMeta(row) == "---\n" + a + "\n" + b + "\n---";
    FrontMatterSplit(a, b);
  }
}
