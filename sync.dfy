/** The reconciliation of notion_sync/__main__.py: `RowSync` keeps one row's
    markdown file in step with the row, and `CollectionFileSync.sync_rows`
    diffs a snapshot of the collection against the rows it tracks. The
    deletion `rm_file` performs is a parameter of both (as written, or the
    removal of the regular file its callers intend). */
module Sync {
  import opened Python
  import opened Strings
  import opened Notion
  import opened RowMeta
  import opened Markdown
  import opened Files

  /** `_get_sync_filename`: `root_dir + "/" + slug + ".md"`. */
  function SyncFilename(rootDir: string, row: Row): string
  {
    rootDir + "/" + GetRowLinkSlug(row) + ".md"
  }

  /** The `rm_file` calls of `update_file`, under a deletion rule. */
  function Discard(rule: DeleteRule, fs: FileSystem, p: string): Result<FileSystem>
  {
    match rule
    case AsWritten => RmFile(fs, p)
    case Intended => Ok(RmFileIntended(fs, p))
  }

  /** What `update_file` writes into the file of a published row: the
      front-matter, a blank line and the page rendered as a page root. */
  function PageText(ctx: Context, row: Row): Result<string>
  {
    match Render(ctx, CollectionRow(row), true)
    case Markdown(body) => Ok(GetPostMeta(row) + "\n\n" + body)
    case NoOutput => Raise(TypeError)
    case Raised(e) => Raise(e)
  }

  /** The state one `RowSync` step leaves: the row, the file name, the file
      system, and the exception it raised, if any. */
  datatype Outcome = Outcome(row: Row, filename: string, files: FileSystem, raised: Option<Exception>)

  /** The second half of `update_file`, once the unit's file name is `path`:
      write the page when the row is published, delete the file otherwise; an
      exception from the published test propagates. */
  function Settle(rule: DeleteRule, ctx: Context, row: Row, path: string, files: FileSystem): (o: Outcome)
    ensures o.row == row && o.filename == path
  {
    if IsRowPublished(row).Raise? then Outcome(row, path, files, Some(IsRowPublished(row).error))
    else if IsRowPublished(row) == Ok(true) then
      match OpenForWrite(files, path)
      case Raise(e) => Outcome(row, path, files, Some(e))
      case Ok(truncated) =>
        match PageText(ctx, row)
        case Raise(e) => Outcome(row, path, truncated, Some(e))
        case Ok(text) => Outcome(row, path, truncated[path := File(text)], None)
    else
      match Discard(rule, files, path)
      case Raise(e) => Outcome(row, path, files, Some(e))
      case Ok(files1) => Outcome(row, path, files1, None)
  }

  /** `update_file`: write the derived status back to the row; when the file
      name has changed, delete the old file and adopt the new name; then
      settle the file at that name. An exception stops the step where it is
      raised. */
  function UpdateFileSpec(rule: DeleteRule, ctx: Context, rootDir: string, today: Date,
                          row: Row, filename: string, files: FileSystem): Outcome
  {
    var row1 := WithDerivedStatus(row, today);
    var target := SyncFilename(rootDir, row1);
    if filename == target then Settle(rule, ctx, row1, target, files)
    else
      match Discard(rule, files, filename)
      case Raise(e) => Outcome(row1, filename, files, Some(e))
      case Ok(files1) => Settle(rule, ctx, row1, target, files1)
  }

  /** The state `stop_watching_and_remove` leaves. */
  datatype Disposal = Disposal(subscribed: bool, files: FileSystem, raised: Option<Exception>)

  /** `stop_watching_and_remove`. As written it reads `callback_id`, which only
      `start_watching` assigns (AttributeError otherwise), unsubscribes, and
      then calls `os.remove`, which fails on a missing file. The intended
      disposal unsubscribes and removes the file if there is one, and raises
      neither error: it also tolerates a unit that was never started. */
  function DisposeSpec(rule: DeleteRule, callbackSet: bool, subscribed: bool, filename: string,
                       files: FileSystem): Disposal
  {
    match rule
    case AsWritten =>
      if !callbackSet then Disposal(subscribed, files, Some(AttributeError))
      else
        (match Remove(files, filename)
         case Raise(e) => Disposal(false, files, Some(e))
         case Ok(files1) => Disposal(false, files1, None))
    case Intended => Disposal(false, RmFileIntended(files, filename), None)
  }

  // ----- one row -----

  /** The row after `update_file` carries the derived status; on success the
      unit has adopted the file name of that row, and otherwise it holds the
      old or the new one. */
  lemma UpdateFileAdoptsFilename(rule: DeleteRule, ctx: Context, rootDir: string, today: Date,
                                 row: Row, filename: string, files: FileSystem)
    ensures var o := UpdateFileSpec(rule, ctx, rootDir, today, row, filename, files);
            o.row == WithDerivedStatus(row, today)
            && (o.raised.None? ==> o.filename == SyncFilename(rootDir, o.row))
            && (o.filename == filename || o.filename == SyncFilename(rootDir, o.row))
  {
  }

  lemma DiscardFrame(rule: DeleteRule, fs: FileSystem, p: string)
    ensures Discard(rule, fs, p).Ok? ==> SameExcept(fs, Discard(rule, fs, p).value, {p})
  {
  }

  lemma SettleFrame(rule: DeleteRule, ctx: Context, row: Row, path: string, files: FileSystem)
    ensures SameExcept(files, Settle(rule, ctx, row, path, files).files, {path})
  {
    DiscardFrame(rule, files, path);
  }

  /** `update_file` touches no path but the unit's old and new file names. */
  lemma UpdateFileFrame(rule: DeleteRule, ctx: Context, rootDir: string, today: Date,
                        row: Row, filename: string, files: FileSystem)
    ensures var o := UpdateFileSpec(rule, ctx, rootDir, today, row, filename, files);
            SameExcept(files, o.files, {filename, SyncFilename(rootDir, o.row)})
  {
    var row1 := WithDerivedStatus(row, today);
    var target := SyncFilename(rootDir, row1);
    if filename == target {
      SettleFrame(rule, ctx, row1, target, files);
    } else {
      DiscardFrame(rule, files, filename);
      var r := Discard(rule, files, filename);
      if r.Ok? {
        SettleFrame(rule, ctx, row1, target, r.value);
      }
    }
  }

  /** When the row is published after the status write-back (it has a Status
      entry and a publish date on or before today) and the step succeeds, its
      file holds the front-matter, a blank line and the rendered page. */
  lemma UpdateFileWritesPage(rule: DeleteRule, ctx: Context, rootDir: string, today: Date,
                             row: Row, filename: string, files: FileSystem)
    requires HasStatusEntry(row) && GetRowPublishDate(row).Some?
    requires !Before(today, GetRowPublishDate(row).value)
    ensures var o := UpdateFileSpec(rule, ctx, rootDir, today, row, filename, files);
            o.raised.None? ==>
              var page := Render(ctx, CollectionRow(o.row), true);
              page.Markdown? && o.filename in o.files
              && o.files[o.filename] == File(GetPostMeta(o.row) + "\n\n" + page.text)
  {
    PublishedAfterDerivedStatus(row, today);
    var row1 := WithDerivedStatus(row, today);
    var target := SyncFilename(rootDir, row1);
    if filename == target {
      SettleWritesPage(rule, ctx, row1, target, files);
    } else if Discard(rule, files, filename).Ok? {
      SettleWritesPage(rule, ctx, row1, target, Discard(rule, files, filename).value);
    }
  }

  lemma SettleWritesPage(rule: DeleteRule, ctx: Context, row: Row, path: string, files: FileSystem)
    requires IsRowPublished(row) == Ok(true)
    ensures var o := Settle(rule, ctx, row, path, files);
            o.raised.None? ==>
              var page := Render(ctx, CollectionRow(row), true);
              page.Markdown? && path in o.files && o.files[path] == File(GetPostMeta(row) + "\n\n" + page.text)
  {
  }

  /** With the intended deletion, a successful step leaves a regular file at
      the unit's file name exactly when the row is published, and none at the
      name it gave up. */
  lemma UpdateFileIntendedCleansUp(ctx: Context, rootDir: string, today: Date,
                                   row: Row, filename: string, files: FileSystem)
    ensures var o := UpdateFileSpec(Intended, ctx, rootDir, today, row, filename, files);
            o.raised.None? ==>
              (HasFile(o.files, o.filename) <==> IsRowPublished(o.row) == Ok(true))
              && (filename != o.filename ==> !HasFile(o.files, filename))
  {
    var row1 := WithDerivedStatus(row, today);
    var target := SyncFilename(rootDir, row1);
    if filename == target {
      SettleIntendedCleansUp(ctx, row1, target, files);
    } else {
      var files1 := RmFileIntended(files, filename);
      SettleIntendedCleansUp(ctx, row1, target, files1);
      SettleFrame(Intended, ctx, row1, target, files1);
    }
  }

  /** With the intended deletion, a successful settle leaves a regular file
      at `path` exactly when the row is published. */
  lemma SettleIntendedCleansUp(ctx: Context, row: Row, path: string, files: FileSystem)
    ensures var o := Settle(Intended, ctx, row, path, files);
            o.raised.None? ==> (HasFile(o.files, path) <==> IsRowPublished(row) == Ok(true))
  {
  }

  /** What a successful step leaves at the unit's file name `name` for `row`:
      the rendered page when the row is published and, under the intended
      deletion, no regular file when it is not. */
  ghost predicate Reflects(rule: DeleteRule, ctx: Context, row: Row, name: string, files: FileSystem)
  {
    (IsRowPublished(row) == Ok(true) ==>
       PageText(ctx, row).Ok? && name in files && files[name] == File(PageText(ctx, row).value))
    && (rule == Intended && IsRowPublished(row) != Ok(true) ==> !HasFile(files, name))
  }

  lemma SettleReflects(rule: DeleteRule, ctx: Context, row: Row, path: string, files: FileSystem)
    ensures var o := Settle(rule, ctx, row, path, files);
            o.raised.None? ==> Reflects(rule, ctx, row, path, o.files)
  {
  }

  /** A successful `update_file` leaves the unit's file reflecting its row. */
  lemma UpdateFileReflects(rule: DeleteRule, ctx: Context, rootDir: string, today: Date,
                           row: Row, filename: string, files: FileSystem)
    ensures var o := UpdateFileSpec(rule, ctx, rootDir, today, row, filename, files);
            o.raised.None? ==> Reflects(rule, ctx, o.row, o.filename, o.files)
  {
    var row1 := WithDerivedStatus(row, today);
    var target := SyncFilename(rootDir, row1);
    if filename == target {
      SettleReflects(rule, ctx, row1, target, files);
    } else if Discard(rule, files, filename).Ok? {
      SettleReflects(rule, ctx, row1, target, Discard(rule, files, filename).value);
    }
  }

  /** A change elsewhere keeps a file reflecting its row. */
  lemma ReflectsFrame(rule: DeleteRule, ctx: Context, row: Row, name: string,
                      f1: FileSystem, f2: FileSystem, s: set<string>)
    requires Reflects(rule, ctx, row, name, f1) && SameExcept(f1, f2, s) && name !in s
    ensures Reflects(rule, ctx, row, name, f2)
  {
  }

  /** As written, `update_file` never removes a file: a row that is not
      published leaves the file system exactly as it was, so a post that is
      unpublished, or whose slug changed, keeps its old file. */
  lemma UpdateFileAsWrittenNeverDeletes(ctx: Context, rootDir: string, today: Date,
                                        row: Row, filename: string, files: FileSystem)
    ensures var o := UpdateFileSpec(AsWritten, ctx, rootDir, today, row, filename, files);
            forall q :: q in files ==> q in o.files
    ensures var o := UpdateFileSpec(AsWritten, ctx, rootDir, today, row, filename, files);
            IsRowPublished(o.row) != Ok(true) ==> o.files == files
  {
    var row1 := WithDerivedStatus(row, today);
    var target := SyncFilename(rootDir, row1);
    if filename == target {
      SettleAsWrittenKeeps(ctx, row1, target, files);
    } else if Discard(AsWritten, files, filename).Ok? {
      SettleAsWrittenKeeps(ctx, row1, target, files);
    }
  }

  /** As written, settling a file never removes a path; for a row that is not
      published it changes nothing, and it raises only on a directory or when
      the published test raises. */
  lemma SettleAsWrittenKeeps(ctx: Context, row: Row, path: string, files: FileSystem)
    ensures var o := Settle(AsWritten, ctx, row, path, files);
            forall q :: q in files ==> q in o.files
    ensures var o := Settle(AsWritten, ctx, row, path, files);
            IsRowPublished(row) != Ok(true) ==>
              o.files == files
              && (o.raised.None? <==> IsRowPublished(row).Ok? && !(path in files && files[path].Directory?))
  {
  }

  /** The post "a" of the stale-file example has no Status entry, so
      deriving its status leaves it as it is and it is not published. */
  lemma StaleRowStatus(today: Date)
    ensures var row := Row("r", "a", None, "c", [], map[], []);
            WithDerivedStatus(row, today) == row && IsRowPublished(row) != Ok(true)
  {
    var row := Row("r", "a", None, "c", [], map[], []);
    assert StatusIds([]) == {};
    assert StatusWritten(map[], {}, "Unpublished") == map[];
  }

  /** The post "a" of the stale-file example has no date, so its file name
      is "out/0000-00-00-a.md". */
  lemma StaleRowFilename()
    ensures SyncFilename("out", Row("r", "a", None, "c", [], map[], [])) == "out/0000-00-00-a.md"
  {
    var row := Row("r", "a", None, "c", [], map[], []);
    assert GetRowPublishDate(row) == None;
    SplitWithoutSeparator("a", ' ');
    var parts := [DatePart(None)] + ["a"];
    assert parts == ["0000-00-00", "a"] && parts[1..] == ["a"];
    assert Join("-", parts) == "0000-00-00" + "-" + "a";
    assert GetRowLinkSlug(row) == "0000-00-00-a";
  }

  /** A concrete stale file: the post "a" at "out/0000-00-00-a.md" is not
      published, yet after the step its file is still there. */
  lemma StaleFileLingers(ctx: Context, today: Date)
    ensures var row := Row("r", "a", None, "c", [], map[], []);
            var path := "out/0000-00-00-a.md";
            var o := UpdateFileSpec(AsWritten, ctx, "out", today, row, path, map[path := File("old")]);
            o.raised.None? && o.filename == path && HasFile(o.files, path)
  {
    var row := Row("r", "a", None, "c", [], map[], []);
    var path := "out/0000-00-00-a.md";
    StaleRowStatus(today);
    StaleRowFilename();
    var files := map[path := File("old")];
    assert UpdateFileSpec(AsWritten, ctx, "out", today, row, path, files) == Settle(AsWritten, ctx, row, path, files);
    SettleAsWrittenKeeps(ctx, row, path, files);
  }

  /** Running `update_file` again on the same day, with nothing changed
      remotely, changes nothing (the schema's property ids being distinct). */
  lemma UpdateFileIdempotent(rule: DeleteRule, ctx: Context, rootDir: string, today: Date,
                             row: Row, filename: string, files: FileSystem)
    requires DistinctIds(row.schema)
    requires UpdateFileSpec(rule, ctx, rootDir, today, row, filename, files).raised.None?
    ensures var o := UpdateFileSpec(rule, ctx, rootDir, today, row, filename, files);
            UpdateFileSpec(rule, ctx, rootDir, today, o.row, o.filename, o.files) == o
  {
    var o := UpdateFileSpec(rule, ctx, rootDir, today, row, filename, files);
    DerivedStatusIdempotent(row, today);
    var row1 := WithDerivedStatus(row, today);
    var target := SyncFilename(rootDir, row1);
    var files1 := if filename == target then files else Discard(rule, files, filename).value;
    assert o == Settle(rule, ctx, row1, target, files1);
    SettleIdempotent(rule, ctx, row1, target, files1);
  }

  /** Settling a file that was just settled changes nothing. */
  lemma SettleIdempotent(rule: DeleteRule, ctx: Context, row: Row, path: string, files: FileSystem)
    requires Settle(rule, ctx, row, path, files).raised.None?
    ensures var o := Settle(rule, ctx, row, path, files);
            Settle(rule, ctx, row, path, o.files) == o
  {
    var o := Settle(rule, ctx, row, path, files);
    if IsRowPublished(row) == Ok(true) {
      var text := PageText(ctx, row).value;
      assert o.files == files[path := File("")][path := File(text)];
      assert o.files[path := File("")][path := File(text)] == o.files;
    }
  }

  /** As written, disposing of a row whose file is already gone raises
      FileNotFoundError, and disposing of a unit that was never started
      raises AttributeError. */
  lemma DisposeAsWrittenRaises(subscribed: bool, filename: string, files: FileSystem)
    ensures filename !in files ==> DisposeSpec(AsWritten, true, subscribed, filename, files).raised == Some(FileNotFoundError)
    ensures DisposeSpec(AsWritten, false, subscribed, filename, files).raised == Some(AttributeError)
  {
  }

  /** The intended disposal never raises, unsubscribes, and leaves no regular
      file at the unit's name and every other path as it was. */
  lemma DisposeIntendedRemovesFile(callbackSet: bool, subscribed: bool, filename: string, files: FileSystem)
    ensures var d := DisposeSpec(Intended, callbackSet, subscribed, filename, files);
            d.raised.None? && !d.subscribed && !HasFile(d.files, filename) && SameExcept(files, d.files, {filename})
  {
  }

  lemma DisposeFrame(rule: DeleteRule, callbackSet: bool, subscribed: bool, filename: string, files: FileSystem)
    ensures SameExcept(files, DisposeSpec(rule, callbackSet, subscribed, filename, files).files, {filename})
  {
  }

  /** The newer engine disposes of removed units before it updates the new
      ones. When a post is deleted and recreated with the same slug, the
      old unit's disposal clears the shared file name first, and the new
      unit's update then writes the page there: the published post keeps its
      file. */
  lemma RecreatedPostKeepsPage(ctx: Context, rootDir: string, today: Date, row: Row, name: string,
                               callbackSet: bool, subscribed: bool, files: FileSystem)
    requires name == SyncFilename(rootDir, row)
    ensures var d := DisposeSpec(Intended, callbackSet, subscribed, name, files);
            var o := UpdateFileSpec(Intended, ctx, rootDir, today, row, name, d.files);
            d.raised.None? && (o.raised.None? && IsRowPublished(o.row) == Ok(true) ==>
              HasFile(o.files, o.filename) && Reflects(Intended, ctx, o.row, o.filename, o.files))
  {
    var d := DisposeSpec(Intended, callbackSet, subscribed, name, files);
    DisposeIntendedRemovesFile(callbackSet, subscribed, name, files);
    UpdateFileReflects(Intended, ctx, rootDir, today, row, name, d.files);
  }

  /** Keeps one row's markdown file in step with the row. */
  class RowSync {
    const rootDir: string
    const ctx: Context
    const rule: DeleteRule
    var row: Row
    var filename: string
    /** `callback_id` has been assigned (by `start_watching`). */
    var callbackSet: bool
    /** The row's change callback is registered. */
    var subscribed: bool
    /** The id of the row the unit was made for; updates keep it. */
    ghost const key: string

    /** `RowSync.__init__`: the file name is the row's sync file name. */
    constructor(rootDir: string, row: Row, ctx: Context, rule: DeleteRule)
      ensures this.rootDir == rootDir && this.ctx == ctx && this.rule == rule
      ensures this.row == row && filename == SyncFilename(rootDir, row)
      ensures !callbackSet && !subscribed && key == row.id
    {
      this.rootDir := rootDir;
      this.ctx := ctx;
      this.rule := rule;
      this.row := row;
      filename := SyncFilename(rootDir, row);
      callbackSet := false;
      subscribed := false;
      key := row.id;
    }

    /** `update_file`. */
    method UpdateFile(disk: Disk, today: Date) returns (raised: Option<Exception>)
      modifies this, disk
      ensures Outcome(row, filename, disk.files, raised) ==
              UpdateFileSpec(rule, ctx, rootDir, today, old(row), old(filename), old(disk.files))
      ensures callbackSet == old(callbackSet) && subscribed == old(subscribed)
    {
      row := SetRowPublishedPending(row, today);
      var target := SyncFilename(rootDir, row);
      if filename != target {
        var r := Discard(rule, disk.files, filename);
        if r.Raise? {
          return Some(r.error);
        }
        disk.files := r.value;
        filename := target;
      }
      if IsRowPublished(row) == Ok(true) {
        var truncated := OpenForWrite(disk.files, filename);
        if truncated.Raise? {
          return Some(truncated.error);
        }
        disk.files := truncated.value;
        var text := PageText(ctx, row);
        if text.Raise? {
          return Some(text.error);
        }
        disk.files := disk.files[filename := File(text.value)];
        raised := None;
      } else {
        var r := Discard(rule, disk.files, filename);
        if r.Raise? {
          return Some(r.error);
        }
        disk.files := r.value;
        raised := None;
      }
    }

    /** `start_watching`: subscribe to the row's changes, then update. */
    method StartWatching(disk: Disk, today: Date) returns (raised: Option<Exception>)
      modifies this, disk
      ensures Outcome(row, filename, disk.files, raised) ==
              UpdateFileSpec(rule, ctx, rootDir, today, old(row), old(filename), old(disk.files))
      ensures callbackSet && subscribed
    {
      callbackSet := true;
      subscribed := true;
      raised := UpdateFile(disk, today);
    }

    /** `stop_watching_and_remove`. */
    method StopWatchingAndRemove(disk: Disk) returns (raised: Option<Exception>)
      modifies this, disk
      ensures Disposal(subscribed, disk.files, raised) ==
              DisposeSpec(rule, old(callbackSet), old(subscribed), filename, old(disk.files))
      ensures row == old(row) && filename == old(filename) && callbackSet == old(callbackSet)
    {
      match rule
      case AsWritten =>
        if !callbackSet {
          return Some(AttributeError);
        }
        subscribed := false;
        var r := Remove(disk.files, filename);
        if r.Raise? {
          return Some(r.error);
        }
        disk.files := r.value;
        raised := None;
      case Intended =>
        subscribed := false;
        disk.files := RmFileIntended(disk.files, filename);
        raised := None;
    }
  }

  // ----- the collection -----

  /** The ids of a snapshot's rows. */
  function IdsOf(rows: seq<Row>): set<string>
  {
    set r | r in rows :: r.id
  }

  /** `rows_dict`: each id to its row, the last one when an id repeats. */
  function ById(rows: seq<Row>): (m: map<string, Row>)
    decreases |rows|
    ensures m.Keys == IdsOf(rows)
    ensures forall id :: id in m ==> m[id] in rows && m[id].id == id
  {
    if rows == [] then map[]
    else
      var init, last := rows[..|rows| - 1], rows[|rows| - 1];
      assert rows == init + [last];
      ById(init)[last.id := last]
  }

  /** No id occurs twice. */
  predicate Distinct(ids: seq<string>)
  {
    forall j, k :: 0 <= j < k < |ids| ==> ids[j] != ids[k]
  }

  /** `ids` lists exactly the members of `s`. */
  ghost predicate Enumerates(ids: seq<string>, s: set<string>)
  {
    forall id :: id in ids <==> id in s
  }

  /** The order in which a `for` loop visits the frozenset `s`: each element
      once, in an order the model leaves open. Python visits the same set in
      the same order each time, so both loops over the added ids use one
      order. */
  method IterationOrder(s: set<string>) returns (ids: seq<string>)
    ensures Distinct(ids)
    ensures Enumerates(ids, s)
    ensures s == {} ==> ids == []
  {
    ids := [];
    var rest := s;
    while rest != {}
      invariant rest <= s
      invariant Distinct(ids)
      invariant forall id :: id in ids <==> id in s && id !in rest
      invariant s == {} ==> ids == []
      decreases rest
    {
      var id :| id in rest;
      ids := ids + [id];
      rest := rest - {id};
    }
  }

  /** The file names of the tracked units with the given ids. */
  ghost function Filenames(known: map<string, RowSync>, ids: set<string>): (r: set<string>)
    reads known.Values
    ensures forall id :: id in ids && id in known ==> known[id].filename in r
  {
    set id | id in ids && id in known :: known[id].filename
  }

  /** The file names the units of new rows start with and may move to. */
  ghost function UnitPaths(rootDir: string, byId: map<string, Row>, ids: set<string>, today: Date): set<string>
    requires ids <= byId.Keys
  {
    (set id | id in ids :: SyncFilename(rootDir, byId[id]))
    + (set id | id in ids :: SyncFilename(rootDir, WithDerivedStatus(byId[id], today)))
  }

  /** `starts[id]` is the file name the new unit of each id of `added`
      starts with. The trigger keeps the file names out of proofs that only
      move `starts` around. */
  ghost predicate StartsAt(rootDir: string, byId: map<string, Row>, added: set<string>, starts: map<string, string>)
  {
    (forall id :: id in added ==> id in byId && id in starts)
    && forall id {:trigger SyncFilename(rootDir, byId[id])} ::
         id in added && id in byId && id in starts ==> starts[id] == SyncFilename(rootDir, byId[id])
  }

  /** `next[id]` is the row the new unit of each id of `added` holds after
      its first update, and `names[id]` that row's file name. */
  ghost predicate MovesTo(rootDir: string, byId: map<string, Row>, today: Date, added: set<string>,
                          next: map<string, Row>, names: map<string, string>)
  {
    (forall id :: id in added ==> id in byId && id in next && id in names)
    && (forall id {:trigger WithDerivedStatus(byId[id], today)} ::
          id in added && id in byId && id in next ==> next[id] == WithDerivedStatus(byId[id], today))
    && forall id {:trigger SyncFilename(rootDir, next[id])} ::
         id in added && id in next && id in names ==> names[id] == SyncFilename(rootDir, next[id])
  }

  /** For the new ids `added`: the file names their units start with, their
      rows after the first update and those rows' file names, all among the
      unit paths. */
  lemma Plan(rootDir: string, byId: map<string, Row>, added: set<string>, today: Date)
    returns (starts: map<string, string>, next: map<string, Row>, names: map<string, string>)
    requires added <= byId.Keys
    ensures StartsAt(rootDir, byId, added, starts) && MovesTo(rootDir, byId, today, added, next, names)
    ensures forall id :: id in added ==>
              starts[id] in UnitPaths(rootDir, byId, added, today) && names[id] in UnitPaths(rootDir, byId, added, today)
  {
    starts := map id | id in added :: SyncFilename(rootDir, byId[id]);
    next := map id | id in added :: WithDerivedStatus(byId[id], today);
    names := map id | id in added :: SyncFilename(rootDir, next[id]);
  }

  /** The file names a unit claims are those of its row and of that row
      after the status write-back, so rows with separate file names give
      units that claim separate ones. */
  lemma SeparateDisjoint(rootDir: string, byId: map<string, Row>, added: set<string>, today: Date,
                         starts: map<string, string>, next: map<string, Row>, names: map<string, string>)
    requires StartsAt(rootDir, byId, added, starts) && MovesTo(rootDir, byId, today, added, next, names)
    ensures SeparateFiles(rootDir, byId, added, today) ==> Disjoint(added, starts, names)
  {
    if SeparateFiles(rootDir, byId, added, today) {
      forall a, b | a in added && b in added && a != b
        ensures Claimed(starts, names, a) !! Claimed(starts, names, b)
      {
        ClaimedPaths(rootDir, byId, added, today, starts, next, names, a);
        ClaimedPaths(rootDir, byId, added, today, starts, next, names, b);
      }
    }
  }

  lemma ClaimedPaths(rootDir: string, byId: map<string, Row>, added: set<string>, today: Date,
                     starts: map<string, string>, next: map<string, Row>, names: map<string, string>, id: string)
    requires StartsAt(rootDir, byId, added, starts) && MovesTo(rootDir, byId, today, added, next, names)
    requires id in added
    ensures Claimed(starts, names, id) == Paths(rootDir, byId[id], today)
  {
    assert starts[id] == SyncFilename(rootDir, byId[id]);
    assert next[id] == WithDerivedStatus(byId[id], today);
    assert names[id] == SyncFilename(rootDir, next[id]);
  }

  /** The file names a new unit of `row` can hold: the one it starts with
      and the one of its row after the status write-back. */
  function Paths(rootDir: string, row: Row, today: Date): set<string>
  {
    {SyncFilename(rootDir, row), SyncFilename(rootDir, WithDerivedStatus(row, today))}
  }

  /** No two new rows among `added` can be given the same file name. */
  ghost predicate SeparateFiles(rootDir: string, byId: map<string, Row>, added: set<string>, today: Date)
  {
    forall a, b {:trigger Paths(rootDir, byId[a], today), Paths(rootDir, byId[b], today)} ::
      a in added && b in added && a != b && a in byId && b in byId ==>
        Paths(rootDir, byId[a], today) !! Paths(rootDir, byId[b], today)
  }

  /** Two new rows with the same title and publish date share a file name,
      whatever their ids, so the new rows do not have separate files. */
  lemma SharedSlugCollides(rootDir: string, byId: map<string, Row>, added: set<string>, today: Date, a: string, b: string)
    requires a in added && b in added && a != b && a in byId && b in byId
    requires byId[a].title == byId[b].title && GetRowPublishDate(byId[a]) == GetRowPublishDate(byId[b])
    ensures !SeparateFiles(rootDir, byId, added, today)
  {
    assert SyncFilename(rootDir, byId[a]) in Paths(rootDir, byId[a], today) * Paths(rootDir, byId[b], today);
  }

  /** The file names the new unit of `id` holds: the one it starts with and
      the one it moves to. */
  function Claimed(starts: map<string, string>, names: map<string, string>, id: string): set<string>
    requires id in starts && id in names
  {
    {starts[id], names[id]}
  }

  /** No two new units among `added` claim the same file name. */
  ghost predicate Disjoint(added: set<string>, starts: map<string, string>, names: map<string, string>)
  {
    forall a, b {:trigger Claimed(starts, names, a), Claimed(starts, names, b)} ::
      a in added && b in added && a != b && a in starts && a in names && b in starts && b in names ==>
        Claimed(starts, names, a) !! Claimed(starts, names, b)
  }

  /** The units of `known` with the ids `ids` reflect their rows at their
      file names. */
  ghost predicate Reflected(rule: DeleteRule, ctx: Context, known: map<string, RowSync>, ids: set<string>,
                            files: FileSystem)
    reads known.Values
  {
    (forall id :: id in ids ==> id in known)
    && forall id {:trigger Reflects(rule, ctx, known[id].row, known[id].filename, files)} ::
         id in ids && id in known ==> Reflects(rule, ctx, known[id].row, known[id].filename, files)
  }

  /** The units of the first `i` ids of `ids` reflect their rows `next` at
      their file names `names`. */
  ghost predicate ReflectsUpTo(rule: DeleteRule, ctx: Context, ids: seq<string>, i: nat,
                               next: map<string, Row>, names: map<string, string>, files: FileSystem)
  {
    forall k {:trigger Reflects(rule, ctx, next[ids[k]], names[ids[k]], files)} ::
      0 <= k < i && k < |ids| ==>
        ids[k] in next && ids[k] in names && Reflects(rule, ctx, next[ids[k]], names[ids[k]], files)
  }

  /** One update of the unit of `ids[i]`, which starts at `starts[ids[i]]`
      holding `byId[ids[i]]`: its result is the row `next[ids[i]]`, on
      success at `names[ids[i]]`; it touches only file names among `paths`;
      and, when no two new rows share a file name, it extends the prefix of
      `ids` whose units reflect their rows by one. */
  lemma UpdateStep(rule: DeleteRule, ctx: Context, rootDir: string, today: Date, byId: map<string, Row>,
                   added: set<string>, ids: seq<string>, i: nat, starts: map<string, string>,
                   next: map<string, Row>, names: map<string, string>, paths: set<string>,
                   start: FileSystem, files: FileSystem, o: Outcome)
    requires i < |ids| && ids[i] in added
    requires StartsAt(rootDir, byId, added, starts) && MovesTo(rootDir, byId, today, added, next, names)
    requires o == UpdateFileSpec(rule, ctx, rootDir, today, byId[ids[i]], starts[ids[i]], files)
    requires starts[ids[i]] in paths && names[ids[i]] in paths && SameExcept(start, files, paths)
    requires Disjoint(added, starts, names) ==>
               Distinct(ids) && (forall id :: id in ids ==> id in added)
               && ReflectsUpTo(rule, ctx, ids, i, next, names, files)
    ensures o.row == next[ids[i]] && (o.raised.None? ==> o.filename == names[ids[i]])
    ensures SameExcept(start, o.files, paths)
    ensures o.raised.None? && Disjoint(added, starts, names) ==>
              ReflectsUpTo(rule, ctx, ids, i + 1, next, names, o.files)
  {
    var id := ids[i];
    var row, filename := byId[id], starts[id];
    UpdateFileFrame(rule, ctx, rootDir, today, row, filename, files);
    UpdateFileAdoptsFilename(rule, ctx, rootDir, today, row, filename, files);
    var s := Claimed(starts, names, id);
    SameExceptTrans(start, files, o.files, paths, s, paths);
    UpdateFileReflects(rule, ctx, rootDir, today, row, filename, files);
    ReflectsExtend(rule, ctx, added, ids, i, starts, next, names, files, o.files, o.raised);
  }

  /** An update of the unit of `ids[i]`, which touches only the file names
      it claims and, on success, leaves the unit's file reflecting its row,
      extends the prefix of `ids` whose units reflect their rows by one when
      no two new units claim the same file name. */
  lemma ReflectsExtend(rule: DeleteRule, ctx: Context, added: set<string>, ids: seq<string>, i: nat,
                       starts: map<string, string>, next: map<string, Row>, names: map<string, string>,
                       f1: FileSystem, f2: FileSystem, raised: Option<Exception>)
    requires i < |ids| && ids[i] in starts && ids[i] in next && ids[i] in names
    requires forall id :: id in added ==> id in starts && id in next && id in names
    requires SameExcept(f1, f2, Claimed(starts, names, ids[i]))
    requires raised.None? ==> Reflects(rule, ctx, next[ids[i]], names[ids[i]], f2)
    requires Disjoint(added, starts, names) ==>
               Distinct(ids) && (forall id :: id in ids ==> id in added)
               && ReflectsUpTo(rule, ctx, ids, i, next, names, f1)
    ensures raised.None? && Disjoint(added, starts, names) ==> ReflectsUpTo(rule, ctx, ids, i + 1, next, names, f2)
  {
    if raised.None? && Disjoint(added, starts, names) {
      assert ids[i] in ids;
      forall k | 0 <= k < i
        ensures Reflects(rule, ctx, next[ids[k]], names[ids[k]], f2)
      {
        var id := ids[k];
        assert id in ids && id != ids[i];
        assert names[id] in Claimed(starts, names, id);
        ReflectsFrame(rule, ctx, next[id], names[id], f1, f2, Claimed(starts, names, ids[i]));
      }
    }
  }

  /** When the whole of `ids` reflects its rows and the units hold those
      rows at those names, the units of the set `ids` enumerates reflect
      their rows. */
  lemma ReflectsAll(rule: DeleteRule, ctx: Context, ids: seq<string>, s: set<string>, known: map<string, RowSync>,
                    next: map<string, Row>, names: map<string, string>, files: FileSystem)
    requires Enumerates(ids, s) && ReflectsUpTo(rule, ctx, ids, |ids|, next, names, files)
    requires forall id :: id in s ==> id in known && id in next && id in names
                                      && known[id].row == next[id] && known[id].filename == names[id]
    ensures Reflected(rule, ctx, known, s, files)
  {
    forall id | id in s
      ensures Reflects(rule, ctx, known[id].row, known[id].filename, files)
    {
      var k :| 0 <= k < |ids| && ids[k] == id;
    }
  }

  /** Under the intended deletion, a file reflecting its row is a regular
      file exactly when the row is published. */
  lemma ReflectsIntended(ctx: Context, known: map<string, RowSync>, ids: set<string>, files: FileSystem)
    ensures Reflected(Intended, ctx, known, ids, files) ==>
              forall id :: id in ids ==>
                id in known && (HasFile(files, known[id].filename) <==> IsRowPublished(known[id].row) == Ok(true))
  {
    forall id | id in ids && Reflected(Intended, ctx, known, ids, files)
      ensures id in known && (HasFile(files, known[id].filename) <==> IsRowPublished(known[id].row) == Ok(true))
    {
      assert Reflects(Intended, ctx, known[id].row, known[id].filename, files);
    }
  }

  /** A successful disposal at `name` keeps the files it follows gone and
      adds its own. */
  lemma DisposalStep(f1: FileSystem, f2: FileSystem, name: string, done: set<string>)
    requires (forall p :: p in done ==> !HasFile(f1, p)) && SameExcept(f1, f2, {name}) && !HasFile(f2, name)
    ensures forall p :: p in done + {name} ==> !HasFile(f2, p)
  {
  }

  /** Every id of `ids` has its name in `done`, hence every id of the set
      `ids` enumerates. */
  lemma AllDone(ids: seq<string>, s: set<string>, names: map<string, string>, done: set<string>)
    requires Enumerates(ids, s) && forall k :: 0 <= k < |ids| ==> ids[k] in names && names[ids[k]] in done
    ensures forall id :: id in s ==> id in names && names[id] in done
  {
    forall id | id in s
      ensures id in names && names[id] in done
    {
      var k :| 0 <= k < |ids| && ids[k] == id;
    }
  }

  /** The steps of `sync_rows`, in the order they happen: a unit inserted
      into `known_rows`, a unit disposed of, a unit deleted from
      `known_rows`, and a unit updated (or started) while `known_rows`
      tracks the given ids. */
  datatype Event = Inserted(id: string) | Disposed(id: string) | Dropped(id: string) | Updated(id: string, tracked: set<string>)

  /** The steps of the first loop of `sync_rows` over `ids`. */
  function Insertions(ids: seq<string>): (r: seq<Event>)
    ensures |r| == |ids| && forall k :: 0 <= k < |ids| ==> r[k] == Inserted(ids[k])
  {
    if ids == [] then [] else [Inserted(ids[0])] + Insertions(ids[1..])
  }

  /** Only disposals and deletions, each deletion right after the disposal
      of the same unit. */
  ghost predicate DisposalTrace(t: seq<Event>)
  {
    (forall j :: 0 <= j < |t| ==> t[j].Disposed? || t[j].Dropped?)
    && forall j :: 0 <= j < |t| && t[j].Dropped? ==> 0 < j && t[j - 1] == Disposed(t[j].id)
  }

  lemma DisposalTraceGrows(t: seq<Event>, id: string)
    requires DisposalTrace(t)
    ensures DisposalTrace(t + [Disposed(id)]) && DisposalTrace(t + [Disposed(id)] + [Dropped(id)])
  {
  }

  /** The order of the steps of `sync_rows`: every insertion comes before
      every other step and every update after every other step, each
      deletion right after the disposal of the same unit, and each update is
      of an id of `added` while the ids `tracked` are tracked. */
  ghost predicate SyncOrder(t: seq<Event>, tracked: set<string>, added: set<string>)
  {
    (forall i, j :: 0 <= i < j < |t| && t[j].Inserted? ==> t[i].Inserted?)
    && (forall i, j :: 0 <= i < j < |t| && t[i].Updated? ==> t[j].Updated?)
    && (forall i :: 0 <= i < |t| && t[i].Dropped? ==> 0 < i && t[i - 1] == Disposed(t[i].id))
    && (forall i :: 0 <= i < |t| && t[i].Updated? ==> t[i].tracked == tracked && t[i].id in added)
  }

  /** `t` records, in order, the updates of a prefix of `ids` made while
      exactly `tracked` are tracked. */
  ghost predicate UpdatesOf(t: seq<Event>, ids: seq<string>, tracked: set<string>)
  {
    |t| <= |ids| && forall k :: 0 <= k < |t| ==> t[k] == Updated(ids[k], tracked)
  }

  /** Insertions, then disposals and deletions, then updates of added ids
      while `tracked` are tracked, are in sync order. */
  lemma InSyncOrder(t1: seq<Event>, t2: seq<Event>, t3: seq<Event>, tracked: set<string>, added: set<string>)
    requires forall k :: 0 <= k < |t1| ==> t1[k].Inserted?
    requires DisposalTrace(t2)
    requires forall k :: 0 <= k < |t3| ==> t3[k].Updated? && t3[k].tracked == tracked && t3[k].id in added
    ensures SyncOrder(t1 + t2 + t3, tracked, added)
  {
  }

  /** The insertions of `addedIds`, then the disposals and deletions `t2`,
      then the updates `t3` of a prefix of `addedIds` are in order; when `t3`
      covers `addedIds`, every id of `added` is updated. */
  lemma SyncTrace(addedIds: seq<string>, t2: seq<Event>, t3: seq<Event>, added: set<string>, tracked: set<string>)
    requires DisposalTrace(t2)
    requires UpdatesOf(t3, addedIds, tracked)
    requires Enumerates(addedIds, added)
    ensures SyncOrder(Insertions(addedIds) + t2 + t3, tracked, added)
    ensures |t3| == |addedIds| ==> forall id :: id in added ==> Updated(id, tracked) in Insertions(addedIds) + t2 + t3
  {
    var t1 := Insertions(addedIds);
    InSyncOrder(t1, t2, t3, tracked, added);
    var t := t1 + t2 + t3;
    forall id | id in added && |t3| == |addedIds|
      ensures Updated(id, tracked) in t
    {
      var k :| 0 <= k < |addedIds| && addedIds[k] == id;
      assert t[|t1| + |t2| + k] == t3[k];
    }
  }

  /** Synchronizes a collection's rows to one markdown file each, tracking
      the rows that are added and removed. */
  class CollectionFileSync {
    const collectionId: string
    const rootDir: string
    const watch: bool
    const rule: DeleteRule
    var knownRows: map<string, RowSync>

    /** `CollectionFileSync.__init__`: no row is tracked yet. */
    constructor(collectionId: string, rootDir: string, watch: bool, rule: DeleteRule)
      ensures this.collectionId == collectionId && this.rootDir == rootDir
      ensures this.watch == watch && this.rule == rule
      ensures knownRows == map[] && Valid()
    {
      this.collectionId := collectionId;
      this.rootDir := rootDir;
      this.watch := watch;
      this.rule := rule;
      knownRows := map[];
    }

    /** The context of the shared markdown generator. */
    function GeneratorContext(): Context
    {
      Context(collectionId)
    }

    /** Every unit is configured like the collection and tracked under the id
        of its row, so no unit is tracked under two ids. */
    ghost predicate Valid()
      reads this
    {
      forall id :: id in knownRows ==>
        knownRows[id].rootDir == rootDir && knownRows[id].ctx == GeneratorContext() && knownRows[id].rule == rule
        && knownRows[id].key == id
    }

    /** When no two of the new rows `added` share a file name, each of their
        units reflects its row in `files`. */
    ghost predicate NewFilesReflect(byId: map<string, Row>, added: set<string>, today: Date, files: FileSystem)
      reads this, knownRows.Values
    {
      SeparateFiles(rootDir, byId, added, today) ==> Reflected(rule, GeneratorContext(), knownRows, added, files)
    }

    /** A unit as `RowSync.__init__` leaves it: holding `row`, at `name`,
        with no callback and not subscribed. */
    predicate Unstarted(unit: RowSync, row: Row, name: string)
      reads unit
    {
      unit.row == row && unit.filename == name && !unit.callbackSet && !unit.subscribed
    }

    /** After its update, `unit` holds `row`, is at `name`, and has its
        callback id assigned and is subscribed exactly in watch mode. */
    predicate Settled(unit: RowSync, row: Row, name: string)
      reads unit
    {
      unit.row == row && unit.filename == name && unit.callbackSet == watch && unit.subscribed == watch
    }

    /** Every tracked unit has its callback id assigned, so none of their
        disposals raises AttributeError. */
    ghost predicate Started()
      reads this, knownRows.Values
    {
      forall id :: id in knownRows ==> knownRows[id].callbackSet
    }

    /** One step of the third loop of `sync_rows`, on the unit of `ids[i]`:
        start the unit in watch mode, update it otherwise. The unit starts
        at `starts[ids[i]]`, `next[ids[i]]` is its row after the update,
        `names[ids[i]]` that row's file name and `paths` the file names the
        loop may touch since it began at `start`; when no two new rows share
        a file name, the unit's file joins those of the ids before it in
        reflecting its row. */
    method UpdateUnit(unit: RowSync, disk: Disk, today: Date, ghost byId: map<string, Row>, ghost added: set<string>,
                      ghost ids: seq<string>, ghost i: nat, ghost starts: map<string, string>,
                      ghost next: map<string, Row>, ghost names: map<string, string>,
                      ghost paths: set<string>, ghost start: FileSystem)
      returns (raised: Option<Exception>)
      requires unit.rootDir == rootDir && unit.ctx == GeneratorContext() && unit.rule == rule
      requires i < |ids| && ids[i] in added
      requires StartsAt(rootDir, byId, added, starts) && MovesTo(rootDir, byId, today, added, next, names)
      requires unit.row == byId[ids[i]] && unit.filename == starts[ids[i]] && !unit.callbackSet && !unit.subscribed
      requires unit.filename in paths && names[ids[i]] in paths && SameExcept(start, disk.files, paths)
      requires Disjoint(added, starts, names) ==>
                 Distinct(ids) && (forall id :: id in ids ==> id in added)
                 && ReflectsUpTo(rule, GeneratorContext(), ids, i, next, names, disk.files)
      modifies unit, disk
      ensures raised.None? ==> Settled(unit, next[ids[i]], names[ids[i]])
      ensures raised.None? && Disjoint(added, starts, names) ==>
                ReflectsUpTo(rule, GeneratorContext(), ids, i + 1, next, names, disk.files)
      ensures SameExcept(start, disk.files, paths)
    {
      ghost var files0 := disk.files;
      if watch {
        raised := unit.StartWatching(disk, today);
      } else {
        raised := unit.UpdateFile(disk, today);
      }
      UpdateStep(rule, GeneratorContext(), rootDir, today, byId, added, ids, i, starts, next, names, paths,
                 start, files0, Outcome(unit.row, unit.filename, disk.files, raised));
    }

    /** One step of the second loop of `sync_rows`, stated by what the loop
        needs of it. */
    method DisposeUnit(unit: RowSync, disk: Disk) returns (raised: Option<Exception>)
      requires unit.rule == rule
      modifies unit, disk
      ensures Disposal(unit.subscribed, disk.files, raised) ==
              DisposeSpec(rule, old(unit.callbackSet), old(unit.subscribed), unit.filename, old(disk.files))
      ensures raised.None? ==> !unit.subscribed && !HasFile(disk.files, unit.filename)
      ensures rule == Intended ==> raised.None?
      ensures unit.row == old(unit.row) && unit.filename == old(unit.filename)
      ensures SameExcept(old(disk.files), disk.files, {unit.filename})
    {
      ghost var callbackSet0, subscribed0, files0 := unit.callbackSet, unit.subscribed, disk.files;
      raised := unit.StopWatchingAndRemove(disk);
      DisposeFrame(rule, callbackSet0, subscribed0, unit.filename, files0);
    }

    /** One step of the first loop of `sync_rows`: track a fresh unit for
        the new row of `id`, starting at `starts[id]`. */
    method AddUnit(id: string, byId: map<string, Row>, ghost added: set<string>, ghost starts: map<string, string>)
      returns (unit: RowSync)
      requires Valid() && id in added && id in byId && byId[id].id == id
      requires StartsAt(rootDir, byId, added, starts)
      modifies this
      ensures Valid() && knownRows == old(knownRows)[id := unit]
      ensures fresh(unit) && Unstarted(unit, byId[id], starts[id])
    {
      unit := new RowSync(rootDir, byId[id], GeneratorContext(), rule);
      knownRows := knownRows[id := unit];
    }

    /** The first loop of `sync_rows`, over the added ids in iteration order:
        a fresh unit for each, not yet updated. */
    method InsertUnits(ids: seq<string>, byId: map<string, Row>, ghost added: set<string>, ghost starts: map<string, string>)
      returns (ghost created: set<RowSync>)
      requires Valid()
      requires forall id :: id in byId ==> byId[id].id == id
      requires forall id :: id in ids ==> id in byId && id !in knownRows && id in added
      requires StartsAt(rootDir, byId, added, starts)
      modifies this
      ensures Valid()
      ensures forall id :: id in knownRows <==> id in old(knownRows) || id in ids
      ensures forall id :: id in old(knownRows) ==> knownRows[id] == old(knownRows[id])
      ensures forall id :: id in ids ==> fresh(knownRows[id]) && Unstarted(knownRows[id], byId[id], starts[id])
      ensures ids == [] ==> knownRows == old(knownRows)
      ensures (forall u :: u in created ==> fresh(u)) && forall id :: id in ids ==> knownRows[id] in created
    {
      created := {};
      var i := 0;
      while i < |ids|
        invariant 0 <= i <= |ids|
        invariant forall id :: id in knownRows <==> id in old(knownRows) || id in ids[..i]
        invariant forall id :: id in old(knownRows) ==> knownRows[id] == old(knownRows[id])
        invariant forall k :: 0 <= k < i ==>
                    fresh(knownRows[ids[k]]) && Unstarted(knownRows[ids[k]], byId[ids[k]], starts[ids[k]])
        invariant i == 0 ==> knownRows == old(knownRows)
        invariant Valid()
        invariant (forall u :: u in created ==> fresh(u)) && forall k :: 0 <= k < i ==> knownRows[ids[k]] in created
      {
        var id := ids[i];
        var unit := AddUnit(id, byId, added, starts);
        created := created + {unit};
        assert ids[..i + 1] == ids[..i] + [id];
        i := i + 1;
      }
      assert ids[..i] == ids;
    }

    /** The second loop of `sync_rows`, over the removed ids in iteration
        order: dispose of each unit, then delete it; a disposal that raises
        stops the loop with that unit still tracked. `paths` holds the file
        names of those units. */
    method DisposeUnits(ids: seq<string>, disk: Disk, ghost removed: set<string>, ghost paths: set<string>)
      returns (raised: Option<Exception>, ghost trace: seq<Event>)
      requires Valid() && Distinct(ids) && Enumerates(ids, removed)
      requires forall id :: id in ids ==> id in knownRows && knownRows[id].filename in paths
      modifies this, disk, knownRows.Values
      ensures Valid()
      ensures forall id :: id in knownRows ==> id in old(knownRows) && knownRows[id] == old(knownRows[id])
      ensures forall id :: id in old(knownRows) && id !in removed ==> id in knownRows && unchanged(knownRows[id])
      ensures raised.None? ==> forall id :: id in removed ==> id !in knownRows && !old(knownRows[id]).subscribed
      ensures raised.None? ==> forall id :: id in removed ==> !HasFile(disk.files, old(knownRows[id].filename))
      ensures SameExcept(old(disk.files), disk.files, paths)
      ensures ids == [] ==> raised.None? && knownRows == old(knownRows) && disk.files == old(disk.files)
      ensures rule == Intended ==> raised.None?
      ensures DisposalTrace(trace)
    {
      trace := [];
      var known := knownRows;
      ghost var names := map id | id in ids :: knownRows[id].filename;
      ghost var known0 := knownRows;
      ghost var done: set<string> := {};
      var i := 0;
      while i < |ids|
        invariant 0 <= i <= |ids| && knownRows == old(knownRows)
        invariant forall id :: id in known ==> id in known0 && known[id] == known0[id]
        invariant forall id :: id in known ==> unchanged(known[id])
        invariant forall id :: id in known0 && id !in ids ==> id in known
        invariant forall k :: 0 <= k < i ==> ids[k] !in known && !known0[ids[k]].subscribed
        invariant (forall k :: 0 <= k < i ==> names[ids[k]] in done) && forall p :: p in done ==> !HasFile(disk.files, p)
        invariant forall k :: i <= k < |ids| ==> ids[k] in known
        invariant SameExcept(old(disk.files), disk.files, paths)
        invariant i == 0 ==> known == known0 && disk.files == old(disk.files)
        invariant DisposalTrace(trace)
      {
        var id := ids[i];
        var unit := known[id];
        ghost var before := disk.files;
        DisposalTraceGrows(trace, id);
        trace := trace + [Disposed(id)];
        raised := DisposeUnit(unit, disk);
        SameExceptTrans(old(disk.files), before, disk.files, paths, {unit.filename}, paths);
        if raised.Some? {
          knownRows := known;
          return;
        }
        assert !unit.subscribed;
        DisposalStep(before, disk.files, names[id], done);
        done := done + {names[id]};
        known := known - {id};
        trace := trace + [Dropped(id)];
        i := i + 1;
      }
      knownRows := known;
      raised := None;
      AllDone(ids, removed, names, done);
    }

    /** The third loop of `sync_rows` over the tracked units `units`: update
        (or, in watch mode, start) the unit of each added id, in iteration
        order; an exception stops the loop. `next` holds each unit's row
        after its update, `names` the file names of those rows, and `paths`
        every file name a unit starts with or moves to. When no two new rows
        share a file name, every unit's file reflects its row at the end. */
    method UpdateUnits(units: map<string, RowSync>, ids: seq<string>, today: Date, disk: Disk,
                       ghost byId: map<string, Row>, ghost added: set<string>, ghost starts: map<string, string>,
                       ghost next: map<string, Row>, ghost names: map<string, string>, ghost paths: set<string>,
                       ghost tracked: set<string>, ghost created: set<RowSync>)
      returns (raised: Option<Exception>, ghost trace: seq<Event>)
      requires (forall id :: id in tracked <==> id in units) && Distinct(ids)
      requires forall j, k :: 0 <= j < |ids| && 0 <= k < |ids| && j != k && ids[j] in units && ids[k] in units ==>
                 units[ids[j]] != units[ids[k]]
      requires StartsAt(rootDir, byId, added, starts) && MovesTo(rootDir, byId, today, added, next, names)
      requires forall id :: id in ids ==> id in added && id in units
      requires forall id :: id in ids ==>
                 units[id].rootDir == rootDir && units[id].ctx == GeneratorContext()
                 && units[id].rule == rule && !units[id].callbackSet && !units[id].subscribed
                 && units[id].row == byId[id]
                 && units[id].filename == starts[id]
                 && units[id].filename in paths && names[id] in paths && units[id] in created
      modifies disk, created
      ensures raised.None? ==> forall id :: id in ids ==> Settled(units[id], next[id], names[id])
      ensures raised.None? && Disjoint(added, starts, names) ==> ReflectsUpTo(rule, GeneratorContext(), ids, |ids|, next, names, disk.files)
      ensures SameExcept(old(disk.files), disk.files, paths)
      ensures ids == [] ==> raised.None? && disk.files == old(disk.files)
      ensures |trace| <= |ids| && (raised.None? ==> |trace| == |ids|)
      ensures forall k :: 0 <= k < |trace| ==> trace[k] == Updated(ids[k], tracked)
    {
      trace := [];
      var i := 0;
      while i < |ids|
        invariant 0 <= i <= |ids|
        invariant forall k :: i <= k < |ids| ==> unchanged(units[ids[k]])
        invariant forall k :: 0 <= k < i ==> Settled(units[ids[k]], next[ids[k]], names[ids[k]])
        invariant SameExcept(old(disk.files), disk.files, paths)
        invariant i == 0 ==> disk.files == old(disk.files)
        invariant |trace| == i && forall k :: 0 <= k < i ==> trace[k] == Updated(ids[k], tracked)
        invariant Disjoint(added, starts, names) ==> ReflectsUpTo(rule, GeneratorContext(), ids, i, next, names, disk.files)
      {
        var id := ids[i];
        var unit := units[id];
        trace := trace + [Updated(id, tracked)];
        raised := UpdateUnit(unit, disk, today, byId, added, ids, i, starts, next, names, paths, old(disk.files));
        if raised.Some? {
          return;
        }
        i := i + 1;
      }
      raised := None;
    }

    /** The first two loops of `sync_rows`: insert a fresh unit for each
        id of `addedIds`, then dispose of and delete the unit of each id of
        `removedIds`; both lists are the sets `added` and `removed` in
        iteration order. */
    method Rekey(byId: map<string, Row>, ids: set<string>, added: set<string>, removed: set<string>,
                 addedIds: seq<string>, removedIds: seq<string>, disk: Disk,
                 ghost starts: map<string, string>, ghost removedPaths: set<string>)
      returns (raised: Option<Exception>, ghost trace: seq<Event>, ghost created: set<RowSync>)
      requires Valid()
      requires forall id :: id in byId ==> byId[id].id == id
      requires StartsAt(rootDir, byId, added, starts)
      requires forall id :: id in byId <==> id in ids
      requires forall id :: id in added <==> id in ids && id !in knownRows
      requires forall id :: id in removed <==> id in knownRows && id !in ids
      requires Enumerates(addedIds, added)
      requires Enumerates(removedIds, removed)
      requires Distinct(removedIds) && (added == {} ==> addedIds == []) && (removed == {} ==> removedIds == [])
      requires forall id :: id in removed ==> knownRows[id].filename in removedPaths
      modifies this, disk, knownRows.Values
      ensures Valid()
      ensures raised.None? ==> forall id :: id in knownRows <==> id in ids
      ensures forall id :: id in knownRows ==> id in old(knownRows) || id in added
      ensures forall id :: id in old(knownRows) && id !in removed ==>
                id in knownRows && knownRows[id] == old(knownRows[id]) && unchanged(knownRows[id])
      ensures forall id :: id in added ==>
                id in knownRows && fresh(knownRows[id]) && knownRows[id].row == byId[id]
                && knownRows[id].filename == starts[id] && !knownRows[id].callbackSet && !knownRows[id].subscribed
      ensures raised.None? ==> forall id :: id in removed ==> !old(knownRows[id]).subscribed
      ensures raised.None? ==> forall id :: id in removed ==> !HasFile(disk.files, old(knownRows[id].filename))
      ensures SameExcept(old(disk.files), disk.files, removedPaths)
      ensures removed == {} ==> raised.None? && disk.files == old(disk.files)
      ensures added == {} && removed == {} ==> knownRows == old(knownRows)
      ensures rule == Intended ==> raised.None?
      ensures DisposalTrace(trace)
      ensures (forall u :: u in created ==> fresh(u)) && forall id :: id in added ==> knownRows[id] in created
    {
      created := InsertUnits(addedIds, byId, added, starts);
      raised, trace := DisposeUnits(removedIds, disk, removed, removedPaths);
    }

    /** The third loop of `sync_rows`, on the fresh units of the ids
        `added`, visited in the iteration order `addedIds`, while the tracked
        ids are `ids`; `paths` holds each new unit's first file name and the
        name of its derived row. When no two new rows share a file name,
        every new unit's file reflects its row at the end. */
    method UpdateAdded(byId: map<string, Row>, ids: set<string>, added: set<string>, addedIds: seq<string>,
                       disk: Disk, today: Date, ghost starts: map<string, string>,
                       ghost next: map<string, Row>, ghost names: map<string, string>,
                       ghost paths: set<string>, ghost created: set<RowSync>)
      returns (raised: Option<Exception>, ghost trace: seq<Event>)
      requires Valid() && forall id :: id in knownRows <==> id in ids
      requires Enumerates(addedIds, added) && Distinct(addedIds) && (added == {} ==> addedIds == [])
      requires StartsAt(rootDir, byId, added, starts) && MovesTo(rootDir, byId, today, added, next, names)
      requires forall id :: id in added ==>
                 id in byId && id in knownRows && knownRows[id].row == byId[id]
                 && !knownRows[id].callbackSet && !knownRows[id].subscribed
                 && knownRows[id].filename in paths && names[id] in paths && knownRows[id] in created
      requires forall id :: id in added ==> knownRows[id].filename == starts[id]
      modifies disk, created
      ensures raised.None? ==> forall id :: id in added ==>
                knownRows[id].row == next[id] && knownRows[id].filename == names[id]
                && knownRows[id].callbackSet == watch && knownRows[id].subscribed == watch
      ensures raised.None? ==> NewFilesReflect(byId, added, today, disk.files)
      ensures SameExcept(old(disk.files), disk.files, paths)
      ensures added == {} ==> raised.None? && disk.files == old(disk.files)
      ensures UpdatesOf(trace, addedIds, ids) && (raised.None? ==> |trace| == |addedIds|)
    {
      raised, trace := UpdateUnits(knownRows, addedIds, today, disk, byId, added, starts, next, names, paths, ids, created);
      SeparateDisjoint(rootDir, byId, added, today, starts, next, names);
      if raised.None? && SeparateFiles(rootDir, byId, added, today) {
        ReflectsAll(rule, GeneratorContext(), addedIds, added, knownRows, next, names, disk.files);
      }
    }

    /** The three loops of `sync_rows` once the snapshot has been diffed:
        `ids` are the snapshot's ids, `byId` its rows by id, `added` the new
        ids and `removed` the ids no longer listed; `addedPaths` holds the
        file names the new units start with and move to. When no two new
        rows share a file name, every new unit's file reflects its row at the
        end, whatever the removed units' file names were. */
    method Reconcile(byId: map<string, Row>, ids: set<string>, added: set<string>, removed: set<string>,
                     addedIds: seq<string>, removedIds: seq<string>, disk: Disk, today: Date,
                     ghost starts: map<string, string>, ghost next: map<string, Row>, ghost names: map<string, string>,
                     ghost removedPaths: set<string>, ghost addedPaths: set<string>)
      returns (raised: Option<Exception>, ghost disposals: seq<Event>, ghost updates: seq<Event>)
      requires Valid()
      requires forall id :: id in byId ==> byId[id].id == id
      requires forall id :: id in byId <==> id in ids
      requires forall id :: id in added <==> id in ids && id !in knownRows
      requires forall id :: id in removed <==> id in knownRows && id !in ids
      requires Enumerates(addedIds, added)
      requires Enumerates(removedIds, removed)
      requires Distinct(addedIds) && Distinct(removedIds)
      requires (added == {} ==> addedIds == []) && (removed == {} ==> removedIds == [])
      requires StartsAt(rootDir, byId, added, starts) && MovesTo(rootDir, byId, today, added, next, names)
      requires forall id :: id in removed ==> knownRows[id].filename in removedPaths
      requires forall id :: id in added ==> starts[id] in addedPaths && names[id] in addedPaths
      modifies this, disk, knownRows.Values
      ensures Valid()
      ensures raised.None? ==> forall id :: id in knownRows <==> id in ids
      ensures forall id :: id in knownRows ==> id in old(knownRows) || (id in added && fresh(knownRows[id]))
      ensures forall id :: id in old(knownRows) && id !in removed ==>
                id in knownRows && knownRows[id] == old(knownRows[id]) && unchanged(knownRows[id])
      ensures raised.None? ==> forall id :: id in added ==>
                knownRows[id].row == next[id] && knownRows[id].filename == names[id]
                && knownRows[id].callbackSet == watch && knownRows[id].subscribed == watch
      ensures raised.None? ==> NewFilesReflect(byId, added, today, disk.files)
      ensures raised.None? ==> forall id :: id in removed ==> !old(knownRows[id]).subscribed
      ensures raised.None? ==> forall id :: id in removed && old(knownRows[id].filename) !in addedPaths ==>
                !HasFile(disk.files, old(knownRows[id].filename))
      ensures SameExcept(old(disk.files), disk.files, removedPaths + addedPaths)
      ensures added == {} && removed == {} ==> raised.None? && knownRows == old(knownRows) && disk.files == old(disk.files)
      ensures rule == Intended && added == {} ==> raised.None?
      ensures DisposalTrace(disposals)
      ensures UpdatesOf(updates, addedIds, ids) && (raised.None? ==> |updates| == |addedIds|)
    {
      ghost var created;
      raised, disposals, created := Rekey(byId, ids, added, removed, addedIds, removedIds, disk, starts, removedPaths);
      if raised.None? {
        ghost var filesBetween := disk.files;
        raised, updates := UpdateAdded(byId, ids, added, addedIds, disk, today, starts, next, names, addedPaths, created);
        SameExceptTrans(old(disk.files), filesBetween, disk.files, removedPaths, addedPaths, removedPaths + addedPaths);
      } else {
        updates := [];
        SameExceptTrans(old(disk.files), disk.files, disk.files, removedPaths, {}, removedPaths + addedPaths);
      }
    }

    /** `sync_rows` on the snapshot `rows`: insert a unit for every new id,
        then dispose of and delete the unit of every id no longer listed,
        then update (or, in watch mode, start) the new units. As written the
        log line of the second loop reads the local `row`, which only the
        first loop assigns, so a snapshot that removes rows and adds none
        raises UnboundLocalError before any unit is disposed of; the
        intended rule logs without it. */
    method SyncRows(rows: seq<Row>, disk: Disk, today: Date) returns (raised: Option<Exception>, ghost trace: seq<Event>)
      requires Valid()
      modifies this, disk, knownRows.Values
      ensures Valid()
      // the key set follows the snapshot
      ensures raised.None? ==> forall id :: id in knownRows <==> id in IdsOf(rows)
      ensures forall id :: id in knownRows ==> id in old(knownRows) || (id in IdsOf(rows) && fresh(knownRows[id]))
      // units of ids in both are left alone
      ensures forall id :: id in old(knownRows) && id in IdsOf(rows) ==>
                id in knownRows && knownRows[id] == old(knownRows[id]) && unchanged(knownRows[id])
      // new units are updated
      ensures raised.None? ==> forall id :: id in IdsOf(rows) && id !in old(knownRows) ==>
                knownRows[id].row == WithDerivedStatus(ById(rows)[id], today)
                && knownRows[id].filename == SyncFilename(rootDir, knownRows[id].row)
                && knownRows[id].callbackSet == watch && knownRows[id].subscribed == watch
      // with no file name shared by two new rows, each new unit's file reflects its row
      ensures raised.None? && SeparateFiles(rootDir, ById(rows), IdsOf(rows) - old(knownRows.Keys), today) ==>
                Reflected(rule, GeneratorContext(), knownRows, IdsOf(rows) - old(knownRows.Keys), disk.files)
      // so that under the intended deletion a new unit has a file exactly when its row is published
      ensures rule == Intended && raised.None? && SeparateFiles(rootDir, ById(rows), IdsOf(rows) - old(knownRows.Keys), today) ==>
                forall id :: id in IdsOf(rows) && id !in old(knownRows) ==>
                  (HasFile(disk.files, knownRows[id].filename) <==> IsRowPublished(knownRows[id].row) == Ok(true))
      // removed units are unsubscribed
      ensures raised.None? ==> forall id :: id in old(knownRows) && id !in IdsOf(rows) ==> !old(knownRows[id]).subscribed
      // and their files are gone, unless a new unit may hold the name
      ensures raised.None? ==>
                forall id :: id in old(knownRows) && id !in IdsOf(rows) &&
                             old(knownRows[id].filename) !in UnitPaths(rootDir, ById(rows), IdsOf(rows) - old(knownRows.Keys), today) ==>
                  !HasFile(disk.files, old(knownRows[id].filename))
      // nothing else changes on disk
      ensures SameExcept(old(disk.files), disk.files,
                         old(Filenames(knownRows, knownRows.Keys - IdsOf(rows)))
                         + UnitPaths(rootDir, ById(rows), IdsOf(rows) - old(knownRows.Keys), today))
      // in watch mode every tracked unit stays started
      ensures watch && raised.None? && old(Started()) ==> Started()
      // a snapshot with the same ids changes nothing
      ensures IdsOf(rows) == old(knownRows.Keys) ==> raised.None? && knownRows == old(knownRows) && disk.files == old(disk.files)
      // as written, removing rows without adding any raises and changes nothing
      ensures rule == AsWritten && IdsOf(rows) < old(knownRows.Keys) ==>
                raised == Some(UnboundLocalError) && knownRows == old(knownRows) && disk.files == old(disk.files) && trace == []
      // the intended rule removes them
      ensures rule == Intended && IdsOf(rows) <= old(knownRows.Keys) ==> raised.None?
      // insertions first, updates of new rows last, while exactly the snapshot's ids are tracked
      ensures SyncOrder(trace, IdsOf(rows), IdsOf(rows) - old(knownRows.Keys))
      ensures raised.None? ==> forall id :: id in IdsOf(rows) && id !in old(knownRows) ==> Updated(id, IdsOf(rows)) in trace
    {
      if rule == AsWritten && IdsOf(rows) - knownRows.Keys == {} && knownRows.Keys - IdsOf(rows) != {} {
        raised, trace := Some(UnboundLocalError), [];
      } else {
        raised, trace := Apply(rows, disk, today);
        ReflectsIntended(GeneratorContext(), knownRows, IdsOf(rows) - old(knownRows.Keys), disk.files);
        if watch && raised.None? && old(Started()) {
          forall id | id in knownRows
            ensures knownRows[id].callbackSet
          {
            if id in old(knownRows) {
              assert old(knownRows[id].callbackSet);
            }
          }
        }
      }
    }

    /** `sync_rows` on a snapshot that does not raise UnboundLocalError:
        diff it against the tracked ids, then run the three loops. */
    method Apply(rows: seq<Row>, disk: Disk, today: Date) returns (raised: Option<Exception>, ghost trace: seq<Event>)
      requires Valid()
      requires rule == AsWritten && IdsOf(rows) - knownRows.Keys == {} ==> knownRows.Keys - IdsOf(rows) == {}
      modifies this, disk, knownRows.Values
      ensures Valid()
      // the key set follows the snapshot
      ensures raised.None? ==> forall id :: id in knownRows <==> id in IdsOf(rows)
      ensures forall id :: id in knownRows ==> id in old(knownRows) || (id in IdsOf(rows) && fresh(knownRows[id]))
      // units of ids in both are left alone
      ensures forall id :: id in old(knownRows) && id in IdsOf(rows) ==>
                id in knownRows && knownRows[id] == old(knownRows[id]) && unchanged(knownRows[id])
      // new units are updated
      ensures raised.None? ==> forall id :: id in IdsOf(rows) && id !in old(knownRows) ==>
                knownRows[id].row == WithDerivedStatus(ById(rows)[id], today)
                && knownRows[id].filename == SyncFilename(rootDir, knownRows[id].row)
                && knownRows[id].callbackSet == watch && knownRows[id].subscribed == watch
      // with no file name shared by two new rows, each new unit's file reflects its row
      ensures raised.None? ==> NewFilesReflect(ById(rows), IdsOf(rows) - old(knownRows.Keys), today, disk.files)
      // removed units are unsubscribed
      ensures raised.None? ==> forall id :: id in old(knownRows) && id !in IdsOf(rows) ==> !old(knownRows[id]).subscribed
      // and their files are gone, unless a new unit may hold the name
      ensures raised.None? ==>
                forall id :: id in old(knownRows) && id !in IdsOf(rows) &&
                             old(knownRows[id].filename) !in UnitPaths(rootDir, ById(rows), IdsOf(rows) - old(knownRows.Keys), today) ==>
                  !HasFile(disk.files, old(knownRows[id].filename))
      // nothing else changes on disk
      ensures SameExcept(old(disk.files), disk.files,
                         old(Filenames(knownRows, knownRows.Keys - IdsOf(rows)))
                         + UnitPaths(rootDir, ById(rows), IdsOf(rows) - old(knownRows.Keys), today))
      // a snapshot with the same ids changes nothing
      ensures IdsOf(rows) == old(knownRows.Keys) ==> raised.None? && knownRows == old(knownRows) && disk.files == old(disk.files)
      // the intended rule removes them
      ensures rule == Intended && IdsOf(rows) <= old(knownRows.Keys) ==> raised.None?
      // insertions first, updates of new rows last, while exactly the snapshot's ids are tracked
      ensures SyncOrder(trace, IdsOf(rows), IdsOf(rows) - old(knownRows.Keys))
      ensures raised.None? ==> forall id :: id in IdsOf(rows) && id !in old(knownRows) ==> Updated(id, IdsOf(rows)) in trace
    {
      var byId := ById(rows);
      var ids := IdsOf(rows);
      var added := ids - knownRows.Keys;
      var removed := knownRows.Keys - ids;
      ghost var gone := Filenames(knownRows, removed);
      var addedIds := IterationOrder(added);
      var removedIds := IterationOrder(removed);
      ghost var starts, next, names := Plan(rootDir, byId, added, today);
      ghost var t2, t3;
      raised, t2, t3 := Reconcile(byId, ids, added, removed, addedIds, removedIds, disk, today,
                                  starts, next, names, gone, UnitPaths(rootDir, byId, added, today));
      trace := Insertions(addedIds) + t2 + t3;
      SyncTrace(addedIds, t2, t3, added, ids);
    }
  }
}
