/** The reconciliation of the older engine in sync.py: `RowSync` keeps one
    row's file in step with the row, and `CollectionFileSync.sync_rows`
    inserts and starts a unit for each new row, then removes the units of
    the rows no longer listed. Every deletion is `rmtree(path,
    ignore_errors=True)`; the deletion rule is a parameter (as written, which
    leaves a regular file in place, or the removal its callers intend). */
module LegacySync {
  import opened Python
  import opened Strings
  import opened Notion
  import opened Files
  import RowMeta
  import LegacyMeta
  import Markdown
  import LegacyMarkdown
  import Sync

  /** `_get_sync_filename`: `"%s/%s.md" % (root_dir, slug)`, where an undated
      row's slug None is formatted as "None". */
  function SyncFilename(rootDir: string, row: Row): string
  {
    rootDir + "/" + LegacyMeta.SlugText(LegacyMeta.GetRowLinkSlug(row)) + ".md"
  }

  /** The `rmtree(path, ignore_errors=True)` calls, under a deletion rule. */
  function Erase(rule: DeleteRule, fs: FileSystem, p: string): (r: FileSystem)
    ensures SameOutside(fs, r, {p})
    ensures forall q :: q in r ==> q in fs && r[q] == fs[q]
    ensures rule == Intended ==> p !in r
    ensures rule == AsWritten ==> FilesKept(fs, r, {}, {p})
  {
    match rule
    case AsWritten => RmTreeFrame(fs, p); RmTreeKeepsFiles(fs, p); RmTree(fs, p)
    case Intended => RmTreeIntended(fs, p)
  }

  /** What `update_file` writes into the file of a published row: the
      front-matter, a blank line and the page rendered as a page root (which
      is never `None`). */
  function PageText(ctx: LegacyMarkdown.Context, row: Row): Result<string>
  {
    var page := LegacyMarkdown.Render(ctx, CollectionRow(row), true);
    if page.Raised? then Raise(page.error) else Ok(LegacyMeta.GetPostMeta(row) + "\n\n" + page.text)
  }

  /** The state one `update_file` leaves: the file name, the file system and
      the exception raised, if any. The row itself is never written to. */
  datatype Outcome = Outcome(filename: string, files: FileSystem, raised: Option<Exception>)

  /** The second half of `update_file`, once the file name is `path`: write
      the page when the row is published (the file is opened, and so
      truncated, before the page is rendered), erase the path otherwise. */
  function Settle(rule: DeleteRule, ctx: LegacyMarkdown.Context, row: Row, path: string, files: FileSystem): (o: Outcome)
    ensures o.filename == path
  {
    if LegacyMeta.IsRowPublished(row, ctx.today) then
      match OpenForWrite(files, path)
      case Raise(e) => Outcome(path, files, Some(e))
      case Ok(truncated) =>
        match PageText(ctx, row)
        case Raise(e) => Outcome(path, truncated, Some(e))
        case Ok(text) => Outcome(path, truncated[path := File(text)], None)
    else
      Outcome(path, Erase(rule, files, path), None)
  }

  /** `update_file` of sync.py: when the file name has changed, erase the old
      path and adopt the new name; then settle the file at that name. */
  function UpdateFileSpec(rule: DeleteRule, ctx: LegacyMarkdown.Context, rootDir: string,
                          row: Row, filename: string, files: FileSystem): Outcome
  {
    var target := SyncFilename(rootDir, row);
    var files1 := if filename != target then Erase(rule, files, filename) else files;
    Settle(rule, ctx, row, target, files1)
  }

  /** The state `remove_and_stop` leaves. */
  datatype Disposal = Disposal(subscribed: bool, files: FileSystem, raised: Option<Exception>)

  /** `remove_and_stop`: reading `callback_id`, which only `start` assigns,
      raises AttributeError; otherwise the callback is removed and the path
      erased, which never raises. */
  function DisposeSpec(rule: DeleteRule, callbackSet: bool, subscribed: bool, filename: string,
                       files: FileSystem): Disposal
  {
    if !callbackSet then Disposal(subscribed, files, Some(AttributeError))
    else Disposal(false, Erase(rule, files, filename), None)
  }

  // ----- one row -----

  /** Every undated row has the file name "None.md" under the root, so all
      undated rows write to one file. */
  lemma UndatedRowsShareFilename(rootDir: string, r1: Row, r2: Row)
    requires RowMeta.GetRowPublishDate(r1).None? && RowMeta.GetRowPublishDate(r2).None?
    ensures SyncFilename(rootDir, r1) == SyncFilename(rootDir, r2) == rootDir + "/None.md"
  {
    assert rootDir + "/" + "None" + ".md" == rootDir + "/None.md";
  }

  /** A dated row's file name is the newer engine's. */
  lemma DatedFilenameAgrees(rootDir: string, row: Row)
    requires RowMeta.GetRowPublishDate(row).Some?
    ensures SyncFilename(rootDir, row) == Sync.SyncFilename(rootDir, row)
  {
  }

  /** `update_file` always ends with the unit at the row's file name (no
      step before the adoption can raise), and only the write of a published
      row's page can raise. */
  lemma UpdateFileAdoptsFilename(rule: DeleteRule, ctx: LegacyMarkdown.Context, rootDir: string,
                                 row: Row, filename: string, files: FileSystem)
    ensures var o := UpdateFileSpec(rule, ctx, rootDir, row, filename, files);
            o.filename == SyncFilename(rootDir, row)
            && (o.raised.Some? ==> LegacyMeta.IsRowPublished(row, ctx.today))
  {
  }

  lemma SettleFrame(rule: DeleteRule, ctx: LegacyMarkdown.Context, row: Row, path: string, files: FileSystem)
    ensures SameOutside(files, Settle(rule, ctx, row, path, files).files, {path})
  {
    if LegacyMeta.IsRowPublished(row, ctx.today) {
      var o := Settle(rule, ctx, row, path, files);
      assert SameExcept(files, o.files, {path});
      SameExceptOutside(files, o.files, {path});
    }
  }

  /** `update_file` touches nothing outside the unit's old and new paths
      and what lies below them. */
  lemma UpdateFileFrame(rule: DeleteRule, ctx: LegacyMarkdown.Context, rootDir: string,
                        row: Row, filename: string, files: FileSystem)
    ensures var o := UpdateFileSpec(rule, ctx, rootDir, row, filename, files);
            SameOutside(files, o.files, {filename, SyncFilename(rootDir, row)})
  {
    var target := SyncFilename(rootDir, row);
    var files1 := if filename != target then Erase(rule, files, filename) else files;
    SettleFrame(rule, ctx, row, target, files1);
    SameOutsideTrans(files, files1, Settle(rule, ctx, row, target, files1).files, {filename}, {target}, {filename, target});
  }

  /** When the row is published and the step succeeds, its file holds the
      front-matter, a blank line and the rendered page. */
  lemma UpdateFileWritesPage(rule: DeleteRule, ctx: LegacyMarkdown.Context, rootDir: string,
                             row: Row, filename: string, files: FileSystem)
    requires LegacyMeta.IsRowPublished(row, ctx.today)
    ensures var o := UpdateFileSpec(rule, ctx, rootDir, row, filename, files);
            o.raised.None? ==>
              var page := LegacyMarkdown.Render(ctx, CollectionRow(row), true);
              page.Markdown? && o.files[o.filename] == File(LegacyMeta.GetPostMeta(row) + "\n\n" + page.text)
  {
  }

  /** Settling a published row keeps every regular file: the file at its
      own path is truncated or rewritten, and nothing else is touched. */
  lemma SettleKeepsRegularFiles(rule: DeleteRule, ctx: LegacyMarkdown.Context, row: Row, path: string,
                                files: FileSystem, q: string)
    requires LegacyMeta.IsRowPublished(row, ctx.today) && HasFile(files, q)
    ensures HasFile(Settle(rule, ctx, row, path, files).files, q)
  {
    var o := Settle(rule, ctx, row, path, files);
    var text := PageText(ctx, row);
    match OpenForWrite(files, path)
    case Raise(_) =>
      assert o.files == files;
    case Ok(truncated) =>
      assert HasFile(truncated, q);
      if text.Raise? {
        assert o.files == truncated;
      } else {
        assert o.files == truncated[path := File(text.value)];
      }
  }

  /** As written, `update_file` leaves a regular file at the unit's old name
      in place, whether the row is unpublished or has moved (unless the old
      name lies below the new one). */
  lemma UpdateFileAsWrittenKeepsOldFile(ctx: LegacyMarkdown.Context, rootDir: string,
                                        row: Row, filename: string, files: FileSystem)
    requires HasFile(files, filename)
    requires filename == SyncFilename(rootDir, row) || !Within(filename, SyncFilename(rootDir, row))
    ensures HasFile(UpdateFileSpec(AsWritten, ctx, rootDir, row, filename, files).files, filename)
  {
    var target := SyncFilename(rootDir, row);
    RmTreeKeepsRegularFile(files, filename);
    assert Erase(AsWritten, files, filename) == files;
    var o := Settle(AsWritten, ctx, row, target, files);
    assert UpdateFileSpec(AsWritten, ctx, rootDir, row, filename, files) == o;
    if LegacyMeta.IsRowPublished(row, ctx.today) {
      SettleKeepsRegularFiles(AsWritten, ctx, row, target, files, filename);
    } else {
      assert o.files == RmTree(files, target);
      if filename == target {
        RmTreeKeepsRegularFile(files, target);
      } else {
        RmTreeFrame(files, target);
        assert !Within(filename, target);
      }
    }
  }

  /** A concrete stale file: the undated row "a" is not published, yet its
      file "out/None.md" survives the step. */
  lemma StaleFileLingers(ctx: LegacyMarkdown.Context)
    ensures var row := Row("r", "a", None, "c", [], map[], []);
            var o := UpdateFileSpec(AsWritten, ctx, "out", row, "out/None.md", map["out/None.md" := File("old")]);
            o.raised.None? && o.filename == "out/None.md" && HasFile(o.files, "out/None.md")
  {
    var row := Row("r", "a", None, "c", [], map[], []);
    assert RowMeta.GetRowPublishDate(row) == None;
    UndatedRowsShareFilename("out", row, row);
    assert !LegacyMeta.IsRowPublished(row, ctx.today);
    RmTreeKeepsRegularFile(map["out/None.md" := File("old")], "out/None.md");
  }

  /** With the intended deletion, a step leaves a regular file at the row's
      file name exactly when the row is published and the write succeeded,
      and none at a name it gave up. */
  lemma UpdateFileIntendedCleansUp(ctx: LegacyMarkdown.Context, rootDir: string,
                                   row: Row, filename: string, files: FileSystem)
    ensures var o := UpdateFileSpec(Intended, ctx, rootDir, row, filename, files);
            o.raised.None? ==>
              (HasFile(o.files, o.filename) <==> LegacyMeta.IsRowPublished(row, ctx.today))
              && (filename != o.filename ==> !HasFile(o.files, filename))
  {
  }

  /** As written, removing a unit unsubscribes it but leaves its regular
      file in place; removing a unit that was never started raises. */
  lemma DisposeAsWrittenKeepsFile(subscribed: bool, filename: string, files: FileSystem)
    requires HasFile(files, filename)
    ensures var d := DisposeSpec(AsWritten, true, subscribed, filename, files);
            d.raised.None? && !d.subscribed && d.files == files
    ensures DisposeSpec(AsWritten, false, subscribed, filename, files).raised == Some(AttributeError)
  {
    RmTreeKeepsRegularFile(files, filename);
  }

  /** The intended removal of a started unit unsubscribes it and leaves
      nothing at its file name. */
  lemma DisposeIntendedRemovesFile(subscribed: bool, filename: string, files: FileSystem)
    ensures var d := DisposeSpec(Intended, true, subscribed, filename, files);
            d.raised.None? && !d.subscribed && filename !in d.files && SameOutside(files, d.files, {filename})
  {
  }

  /** What a successful step leaves at the unit's file name `name` for `row`:
      the rendered page when the row is published and, under the intended
      deletion, nothing at all when it is not. */
  ghost predicate Reflects(rule: DeleteRule, ctx: LegacyMarkdown.Context, row: Row, name: string, files: FileSystem)
  {
    (LegacyMeta.IsRowPublished(row, ctx.today) ==>
       PageText(ctx, row).Ok? && name in files && files[name] == File(PageText(ctx, row).value))
    && (rule == Intended && !LegacyMeta.IsRowPublished(row, ctx.today) ==> name !in files)
  }

  /** A successful `update_file` leaves the unit's file reflecting its row. */
  lemma UpdateFileReflects(rule: DeleteRule, ctx: LegacyMarkdown.Context, rootDir: string,
                           row: Row, filename: string, files: FileSystem)
    ensures var o := UpdateFileSpec(rule, ctx, rootDir, row, filename, files);
            o.raised.None? ==> Reflects(rule, ctx, row, o.filename, o.files)
  {
  }

  /** A change outside the trees rooted at `roots` keeps a file that lies in
      none of them reflecting its row. */
  lemma ReflectsFrame(rule: DeleteRule, ctx: LegacyMarkdown.Context, row: Row, name: string,
                      f1: FileSystem, f2: FileSystem, roots: set<string>)
    requires Reflects(rule, ctx, row, name, f1) && SameOutside(f1, f2, roots)
    requires forall p :: p in roots ==> !Within(name, p)
    ensures Reflects(rule, ctx, row, name, f2)
  {
  }

  /** sync.py inserts before it removes. When a post is deleted and
      recreated with the same slug, the new unit writes the page at the
      shared file name, and the intended removal of the old unit then erases
      it: the published post is left without a file. */
  lemma RecreatedPostLosesPage(ctx: LegacyMarkdown.Context, rootDir: string, row: Row, name: string,
                               subscribed: bool, files: FileSystem)
    requires name == SyncFilename(rootDir, row) && LegacyMeta.IsRowPublished(row, ctx.today)
    ensures var o := UpdateFileSpec(Intended, ctx, rootDir, row, name, files);
            var d := DisposeSpec(Intended, true, subscribed, name, o.files);
            o.raised.None? ==>
              o.filename == name && HasFile(o.files, name) && d.raised.None? && !HasFile(d.files, name)
  {
    UpdateFileReflects(Intended, ctx, rootDir, row, name, files);
  }

  /** What the removals of the names `done`, all among `paths`, leave
      since `files0`: under the intended deletion nothing at those names;
      as written every regular file below none of `paths`, unchanged. */
  ghost predicate RemovalsLeave(rule: DeleteRule, files0: FileSystem, files: FileSystem, paths: set<string>,
                                done: set<string>)
  {
    (rule == Intended ==> forall p :: p in done ==> p !in files)
    && (rule == AsWritten ==> FilesKept(files0, files, {}, paths))
  }

  /** One more removal, at a name among `paths`, extends what the removals
      leave to that name. */
  lemma RemovalStep(rule: DeleteRule, files0: FileSystem, files: FileSystem, name: string, paths: set<string>,
                    done: set<string>)
    requires RemovalsLeave(rule, files0, files, paths, done) && name in paths
    ensures RemovalsLeave(rule, files0, Erase(rule, files, name), paths, done + {name})
  {
    if rule == AsWritten {
      FilesKeptTrans(files0, files, Erase(rule, files, name), {}, paths, {}, {name}, {}, paths);
    }
  }

  /** Keeps one row's markdown file in step with the row. */
  class RowSync {
    const rootDir: string
    /** The id of the root collection of the shared markdown generator. */
    const rootCollectionId: string
    const rule: DeleteRule
    const row: Row
    var filename: string
    /** `callback_id` has been assigned (by `start`). */
    var callbackSet: bool
    /** The row's change callback is registered. */
    var subscribed: bool
    /** The id of the row the unit was made for. */
    ghost const key: string

    /** `RowSync.__init__`: the file name is the row's sync file name. */
    constructor(rootDir: string, row: Row, rootCollectionId: string, rule: DeleteRule)
      ensures this.rootDir == rootDir && this.rootCollectionId == rootCollectionId && this.rule == rule
      ensures this.row == row && filename == SyncFilename(rootDir, row)
      ensures !callbackSet && !subscribed && key == row.id
    {
      this.rootDir := rootDir;
      this.rootCollectionId := rootCollectionId;
      this.rule := rule;
      this.row := row;
      filename := SyncFilename(rootDir, row);
      callbackSet := false;
      subscribed := false;
      key := row.id;
    }

    /** The renderer's context on the given day. */
    function Generator(today: Date): LegacyMarkdown.Context
    {
      LegacyMarkdown.Context(rootCollectionId, today)
    }

    /** `update_file`. */
    method UpdateFile(disk: Disk, today: Date) returns (raised: Option<Exception>)
      modifies this, disk
      ensures Outcome(filename, disk.files, raised) ==
              UpdateFileSpec(rule, Generator(today), rootDir, row, old(filename), old(disk.files))
      ensures callbackSet == old(callbackSet) && subscribed == old(subscribed)
    {
      var target := SyncFilename(rootDir, row);
      if filename != target {
        disk.files := Erase(rule, disk.files, filename);
        filename := target;
      }
      if LegacyMeta.IsRowPublished(row, today) {
        var truncated := OpenForWrite(disk.files, filename);
        if truncated.Raise? {
          return Some(truncated.error);
        }
        disk.files := truncated.value;
        var text := PageText(Generator(today), row);
        if text.Raise? {
          return Some(text.error);
        }
        disk.files := disk.files[filename := File(text.value)];
      } else {
        disk.files := Erase(rule, disk.files, filename);
      }
      raised := None;
    }

    /** `start`: register the row's callback, then update. */
    method Start(disk: Disk, today: Date) returns (raised: Option<Exception>)
      modifies this, disk
      ensures Outcome(filename, disk.files, raised) ==
              UpdateFileSpec(rule, Generator(today), rootDir, row, old(filename), old(disk.files))
      ensures callbackSet && subscribed
    {
      callbackSet := true;
      subscribed := true;
      raised := UpdateFile(disk, today);
    }

    /** `remove_and_stop`. */
    method RemoveAndStop(disk: Disk) returns (raised: Option<Exception>)
      modifies this, disk
      ensures Disposal(subscribed, disk.files, raised) ==
              DisposeSpec(rule, old(callbackSet), old(subscribed), filename, old(disk.files))
      ensures filename == old(filename) && callbackSet == old(callbackSet)
    {
      if !callbackSet {
        return Some(AttributeError);
      }
      subscribed := false;
      disk.files := Erase(rule, disk.files, filename);
      raised := None;
    }
  }

  // ----- the collection -----

  /** The file names of the tracked units with the given ids. */
  ghost function Filenames(known: map<string, RowSync>, ids: set<string>): (r: set<string>)
    reads known.Values
    ensures forall id :: id in ids && id in known ==> known[id].filename in r
  {
    set id | id in ids && id in known :: known[id].filename
  }

  /** The file names of the units of the new ids `added`. */
  ghost function UnitPaths(rootDir: string, byId: map<string, Row>, added: set<string>): set<string>
    requires added <= byId.Keys
  {
    set id | id in added :: SyncFilename(rootDir, byId[id])
  }

  /** `starts[id]` is the file name of the unit of each new id. */
  ghost predicate StartsAt(rootDir: string, byId: map<string, Row>, added: set<string>, starts: map<string, string>)
  {
    (forall id :: id in added ==> id in byId && id in starts)
    && forall id {:trigger SyncFilename(rootDir, byId[id])} ::
         id in added && id in byId && id in starts ==> starts[id] == SyncFilename(rootDir, byId[id])
  }

  /** The file names of the units of the new ids, and the set they form. */
  lemma Plan(rootDir: string, byId: map<string, Row>, added: set<string>)
    returns (starts: map<string, string>)
    requires added <= byId.Keys
    ensures StartsAt(rootDir, byId, added, starts)
    ensures forall id :: id in added ==> starts[id] in UnitPaths(rootDir, byId, added)
  {
    starts := map id | id in added :: SyncFilename(rootDir, byId[id]);
  }

  /** No new row's file name lies in the tree of another new row's, nor in
      the tree of a name in `gone` (the file names of the removed units). */
  ghost predicate SeparateFiles(rootDir: string, byId: map<string, Row>, added: set<string>, gone: set<string>)
  {
    (forall a, b {:trigger Within(SyncFilename(rootDir, byId[a]), SyncFilename(rootDir, byId[b]))} ::
       a in added && b in added && a != b && a in byId && b in byId ==>
         !Within(SyncFilename(rootDir, byId[a]), SyncFilename(rootDir, byId[b])))
    && forall a, p :: a in added && a in byId && p in gone ==> !Within(SyncFilename(rootDir, byId[a]), p)
  }

  /** Two new rows with the same slug (in particular two undated rows)
      share a file name, so the new rows do not have separate files. */
  lemma SharedSlugCollides(rootDir: string, byId: map<string, Row>, added: set<string>, gone: set<string>,
                           a: string, b: string)
    requires a in added && b in added && a != b && a in byId && b in byId
    requires LegacyMeta.GetRowLinkSlug(byId[a]) == LegacyMeta.GetRowLinkSlug(byId[b])
    ensures !SeparateFiles(rootDir, byId, added, gone)
  {
    assert Within(SyncFilename(rootDir, byId[a]), SyncFilename(rootDir, byId[b]));
  }

  /** A post deleted and recreated with the same slug: the new row's file
      name is that of a removed unit, so the files are not separate. */
  lemma RecreatedPostCollides(rootDir: string, byId: map<string, Row>, added: set<string>, gone: set<string>,
                              a: string)
    requires a in added && a in byId && SyncFilename(rootDir, byId[a]) in gone
    ensures !SeparateFiles(rootDir, byId, added, gone)
  {
    assert Within(SyncFilename(rootDir, byId[a]), SyncFilename(rootDir, byId[a]));
  }

  /** No new unit's file name `starts[a]` lies in the tree of another's, nor
      in the tree of a name in `gone`. */
  ghost predicate Apart(added: set<string>, starts: map<string, string>, gone: set<string>)
  {
    (forall a, b {:trigger Within(starts[a], starts[b])} ::
       a in added && b in added && a != b && a in starts && b in starts ==> !Within(starts[a], starts[b]))
    && forall a, p :: a in added && a in starts && p in gone ==> !Within(starts[a], p)
  }

  /** Rows with separate file names give units at separate file names. */
  lemma SeparateApart(rootDir: string, byId: map<string, Row>, added: set<string>, starts: map<string, string>,
                      gone: set<string>)
    requires StartsAt(rootDir, byId, added, starts)
    ensures SeparateFiles(rootDir, byId, added, gone) ==> Apart(added, starts, gone)
  {
    if SeparateFiles(rootDir, byId, added, gone) {
      forall a, b | a in added && b in added && a != b
        ensures !Within(starts[a], starts[b])
      {
        assert starts[a] == SyncFilename(rootDir, byId[a]) && starts[b] == SyncFilename(rootDir, byId[b]);
      }
      forall a, p | a in added && p in gone
        ensures !Within(starts[a], p)
      {
        assert starts[a] == SyncFilename(rootDir, byId[a]);
      }
    }
  }

  /** The units of the first `i` ids of `ids` reflect their rows `byId` at
      their file names `starts`. */
  ghost predicate ReflectsUpTo(rule: DeleteRule, ctx: LegacyMarkdown.Context, ids: seq<string>, i: nat,
                               byId: map<string, Row>, starts: map<string, string>, files: FileSystem)
  {
    (forall k :: 0 <= k < i && k < |ids| ==> ids[k] in byId && ids[k] in starts)
    && forall k {:trigger Reflects(rule, ctx, byId[ids[k]], starts[ids[k]], files)} ::
         0 <= k < i && k < |ids| && ids[k] in byId && ids[k] in starts ==>
           Reflects(rule, ctx, byId[ids[k]], starts[ids[k]], files)
  }

  /** When the new units are apart, `ids` lists distinct new ids and the
      units of its first `i` reflect their rows. */
  ghost predicate PrefixReflects(rule: DeleteRule, ctx: LegacyMarkdown.Context, added: set<string>, ids: seq<string>,
                                 i: nat, byId: map<string, Row>, starts: map<string, string>, gone: set<string>,
                                 files: FileSystem)
  {
    Apart(added, starts, gone) ==>
      Sync.Distinct(ids) && (forall id :: id in ids ==> id in added)
      && ReflectsUpTo(rule, ctx, ids, i, byId, starts, files)
  }

  /** The units of the ids `added` reflect their rows `byId` at their file
      names `starts`. */
  ghost predicate AllReflect(rule: DeleteRule, ctx: LegacyMarkdown.Context, byId: map<string, Row>,
                             added: set<string>, starts: map<string, string>, files: FileSystem)
  {
    (forall id :: id in added ==> id in byId && id in starts)
    && forall id {:trigger Reflects(rule, ctx, byId[id], starts[id], files)} ::
         id in added && id in byId && id in starts ==> Reflects(rule, ctx, byId[id], starts[id], files)
  }

  /** One start of the unit of `ids[i]` at `starts[ids[i]]`, which touches
      only the tree of that name and, on success, leaves the unit's file
      reflecting its row: when the new units are apart, it extends the
      prefix of `ids` whose units reflect their rows by one. */
  lemma InsertStep(rule: DeleteRule, ctx: LegacyMarkdown.Context, added: set<string>, ids: seq<string>, i: nat,
                   byId: map<string, Row>, starts: map<string, string>, gone: set<string>,
                   f1: FileSystem, f2: FileSystem, raised: Option<Exception>)
    requires i < |ids| && ids[i] in byId && ids[i] in starts
    requires SameOutside(f1, f2, {starts[ids[i]]})
    requires raised.None? ==> Reflects(rule, ctx, byId[ids[i]], starts[ids[i]], f2)
    requires PrefixReflects(rule, ctx, added, ids, i, byId, starts, gone, f1)
    ensures raised.None? ==> PrefixReflects(rule, ctx, added, ids, i + 1, byId, starts, gone, f2)
  {
    if raised.None? && Apart(added, starts, gone) {
      var name := starts[ids[i]];
      assert ids[i] in ids;
      forall k | 0 <= k < i
        ensures Reflects(rule, ctx, byId[ids[k]], starts[ids[k]], f2)
      {
        assert ids[k] in ids && ids[k] != ids[i];
        assert !Within(starts[ids[k]], name);
        ReflectsFrame(rule, ctx, byId[ids[k]], starts[ids[k]], f1, f2, {name});
      }
    }
  }

  /** The start of the unit of `ids[i]` at its row's file name
      `starts[ids[i]]`: it stays at that name, touches only the tree of that
      name and, when the new units are apart, extends the prefix of `ids`
      whose units reflect their rows by one. */
  lemma StartStep(rule: DeleteRule, ctx: LegacyMarkdown.Context, rootDir: string, added: set<string>,
                  ids: seq<string>, i: nat, byId: map<string, Row>, starts: map<string, string>, gone: set<string>,
                  files: FileSystem, o: Outcome)
    requires i < |ids| && ids[i] in added && StartsAt(rootDir, byId, added, starts)
    requires o == UpdateFileSpec(rule, ctx, rootDir, byId[ids[i]], starts[ids[i]], files)
    requires PrefixReflects(rule, ctx, added, ids, i, byId, starts, gone, files)
    ensures o.filename == starts[ids[i]] && SameOutside(files, o.files, {starts[ids[i]]})
    ensures o.raised.None? ==> PrefixReflects(rule, ctx, added, ids, i + 1, byId, starts, gone, o.files)
  {
    var row, name := byId[ids[i]], starts[ids[i]];
    UpdateFileAdoptsFilename(rule, ctx, rootDir, row, name, files);
    UpdateFileFrame(rule, ctx, rootDir, row, name, files);
    UpdateFileReflects(rule, ctx, rootDir, row, name, files);
    InsertStep(rule, ctx, added, ids, i, byId, starts, gone, files, o.files, o.raised);
  }

  /** When the whole of `ids` reflects its rows, so do the units of the set
      it enumerates. */
  lemma ReflectsAll(rule: DeleteRule, ctx: LegacyMarkdown.Context, ids: seq<string>, added: set<string>,
                    byId: map<string, Row>, starts: map<string, string>, files: FileSystem)
    requires Sync.Enumerates(ids, added)
    ensures ReflectsUpTo(rule, ctx, ids, |ids|, byId, starts, files) ==> AllReflect(rule, ctx, byId, added, starts, files)
  {
    if ReflectsUpTo(rule, ctx, ids, |ids|, byId, starts, files) {
      forall id | id in added
        ensures id in byId && id in starts && Reflects(rule, ctx, byId[id], starts[id], files)
      {
        var k :| 0 <= k < |ids| && ids[k] == id;
      }
    }
  }

  /** The removals, which touch only the trees of the names in `gone`, keep
      the new units reflecting their rows when they are apart from those
      names. */
  lemma AllReflectFrame(rule: DeleteRule, ctx: LegacyMarkdown.Context, byId: map<string, Row>, added: set<string>,
                        starts: map<string, string>, gone: set<string>, f1: FileSystem, f2: FileSystem)
    requires SameOutside(f1, f2, gone)
    ensures AllReflect(rule, ctx, byId, added, starts, f1) && Apart(added, starts, gone) ==>
              AllReflect(rule, ctx, byId, added, starts, f2)
  {
    if AllReflect(rule, ctx, byId, added, starts, f1) && Apart(added, starts, gone) {
      forall id | id in added
        ensures Reflects(rule, ctx, byId[id], starts[id], f2)
      {
        ReflectsFrame(rule, ctx, byId[id], starts[id], f1, f2, gone);
      }
    }
  }

  /** The units of `known` with the ids `ids` reflect their rows at their
      file names. */
  ghost predicate Reflected(rule: DeleteRule, ctx: LegacyMarkdown.Context, known: map<string, RowSync>,
                            ids: set<string>, files: FileSystem)
    reads known.Values
  {
    (forall id :: id in ids ==> id in known)
    && forall id {:trigger Reflects(rule, ctx, known[id].row, known[id].filename, files)} ::
         id in ids && id in known ==> Reflects(rule, ctx, known[id].row, known[id].filename, files)
  }

  /** Units holding the rows `byId` at the names `starts` reflect them when
      the files do. */
  lemma UnitsReflect(rule: DeleteRule, ctx: LegacyMarkdown.Context, byId: map<string, Row>, added: set<string>,
                     starts: map<string, string>, known: map<string, RowSync>, files: FileSystem)
    requires forall id :: id in added ==> id in known && id in byId && id in starts
                                          && known[id].row == byId[id] && known[id].filename == starts[id]
    ensures AllReflect(rule, ctx, byId, added, starts, files) ==> Reflected(rule, ctx, known, added, files)
  {
    if AllReflect(rule, ctx, byId, added, starts, files) {
      forall id | id in added
        ensures Reflects(rule, ctx, known[id].row, known[id].filename, files)
      {
        assert Reflects(rule, ctx, byId[id], starts[id], files);
      }
    }
  }

  /** Under the intended deletion, a file reflecting its row is a regular
      file exactly when the row is published. */
  lemma ReflectsIntended(ctx: LegacyMarkdown.Context, known: map<string, RowSync>, ids: set<string>, files: FileSystem)
    ensures Reflected(Intended, ctx, known, ids, files) ==>
              forall id :: id in ids ==>
                id in known && (HasFile(files, known[id].filename) <==> LegacyMeta.IsRowPublished(known[id].row, ctx.today))
  {
    forall id | id in ids && Reflected(Intended, ctx, known, ids, files)
      ensures id in known && (HasFile(files, known[id].filename) <==> LegacyMeta.IsRowPublished(known[id].row, ctx.today))
    {
      assert Reflects(Intended, ctx, known[id].row, known[id].filename, files);
    }
  }

  /** One iteration of a loop of `sync_rows`: the unit of `id` is inserted
      into `known_rows` and started at once, or removed, stopped and deleted
      from `known_rows`. */
  datatype Event = Added(id: string) | Removed(id: string)

  /** The order of the older `sync_rows`: no unit is added after a unit has
      been removed. */
  ghost predicate LegacyOrder(t: seq<Event>)
  {
    forall i, j :: 0 <= i < j < |t| && t[j].Added? ==> t[i].Added?
  }

  /** The additions of `t1` followed by the removals of `t2` are in the older
      order. */
  lemma AdditionsThenRemovals(t1: seq<Event>, t2: seq<Event>)
    requires forall k :: 0 <= k < |t1| ==> t1[k].Added?
    requires forall k :: 0 <= k < |t2| ==> t2[k].Removed?
    ensures LegacyOrder(t1 + t2)
  {
    var t := t1 + t2;
    assert forall k :: |t1| <= k < |t| ==> t[k].Removed?;
    forall i, j | 0 <= i < j < |t| && t[j].Added?
      ensures t[i].Added?
    {
      assert t[i] == t1[i];
    }
  }

  /** The additions of the first `n` of `addedIds` followed by the removals
      of `removedIds` are in the older order, and record every id added and,
      when all are added, every id removed. */
  lemma LegacyTrace(addedIds: seq<string>, removedIds: seq<string>, t1: seq<Event>, t2: seq<Event>,
                    added: set<string>, removed: set<string>)
    requires Sync.Enumerates(addedIds, added) && Sync.Enumerates(removedIds, removed)
    requires |t1| <= |addedIds| && forall k :: 0 <= k < |t1| ==> t1[k] == Added(addedIds[k])
    requires |t1| < |addedIds| ==> t2 == []
    requires t2 != [] ==> |t2| == |removedIds| && forall k :: 0 <= k < |t2| ==> t2[k] == Removed(removedIds[k])
    ensures LegacyOrder(t1 + t2)
    ensures |t1| == |addedIds| ==> forall id :: id in added ==> Added(id) in t1 + t2
    ensures t2 != [] ==> forall id :: id in removed ==> Removed(id) in t1 + t2
  {
    var t := t1 + t2;
    AdditionsThenRemovals(t1, t2);
    forall id | id in added && |t1| == |addedIds|
      ensures Added(id) in t
    {
      var k :| 0 <= k < |addedIds| && addedIds[k] == id;
      assert t[k] == t1[k];
    }
    forall id | id in removed && t2 != []
      ensures Removed(id) in t
    {
      var k :| 0 <= k < |removedIds| && removedIds[k] == id;
      assert t[|t1| + k] == t2[k];
    }
  }

  /** Synchronizes a collection's rows to one markdown file each, tracking
      the rows that are added and removed. */
  class CollectionFileSync {
    const collectionId: string
    const rootDir: string
    const rule: DeleteRule
    var knownRows: map<string, RowSync>

    /** `CollectionFileSync.__init__`: no row is tracked yet. */
    constructor(collectionId: string, rootDir: string, rule: DeleteRule)
      ensures this.collectionId == collectionId && this.rootDir == rootDir && this.rule == rule
      ensures knownRows == map[] && Valid()
    {
      this.collectionId := collectionId;
      this.rootDir := rootDir;
      this.rule := rule;
      knownRows := map[];
    }

    /** Every unit is configured like the collection, tracked under the id
        of its row (so no unit is tracked under two ids), and started, so its
        callback id is assigned. */
    ghost predicate Valid()
      reads this, knownRows.Values
    {
      forall id :: id in knownRows ==>
        knownRows[id].rootDir == rootDir && knownRows[id].rootCollectionId == collectionId
        && knownRows[id].rule == rule && knownRows[id].key == id && knownRows[id].callbackSet
    }

    /** The renderer's context its units share on the given day. */
    function Generator(today: Date): LegacyMarkdown.Context
    {
      LegacyMarkdown.Context(collectionId, today)
    }

    /** With the new rows' file names apart from each other and from the
        names `gone` of the removed units, the units of the new ids `added`
        reflect their rows in `files`. */
    ghost predicate NewFilesReflect(byId: map<string, Row>, added: set<string>, gone: set<string>, today: Date,
                                    files: FileSystem)
      reads this, knownRows.Values
    {
      SeparateFiles(rootDir, byId, added, gone) ==> Reflected(rule, Generator(today), knownRows, added, files)
    }

    /** A unit `start` has run on: holding `row`, at `name`, with its callback
        registered. */
    predicate Running(unit: RowSync, row: Row, name: string)
      reads unit
    {
      unit.row == row && unit.filename == name && unit.callbackSet && unit.subscribed
    }

    /** One step of the first loop of `sync_rows`: a fresh unit for `row`,
        inserted under `id` and started at once, at its file name `name`. */
    method InsertOne(id: string, row: Row, disk: Disk, today: Date, ghost name: string,
                     ghost files0: FileSystem, ghost paths: set<string>,
                     ghost ids: seq<string>, ghost i: nat, ghost byId: map<string, Row>, ghost starts: map<string, string>,
                     ghost added: set<string>, ghost gone: set<string>)
      returns (raised: Option<Exception>)
      requires Valid() && row.id == id && id !in knownRows
      requires name == SyncFilename(rootDir, row) && name in paths
      requires SameOutside(files0, disk.files, paths)
      requires i < |ids| && ids[i] == id && id in byId && byId[id] == row && id in starts && starts[id] == name
      requires id in added && StartsAt(rootDir, byId, added, starts)
      requires forall k :: 0 <= k < i ==> ids[k] != id
      requires forall k :: 0 <= k < i ==> ids[k] in knownRows && ids[k] in byId && ids[k] in starts
                                          && Running(knownRows[ids[k]], byId[ids[k]], starts[ids[k]])
      requires PrefixReflects(rule, Generator(today), added, ids, i, byId, starts, gone, disk.files)
      modifies this, disk
      ensures Valid()
      ensures id in knownRows && knownRows == old(knownRows)[id := knownRows[id]]
      ensures forall k :: 0 <= k <= i ==> ids[k] in knownRows && Running(knownRows[ids[k]], byId[ids[k]], starts[ids[k]])
      ensures SameOutside(files0, disk.files, paths)
      ensures raised.None? ==> PrefixReflects(rule, Generator(today), added, ids, i + 1, byId, starts, gone, disk.files)
    {
      var unit := new RowSync(rootDir, row, collectionId, rule);
      knownRows := knownRows[id := unit];
      ghost var before := disk.files;
      raised := unit.Start(disk, today);
      StartStep(rule, Generator(today), rootDir, added, ids, i, byId, starts, gone, before,
                Outcome(unit.filename, disk.files, raised));
      SameOutsideTrans(files0, before, disk.files, paths, {name}, paths);
    }

    /** The first loop of `sync_rows`, over the added ids in iteration order:
        insert a fresh unit for each and start it at once; an exception from
        a start ends the loop, after `count` units. `starts` holds the file
        names of the new units and `paths` is a set holding them. */
    method InsertAndStart(ids: seq<string>, byId: map<string, Row>, disk: Disk, today: Date,
                          ghost added: set<string>, ghost starts: map<string, string>, ghost paths: set<string>,
                          ghost gone: set<string>)
      returns (raised: Option<Exception>, ghost trace: seq<Event>, ghost count: nat)
      requires Valid() && Sync.Distinct(ids)
      requires forall id :: id in byId ==> byId[id].id == id
      requires forall id :: id in ids ==> id in byId && id !in knownRows && id in added
      requires StartsAt(rootDir, byId, added, starts)
      requires forall id :: id in added ==> starts[id] in paths
      modifies this, disk
      ensures Valid()
      ensures count <= |ids| && (raised.None? ==> count == |ids|)
      ensures forall id :: id in knownRows <==> id in old(knownRows) || id in ids[..count]
      ensures forall id :: id in old(knownRows) ==> knownRows[id] == old(knownRows[id])
      ensures forall k :: 0 <= k < count ==> Running(knownRows[ids[k]], byId[ids[k]], starts[ids[k]])
      ensures SameOutside(old(disk.files), disk.files, paths)
      ensures ids == [] ==> raised.None? && knownRows == old(knownRows) && disk.files == old(disk.files)
      ensures |trace| == count && forall k :: 0 <= k < count ==> trace[k] == Added(ids[k])
      ensures raised.None? ==> PrefixReflects(rule, Generator(today), added, ids, |ids|, byId, starts, gone, disk.files)
    {
      trace := [];
      raised := None;
      var i := 0;
      while i < |ids| && raised.None?
        invariant 0 <= i <= |ids|
        invariant forall id :: id in knownRows <==> id in old(knownRows) || id in ids[..i]
        invariant forall id :: id in old(knownRows) ==> knownRows[id] == old(knownRows[id])
        invariant forall k :: 0 <= k < i ==> Running(knownRows[ids[k]], byId[ids[k]], starts[ids[k]])
        invariant Valid()
        invariant SameOutside(old(disk.files), disk.files, paths)
        invariant i == 0 ==> raised.None? && knownRows == old(knownRows) && disk.files == old(disk.files)
        invariant |trace| == i && forall k :: 0 <= k < i ==> trace[k] == Added(ids[k])
        invariant raised.None? ==> PrefixReflects(rule, Generator(today), added, ids, i, byId, starts, gone, disk.files)
      {
        var id := ids[i];
        assert ids[..i + 1] == ids[..i] + [id];
        trace := trace + [Added(id)];
        raised := InsertOne(id, byId[id], disk, today, starts[id], old(disk.files), paths, ids, i, byId, starts,
                            added, gone);
        i := i + 1;
      }
      count := i;
    }

    /** One step of the second loop of `sync_rows`: remove and stop the unit
        of `id`, which never raises once it is started, then delete it from
        `known_rows`. */
    method RemoveOne(id: string, disk: Disk, ghost files0: FileSystem, ghost paths: set<string>,
                     ghost stopped: set<RowSync>, ghost ids: seq<string>, ghost i: nat)
      requires Valid() && id in knownRows && knownRows[id].filename in paths
      requires SameOutside(files0, disk.files, paths)
      requires forall u :: u in stopped ==> !u.subscribed && u.key !in knownRows
      requires Sync.Distinct(ids) && i < |ids| && ids[i] == id
      requires forall k :: 0 <= k < i ==> ids[k] !in knownRows
      requires forall k :: i < k < |ids| ==> ids[k] in knownRows && knownRows[ids[k]].filename in paths
      modifies this, disk, knownRows[id]
      ensures Valid() && knownRows == old(knownRows) - {id}
      ensures forall x :: x in knownRows ==> unchanged(knownRows[x])
      ensures forall k :: 0 <= k <= i ==> ids[k] !in knownRows
      ensures forall k :: i < k < |ids| ==> ids[k] in knownRows && knownRows[ids[k]].filename in paths
      ensures forall u :: u in stopped + {old(knownRows[id])} ==> !u.subscribed && u.key !in knownRows
      ensures SameOutside(files0, disk.files, paths)
      ensures old(knownRows[id]).filename == old(knownRows[id].filename)
      ensures disk.files == Erase(rule, old(disk.files), old(knownRows[id].filename))
    {
      var unit := knownRows[id];
      ghost var before := disk.files;
      var raised := unit.RemoveAndStop(disk);
      SameOutsideTrans(files0, before, disk.files, paths, {unit.filename}, paths);
      knownRows := knownRows - {id};
    }

    /** The second loop of `sync_rows`, over the removed ids in iteration
        order: remove and stop each unit, then delete it. `paths` holds the
        file names of those units. */
    method RemoveUnits(ids: seq<string>, disk: Disk, ghost removed: set<string>, ghost paths: set<string>)
      returns (ghost trace: seq<Event>)
      requires Valid() && Sync.Distinct(ids) && Sync.Enumerates(ids, removed)
      requires forall id :: id in ids ==> id in knownRows && knownRows[id].filename in paths
      modifies this, disk, set id | id in ids && id in knownRows :: knownRows[id]
      ensures Valid()
      ensures forall id :: id in knownRows <==> id in old(knownRows) && id !in removed
      ensures forall id :: id in knownRows ==> knownRows[id] == old(knownRows[id]) && unchanged(knownRows[id])
      ensures forall id :: id in removed ==> !old(knownRows[id]).subscribed
      ensures SameOutside(old(disk.files), disk.files, paths)
      // the intended removal leaves nothing at a removed unit's name; as
      // written it keeps every regular file below none of those names
      ensures rule == Intended ==> forall id :: id in removed ==> old(knownRows[id].filename) !in disk.files
      ensures rule == AsWritten ==> FilesKept(old(disk.files), disk.files, {}, paths)
      ensures ids == [] ==> knownRows == old(knownRows) && disk.files == old(disk.files)
      ensures |trace| == |ids| && forall k :: 0 <= k < |ids| ==> trace[k] == Removed(ids[k])
    {
      trace := [];
      ghost var stopped: set<RowSync> := {};
      ghost var names := map id | id in ids :: knownRows[id].filename;
      ghost var done: set<string> := {};
      var i := 0;
      while i < |ids|
        invariant 0 <= i <= |ids|
        invariant forall id :: id in knownRows ==> id in old(knownRows)
        invariant forall id :: id in old(knownRows) && id !in removed ==> id in knownRows
        invariant forall k :: 0 <= k < i ==> ids[k] !in knownRows
        invariant forall k :: i <= k < |ids| ==> ids[k] in knownRows && knownRows[ids[k]].filename in paths
        invariant forall id :: id in knownRows ==> knownRows[id] == old(knownRows[id])
        invariant forall u :: u in stopped ==> !u.subscribed && u.key !in knownRows
        invariant forall k :: 0 <= k < i ==> old(knownRows[ids[k]]) in stopped
        invariant Valid()
        invariant SameOutside(old(disk.files), disk.files, paths)
        invariant forall k :: i <= k < |ids| ==> knownRows[ids[k]].filename == names[ids[k]]
        invariant (forall k :: 0 <= k < i ==> names[ids[k]] in done) && RemovalsLeave(rule, old(disk.files), disk.files, paths, done)
        invariant i == 0 ==> knownRows == old(knownRows) && disk.files == old(disk.files)
        invariant |trace| == i && forall k :: 0 <= k < i ==> trace[k] == Removed(ids[k])
      {
        var id := ids[i];
        ghost var unit := knownRows[id];
        ghost var before := disk.files;
        RemoveOne(id, disk, old(disk.files), paths, stopped, ids, i);
        RemovalStep(rule, old(disk.files), before, names[id], paths, done);
        done := done + {names[id]};
        stopped := stopped + {unit};
        trace := trace + [Removed(id)];
        i := i + 1;
      }
      forall id | id in knownRows
        ensures unchanged(knownRows[id])
      {
        assert old(knownRows[id]).key == id && id !in removed;
      }
      forall id | id in removed
        ensures names[id] in done
      {
        var k :| 0 <= k < |ids| && ids[k] == id;
      }
    }

    /** The first loop of `sync_rows` on the new ids `added`, visited in the
        order `addedIds`: on success every new id is tracked by a started
        unit, and on an exception some of them are. */
    method InsertAdded(byId: map<string, Row>, added: set<string>, addedIds: seq<string>, disk: Disk, today: Date,
                       ghost starts: map<string, string>, ghost addedPaths: set<string>, ghost gone: set<string>)
      returns (raised: Option<Exception>, ghost additions: seq<Event>)
      requires Valid()
      requires forall id :: id in byId ==> byId[id].id == id
      requires forall id :: id in added ==> id in byId && id !in knownRows
      requires Sync.Enumerates(addedIds, added) && Sync.Distinct(addedIds) && (added == {} ==> addedIds == [])
      requires StartsAt(rootDir, byId, added, starts)
      requires forall id :: id in added ==> starts[id] in addedPaths
      modifies this, disk
      ensures Valid()
      ensures forall id :: id in knownRows ==> id in old(knownRows) || id in added
      ensures forall id :: id in old(knownRows) ==>
                id in knownRows && knownRows[id] == old(knownRows[id]) && unchanged(knownRows[id])
      ensures raised.None? ==> forall id :: id in added ==> id in knownRows && Running(knownRows[id], byId[id], starts[id])
      ensures SameOutside(old(disk.files), disk.files, addedPaths)
      ensures added == {} ==> raised.None? && knownRows == old(knownRows) && disk.files == old(disk.files)
      ensures |additions| <= |addedIds| && (raised.None? ==> |additions| == |addedIds|)
      ensures forall k :: 0 <= k < |additions| ==> additions[k] == Added(addedIds[k])
      ensures raised.None? && Apart(added, starts, gone) ==>
                AllReflect(rule, Generator(today), byId, added, starts, disk.files)
    {
      ghost var count;
      raised, additions, count := InsertAndStart(addedIds, byId, disk, today, added, starts, addedPaths, gone);
      ReflectsAll(rule, Generator(today), addedIds, added, byId, starts, disk.files);
      if raised.None? {
        assert addedIds[..count] == addedIds;
        forall id | id in added
          ensures id in knownRows && Running(knownRows[id], byId[id], starts[id])
        {
          var k :| 0 <= k < |addedIds| && addedIds[k] == id;
        }
      }
    }

    /** The two loops of `sync_rows` once the snapshot has been diffed:
        `ids` are the snapshot's ids, `byId` its rows by id, `added` the new
        ids and `removed` the ids no longer listed, visited in the orders
        `addedIds` and `removedIds`. An exception from a start skips the
        second loop. */
    method Reconcile(byId: map<string, Row>, ids: set<string>, added: set<string>, removed: set<string>,
                     addedIds: seq<string>, removedIds: seq<string>, disk: Disk, today: Date,
                     ghost starts: map<string, string>, ghost removedPaths: set<string>, ghost addedPaths: set<string>)
      returns (raised: Option<Exception>, ghost additions: seq<Event>, ghost removals: seq<Event>)
      requires Valid()
      requires forall id :: id in byId ==> byId[id].id == id
      requires forall id :: id in byId <==> id in ids
      requires forall id :: id in added <==> id in ids && id !in knownRows
      requires forall id :: id in removed <==> id in knownRows && id !in ids
      requires Sync.Enumerates(addedIds, added) && Sync.Enumerates(removedIds, removed)
      requires Sync.Distinct(addedIds) && Sync.Distinct(removedIds)
      requires (added == {} ==> addedIds == []) && (removed == {} ==> removedIds == [])
      requires StartsAt(rootDir, byId, added, starts)
      requires forall id :: id in removed ==> knownRows[id].filename in removedPaths
      requires forall id :: id in added ==> starts[id] in addedPaths
      modifies this, disk, knownRows.Values
      ensures Valid()
      ensures raised.None? ==> forall id :: id in knownRows <==> id in ids
      ensures forall id :: id in knownRows ==> id in old(knownRows) || id in added
      ensures forall id :: id in old(knownRows) && id !in removed ==>
                id in knownRows && knownRows[id] == old(knownRows[id]) && unchanged(knownRows[id])
      ensures raised.None? ==> forall id :: id in added ==> Running(knownRows[id], byId[id], starts[id])
      ensures raised.None? ==> forall id :: id in removed ==> !old(knownRows[id]).subscribed
      ensures added == {} ==> raised.None?
      ensures raised.Some? ==> forall id :: id in old(knownRows) ==> id in knownRows
      ensures SameOutside(old(disk.files), disk.files, removedPaths + addedPaths)
      ensures added == {} && removed == {} ==> knownRows == old(knownRows) && disk.files == old(disk.files)
      ensures |additions| <= |addedIds| && (raised.None? ==> |additions| == |addedIds|)
      ensures forall k :: 0 <= k < |additions| ==> additions[k] == Added(addedIds[k])
      ensures raised.Some? ==> removals == []
      ensures raised.None? ==> |removals| == |removedIds| && forall k :: 0 <= k < |removals| ==> removals[k] == Removed(removedIds[k])
      ensures raised.None? ==> NewFilesReflect(byId, added, removedPaths, today, disk.files)
      ensures rule == Intended && raised.None? ==> forall id :: id in removed ==> old(knownRows[id].filename) !in disk.files
      ensures rule == AsWritten ==> FilesKept(old(disk.files), disk.files, addedPaths, removedPaths)
    {
      raised, additions := InsertAdded(byId, added, addedIds, disk, today, starts, addedPaths, removedPaths);
      if raised.Some? {
        removals := [];
        SameOutsideTrans(old(disk.files), disk.files, disk.files, addedPaths, {}, removedPaths + addedPaths);
        SameOutsideKeepsFiles(old(disk.files), disk.files, addedPaths);
        return;
      }
      ghost var filesBetween := disk.files;
      removals := RemoveUnits(removedIds, disk, removed, removedPaths);
      SameOutsideTrans(old(disk.files), filesBetween, disk.files, addedPaths, removedPaths, removedPaths + addedPaths);
      if rule == AsWritten {
        SameOutsideKeepsFiles(old(disk.files), filesBetween, addedPaths);
        FilesKeptTrans(old(disk.files), filesBetween, disk.files, addedPaths, {}, {}, removedPaths, addedPaths, removedPaths);
      }
      SeparateApart(rootDir, byId, added, starts, removedPaths);
      AllReflectFrame(rule, Generator(today), byId, added, starts, removedPaths, filesBetween, disk.files);
      UnitsReflect(rule, Generator(today), byId, added, starts, knownRows, disk.files);
    }

    /** `sync_rows` of sync.py on the snapshot `rows`: insert and start a
        unit for every new id, then remove and delete the unit of every id no
        longer listed. An exception from a start ends the call before any
        removal. */
    method SyncRows(rows: seq<Row>, disk: Disk, today: Date) returns (raised: Option<Exception>, ghost trace: seq<Event>)
      requires Valid()
      modifies this, disk, knownRows.Values
      ensures Valid()
      // the key set follows the snapshot
      ensures raised.None? ==> forall id :: id in knownRows <==> id in Sync.IdsOf(rows)
      ensures forall id :: id in knownRows ==> id in old(knownRows) || id in Sync.IdsOf(rows)
      // units of ids in both are left alone
      ensures forall id :: id in old(knownRows) && id in Sync.IdsOf(rows) ==>
                id in knownRows && knownRows[id] == old(knownRows[id]) && unchanged(knownRows[id])
      // new units are started at their row's file name
      ensures raised.None? ==> forall id :: id in Sync.IdsOf(rows) && id !in old(knownRows) ==>
                Running(knownRows[id], Sync.ById(rows)[id], SyncFilename(rootDir, Sync.ById(rows)[id]))
      // removed units are stopped
      ensures raised.None? ==> forall id :: id in old(knownRows) && id !in Sync.IdsOf(rows) ==> !old(knownRows[id]).subscribed
      // the intended removal leaves nothing at their names
      ensures rule == Intended && raised.None? ==>
                forall id :: id in old(knownRows) && id !in Sync.IdsOf(rows) ==> old(knownRows[id].filename) !in disk.files
      // as written every regular file outside the new units' trees and
      // below no removed unit's name is kept, the removed units' own files included
      ensures rule == AsWritten ==>
                FilesKept(old(disk.files), disk.files, UnitPaths(rootDir, Sync.ById(rows), Sync.IdsOf(rows) - old(knownRows.Keys)),
                          old(Filenames(knownRows, knownRows.Keys - Sync.IdsOf(rows))))
      // only a start can raise, and then nothing has been removed
      ensures Sync.IdsOf(rows) <= old(knownRows.Keys) ==> raised.None?
      ensures raised.Some? ==> forall id :: id in old(knownRows) ==> id in knownRows
      // nothing else changes on disk
      ensures SameOutside(old(disk.files), disk.files,
                          old(Filenames(knownRows, knownRows.Keys - Sync.IdsOf(rows)))
                          + UnitPaths(rootDir, Sync.ById(rows), Sync.IdsOf(rows) - old(knownRows.Keys)))
      // a snapshot with the same ids changes nothing
      ensures Sync.IdsOf(rows) == old(knownRows.Keys) ==> knownRows == old(knownRows) && disk.files == old(disk.files)
      // no unit is added after one is removed, and every id is dealt with
      ensures LegacyOrder(trace)
      ensures raised.None? ==> (forall id :: id in Sync.IdsOf(rows) && id !in old(knownRows) ==> Added(id) in trace)
                               && forall id :: id in old(knownRows) && id !in Sync.IdsOf(rows) ==> Removed(id) in trace
      // with the new rows' file names apart from each other and from the
      // removed units' names, each new unit's file reflects its row
      ensures raised.None? && SeparateFiles(rootDir, Sync.ById(rows), Sync.IdsOf(rows) - old(knownRows.Keys),
                                            old(Filenames(knownRows, knownRows.Keys - Sync.IdsOf(rows)))) ==>
                Reflected(rule, Generator(today), knownRows, Sync.IdsOf(rows) - old(knownRows.Keys), disk.files)
      // so that under the intended deletion a new unit has a file exactly
      // when its row is published
      ensures rule == Intended && raised.None?
              && SeparateFiles(rootDir, Sync.ById(rows), Sync.IdsOf(rows) - old(knownRows.Keys),
                               old(Filenames(knownRows, knownRows.Keys - Sync.IdsOf(rows)))) ==>
                forall id :: id in Sync.IdsOf(rows) && id !in old(knownRows) ==>
                  (HasFile(disk.files, knownRows[id].filename) <==> LegacyMeta.IsRowPublished(knownRows[id].row, today))
    {
      raised, trace := Apply(rows, disk, today);
      ReflectsIntended(Generator(today), knownRows, Sync.IdsOf(rows) - old(knownRows.Keys), disk.files);
    }

    /** The body of `sync_rows`: diff the snapshot against the tracked ids,
        then run the two loops. */
    method Apply(rows: seq<Row>, disk: Disk, today: Date) returns (raised: Option<Exception>, ghost trace: seq<Event>)
      requires Valid()
      modifies this, disk, knownRows.Values
      ensures Valid()
      // the key set follows the snapshot
      ensures raised.None? ==> forall id :: id in knownRows <==> id in Sync.IdsOf(rows)
      ensures forall id :: id in knownRows ==> id in old(knownRows) || id in Sync.IdsOf(rows)
      // units of ids in both are left alone
      ensures forall id :: id in old(knownRows) && id in Sync.IdsOf(rows) ==>
                id in knownRows && knownRows[id] == old(knownRows[id]) && unchanged(knownRows[id])
      // new units are started at their row's file name
      ensures raised.None? ==> forall id :: id in Sync.IdsOf(rows) && id !in old(knownRows) ==>
                Running(knownRows[id], Sync.ById(rows)[id], SyncFilename(rootDir, Sync.ById(rows)[id]))
      // removed units are stopped
      ensures raised.None? ==> forall id :: id in old(knownRows) && id !in Sync.IdsOf(rows) ==> !old(knownRows[id]).subscribed
      // the intended removal leaves nothing at their names
      ensures rule == Intended && raised.None? ==>
                forall id :: id in old(knownRows) && id !in Sync.IdsOf(rows) ==> old(knownRows[id].filename) !in disk.files
      // as written every regular file outside the new units' trees and
      // below no removed unit's name is kept, the removed units' own files included
      ensures rule == AsWritten ==>
                FilesKept(old(disk.files), disk.files, UnitPaths(rootDir, Sync.ById(rows), Sync.IdsOf(rows) - old(knownRows.Keys)),
                          old(Filenames(knownRows, knownRows.Keys - Sync.IdsOf(rows))))
      // only a start can raise, and then nothing has been removed
      ensures Sync.IdsOf(rows) <= old(knownRows.Keys) ==> raised.None?
      ensures raised.Some? ==> forall id :: id in old(knownRows) ==> id in knownRows
      // nothing else changes on disk
      ensures SameOutside(old(disk.files), disk.files,
                          old(Filenames(knownRows, knownRows.Keys - Sync.IdsOf(rows)))
                          + UnitPaths(rootDir, Sync.ById(rows), Sync.IdsOf(rows) - old(knownRows.Keys)))
      // a snapshot with the same ids changes nothing
      ensures Sync.IdsOf(rows) == old(knownRows.Keys) ==> knownRows == old(knownRows) && disk.files == old(disk.files)
      // no unit is added after one is removed, and every id is dealt with
      ensures LegacyOrder(trace)
      ensures raised.None? ==> (forall id :: id in Sync.IdsOf(rows) && id !in old(knownRows) ==> Added(id) in trace)
                               && forall id :: id in old(knownRows) && id !in Sync.IdsOf(rows) ==> Removed(id) in trace
      // with the new rows' file names apart from each other and from the
      // removed units' names, each new unit's file reflects its row
      ensures raised.None? ==> NewFilesReflect(Sync.ById(rows), Sync.IdsOf(rows) - old(knownRows.Keys),
                                               old(Filenames(knownRows, knownRows.Keys - Sync.IdsOf(rows))), today, disk.files)
    {
      var byId := Sync.ById(rows);
      var ids := Sync.IdsOf(rows);
      var added := ids - knownRows.Keys;
      var removed := knownRows.Keys - ids;
      ghost var gone := Filenames(knownRows, removed);
      var addedIds := Sync.IterationOrder(added);
      var removedIds := Sync.IterationOrder(removed);
      ghost var starts := Plan(rootDir, byId, added);
      ghost var t1, t2;
      raised, t1, t2 := Reconcile(byId, ids, added, removed, addedIds, removedIds, disk, today,
                                  starts, gone, UnitPaths(rootDir, byId, added));
      trace := t1 + t2;
      LegacyTrace(addedIds, removedIds, t1, t2, added, removed);
    }
  }
}
