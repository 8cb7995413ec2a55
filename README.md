# notion-sync, modelled in Dafny

notion-sync mirrors a Notion collection of blog posts into a directory of
markdown files, one file per published row. This project models the
engine of `notion_sync/__main__.py` and its older copy in `sync.py`:

- the row-metadata helpers: the publish date, the derived status and its
  write-back, the published test, the slug, the file name, the link and the
  front-matter;
- the recursive markdown renderer (`get_markdown_from_page`, `indent_children`)
  over a `Block` datatype with one constructor per block kind;
- the reconciliation state: `RowSync`, a class whose `filename` changes in
  place, and `CollectionFileSync`, a class whose `known_rows` map changes in
  place, over a file system held by a `Disk` object.

Modules:

| module | file | models |
|---|---|---|
| `Python` | python.dfy | `None`, the exceptions raised, a result-or-exception |
| `Strings` | strings.dfy | `str.join`, `str.split`, `str.replace`, `in` on strings, `%0Nd` |
| `Notion` | notion.dfy | rows, schema entries, property values, dates |
| `Files` | files.dfy | the file system as a map from path to entry, `rm_file`, `os.remove`, `rmtree`, `open(..., "w")` |
| `RowMeta`, `Markdown`, `Sync` | rowmeta.dfy, markdown.dfy, sync.dfy | `notion_sync/__main__.py` |
| `LegacyMeta`, `LegacyMarkdown`, `LegacySync` | legacymeta.dfy, legacymarkdown.dfy, legacysync.dfy | `sync.py` |

Design choices:

- Every deletion goes through an explicit `DeleteRule`.
  - `AsWritten` is what the code does.
  - `Intended` is the removal of the file that the callers evidently expect.
  - Both units and both collections carry the rule, so every property is
    stated for the code as written and, where they differ, for the intended
    deletion.
- A rendering is `Markdown(text)`, `NoOutput` (Python's `None`, from a
  CollectionView) or `Raised(e)`.
  - In `sync.py` a `None` child reaches a `"\n\n".join` (TypeError) or a
    `.replace` (AttributeError).
  - The `elif` at sync.py:182 has no body, so the file does not parse. The
    model treats that branch as `None`, like the newer engine.
- The current date is a parameter. The model never reads a clock.
- Most lemmas about a loop-based method are stated about a function that
  specifies it:
  - `UpdateFileSpec` and `DisposeSpec` specify `update_file` and the
    disposal;
  - `WithStatus` and `WithDerivedStatus` specify `set_row_status` and
    `set_row_published_pending`.
  The method's `ensures` ties the new state to that function.
- A step of `sync_rows` is recorded as a ghost event trace, so the order of
  the loops is part of the contract:
  - newer engine: inserted, disposed, dropped, updated;
  - older engine: added, removed.

Behaviour of the code worth noting:

- `sync_rows` inserts the new units before it disposes of the removed ones.
- A CollectionView renders as `None`. A page root drops it, but a column join fails on it.
- The title is split at single spaces only.
- `rm_file` deletes nothing.
- `stop_watching_and_remove` fails on a missing file.
- Indenting a list item's children shifts each later sibling two further
  spaces. The code prefixes the empty line after a child's trailing newline,
  and that prefix lands in front of the next sibling; `Markdown.SiblingIndentDrift`
  shows it.

## Model

| member | source | states |
|---|---|---|
| Files.RmFile | notion_sync/__main__.py:18-22 | raises exactly on a directory (IsADirectoryError from `os.remove`); a missing path or a regular file is left alone |
| Files.RmFileNeverDeletes | notion_sync/__main__.py:18-22 | whenever `rm_file` returns, the file system is unchanged |
| Files.RmFileIntended | notion_sync/__main__.py:18-22 | the intended deletion leaves no regular file at the path, changes no other path, and leaves a directory alone |
| Files.Remove | notion_sync/__main__.py:271 | `os.remove` raises exactly when no regular file is there (FileNotFoundError or IsADirectoryError); otherwise the path is gone and nothing else changed |
| Files.RmTree | sync.py:213 | `rmtree(p, ignore_errors=True)` removes a directory and everything below it; on a regular file or a missing path it changes nothing; it never adds or alters an entry |
| Files.RmTreeKeepsRegularFile | sync.py:229 | `rmtree` with ignored errors leaves a regular file in place |
| Files.RmTreeIntended | sync.py:233 | the intended deletion leaves nothing at the path and changes nothing outside its tree |
| Files.RmTreeRulesAgree | sync.py:213 | the two rules agree wherever there is no regular file at the path |
| Files.RmTreeKeepsFiles | sync.py:213 | `rmtree` keeps every regular file that is not below the path, the path's own regular file included |
| Files.SameOutsideKeepsFiles | sync.py:211-229 | a change confined to some trees keeps every regular file outside them |
| Files.FilesKeptTrans | sync.py:276-287 | keeping the regular files composes over two steps, the touched trees and erased paths adding up |
| Files.OpenForWrite | notion_sync/__main__.py:257 | `open(p, "w")` raises exactly on a directory and otherwise creates or truncates the file |
| Strings.Split | notion_sync/__main__.py:104 | `str.split(c)` yields one more piece than there are separators, and no piece holds the separator |
| Strings.Join | notion_sync/__main__.py:104 | `sep.join(parts)`; Strings.SplitJoinRoundTrip and Strings.JoinSplitRoundTrip prove it inverse to `Split` |
| Strings.Replace | notion_sync/__main__.py:225 | `s.replace(c, rep)` for one character; Strings.JoinSplitIsReplace proves it is joining the split pieces with `rep`, and Strings.ReplaceLength gives its length |
| Strings.IsSubstring | notion_sync/__main__.py:85 | Python's `a in b`; RowMeta.StatusNameInPublished and RowMeta.PublishedStatusFrom use it for the `in "Published"` test |
| Strings.JoinSplitIsReplace | notion_sync/__main__.py:104 | joining the pieces of a split with `rep` is replacing every separator with `rep` |
| Strings.SplitJoinRoundTrip | notion_sync/__main__.py:207 | splitting the join of separator-free pieces gives the pieces back |
| Strings.JoinSplitRoundTrip | notion_sync/__main__.py:207 | joining the pieces of a split with the separator gives the string back |
| Strings.ReplaceLength | notion_sync/__main__.py:225 | replacing each separator by `rep` changes the length by `(len(rep) - 1)` per separator |
| Strings.PrefixLinesSplit | notion_sync/__main__.py:225 | `p + s.replace("\n", "\n" + p)` is `s` with every line prefixed by `p` |
| Strings.PrefixLinesCount | notion_sync/__main__.py:225 | prefixing the lines keeps the count of newlines and adds `len(p)` per line |
| Strings.Pad | notion_sync/__main__.py:100-101 | `%0Nd` gives digits that read back as the number, at least `N` wide and exactly `N` when the number fits |
| RowMeta.PublishDatesFrom | notion_sync/__main__.py:51-58 | the dates listed are exactly the non-None `start`s of the "Publish Date" entries of type "date" |
| RowMeta.MaxDate | notion_sync/__main__.py:59 | `max` returns a member of the list that no member is after |
| RowMeta.GetRowPublishDate | notion_sync/__main__.py:50-59 | None exactly when no entry contributes a date; otherwise a contributed date that no contributed date is after |
| RowMeta.SetRowStatus | notion_sync/__main__.py:62-65 | the loop writes `value` to every "Status" property and nothing else; with no Status entry the row is unchanged |
| RowMeta.SetRowPublishedPending | notion_sync/__main__.py:68-79 | writes Unpublished, Pending or Published by the date against today; afterwards the published test holds exactly when a Status entry exists and the row is classified Published |
| RowMeta.StatusWriteKeepsPublishDate | notion_sync/__main__.py:62-65 | writing the status never changes the publish date |
| RowMeta.DerivedStatusIdempotent | notion_sync/__main__.py:68-79 | deriving the status twice on one day is deriving it once |
| RowMeta.StatusWrittenTwice | notion_sync/__main__.py:62-65 | writing the same status twice is writing it once |
| RowMeta.PublishedStatusFrom | notion_sync/__main__.py:83-89 | the `any` over Status entries raises TypeError exactly when a Status value is not a string, and holds exactly when some value is a substring of "Published" |
| RowMeta.IsRowPublished | notion_sync/__main__.py:82-91 | `is_row_published` raises on a non-string Status value and otherwise holds iff some Status value is `in "Published"` |
| RowMeta.PublishedAfterStatusWrite | notion_sync/__main__.py:82-91 | after writing `value` to the Status entries, the test holds iff a Status entry exists and `value` is a substring of "Published" |
| RowMeta.StatusNameInPublished | notion_sync/__main__.py:75-79 | of Unpublished, Pending and Published only Published passes the `in` test |
| RowMeta.PublishedAfterDerivedStatus | notion_sync/__main__.py:68-91 | right after the status write-back the test never raises and holds iff a Status entry exists and the date is on or before today |
| RowMeta.DateSlugRoundTrip | notion_sync/__main__.py:100-101 | a valid date's `%04d-%02d-%02d` is ten characters and reads back as the date |
| RowMeta.UndatedSlugIsZeroDate | notion_sync/__main__.py:97-99 | the undated sentinel "0000-00-00" is the slug of the date 0-0-0, which no valid date has |
| RowMeta.DatePartLength | notion_sync/__main__.py:97-102 | the date part of a slug is ten characters without a space |
| RowMeta.GetRowLinkSlug | notion_sync/__main__.py:94-104 | `get_row_link_slug`: the date part and the title pieces joined by "-"; RowMeta.LinkSlugShape proves its closed form, the missing space and the date read back |
| RowMeta.LinkSlugShape | notion_sync/__main__.py:94-104 | the slug is the date part, "-" and the title with each space replaced by "-"; it has no space and reads back as the date (0-0-0 when undated) |
| RowMeta.SlugConflatesSpaceAndDash | notion_sync/__main__.py:104 | two titles equal after replacing spaces by dashes give the same slug on the same date |
| RowMeta.SpaceAndDashTitles | notion_sync/__main__.py:104 | a witness for the lemma above: the distinct titles "a b" and "a-b" are equal after the replacement |
| RowMeta.TagsFrom | notion_sync/__main__.py:37-43 | a string is among the chained tags exactly when it is a tag of some "Tags" multi_select entry |
| RowMeta.TagsFromNone | notion_sync/__main__.py:37-43 | when no entry from index `i` on contributes tags, the chain from `i` is empty |
| RowMeta.TagsFromOnly | notion_sync/__main__.py:37-43 | when only entry `k` from index `i` on contributes tags, the chain from `i` is that entry's list, in order and with repetitions |
| RowMeta.SingleTagsEntry | notion_sync/__main__.py:37-43 | a row with a single tag-contributing entry has exactly that entry's tags, in order and with repetitions |
| RowMeta.TagsIgnoreIcon | notion_sync/__main__.py:37-43 | the tags do not depend on the icon |
| RowMeta.GetDecoratedRowTitle | notion_sync/__main__.py:127-128 | `get_decorated_row_title`: the title, or the icon, a space and the title; RowMeta.PostMetaLines and Markdown.NonRootRowIsLink state where it appears |
| RowMeta.GetPostMeta | notion_sync/__main__.py:36-47 | `get_post_meta`: RowMeta.PostMetaLines proves its four lines, and RowMeta.TagsFrom which tags it lists |
| RowMeta.PostMetaLines | notion_sync/__main__.py:44-47 | the front-matter is four lines: the fences, "title: " and the decorated title, "tags: " and the comma-joined tags, the tags line present even with no tags |
| Markdown.ContainsRow | notion_sync/__main__.py:111-121 | holds iff the row is in the root collection and published; raises only when the published test is reached and raises |
| Markdown.GetBlockUrl | notion_sync/__main__.py:123-124 | `get_block_url`: "/posts/" and the slug; Markdown.BlockUrlHasNoSpace proves its shape |
| Markdown.Render | notion_sync/__main__.py:135-220 | the rendering is `None` exactly for a CollectionView block |
| Markdown.PageRootJoinsChildren | notion_sync/__main__.py:137-149 | a page root joins the non-None child renderings with "\n\n", keeping empty ones, one per child when no child is a CollectionView |
| Markdown.PageRootRaises | notion_sync/__main__.py:137-149 | a page root raises iff some child's rendering raises |
| Markdown.NonRootRowIsLink | notion_sync/__main__.py:150-158 | a row that is not a page root renders "" unless `contains_row` holds, and then `[decorated title](/posts/<slug>)` |
| Markdown.RowLinkText | notion_sync/__main__.py:150-158 | the same facts about the link rendering on its own |
| Markdown.BlockUrlHasNoSpace | notion_sync/__main__.py:123-124 | the URL starts with "/posts/", has "-" after the date part and holds no space |
| Markdown.LeafKindPrefixes | notion_sync/__main__.py:160-220 | header "# ", subheader "## ", sub-sub-header "### ", a childless todo "[x] "/"[ ] " and "\n", divider "---\n", an unknown block its `str` |
| Markdown.QuoteLines | notion_sync/__main__.py:205-207 | a quote prefixes every line with "> ", keeps the line count, and grows by two characters per line |
| Markdown.CodeLines | notion_sync/__main__.py:201-204 | for a language without a newline, the lines of a code block are the opening fence with the language, then every line of the source (however many), then the closing fence |
| Markdown.IndentSingleChild | notion_sync/__main__.py:222-229 | indenting one child prefixes each of its lines with two spaces: same newlines, `len(s) + 2*(newlines+1)` characters |
| Markdown.IndentChildren | notion_sync/__main__.py:222-229 | `indent_children`: Markdown.IndentChildrenAppend proves it the concatenation of each non-None child indented alone, and Markdown.IndentSingleChild the single-child case |
| Markdown.IndentChildrenAppend | notion_sync/__main__.py:222-229 | indenting children is the concatenation of each non-None child indented on its own, with no separator |
| Markdown.ListItems | notion_sync/__main__.py:170-211 | a bullet, a numbered item and a todo with any children are "- ", "1. " or the checkbox marker, the title, "\n" and the indented children, and raise exactly when indenting the children raises |
| Markdown.LeafItem | notion_sync/__main__.py:170-173 | for a one-character title `c`, a childless bullet is exactly "- c\n", and indented it is "  - c\n  ", ending in two spaces |
| Markdown.SiblingIndentDrift | notion_sync/__main__.py:222-229 | two sibling items under one bullet render "- x\n  - a\n    - b\n  ": the second sibling is indented two spaces further |
| Markdown.ColumnWithCollectionViewRaises | notion_sync/__main__.py:178-192 | a column list or column with a CollectionView child raises TypeError, since its join does not filter `None` |
| LegacyMeta.PublishedStatusFrom | sync.py:51-53 | the `any` holds iff some Status property equals "Published" exactly |
| LegacyMeta.IsRowPublished | sync.py:50-61 | published iff a Status value is exactly "Published" and the row has a publish date on or before today |
| LegacyMeta.PublishedByBothTests | sync.py:50-61 | a row the older test publishes the newer test publishes too, when the Status values are strings |
| LegacyMeta.SubstringStatusPublishedOnlyByNewTest | sync.py:52 | a dated row with Status "Pub" passes the newer `in` test but not the older `==` test |
| LegacyMeta.GetRowLinkSlug | sync.py:64-76 | None exactly for an undated row; otherwise the newer engine's slug |
| LegacyMeta.DatedSlugShape | sync.py:69-76 | a dated slug is "YYYY-MM-DD", "-" and the title with spaces replaced by "-" |
| LegacyMeta.GetPostMeta | sync.py:28-35 | the older `get_post_meta`; LegacyMeta.PostMetaIgnoresIcon proves it the newer one of the row without an icon |
| LegacyMeta.PostMetaIgnoresIcon | sync.py:28-35 | the front-matter uses the plain title: it is the newer one of the row without an icon, and no icon changes it |
| LegacyMeta.PostMetaLines | sync.py:28-35 | four lines, the plain title and the tags line present even with no tags |
| LegacyMarkdown.FirstFailure | sync.py:189-193 | the indentation fails exactly when some child rendering is not text |
| LegacyMarkdown.ContainsRow | sync.py:84-91 | the older `contains_row`: in the root collection and published by the older test; LegacyMarkdown.NonRootRowIsLink states its effect on a link |
| LegacyMarkdown.GetBlockUrl | sync.py:94-95 | `'./' + get_row_link_slug(block)`: TypeError for an undated row; LegacyMarkdown.UndatedRowIsNoLink proves that case never renders |
| LegacyMarkdown.IndentChildren | sync.py:189-193 | the older `indent_children`, which does not filter `None`; LegacyMarkdown.FirstFailure, LegacyMarkdown.IndentCollectionViewRaises and LegacyMarkdown.IndentSingleChild state its outcomes |
| LegacyMarkdown.Render | sync.py:103-187 | the rendering is `None` exactly for a CollectionView block |
| LegacyMarkdown.NonRootRowIsLink | sync.py:112-129 | a row that is not a page root renders "" unless in the root collection and published, and then `[icon title](./<slug>)` or `[title](./<slug>)` |
| LegacyMarkdown.UndatedRowIsNoLink | sync.py:94-95 | for an undated row `"./" + None` would raise TypeError, but such a row is never published and renders "" |
| LegacyMarkdown.PageRootJoinsEveryChild | sync.py:105-111 | a page root raises TypeError iff a child is a CollectionView; otherwise it joins every child rendering with "\n\n" |
| LegacyMarkdown.CollectionViewOnlyBreaksLegacyPageRoot | sync.py:108-111 | a page with a text and a CollectionView child raises in the older engine and renders the text in the newer one |
| LegacyMarkdown.IndentCollectionViewRaises | sync.py:189-193 | indenting a CollectionView child raises AttributeError, and so does the list item holding it |
| LegacyMarkdown.IndentSingleChild | sync.py:189-193 | indenting one child prefixes each line with two spaces, with the newer length and line facts |
| LegacyMarkdown.SharedLeavesAgree | sync.py:131-177 | text, headers, code, quotes and unknown blocks render as in the newer engine |
| LegacyMarkdown.DifferingLeaves | sync.py:161-167 | an image has its source's basename as alt text, and a divider, having no branch, renders as its `str` |
| LegacyMarkdown.ColumnListWrapper | sync.py:149-154 | a column list is wrapped in `<section style="display:flex;">` and `</section>` around its "\n"-joined children |
| Sync.Settle | notion_sync/__main__.py:255-267 | the unit ends at the given path with the given row |
| Sync.SyncFilename | notion_sync/__main__.py:273-275 | `_get_sync_filename`: root, "/", slug, ".md"; Sync.SharedSlugCollides and LegacySync.DatedFilenameAgrees relate it to the slug |
| Sync.UpdateFileSpec | notion_sync/__main__.py:247-267 | `update_file` on values; Sync.UpdateFileAdoptsFilename, Sync.UpdateFileFrame, Sync.UpdateFileWritesPage, Sync.UpdateFileIntendedCleansUp, Sync.UpdateFileAsWrittenNeverDeletes and Sync.UpdateFileIdempotent state its properties |
| Sync.DisposeSpec | notion_sync/__main__.py:269-271 | `stop_watching_and_remove` on values; Sync.DisposeAsWrittenRaises and Sync.DisposeIntendedRemovesFile state its outcomes |
| Sync.IdsOf | notion_sync/__main__.py:305 | `frozenset(row.id for row in rows)`; Sync.ById proves its ids are exactly the keys of `rows_dict` |
| Sync.SettleAsWrittenKeeps | notion_sync/__main__.py:255-267 | as written settling never removes a path; for an unpublished row it changes nothing and fails exactly when the published test raises or the path is a directory |
| Sync.UpdateFileAdoptsFilename | notion_sync/__main__.py:247-267 | the row ends with the derived status; on success the file name is the derived row's sync file name, and otherwise the old or the new one |
| Sync.UpdateFileFrame | notion_sync/__main__.py:247-267 | no path is touched except the old and the new file name |
| Sync.UpdateFileWritesPage | notion_sync/__main__.py:255-265 | for a row with a Status entry dated on or before today, a successful step leaves front-matter, "\n\n" and the page rendering at the file name |
| Sync.UpdateFileIntendedCleansUp | notion_sync/__main__.py:247-267 | with the intended deletion a successful step leaves a file at the file name iff the row is published, and none at a name it gave up |
| Sync.UpdateFileAsWrittenNeverDeletes | notion_sync/__main__.py:247-267 | as written no path ever disappears, and an unpublished row leaves the file system exactly as it was |
| Sync.StaleFileLingers | notion_sync/__main__.py:266-267 | the unpublished post "a" keeps its old file "out/0000-00-00-a.md" |
| Sync.UpdateFileIdempotent | notion_sync/__main__.py:247-267 | running a successful step again on the same day changes nothing |
| Sync.SettleReflects | notion_sync/__main__.py:255-267 | a successful settle leaves the file at the path reflecting the row: the rendered page when published, and under the intended deletion no regular file otherwise |
| Sync.UpdateFileReflects | notion_sync/__main__.py:247-267 | a successful `update_file` leaves the unit's file reflecting its derived row |
| Sync.ReflectsFrame | notion_sync/__main__.py:247-267 | a change to other paths keeps a file reflecting its row |
| Sync.SettleIdempotent | notion_sync/__main__.py:255-267 | settling a settled file changes nothing |
| Sync.DisposeAsWrittenRaises | notion_sync/__main__.py:269-271 | as written a started unit whose file is missing raises FileNotFoundError, and an unstarted one raises AttributeError |
| Sync.DisposeIntendedRemovesFile | notion_sync/__main__.py:269-271 | the intended disposal never raises, unsubscribes, leaves no file at the name and changes no other path |
| Sync.RecreatedPostKeepsPage | notion_sync/__main__.py:317-331 | disposing of a removed unit with the intended deletion and then updating a new unit at the same file name leaves the published new row's page there |
| Sync.RowSync.constructor | notion_sync/__main__.py:237-241 | a new unit holds the row at its sync file name, unsubscribed and without a callback |
| Sync.RowSync.UpdateFile | notion_sync/__main__.py:247-267 | the new row, file name and file system are `UpdateFileSpec` of the old ones, and the subscription is untouched |
| Sync.RowSync.StartWatching | notion_sync/__main__.py:243-245 | subscribes, then does what `update_file` does |
| Sync.RowSync.StopWatchingAndRemove | notion_sync/__main__.py:269-271 | the subscription and file system are `DisposeSpec` of the old ones; row and file name are kept |
| Sync.ById | notion_sync/__main__.py:304 | `rows_dict` maps exactly the snapshot's ids, each to a row of the snapshot with that id |
| Sync.IterationOrder | notion_sync/__main__.py:311 | a `for` over a frozenset visits each member exactly once |
| Sync.InSyncOrder | notion_sync/__main__.py:311-331 | insertions, then disposals each followed by its deletion, then updates, are in the order `sync_rows` promises |
| Sync.SyncTrace | notion_sync/__main__.py:311-331 | the three loops' steps are in that order, and when the last loop completes every added id is updated while all the snapshot's ids are tracked |
| Sync.SeparateDisjoint | notion_sync/__main__.py:311-331 | when no two new rows can be given the same file name, no two new units claim the same file name |
| Sync.ClaimedPaths | notion_sync/__main__.py:247-253 | the file names a new unit claims are its row's and its derived row's |
| Sync.SharedSlugCollides | notion_sync/__main__.py:273-275 | two new rows with the same title and publish date do not have separate file names |
| Sync.UpdateStep | notion_sync/__main__.py:327-331 | one update of a new unit yields its derived row at its file name, touches only the loop's paths, and extends by one the prefix of units whose files reflect their rows |
| Sync.ReflectsExtend | notion_sync/__main__.py:327-331 | a step that touches only its own unit's file names keeps the earlier units' files reflecting their rows |
| Sync.ReflectsAll | notion_sync/__main__.py:327-331 | when every visited unit reflects its row, every new unit does |
| Sync.ReflectsIntended | notion_sync/__main__.py:247-271 | under the intended deletion, a unit whose file reflects its row has a regular file exactly when the row is published |
| Sync.DisposalStep | notion_sync/__main__.py:317-323 | a successful disposal that changes only its own name keeps the earlier removed names free of regular files and adds its own |
| Sync.AllDone | notion_sync/__main__.py:317-323 | when every id of the loop has its name cleared, so has every id of the removed set it enumerates |
| Sync.CollectionFileSync.constructor | notion_sync/__main__.py:285-291 | a new collection tracks no rows |
| Sync.CollectionFileSync.UpdateUnit | notion_sync/__main__.py:327-331 | one step of the last loop on an unstarted unit: on success the unit holds the derived row at its file name, with its callback id assigned and subscribed exactly in watch mode; only the loop's file names change on disk; when no two new units share a file name, its file joins the earlier ones in reflecting its row |
| Sync.CollectionFileSync.DisposeUnit | notion_sync/__main__.py:322 | one disposal: the subscription and file system become `DisposeSpec` of the old ones; on success the unit is unsubscribed and no regular file is left at its name; it never raises with the intended rule and touches only the unit's file |
| Sync.CollectionFileSync.AddUnit | notion_sync/__main__.py:311-315 | one step of the first loop: a fresh unit for the id, unstarted at its file name, tracked under the id and every other entry kept |
| Sync.CollectionFileSync.InsertUnits | notion_sync/__main__.py:311-315 | the first loop adds a fresh, unstarted unit for each added id and keeps every other entry |
| Sync.CollectionFileSync.DisposeUnits | notion_sync/__main__.py:317-323 | the second loop disposes of and deletes each removed unit, stopping at the first exception with that unit still tracked; on success every removed unit is unsubscribed and no regular file is left at any of their names; other units are unchanged; only their names change on disk |
| Sync.CollectionFileSync.UpdateUnits | notion_sync/__main__.py:327-331 | the last loop updates (or, in watch mode, starts) each new unstarted unit in turn, stopping at the first exception; each update is recorded while the same ids are tracked; on success each unit holds its derived row with its callback id assigned and subscribed exactly in watch mode and, when no two new units share a file name, every unit's file reflects its row |
| Sync.CollectionFileSync.Rekey | notion_sync/__main__.py:311-323 | after the first two loops the keys are the snapshot's ids, the kept units are unchanged, the new ones fresh, unstarted and not updated, and no regular file is left at a removed unit's name |
| Sync.CollectionFileSync.UpdateAdded | notion_sync/__main__.py:327-331 | the last loop on the new units: on success each holds its derived row at its file name, with its callback id assigned and subscribed exactly in watch mode, and, when no two new rows share a file name, its file reflects that row |
| Sync.CollectionFileSync.Reconcile | notion_sync/__main__.py:308-331 | the three loops together: key set equal to the snapshot's ids, kept units unchanged, new units updated (started exactly in watch mode) with their files reflecting their rows when no two new rows share a file name, removed ones unsubscribed with no regular file left at a removed name that no new unit claims, and only those files touched |
| Sync.CollectionFileSync.Apply | notion_sync/__main__.py:301-331 | `sync_rows` past the removal log line: the same facts, with the file facts stated through `NewFilesReflect` and the removed files through the names the new units may hold |
| Sync.CollectionFileSync.SyncRows | notion_sync/__main__.py:301-331 | on success the key set is the snapshot's ids; units in both are unchanged; new units are updated after all insertions and removals, with the callback id assigned and subscribed exactly in watch mode; in watch mode every tracked unit stays started; when no two new rows share a file name each new unit's file reflects its row, so that under the intended deletion it has a file exactly when the row is published; removed ones are unsubscribed and no regular file is left at a removed name that no new unit may hold; nothing else on disk changes; the same ids change nothing; a removal-only snapshot raises UnboundLocalError as written |
| LegacySync.Erase | sync.py:213 | a deletion under either rule never adds or alters an entry and changes nothing outside the path's tree; the intended one leaves nothing at the path, and as written every regular file not below the path is kept |
| LegacySync.Settle | sync.py:216-229 | the unit ends at the given path |
| LegacySync.SyncFilename | sync.py:235-237 | the older `_get_sync_filename`; LegacySync.UndatedRowsShareFilename and LegacySync.DatedFilenameAgrees state it |
| LegacySync.UpdateFileSpec | sync.py:211-229 | the older `update_file` on values; LegacySync.UpdateFileAdoptsFilename, LegacySync.UpdateFileFrame, LegacySync.UpdateFileWritesPage, LegacySync.UpdateFileAsWrittenKeepsOldFile and LegacySync.UpdateFileIntendedCleansUp state its properties |
| LegacySync.DisposeSpec | sync.py:231-233 | `remove_and_stop` on values; LegacySync.DisposeAsWrittenKeepsFile and LegacySync.DisposeIntendedRemovesFile state its outcomes |
| LegacySync.UndatedRowsShareFilename | sync.py:235-237 | every undated row's file is `root_dir + "/None.md"` |
| LegacySync.DatedFilenameAgrees | sync.py:235-237 | a dated row's file name is the newer engine's |
| LegacySync.UpdateFileAdoptsFilename | sync.py:211-229 | the unit always ends at the row's file name, and only the write of a published row can raise |
| LegacySync.SettleFrame | sync.py:216-229 | settling touches nothing outside the path's tree |
| LegacySync.UpdateFileFrame | sync.py:211-229 | a step touches nothing outside the trees of the old and the new file name |
| LegacySync.UpdateFileWritesPage | sync.py:216-227 | a successful step on a published row leaves front-matter, "\n\n" and the page rendering at the file name |
| LegacySync.SettleKeepsRegularFiles | sync.py:216-227 | writing a published row's page keeps every regular file |
| LegacySync.UpdateFileAsWrittenKeepsOldFile | sync.py:211-229 | as written a regular file at the old name survives, whether the row moved or is unpublished |
| LegacySync.StaleFileLingers | sync.py:228-229 | the unpublished undated row "a" keeps "out/None.md" |
| LegacySync.UpdateFileIntendedCleansUp | sync.py:211-229 | with the intended deletion a successful step leaves a file at the file name iff the row is published, and none at a name it gave up |
| LegacySync.DisposeAsWrittenKeepsFile | sync.py:231-233 | as written removal unsubscribes but keeps a regular file, and an unstarted unit raises AttributeError |
| LegacySync.DisposeIntendedRemovesFile | sync.py:231-233 | the intended removal unsubscribes and leaves nothing at the name, touching nothing outside it |
| LegacySync.UpdateFileReflects | sync.py:211-229 | a successful `update_file` leaves the unit's file reflecting its row: the rendered page when published, and under the intended deletion no regular file otherwise |
| LegacySync.ReflectsFrame | sync.py:211-233 | a change outside the trees of other paths keeps a file reflecting its row |
| LegacySync.RecreatedPostLosesPage | sync.py:276-287 | when a published new unit is started at the file name of a removed unit, the intended removal that follows leaves no file there |
| LegacySync.RowSync.constructor | sync.py:201-205 | a new unit holds the row at its sync file name, unsubscribed and without a callback |
| LegacySync.RowSync.UpdateFile | sync.py:211-229 | the new file name and file system are `UpdateFileSpec` of the old ones, and the subscription is untouched |
| LegacySync.RowSync.Start | sync.py:207-209 | subscribes, then does what `update_file` does |
| LegacySync.RowSync.RemoveAndStop | sync.py:231-233 | the subscription and file system are `DisposeSpec` of the old ones; the file name is kept |
| LegacySync.AdditionsThenRemovals | sync.py:276-287 | additions followed by removals are in the older order |
| LegacySync.LegacyTrace | sync.py:276-287 | the two loops' steps are in order, and record every added id once the first loop completes and every removed id once the second runs |
| LegacySync.SharedSlugCollides | sync.py:235-237 | two new rows with the same slug (including two undated rows) do not have separate files |
| LegacySync.RecreatedPostCollides | sync.py:276-287 | a new row whose file name is a removed unit's file name breaks the separation premise |
| LegacySync.SeparateApart | sync.py:235-237 | rows with separate file names give units that start apart from each other and from the removed files |
| LegacySync.InsertStep | sync.py:277-283 | a start that touches only its own file and reflects its row extends the prefix of started units reflecting their rows |
| LegacySync.StartStep | sync.py:277-283 | one start ends at the unit's file name, touches nothing outside its tree, and extends the reflecting prefix on success |
| LegacySync.ReflectsAll | sync.py:276-283 | when every visited unit reflects its row, every new unit does |
| LegacySync.AllReflectFrame | sync.py:285-287 | removals that touch only the removed files keep the new units' files reflecting their rows when the two are apart |
| LegacySync.UnitsReflect | sync.py:276-283 | units that hold the rows at the starting names carry the reflection over to the tracked map |
| LegacySync.ReflectsIntended | sync.py:211-233 | under the intended deletion, a unit whose file reflects its row has a regular file exactly when the row is published |
| LegacySync.RemovalStep | sync.py:285-287 | one more removal extends what the loop has left: nothing at the removed names under the intended deletion, and as written every regular file below none of the loop's names |
| LegacySync.CollectionFileSync.constructor | sync.py:247-254 | a new collection tracks no rows |
| LegacySync.CollectionFileSync.InsertOne | sync.py:277-283 | one step of the first loop: the unit is tracked under its id and started at its file name at once; on success its file joins the earlier ones in reflecting its row |
| LegacySync.CollectionFileSync.InsertAndStart | sync.py:276-283 | the first loop inserts each added id and starts it, stopping after the first start that raises; every id reached, that one included, is tracked by a subscribed unit at its file name, and old entries are kept; on success, when the new units are apart, every one reflects its row |
| LegacySync.CollectionFileSync.InsertAdded | sync.py:276-283 | on success every added id is tracked by a started unit at its file name, whose file reflects its row when the new units are apart; old entries are kept and unchanged |
| LegacySync.CollectionFileSync.RemoveOne | sync.py:286-287 | one removal: the unit is stopped and deleted, the file system becomes the deletion of its file name under the unit's rule, and every other unit is unchanged |
| LegacySync.CollectionFileSync.RemoveUnits | sync.py:285-287 | the second loop stops and deletes every removed unit and leaves the others unchanged; under the intended deletion nothing is left at a removed unit's name, and as written every regular file below none of their names is kept, their own regular files included |
| LegacySync.CollectionFileSync.Reconcile | sync.py:271-287 | the two loops together: key set equal to the snapshot's ids on success, nothing removed after an exception, each new unit's file reflecting its row when the new files are apart from each other and from the removed ones; the intended deletion leaves nothing at a removed name on success, and as written every regular file outside the new units' trees and below no removed name is kept |
| LegacySync.CollectionFileSync.Apply | sync.py:264-287 | the body of `sync_rows`: the same facts, with the file facts stated through `NewFilesReflect` |
| LegacySync.CollectionFileSync.SyncRows | sync.py:264-287 | on success the key set is the snapshot's ids; units in both are unchanged; each new unit is started at its file name before any removal; when the new rows' file names are apart from each other and from the removed units', each new unit's file reflects its row, so that under the intended deletion it has a file exactly when the row is published; removed ones are stopped; under the intended deletion nothing is left at a removed unit's name, and as written every regular file outside the new units' trees and below no removed name is kept; only a start raises, and then nothing was removed; nothing else on disk changes |

## Left out

- Configuration loading and client setup (notion_sync/__main__.py:25-33, sync.py:17-25): file I/O and the Notion client.
- `async_main`, `main`, `parse_args` and the poll loop (notion_sync/__main__.py:334-391, sync.py:290-309): command-line and concurrency code.
- `CollectionFileSync.start_watching` and `stop_watching` (notion_sync/__main__.py:293-299), and `start` and `stop` (sync.py:256-262): collection callback registration. A unit's callback is modelled only as two flags: `callback_id` assigned, and subscribed. So the callback that `stop_watching` re-adds is not modelled.
- The log lines are not modelled. The one exception is the log line of the newer removal loop, whose read of an unbound `row` raises.
- `notion_to_markdown`, `os.path.basename` and `str(block)` are foreign calls. Their results are opaque strings carried by the `Block` datatype. `column_ratio` is an opaque string.
- `date.today()` is a parameter.
- The file system is a map from path to entry:
  - parent directories are assumed to exist;
  - permission errors and real file contents beyond a string are not modelled;
  - `os.remove` on a directory raises IsADirectoryError, as on Linux.
- Block dispatch: each `Block` constructor stands for exactly one notion-py class. The newer renderer tests `isinstance` (notion_sync/__main__.py:119, 137-214) and the older one `type(block) is` (sync.py:90, 105-182), so a subclass of a tested class takes different branches in the two engines. For example, a CollectionViewPageBlock, a subclass of CollectionViewBlock, renders as `None` in the newer engine and as its `str` in the older one. Subclass dispatch is not modelled, and such a block is outside the model.
- Rows are values:
  - the model keeps a unit's row as its own copy;
  - the remote write of `set_property` at notion_sync/__main__.py:65 is modelled only as the unit's new row;
  - the sharing of one row object between the snapshot and the unit is not modelled, and neither are remote changes between calls.
- The order in which Python iterates a frozenset is left open. It is any order, the same for both loops over the added ids.
- Sync.CollectionFileSync.SyncRows: after an exception it states which ids can still be tracked and that the units it did not reach are unchanged, not how far each loop got. The page written for each new unit is stated only when no two new rows can be given the same file name, since otherwise the later update overwrites or removes the earlier one's file (Sync.SharedSlugCollides). A removed unit's name is stated free of regular files only when no new unit may claim it, since a new unit updated later may write its page there (Sync.RecreatedPostKeepsPage).
- LegacySync.CollectionFileSync.SyncRows: does not state that the units of new ids are freshly allocated. After an exception it states only which ids can be tracked and that nothing was removed. The page written for each new unit is stated only when the new rows' file names are apart from each other and from the removed units' file names: two undated rows share "None.md" (LegacySync.SharedSlugCollides), and under the intended deletion a post deleted and recreated with the same slug loses its file to the removal loop, which runs after the additions (LegacySync.RecreatedPostLosesPage), whereas the newer engine disposes first and keeps it (Sync.RecreatedPostKeepsPage).

## Findings

| source | as written | input that shows it | evidently intended | confidence | as-written member | corrected member |
|---|---|---|---|---|---|---|
| notion_sync/__main__.py:18-22 | `rm_file` calls `os.remove` only when the path is a directory, which fails, and leaves a regular file alone | an unpublished post with an old file "out/0000-00-00-a.md" | remove the regular file and leave a missing path alone | high, not executed | Sync.StaleFileLingers | Sync.UpdateFileIntendedCleansUp |
| notion_sync/__main__.py:269-271 | `stop_watching_and_remove` calls `os.remove` on the unit's file even when no file was written, and reads `callback_id`, which an unstarted unit lacks | a started unit of a never-published row whose file is missing | tolerate a missing file; the corrected disposal also tolerates an unstarted unit (no AttributeError) | medium, not executed | Sync.DisposeAsWrittenRaises | Sync.DisposeIntendedRemovesFile |
| sync.py:213-233 | every deletion is `rmtree(path, ignore_errors=True)`, which swallows its failure on a regular file and leaves it | the unpublished undated row "a" with "out/None.md" present | remove the row's regular file | high, not executed | LegacySync.StaleFileLingers | LegacySync.UpdateFileIntendedCleansUp |
| sync.py:231-233 | `remove_and_stop` uses the same `rmtree`, so a removed row's file stays | a started unit whose file "out/None.md" is a regular file | remove the file | high, not executed | LegacySync.DisposeAsWrittenKeepsFile | LegacySync.DisposeIntendedRemovesFile |
| notion_sync/__main__.py:317-321 | the removal log line reads `row`, which only the addition loop assigns | a snapshot that drops a tracked row and adds none | log without the unbound local and remove the unit | high, not executed | Sync.CollectionFileSync.SyncRows | Sync.CollectionFileSync.SyncRows |
