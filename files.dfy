/** The part of the file system the engine touches: a map from path to entry,
    the deletion operations it uses (`rm_file`, `os.remove`,
    `shutil.rmtree(..., ignore_errors=True)`) together with the deletions their
    callers intend, and `open(path, "w")`. */
module Files {
  import opened Python

  /** What is at a path: a regular file and its text, or a directory. */
  datatype Entry = File(content: string) | Directory

  type FileSystem = map<string, Entry>

  /** A regular file is at `p`. */
  predicate HasFile(fs: FileSystem, p: string)
  {
    p in fs && fs[p].File?
  }

  /** `fs2` agrees with `fs1` on every path outside `paths`. */
  ghost predicate SameExcept(fs1: FileSystem, fs2: FileSystem, paths: set<string>)
  {
    forall q :: q !in paths ==> (q in fs1 <==> q in fs2) && (q in fs1 ==> fs1[q] == fs2[q])
  }

  /** `q` is `p` or lies below the directory `p`. */
  predicate Within(q: string, p: string)
  {
    q == p || p + "/" <= q
  }

  /** `fs2` agrees with `fs1` on every path outside the trees rooted at `roots`. */
  ghost predicate SameOutside(fs1: FileSystem, fs2: FileSystem, roots: set<string>)
  {
    forall q :: (forall p :: p in roots ==> !Within(q, p)) ==>
      (q in fs1 <==> q in fs2) && (q in fs1 ==> fs1[q] == fs2[q])
  }

  /** Every regular file of `fs1` that lies outside the trees rooted at
      `touched` and below none of the paths `erased` is in `fs2`, unchanged. */
  ghost predicate FilesKept(fs1: FileSystem, fs2: FileSystem, touched: set<string>, erased: set<string>)
  {
    forall q :: HasFile(fs1, q) && (forall p :: p in touched ==> !Within(q, p))
                && (forall p :: p in erased ==> !(p + "/" <= q)) ==>
      q in fs2 && fs2[q] == fs1[q]
  }

  /** Which behaviour the model follows where the source is evidently
      wrong: as written, or as its callers intend. Under `Intended` the
      deletions remove the regular file; the newer engine's disposal also
      tolerates a missing file and a unit whose `callback_id` was never
      assigned (no AttributeError); and the newer engine's removal log
      line, which reads `row`, assigned only by the loop over the added
      rows, no longer raises UnboundLocalError. */
  datatype DeleteRule = AsWritten | Intended

  /** `rm_file` (notion_sync/__main__.py) as written: nothing for a missing
      path, nothing for a regular file, and for a directory `os.remove`,
      which fails on a directory. */
  function RmFile(fs: FileSystem, p: string): (r: Result<FileSystem>)
    ensures r.Raise? <==> p in fs && fs[p].Directory?
    ensures r.Raise? ==> r.error == IsADirectoryError
  {
    if p !in fs then Ok(fs)
    else if fs[p].Directory? then Raise(IsADirectoryError)
    else Ok(fs)
  }

  /** The file removal `rm_file` is called for: remove a regular file, leave a
      missing path or a directory alone. */
  function RmFileIntended(fs: FileSystem, p: string): (r: FileSystem)
    ensures !HasFile(r, p)
    ensures SameExcept(fs, r, {p})
    ensures p in fs && fs[p].Directory? ==> r == fs
  {
    if HasFile(fs, p) then fs - {p} else fs
  }

  /** `os.remove(p)`: a missing path is FileNotFoundError, a directory
      IsADirectoryError, and a regular file is removed. */
  function Remove(fs: FileSystem, p: string): (r: Result<FileSystem>)
    ensures r.Raise? <==> !HasFile(fs, p)
    ensures r.Raise? ==> r.error == (if p in fs then IsADirectoryError else FileNotFoundError)
    ensures r.Ok? ==> p !in r.value && SameExcept(fs, r.value, {p})
  {
    if p !in fs then Raise(FileNotFoundError)
    else if fs[p].Directory? then Raise(IsADirectoryError)
    else Ok(fs - {p})
  }

  /** `rmtree(p, ignore_errors=True)` as written: a directory is removed with
      everything below it; on a regular file or a missing path rmtree fails
      and the failure is swallowed, so nothing changes. */
  function RmTree(fs: FileSystem, p: string): (r: FileSystem)
    ensures p in fs && fs[p].Directory? ==> forall q :: q in r <==> q in fs && !Within(q, p)
    ensures !(p in fs && fs[p].Directory?) ==> r == fs
    ensures forall q :: q in r ==> q in fs && r[q] == fs[q]
  {
    if p in fs && fs[p].Directory? then map q | q in fs && !Within(q, p) :: fs[q] else fs
  }

  /** The deletion `rmtree` is used for: remove whatever is at `p`, and below
      it when it is a directory. */
  function RmTreeIntended(fs: FileSystem, p: string): (r: FileSystem)
    ensures p !in r
    ensures !HasFile(r, p)
    ensures SameOutside(fs, r, {p})
    ensures forall q :: q in r ==> q in fs && r[q] == fs[q]
  {
    if HasFile(fs, p) then fs - {p} else RmTree(fs, p)
  }

  /** `open(p, "w")`: a directory is IsADirectoryError; otherwise the file is
      created or truncated. Parent directories are assumed to exist. */
  function OpenForWrite(fs: FileSystem, p: string): (r: Result<FileSystem>)
    ensures r.Raise? <==> p in fs && fs[p].Directory?
    ensures r.Ok? ==> r.value == fs[p := File("")]
  {
    if p in fs && fs[p].Directory? then Raise(IsADirectoryError) else Ok(fs[p := File("")])
  }

  // ----- the deletion rules -----

  /** As written `rm_file` never deletes anything: it leaves the file system
      as it is or raises. */
  lemma RmFileNeverDeletes(fs: FileSystem, p: string)
    ensures RmFile(fs, p).Ok? ==> RmFile(fs, p).value == fs
    ensures HasFile(fs, p) ==> RmFile(fs, p) == Ok(fs)
  {
  }

  /** As written `rmtree(..., ignore_errors=True)` leaves a regular file in
      place. */
  lemma RmTreeKeepsRegularFile(fs: FileSystem, p: string)
    requires HasFile(fs, p)
    ensures RmTree(fs, p) == fs && HasFile(RmTree(fs, p), p)
  {
  }

  /** The two deletion rules agree except on a regular file. */
  lemma RmTreeRulesAgree(fs: FileSystem, p: string)
    requires !HasFile(fs, p)
    ensures RmTreeIntended(fs, p) == RmTree(fs, p)
  {
  }

  /** `rmtree` with ignored errors removes a regular file only below a
      directory it removes, so every regular file not below `p` is kept. */
  lemma RmTreeKeepsFiles(fs: FileSystem, p: string)
    ensures FilesKept(fs, RmTree(fs, p), {}, {p})
  {
  }

  /** Agreement outside some trees keeps the regular files outside them. */
  lemma SameOutsideKeepsFiles(a: FileSystem, b: FileSystem, s: set<string>)
    requires SameOutside(a, b, s)
    ensures FilesKept(a, b, s, {})
  {
  }

  /** Kept files compose. */
  lemma FilesKeptTrans(a: FileSystem, b: FileSystem, c: FileSystem,
                       t1: set<string>, e1: set<string>, t2: set<string>, e2: set<string>,
                       t: set<string>, e: set<string>)
    requires FilesKept(a, b, t1, e1) && FilesKept(b, c, t2, e2)
    requires t1 <= t && t2 <= t && e1 <= e && e2 <= e
    ensures FilesKept(a, c, t, e)
  {
  }

  /** Every path `RmTree` removes lies within `p`; in particular a directory
      elsewhere in the file system survives. */
  lemma RmTreeFrame(fs: FileSystem, p: string)
    ensures SameOutside(fs, RmTree(fs, p), {p})
  {
  }

  /** Agreement outside a set of paths composes. */
  lemma SameExceptTrans(a: FileSystem, b: FileSystem, c: FileSystem, s: set<string>, t: set<string>, u: set<string>)
    requires SameExcept(a, b, s) && SameExcept(b, c, t)
    requires s <= u && t <= u
    ensures SameExcept(a, c, u)
  {
  }

  /** Agreement outside a set of paths is agreement outside the trees rooted
      at them. */
  lemma SameExceptOutside(a: FileSystem, b: FileSystem, s: set<string>)
    requires SameExcept(a, b, s)
    ensures SameOutside(a, b, s)
  {
    forall q | forall p :: p in s ==> !Within(q, p)
      ensures (q in a <==> q in b) && (q in a ==> a[q] == b[q])
    {
      assert q !in s by {
        if q in s { assert Within(q, q); }
      }
    }
  }

  /** Agreement outside a set of trees composes. */
  lemma SameOutsideTrans(a: FileSystem, b: FileSystem, c: FileSystem, s: set<string>, t: set<string>, u: set<string>)
    requires SameOutside(a, b, s) && SameOutside(b, c, t)
    requires s <= u && t <= u
    ensures SameOutside(a, c, u)
  {
  }

  /** The local file system the engine writes to, changed in place. */
  class Disk {
    var files: FileSystem

    constructor(files: FileSystem)
      ensures this.files == files
    {
      this.files := files;
    }
  }
}
