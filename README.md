# fs_buddy core, modelled in Dafny

fs_buddy catalogues a filesystem into a SQLite table `filelikes`, one row per
file-like object. It then finds duplicated files and folders through the
rows' content fingerprints. This project models the logic of
`src/models/file.py` in four parts, and proves what each part promises.

- **Incremental depth-first scanner** (modules `Paths`, `FsTree`, `Catalog`,
  `Scanner`, `ScannerProps`, `ScannerIdentity`).
  - The filesystem is a tree of `FsTree.Node`s. Each node holds what
    `os.lstat` and `os.scandir` report, and says where `PermissionError`
    would be raised: at `lstat`, at reading a regular file, or at listing a
    directory. A node carries two inodes: the one its directory's listing
    reports (`entry.inode()`, which the child lookup filters on) and the one
    `lstat` reports (which `fs_refresh` stores).
  - The catalog is a sequence of rows behind a `Catalog.Session` object with
    three fields. `rows` is what queries see (autoflush makes staged
    objects visible). `durable` is the table as of the last commit. `log`
    lists the commits made.
  - `fs_refresh` is the pure function `Scanner.FsRefresh`.
  - `depth_first_recurse` and its child loop are the recursive methods
    `Scanner.DepthFirstRecurse`, `Scanner.ScanChildren` and
    `Scanner.ScanChild`. The function `Scanner.Visit` and its companions
    specify them, and each method is proved to compute exactly what `Visit`
    says.
  - `scan_recursively` is `Scanner.ScanRecursively`, specified by
    `Scanner.Scan`.
  - The lemmas in `ScannerProps` and `ScannerIdentity` cover:
    - the counter each call returns;
    - post-order size aggregation;
    - recovery from `PermissionError`;
    - the every-100 commit schedule and the final commit;
    - the fact that a scan never creates a second row with the same
      `(path, inode)` where every listing reports the `lstat` inode, and
      that at a mount point each rescan does create one.
- **Duplicate view** (module `DuplicateView`): the `view_duplicates` SQL
  view as the pure function `View` over the catalog's rows.
- **Duplicate-folder inference** (module `DuplicateFolders`):
  `scan_for_duplicate_folders` has three loops. They are the methods
  `CountPairs` (the `folders` dict of dicts), `CollectTuples` (the `tuples`
  set) and `SortByCount` (the final sort). Each is proved against the
  function `FoldersOf`, `Triples` or `ByCount`, and those functions have
  their own lemmas.
- **EXIF tag names** (module `ImageMeta`).
  - `PropName` models the regex substitution on line 163 followed by
    `.lower()`: it puts `_` before every capital except the first character,
    then lowercases.
  - The lemmas prove four things about it:
    - it agrees with every column of `image_meta` on each whitelisted tag;
    - it round-trips through `CamelCase` for every tag in EXIF's spelling;
    - it is injective on such tags;
    - only whitelisted tags reach an attribute.
  - `ImageMetadata.PopulateFromFile` is the attribute-setting loop of
    `populate_from_file`.

External inputs are parameters:

- The working directory, one clock reading, the MIME detector and the
  content hash are fields of `Scanner.Env`. The last two are functions of
  the bytes read.
- The tree is the filesystem's answer to `lstat` and `scandir`.
- `PopulateFromFile` receives the EXIF items PIL would return, already
  named.

Strings compare by code point (`TextOrder`). This is how Python compares
`str` values and how SQLite's default BINARY collation compares text.

## Model

| member | source | states |
|---|---|---|
| Paths.Join | src/models/file.py:126-133 | The path of a scanned entry (`entry.path`): an absolute name is kept; otherwise the directory with one `/` and the name; absolute when the directory is. |
| Paths.Abs | src/models/file.py:58-60 | `os.path.abspath`, defined as keeping an absolute path and joining a relative one to the working directory: the result is absolute when the working directory is. |
| Paths.AbsIdempotent | src/models/file.py:58-60 | Making a path absolute twice gives what doing it once does, so `fs_refresh` on an already refreshed object keeps its path. |
| Paths.Parent | src/models/file.py:255-256 | `Path(p).parent`: "." for a path without `/`, never longer than the path. |
| Paths.ParentOfJoin | src/models/file.py:255-256 | The parent of a child path built from directory `d` is `d` again. |
| Paths.JoinIsBelow | src/models/file.py:126-133 | A child path lies strictly inside its directory. |
| Paths.BelowJoin | src/models/file.py:126-133 | A path inside a child lies inside the child's directory. |
| Paths.ChildPrefixed | src/models/file.py:126-133 | A path at or inside a child starts with the child's path, followed by its end or a slash. |
| Paths.NamesMeet | src/models/file.py:126-133 | Two slash-free names both so placed in one path are equal. |
| Paths.SiblingsApart | src/models/file.py:126-133 | No path lies at or inside two differently named children of one directory. |
| Paths.BelowIsNot | src/models/file.py:126-133 | A path strictly inside a directory is not the directory. |
| TextOrder.LtTotal | src/models/file.py:278-279 | The string order that `min`/`max` and `ORDER BY` use is total. |
| TextOrder.LtTransitive | src/models/file.py:278-279 | That order is transitive. |
| TextOrder.LtIrreflexive | src/models/file.py:278-279 | That order is irreflexive. |
| TextOrder.LtAsymmetric | src/models/file.py:278-279 | That order is asymmetric. |
| TextOrder.LeTotal | src/models/file.py:278-279 | Any two strings are comparable. |
| TextOrder.LeTransitive | src/models/file.py:278-279 | The non-strict order is transitive. |
| TextOrder.LeAntisymmetric | src/models/file.py:278-279 | The non-strict order is antisymmetric. |
| TextOrder.Min | src/models/file.py:278 | `min(key, innerkey)` is one of its arguments and at most both. |
| TextOrder.Max | src/models/file.py:279 | `max(key, innerkey)` is one of its arguments and at least both. |
| TextOrder.MinMaxUnordered | src/models/file.py:278-280 | `(min, max)` determines the unordered pair of keys. |
| TextOrder.MinLeMax | src/models/file.py:278-280 | The smaller key never exceeds the larger. |
| FsTree.TypeChar | src/models/file.py:69 | The first column of `stat.filemode`: one letter per file kind (`l`, `s`, `-`, `b`, `d`, `c`, `p`). |
| FsTree.Flag | src/models/file.py:69 | A read or write column of `stat.filemode`: its letter when the bit is set, `-` otherwise. |
| FsTree.ExecFlag | src/models/file.py:69 | An execute column of `stat.filemode`: the set-id or sticky letter in lower case with execute, in upper case without it, `x` for plain execute, `-` otherwise. |
| FsTree.FileMode | src/models/file.py:69 | `stat.filemode`: ten characters; the first is `d` exactly for a directory and `-` exactly for a regular file; the owner-read column follows its bit. |
| FsTree.CompleteVisitsAll | src/models/file.py:119-159 | In a tree without permission errors, the expected visit count of a subtree is the number of its objects. |
| FsTree.CompleteKnownBytes | src/models/file.py:143-146 | Where every directory can be listed, the visible bytes of a subtree are all its bytes. |
| FsTree.CompleteKnownChildBytes | src/models/file.py:143-146 | The same over the remaining children of a directory. |
| FsTree.CompleteChildrenVisitAll | src/models/file.py:125-146 | The same for the children of a directory from child `i` on: one (the directory) plus their sizes. |
| Catalog.FirstMatch | src/models/file.py:133 | The first row from `from` on that answers to `(path, inode)`, with no matching row before it; -1 when there is none. |
| Catalog.Lookup | src/models/file.py:133-139 | The `limit(2)` query plus the ASSERT: no row, exactly one matching row (its index), or a conflict exactly when two rows match. |
| Catalog.UniqueNeverConflicts | src/models/file.py:134 | With unique `(path, inode)` identities the ASSERT never fails. |
| Catalog.NewEntry | src/models/file.py:139 | `FileLikeObject(path=entry.path)`: a transient object with the path set, every other column NULL and `directory` False. |
| Catalog.HasKey | src/models/file.py:133 | The query's filter `path == entry.path` and `inode == entry.inode()`: a row answers to an identity exactly when both agree, and a NULL inode answers to none. |
| Catalog.Assigned | src/models/file.py:58-92 | Changing attributes of an object: a loaded object's row takes the new value, a transient object leaves the session as it is. |
| Catalog.Added | src/models/file.py:150 | `session.add`: a loaded object's row takes the new value, a transient object is appended as the last row. |
| Catalog.Committed | src/models/file.py:158 | `session.commit()`: the session's rows become the durable table and the commit is appended to the log. |
| Catalog.Session.constructor | src/models/file.py:289-317 | A session over a committed table: it sees the table, and no commit has been made yet. |
| Catalog.Session.Assign | src/models/file.py:58-92 | Assigning attributes of a loaded object replaces its row; a transient object changes nothing in the session; nothing is committed. |
| Catalog.Session.Add | src/models/file.py:150 | `session.add`: a loaded object's row takes the new value, a transient object becomes a new last row; nothing is committed. |
| Catalog.Session.Commit | src/models/file.py:158 | `session.commit()`: what the session sees becomes durable, and the commit is logged. |
| Scanner.FsRefresh | src/models/file.py:53-96 | `fs_refresh`: the path is made absolute. `lstat` failure raises with nothing else changed. `directory` is set when the object is a directory and never cleared. The size is copied only for a non-directory, and a directory keeps its old size. Inode and device come from the stat. MIME, fingerprint and the type `imohash_default_hex` are set only for a readable regular file, and otherwise keep their old values. The call raises exactly when `lstat` fails or a regular file cannot be read. |
| Scanner.Stage | src/models/file.py:150-158 | The end of a visit: `session.add`, then a batch commit exactly when the counter is a positive multiple of 100. |
| Scanner.Visit | src/models/file.py:119-159 | A visit never drops a row of the session. |
| Scanner.VisitDirectory | src/models/file.py:122-149 | The directory part of a visit never drops a row. |
| Scanner.VisitChildren | src/models/file.py:125-146 | The child loop never drops a row. |
| Scanner.VisitChild | src/models/file.py:128-141 | One child's lookup and visit never drop a row. |
| Scanner.Scan | src/models/file.py:100-116 | After a scan whose top-level call returns, everything is durable and the last commit is the final one; when the top-level call raises, the session is as that call left it, with no final commit. |
| Scanner.DepthFirstRecurse | src/models/file.py:119-159 | `depth_first_recurse` leaves the session in the state `Visit` describes, returns the object's new value and ends as `Visit` says (a returned counter, `PermissionError`, or a fatal error). |
| Scanner.ScanChild | src/models/file.py:133-141 | The visit of one child is what `VisitChild` says: the lookup by its path and the inode the listing reports, the reused row or a fresh object, then the recursion, or the ASSERT failing before any object is made. |
| Scanner.ChildPass | src/models/file.py:128-144 | One pass of the loop over child `i` either continues with the child's size added (NULL as 0) and the counter it returned, so that the rest of the loop yields what the whole one does; or it ends the loop as `VisitChildren` says, unchanged bytes and counter, on a `PermissionError` or a fatal error. |
| Scanner.ChildrenStep | src/models/file.py:128-146 | One pass of the `scandir` loop: after a child that returned, the rest of the loop from the next child, with the child's size added and its counter, yields what the loop from this child does; after a child's `PermissionError` the loop ends escaped, after a fatal error aborted, with the bytes and counter unchanged. |
| Scanner.ScanChildren | src/models/file.py:124-146 | The `scandir` loop returns the aggregated bytes, the counter and how it ended, and leaves the session as `VisitChildren` says. |
| Scanner.ScanRecursively | src/models/file.py:100-116 | `scan_recursively` leaves the session as `Scan` says and reports how the top-level call ended. |
| ScannerProps.VisitCounts | src/models/file.py:119-159 | A call that does not fail fatally raises `PermissionError` exactly when the tree says it will. A call that returns gives its incoming counter plus the number of objects it visited, counted from the tree and including itself. |
| ScannerProps.VisitChildCounts | src/models/file.py:128-141 | The same for one child of the loop. |
| ScannerProps.VisitChildrenCounts | src/models/file.py:124-149 | Unless aborted, the child loop's counter is the incoming counter plus the objects it visited. |
| ScannerProps.CompleteVisitSizes | src/models/file.py:124-150 | Without permission errors, a call that does not fail returns the counter plus the subtree's object count, and the object's `tree_size_bytes` is the subtree's byte total (post-order aggregation). That value is what is staged: a loaded object's own row holds it, and a new object is the session's last row. |
| ScannerProps.CompleteChildSizes | src/models/file.py:128-144 | For one child of the loop, without permission errors and unless it fails: the counter it returns and its `tree_size_bytes`, as for a visit. It does not restate which row is staged; that is `CompleteVisitSizes`, applied to the reused row or the fresh object. |
| ScannerProps.CompleteChildrenSizes | src/models/file.py:124-146 | Without permission errors, the loop completes with the bytes and counts of all remaining children added. |
| ScannerProps.ChildrenEscape | src/models/file.py:125-149 | If some remaining child raises, the loop does not complete. |
| ScannerProps.EscapeKeepsSize | src/models/file.py:125-149 | When a child's `PermissionError` escapes the loop, the directory keeps its old `tree_size_bytes`, is not staged again, and returns the loop's counter plus one, which equals the tree's expected count. |
| ScannerProps.ScheduleConcat | src/models/file.py:151-158 | Two commit schedules, the second after the first, join into one. |
| ScannerProps.ScheduleChain | src/models/file.py:151-158 | Three nested log extensions chain their schedules. |
| ScannerProps.StageCommits | src/models/file.py:150-158 | Staging commits exactly when the counter is a positive multiple of 100; then everything is durable. |
| ScannerProps.VisitCommits | src/models/file.py:119-159 | A visit only appends commits. They come at strictly increasing positive multiples of 100, at or above the incoming counter and, when the call returns, below the returned counter. |
| ScannerProps.DirectoryCommits | src/models/file.py:122-159 | The same for the directory part of a visit. |
| ScannerProps.ChildCommits | src/models/file.py:128-141 | The same for one child; a child that raises adds no commit. |
| ScannerProps.ChildrenCommits | src/models/file.py:124-146 | The same for the child loop, whose counter never decreases. |
| ScannerProps.ContinuedCommits | src/models/file.py:128-146 | After a child that returned, its commits and those of the rest of the loop join into one schedule. |
| ScannerProps.VisitDeniedCommitsNothing | src/models/file.py:119-149 | A call that raises `PermissionError` did so in its own `fs_refresh` and made no commit. |
| ScannerProps.Batches | src/models/file.py:150-158 | The batch commits that staging each counter from `lo` up to `hi` makes: one per positive multiple of 100 in that range, in increasing order. |
| ScannerProps.BatchesOrdered | src/models/file.py:150-158 | `Batches` holds only batch commits at positive multiples of 100 in its range, strictly increasing. |
| ScannerProps.BatchesCover | src/models/file.py:150-158 | `Batches` holds every positive multiple of 100 in its range. |
| ScannerProps.BatchesConcat | src/models/file.py:150-158 | The batches of two adjacent counter ranges join into those of the whole range. |
| ScannerProps.BatchesNext | src/models/file.py:150-158 | Staging one more counter adds exactly that counter's batch commit, if any. |
| ScannerProps.LogsChain | src/models/file.py:150-158 | Two logs extended over adjacent counter ranges make one extension over the joined range. |
| ScannerProps.CompleteVisitCommits | src/models/file.py:119-159 | Without permission errors, a call that does not fail appends exactly `Batches` from the incoming counter up to the incoming counter plus the subtree's object count: one commit for each positive multiple of 100 among the counters the subtree's objects are staged with, in increasing order, and nothing else. |
| ScannerProps.CompleteDirectoryCommits | src/models/file.py:122-159 | The same for the directory part of a visit. |
| ScannerProps.CompleteChildCommits | src/models/file.py:128-141 | The same for one child of the loop. |
| ScannerProps.CompleteChildrenCommits | src/models/file.py:124-146 | Unless aborted, the child loop without permission errors appends exactly the batches of the counters its remaining children use. |
| ScannerProps.RestCommits | src/models/file.py:128-146 | After a child that returned, the rest of the loop completes the batches counted from before that child. |
| ScannerProps.ScanCommits | src/models/file.py:100-116 | A scan that returns ends with exactly one final commit. Before it come only batch commits at increasing multiples of 100 below the returned count, and everything is then durable. |
| ScannerProps.CompleteScanCommits | src/models/file.py:100-159 | A scan of a tree without permission errors that does not fail fatally returns the tree's object count. It appends exactly one commit per positive multiple of 100 below that count, in increasing order, then the final commit, and leaves everything durable. |
| ScannerIdentity.WithinTrans | src/models/file.py:119-159 | Changes confined to a subtree compose. |
| ScannerIdentity.BelowTrans | src/models/file.py:124-146 | Changes strictly inside a directory compose. |
| ScannerIdentity.ChildWithinIsBelow | src/models/file.py:126-141 | Changes within a child's path are strictly inside its directory. |
| ScannerIdentity.AddedWithin | src/models/file.py:133-150 | Assigning or adding an object changes only rows at that object's path. |
| ScannerIdentity.VisitFrame | src/models/file.py:119-159 | A visit changes or appends only rows at or inside the object's absolute path. |
| ScannerIdentity.ChildFrame | src/models/file.py:128-141 | A child's visit changes only rows strictly inside the directory. |
| ScannerIdentity.ChildrenFrame | src/models/file.py:124-146 | The child loop changes only rows strictly inside the directory. |
| ScannerIdentity.StoreUnique | src/models/file.py:133-150 | Writing an object whose identity no other row has keeps identities unique. |
| ScannerIdentity.FreshBelow | src/models/file.py:124-146 | Changes strictly inside an object's path cannot give another row its identity. |
| ScannerIdentity.VisitKeepsKeysUnique | src/models/file.py:119-159 | A visit keeps `(path, inode)` identities unique and cannot fail the lookup ASSERT. |
| ScannerIdentity.DirectoryKeepsKeysUnique | src/models/file.py:122-159 | The same for the directory part of a visit. |
| ScannerIdentity.ChildKeepsKeysUnique | src/models/file.py:133-141 | Reusing the one matching row or creating a fresh object keeps identities unique. |
| ScannerIdentity.ChildrenKeepKeysUnique | src/models/file.py:124-146 | The child loop keeps identities unique and never aborts on the ASSERT. |
| ScannerIdentity.ScanKeepsKeysUnique | src/models/file.py:100-159 | When every listing below the root reports the `lstat` inode, a rescan never fails the ASSERT and never gives two rows the same `(path, inode)` in the session. The committed table keeps unique identities too: after a scan that returns, because it is what the session saw; after one that stops part way, because every batch commit did, given a committed table with unique identities to begin with. |
| ScannerIdentity.VisitKeeps | src/models/file.py:119-159 | A visit leaves every row other than the object's own unchanged unless its path lies strictly inside the object's path. |
| ScannerIdentity.DirectoryKeeps | src/models/file.py:122-159 | The same for the directory part of a visit. |
| ScannerIdentity.ChildKeeps | src/models/file.py:128-141 | A child's visit leaves every row outside the directory unchanged. |
| ScannerIdentity.ChildrenKeep | src/models/file.py:124-146 | The child loop leaves every row outside the directory unchanged. |
| ScannerIdentity.MountPointDuplicates | src/models/file.py:71-133 | At a mount point, where the listing's inode differs from the `lstat` inode stored in the row of an earlier scan, the lookup finds no row. A rescan that returns then keeps the old row, appends a second row with the same `(path, inode)`, and leaves the lookup still finding no row, so the next rescan appends another. |
| ScannerSizes.FirstVisitSizes | src/models/file.py:119-150 | On a first scan of a tree in which no `lstat` and no file read is refused, a visit of a new object returns. A directory that cannot be listed keeps a NULL `tree_size_bytes` and is never added to the session. Any other object gets the visible bytes of its subtree (`KnownBytes`), in which such a directory counts as 0, and is staged as the session's last row. Only rows at or inside its path change. |
| ScannerSizes.FirstChildSizes | src/models/file.py:128-144 | For one child on a first scan, whose lookup finds no row: it returns, its size is the visible bytes of its subtree, NULL exactly for an unlistable directory, and only rows at or inside its path change. It does not restate which row is staged; that is `FirstVisitSizes`, applied to the fresh object. |
| ScannerSizes.FirstChildrenSizes | src/models/file.py:124-146 | On a first scan the child loop completes, adding the visible bytes of every remaining child, a NULL size as 0. |
| ScannerSizes.RestAfterChild | src/models/file.py:126-141 | What one child's visit writes inside its own path leaves no row at or inside the paths of its later siblings. |
| DuplicateView.Occurrences | src/models/file.py:231 | The `COUNT(*)` of a fingerprint's group is at most the number of rows. |
| DuplicateView.RowOf | src/models/file.py:231 | A view row projects its table row: same id, path and fingerprint. |
| DuplicateView.Qualifies | src/models/file.py:231 | `ON a.fingerprint = b.fingerprint` with `HAVING COUNT(*) > 1`: a row joins exactly when its fingerprint is non-NULL and its group has more than one row. |
| DuplicateView.Joined | src/models/file.py:231 | The JOIN before `ORDER BY`: the projections of the qualifying rows among the first `k`, in table order. |
| DuplicateView.InsertDesc | src/models/file.py:231 | Inserting a row adds exactly that row. |
| DuplicateView.SortDesc | src/models/file.py:231 | `ORDER BY` permutes the joined rows. |
| DuplicateView.InsertDescBelow | src/models/file.py:231 | Inserting into rows all at most a bound keeps them at most that bound. |
| DuplicateView.InsertDescSorted | src/models/file.py:231 | Insertion keeps the descending fingerprint order. |
| DuplicateView.SortDescSorted | src/models/file.py:231 | `ORDER BY a.fingerprint DESC` yields non-increasing fingerprints. |
| DuplicateView.GroupsContiguous | src/models/file.py:231 | In the sorted view, rows with one fingerprint are contiguous, which the folder scan relies on. |
| DuplicateView.SharedIffOne | src/models/file.py:231 | A fingerprint's count is positive exactly when some row has it. |
| DuplicateView.CountFromPair | src/models/file.py:231 | Two rows with one fingerprint make its count exceed one. |
| DuplicateView.PairFromCount | src/models/file.py:231 | A count above one yields two distinct rows with that fingerprint. |
| DuplicateView.SharedIffTwo | src/models/file.py:231 | `HAVING COUNT(*) > 1` holds exactly when two distinct rows share the fingerprint. |
| DuplicateView.JoinedMembers | src/models/file.py:231 | The join yields exactly the projections of the qualifying rows. |
| DuplicateView.QualifiesIffShared | src/models/file.py:231 | A row is joined exactly when its fingerprint is non-NULL and another row has it. |
| DuplicateView.ViewContents | src/models/file.py:231 | The view is sorted by descending fingerprint, is a permutation of the join, and holds exactly the projections of the rows whose non-NULL fingerprint is shared. |
| DuplicateView.JoinedDistinct | src/models/file.py:231 | Each table row appears at most once in the view. |
| DuplicateView.NullNeverListed | src/models/file.py:231 | A row with a NULL fingerprint (every directory) never appears. |
| DuplicateView.ExampleOccurrences | src/models/file.py:231 | In the example table, `a` has a group of two rows and `b` a group of one. |
| DuplicateView.ExampleJoined | src/models/file.py:231 | In the example table, the join keeps exactly the two rows sharing `a`. |
| DuplicateView.View | src/models/file.py:231 | `view_duplicates`: the join of the rows whose fingerprint has a group of more than one, projected to the view's columns and ordered by descending fingerprint. |
| DuplicateView.SortPair | src/models/file.py:231 | Two rows already in descending fingerprint order stay as they are. |
| DuplicateView.ViewExample | src/models/file.py:231 | A four-row table: the two rows sharing `a` are listed, in table order; `b` and NULL are not. |
| DuplicateFolders.Bump | src/models/file.py:257-262 | `map_a_b(a, b)` adds one to `folders[a][b]`, leaves every other count and inner dict alone, and creates the missing keys. |
| DuplicateFolders.Edge | src/models/file.py:254-264 | `bidirectional_duplicates(value, last_value)`: one `map_a_b` from the current row's directory to the previous row's, then one back. |
| DuplicateFolders.FoldersOf | src/models/file.py:266-272 | `folders` after the loop over `dupes`: an edge for each row whose fingerprint equals its predecessor's. |
| DuplicateFolders.Triples | src/models/file.py:274-281 | `tuples`: for every entry `folders[key][innerkey]`, the triple of the smaller key, the larger key and the count. |
| DuplicateFolders.FoldersCount | src/models/file.py:254-272 | `folders[a][b]` counts the consecutive equal-fingerprint pairs between directories `a` and `b`, in either order. |
| DuplicateFolders.FoldersPositive | src/models/file.py:257-262 | Every count present in `folders` is positive. |
| DuplicateFolders.FoldersSymmetric | src/models/file.py:263-264 | `folders[a][b] == folders[b][a]`. |
| DuplicateFolders.SameDirectoryAddsTwo | src/models/file.py:263-264 | A same-directory pair adds 2 to `folders[d][d]`. |
| DuplicateFolders.OnlyEqualNeighboursCount | src/models/file.py:268-272 | A row whose fingerprint differs from its predecessor's adds nothing. |
| DuplicateFolders.TupleOf | src/models/file.py:276-280 | Each tuple has its smaller key first, and its two keys are the entry's keys. |
| DuplicateFolders.TriplesOf | src/models/file.py:274-281 | A triple is in `tuples` exactly when its first key is at most its second, its count is positive, and its count is the number of consecutive pairs between the two directories. |
| DuplicateFolders.OneTriplePerPair | src/models/file.py:274-281 | The set deduplicates: one triple per pair of directories. |
| DuplicateFolders.InsertByCount | src/models/file.py:283 | Inserting a triple adds exactly that triple. |
| DuplicateFolders.InsertByCountMembers | src/models/file.py:283 | After insertion the members are the old ones plus the new triple. |
| DuplicateFolders.InsertByCountSorted | src/models/file.py:283 | Insertion keeps non-increasing counts. |
| DuplicateFolders.InsertByCountDistinct | src/models/file.py:283 | Inserting a new triple keeps the list free of repeats. |
| DuplicateFolders.ScanForDuplicateFolders | src/models/file.py:248-283 | The result holds exactly the triples of the counted pairs, each once, smaller key first, by non-increasing count. |
| DuplicateFolders.CountPairs | src/models/file.py:253-272 | The loop over `dupes` with `last_value` builds `FoldersOf(dupes)`. |
| DuplicateFolders.CollectTuples | src/models/file.py:274-281 | The nested loop builds exactly `Triples(folders)`. |
| DuplicateFolders.SortByCount | src/models/file.py:283 | The sorted list is a repeat-free enumeration of the set by non-increasing count. |
| DuplicateFolders.PairCountOfTwo | src/models/file.py:268-272 | Two rows form one pair exactly when their fingerprints match and the directories agree. |
| DuplicateFolders.TwoFoldersTriple | src/models/file.py:248-283 | Two rows with one fingerprint in directories `p` < `q`, in either order, give the single triple `(p, q, 1)`. |
| DuplicateFolders.OneFolderTriple | src/models/file.py:248-283 | Two rows with one fingerprint in one directory `p` give the single triple `(p, p, 2)`. |
| DuplicateFolders.FoldersExample | src/models/file.py:248-283 | Two equal files in `/x` and `/y` give the single triple `("/x", "/y", 1)`. |
| DuplicateFolders.SameFolderExample | src/models/file.py:248-283 | Two equal files in `/x` give `("/x", "/x", 2)`. |
| ImageMeta.LowerUpper | src/models/file.py:197 | Lowering a capital yields a letter that capitalises back; other characters are unchanged. |
| ImageMeta.LowerAll | src/models/file.py:197 | `.lower()` keeps the length. |
| ImageMeta.LowerAllConcat | src/models/file.py:197 | `.lower()` distributes over concatenation. |
| ImageMeta.MarkedConcat | src/models/file.py:163 | The substitution after position 0 distributes over concatenation. |
| ImageMeta.NoCapitals | src/models/file.py:197 | Text without capitals passes both steps unchanged. |
| ImageMeta.RestoreMarked | src/models/file.py:197 | Capitalising after each `_` undoes marking and lowering of text without `_`. |
| ImageMeta.RoundTrip | src/models/file.py:197 | For a tag in EXIF's spelling (a capital first, no `_`), the column name converts back to the tag. |
| ImageMeta.PropNameInjective | src/models/file.py:197 | Two such tags never share a column. |
| ImageMeta.CapitalMarked | src/models/file.py:163 | A capital after position 0 gets a `_` before it. |
| ImageMeta.CapitalLowered | src/models/file.py:197 | Lowering a marked word lowers only its capital. |
| ImageMeta.FirstWord | src/models/file.py:197 | The first word is lowered without a `_`. |
| ImageMeta.NextWord | src/models/file.py:197 | Every later capitalised word becomes `_` and the word in lower case. |
| ImageMeta.NoUnderscore | src/models/file.py:195-199 | A capitalised lowercase word before text without `_` has no `_`. |
| ImageMeta.OneWord | src/models/file.py:197 | A one-word tag maps to its lower-case form and is in EXIF's spelling. |
| ImageMeta.TwoWords | src/models/file.py:197 | A two-word tag maps to its words joined by `_` in lower case. |
| ImageMeta.ThreeWords | src/models/file.py:197 | The same for three words. |
| ImageMeta.MakeColumn | src/models/file.py:195-198 | "Make" becomes the column "make". |
| ImageMeta.ModelColumn | src/models/file.py:195-198 | "Model" becomes the column "model". |
| ImageMeta.SoftwareColumn | src/models/file.py:195-198 | "Software" becomes the column "software". |
| ImageMeta.OrientationColumn | src/models/file.py:195-198 | "Orientation" becomes the column "orientation". |
| ImageMeta.XResolutionColumn | src/models/file.py:195-198 | "XResolution" becomes the column "x_resolution". |
| ImageMeta.YResolutionColumn | src/models/file.py:195-198 | "YResolution" becomes the column "y_resolution". |
| ImageMeta.ShutterSpeedValueColumn | src/models/file.py:195-198 | "ShutterSpeedValue" becomes the column "shutter_speed_value". |
| ImageMeta.ApertureValueColumn | src/models/file.py:195-198 | "ApertureValue" becomes the column "aperture_value". |
| ImageMeta.BrightnessValueColumn | src/models/file.py:195-198 | "BrightnessValue" becomes the column "brightness_value". |
| ImageMeta.ExposureBiasValueColumn | src/models/file.py:195-198 | "ExposureBiasValue" becomes the column "exposure_bias_value". |
| ImageMeta.DateTimeColumn | src/models/file.py:199-204 | "DateTime" becomes the column "date_time". |
| ImageMeta.DateTimeOriginalColumn | src/models/file.py:199-204 | "DateTimeOriginal" becomes the column "date_time_original". |
| ImageMeta.WhitelistColumns | src/models/file.py:167-204 | Every whitelisted tag is in EXIF's spelling and names a column of `image_meta`. |
| ImageMeta.WhitelistInjective | src/models/file.py:195-204 | Distinct whitelisted tags write distinct attributes. |
| ImageMeta.SourceWhitelist | src/models/file.py:195-204 | The two tag lists are both in EXIF's spelling and map into the columns. |
| ImageMeta.ApplySets | src/models/file.py:195-204 | One listed item sets its tag's attribute to its value (copied or parsed). An unlisted item changes nothing. |
| ImageMeta.ApplyCases | src/models/file.py:195-204 | The same, split into the direct list, the date list and neither. |
| ImageMeta.PopulatedStep | src/models/file.py:192-204 | The loop after item `i` is the loop before it, then item `i`. |
| ImageMeta.PopulatedKeys | src/models/file.py:167-204 | Population only sets attributes that are columns of `image_meta`. |
| ImageMeta.PopulatedLastWins | src/models/file.py:192-204 | A listed tag that no later item repeats ends with its item's value in its column. The value is copied for the direct list and parsed for the date list. |
| ImageMeta.PopulatedUntouched | src/models/file.py:192-204 | An attribute no listed item maps to keeps its value, whether it had one or not. |
| ImageMeta.ImageMetadata.constructor | src/models/file.py:161-185 | A new `ImageMetadata` has no attribute set. |
| ImageMeta.Lower | src/models/file.py:197 | `.lower()` on one character: an ASCII capital becomes its lower-case letter, anything else is kept. |
| ImageMeta.Marked | src/models/file.py:163 | The substitution of `name_conversion_regex` after position 0: a `_` before every capital. |
| ImageMeta.Underscored | src/models/file.py:197 | `name_conversion_regex.sub("_", tag)`: the first character kept, a `_` before every later capital. |
| ImageMeta.PropName | src/models/file.py:197 | The attribute name of a tag: the regex substitution followed by `.lower()`. |
| ImageMeta.Apply | src/models/file.py:192-204 | One `(k, v)` item of the EXIF loop: a directly copied tag sets its attribute to the value, a date tag to the parsed value, any other tag changes nothing. |
| ImageMeta.Populated | src/models/file.py:192-204 | The attributes after the EXIF loop: `Apply` on each item in turn. |
| ImageMeta.ImageMetadata.PopulateFromFile | src/models/file.py:186-204 | Without EXIF data nothing changes. Otherwise the attributes are those `Populated` gives for the source's whitelist, item by item in order. |

## Left out

- SQLAlchemy plumbing: the engine, the ORM, and the import-time database creation (`src/models/file.py:289-317`). The session is modelled only as the three fields of `Catalog.Session`. A row's position in the table stands for its primary key `id`.
- ORM identity and aliasing: a loaded object is a row value written back at each point Python assigns it (`Catalog.Session.Assign`), not a shared object. This only differs when an object under visit is looked up again, which a tree with non-empty, slash-free names rules out.
- The `find | wc -l` subprocess, `expected_total`, `start_time` and the ETA log line (`src/models/file.py:108-113`, `src/models/file.py:152-157`): they are informational and affect no state.
- `datetime.now()`: a single clock reading (`Env.now`) stands for every call during a scan. `datetime.fromtimestamp` is modelled as copying the stat's seconds.
- `magic.from_file` and `imohash.hashfile` are the functions `Env.mimeOf` and `Env.hashOf` of the file's bytes. Their results are not specified further.
- Scanner.FsRefresh: the model never fails on an image file. `fs_refresh` builds and populates an `ImageMetadata` for every `image/*` file (`src/models/file.py:93-96`), and nothing catches what that raises, so in the source each of these ends the whole scan: `Image.open` on a file PIL cannot identify (such as `image/svg+xml`), a `KeyError` from `ExifTags.TAGS` for an unknown tag id (`src/models/file.py:193`), and a `ValueError` from `strptime` on a malformed date (`src/models/file.py:204`). The metadata object itself is not modelled either; nothing in the scanner or the views reads it.
- `os.path.abspath` normalisation of `.`, `..` and repeated slashes is not modelled. Paths are joined and taken apart literally.
- Scanner.VisitDirectory: the model makes every path whose sticky `directory` flag is stale fatal (outcome `NotADirectory`), whatever `scandir` would do with it. For a regular file `scandir` raises `NotADirectoryError`, which ends the scan as modelled. For a dangling symlink it raises `FileNotFoundError`, also fatal. For a symlink to a directory it follows the link and the source walks the target; that walk is not modelled.
- `ASSERT` comes from `python_logging_base`, which is not part of this model. A failed ASSERT is taken to raise, giving the fatal outcome `IdentityConflict`.
- Errors other than `PermissionError`, `NotADirectoryError` and a failed ASSERT, and those named above, (I/O errors, interrupted scans, a file vanishing between `scandir` and `lstat`) are not modelled.
- Logging (`LOG.trace`, `LOG.info`, `LOG.error`) has no effect on state and is left out.
- ImageMeta.ImageMetadata.PopulateFromFile: PIL's `Image.open` and `_getexif`, and the `ExifTags.TAGS` lookup, are left out, because they are library calls. The method receives the items already named.
- ImageMeta.ImageMetadata.PopulateFromFile: `strptime` parsing is left out. A date tag's value is recorded as `Parsed(text)`.
- ImageMeta.ImageMetadata.PopulateFromFile: the `GPSInfo` branch (`src/models/file.py:205-223`) is left out. It formats rationals, and as written it sets `gps_altitude` rather than the column `gps_altitude_m`, and it discards the local `gps_datetime`. The model claims neither column is filled.
- ImageMeta.Lower: `str.lower` is modelled for ASCII capitals only, which is all that EXIF tag names contain.
- ImageMeta.Populated: the whitelist is a parameter. `PopulateFromFile` passes the two lists of the source, and the lemmas about the loop assume only what `SourceWhitelist` proves about them.
- DuplicateView.View: SQL leaves the order among rows with equal fingerprints open. The model keeps table order there, and the client-visible promise is only the descending fingerprint order (`DuplicateView.SortDescSorted`).
- DuplicateFolders.SortByCount: the order among triples with equal counts depends on Python's set iteration order. Only non-increasing counts and the exact set of elements are stated.
- A stale fingerprint: a row keeps the fingerprint an earlier scan gave it when a later scan cannot read the file. The views then use that value, as the SQL does.
- ScannerIdentity.ScanKeepsKeysUnique: the lookup filters on the inode the listing reports (`DirEntry.inode()`, `src/models/file.py:133`), but `fs_refresh` stores the `lstat` inode (`src/models/file.py:71`). These differ at every mount point below the scan root and may differ on overlay filesystems. The uniqueness lemmas therefore require `FsTree.ListedInodesAgree`. Where the two differ, every rescan adds another row with the same `(path, inode)`, as `ScannerIdentity.MountPointDuplicates` proves, and the ASSERT never sees them because the lookup does not find them.
- ScannerProps.ScanCommits: for a tree with permission errors, the commits of a scan are only bounded: batch commits at strictly increasing positive multiples of 100 below the returned count, then the final one. A directory whose child loop a `PermissionError` leaves returns its counter without being staged, so the multiple of 100 it would have committed at, if any, is skipped. The exact list, `Batches` over all counters, is stated for trees without permission errors by `ScannerProps.CompleteScanCommits`; the same split holds between `ScannerProps.VisitCommits` and `ScannerProps.CompleteVisitCommits`.
- ScannerSizes.FirstVisitSizes: sizes where a listing is refused are stated for a first scan only. On a rescan, an unlistable directory keeps whatever size its row had, so its parent adds that old size.
- A root entry that the caller did not look up: `scan_recursively` takes the root as given, persistent or transient. `ScannerIdentity.ScanKeepsKeysUnique` therefore requires that no other row already has the root's identity.
