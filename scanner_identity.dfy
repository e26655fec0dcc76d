/**
 * Identity of catalog rows across a rescan. A row is identified by
 * `(path, inode)` (the child lookup's filter); a visit only touches rows at
 * or below the path it refreshes, and so, scanning a well-formed tree whose
 * listings report the `lstat` inodes, over a catalog whose identities are
 * unique, it keeps them unique and the lookup's ASSERT never fires. Where a
 * listing reports another inode (a mount point), a rescan duplicates the
 * row instead.
 */
module ScannerIdentity {
  import opened Opt
  import opened Paths
  import opened FsTree
  import opened Catalog
  import opened Scanner
  import ScannerProps

  // ---------------------------------------------------------------- frames

  /** `x` is the path `p` itself or lies inside it. */
  predicate Within(x: string, p: string) {
    x == p || Below(x, p)
  }

  /** From `before` to `after`, rows were only rewritten or appended at paths at or inside `p`. */
  ghost predicate ChangedWithin(before: seq<Entry>, after: seq<Entry>, p: string) {
    && |before| <= |after|
    && (forall j :: 0 <= j < |before| ==> after[j] == before[j] || Within(after[j].path, p))
    && (forall j :: |before| <= j < |after| ==> Within(after[j].path, p))
  }

  /** From `before` to `after`, rows were only rewritten or appended at paths strictly inside `p`. */
  ghost predicate ChangedBelow(before: seq<Entry>, after: seq<Entry>, p: string) {
    && |before| <= |after|
    && (forall j :: 0 <= j < |before| ==> after[j] == before[j] || Below(after[j].path, p))
    && (forall j :: |before| <= j < |after| ==> Below(after[j].path, p))
  }

  lemma {:induction false} WithinTrans(a: seq<Entry>, b: seq<Entry>, c: seq<Entry>, p: string)
    requires ChangedWithin(a, b, p) && ChangedWithin(b, c, p)
    ensures ChangedWithin(a, c, p)
  {
    forall j | 0 <= j < |a|
      ensures c[j] == a[j] || Within(c[j].path, p)
    {
      if c[j] != b[j] {
        assert Within(c[j].path, p);
      }
    }
  }

  lemma {:induction false} BelowTrans(a: seq<Entry>, b: seq<Entry>, c: seq<Entry>, p: string)
    requires ChangedBelow(a, b, p) && ChangedBelow(b, c, p)
    ensures ChangedBelow(a, c, p)
  {
    forall j | 0 <= j < |a|
      ensures c[j] == a[j] || Below(c[j].path, p)
    {
      if c[j] != b[j] {
        assert Below(c[j].path, p);
      }
    }
  }

  /** What a child of `d` changes at or inside its own path lies strictly inside `d`. */
  lemma {:induction false} ChildWithinIsBelow(a: seq<Entry>, b: seq<Entry>, d: string, name: string)
    requires d != "" && ValidName(name)
    requires ChangedWithin(a, b, Join(d, name))
    ensures ChangedBelow(a, b, d)
  {
    JoinIsBelow(d, name);
    forall j | 0 <= j < |b| && Below(b[j].path, Join(d, name))
      ensures Below(b[j].path, d)
    {
      BelowJoin(b[j].path, d, name);
    }
  }

  /** Writing an object whose path is `p` (in place, or by `session.add`) changes only rows at `p`. */
  lemma {:induction false} AddedWithin(st: Store, id: Option<nat>, e: Entry)
    requires ValidId(st.rows, id)
    ensures ChangedWithin(st.rows, Assigned(st, id, e).rows, e.path)
    ensures ChangedWithin(st.rows, Added(st, id, e).rows, e.path)
  {
  }

  /**
   * A visit of the object `e` rewrites or appends rows only at or inside the
   * absolute path `fs_refresh` gives it.
   */
  lemma {:induction false} VisitFrame(env: Env, st: Store, e: Entry, id: Option<nat>, n: Node, processed: nat)
    requires ValidId(st.rows, id) && IsAbsolute(env.cwd) && WellFormed(n)
    ensures ChangedWithin(st.rows, Visit(env, st, e, id, n, processed).store.rows, Abs(env.cwd, e.path))
    decreases n, 2
  {
    var rf := FsRefresh(env, e, n);
    var e1 := rf.entry;
    var st1 := Assigned(st, id, e1);
    AddedWithin(st, id, e1);
    if !rf.raised && !e1.directory {
      AddedWithin(st1, id, e1);
      WithinTrans(st.rows, st1.rows, Stage(st1, id, e1, processed).rows, e1.path);
    } else if !rf.raised && n.stat.kind == Directory && n.listable {
      var r := Visit(env, st, e, id, n, processed);
      assert r == VisitDirectory(env, st1, e1, id, n, processed);
      var sw := VisitChildren(env, st1, e1.path, n, 0, 0, processed);
      ChildrenFrame(env, st1, e1.path, n, 0, 0, processed);
      assert ChangedWithin(st1.rows, sw.store.rows, e1.path);
      WithinTrans(st.rows, st1.rows, sw.store.rows, e1.path);
      if sw.end == Completed {
        var e2 := e1.(treeSize := Some(sw.bytes));
        AddedWithin(sw.store, id, e2);
        WithinTrans(st.rows, sw.store.rows, r.store.rows, e1.path);
      }
    }
  }

  lemma {:induction false} ChildFrame(env: Env, st: Store, dir: string, child: Node, processed: nat)
    requires IsAbsolute(env.cwd) && IsAbsolute(dir) && ValidName(child.name) && WellFormed(child)
    ensures ChangedBelow(st.rows, VisitChild(env, st, dir, child, processed).store.rows, dir)
    decreases child, 3
  {
    var path := Join(dir, child.name);
    var found := Lookup(st.rows, path, child.dirInode);
    var r := VisitChild(env, st, dir, child, processed);
    if found.Match? {
      VisitFrame(env, st, st.rows[found.index], Some(found.index), child, processed);
      ChildWithinIsBelow(st.rows, r.store.rows, dir, child.name);
    } else if found.NoMatch? {
      VisitFrame(env, st, NewEntry(path), None, child, processed);
      ChildWithinIsBelow(st.rows, r.store.rows, dir, child.name);
    }
  }

  /** The child loop of `dir` rewrites or appends rows only strictly inside `dir`. */
  lemma {:induction false} ChildrenFrame(env: Env, st: Store, dir: string, n: Node, i: nat, bytes: nat, processed: nat)
    requires i <= |n.children| && IsAbsolute(env.cwd) && IsAbsolute(dir) && WellFormed(n)
    ensures ChangedBelow(st.rows, VisitChildren(env, st, dir, n, i, bytes, processed).store.rows, dir)
    decreases n, 0, |n.children| - i
  {
    if i < |n.children| {
      var child := n.children[i];
      var v := VisitChild(env, st, dir, child, processed);
      ChildFrame(env, st, dir, child, processed);
      if v.out.Returned? {
        var next := bytes + SizeOr0(v.entry.treeSize);
        ChildrenFrame(env, v.store, dir, n, i + 1, next, v.out.count);
        BelowTrans(st.rows, v.store.rows, VisitChildren(env, v.store, dir, n, i + 1, next, v.out.count).store.rows, dir);
      }
    }
  }

  /** From `before` to `after`, every row whose path is not strictly inside `p` kept its value. */
  ghost predicate KeptBeyond(before: seq<Entry>, after: seq<Entry>, p: string) {
    && |before| <= |after|
    && forall j :: 0 <= j < |before| && !Below(before[j].path, p) ==> after[j] == before[j]
  }

  /**
   * A visit of the object `e` (row `id`, if persistent) leaves every other
   * row unchanged unless that row's path lies strictly inside the path
   * `fs_refresh` gives the object.
   */
  lemma {:induction false} VisitKeeps(env: Env, st: Store, e: Entry, id: Option<nat>, n: Node, processed: nat)
    requires ValidId(st.rows, id) && IsAbsolute(env.cwd) && WellFormed(n)
    ensures var r := Visit(env, st, e, id, n, processed);
            && |st.rows| <= |r.store.rows|
            && forall j :: 0 <= j < |st.rows| && Some(j) != id && !Below(st.rows[j].path, Abs(env.cwd, e.path)) ==>
                 r.store.rows[j] == st.rows[j]
    decreases n, 2
  {
    var rf := FsRefresh(env, e, n);
    var e1 := rf.entry;
    var st1 := Assigned(st, id, e1);
    if !rf.raised && e1.directory {
      assert Visit(env, st, e, id, n, processed) == VisitDirectory(env, st1, e1, id, n, processed);
      DirectoryKeeps(env, st1, e1, id, n, processed);
    }
  }

  lemma {:induction false} DirectoryKeeps(env: Env, st: Store, e: Entry, id: Option<nat>, n: Node, processed: nat)
    requires ValidId(st.rows, id) && IsAbsolute(env.cwd) && IsAbsolute(e.path) && WellFormed(n)
    ensures var r := VisitDirectory(env, st, e, id, n, processed);
            && |st.rows| <= |r.store.rows|
            && forall j :: 0 <= j < |st.rows| && Some(j) != id && !Below(st.rows[j].path, e.path) ==>
                 r.store.rows[j] == st.rows[j]
    decreases n, 1
  {
    if n.stat.kind == Directory && n.listable {
      ChildrenKeep(env, st, e.path, n, 0, 0, processed);
    }
  }

  lemma {:induction false} ChildKeeps(env: Env, st: Store, dir: string, child: Node, processed: nat)
    requires IsAbsolute(env.cwd) && IsAbsolute(dir) && ValidName(child.name) && WellFormed(child)
    ensures KeptBeyond(st.rows, VisitChild(env, st, dir, child, processed).store.rows, dir)
    decreases child, 3
  {
    var path := Join(dir, child.name);
    var found := Lookup(st.rows, path, child.dirInode);
    var r := VisitChild(env, st, dir, child, processed);
    JoinIsBelow(dir, child.name);
    if !found.Conflict? {
      var id := if found.Match? then Some(found.index) else None;
      var e := if found.Match? then st.rows[found.index] else NewEntry(path);
      VisitKeeps(env, st, e, id, child, processed);
      forall j | 0 <= j < |st.rows| && !Below(st.rows[j].path, dir)
        ensures r.store.rows[j] == st.rows[j]
      {
        if Below(st.rows[j].path, path) {
          BelowJoin(st.rows[j].path, dir, child.name);
        }
      }
    }
  }

  /** The child loop of `dir` leaves every row outside `dir` as it was. */
  lemma {:induction false} ChildrenKeep(env: Env, st: Store, dir: string, n: Node, i: nat, bytes: nat, processed: nat)
    requires i <= |n.children| && IsAbsolute(env.cwd) && IsAbsolute(dir) && WellFormed(n)
    ensures KeptBeyond(st.rows, VisitChildren(env, st, dir, n, i, bytes, processed).store.rows, dir)
    decreases n, 0, |n.children| - i
  {
    if i < |n.children| {
      var child := n.children[i];
      var v := VisitChild(env, st, dir, child, processed);
      ChildKeeps(env, st, dir, child, processed);
      if v.out.Returned? {
        var next := bytes + SizeOr0(v.entry.treeSize);
        ChildrenKeep(env, v.store, dir, n, i + 1, next, v.out.count);
        var r := VisitChildren(env, v.store, dir, n, i + 1, next, v.out.count);
        forall j | 0 <= j < |st.rows| && !Below(st.rows[j].path, dir)
          ensures r.store.rows[j] == st.rows[j]
        {
          assert v.store.rows[j] == st.rows[j];
        }
      }
    }
  }

  // ---------------------------------------------------------------- unique identities

  /** No row but the object's own (`id`) answers to the identity of `e`. */
  ghost predicate FreshKey(rows: seq<Entry>, id: Option<nat>, e: Entry) {
    forall j :: 0 <= j < |rows| && Some(j) != id ==> !SameKey(e, rows[j])
  }

  /** Writing an object whose identity no other row holds keeps identities unique. */
  lemma {:induction false} StoreUnique(st: Store, id: Option<nat>, e: Entry)
    requires ValidId(st.rows, id) && UniqueKeys(st.rows) && FreshKey(st.rows, id, e)
    ensures UniqueKeys(Assigned(st, id, e).rows)
    ensures UniqueKeys(Added(st, id, e).rows)
  {
    var rows := Added(st, id, e).rows;
    forall i, j | 0 <= i < |rows| && 0 <= j < |rows| && i != j
      ensures !SameKey(rows[i], rows[j])
    {
      if id.None? && i == |st.rows| {
        assert rows[i] == e && rows[j] == st.rows[j];
      } else if id.None? && j == |st.rows| {
        assert rows[j] == e && rows[i] == st.rows[i];
      }
    }
  }

  /** A fresh identity stays fresh while rows change only strictly inside its path. */
  lemma {:induction false} FreshBelow(before: seq<Entry>, after: seq<Entry>, id: Option<nat>, e: Entry)
    requires FreshKey(before, id, e) && ChangedBelow(before, after, e.path)
    ensures FreshKey(after, id, e)
  {
    forall j | 0 <= j < |after| && Some(j) != id
      ensures !SameKey(e, after[j])
    {
      if j >= |before| || after[j] != before[j] {
        BelowIsNot(after[j].path, e.path);
      }
    }
  }

  /**
   * Visiting a well-formed tree whose listed inodes are the `lstat` inodes,
   * from an object whose refreshed identity no other row holds, keeps row
   * identities unique, in the session and in each commit, and the lookup's
   * ASSERT never fails on the way.
   */
  lemma {:induction false} VisitKeepsKeysUnique(env: Env, st: Store, e: Entry, id: Option<nat>, n: Node, processed: nat)
    requires ValidId(st.rows, id) && IsAbsolute(env.cwd) && WellFormed(n) && ListedInodesAgree(n)
    requires UniqueKeys(st.rows) && FreshKey(st.rows, id, FsRefresh(env, e, n).entry)
    ensures var r := Visit(env, st, e, id, n, processed);
            && UniqueKeys(r.store.rows)
            && r.out != Failed(IdentityConflict)
            && (UniqueKeys(st.durable) ==> UniqueKeys(r.store.durable))
    decreases n, 2
  {
    var rf := FsRefresh(env, e, n);
    var e1 := rf.entry;
    var st1 := Assigned(st, id, e1);
    StoreUnique(st, id, e1);
    assert FreshKey(st1.rows, id, e1);
    if !rf.raised && !e1.directory {
      StoreUnique(st1, id, e1);
    } else if !rf.raised {
      assert Visit(env, st, e, id, n, processed) == VisitDirectory(env, st1, e1, id, n, processed);
      DirectoryKeepsKeysUnique(env, st1, e1, id, n, processed);
    }
  }

  lemma {:induction false} DirectoryKeepsKeysUnique(env: Env, st: Store, e: Entry, id: Option<nat>, n: Node, processed: nat)
    requires ValidId(st.rows, id) && IsAbsolute(env.cwd) && IsAbsolute(e.path) && WellFormed(n) && ListedInodesAgree(n)
    requires UniqueKeys(st.rows) && FreshKey(st.rows, id, e)
    ensures var r := VisitDirectory(env, st, e, id, n, processed);
            && UniqueKeys(r.store.rows)
            && r.out != Failed(IdentityConflict)
            && (UniqueKeys(st.durable) ==> UniqueKeys(r.store.durable))
    decreases n, 1
  {
    if n.stat.kind == Directory && n.listable {
      var sw := VisitChildren(env, st, e.path, n, 0, 0, processed);
      ChildrenKeepKeysUnique(env, st, e.path, n, 0, 0, processed);
      if sw.end == Completed {
        var e2 := e.(treeSize := Some(sw.bytes));
        ChildrenFrame(env, st, e.path, n, 0, 0, processed);
        FreshBelow(st.rows, sw.store.rows, id, e);
        assert FreshKey(sw.store.rows, id, e2);
        StoreUnique(sw.store, id, e2);
      }
    }
  }

  lemma {:induction false} ChildKeepsKeysUnique(env: Env, st: Store, dir: string, child: Node, processed: nat)
    requires IsAbsolute(env.cwd) && IsAbsolute(dir) && ValidName(child.name) && WellFormed(child)
    requires child.dirInode == child.stat.inode && ListedInodesAgree(child)
    requires UniqueKeys(st.rows)
    ensures var r := VisitChild(env, st, dir, child, processed);
            && UniqueKeys(r.store.rows)
            && r.out != Failed(IdentityConflict)
            && (UniqueKeys(st.durable) ==> UniqueKeys(r.store.durable))
    decreases child, 3
  {
    var path := Join(dir, child.name);
    var ino := child.dirInode;
    var found := Lookup(st.rows, path, ino);
    UniqueNeverConflicts(st.rows, path, ino);
    if found.Match? {
      var flo := st.rows[found.index];
      var e1 := FsRefresh(env, flo, child).entry;
      assert e1.path == path && e1.inode == Some(ino);
      assert FreshKey(st.rows, Some(found.index), e1) by {
        forall j | 0 <= j < |st.rows| && Some(j) != Some(found.index)
          ensures !SameKey(e1, st.rows[j])
        {
          assert !HasKey(st.rows[j], path, ino);
        }
      }
      VisitKeepsKeysUnique(env, st, flo, Some(found.index), child, processed);
    } else {
      var e1 := FsRefresh(env, NewEntry(path), child).entry;
      assert e1.path == path && (e1.inode == Some(ino) || e1.inode == None);
      assert FreshKey(st.rows, None, e1) by {
        forall j | 0 <= j < |st.rows|
          ensures !SameKey(e1, st.rows[j])
        {
          assert !HasKey(st.rows[j], path, ino);
        }
      }
      VisitKeepsKeysUnique(env, st, NewEntry(path), None, child, processed);
    }
  }

  lemma {:induction false} ChildrenKeepKeysUnique(env: Env, st: Store, dir: string, n: Node, i: nat, bytes: nat, processed: nat)
    requires i <= |n.children| && IsAbsolute(env.cwd) && IsAbsolute(dir) && WellFormed(n) && ListedInodesAgree(n)
    requires UniqueKeys(st.rows)
    ensures var r := VisitChildren(env, st, dir, n, i, bytes, processed);
            && UniqueKeys(r.store.rows)
            && r.end != Aborted(IdentityConflict)
            && (UniqueKeys(st.durable) ==> UniqueKeys(r.store.durable))
    decreases n, 0, |n.children| - i
  {
    if i < |n.children| {
      var child := n.children[i];
      var v := VisitChild(env, st, dir, child, processed);
      ChildKeepsKeysUnique(env, st, dir, child, processed);
      if v.out.Returned? {
        ChildrenKeepKeysUnique(env, v.store, dir, n, i + 1, bytes + SizeOr0(v.entry.treeSize), v.out.count);
      }
    }
  }

  /**
   * A whole scan over a catalog with unique identities, of a tree whose
   * listed inodes are the `lstat` inodes, started from an object whose
   * refreshed identity no other row holds: it never fails on the ASSERT,
   * identities stay unique in the session, and they stay unique in the
   * committed table, whether the scan returns (and commits what the session
   * saw) or stops part way (leaving the last batch commit).
   */
  lemma {:induction false} ScanKeepsKeysUnique(env: Env, st: Store, root: Entry, rootId: Option<nat>, n: Node)
    requires ValidId(st.rows, rootId) && IsAbsolute(env.cwd) && WellFormed(n) && ListedInodesAgree(n)
    requires UniqueKeys(st.rows) && FreshKey(st.rows, rootId, FsRefresh(env, root, n).entry)
    ensures var r := Scan(env, st, root, rootId, n);
            && UniqueKeys(r.store.rows)
            && r.out != Failed(IdentityConflict)
            && (r.out.Returned? ==> UniqueKeys(r.store.durable))
            && (UniqueKeys(st.durable) ==> UniqueKeys(r.store.durable))
  {
    VisitKeepsKeysUnique(env, st, root, rootId, n, 0);
  }

  // ---------------------------------------------------------------- mount points

  /**
   * A mount point below the scan root is listed under the inode of the
   * directory mounted over, while `fs_refresh` stores the inode of the
   * mounted root. Its row from an earlier scan is then never found: a
   * rescan that returns from it leaves that row as it was and appends a
   * second row with the same `(path, inode)`, and the next rescan again
   * finds no row, so such rows grow by one per rescan.
   */
  lemma {:induction false} MountPointDuplicates(env: Env, st: Store, dir: string, child: Node, processed: nat, j: nat)
    requires IsAbsolute(env.cwd) && IsAbsolute(dir) && ValidName(child.name) && WellFormed(child)
    requires child.statOk && child.stat.kind == Directory && child.listable && Complete(child)
    requires child.dirInode != child.stat.inode
    requires j < |st.rows| && HasKey(st.rows[j], Join(dir, child.name), child.stat.inode)
    requires Lookup(st.rows, Join(dir, child.name), child.dirInode) == NoMatch
    ensures var r := VisitChild(env, st, dir, child, processed);
            r.out.Returned? ==>
              && r.store.rows[j] == st.rows[j]
              && SameKey(r.store.rows[|r.store.rows| - 1], st.rows[j])
              && |r.store.rows| - 1 != j
              && !UniqueKeys(r.store.rows)
              && Lookup(r.store.rows, Join(dir, child.name), child.dirInode) == NoMatch
  {
    var path := Join(dir, child.name);
    JoinIsBelow(dir, child.name);
    var e1 := FsRefresh(env, NewEntry(path), child).entry;
    assert e1.path == path && e1.directory && e1.inode == Some(child.stat.inode);
    var r := VisitChild(env, st, dir, child, processed);
    assert r == Visit(env, st, NewEntry(path), None, child, processed);
    assert !FsRefresh(env, NewEntry(path), child).raised && Assigned(st, None, e1) == st;
    assert r == VisitDirectory(env, st, e1, None, child, processed);
    var sw := VisitChildren(env, st, path, child, 0, 0, processed);
    ScannerProps.CompleteChildrenSizes(env, st, path, child, 0, 0, processed);
    if r.out.Returned? {
      assert sw.end == Completed;
      var e2 := e1.(treeSize := Some(sw.bytes));
      assert r.store.rows == sw.store.rows + [e2];
      ChildrenKeep(env, st, path, child, 0, 0, processed);
      assert !Below(st.rows[j].path, path);
      assert sw.store.rows[j] == st.rows[j];
      assert !UniqueKeys(r.store.rows) by {
        assert SameKey(r.store.rows[j], r.store.rows[|r.store.rows| - 1]);
      }
      ChildrenFrame(env, st, path, child, 0, 0, processed);
      forall k | 0 <= k < |r.store.rows|
        ensures !HasKey(r.store.rows[k], path, child.dirInode)
      {
        if k < |sw.store.rows| && (k >= |st.rows| || sw.store.rows[k] != st.rows[k]) {
          BelowIsNot(sw.store.rows[k].path, path);
        }
      }
    }
  }
}
