/**
 * Post-order size aggregation where directories may refuse to be listed:
 * on a first scan (no row yet at or inside the scanned path) of a tree in
 * which no `lstat` and no file read is refused, every visit returns, a
 * directory that cannot be listed keeps its NULL `tree_size_bytes`, and
 * every other object ends with the bytes of its subtree counting such a
 * directory as 0.
 */
module ScannerSizes {
  import opened Opt
  import opened Paths
  import opened FsTree
  import opened Catalog
  import opened Scanner
  import opened ScannerIdentity

  /** No row lies at or inside the path `p`. */
  ghost predicate NoneWithin(rows: seq<Entry>, p: string) {
    forall j :: 0 <= j < |rows| ==> !Within(rows[j].path, p)
  }

  /** No row lies at or inside the path of any child of `n` from child `i` on. */
  ghost predicate NoneInRest(rows: seq<Entry>, dir: string, n: Node, i: nat) {
    forall k :: i <= k < |n.children| ==> NoneWithin(rows, Join(dir, n.children[k].name))
  }

  /**
   * A first visit of a new object: it returns; a directory that cannot be
   * listed is left with a NULL size and is never added, any other object gets
   * the visible bytes of its subtree and is staged as the newest row; and only
   * rows at or inside its path change.
   */
  lemma {:induction false} FirstVisitSizes(env: Env, st: Store, e: Entry, n: Node, processed: nat)
    requires IsAbsolute(env.cwd) && WellFormed(n) && DistinctNames(n) && NoRefusal(n)
    requires !e.directory && e.treeSize == None
    requires NoneWithin(st.rows, Abs(env.cwd, e.path))
    ensures var r := Visit(env, st, e, None, n, processed);
            && r.out.Returned?
            && SizeOr0(r.entry.treeSize) == KnownBytes(n)
            && (r.entry.treeSize.None? <==> n.stat.kind == Directory && !n.listable)
            && (r.entry.treeSize.Some? ==> |r.store.rows| > |st.rows| && r.store.rows[|r.store.rows| - 1] == r.entry)
            && (r.entry.treeSize.None? ==> r.store.rows == st.rows)
            && ChangedWithin(st.rows, r.store.rows, Abs(env.cwd, e.path))
    decreases n, 2
  {
    var rf := FsRefresh(env, e, n);
    var e1 := rf.entry;
    var p := e1.path;
    assert Assigned(st, None, e1) == st;
    VisitFrame(env, st, e, None, n, processed);
    if n.stat.kind == Directory && n.listable {
      assert Visit(env, st, e, None, n, processed) == VisitDirectory(env, st, e1, None, n, processed);
      assert NoneInRest(st.rows, p, n, 0) by {
        forall k, j | 0 <= k < |n.children| && 0 <= j < |st.rows|
          ensures !Within(st.rows[j].path, Join(p, n.children[k].name))
        {
          var name := n.children[k].name;
          JoinIsBelow(p, name);
          if Below(st.rows[j].path, Join(p, name)) {
            BelowJoin(st.rows[j].path, p, name);
          }
        }
      }
      FirstChildrenSizes(env, st, p, n, 0, 0, processed);
    }
  }

  lemma {:induction false} FirstChildSizes(env: Env, st: Store, dir: string, child: Node, processed: nat)
    requires IsAbsolute(env.cwd) && IsAbsolute(dir) && ValidName(child.name)
    requires WellFormed(child) && DistinctNames(child) && NoRefusal(child)
    requires NoneWithin(st.rows, Join(dir, child.name))
    ensures var r := VisitChild(env, st, dir, child, processed);
            && r.out.Returned?
            && SizeOr0(r.entry.treeSize) == KnownBytes(child)
            && (r.entry.treeSize.None? <==> child.stat.kind == Directory && !child.listable)
            && ChangedWithin(st.rows, r.store.rows, Join(dir, child.name))
    decreases child, 3
  {
    var path := Join(dir, child.name);
    assert Lookup(st.rows, path, child.dirInode) == NoMatch by {
      forall j | 0 <= j < |st.rows|
        ensures !HasKey(st.rows[j], path, child.dirInode)
      {
        assert !Within(st.rows[j].path, path);
      }
    }
    FirstVisitSizes(env, st, NewEntry(path), child, processed);
  }

  /** The child loop on a first scan completes with the visible bytes of the remaining children added. */
  lemma {:induction false} FirstChildrenSizes(env: Env, st: Store, dir: string, n: Node, i: nat, bytes: nat, processed: nat)
    requires i <= |n.children| && IsAbsolute(env.cwd) && IsAbsolute(dir)
    requires WellFormed(n) && DistinctNames(n) && NoRefusal(n)
    requires NoneInRest(st.rows, dir, n, i)
    ensures var r := VisitChildren(env, st, dir, n, i, bytes, processed);
            r.end == Completed && r.bytes == bytes + KnownChildBytes(n, i)
    decreases n, 0, |n.children| - i
  {
    if i < |n.children| {
      var child := n.children[i];
      var path := Join(dir, child.name);
      assert NoneWithin(st.rows, path);
      var v := VisitChild(env, st, dir, child, processed);
      FirstChildSizes(env, st, dir, child, processed);
      RestAfterChild(st.rows, v.store.rows, dir, n, i);
      ChildrenStep(env, st, dir, n, i, bytes, processed, v);
      FirstChildrenSizes(env, v.store, dir, n, i + 1, bytes + SizeOr0(v.entry.treeSize), v.out.count);
      assert KnownChildBytes(n, i) == KnownBytes(child) + KnownChildBytes(n, i + 1);
    }
  }

  /** What one child changes inside its own path leaves the paths of its later siblings empty. */
  lemma {:induction false} RestAfterChild(before: seq<Entry>, after: seq<Entry>, dir: string, n: Node, i: nat)
    requires i < |n.children| && IsAbsolute(dir) && WellFormed(n) && DistinctNames(n)
    requires NoneInRest(before, dir, n, i) && ChangedWithin(before, after, Join(dir, n.children[i].name))
    ensures NoneInRest(after, dir, n, i + 1)
  {
    forall k, j | i + 1 <= k < |n.children| && 0 <= j < |after|
      ensures !Within(after[j].path, Join(dir, n.children[k].name))
    {
      assert NoneWithin(before, Join(dir, n.children[k].name));
      if j >= |before| || after[j] != before[j] {
        SiblingsApart(after[j].path, dir, n.children[i].name, n.children[k].name);
      }
    }
  }
}
