/**
 * What the scanner promises, proved of `Scanner.Visit`: the counter it
 * threads, the sizes it aggregates, what a `PermissionError` leaves behind,
 * the commit schedule, and that rescanning never gives two rows one identity.
 */
module ScannerProps {
  import opened Opt
  import opened Paths
  import opened FsTree
  import opened Catalog
  import opened Scanner

  // ---------------------------------------------------------------- counter

  /**
   * Unless a fatal error ends the scan, a visit raises `PermissionError`
   * exactly when the tree says its `lstat` or read is refused, and otherwise
   * returns the incoming counter plus the number of objects it visited, itself
   * included.
   */
  lemma {:induction false} VisitCounts(env: Env, st: Store, e: Entry, id: Option<nat>, n: Node, processed: nat)
    requires ValidId(st.rows, id)
    ensures var r := Visit(env, st, e, id, n, processed);
            !r.out.Failed? ==>
              && (r.out.PermissionDenied? <==> Expected(n) == Raises)
              && (r.out.Returned? ==> r.out.count == processed + Expected(n).count)
    decreases n, 2
  {
    var rf := FsRefresh(env, e, n);
    var st1 := Assigned(st, id, rf.entry);
    if !rf.raised && rf.entry.directory && n.stat.kind == Directory && n.listable {
      assert Visit(env, st, e, id, n, processed) == VisitDirectory(env, st1, rf.entry, id, n, processed);
      VisitChildrenCounts(env, st1, rf.entry.path, n, 0, 0, processed);
    }
  }

  lemma {:induction false} VisitChildCounts(env: Env, st: Store, dir: string, child: Node, processed: nat)
    ensures var r := VisitChild(env, st, dir, child, processed);
            !r.out.Failed? ==>
              && (r.out.PermissionDenied? <==> Expected(child) == Raises)
              && (r.out.Returned? ==> r.out.count == processed + Expected(child).count)
    decreases child, 3
  {
    var path := Join(dir, child.name);
    var found := Lookup(st.rows, path, child.dirInode);
    if found.Match? {
      VisitCounts(env, st, st.rows[found.index], Some(found.index), child, processed);
    } else if found.NoMatch? {
      VisitCounts(env, st, NewEntry(path), None, child, processed);
    }
  }

  lemma {:induction false} VisitChildrenCounts(env: Env, st: Store, dir: string, n: Node, i: nat, bytes: nat, processed: nat)
    requires i <= |n.children|
    ensures var r := VisitChildren(env, st, dir, n, i, bytes, processed);
            !r.end.Aborted? ==> r.processed + 1 == processed + ExpectedChildren(n, i)
    decreases n, 0, |n.children| - i
  {
    if i < |n.children| {
      var v := VisitChild(env, st, dir, n.children[i], processed);
      VisitChildCounts(env, st, dir, n.children[i], processed);
      if v.out.Returned? {
        VisitChildrenCounts(env, v.store, dir, n, i + 1, bytes + SizeOr0(v.entry.treeSize), v.out.count);
      }
    }
  }

  // ---------------------------------------------------------------- sizes

  /**
   * Without permission errors, unless a fatal error ends it, a visit counts
   * every object of the subtree and leaves the object's `tree_size_bytes` at
   * the bytes of the whole subtree: a file's own size, a directory's sum
   * over its children (post-order aggregation).
   */
  lemma {:induction false} CompleteVisitSizes(env: Env, st: Store, e: Entry, id: Option<nat>, n: Node, processed: nat)
    requires ValidId(st.rows, id) && Complete(n)
    ensures var r := Visit(env, st, e, id, n, processed);
            !r.out.Failed? ==>
              && r.out == Returned(processed + Size(n))
              && r.entry.treeSize == Some(TreeBytes(n))
              && (id.Some? ==> r.store.rows[id.value] == r.entry)
              && (id.None? ==> |r.store.rows| > |st.rows| && r.store.rows[|r.store.rows| - 1] == r.entry)
    decreases n, 2
  {
    var rf := FsRefresh(env, e, n);
    var st1 := Assigned(st, id, rf.entry);
    if rf.entry.directory && n.stat.kind == Directory {
      assert Visit(env, st, e, id, n, processed) == VisitDirectory(env, st1, rf.entry, id, n, processed);
      CompleteChildrenSizes(env, st1, rf.entry.path, n, 0, 0, processed);
    }
  }

  lemma {:induction false} CompleteChildSizes(env: Env, st: Store, dir: string, child: Node, processed: nat)
    requires Complete(child)
    ensures var r := VisitChild(env, st, dir, child, processed);
            !r.out.Failed? ==> r.out == Returned(processed + Size(child)) && r.entry.treeSize == Some(TreeBytes(child))
    decreases child, 3
  {
    var path := Join(dir, child.name);
    var found := Lookup(st.rows, path, child.dirInode);
    if found.Match? {
      CompleteVisitSizes(env, st, st.rows[found.index], Some(found.index), child, processed);
    } else if found.NoMatch? {
      CompleteVisitSizes(env, st, NewEntry(path), None, child, processed);
    }
  }

  lemma {:induction false} CompleteChildrenSizes(env: Env, st: Store, dir: string, n: Node, i: nat, bytes: nat, processed: nat)
    requires i <= |n.children| && Complete(n)
    ensures var r := VisitChildren(env, st, dir, n, i, bytes, processed);
            !r.end.Aborted? ==>
              && r.end == Completed
              && r.bytes == bytes + ChildBytes(n, i)
              && r.processed == processed + ChildSizes(n, i)
    decreases n, 0, |n.children| - i
  {
    if i < |n.children| {
      var child := n.children[i];
      assert Complete(child);
      var v := VisitChild(env, st, dir, child, processed);
      CompleteChildSizes(env, st, dir, child, processed);
      if v.out.Returned? {
        CompleteChildrenSizes(env, v.store, dir, n, i + 1, bytes + SizeOr0(v.entry.treeSize), v.out.count);
      }
    }
  }

  // ---------------------------------------------------------------- PermissionError escaping the child loop

  /** Some child of `n`, at index `i` or later, raises `PermissionError` to it. */
  predicate ChildRaises(n: Node, i: nat) {
    exists k :: i <= k < |n.children| && Expected(n.children[k]) == Raises
  }

  lemma {:induction false} ChildrenEscape(env: Env, st: Store, dir: string, n: Node, i: nat, bytes: nat, processed: nat)
    requires i <= |n.children| && ChildRaises(n, i)
    ensures var r := VisitChildren(env, st, dir, n, i, bytes, processed);
            r.end != Completed
    decreases |n.children| - i
  {
    var child := n.children[i];
    var v := VisitChild(env, st, dir, child, processed);
    VisitChildCounts(env, st, dir, child, processed);
    if v.out.Returned? {
      assert Expected(child) != Raises;
      assert ChildRaises(n, i + 1) by {
        var k :| i <= k < |n.children| && Expected(n.children[k]) == Raises;
        assert k != i;
      }
      ChildrenEscape(env, v.store, dir, n, i + 1, bytes + SizeOr0(v.entry.treeSize), v.out.count);
    }
  }

  /**
   * When a `PermissionError` escapes a directory's child loop, the directory
   * keeps the `tree_size_bytes` it had, is not staged (the session is left as
   * the loop left it: no add, no commit), and the call still returns the
   * counter plus 1.
   */
  lemma {:induction false} EscapeKeepsSize(env: Env, st: Store, e: Entry, id: Option<nat>, n: Node, processed: nat)
    requires ValidId(st.rows, id)
    requires n.statOk && n.stat.kind == Directory && n.listable && ChildRaises(n, 0)
    ensures var r := Visit(env, st, e, id, n, processed);
            var e1 := FsRefresh(env, e, n).entry;
            var sw := VisitChildren(env, Assigned(st, id, e1), e1.path, n, 0, 0, processed);
            !r.out.Failed? ==>
              && r.entry.treeSize == e.treeSize
              && r.store == sw.store
              && r.out == Returned(sw.processed + 1)
              && r.out == Returned(processed + ExpectedChildren(n, 0))
  {
    var e1 := FsRefresh(env, e, n).entry;
    var st1 := Assigned(st, id, e1);
    assert Visit(env, st, e, id, n, processed) == VisitDirectory(env, st1, e1, id, n, processed);
    ChildrenEscape(env, st1, e1.path, n, 0, 0, processed);
    VisitChildrenCounts(env, st1, e1.path, n, 0, 0, processed);
  }

  // ---------------------------------------------------------------- commit schedule

  /**
   * Commits made mid-scan: each after staging an object while the counter
   * was a positive multiple of 100, at least `lo`, strictly increasing.
   */
  ghost predicate BatchSchedule(log: seq<Commit>, lo: nat) {
    && (forall k :: 0 <= k < |log| ==>
          log[k].Batch? && log[k].processed > 0 && log[k].processed % 100 == 0 && log[k].processed >= lo)
    && (forall k, l :: 0 <= k < l < |log| && log[k].Batch? && log[l].Batch? ==> log[k].processed < log[l].processed)
  }

  ghost predicate AllBefore(log: seq<Commit>, hi: nat) {
    forall k :: 0 <= k < |log| && log[k].Batch? ==> log[k].processed < hi
  }

  lemma {:induction false} ScheduleConcat(a: seq<Commit>, b: seq<Commit>, lo: nat, mid: nat)
    requires BatchSchedule(a, lo) && AllBefore(a, mid) && BatchSchedule(b, mid) && lo <= mid
    ensures BatchSchedule(a + b, lo)
  {
    var ab := a + b;
    forall k, l | 0 <= k < l < |ab| && ab[k].Batch? && ab[l].Batch?
      ensures ab[k].processed < ab[l].processed
    {
      if l < |a| {
        assert ab[k] == a[k] && ab[l] == a[l];
      } else if k < |a| {
        assert ab[k] == a[k] && ab[l] == b[l - |a|];
      } else {
        assert ab[k] == b[k - |a|] && ab[l] == b[l - |a|];
      }
    }
  }

  /**
   * Two stretches of the log, the first from counter `lo` up to `mid`, the
   * second from `mid` on: together they follow the schedule from `lo`.
   */
  lemma {:induction false} ScheduleChain(l0: seq<Commit>, l1: seq<Commit>, l2: seq<Commit>, lo: nat, mid: nat, hi: nat)
    requires l0 <= l1 <= l2 && lo <= mid
    requires BatchSchedule(l1[|l0|..], lo) && AllBefore(l1[|l0|..], mid) && BatchSchedule(l2[|l1|..], mid)
    ensures BatchSchedule(l2[|l0|..], lo)
    ensures AllBefore(l2[|l1|..], hi) && mid <= hi ==> AllBefore(l2[|l0|..], hi)
  {
    assert l2[|l0|..] == l1[|l0|..] + l2[|l1|..];
    ScheduleConcat(l1[|l0|..], l2[|l1|..], lo, mid);
  }

  /** Staging at counter `c` appends a commit exactly when `c` is a positive multiple of 100. */
  lemma {:induction false} StageCommits(st: Store, id: Option<nat>, e: Entry, c: nat)
    requires ValidId(st.rows, id)
    ensures var r := Stage(st, id, e, c);
            && (c > 0 && c % 100 == 0 ==> r.log == st.log + [Batch(c)] && r.durable == r.rows)
            && (!(c > 0 && c % 100 == 0) ==> r.log == st.log && r.durable == st.durable)
  {
  }

  /**
   * The commits one visit makes extend the log, follow the batch schedule
   * from the incoming counter on, and all come before the counter it returns.
   */
  lemma {:induction false} VisitCommits(env: Env, st: Store, e: Entry, id: Option<nat>, n: Node, processed: nat)
    requires ValidId(st.rows, id)
    ensures var r := Visit(env, st, e, id, n, processed);
            && st.log <= r.store.log
            && BatchSchedule(r.store.log[|st.log|..], processed)
            && (r.out.Returned? ==> processed < r.out.count && AllBefore(r.store.log[|st.log|..], r.out.count))
    decreases n, 2
  {
    var rf := FsRefresh(env, e, n);
    var e1 := rf.entry;
    var st1 := Assigned(st, id, e1);
    if rf.raised {
    } else if !e1.directory {
      StageCommits(st1, id, e1, processed);
    } else {
      assert Visit(env, st, e, id, n, processed) == VisitDirectory(env, st1, e1, id, n, processed);
      DirectoryCommits(env, st1, e1, id, n, processed);
    }
  }

  lemma {:induction false} DirectoryCommits(env: Env, st: Store, e: Entry, id: Option<nat>, n: Node, processed: nat)
    requires ValidId(st.rows, id)
    ensures var r := VisitDirectory(env, st, e, id, n, processed);
            && st.log <= r.store.log
            && BatchSchedule(r.store.log[|st.log|..], processed)
            && (r.out.Returned? ==> processed < r.out.count && AllBefore(r.store.log[|st.log|..], r.out.count))
    decreases n, 1
  {
    if n.stat.kind == Directory && n.listable {
      var r := VisitDirectory(env, st, e, id, n, processed);
      var sw := VisitChildren(env, st, e.path, n, 0, 0, processed);
      ChildrenCommits(env, st, e.path, n, 0, 0, processed);
      if sw.end == Completed {
        StageCommits(sw.store, id, e.(treeSize := Some(sw.bytes)), sw.processed);
        ScheduleChain(st.log, sw.store.log, r.store.log, processed, sw.processed, sw.processed + 1);
      }
    } else {
      assert st.log[|st.log|..] == [];
    }
  }

  lemma {:induction false} ChildCommits(env: Env, st: Store, dir: string, child: Node, processed: nat)
    ensures var r := VisitChild(env, st, dir, child, processed);
            && st.log <= r.store.log
            && BatchSchedule(r.store.log[|st.log|..], processed)
            && (r.out.Returned? ==> processed < r.out.count && AllBefore(r.store.log[|st.log|..], r.out.count))
            && (r.out.PermissionDenied? ==> r.store.log == st.log)
    decreases child, 3
  {
    var path := Join(dir, child.name);
    var found := Lookup(st.rows, path, child.dirInode);
    if found.Match? {
      VisitCommits(env, st, st.rows[found.index], Some(found.index), child, processed);
      VisitDeniedCommitsNothing(env, st, st.rows[found.index], Some(found.index), child, processed);
    } else if found.NoMatch? {
      VisitCommits(env, st, NewEntry(path), None, child, processed);
      VisitDeniedCommitsNothing(env, st, NewEntry(path), None, child, processed);
    } else {
      assert st.log[|st.log|..] == [];
    }
  }

  lemma {:induction false} ChildrenCommits(env: Env, st: Store, dir: string, n: Node, i: nat, bytes: nat, processed: nat)
    requires i <= |n.children|
    ensures var r := VisitChildren(env, st, dir, n, i, bytes, processed);
            && st.log <= r.store.log
            && BatchSchedule(r.store.log[|st.log|..], processed)
            && processed <= r.processed
            && (!r.end.Aborted? ==> AllBefore(r.store.log[|st.log|..], r.processed))
    decreases n, 0, |n.children| - i, 1
  {
    if i == |n.children| {
      assert st.log[|st.log|..] == [];
    } else {
      var v := VisitChild(env, st, dir, n.children[i], processed);
      ChildCommits(env, st, dir, n.children[i], processed);
      ChildrenStep(env, st, dir, n, i, bytes, processed, v);
      if v.out.Returned? {
        ContinuedCommits(env, st, dir, n, i, bytes, processed, v);
      } else {
        assert st.log[|st.log|..] == [];
      }
    }
  }

  /** The child loop's commits when child `i` returned: its own, then those of the rest of the loop. */
  lemma {:induction false} ContinuedCommits(env: Env, st: Store, dir: string, n: Node, i: nat, bytes: nat, processed: nat, v: Visited)
    requires i < |n.children| && v == VisitChild(env, st, dir, n.children[i], processed) && v.out.Returned?
    requires st.log <= v.store.log && BatchSchedule(v.store.log[|st.log|..], processed)
    requires processed < v.out.count && AllBefore(v.store.log[|st.log|..], v.out.count)
    ensures var r := VisitChildren(env, v.store, dir, n, i + 1, bytes + SizeOr0(v.entry.treeSize), v.out.count);
            && st.log <= r.store.log
            && BatchSchedule(r.store.log[|st.log|..], processed)
            && processed <= r.processed
            && (!r.end.Aborted? ==> AllBefore(r.store.log[|st.log|..], r.processed))
    decreases n, 0, |n.children| - i, 0
  {
    var c := v.out.count;
    var r := VisitChildren(env, v.store, dir, n, i + 1, bytes + SizeOr0(v.entry.treeSize), c);
    ChildrenCommits(env, v.store, dir, n, i + 1, bytes + SizeOr0(v.entry.treeSize), c);
    ScheduleChain(st.log, v.store.log, r.store.log, processed, c, r.processed);
  }

  /**
   * The batch commits staging the counters `lo` up to `hi` (exclusive) makes:
   * one `Batch(c)` for each positive multiple `c` of 100 in that range, in
   * increasing order.
   */
  function Batches(lo: nat, hi: nat): seq<Commit>
    decreases hi - lo
  {
    if hi <= lo then []
    else (if lo > 0 && lo % 100 == 0 then [Batch(lo)] else []) + Batches(lo + 1, hi)
  }

  /** `Batches` lists only positive multiples of 100 of its range, in increasing order. */
  lemma {:induction false} BatchesOrdered(lo: nat, hi: nat)
    ensures BatchSchedule(Batches(lo, hi), lo) && AllBefore(Batches(lo, hi), hi)
    decreases hi - lo
  {
    if lo < hi {
      var head: seq<Commit> := if lo > 0 && lo % 100 == 0 then [Batch(lo)] else [];
      var rest := Batches(lo + 1, hi);
      BatchesOrdered(lo + 1, hi);
      ScheduleConcat(head, rest, lo, lo + 1);
      assert Batches(lo, hi) == head + rest;
      forall k | 0 <= k < |head + rest| && (head + rest)[k].Batch?
        ensures (head + rest)[k].processed < hi
      {
        if k >= |head| {
          assert (head + rest)[k] == rest[k - |head|];
        }
      }
    }
  }

  /** `Batches` lists every positive multiple of 100 of its range. */
  lemma {:induction false} BatchesCover(lo: nat, hi: nat, c: nat)
    requires lo <= c < hi && c > 0 && c % 100 == 0
    ensures Batch(c) in Batches(lo, hi)
    decreases c - lo
  {
    if lo < c {
      BatchesCover(lo + 1, hi, c);
    }
  }

  lemma {:induction false} BatchesConcat(a: nat, b: nat, c: nat)
    requires a <= b <= c
    ensures Batches(a, b) + Batches(b, c) == Batches(a, c)
    decreases b - a
  {
    if a < b {
      BatchesConcat(a + 1, b, c);
    }
  }

  /** Staging once more at counter `m` adds that counter's batch commit, if any. */
  lemma {:induction false} BatchesNext(a: nat, m: nat)
    requires a <= m
    ensures Batches(a, m) + (if m > 0 && m % 100 == 0 then [Batch(m)] else []) == Batches(a, m + 1)
  {
    BatchesConcat(a, m, m + 1);
    assert Batches(m + 1, m + 1) == [];
  }

  /**
   * Without permission errors, unless a fatal error ends it, a visit commits
   * exactly at the positive multiples of 100 among the counters it stages,
   * which are all counters from the incoming one to the one it returns.
   */
  lemma {:induction false} CompleteVisitCommits(env: Env, st: Store, e: Entry, id: Option<nat>, n: Node, processed: nat)
    requires ValidId(st.rows, id) && Complete(n)
    ensures var r := Visit(env, st, e, id, n, processed);
            !r.out.Failed? ==> r.store.log == st.log + Batches(processed, processed + Size(n))
    decreases n, 2
  {
    var rf := FsRefresh(env, e, n);
    var e1 := rf.entry;
    var st1 := Assigned(st, id, e1);
    if !e1.directory {
      BatchesNext(processed, processed);
      assert Batches(processed, processed) == [];
    } else {
      assert Visit(env, st, e, id, n, processed) == VisitDirectory(env, st1, e1, id, n, processed);
      CompleteDirectoryCommits(env, st1, e1, id, n, processed);
    }
  }

  lemma {:induction false} CompleteDirectoryCommits(env: Env, st: Store, e: Entry, id: Option<nat>, n: Node, processed: nat)
    requires ValidId(st.rows, id) && Complete(n)
    ensures var r := VisitDirectory(env, st, e, id, n, processed);
            !r.out.Failed? ==> r.store.log == st.log + Batches(processed, processed + Size(n))
    decreases n, 1
  {
    if n.stat.kind == Directory {
      var sw := VisitChildren(env, st, e.path, n, 0, 0, processed);
      CompleteChildrenCommits(env, st, e.path, n, 0, 0, processed);
      CompleteChildrenSizes(env, st, e.path, n, 0, 0, processed);
      if sw.end == Completed {
        BatchesNext(processed, sw.processed);
      }
    }
  }

  lemma {:induction false} CompleteChildCommits(env: Env, st: Store, dir: string, child: Node, processed: nat)
    requires Complete(child)
    ensures var r := VisitChild(env, st, dir, child, processed);
            !r.out.Failed? ==> r.store.log == st.log + Batches(processed, processed + Size(child))
    decreases child, 3
  {
    var path := Join(dir, child.name);
    var found := Lookup(st.rows, path, child.dirInode);
    if found.Match? {
      CompleteVisitCommits(env, st, st.rows[found.index], Some(found.index), child, processed);
    } else if found.NoMatch? {
      CompleteVisitCommits(env, st, NewEntry(path), None, child, processed);
    }
  }

  lemma {:induction false} CompleteChildrenCommits(env: Env, st: Store, dir: string, n: Node, i: nat, bytes: nat, processed: nat)
    requires i <= |n.children| && Complete(n)
    ensures var r := VisitChildren(env, st, dir, n, i, bytes, processed);
            !r.end.Aborted? ==> r.store.log == st.log + Batches(processed, processed + ChildSizes(n, i))
    decreases n, 0, |n.children| - i, 1
  {
    if i == |n.children| {
      assert ChildSizes(n, i) == 0 && Batches(processed, processed) == [];
    } else {
      var child := n.children[i];
      assert Complete(child);
      var v := VisitChild(env, st, dir, child, processed);
      CompleteChildCommits(env, st, dir, child, processed);
      CompleteChildSizes(env, st, dir, child, processed);
      ChildrenStep(env, st, dir, n, i, bytes, processed, v);
      if v.out.Returned? {
        RestCommits(env, st, dir, n, i, bytes, processed, v);
      } else {
        assert v.out.Failed?;
      }
    }
  }

  /** The rest of the child loop after child `i` returned, counted from before that child. */
  lemma {:induction false} RestCommits(env: Env, st: Store, dir: string, n: Node, i: nat, bytes: nat, processed: nat, v: Visited)
    requires i < |n.children| && Complete(n)
    requires v.out.Returned? && v.out.count == processed + Size(n.children[i])
    requires v.store.log == st.log + Batches(processed, v.out.count)
    ensures var r := VisitChildren(env, v.store, dir, n, i + 1, bytes + SizeOr0(v.entry.treeSize), v.out.count);
            !r.end.Aborted? ==> r.store.log == st.log + Batches(processed, processed + ChildSizes(n, i))
    decreases n, 0, |n.children| - i, 0
  {
    var c := v.out.count;
    var hi := c + ChildSizes(n, i + 1);
    assert ChildSizes(n, i) == Size(n.children[i]) + ChildSizes(n, i + 1);
    CompleteChildrenCommits(env, v.store, dir, n, i + 1, bytes + SizeOr0(v.entry.treeSize), c);
    var r := VisitChildren(env, v.store, dir, n, i + 1, bytes + SizeOr0(v.entry.treeSize), c);
    if !r.end.Aborted? {
      LogsChain(st.log, v.store.log, r.store.log, processed, c, hi);
    }
  }

  /** Two commit runs over adjacent ranges make one over the joined range. */
  lemma LogsChain(l0: seq<Commit>, l1: seq<Commit>, l2: seq<Commit>, a: nat, b: nat, c: nat)
    requires a <= b <= c && l1 == l0 + Batches(a, b) && l2 == l1 + Batches(b, c)
    ensures l2 == l0 + Batches(a, c)
  {
    BatchesConcat(a, b, c);
    assert l2 == l0 + (Batches(a, b) + Batches(b, c));
  }

  /** A visit that raises `PermissionError` stopped inside `fs_refresh`: it committed nothing. */
  lemma {:induction false} VisitDeniedCommitsNothing(env: Env, st: Store, e: Entry, id: Option<nat>, n: Node, processed: nat)
    requires ValidId(st.rows, id)
    ensures var r := Visit(env, st, e, id, n, processed);
            r.out == PermissionDenied ==> r.store.log == st.log && FsRefresh(env, e, n).raised
  {
    var rf := FsRefresh(env, e, n);
    if !rf.raised && rf.entry.directory {
      var st1 := Assigned(st, id, rf.entry);
      assert Visit(env, st, e, id, n, processed) == VisitDirectory(env, st1, rf.entry, id, n, processed);
    }
  }

  /**
   * A whole scan: the mid-scan commits follow the batch schedule from 0 and
   * precede the counter, the final commit closes the log, and everything the
   * session saw is then durable.
   */
  lemma {:induction false} ScanCommits(env: Env, st: Store, root: Entry, rootId: Option<nat>, n: Node)
    requires ValidId(st.rows, rootId)
    ensures var r := Scan(env, st, root, rootId, n);
            && st.log <= r.store.log
            && (r.out.Returned? ==>
                  && |st.log| < |r.store.log|
                  && r.store.log == r.store.log[..|r.store.log| - 1] + [Final]
                  && BatchSchedule(r.store.log[|st.log|..|r.store.log| - 1], 0)
                  && AllBefore(r.store.log[|st.log|..|r.store.log| - 1], r.out.count)
                  && r.store.durable == r.store.rows)
  {
    var v := Visit(env, st, root, rootId, n, 0);
    VisitCommits(env, st, root, rootId, n, 0);
    if v.out.Returned? {
      var r := Scan(env, st, root, rootId, n);
      assert r.store.log == v.store.log + [Final];
      assert r.store.log[|st.log|..|r.store.log| - 1] == v.store.log[|st.log|..];
    }
  }

  /**
   * A whole scan of a tree without permission errors, unless a fatal error
   * ends it: it counts every object, commits at each positive multiple of
   * 100 below that count, in order, then once more at the end, and everything
   * the session saw is durable.
   */
  lemma {:induction false} CompleteScanCommits(env: Env, st: Store, root: Entry, rootId: Option<nat>, n: Node)
    requires ValidId(st.rows, rootId) && Complete(n)
    ensures var r := Scan(env, st, root, rootId, n);
            !r.out.Failed? ==>
              && r.out == Returned(Size(n))
              && r.store.log == st.log + Batches(0, Size(n)) + [Final]
              && r.store.durable == r.store.rows
  {
    CompleteVisitSizes(env, st, root, rootId, n, 0);
    CompleteVisitCommits(env, st, root, rootId, n, 0);
  }
}
