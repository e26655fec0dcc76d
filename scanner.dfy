/**
 * The incremental depth-first scanner: `fs_refresh` on one object,
 * `depth_first_recurse` over a subtree and `scan_recursively` around it.
 * `Visit` and `VisitChildren` state what a visit does to the session; the
 * methods are proved to do exactly that, and ScannerProps proves what the
 * visits promise.
 */
module Scanner {
  import opened Opt
  import opened Paths
  import opened FsTree
  import opened Catalog

  const ImohashDefaultHex: string := "imohash_default_hex"

  /**
   * What the scanner consults besides the tree: the working directory
   * `os.path.abspath` resolves against, one wall-clock reading for
   * `last_stat`, the MIME detector and the content hash, both functions of
   * the bytes read.
   */
  datatype Env = Env(cwd: string, now: int, mimeOf: seq<bv8> -> string, hashOf: seq<bv8> -> string)

  /** The object after `fs_refresh`, and whether `fs_refresh` raised `PermissionError` part way. */
  datatype Refreshed = Refreshed(entry: Entry, raised: bool)

  /**
   * `fs_refresh`: make the path absolute, `lstat` it (which may raise), copy
   * the stat fields, set `directory` only to True, take the size only for a
   * non-directory, and for a regular file read MIME type and fingerprint
   * (the read may raise before anything of it is set).
   */
  function FsRefresh(env: Env, e: Entry, n: Node): (r: Refreshed)
    ensures r.entry.path == Abs(env.cwd, e.path)
    ensures IsAbsolute(env.cwd) ==> IsAbsolute(r.entry.path)
    ensures r.raised <==> !n.statOk || (n.stat.kind == Regular && !n.readable)
    ensures !n.statOk ==> r.entry == e.(path := r.entry.path)
    ensures e.directory ==> r.entry.directory
    ensures r.entry.directory <==> e.directory || (n.statOk && n.stat.kind == Directory)
    ensures n.statOk && !r.entry.directory ==> r.entry.treeSize == Some(n.stat.size)
    ensures r.entry.directory ==> r.entry.treeSize == e.treeSize
    ensures n.statOk ==> r.entry.inode == Some(n.stat.inode) && r.entry.dev == Some(n.stat.dev)
    ensures n.statOk && n.stat.kind == Regular && n.readable ==>
              && r.entry.mime == Some(env.mimeOf(n.content))
              && r.entry.fingerprint == Some(env.hashOf(n.content))
              && r.entry.fingerprintType == Some(ImohashDefaultHex)
    ensures !(n.statOk && n.stat.kind == Regular && n.readable) ==>
              && r.entry.mime == e.mime
              && r.entry.fingerprint == e.fingerprint
              && r.entry.fingerprintType == e.fingerprintType
  {
    var p := Abs(env.cwd, e.path);
    if !n.statOk then Refreshed(e.(path := p), true)
    else
      var s := n.stat;
      var isDir := e.directory || s.kind == Directory;
      var e1 := e.(path := p,
                   lastStat := Some(env.now),
                   directory := isDir,
                   permissions := Some(FileMode(s.kind, s.permBits)),
                   inode := Some(s.inode),
                   dev := Some(s.dev),
                   treeSize := if isDir then e.treeSize else Some(s.size),
                   lastAccess := Some(s.atime),
                   lastModified := Some(s.mtime),
                   creationOrMeta := Some(s.ctime));
      if s.kind != Regular then Refreshed(e1, false)
      else if !n.readable then Refreshed(e1, true)
      else Refreshed(e1.(mime := Some(env.mimeOf(n.content)),
                         fingerprintType := Some(ImohashDefaultHex),
                         fingerprint := Some(env.hashOf(n.content))), false)
  }

  /** Errors that no `except` in the scanner catches; they end the whole scan. */
  datatype Fault = NotADirectory | IdentityConflict

  /** How a call of `depth_first_recurse` ends: it returns the counter, or raises. */
  datatype Outcome = Returned(count: nat) | PermissionDenied | Failed(fault: Fault)

  datatype Visited = Visited(store: Store, entry: Entry, out: Outcome)

  /** How the child loop of a directory ends: all children done, a `PermissionError` escaped it, or a fatal error. */
  datatype LoopEnd = Completed | Escaped | Aborted(fault: Fault)

  /** The session after the child loop, `aggregated_bytes`, the counter, and how the loop ended. */
  datatype Swept = Swept(store: Store, bytes: nat, processed: nat, end: LoopEnd)

  /** `session.add(file)` and, when the counter is a positive multiple of 100, `session.commit()`. */
  function Stage(st: Store, id: Option<nat>, e: Entry, processed: nat): Store
    requires ValidId(st.rows, id)
  {
    var st1 := Added(st, id, e);
    if processed > 0 && processed % 100 == 0 then Committed(st1, Batch(processed)) else st1
  }

  /**
   * One call `depth_first_recurse(file, ..., processed, ...)` where `file` is
   * the value `e`, persistent at row `id` or transient, and `n` is what the
   * filesystem holds at its path.
   */
  function Visit(env: Env, st: Store, e: Entry, id: Option<nat>, n: Node, processed: nat): (r: Visited)
    requires ValidId(st.rows, id)
    ensures |r.store.rows| >= |st.rows|
    decreases n, 2
  {
    var rf := FsRefresh(env, e, n);
    var e1 := rf.entry;
    var st1 := Assigned(st, id, e1);
    if rf.raised then Visited(st1, e1, PermissionDenied)
    else if !e1.directory then Visited(Stage(st1, id, e1, processed), e1, Returned(processed + 1))
    else VisitDirectory(env, st1, e1, id, n, processed)
  }

  /** The part of a visit after `fs_refresh` succeeded on an object flagged as a directory. */
  function VisitDirectory(env: Env, st1: Store, e1: Entry, id: Option<nat>, n: Node, processed: nat): (r: Visited)
    requires ValidId(st1.rows, id)
    ensures |r.store.rows| >= |st1.rows|
    decreases n, 1
  {
    if n.stat.kind != Directory then Visited(st1, e1, Failed(NotADirectory))
    else if !n.listable then Visited(st1, e1, Returned(processed + 1))
    else
      var sw := VisitChildren(env, st1, e1.path, n, 0, 0, processed);
      match sw.end
      case Completed =>
        var e2 := e1.(treeSize := Some(sw.bytes));
        Visited(Stage(sw.store, id, e2, sw.processed), e2, Returned(sw.processed + 1))
      case Escaped => Visited(sw.store, e1, Returned(sw.processed + 1))
      case Aborted(f) => Visited(sw.store, e1, Failed(f))
  }

  /**
   * The child loop of directory `dir` (node `n`) from child `i` on, with
   * `bytes` aggregated and the counter at `processed`: visit each child in
   * turn and add its size (NULL as 0) until the listing ends or a child
   * raises.
   */
  function VisitChildren(env: Env, st: Store, dir: string, n: Node, i: nat, bytes: nat, processed: nat): (r: Swept)
    requires i <= |n.children|
    ensures |r.store.rows| >= |st.rows|
    decreases n, 0, |n.children| - i
  {
    if i == |n.children| then Swept(st, bytes, processed, Completed)
    else
      var v := VisitChild(env, st, dir, n.children[i], processed);
      match v.out
      case Returned(c) => VisitChildren(env, v.store, dir, n, i + 1, bytes + SizeOr0(v.entry.treeSize), c)
      case PermissionDenied => Swept(v.store, bytes, processed, Escaped)
      case Failed(f) => Swept(v.store, bytes, processed, Aborted(f))
  }

  /**
   * One pass of the child loop: look the child up by its path and the inode
   * the listing reports (`entry.inode()`, not the `lstat` inode that
   * `fs_refresh` stores); two rows make the ASSERT fail before any object is
   * made; one row is reused, none gives a new object; then recurse into it.
   */
  function VisitChild(env: Env, st: Store, dir: string, child: Node, processed: nat): (r: Visited)
    ensures |r.store.rows| >= |st.rows|
    decreases child, 3
  {
    var path := Join(dir, child.name);
    var found := Lookup(st.rows, path, child.dirInode);
    if found.Conflict? then Visited(st, NewEntry(path), Failed(IdentityConflict))
    else if found.Match? then Visit(env, st, st.rows[found.index], Some(found.index), child, processed)
    else Visit(env, st, NewEntry(path), None, child, processed)
  }

  datatype Scanned = Scanned(store: Store, out: Outcome)

  /** `scan_recursively(root)`: a visit with the counter at 0, then a final commit if nothing escaped. */
  function Scan(env: Env, st: Store, root: Entry, rootId: Option<nat>, n: Node): (r: Scanned)
    requires ValidId(st.rows, rootId)
    ensures r.out.Returned? ==> r.store.durable == r.store.rows && |r.store.log| > 0 && r.store.log[|r.store.log| - 1] == Final
    ensures !r.out.Returned? ==> r.store == Visit(env, st, root, rootId, n, 0).store
  {
    var v := Visit(env, st, root, rootId, n, 0);
    if v.out.Returned? then Scanned(Committed(v.store, Final), v.out) else Scanned(v.store, v.out)
  }

  /** `FileLikeObject.depth_first_recurse`. */
  method DepthFirstRecurse(s: Session, env: Env, file: Entry, id: Option<nat>, node: Node, processed: nat)
    returns (file': Entry, out: Outcome)
    requires ValidId(s.rows, id)
    modifies s
    ensures Visited(s.State(), file', out) == Visit(env, old(s.State()), file, id, node, processed)
    decreases node, 2
  {
    ghost var st0 := s.State();
    var rf := FsRefresh(env, file, node);
    file' := rf.entry;
    s.Assign(id, file');
    assert s.State() == Assigned(st0, id, file');
    if rf.raised {
      out := PermissionDenied;
      return;
    }
    var count := processed;
    if file'.directory {
      if node.stat.kind != Directory {
        out := Failed(NotADirectory);
        return;
      }
      if !node.listable {
        out := Returned(processed + 1);
        return;
      }
      ghost var st1 := s.State();
      var aggregated, end;
      aggregated, count, end := ScanChildren(s, env, file'.path, node, processed);
      ghost var sw := VisitChildren(env, st1, file'.path, node, 0, 0, processed);
      assert sw == Swept(s.State(), aggregated, count, end);
      match end
      case Escaped =>
        out := Returned(count + 1);
        return;
      case Aborted(f) =>
        out := Failed(f);
        return;
      case Completed =>
      file' := file'.(treeSize := Some(aggregated));
    }
    assert ValidId(s.rows, id);
    s.Add(id, file');
    if count > 0 && count % 100 == 0 {
      s.Commit(Batch(count));
    }
    out := Returned(count + 1);
  }

  /** The visit of one child: its path, its catalog row by path and listed inode, then the recursion. */
  method ScanChild(s: Session, env: Env, dir: string, child: Node, processed: nat) returns (flo: Entry, out: Outcome)
    modifies s
    ensures Visited(s.State(), flo, out) == VisitChild(env, old(s.State()), dir, child, processed)
    decreases child, 3
  {
    var childPath := Join(dir, child.name);
    var found := Lookup(s.rows, childPath, child.dirInode);
    if found.Conflict? {
      return NewEntry(childPath), Failed(IdentityConflict);
    }
    var floId := if found.Match? then Some(found.index) else None;
    flo := if found.Match? then s.rows[found.index] else NewEntry(childPath);
    flo, out := DepthFirstRecurse(s, env, flo, floId, child, processed);
  }

  /**
   * One pass of the child loop over child `i`: the visit, then the
   * accumulator and counter updates; `next` says how the loop ends here, or
   * None when it goes on.
   */
  method ChildPass(s: Session, env: Env, dir: string, node: Node, i: nat, aggregated: nat, count: nat)
    returns (aggregated': nat, count': nat, next: Option<LoopEnd>)
    requires i < |node.children|
    modifies s
    ensures next.None? ==> VisitChildren(env, s.State(), dir, node, i + 1, aggregated', count')
                           == VisitChildren(env, old(s.State()), dir, node, i, aggregated, count)
    ensures next.Some? ==> Swept(s.State(), aggregated', count', next.value)
                           == VisitChildren(env, old(s.State()), dir, node, i, aggregated, count)
    decreases node, 1, 0
  {
    ghost var before := s.State();
    var flo, out := ScanChild(s, env, dir, node.children[i], count);
    ChildrenStep(env, before, dir, node, i, aggregated, count, Visited(s.State(), flo, out));
    if out.PermissionDenied? {
      return aggregated, count, Some(Escaped);
    } else if out.Failed? {
      return aggregated, count, Some(Aborted(out.fault));
    }
    return aggregated + SizeOr0(flo.treeSize), out.count, None;
  }

  /** How the rest of the loop continues from the visit of child `i`. */
  lemma {:induction false} ChildrenStep(env: Env, st: Store, dir: string, n: Node, i: nat, bytes: nat, processed: nat, v: Visited)
    requires i < |n.children| && v == VisitChild(env, st, dir, n.children[i], processed)
    ensures v.out.Returned? ==> VisitChildren(env, st, dir, n, i, bytes, processed)
                                == VisitChildren(env, v.store, dir, n, i + 1, bytes + SizeOr0(v.entry.treeSize), v.out.count)
    ensures v.out.PermissionDenied? ==> VisitChildren(env, st, dir, n, i, bytes, processed) == Swept(v.store, bytes, processed, Escaped)
    ensures v.out.Failed? ==> VisitChildren(env, st, dir, n, i, bytes, processed) == Swept(v.store, bytes, processed, Aborted(v.out.fault))
  {
  }

  /**
   * The `for entry in os.scandir(dir)` loop of `depth_first_recurse`, with
   * its `aggregated_bytes` accumulator and the reassigned counter; it stops
   * where a `PermissionError` or a fatal error leaves the loop.
   */
  method ScanChildren(s: Session, env: Env, dir: string, node: Node, processed: nat)
    returns (aggregated: nat, count: nat, end: LoopEnd)
    modifies s
    ensures Swept(s.State(), aggregated, count, end) == VisitChildren(env, old(s.State()), dir, node, 0, 0, processed)
    decreases node, 1, 1
  {
    ghost var st0 := s.State();
    aggregated, count := 0, processed;
    var i := 0;
    while i < |node.children|
      invariant i <= |node.children|
      invariant VisitChildren(env, s.State(), dir, node, i, aggregated, count)
             == VisitChildren(env, st0, dir, node, 0, 0, processed)
      decreases |node.children| - i
    {
      var next;
      aggregated, count, next := ChildPass(s, env, dir, node, i, aggregated, count);
      if next.Some? {
        end := next.value;
        return;
      }
      i := i + 1;
    }
    end := Completed;
  }

  /** `FileLikeObject.scan_recursively`: the visit from a zero counter, then the final commit. */
  method ScanRecursively(s: Session, env: Env, root: Entry, rootId: Option<nat>, node: Node)
    returns (out: Outcome)
    requires ValidId(s.rows, rootId)
    modifies s
    ensures Scanned(s.State(), out) == Scan(env, old(s.State()), root, rootId, node)
  {
    var _, o := DepthFirstRecurse(s, env, root, rootId, node, 0);
    out := o;
    if out.Returned? {
      s.Commit(Final);
    }
  }
}
