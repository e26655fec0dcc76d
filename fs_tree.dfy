/**
 * The filesystem the scanner walks, as a tree of what `os.lstat` and
 * `os.scandir` would report, plus where each of them would raise
 * `PermissionError`.
 */
module FsTree {
  import opened Paths

  /** The file type bits of `st_mode` (`S_ISDIR`, `S_ISREG`, `S_ISLNK`, ...). */
  datatype Kind = Directory | Regular | Symlink | Fifo | CharDevice | BlockDevice | Socket

  /** What `os.lstat` reports: type, the 12 permission bits (`S_IMODE`), identity, size, times. */
  datatype Stat = Stat(kind: Kind, permBits: bv12, inode: nat, dev: nat, size: nat,
                       atime: int, mtime: int, ctime: int)

  /**
   * One filesystem object. `statOk` is false when `os.lstat` of it raises
   * `PermissionError` (no search permission on its directory), `readable`
   * is false when reading a regular file's bytes raises it, `listable` is
   * false when `os.scandir` of a directory raises it. `content` is what the
   * MIME detector and the content hash read; `children` is the listing, in
   * the order `os.scandir` yields it. `dirInode` is the inode the listing
   * of the parent directory reports for the object (`DirEntry.inode()`, the
   * `d_ino` of `readdir`), which need not be `stat.inode`: at a mount point
   * it is the inode of the directory mounted over, and overlay filesystems
   * may report yet another.
   */
  datatype Node = Node(name: string, dirInode: nat, stat: Stat, statOk: bool, readable: bool, listable: bool,
                       content: seq<bv8>, children: seq<Node>)

  function TypeChar(k: Kind): char {
    match k
    case Symlink => 'l'
    case Socket => 's'
    case Regular => '-'
    case BlockDevice => 'b'
    case Directory => 'd'
    case CharDevice => 'c'
    case Fifo => 'p'
  }

  function Flag(m: bv12, bit: bv12, c: char): char {
    if m & bit == bit then c else '-'
  }

  /** The execute column: set-id or sticky bit with execute, without it, or plain execute. */
  function ExecFlag(m: bv12, x: bv12, special: bv12, both: char, only: char): char {
    if m & (x | special) == x | special then both
    else if m & special == special then only
    else if m & x == x then 'x'
    else '-'
  }

  /** `stat.filemode`: the ten-character `ls -l` permission string. */
  function FileMode(k: Kind, m: bv12): (r: string)
    ensures |r| == 10
    ensures r[0] == 'd' <==> k == Directory
    ensures r[0] == '-' <==> k == Regular
    ensures r[1] == 'r' <==> m & 0x100 != 0
  {
    [TypeChar(k),
     Flag(m, 0x100, 'r'), Flag(m, 0x80, 'w'), ExecFlag(m, 0x40, 0x800, 's', 'S'),
     Flag(m, 0x20, 'r'), Flag(m, 0x10, 'w'), ExecFlag(m, 0x8, 0x400, 's', 'S'),
     Flag(m, 0x4, 'r'), Flag(m, 0x2, 'w'), ExecFlag(m, 0x1, 0x200, 't', 'T')]
  }

  /** Every name below the root is one a directory listing can yield. */
  predicate WellFormed(n: Node)
    decreases n
  {
    forall i :: 0 <= i < |n.children| ==> ValidName(n.children[i].name) && WellFormed(n.children[i])
  }

  /**
   * Every object below the root is listed under the inode `lstat` reports
   * for it (no mount point, no overlay filesystem below the root).
   */
  predicate ListedInodesAgree(n: Node)
    decreases n
  {
    forall i :: 0 <= i < |n.children| ==>
      n.children[i].dirInode == n.children[i].stat.inode && ListedInodesAgree(n.children[i])
  }

  /** No two entries of one listing share a name, as in any directory. */
  predicate DistinctNames(n: Node)
    decreases n
  {
    && (forall i, j :: 0 <= i < j < |n.children| ==> n.children[i].name != n.children[j].name)
    && forall i :: 0 <= i < |n.children| ==> DistinctNames(n.children[i])
  }

  /** No `lstat` and no read of a regular file refused anywhere; a listing may be. */
  predicate NoRefusal(n: Node)
    decreases n
  {
    && n.statOk
    && (n.stat.kind == Regular ==> n.readable)
    && forall i :: 0 <= i < |n.children| ==> NoRefusal(n.children[i])
  }

  /** No `PermissionError` anywhere in the tree. */
  predicate Complete(n: Node)
    decreases n
  {
    && n.statOk
    && (n.stat.kind == Regular ==> n.readable)
    && (n.stat.kind == Directory ==> n.listable)
    && forall i :: 0 <= i < |n.children| ==> Complete(n.children[i])
  }

  /** Bytes of the subtree: a non-directory's own size, a directory's children's sum. */
  function TreeBytes(n: Node): nat
    decreases n, 1
  {
    if n.stat.kind == Directory then ChildBytes(n, 0) else n.stat.size
  }

  function ChildBytes(n: Node, i: nat): nat
    requires i <= |n.children|
    decreases n, 0, |n.children| - i
  {
    if i == |n.children| then 0 else TreeBytes(n.children[i]) + ChildBytes(n, i + 1)
  }

  /** Bytes of the subtree that can be seen: as TreeBytes, but a directory that cannot be listed has 0. */
  function KnownBytes(n: Node): nat
    decreases n, 1
  {
    if n.stat.kind != Directory then n.stat.size
    else if !n.listable then 0
    else KnownChildBytes(n, 0)
  }

  function KnownChildBytes(n: Node, i: nat): nat
    requires i <= |n.children|
    decreases n, 0, |n.children| - i
  {
    if i == |n.children| then 0 else KnownBytes(n.children[i]) + KnownChildBytes(n, i + 1)
  }

  /** Where every directory can be listed, the bytes that can be seen are all the bytes. */
  lemma {:induction false} CompleteKnownBytes(n: Node)
    requires Complete(n)
    ensures KnownBytes(n) == TreeBytes(n)
    decreases n, 1
  {
    if n.stat.kind == Directory {
      CompleteKnownChildBytes(n, 0);
    }
  }

  lemma {:induction false} CompleteKnownChildBytes(n: Node, i: nat)
    requires Complete(n) && i <= |n.children|
    ensures KnownChildBytes(n, i) == ChildBytes(n, i)
    decreases n, 0, |n.children| - i
  {
    if i < |n.children| {
      CompleteKnownBytes(n.children[i]);
      CompleteKnownChildBytes(n, i + 1);
    }
  }

  /** Number of objects in the subtree, itself included. */
  function Size(n: Node): nat
    decreases n, 1
  {
    if n.stat.kind == Directory then 1 + ChildSizes(n, 0) else 1
  }

  function ChildSizes(n: Node, i: nat): nat
    requires i <= |n.children|
    decreases n, 0, |n.children| - i
  {
    if i == |n.children| then 0 else Size(n.children[i]) + ChildSizes(n, i + 1)
  }

  /**
   * What a visit of `n` does, read off the tree alone: it raises
   * `PermissionError` to its caller (an `lstat` or a file read refused), or
   * it counts `count` visited objects, itself included. A directory stops at
   * the first child that raises and still counts itself.
   */
  datatype Expect = Raises | Visits(count: nat)

  function Expected(n: Node): Expect
    decreases n, 1
  {
    if !n.statOk || (n.stat.kind == Regular && !n.readable) then Raises
    else if n.stat.kind != Directory || !n.listable then Visits(1)
    else Visits(ExpectedChildren(n, 0))
  }

  function ExpectedChildren(n: Node, i: nat): nat
    requires i <= |n.children|
    decreases n, 0, |n.children| - i
  {
    if i == |n.children| then 1
    else match Expected(n.children[i])
      case Raises => 1
      case Visits(c) => c + ExpectedChildren(n, i + 1)
  }

  /** Without permission errors every object of the subtree is counted. */
  lemma {:induction false} CompleteVisitsAll(n: Node)
    requires Complete(n)
    ensures Expected(n) == Visits(Size(n))
    decreases n, 1
  {
    if n.stat.kind == Directory {
      CompleteChildrenVisitAll(n, 0);
    }
  }

  lemma {:induction false} CompleteChildrenVisitAll(n: Node, i: nat)
    requires Complete(n) && n.stat.kind == Directory && i <= |n.children|
    ensures ExpectedChildren(n, i) == 1 + ChildSizes(n, i)
    decreases n, 0, |n.children| - i
  {
    if i < |n.children| {
      CompleteVisitsAll(n.children[i]);
      CompleteChildrenVisitAll(n, i + 1);
    }
  }
}
