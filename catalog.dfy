/**
 * The catalog: rows of the `filelikes` table and the database session the
 * scanner writes through. A row is a value; an ORM object that Python
 * mutates in place is a row whose value the session replaces.
 */
module Catalog {
  import opened Opt

  /** One `filelikes` row (the columns the core reads or writes; NULL is None). */
  datatype Entry = Entry(
    path: string,
    lastStat: Option<int>,
    permissions: Option<string>,
    treeSize: Option<nat>,
    directory: bool,
    inode: Option<nat>,
    dev: Option<nat>,
    mime: Option<string>,
    fingerprint: Option<string>,
    fingerprintType: Option<string>,
    lastAccess: Option<int>,
    lastModified: Option<int>,
    creationOrMeta: Option<int>)

  /** `FileLikeObject(path=p)`: every other column NULL, `directory` at its default False. */
  function NewEntry(p: string): Entry {
    Entry(p, None, None, None, false, None, None, None, None, None, None, None, None)
  }

  /** The row answers to the identity `(path, inode)`; a NULL inode answers to none. */
  predicate HasKey(e: Entry, path: string, inode: nat) {
    e.path == path && e.inode == Some(inode)
  }

  predicate SameKey(a: Entry, b: Entry) {
    a.inode.Some? && a.path == b.path && a.inode == b.inode
  }

  /** No two rows share an identity `(path, inode)`. */
  predicate UniqueKeys(rows: seq<Entry>) {
    forall i, j :: 0 <= i < |rows| && 0 <= j < |rows| && i != j ==> !SameKey(rows[i], rows[j])
  }

  /** What the child lookup yields: no row, the one row, or the ASSERT failing on two. */
  datatype Found = NoMatch | Match(index: nat) | Conflict

  /** The first row at or after `from` that answers to `(path, inode)`, or -1. */
  function FirstMatch(rows: seq<Entry>, path: string, inode: nat, from: nat): (k: int)
    requires from <= |rows|
    ensures k == -1 || from <= k < |rows|
    ensures k >= 0 ==> HasKey(rows[k], path, inode)
    ensures forall j :: from <= j < |rows| && (k < 0 || j < k) ==> !HasKey(rows[j], path, inode)
    decreases |rows| - from
  {
    if from == |rows| then -1
    else if HasKey(rows[from], path, inode) then from
    else FirstMatch(rows, path, inode, from + 1)
  }

  /**
   * `session.query(FileLikeObject).filter(path == p).filter(inode == ino)
   * .limit(2).all()` followed by the ASSERT that at most one row came back.
   */
  function Lookup(rows: seq<Entry>, path: string, inode: nat): (r: Found)
    ensures r == NoMatch <==> forall j :: 0 <= j < |rows| ==> !HasKey(rows[j], path, inode)
    ensures r.Match? ==> && r.index < |rows| && HasKey(rows[r.index], path, inode)
                         && forall j :: 0 <= j < |rows| && j != r.index ==> !HasKey(rows[j], path, inode)
    ensures r == Conflict <==>
              exists i, j :: 0 <= i < j < |rows| && HasKey(rows[i], path, inode) && HasKey(rows[j], path, inode)
  {
    var first := FirstMatch(rows, path, inode, 0);
    if first < 0 then NoMatch
    else if FirstMatch(rows, path, inode, first + 1) < 0 then Match(first)
    else Conflict
  }

  /** With unique identities the lookup's ASSERT never fails. */
  lemma {:induction false} UniqueNeverConflicts(rows: seq<Entry>, path: string, inode: nat)
    requires UniqueKeys(rows)
    ensures Lookup(rows, path, inode) != Conflict
  {
  }

  /** A `session.commit()`: mid-scan after `processed` objects, or the final one. */
  datatype Commit = Batch(processed: nat) | Final

  /**
   * The session's state: the rows its queries see (autoflush makes staged
   * rows visible), the rows as of the last commit, and the commits made.
   */
  datatype Store = Store(rows: seq<Entry>, durable: seq<Entry>, log: seq<Commit>)

  /** The object is transient (None) or the persistent row at that index. */
  predicate ValidId(rows: seq<Entry>, id: Option<nat>) {
    id.Some? ==> id.value < |rows|
  }

  /** Attributes of a persistent object assigned: the session sees the new value; a transient one is not in it. */
  function Assigned(st: Store, id: Option<nat>, e: Entry): Store
    requires ValidId(st.rows, id)
  {
    if id.Some? then st.(rows := st.rows[id.value := e]) else st
  }

  /** `session.add(obj)`: a transient object becomes a new row; a persistent one is already in. */
  function Added(st: Store, id: Option<nat>, e: Entry): Store
    requires ValidId(st.rows, id)
  {
    if id.Some? then st.(rows := st.rows[id.value := e]) else st.(rows := st.rows + [e])
  }

  /** `session.commit()`: what the session sees becomes durable. */
  function Committed(st: Store, c: Commit): Store {
    st.(durable := st.rows, log := st.log + [c])
  }

  class Session {
    var rows: seq<Entry>
    var durable: seq<Entry>
    var log: seq<Commit>

    function State(): Store
      reads this
    {
      Store(rows, durable, log)
    }

    /** A session over a catalog committed by earlier runs. */
    constructor (committed: seq<Entry>)
      ensures State() == Store(committed, committed, [])
    {
      rows, durable, log := committed, committed, [];
    }

    /** In-place assignment to a loaded object's attributes (a dirty object the session will flush). */
    method Assign(id: Option<nat>, e: Entry)
      requires ValidId(rows, id)
      modifies this
      ensures |rows| == |old(rows)| && durable == old(durable) && log == old(log)
      ensures id.Some? ==> rows == old(rows)[id.value := e]
      ensures id.None? ==> rows == old(rows)
    {
      if id.Some? {
        rows := rows[id.value := e];
      }
    }

    /** `session.add(obj)`. */
    method Add(id: Option<nat>, e: Entry)
      requires ValidId(rows, id)
      modifies this
      ensures durable == old(durable) && log == old(log)
      ensures id.Some? ==> rows == old(rows)[id.value := e]
      ensures id.None? ==> rows == old(rows) + [e]
    {
      if id.Some? {
        rows := rows[id.value := e];
      } else {
        rows := rows + [e];
      }
    }

    /** `session.commit()`. */
    method Commit(c: Commit)
      modifies this
      ensures rows == old(rows) && durable == rows && log == old(log) + [c]
    {
      durable := rows;
      log := log + [c];
    }
  }
}
