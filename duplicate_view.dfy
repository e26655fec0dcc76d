/**
 * The `view_duplicates` SQL view over `filelikes`:
 *
 *   rows `a` joined on `a.fingerprint = b.fingerprint` with the groups `b`
 *   of `GROUP BY fingerprint HAVING COUNT(*) > 1`, ordered by fingerprint
 *   descending.
 *
 * A row's position in the table stands for its primary key. The equality
 * join drops NULL fingerprints (their group may be counted, it is never
 * joined). SQL leaves the order among equal fingerprints open; the model
 * keeps table order there.
 */
module DuplicateView {
  import opened Opt
  import opened Catalog
  import opened TextOrder

  /** One row of the view: the projected columns, the fingerprint known to be non-NULL. */
  datatype DupRow = DupRow(
    id: nat,
    path: string,
    fingerprint: string,
    mime: Option<string>,
    treeSize: Option<nat>,
    dev: Option<nat>,
    creationOrMeta: Option<int>)

  /** How many rows carry fingerprint `fp` (`COUNT(*)` of its group). */
  function Occurrences(rows: seq<Entry>, fp: string): (c: nat)
    ensures c <= |rows|
  {
    if rows == [] then 0
    else Occurrences(rows[..|rows| - 1], fp) + (if rows[|rows| - 1].fingerprint == Some(fp) then 1 else 0)
  }

  /** Row `k` takes part in the join: its fingerprint is non-NULL and its group has more than one row. */
  predicate Qualifies(rows: seq<Entry>, k: nat)
    requires k < |rows|
  {
    rows[k].fingerprint.Some? && Occurrences(rows, rows[k].fingerprint.value) > 1
  }

  function RowOf(rows: seq<Entry>, k: nat): (r: DupRow)
    requires k < |rows| && rows[k].fingerprint.Some?
    ensures r.id == k && r.path == rows[k].path && Some(r.fingerprint) == rows[k].fingerprint
  {
    var e := rows[k];
    DupRow(k, e.path, e.fingerprint.value, e.mime, e.treeSize, e.dev, e.creationOrMeta)
  }

  /** The joined rows among the first `k`, in table order. */
  function Joined(rows: seq<Entry>, k: nat): seq<DupRow>
    requires k <= |rows|
  {
    if k == 0 then []
    else Joined(rows, k - 1) + (if Qualifies(rows, k - 1) then [RowOf(rows, k - 1)] else [])
  }

  /** Non-increasing fingerprint order (`ORDER BY fingerprint DESC`). */
  predicate SortedDesc(s: seq<DupRow>) {
    forall i, j :: 0 <= i < j < |s| ==> Le(s[j].fingerprint, s[i].fingerprint)
  }

  /** Place `x` before the first row whose fingerprint is at most its own. */
  function InsertDesc(x: DupRow, s: seq<DupRow>): (r: seq<DupRow>)
    ensures multiset(r) == multiset(s) + multiset{x}
  {
    if s == [] then [x]
    else if Le(s[0].fingerprint, x.fingerprint) then [x] + s
    else
      assert s == [s[0]] + s[1..];
      [s[0]] + InsertDesc(x, s[1..])
  }

  function SortDesc(s: seq<DupRow>): (r: seq<DupRow>)
    ensures multiset(r) == multiset(s)
  {
    if s == [] then []
    else
      assert s == [s[0]] + s[1..];
      InsertDesc(s[0], SortDesc(s[1..]))
  }

  /** `SELECT ... FROM view_duplicates`. */
  function View(rows: seq<Entry>): seq<DupRow> {
    SortDesc(Joined(rows, |rows|))
  }

  // ---------------------------------------------------------------- order

  /** Inserting a row no greater than `b` into rows no greater than `b` keeps every row no greater than `b`. */
  lemma {:induction false} InsertDescBelow(x: DupRow, t: seq<DupRow>, b: string)
    requires Le(x.fingerprint, b)
    requires forall k :: 0 <= k < |t| ==> Le(t[k].fingerprint, b)
    ensures forall k :: 0 <= k < |InsertDesc(x, t)| ==> Le(InsertDesc(x, t)[k].fingerprint, b)
  {
    var r := InsertDesc(x, t);
    forall k | 0 <= k < |r|
      ensures Le(r[k].fingerprint, b)
    {
      assert r[k] in multiset(r);
      if r[k] != x {
        assert r[k] in multiset(t);
        var m :| 0 <= m < |t| && t[m] == r[k];
      }
    }
  }

  lemma {:induction false} InsertDescSorted(x: DupRow, s: seq<DupRow>)
    requires SortedDesc(s)
    ensures SortedDesc(InsertDesc(x, s))
  {
    if s != [] && !Le(s[0].fingerprint, x.fingerprint) {
      var t := s[1..];
      assert SortedDesc(t);
      InsertDescSorted(x, t);
      LeTotal(s[0].fingerprint, x.fingerprint);
      assert forall k :: 0 <= k < |t| ==> Le(t[k].fingerprint, s[0].fingerprint) by {
        forall k | 0 <= k < |t| ensures Le(t[k].fingerprint, s[0].fingerprint) {
          assert t[k] == s[k + 1];
        }
      }
      InsertDescBelow(x, t, s[0].fingerprint);
      assert InsertDesc(x, s) == [s[0]] + InsertDesc(x, t);
    } else if s != [] {
      var r := InsertDesc(x, s);
      assert r == [x] + s;
      forall j | 0 < j < |r|
        ensures Le(r[j].fingerprint, x.fingerprint)
      {
        if j > 1 {
          LeTransitive(s[j - 1].fingerprint, s[0].fingerprint, x.fingerprint);
        }
      }
    }
  }

  lemma {:induction false} SortDescSorted(s: seq<DupRow>)
    ensures SortedDesc(SortDesc(s))
  {
    if s != [] {
      SortDescSorted(s[1..]);
      InsertDescSorted(s[0], SortDesc(s[1..]));
    }
  }

  /**
   * In the view's order the rows sharing a fingerprint stand together, so a
   * walk that compares each row with its predecessor meets every group as
   * one run.
   */
  lemma {:induction false} GroupsContiguous(s: seq<DupRow>)
    requires SortedDesc(s)
    ensures forall i, k, j :: 0 <= i < k < j < |s| && s[i].fingerprint == s[j].fingerprint ==>
              s[k].fingerprint == s[i].fingerprint
  {
    forall i, k, j | 0 <= i < k < j < |s| && s[i].fingerprint == s[j].fingerprint
      ensures s[k].fingerprint == s[i].fingerprint
    {
      assert Le(s[j].fingerprint, s[k].fingerprint);
      LeAntisymmetric(s[k].fingerprint, s[i].fingerprint);
    }
  }

  // ---------------------------------------------------------------- membership

  /** A fingerprint is counted exactly when some row carries it. */
  lemma {:induction false} SharedIffOne(rows: seq<Entry>, fp: string)
    ensures Occurrences(rows, fp) > 0 <==> exists i :: 0 <= i < |rows| && rows[i].fingerprint == Some(fp)
  {
    if rows != [] {
      var init := rows[..|rows| - 1];
      SharedIffOne(init, fp);
      assert forall i :: 0 <= i < |init| ==> init[i] == rows[i];
      if rows[|rows| - 1].fingerprint != Some(fp) && exists i :: 0 <= i < |rows| && rows[i].fingerprint == Some(fp) {
        var i :| 0 <= i < |rows| && rows[i].fingerprint == Some(fp);
        assert init[i].fingerprint == Some(fp);
      }
    }
  }

  /** Two rows carrying the fingerprint make its count exceed one ... */
  lemma {:induction false} CountFromPair(rows: seq<Entry>, fp: string, i: nat, j: nat)
    requires i < j < |rows| && rows[i].fingerprint == Some(fp) && rows[j].fingerprint == Some(fp)
    ensures Occurrences(rows, fp) > 1
  {
    var init := rows[..|rows| - 1];
    assert init[i] == rows[i];
    if j == |rows| - 1 {
      SharedIffOne(init, fp);
    } else {
      assert init[j] == rows[j];
      CountFromPair(init, fp, i, j);
    }
  }

  /** ... and a count above one has two such rows. */
  lemma {:induction false} PairFromCount(rows: seq<Entry>, fp: string) returns (i: nat, j: nat)
    requires Occurrences(rows, fp) > 1
    ensures i < j < |rows| && rows[i].fingerprint == Some(fp) && rows[j].fingerprint == Some(fp)
  {
    var init := rows[..|rows| - 1];
    if rows[|rows| - 1].fingerprint == Some(fp) {
      SharedIffOne(init, fp);
      var k :| 0 <= k < |init| && init[k].fingerprint == Some(fp);
      i, j := k, |rows| - 1;
    } else {
      i, j := PairFromCount(init, fp);
    }
    assert init[i] == rows[i];
  }

  /** The `HAVING COUNT(*) > 1` test: at least two rows carry the fingerprint. */
  lemma {:induction false} SharedIffTwo(rows: seq<Entry>, fp: string)
    ensures Occurrences(rows, fp) > 1 <==>
              exists i, j :: 0 <= i < j < |rows| && rows[i].fingerprint == Some(fp) && rows[j].fingerprint == Some(fp)
  {
    if Occurrences(rows, fp) > 1 {
      var i, j := PairFromCount(rows, fp);
    }
    if exists i, j :: 0 <= i < j < |rows| && rows[i].fingerprint == Some(fp) && rows[j].fingerprint == Some(fp) {
      var i, j :| 0 <= i < j < |rows| && rows[i].fingerprint == Some(fp) && rows[j].fingerprint == Some(fp);
      CountFromPair(rows, fp, i, j);
    }
  }

  lemma {:induction false} JoinedMembers(rows: seq<Entry>, k: nat, x: DupRow)
    requires k <= |rows|
    ensures x in Joined(rows, k) <==> exists i :: 0 <= i < k && Qualifies(rows, i) && x == RowOf(rows, i)
  {
    if k > 0 {
      JoinedMembers(rows, k - 1, x);
    }
  }

  /** Row `k` joins exactly when its fingerprint is non-NULL and some other row carries it too. */
  lemma {:induction false} QualifiesIffShared(rows: seq<Entry>, k: nat)
    requires k < |rows|
    ensures Qualifies(rows, k) <==>
              rows[k].fingerprint.Some? && exists j :: 0 <= j < |rows| && j != k && rows[j].fingerprint == rows[k].fingerprint
  {
    if rows[k].fingerprint.Some? {
      var fp := rows[k].fingerprint.value;
      SharedIffTwo(rows, fp);
      if exists j :: 0 <= j < |rows| && j != k && rows[j].fingerprint == rows[k].fingerprint {
        var j :| 0 <= j < |rows| && j != k && rows[j].fingerprint == rows[k].fingerprint;
        if j < k {
          assert rows[j].fingerprint == Some(fp) && rows[k].fingerprint == Some(fp);
        } else {
          assert rows[k].fingerprint == Some(fp) && rows[j].fingerprint == Some(fp);
        }
      }
      if Qualifies(rows, k) {
        var i, j :| 0 <= i < j < |rows| && rows[i].fingerprint == Some(fp) && rows[j].fingerprint == Some(fp);
        if i != k {
          assert rows[i].fingerprint == rows[k].fingerprint;
        } else {
          assert rows[j].fingerprint == rows[k].fingerprint;
        }
      }
    }
  }

  /**
   * The view holds exactly the rows whose fingerprint is non-NULL and shared
   * with another row, each once, in non-increasing fingerprint order.
   */
  lemma {:induction false} ViewContents(rows: seq<Entry>)
    ensures SortedDesc(View(rows))
    ensures multiset(View(rows)) == multiset(Joined(rows, |rows|))
    ensures forall x :: x in View(rows) <==>
              exists k :: 0 <= k < |rows| && Qualifies(rows, k) && x == RowOf(rows, k)
  {
    var joined := Joined(rows, |rows|);
    assert View(rows) == SortDesc(joined);
    SortDescSorted(joined);
    forall x
      ensures x in View(rows) <==> exists k :: 0 <= k < |rows| && Qualifies(rows, k) && x == RowOf(rows, k)
    {
      assert x in SortDesc(joined) <==> x in multiset(SortDesc(joined));
      assert x in joined <==> x in multiset(joined);
      JoinedMembers(rows, |rows|, x);
    }
  }

  /** Each row appears in the view at most once. */
  lemma {:induction false} JoinedDistinct(rows: seq<Entry>, k: nat)
    requires k <= |rows|
    ensures forall x :: multiset(Joined(rows, k))[x] <= 1
    ensures forall x :: x in Joined(rows, k) ==> x.id < k
  {
    if k > 0 {
      JoinedDistinct(rows, k - 1);
    }
  }

  /** A row whose fingerprint is NULL (a directory, a symlink, an unreadable file) never appears. */
  lemma {:induction false} NullNeverListed(rows: seq<Entry>, k: nat)
    requires k < |rows| && rows[k].fingerprint.None?
    ensures forall x :: x in View(rows) ==> x.id != k
  {
    ViewContents(rows);
  }

  /** A four-row table: `/r/x` and `/r/z` share fingerprint `a`, `/r/y` alone has `b`, `/r` has none. */
  function ExampleRows(): seq<Entry> {
    var e := NewEntry("/r");
    [e.(path := "/r/x", fingerprint := Some("a")),
     e.(path := "/r/y", fingerprint := Some("b")),
     e.(path := "/r/z", fingerprint := Some("a")),
     e]
  }

  lemma {:induction false} ExampleOccurrences()
    ensures Occurrences(ExampleRows(), "a") == 2 && Occurrences(ExampleRows(), "b") == 1
  {
    var rows := ExampleRows();
    assert rows[..3][..2] == rows[..2] && rows[..2][..1] == rows[..1] && rows[..1][..0] == [];
    assert Occurrences(rows[..1], "a") == 1 && Occurrences(rows[..1], "b") == 0;
    assert Occurrences(rows[..2], "a") == 1 && Occurrences(rows[..2], "b") == 1;
    assert Occurrences(rows[..3], "a") == 2 && Occurrences(rows[..3], "b") == 1;
  }

  lemma {:induction false} ExampleJoined()
    ensures Joined(ExampleRows(), 4) == [RowOf(ExampleRows(), 0), RowOf(ExampleRows(), 2)]
  {
    var rows := ExampleRows();
    ExampleOccurrences();
    assert Joined(rows, 1) == [RowOf(rows, 0)];
    assert Joined(rows, 2) == [RowOf(rows, 0)];
    assert Joined(rows, 3) == [RowOf(rows, 0), RowOf(rows, 2)];
  }

  /** Two rows already in descending order stay as they are. */
  lemma {:induction false} SortPair(x: DupRow, y: DupRow)
    requires Le(y.fingerprint, x.fingerprint)
    ensures SortDesc([x, y]) == [x, y]
  {
    assert [x, y][1..] == [y] && [y][1..] == [];
    assert SortDesc([y]) == [y];
  }

  /** The rows sharing `a` are listed, in table order; `b` and NULL are not. */
  lemma {:induction false} ViewExample()
    ensures |View(ExampleRows())| == 2
    ensures View(ExampleRows())[0].path == "/r/x" && View(ExampleRows())[1].path == "/r/z"
  {
    var rows := ExampleRows();
    assert |rows| == 4 && rows[0].path == "/r/x" && rows[2].path == "/r/z";
    ExampleJoined();
    var x, y := RowOf(rows, 0), RowOf(rows, 2);
    assert Le(y.fingerprint, x.fingerprint);
    SortPair(x, y);
  }
}
