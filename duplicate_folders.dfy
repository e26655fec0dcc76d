/**
 * `DuplicateView.scan_for_duplicate_folders`: walk the view's rows in order,
 * count every consecutive pair with equal fingerprints against the pair of
 * their parent directories, in both directions, then flatten the counts into
 * `(smaller, larger, count)` triples sorted by non-increasing count.
 */
module DuplicateFolders {
  import opened Opt
  import opened Paths
  import opened TextOrder
  import opened DuplicateView

  /** The `folders` dict of dicts: directory to directory to number of shared files. */
  type Folders = map<string, map<string, nat>>

  /** `folders[a][b]`, 0 where either key is missing. */
  function Get(f: Folders, a: string, b: string): nat {
    if a in f && b in f[a] then f[a][b] else 0
  }

  /** `map_a_b(a, b)`: create what is missing, then add one to `folders[a][b]`. */
  function Bump(f: Folders, a: string, b: string): (r: Folders)
    ensures Get(r, a, b) == Get(f, a, b) + 1
    ensures forall x, y :: x != a || y != b ==> Get(r, x, y) == Get(f, x, y)
    ensures r.Keys == f.Keys + {a}
    ensures forall x :: x in f && x != a ==> r[x] == f[x]
    ensures r[a].Keys == (if a in f then f[a].Keys else {}) + {b}
  {
    var inner := if a in f then f[a] else map[];
    var c := if b in inner then inner[b] else 0;
    f[a := inner[b := c + 1]]
  }

  /** `bidirectional_duplicates(value, last_value)`. */
  function Edge(f: Folders, value: DupRow, last: DupRow): Folders {
    var lastDir := Parent(last.path);
    var currentDir := Parent(value.path);
    Bump(Bump(f, currentDir, lastDir), lastDir, currentDir)
  }

  /** `folders` after the loop has run over the rows `d`. */
  function FoldersOf(d: seq<DupRow>): Folders {
    if |d| < 2 then map[]
    else
      var f := FoldersOf(d[..|d| - 1]);
      if d[|d| - 1].fingerprint == d[|d| - 2].fingerprint then Edge(f, d[|d| - 1], d[|d| - 2]) else f
  }

  /**
   * The number of consecutive pairs of `d` with equal fingerprints whose
   * later row lies in directory `a` and earlier row in directory `b`.
   */
  function PairCount(d: seq<DupRow>, a: string, b: string): nat {
    if |d| < 2 then 0
    else
      var k := |d| - 1;
      PairCount(d[..k], a, b)
        + (if d[k].fingerprint == d[k - 1].fingerprint && Parent(d[k].path) == a && Parent(d[k - 1].path) == b then 1 else 0)
  }

  /** Every entry present in `folders` is a positive count. */
  ghost predicate Positive(f: Folders) {
    forall a, b :: a in f && b in f[a] ==> f[a][b] > 0
  }

  /**
   * `folders[a][b]` counts the consecutive same-fingerprint pairs between
   * `a` and `b` in either order; a pair within one directory counts twice.
   */
  lemma {:induction false} FoldersCount(d: seq<DupRow>, a: string, b: string)
    ensures Get(FoldersOf(d), a, b) == PairCount(d, a, b) + PairCount(d, b, a)
  {
    if |d| >= 2 {
      FoldersCount(d[..|d| - 1], a, b);
    }
  }

  lemma {:induction false} FoldersPositive(d: seq<DupRow>)
    ensures Positive(FoldersOf(d))
  {
    if |d| >= 2 {
      FoldersPositive(d[..|d| - 1]);
      var f := FoldersOf(d[..|d| - 1]);
      if d[|d| - 1].fingerprint == d[|d| - 2].fingerprint {
        var cur, last := Parent(d[|d| - 1].path), Parent(d[|d| - 2].path);
        var f1 := Bump(f, cur, last);
        assert Positive(f1) by {
          forall x, y | x in f1 && y in f1[x]
            ensures f1[x][y] > 0
          {
            assert Get(f1, x, y) == f1[x][y];
            if x != cur || y != last {
              assert Get(f, x, y) == f[x][y];
            }
          }
        }
        var f2 := Bump(f1, last, cur);
        forall x, y | x in f2 && y in f2[x]
          ensures f2[x][y] > 0
        {
          assert Get(f2, x, y) == f2[x][y];
          if x != last || y != cur {
            assert Get(f1, x, y) == f1[x][y];
          }
        }
      }
    }
  }

  /** The map stays symmetric: `folders[a][b] == folders[b][a]`. */
  lemma {:induction false} FoldersSymmetric(d: seq<DupRow>, a: string, b: string)
    ensures Get(FoldersOf(d), a, b) == Get(FoldersOf(d), b, a)
  {
    FoldersCount(d, a, b);
    FoldersCount(d, b, a);
  }

  /** A consecutive same-fingerprint pair within one directory adds 2 to `folders[dir][dir]`. */
  lemma {:induction false} SameDirectoryAddsTwo(d: seq<DupRow>, x: DupRow)
    requires |d| > 0 && d[|d| - 1].fingerprint == x.fingerprint && Parent(d[|d| - 1].path) == Parent(x.path)
    ensures var dir := Parent(x.path);
            Get(FoldersOf(d + [x]), dir, dir) == Get(FoldersOf(d), dir, dir) + 2
  {
    assert (d + [x])[..|d|] == d;
  }

  /** Rows whose fingerprints differ from their predecessor's contribute nothing. */
  lemma {:induction false} OnlyEqualNeighboursCount(d: seq<DupRow>, x: DupRow)
    requires |d| > 0 && d[|d| - 1].fingerprint != x.fingerprint
    ensures FoldersOf(d + [x]) == FoldersOf(d)
  {
    assert (d + [x])[..|d|] == d;
  }

  // ---------------------------------------------------------------- triples

  /** One result tuple `(smaller_key, larger_key, count)`. */
  datatype Overlap = Overlap(smaller: string, larger: string, count: nat)

  /** The tuple made of `folders[a][b]`. */
  function TupleOf(f: Folders, a: string, b: string): (t: Overlap)
    requires a in f && b in f[a]
    ensures Le(t.smaller, t.larger) && {t.smaller, t.larger} == {a, b}
  {
    MinLeMax(a, b);
    LtTotal(a, b);
    if Lt(a, b) then
      LtAsymmetric(a, b);
      Overlap(Min(a, b), Max(a, b), f[a][b])
    else Overlap(Min(a, b), Max(a, b), f[a][b])
  }

  /** The `tuples` set built from every entry of `folders`. */
  function Triples(f: Folders): set<Overlap> {
    set a, b | a in f && b in f[a] :: TupleOf(f, a, b)
  }

  /**
   * The result's triples are exactly the ordered directory pairs with a
   * positive count, each carrying the number of consecutive
   * same-fingerprint pairs between the two directories (twice that within
   * one directory).
   */
  lemma {:induction false} TriplesOf(d: seq<DupRow>, t: Overlap)
    ensures t in Triples(FoldersOf(d)) <==>
              && Le(t.smaller, t.larger)
              && t.count > 0
              && t.count == PairCount(d, t.smaller, t.larger) + PairCount(d, t.larger, t.smaller)
  {
    var f := FoldersOf(d);
    FoldersPositive(d);
    FoldersCount(d, t.smaller, t.larger);
    if t in Triples(f) {
      var a, b :| a in f && b in f[a] && t == TupleOf(f, a, b);
      FoldersSymmetric(d, a, b);
      assert Get(f, a, b) == f[a][b];
      if t.smaller != a {
        assert t.smaller == b && t.larger == a;
      }
    }
    if Le(t.smaller, t.larger) && t.count > 0 && t.count == Get(f, t.smaller, t.larger) {
      assert t.smaller in f && t.larger in f[t.smaller];
      var u := TupleOf(f, t.smaller, t.larger);
      LtTotal(t.smaller, t.larger);
      if Lt(t.larger, t.smaller) {
        LtAsymmetric(t.larger, t.smaller);
      }
      assert u == t;
    }
  }

  /** No directory pair appears twice: two triples naming the same pair are the same triple. */
  lemma {:induction false} OneTriplePerPair(d: seq<DupRow>, t1: Overlap, t2: Overlap)
    requires t1 in Triples(FoldersOf(d)) && t2 in Triples(FoldersOf(d))
    requires t1.smaller == t2.smaller && t1.larger == t2.larger
    ensures t1 == t2
  {
    TriplesOf(d, t1);
    TriplesOf(d, t2);
  }

  // ---------------------------------------------------------------- the method

  /** No element twice. */
  predicate Distinct<T(==)>(s: seq<T>) {
    forall i, j :: 0 <= i < j < |s| ==> s[i] != s[j]
  }

  /** Non-increasing count (`sorted(..., key=lambda t: -t[2])`). */
  predicate ByCount(s: seq<Overlap>) {
    forall i, j :: 0 <= i < j < |s| ==> s[i].count >= s[j].count
  }

  /** Place `t` after every triple whose count is at least its own. */
  function InsertByCount(t: Overlap, s: seq<Overlap>): (r: seq<Overlap>)
    ensures multiset(r) == multiset(s) + multiset{t}
  {
    if s == [] then [t]
    else if s[0].count < t.count then [t] + s
    else
      assert s == [s[0]] + s[1..];
      [s[0]] + InsertByCount(t, s[1..])
  }

  lemma {:induction false} InsertByCountMembers(t: Overlap, s: seq<Overlap>)
    ensures forall x :: x in InsertByCount(t, s) <==> x == t || x in s
  {
    var r := InsertByCount(t, s);
    assert forall x :: x in r <==> x in multiset(r);
    assert forall x :: x in s <==> x in multiset(s);
  }

  lemma {:induction false} InsertByCountSorted(t: Overlap, s: seq<Overlap>)
    requires ByCount(s)
    ensures ByCount(InsertByCount(t, s))
  {
    if s != [] && s[0].count >= t.count {
      var tail := s[1..];
      InsertByCountSorted(t, tail);
      var rest := InsertByCount(t, tail);
      forall k | 0 <= k < |rest|
        ensures rest[k].count <= s[0].count
      {
        assert rest[k] in multiset(rest);
        if rest[k] != t {
          var m :| 0 <= m < |tail| && tail[m] == rest[k];
          assert s[m + 1] == rest[k];
        }
      }
      assert InsertByCount(t, s) == [s[0]] + rest;
    }
  }

  lemma {:induction false} InsertByCountDistinct(t: Overlap, s: seq<Overlap>)
    requires Distinct(s) && t !in s
    ensures Distinct(InsertByCount(t, s))
  {
    if s != [] && s[0].count >= t.count {
      var tail := s[1..];
      assert Distinct(tail) && t !in tail;
      InsertByCountDistinct(t, tail);
      var rest := InsertByCount(t, tail);
      assert s[0] !in tail;
      assert s[0] !in multiset(rest);
      assert InsertByCount(t, s) == [s[0]] + rest;
    }
  }

  /** The tuples from `folders[a]` for every key `a` in `done`. */
  function TriplesFrom(f: Folders, done: set<string>): set<Overlap> {
    set a, b | a in f && a in done && b in f[a] :: TupleOf(f, a, b)
  }

  /**
   * `scan_for_duplicate_folders` over the view's rows `dupes`: the distinct
   * triples of `Triples(FoldersOf(dupes))`, smaller key first, by
   * non-increasing count.
   */
  method ScanForDuplicateFolders(dupes: seq<DupRow>) returns (result: seq<Overlap>)
    ensures forall t :: t in result <==> t in Triples(FoldersOf(dupes))
    ensures Distinct(result)
    ensures ByCount(result)
    ensures forall t :: t in result ==> Le(t.smaller, t.larger)
  {
    var folders := CountPairs(dupes);
    var tuples := CollectTuples(folders);
    result := SortByCount(tuples);
  }

  /** The loop over `dupes` with `last_value`, bumping `folders` for each equal-fingerprint neighbour. */
  method CountPairs(dupes: seq<DupRow>) returns (folders: Folders)
    ensures folders == FoldersOf(dupes)
  {
    folders := map[];
    var last: Option<DupRow> := None;
    for i := 0 to |dupes|
      invariant folders == FoldersOf(dupes[..i])
      invariant last == if i == 0 then None else Some(dupes[i - 1])
    {
      var value := dupes[i];
      assert dupes[..i + 1][..i] == dupes[..i];
      if last.Some? && value.fingerprint == last.value.fingerprint {
        var lastDir := Parent(last.value.path);
        var currentDir := Parent(value.path);
        folders := Bump(folders, currentDir, lastDir);
        folders := Bump(folders, lastDir, currentDir);
      }
      last := Some(value);
    }
    assert dupes[..|dupes|] == dupes;
  }

  /** The nested loop over `folders.items()` and each inner dict, adding `(min, max, count)` to `tuples`. */
  method CollectTuples(folders: Folders) returns (tuples: set<Overlap>)
    ensures tuples == Triples(folders)
  {
    tuples := {};
    var keys := folders.Keys;
    while keys != {}
      invariant keys <= folders.Keys
      invariant tuples == TriplesFrom(folders, folders.Keys - keys)
      decreases keys
    {
      var key :| key in keys;
      var inner := folders[key].Keys;
      ghost var before := tuples;
      while inner != {}
        invariant inner <= folders[key].Keys
        invariant tuples == before + set b | b in folders[key] && b !in inner :: TupleOf(folders, key, b)
        decreases inner
      {
        var innerKey :| innerKey in inner;
        var count := folders[key][innerKey];
        tuples := tuples + {Overlap(Min(key, innerKey), Max(key, innerKey), count)};
        inner := inner - {innerKey};
      }
      keys := keys - {key};
      assert tuples == TriplesFrom(folders, folders.Keys - keys);
    }
    assert tuples == Triples(folders);
  }

  /**
   * `sorted(list(tuples), key=lambda t: -t[2])`: the set's elements, each
   * once, by non-increasing count; the order among equal counts is whatever
   * order the set is taken in.
   */
  method SortByCount(tuples: set<Overlap>) returns (result: seq<Overlap>)
    ensures forall t :: t in result <==> t in tuples
    ensures Distinct(result)
    ensures ByCount(result)
  {
    result := [];
    var rest := tuples;
    while rest != {}
      invariant rest <= tuples
      invariant forall t :: t in result <==> t in tuples && t !in rest
      invariant Distinct(result) && ByCount(result)
      decreases rest
    {
      var t :| t in rest;
      InsertByCountSorted(t, result);
      InsertByCountDistinct(t, result);
      InsertByCountMembers(t, result);
      result := InsertByCount(t, result);
      rest := rest - {t};
    }
  }

  lemma {:induction false} PairCountOfTwo(u: DupRow, w: DupRow, a: string, b: string)
    ensures PairCount([u, w], a, b) == if u.fingerprint == w.fingerprint && Parent(w.path) == a && Parent(u.path) == b then 1 else 0
  {
    assert [u, w][..1] == [u];
  }

  /** Two rows with one fingerprint in directories `p` < `q`: the single triple `(p, q, 1)`. */
  lemma {:induction false} TwoFoldersTriple(u: DupRow, w: DupRow, p: string, q: string)
    requires u.fingerprint == w.fingerprint && Lt(p, q)
    requires (Parent(u.path) == p && Parent(w.path) == q) || (Parent(u.path) == q && Parent(w.path) == p)
    ensures Triples(FoldersOf([u, w])) == {Overlap(p, q, 1)}
  {
    var d := [u, w];
    LtIrreflexive(p);
    LtAsymmetric(p, q);
    forall a, b
      ensures PairCount(d, a, b) + PairCount(d, b, a) == (if {a, b} == {p, q} then 1 else 0)
    {
      PairCountOfTwo(u, w, a, b);
      PairCountOfTwo(u, w, b, a);
    }
    forall t
      ensures t in Triples(FoldersOf(d)) <==> t == Overlap(p, q, 1)
    {
      TriplesOf(d, t);
      if t.smaller == q && t.larger == p {
        assert !Le(q, p);
      }
    }
  }

  /** Two rows with one fingerprint in the same directory `p`: the single triple `(p, p, 2)`. */
  lemma {:induction false} OneFolderTriple(u: DupRow, w: DupRow, p: string)
    requires u.fingerprint == w.fingerprint && Parent(u.path) == p && Parent(w.path) == p
    ensures Triples(FoldersOf([u, w])) == {Overlap(p, p, 2)}
  {
    var d := [u, w];
    forall a, b
      ensures PairCount(d, a, b) == (if a == p && b == p then 1 else 0)
    {
      PairCountOfTwo(u, w, a, b);
    }
    forall t
      ensures t in Triples(FoldersOf(d)) <==> t == Overlap(p, p, 2)
    {
      TriplesOf(d, t);
    }
  }

  /**
   * Two files with one fingerprint in `/x` and `/y`: one triple, `("/x",
   * "/y", 1)`, though the map holds the pair in both directions.
   */
  lemma {:induction false} FoldersExample()
    ensures var v := DupRow(0, "/x/a", "h", None, None, None, None);
            var d := [v, v.(id := 1, path := "/y/b")];
            Triples(FoldersOf(d)) == {Overlap("/x", "/y", 1)}
  {
    var v := DupRow(0, "/x/a", "h", None, None, None, None);
    LastSlashAfter("/x", "a");
    LastSlashAfter("/y", "b");
    assert "/x/a" == "/x" + "/" + "a" && "/y/b" == "/y" + "/" + "b";
    assert Lt("/x", "/y");
    TwoFoldersTriple(v, v.(id := 1, path := "/y/b"), "/x", "/y");
  }

  /** Two files with one fingerprint in the same directory `/x`: the triple `("/x", "/x", 2)`. */
  lemma {:induction false} SameFolderExample()
    ensures var v := DupRow(0, "/x/a", "h", None, None, None, None);
            var d := [v, v.(id := 1, path := "/x/b")];
            Triples(FoldersOf(d)) == {Overlap("/x", "/x", 2)}
  {
    var v := DupRow(0, "/x/a", "h", None, None, None, None);
    LastSlashAfter("/x", "a");
    LastSlashAfter("/x", "b");
    assert "/x/a" == "/x" + "/" + "a" && "/x/b" == "/x" + "/" + "b";
    OneFolderTriple(v, v.(id := 1, path := "/x/b"), "/x");
  }
}
