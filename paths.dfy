/**
 * Path strings as the scanner builds them: `os.path.abspath` (without
 * normalisation of `.`, `..` or repeated slashes), `os.path.join` of a
 * directory and an entry name (what `os.scandir` yields as `entry.path`),
 * and `pathlib.Path(p).parent` (drop the last `/` component).
 */
module Paths {

  predicate IsAbsolute(p: string) {
    |p| > 0 && p[0] == '/'
  }

  /** A name a directory listing can yield: non-empty and without a slash. */
  predicate ValidName(name: string) {
    |name| > 0 && '/' !in name
  }

  /** The directory part a child name is appended to: `d` with one trailing slash. */
  function Prefix(d: string): (r: string)
    ensures d <= r && |r| <= |d| + 1
    ensures |r| > 0 && r[|r| - 1] == '/'
  {
    if |d| > 0 && d[|d| - 1] == '/' then d else d + "/"
  }

  /** `os.path.join(a, b)` for two components. */
  function Join(a: string, b: string): (r: string)
    ensures IsAbsolute(b) ==> r == b
    ensures !IsAbsolute(b) && a != "" ==> r == Prefix(a) + b
    ensures IsAbsolute(a) ==> IsAbsolute(r)
  {
    if IsAbsolute(b) then b
    else if a == "" then b
    else Prefix(a) + b
  }

  /** `os.path.abspath(p)` relative to the working directory `cwd`. */
  function Abs(cwd: string, p: string): (r: string)
    ensures IsAbsolute(cwd) ==> IsAbsolute(r)
  {
    if IsAbsolute(p) then p else Join(cwd, p)
  }

  /** `os.path.abspath` leaves its own result alone. */
  lemma {:induction false} AbsIdempotent(cwd: string, p: string)
    requires IsAbsolute(cwd)
    ensures Abs(cwd, Abs(cwd, p)) == Abs(cwd, p)
  {
  }

  /** `x` lies strictly inside the directory `d`: it extends `d`'s prefix by at least one character. */
  predicate Below(x: string, d: string) {
    Prefix(d) <= x && |x| > |Prefix(d)|
  }

  /** Index of the last slash of `p`, or -1 when there is none. */
  function LastSlash(p: string): (k: int)
    ensures -1 <= k < |p|
    ensures k >= 0 ==> p[k] == '/'
    ensures forall j :: k < j < |p| ==> p[j] != '/'
  {
    if |p| == 0 then -1
    else if p[|p| - 1] == '/' then |p| - 1
    else LastSlash(p[..|p| - 1])
  }

  /** `str(pathlib.Path(p).parent)` for a path without a trailing or repeated slash. */
  function Parent(p: string): (r: string)
    ensures '/' !in p ==> r == "."
    ensures |r| <= |p| || r == "."
  {
    var k := LastSlash(p);
    if k < 0 then "." else if k == 0 then "/" else p[..k]
  }

  lemma {:induction false} LastSlashAfter(d: string, name: string)
    requires '/' !in name
    ensures LastSlash(d + "/" + name) == |d|
    decreases |name|
  {
    var p := d + "/" + name;
    if |name| == 0 {
      assert p[|p| - 1] == '/';
    } else {
      var name' := name[..|name| - 1];
      assert p[..|p| - 1] == d + "/" + name';
      assert p[|p| - 1] == name[|name| - 1];
      assert name[|name| - 1] in name;
      assert forall c :: c in name' ==> c in name;
      LastSlashAfter(d, name');
    }
  }

  /** The parent of an entry the scanner found in directory `d` is `d` again. */
  lemma {:induction false} ParentOfJoin(d: string, name: string)
    requires IsAbsolute(d) && ValidName(name)
    requires d == "/" || d[|d| - 1] != '/'
    ensures Parent(Join(d, name)) == d
  {
    assert !IsAbsolute(name) by { assert name[0] in name; }
    if d == "/" {
      assert Join(d, name) == "" + "/" + name;
      LastSlashAfter("", name);
    } else {
      assert Join(d, name) == d + "/" + name;
      LastSlashAfter(d, name);
      assert (d + "/" + name)[..|d|] == d;
    }
  }

  /** A child's path lies strictly inside its directory. */
  lemma {:induction false} JoinIsBelow(d: string, name: string)
    requires d != "" && ValidName(name)
    ensures Below(Join(d, name), d)
  {
    assert !IsAbsolute(name) by { assert name[0] in name; }
    assert Join(d, name) == Prefix(d) + name;
  }

  /** Whatever lies inside a child of `d` lies inside `d`. */
  lemma {:induction false} BelowJoin(x: string, d: string, name: string)
    requires d != "" && ValidName(name)
    requires Below(x, Join(d, name))
    ensures Below(x, d)
  {
    assert !IsAbsolute(name) by { assert name[0] in name; }
    var c := Join(d, name);
    assert c == Prefix(d) + name;
    assert Prefix(d) <= c;
    assert c <= Prefix(c);
    assert Prefix(c) <= x;
  }

  /** A path inside `d` is never `d` itself. */
  lemma {:induction false} BelowIsNot(x: string, d: string)
    requires Below(x, d)
    ensures x != d
  {
  }

  /** What lies at or inside the child `name` of a prefix `p` starts with `p + name`, then ends or has a slash. */
  lemma {:induction false} ChildPrefixed(x: string, p: string, name: string)
    requires |p| > 0 && p[|p| - 1] == '/' && ValidName(name)
    requires x == p + name || Below(x, p + name)
    ensures p + name <= x && (|x| == |p + name| || x[|p + name|] == '/')
  {
    var c := p + name;
    assert c[|c| - 1] == name[|name| - 1];
    assert name[|name| - 1] in name;
    assert Prefix(c) == c + "/";
  }

  /** Two names whose paths are both prefixes of `x`, each followed by its end or a slash, are equal. */
  lemma {:induction false} NamesMeet(x: string, p: string, a: string, b: string)
    requires '/' !in a && '/' !in b && |a| <= |b|
    requires p + a <= x && (|x| == |p + a| || x[|p + a|] == '/')
    requires p + b <= x
    ensures a == b
  {
    forall k | 0 <= k < |a|
      ensures a[k] == b[k]
    {
      assert a[k] == (p + a)[|p| + k] == x[|p| + k] == (p + b)[|p| + k] == b[k];
    }
    assert |a| == |b|;
  }

  /** Nothing lies at or inside two differently named children of one directory. */
  lemma {:induction false} SiblingsApart(x: string, d: string, a: string, b: string)
    requires d != "" && ValidName(a) && ValidName(b) && a != b
    requires x == Join(d, a) || Below(x, Join(d, a))
    ensures x != Join(d, b) && !Below(x, Join(d, b))
  {
    assert !IsAbsolute(a) by { assert a[0] in a; }
    assert !IsAbsolute(b) by { assert b[0] in b; }
    var p := Prefix(d);
    ChildPrefixed(x, p, a);
    if x == Join(d, b) || Below(x, Join(d, b)) {
      ChildPrefixed(x, p, b);
      if |a| <= |b| {
        NamesMeet(x, p, a, b);
      } else {
        NamesMeet(x, p, b, a);
      }
    }
  }
}
