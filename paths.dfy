/**
 * The `os.path` functions the script calls, as the POSIX `posixpath` module
 * defines them: `basename`, `splitext` and a two-argument `join`.
 */
module Paths {
  import opened Text

  /** `os.path.basename(p)`: everything after the last '/'. */
  function Basename(p: string): string {
    p[LastIndexOf(p, '/') + 1..]
  }

  /** The basename is the end of the path, holds no '/', and is preceded by one when it is not the whole path. */
  lemma BasenameIsLastComponent(p: string)
    ensures var b := Basename(p);
      && '/' !in b
      && EndsWith(p, b)
      && (|b| < |p| ==> p[|p| - |b| - 1] == '/')
  {
    LastIndexOfFound(p, '/');
    NoneInSuffix(p, '/', LastIndexOf(p, '/') + 1);
  }

  /** A '.' followed by characters that are neither '.' nor '/'. */
  predicate IsExtension(e: string) {
    |e| >= 1 && e[0] == '.' && forall k :: 1 <= k < |e| ==> e[k] != '.' && e[k] != '/'
  }

  /** Some character of `p[i..j]` is not a '.'. */
  predicate NonDotBetween(p: string, i: nat, j: nat)
    requires i <= j <= |p|
    decreases j - i
  {
    i < j && (p[i] != '.' || NonDotBetween(p, i + 1, j))
  }

  predicate AllDots(s: string) {
    !NonDotBetween(s, 0, |s|)
  }

  /**
   * Where `os.path.splitext(p)` cuts `p`: at the last '.', provided that dot
   * lies in the last path component and some character other than '.' comes
   * before it in that component (so ".csv" and "..txt" have no extension);
   * otherwise at the end of `p`.
   */
  function ExtStart(p: string): (k: nat)
    ensures k <= |p|
  {
    var sep := LastIndexOf(p, '/');
    var dot := LastIndexOf(p, '.');
    if dot > sep && NonDotBetween(p, sep + 1, dot) then dot else |p|
  }

  /** `os.path.splitext(p)[1]` */
  function Ext(p: string): string { p[ExtStart(p)..] }

  /** `os.path.splitext(p)[0]` */
  function Root(p: string): string { p[..ExtStart(p)] }

  /** `os.path.join(a, b)` on POSIX. */
  function JoinPath(a: string, b: string): string {
    if StartsWith(b, "/") then b
    else if a == "" || EndsWith(a, "/") then a + b
    else a + "/" + b
  }

  /** The root and the extension put back together give the path. */
  lemma SplitExtRejoins(p: string)
    ensures Root(p) + Ext(p) == p
  {
    var k := ExtStart(p);
    assert p[..k] + p[k..] == p;
  }

  /** An extension is empty or a '.' followed by neither '.' nor '/'. */
  lemma ExtShape(p: string)
    ensures Ext(p) == "" || IsExtension(Ext(p))
  {
    var k := ExtStart(p);
    if k < |p| {
      var sep := LastIndexOf(p, '/');
      LastIndexOfFound(p, '/');
      LastIndexOfFound(p, '.');
      assert k == LastIndexOf(p, '.') && k > sep;
      var e := p[k..];
      forall j | 1 <= j < |e| ensures e[j] != '.' && e[j] != '/' {
        assert e[j] == p[k + j];
      }
    }
  }

  /** Whether a stretch holds a non-dot depends only on its characters. */
  lemma {:induction false} NonDotBetweenShift(p: string, o: nat, i: nat, j: nat)
    requires i <= j && o + j <= |p|
    ensures NonDotBetween(p[o..], i, j) == NonDotBetween(p, o + i, o + j)
    decreases j - i
  {
    if i < j {
      assert p[o..][i] == p[o + i];
      NonDotBetweenShift(p, o, i + 1, j);
    }
  }

  /** The same, for a stretch inside a prefix. */
  lemma {:induction false} NonDotBetweenPrefix(p: string, n: nat, i: nat, j: nat)
    requires i <= j <= n <= |p|
    ensures NonDotBetween(p[..n], i, j) == NonDotBetween(p, i, j)
    decreases j - i
  {
    if i < j {
      assert p[..n][i] == p[i];
      NonDotBetweenPrefix(p, n, i + 1, j);
    }
  }

  /** The last component of a path holds no '/'. */
  lemma LastSlashOfBasename(p: string)
    ensures LastIndexOf(p[LastIndexOf(p, '/') + 1..], '/') == -1
  {
    LastIndexOfSuffix(p, '/', LastIndexOf(p, '/') + 1);
  }

  lemma NoneInSuffix(p: string, c: char, o: nat)
    requires o <= |p|
    requires forall k :: o <= k < |p| ==> p[k] != c
    ensures forall k :: 0 <= k < |p| - o ==> p[o..][k] != c
  {
    forall k | 0 <= k < |p| - o ensures p[o..][k] != c {
      assert p[o..][k] == p[o + k];
    }
  }

  /** Where the last '.' of a path falls inside its last component. */
  lemma LastDotOfBasename(p: string)
    ensures var s := LastIndexOf(p, '/'); var d := LastIndexOf(p, '.');
      LastIndexOf(p[s + 1..], '.') == (if d > s then d - s - 1 else -1)
  {
    LastIndexOfSuffix(p, '.', LastIndexOf(p, '/') + 1);
  }

  /** `splitext` cuts a path where it cuts the path's last component. */
  lemma ExtStartOfBasename(p: string)
    ensures var s := LastIndexOf(p, '/');
      ExtStart(p) == s + 1 + ExtStart(p[s + 1..])
  {
    var s := LastIndexOf(p, '/');
    var d := LastIndexOf(p, '.');
    var b := p[s + 1..];
    LastSlashOfBasename(p);
    LastDotOfBasename(p);
    if d > s {
      NonDotBetweenShift(p, s + 1, 0, d - s - 1);
    }
  }

  /** So the extension of a path is the extension of its last component, and its root keeps the directory part. */
  lemma ExtOfBasename(p: string)
    ensures Ext(p) == Ext(Basename(p))
    ensures Root(p) == p[..|p| - |Basename(p)|] + Root(Basename(p))
  {
    var s := LastIndexOf(p, '/');
    var b := p[s + 1..];
    assert Basename(p) == b;
    ExtStartOfBasename(p);
    var k := ExtStart(b);
    assert ExtStart(p) == s + 1 + k;
    assert Ext(p) == p[s + 1 + k..] == b[k..] == Ext(b);
    assert Root(p) == p[..s + 1 + k] == p[..s + 1] + b[..k];
    assert |p| - |b| == s + 1;
  }

  /** A name with a non-dot stem and a dot-suffix splits exactly there. */
  lemma SplitExtOfName(stem: string, e: string)
    requires '/' !in stem && !AllDots(stem)
    requires IsExtension(e)
    ensures Root(stem + e) == stem && Ext(stem + e) == e
  {
    var p := stem + e;
    var n := |stem|;
    LastIndexOfUnique(p, '/', -1);
    assert p[n] == '.';
    LastIndexOfUnique(p, '.', n);
    assert p[..n] == stem;
    NonDotBetweenPrefix(p, n, 0, n);
    assert ExtStart(p) == n;
    assert p[n..] == e;
  }

  /** A directory entry joined to its directory keeps its own name as basename. */
  lemma BasenameOfJoin(dir: string, name: string)
    requires '/' !in name
    ensures Basename(JoinPath(dir, name)) == name
  {
    var x := if dir == "" || EndsWith(dir, "/") then dir else dir + "/";
    assert |name| == 0 || name[..1][0] == name[0] != '/';
    assert JoinPath(dir, name) == x + name;
    var p := x + name;
    if x == "" {
      LastIndexOfUnique(p, '/', -1);
      assert p == name;
    } else {
      assert p[|x| - 1] == '/';
      LastIndexOfUnique(p, '/', |x| - 1);
      assert p[|x|..] == name;
    }
  }

  /** So the extension seen through the joined path is the entry's own. */
  lemma ExtOfJoin(dir: string, name: string)
    requires '/' !in name
    ensures Ext(JoinPath(dir, name)) == Ext(name)
  {
    ExtOfBasename(JoinPath(dir, name));
    BasenameOfJoin(dir, name);
  }
}
