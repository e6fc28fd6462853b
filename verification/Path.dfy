/** Paths: taking them apart into names and joining them. A path is a string without the terminating zero. */
module Paths {
  const SEPARATOR := '/'
  const MAX_LEN := 512
  const MAX_NAME_LEN := 16
  const NUL := '\0'

  predicate IsText(s: string) {
    NUL !in s
  }

  // What names a path has.

  /** The length of the name at the start of `p`. */
  function NameLength(p: string): (n: nat)
    ensures n <= |p|
    ensures SEPARATOR !in p[..n] && (n < |p| ==> p[n] == SEPARATOR)
  {
    if p == "" || p[0] == SEPARATOR then 0
    else
      var n := NameLength(p[1..]);
      assert p[..n + 1] == [p[0]] + p[1..][..n];
      n + 1
  }

  /** The names in `p`, left to right. */
  function Names(p: string): seq<string>
    decreases |p|
  {
    if p == "" then []
    else if p[0] == SEPARATOR then Names(p[1..])
    else [p[..NameLength(p)]] + Names(p[NameLength(p)..])
  }

  ghost predicate IsName(w: string) {
    w != "" && SEPARATOR !in w
  }

  lemma {:induction false} NamesAreNames(p: string)
    ensures forall w :: w in Names(p) ==> IsName(w)
    decreases |p|
  {
    if p == "" {
    } else if p[0] == SEPARATOR {
      NamesAreNames(p[1..]);
    } else {
      NamesAreNames(p[NameLength(p)..]);
    }
  }

  lemma {:induction false} NameLengthSplit(a: string, b: string)
    ensures NameLength(a + [SEPARATOR] + b) == NameLength(a)
  {
    if a == "" {
      assert (a + [SEPARATOR] + b)[0] == SEPARATOR;
    } else {
      assert (a + [SEPARATOR] + b)[1..] == a[1..] + [SEPARATOR] + b;
      NameLengthSplit(a[1..], b);
    }
  }

  lemma NamesStep(p: string)
    requires p != ""
    ensures Names(p) ==
      if p[0] == SEPARATOR then Names(p[1..]) else [p[..NameLength(p)]] + Names(p[NameLength(p)..])
    ensures p[0] != SEPARATOR ==> NameLength(p) > 0
  {
  }

  /** A separator splits the names; with the next lemma this determines `Names`. */
  lemma {:induction false} NamesSplit(a: string, b: string)
    ensures Names(a + [SEPARATOR] + b) == Names(a) + Names(b)
    decreases |a|
  {
    var p := a + [SEPARATOR] + b;
    assert Names("") == [];
    hide Names, NameLength;
    NamesStep(p);
    if a == "" {
      assert p[1..] == b;
    } else {
      NamesStep(a);
      NameLengthSplit(a, b);
      var n := if a[0] == SEPARATOR then 1 else NameLength(a);
      SlicesSplit(a, b, n);
      NamesSplit(a[n..], b);
      NamesJoined([a[..n]], Names(a[n..]), Names(b));
    }
  }

  lemma SlicesSplit(a: string, b: string, n: nat)
    requires n <= |a|
    ensures var p := a + [SEPARATOR] + b;
      p[..n] == a[..n] && p[n..] == a[n..] + [SEPARATOR] + b && (a != "" ==> p[0] == a[0])
  {
  }

  lemma NamesJoined(s: seq<string>, t: seq<string>, u: seq<string>)
    ensures s + (t + u) == (s + t) + u
  {
  }

  lemma {:induction false} NameLengthWhole(w: string)
    requires SEPARATOR !in w
    ensures NameLength(w) == |w|
  {
    if w != "" {
      NameLengthWhole(w[1..]);
    }
  }

  lemma NamesSingle(w: string)
    requires IsName(w)
    ensures Names(w) == [w]
  {
    NameLengthWhole(w);
    assert w[..|w|] == w && Names(w[|w|..]) == [];
  }

  // Joining.

  /** `p` with a name at its end, after a separator unless there is one or `p` is empty. */
  function WithName(p: string, w: string): string {
    (if p != "" && p[|p| - 1] != SEPARATOR then p + [SEPARATOR] else p) + w
  }

  function WithNames(p: string, names: seq<string>): string {
    if names == [] then p else WithName(WithNames(p, names[..|names| - 1]), names[|names| - 1])
  }

  predicate IsRootDir(p: string) {
    p == "/" || p == "/." || p == "/.."
  }

  predicate IsDir(p: string) {
    p == "" || IsRootDir(p) || p[|p| - 1] == SEPARATOR
  }

  predicate IsAbsolute(p: string) {
    p != "" && p[0] == SEPARATOR
  }

  /** What `Join` appends the names to. */
  function Rooted(p: string, child: string): string {
    if p == "" && IsAbsolute(child) then [SEPARATOR] else p
  }

  /** What `Join` makes of a path. */
  function Joined(p: string, child: string): string {
    var named := WithNames(Rooted(p, child), Names(child));
    if IsDir(child) then named + [SEPARATOR] else named
  }

  lemma NamesTrailing(p: string)
    ensures Names(p + [SEPARATOR]) == Names(p)
  {
    NamesSplit(p, "");
    assert p + [SEPARATOR] + "" == p + [SEPARATOR];
  }

  lemma NamesWithName(p: string, w: string)
    requires IsName(w)
    ensures Names(WithName(p, w)) == Names(p) + [w]
  {
    NamesSingle(w);
    if p == "" {
      assert p + w == w;
    } else if p[|p| - 1] == SEPARATOR {
      var q := p[..|p| - 1];
      assert p == q + [SEPARATOR];
      NamesSplit(q, w);
      NamesTrailing(q);
    } else {
      NamesSplit(p, w);
    }
  }

  lemma {:induction false} NamesWithNames(p: string, names: seq<string>)
    requires forall w :: w in names ==> IsName(w)
    ensures Names(WithNames(p, names)) == Names(p) + names
  {
    if names != [] {
      var n := |names| - 1;
      NamesWithNames(p, names[..n]);
      NamesWithName(WithNames(p, names[..n]), names[n]);
      assert names == names[..n] + [names[n]];
    }
  }

  /** Taking apart and joining agree: the joined path has the names of both, so depths add up. */
  lemma NamesOfJoined(p: string, child: string)
    ensures Names(Joined(p, child)) == Names(p) + Names(child)
    ensures |Names(Joined(p, child))| == |Names(p)| + |Names(child)|
  {
    NamesAreNames(child);
    var root := Rooted(p, child);
    assert Names(root) == Names(p) by {
      if p == "" && IsAbsolute(child) {
        NamesTrailing("");
        assert "" + [SEPARATOR] == root;
      }
    }
    NamesWithNames(root, Names(child));
    NamesTrailing(WithNames(root, Names(child)));
  }

  /** A path without a name is empty or made of separators. */
  lemma {:induction false} NoNames(p: string)
    ensures Names(p) == [] <==> forall i :: 0 <= i < |p| ==> p[i] == '/'
    decreases |p|
  {
    if p != "" && p[0] == '/' {
      NoNames(p[1..]);
      assert p == [p[0]] + p[1..];
    }
  }

  /** `IsDir` spelled out, for the statement of `IsJoin`, which uses none of the functions that joining is made of. */
  predicate EndsAsDir(p: string) {
    p == "" || p == "/." || p == "/.." || p[|p| - 1] == '/'
  }

  /** Position `k` has a separator behind another one. */
  predicate IsDoubled(t: string, k: nat)
    requires k < |t|
  {
    k > 0 && t[k - 1] == '/' && t[k] == '/'
  }

  /**
   What joining means: the text of `p` is kept, the names of `child` follow, and the path ends with
   a separator exactly when `child` is a directory. It begins with a separator exactly when `p`,
   or else `child`, does; only two empty paths make one that does. A `child` with a name brings no
   two adjacent separators, and one without brings a separator for its end.
   */
  ghost predicate IsJoin(p: string, child: string, t: string) {
    && p <= t && t != "" && Names(t) == Names(p) + Names(child)
    && (t[|t| - 1] == '/' <==> EndsAsDir(child))
    && (t[0] == '/' <==> if p != "" then p[0] == '/' else child == "" || child[0] == '/')
    && (if forall i :: 0 <= i < |child| ==> child[i] == '/' then
          t == (if p == "" && child != "" then "/" else p) + "/"
        else forall k :: |p| <= k < |t| ==> !IsDoubled(t, k))
  }

  lemma {:induction false} WithNamesShape(p: string, names: seq<string>)
    requires forall w :: w in names ==> IsName(w)
    ensures var t := WithNames(p, names);
      && p <= t && (names != [] ==> t != "" && t[|t| - 1] != '/' && (p == "" ==> t[0] != '/'))
      && forall k :: |p| <= k < |t| ==> !IsDoubled(t, k)
  {
    if names != [] {
      var n := |names| - 1;
      WithNamesShape(p, names[..n]);
      assert IsName(names[n]);
      WithNameShape(p, WithNames(p, names[..n]), names[n]);
    }
  }

  /** A name and the separator in front of it bring no doubled separator. */
  lemma WithNameShape(p: string, q: string, w: string)
    requires IsName(w) && p <= q && forall k :: |p| <= k < |q| ==> !IsDoubled(q, k)
    requires q != p ==> q != "" && q[|q| - 1] != '/'
    ensures forall k :: |p| <= k < |WithName(q, w)| ==> !IsDoubled(WithName(q, w), k)
  {
    var t := WithName(q, w);
    forall k | |p| <= k < |t| ensures !IsDoubled(t, k) {
      if k < |q| {
        assert !IsDoubled(q, k) && t[k] == q[k] && (k > 0 ==> t[k - 1] == q[k - 1]);
      }
    }
  }

  /** `Joined` keeps that promise for all paths. */
  lemma JoinedIsJoin(p: string, child: string)
    ensures IsJoin(p, child, Joined(p, child))
  {
    NamesOfJoined(p, child);
    NoNames(child);
    if Names(child) == [] {
      OnlySeparators(p, child);
    } else {
      NamesAreNames(child);
      var named := WithNames(Rooted(p, child), Names(child));
      WithNamesShape(Rooted(p, child), Names(child));
      hide Names, WithNames, NameLength;
      JoinedShape(p, child, named);
    }
  }

  lemma OnlySeparators(p: string, child: string)
    requires Names(child) == [] && Names(Joined(p, child)) == Names(p) + Names(child)
    requires forall i :: 0 <= i < |child| ==> child[i] == '/'
    ensures IsJoin(p, child, Joined(p, child))
  {
    var t := Joined(p, child);
    assert EndsAsDir(child) && t == (if p == "" && child != "" then "/" else p) + "/" && t[|t| - 1] == '/';
    hide Names, WithNames, EndsAsDir, IsDir, Joined;
  }

  lemma JoinedShape(p: string, child: string, named: string)
    requires Rooted(p, child) <= named && named != "" && named[|named| - 1] != '/'
    requires exists i :: 0 <= i < |child| && child[i] != '/'
    requires Rooted(p, child) == "" ==> named[0] != '/'
    requires forall k :: |Rooted(p, child)| <= k < |named| ==> !IsDoubled(named, k)
    requires var t := if IsDir(child) then named + [SEPARATOR] else named; Names(t) == Names(p) + Names(child)
    ensures IsJoin(p, child, if IsDir(child) then named + [SEPARATOR] else named)
  {
    hide Names;
    var (t, root) := (if IsDir(child) then named + [SEPARATOR] else named, Rooted(p, child));
    assert p <= root && t[0] == named[0] && (root != "" ==> named[0] == root[0]);
    forall k | |p| <= k < |t| ensures !IsDoubled(t, k) {
      if |root| <= k < |named| {
        assert !IsDoubled(named, k) && t[k] == named[k] && (k > 0 ==> t[k - 1] == named[k - 1]);
      }
    }
  }

  /** The file name: what follows the last separator, unless the path is a directory. */
  function FileName(p: string): string {
    if IsDir(p) then "" else LastName(p)
  }

  function LastName(p: string): (w: string)
    ensures SEPARATOR !in w && |w| <= |p| && p[|p| - |w|..] == w
    ensures |w| < |p| ==> p[|p| - |w| - 1] == SEPARATOR
  {
    if p == "" || p[|p| - 1] == SEPARATOR then ""
    else
      var w := LastName(p[..|p| - 1]);
      assert p[|p| - 1 - |w|..] == w + [p[|p| - 1]];
      w + [p[|p| - 1]]
  }

  /** What is in front of the last name. */
  function Stem(t: string): (a: string)
    ensures a <= t
  {
    t[..|t| - |LastName(t)|]
  }

  /** A path that does not end with a separator ends with its last name, right behind a separator or the start. */
  lemma NamesEnd(p: string)
    requires p != "" && p[|p| - 1] != '/'
    ensures var (a, w) := (Stem(p), LastName(p));
      IsName(w) && p == a + w && (a != "" ==> a[|a| - 1] == '/') && Names(p) == Names(a) + [w]
  {
    var (a, w) := (Stem(p), LastName(p));
    LastNameExists(p);
    StemSplits(p);
    hide *;
    NameBehind(a, w);
  }

  lemma StemSplits(p: string)
    ensures var (a, w) := (Stem(p), LastName(p));
      p == a + w && SEPARATOR !in w && (a != "" ==> a[|a| - 1] == '/')
  {
    var (a, w) := (Stem(p), LastName(p));
    hide LastName;
    assert a != "" ==> a[|a| - 1] == p[|p| - |w| - 1];
    assert p == a + w;
  }

  lemma LastNameExists(p: string)
    requires p != "" && p[|p| - 1] != '/'
    ensures LastName(p) != ""
  {
  }

  lemma NameBehind(a: string, w: string)
    requires IsName(w) && (a != "" ==> a[|a| - 1] == '/')
    ensures Names(a + w) == Names(a) + [w]
  {
    hide Names;
    NamesWithName(a, w);
  }

  lemma {:induction false} NamesGrow(p: string, q: string)
    requires p <= q
    ensures |Names(p)| <= |Names(q)|
    decreases |q|
  {
    if p != q {
      var r := q[..|q| - 1];
      NamesGrow(p, r);
      assert q == r + [q[|r|]];
      hide Names, NameLength;
      if q[|r|] == '/' {
        NamesTrailing(r);
      } else {
        NamesEnd(q);
        if r != "" && r[|r| - 1] != '/' {
          NamesEnd(r);
        }
        LastNameGrows(r, q[|r|]);
      }
    }
  }

  lemma LastNameGrows(p: string, c: char)
    requires c != '/'
    ensures LastName(p + [c]) == LastName(p) + [c]
    ensures (p + [c])[..|p| - |LastName(p)|] == p[..|p| - |LastName(p)|]
    ensures p != "" && p[|p| - 1] == '/' ==> LastName(p) == ""
  {
    assert (p + [c])[..|p|] == p;
  }

  /** The file name is the last of the names; a directory has none. */
  lemma FileNameIsLast(p: string)
    ensures if EndsAsDir(p) then FileName(p) == "" else Names(p) != [] && Names(p)[|Names(p)| - 1] == FileName(p)
  {
    if !IsDir(p) {
      hide Names, LastName;
      NamesEnd(p);
    }
  }

  // The laws of joining leave no choice.

  /** Names `names` have been put behind `p`; when that is empty, `abs` tells if there is a separator in front. */
  ghost predicate IsNamed(p: string, names: seq<string>, t: string, abs: bool) {
    && p <= t && t != "" && t[|t| - 1] != '/' && Names(t) == Names(p) + names
    && (p == "" ==> (t[0] == '/' <==> abs))
    && forall k :: |p| <= k < |t| ==> !IsDoubled(t, k)
  }

  lemma LastOfTwo(s: seq<string>, w: string, s': seq<string>, w': string)
    requires s + [w] == s' + [w']
    ensures s == s' && w == w'
  {
    assert s == (s + [w])[..|s|] && s' == (s' + [w'])[..|s'|];
  }

  lemma StemNames(p: string, names: seq<string>, t: string, abs: bool)
    requires IsNamed(p, names, t, abs) && names != []
    ensures var (a, n) := (Stem(t), |names| - 1);
      && t == a + names[n] && IsName(names[n]) && p <= a && Names(a) == Names(p) + names[..n]
      && (a != "" ==> a[|a| - 1] == '/')
  {
    var (a, w, n) := (Stem(t), LastName(t), |names| - 1);
    NamesEnd(t);
    SplitLast(names);
    hide Names, LastName, NameLength, Stem;
    LastOfTwo(Names(a), w, Names(p) + names[..n], names[n]);
    if |a| < |p| {
      InsideName(a, w, p);
    }
  }

  lemma SplitLast(names: seq<string>)
    requires names != []
    ensures names == names[..|names| - 1] + [names[|names| - 1]]
  {
  }

  /** A path that ends inside of a name. */
  lemma InsideName(a: string, w: string, p: string)
    requires a <= p <= a + w && a != p && SEPARATOR !in w && (a != "" ==> a[|a| - 1] == '/')
    ensures Names(p) == Names(a) + [p[|a|..]]
  {
    var w' := p[|a|..];
    assert p == a + w' && w' == w[..|w'|];
    NamesWithName(a, w');
  }

  lemma FirstStem(p: string, t: string, w: string, abs: bool)
    requires IsNamed(p, [w], t, abs)
    ensures Stem(t) == if p == "" then (if abs then "/" else "") else if p[|p| - 1] == '/' then p else p + "/"
  {
    StemNames(p, [w], t, abs);
    var a := Stem(t);
    hide Names, LastName, NameLength, Stem;
    if |a| > |p| + 1 {
      var b := a[..|a| - 1];
      assert a == b + "/" && b != p;
      UndoubledPart(p, a, t);
      hide IsDoubled;
      WithoutEnd(p, b, a);
      NamesTrailing(b);
      NoNameBetween(p, b);
    } else {
      ShortStem(p, t, a, w, abs);
    }
  }

  lemma ShortStem(p: string, t: string, a: string, w: string, abs: bool)
    requires p <= a && |a| <= |p| + 1 && t == a + w && IsName(w) && (a != "" ==> a[|a| - 1] == '/')
    requires p == "" ==> (t[0] == '/' <==> abs)
    requires p != "" && p[|p| - 1] == '/' && |p| < |t| ==> !IsDoubled(t, |p|)
    ensures a == if p == "" then (if abs then "/" else "") else if p[|p| - 1] == '/' then p else p + "/"
  {
    if |a| == |p| + 1 {
      assert a == p + [a[|p|]] && t[|p|] == a[|p|] && (p != "" ==> t[|p| - 1] == p[|p| - 1]);
    } else {
      assert a == p;
    }
  }

  lemma LastDiffer(s: seq<string>, v: string, w: string)
    requires |v| < |w|
    ensures s + [v] != s + [w]
  {
    assert (s + [v])[|s|] == v && (s + [w])[|s|] == w;
  }

  /** A longer path with a name at its end has other names. */
  lemma NoNameBetween(p: string, b: string)
    requires p <= b && p != b && b[|b| - 1] != '/'
    ensures Names(b) != Names(p)
  {
    NamesEnd(b);
    var c := Stem(b);
    hide *;
    if |c| < |p| {
      InsideName(c, LastName(b), p);
      LastDiffer(Names(c), p[|c|..], LastName(b));
    } else {
      NamesGrow(p, c);
    }
  }

  lemma UndoubledPart(p: string, b: string, t: string)
    requires b <= t && forall k :: |p| <= k < |t| ==> !IsDoubled(t, k)
    ensures forall k :: |p| <= k < |b| ==> !IsDoubled(b, k)
  {
    forall k | |p| <= k < |b| ensures !IsDoubled(b, k) {
      assert !IsDoubled(t, k) && b[k] == t[k] && (k > 0 ==> b[k - 1] == t[k - 1]);
    }
  }

  /** Names and a separator behind `p`: without the separator there are the same names. */
  lemma Unended(p: string, names: seq<string>, b: string, t: string, abs: bool)
    requires t == b + "/" && p <= t && Names(t) == Names(p) + names && names != []
    requires p == "" ==> (t[0] == '/' <==> abs)
    requires forall k :: |p| <= k < |t| ==> !IsDoubled(t, k)
    ensures IsNamed(p, names, b, abs)
  {
    NamesTrailing(b);
    assert Names("") == [];
    hide Names, NameLength, IsDoubled;
    assert |Names(t)| == |Names(p)| + |names|;
    WithoutEnd(p, b, t);
  }

  lemma WithoutEnd(p: string, b: string, t: string)
    requires t == b + "/" && p <= t && p != t && b != "" && forall k :: |p| <= k < |t| ==> !IsDoubled(t, k)
    ensures p <= b && b[0] == t[0] && b[|b| - 1] != '/' && forall k :: |p| <= k < |b| ==> !IsDoubled(b, k)
  {
    assert t[|b|] == '/' && t[|b| - 1] == b[|b| - 1] && !IsDoubled(t, |b|);
    hide IsDoubled;
    UndoubledPart(p, b, t);
  }

  lemma InnerStem(p: string, names: seq<string>, t: string, abs: bool)
    requires IsNamed(p, names, t, abs) && |names| > 1
    ensures var a := Stem(t);
      a != "" && a == a[..|a| - 1] + "/" && IsNamed(p, names[..|names| - 1], a[..|a| - 1], abs)
  {
    StemNames(p, names, t, abs);
    var a := Stem(t);
    assert Names("") == [];
    hide Names, LastName, NameLength, Stem;
    assert a != "" && a == a[..|a| - 1] + "/" && a[0] == t[0];
    UndoubledPart(p, a, t);
    Unended(p, names[..|names| - 1], a[..|a| - 1], a, abs);
  }

  lemma {:induction false} NamedOnce(p: string, names: seq<string>, t: string, u: string, abs: bool)
    requires IsNamed(p, names, t, abs) && IsNamed(p, names, u, abs) && names != []
    ensures t == u
    decreases |names|
  {
    StemNames(p, names, t, abs);
    StemNames(p, names, u, abs);
    if |names| == 1 {
      OneNamed(p, names, t, u, abs);
    } else {
      InnerStem(p, names, t, abs);
      InnerStem(p, names, u, abs);
      hide *;
      NamedOnce(p, names[..|names| - 1], Stem(t)[..|Stem(t)| - 1], Stem(u)[..|Stem(u)| - 1], abs);
    }
  }

  lemma OneNamed(p: string, names: seq<string>, t: string, u: string, abs: bool)
    requires IsNamed(p, names, t, abs) && IsNamed(p, names, u, abs) && |names| == 1
    ensures Stem(t) == Stem(u)
  {
    hide *;
    assert names == [names[0]];
    FirstStem(p, t, names[0], abs);
    FirstStem(p, u, names[0], abs);
  }

  /** Without the separator for a directory, a join puts the names of `child` behind `p`. */
  lemma JoinNames(p: string, child: string, t: string)
    requires IsJoin(p, child, t) && Names(child) != []
    ensures IsNamed(p, Names(child), if EndsAsDir(child) then t[..|t| - 1] else t, child == "" || child[0] == '/')
  {
    NoNames(child);
    hide Names, NameLength, EndsAsDir;
    if EndsAsDir(child) {
      assert t == t[..|t| - 1] + "/";
      Unended(p, Names(child), t[..|t| - 1], t, child == "" || child[0] == '/');
    }
  }

  /** There is only one path that joins two paths. */
  lemma JoinOnce(p: string, child: string, t: string)
    ensures IsJoin(p, child, t) <==> t == Joined(p, child)
  {
    JoinedIsJoin(p, child);
    var u := Joined(p, child);
    hide Names, Joined;
    if IsJoin(p, child, t) {
      NoNames(child);
      if Names(child) != [] {
        JoinNames(p, child, t);
        JoinNames(p, child, u);
        var dir := EndsAsDir(child);
        assert dir ==> t == t[..|t| - 1] + "/" && u == u[..|u| - 1] + "/";
        hide *;
        NamedOnce(p, Names(child), if dir then t[..|t| - 1] else t, if dir then u[..|u| - 1] else u,
                  child == "" || child[0] == '/');
      }
    }
  }

  // The buffers.

  /** The buffer holds `s`, and zeros behind it. */
  ghost predicate Holds(buf: array<char>, s: string)
    reads buf
  {
    && |s| < buf.Length && IsText(s) && buf[..|s|] == s
    && forall i :: |s| <= i < buf.Length ==> buf[i] == NUL
  }

  /** The length of the string in a buffer. */
  method StrLen(buf: array<char>, ghost s: string) returns (n: nat)
    requires Holds(buf, s)
    ensures n == |s| < buf.Length && buf[..n] == s
  {
    assert forall i :: 0 <= i < |s| ==> buf[..|s|][i] == s[i] && s[i] in s;
    n := 0;
    while buf[n] != NUL
      invariant n <= |s|
      decreases |s| - n
    {
      n := n + 1;
    }
  }

  function CharAt(p: string, i: nat): char {
    if i < |p| then p[i] else NUL
  }

  function FirstName(p: string): string {
    if Names(p) == [] then "" else Names(p)[0]
  }

  /** Path `rest` has all names of `path` but the first. */
  ghost predicate HasTail(path: string, rest: string) {
    Names(rest) == if Names(path) == [] then [] else Names(path)[1..]
  }

  ghost predicate IsParsed(p: string, name: string, rest: string) {
    name == p[..NameLength(p)] && rest == p[NameLength(p)..]
  }

  /** What `Parse` finds: `p` is `path` behind its first separators, and splits into a name and the rest. */
  lemma ParsedNames(path: string, p: string, name: string, rest: string)
    requires Names(p) == Names(path) && Visits(p) == Visits(path) && (p != "" ==> p[0] != SEPARATOR)
    requires IsParsed(p, name, rest)
    ensures name == FirstName(path) && IsVisit(path, rest) && (p != "" ==> name != "")
    ensures HasTail(path, rest)
  {
  }

  /** Where the separators at the start end. */
  method SkipSeparators(path: string) returns (src: nat)
    requires IsText(path)
    ensures src <= |path| && (src < |path| ==> path[src] != SEPARATOR)
    ensures Names(path[src..]) == Names(path) && Visits(path[src..]) == Visits(path)
    ensures src == |path| ==> Names(path) == []
    ensures forall i :: 0 <= i < src ==> path[i] == '/'
  {
    src := 0;
    while CharAt(path, src) == SEPARATOR
      invariant src <= |path| && Names(path[src..]) == Names(path) && Visits(path[src..]) == Visits(path)
      invariant forall i :: 0 <= i < src ==> path[i] == '/'
      decreases |path| - src
    {
      assert path[src..][1..] == path[src + 1..];
      src := src + 1;
    }
  }

  /** Copies the name that starts at `begin`. */
  method CopyName(path: string, begin: nat, name: array<char>) returns (src: nat)
    requires IsText(path) && begin <= |path|
    requires NameLength(path[begin..]) < name.Length && forall i :: 0 <= i < name.Length ==> name[i] == NUL
    modifies name
    ensures src == begin + NameLength(path[begin..]) && Holds(name, path[begin..src])
  {
    NameChars(path, begin);
    ghost var n := NameLength(path[begin..]);
    hide NameLength, IsText;
    var dest := 0;
    src := begin;
    while CharAt(path, src) != SEPARATOR && CharAt(path, src) != NUL
      invariant src == begin + dest && dest <= n
      invariant name[..dest] == path[begin..src]
      invariant forall i :: dest <= i < name.Length ==> name[i] == NUL
      decreases |path| - src
    {
      name[dest] := path[src];
      CopiedOne(name[..dest], path, begin, src);
      assert name[..dest + 1] == name[..dest] + [path[src]];
      dest, src := dest + 1, src + 1;
    }
    name[dest] := NUL;
  }

  lemma CopiedOne(copied: string, path: string, begin: nat, src: nat)
    requires begin <= src < |path| && copied == path[begin..src]
    ensures copied + [path[src]] == path[begin..src + 1]
  {
  }

  /** Where a name ends: at a separator or with the path, and at none of its characters. */
  lemma NameChars(path: string, begin: nat)
    requires IsText(path) && begin <= |path|
    ensures var n := NameLength(path[begin..]);
      && begin + n <= |path| && (begin + n < |path| ==> path[begin + n] == SEPARATOR)
      && (forall i :: begin <= i < begin + n ==> path[i] != SEPARATOR && path[i] != NUL)
      && IsText(path[begin..begin + n])
  {
    var (p, n) := (path[begin..], NameLength(path[begin..]));
    forall i | begin <= i < begin + n ensures path[i] != SEPARATOR && path[i] != NUL {
      assert path[i] in path && p[..n][i - begin] == path[i];
      assert p[..n][i - begin] in p[..n];
    }
  }

  /** Path `rest` is what lies behind the name in `path`: it is empty or begins with a separator. */
  ghost predicate IsBehind(path: string, name: string, rest: string) {
    && |rest| + |name| <= |path| && (rest != "" ==> rest[0] == '/')
    && path[|path| - |rest|..] == rest && path[|path| - |rest| - |name|..|path| - |rest|] == name
    && (forall i :: 0 <= i < |path| - |rest| - |name| ==> path[i] == '/')
  }

  lemma BehindName(path: string, begin: nat, src: nat)
    requires begin <= src <= |path| && (src < |path| ==> path[src] == '/')
    requires forall i :: 0 <= i < begin ==> path[i] == '/'
    ensures IsBehind(path, path[begin..src], path[src..])
  {
  }

  /** The first name goes to the buffer; what follows it is returned. */
  method Parse(path: string, name: array<char>) returns (rest: string)
    requires IsText(path) && |path| <= MAX_LEN && name.Length == MAX_NAME_LEN + 1 && |FirstName(path)| <= MAX_NAME_LEN
    modifies name
    ensures Holds(name, FirstName(path))
    ensures HasTail(path, rest)
    ensures IsVisit(path, rest)
    ensures IsBehind(path, FirstName(path), rest) && (path != "" ==> |rest| < |path|)
  {
    forall i | 0 <= i < name.Length {
      name[i] := NUL;
    }
    if path == "" {
      ParsedEmpty();
      return "";
    }
    var begin := SkipSeparators(path);
    hide *;
    NamesInside(path, begin);
    var src := CopyName(path, begin, name);
    ParsedNames(path, path[begin..], path[begin..src], path[src..]);
    BehindName(path, begin, src);
    rest := path[src..];
  }

  lemma ParsedEmpty()
    ensures FirstName("") == "" && IsVisit("", "") && IsBehind("", "", "")
  {
  }

  /** Where the name at `begin` lies. */
  lemma NamesInside(path: string, begin: nat)
    requires begin <= |path| && Names(path[begin..]) == Names(path) && (begin < |path| ==> path[begin] != SEPARATOR)
    ensures var (p, src) := (path[begin..], begin + NameLength(path[begin..]));
      && src <= |path| && IsParsed(p, path[begin..src], path[src..]) && (src < |path| ==> path[src] == '/')
      && NameLength(p) == |FirstName(path)|
  {
    hide Names, NameLength, FirstName, IsParsed;
    var p := path[begin..];
    FirstLength(path, p);
    Slices(path, begin, p, NameLength(p));
  }

  lemma Slices(path: string, begin: nat, p: string, n: nat)
    requires begin <= |path| && p == path[begin..] && n == NameLength(p)
    ensures begin + n <= |path| && IsParsed(p, path[begin..begin + n], path[begin + n..])
    ensures begin + n < |path| ==> path[begin + n] == '/'
  {
    hide NameLength;
  }

  lemma FirstLength(path: string, p: string)
    requires Names(p) == Names(path) && (p != "" ==> p[0] != SEPARATOR)
    ensures NameLength(p) == |FirstName(path)|
  {
  }

  /** The pairs of remaining path and name that a visitor gets. */
  function Visits(p: string): seq<(string, string)>
    decreases |p|
  {
    if p == "" then []
    else if p[0] == SEPARATOR then Visits(p[1..])
    else [(p[NameLength(p)..], p[..NameLength(p)])] + Visits(p[NameLength(p)..])
  }

  ghost predicate IsVisit(path: string, rest: string) {
    if Names(path) == [] then Visits(path) == [] else Visits(path) == [(rest, FirstName(path))] + Visits(rest)
  }

  lemma {:induction false} VisitsHaveNames(p: string)
    ensures |Visits(p)| == |Names(p)| && forall i :: 0 <= i < |Names(p)| ==> Visits(p)[i].1 == Names(p)[i]
    ensures forall i :: 0 <= i < |Names(p)| ==> VisitAt(p, Visits(p)[i], Names(p)[i + 1..])
    decreases |p|
  {
    if p != "" {
      var n := if p[0] == SEPARATOR then 1 else NameLength(p);
      var skipped := if p[0] == SEPARATOR then 0 else 1;
      var (visits, names) := (Visits(p), Names(p));
      VisitsHaveNames(p[n..]);
      assert |visits| == |names| && visits[skipped..] == Visits(p[n..]) && names[skipped..] == Names(p[n..]);
      assert skipped == 1 ==> VisitAt(p, visits[0], names[1..]);
      hide Visits, Names, NameLength, VisitAt;
      VisitsBehind(p, n, visits, names, skipped);
    }
  }

  /** The remaining path of a visit lies right behind its name, and has the names that are to be visited. */
  ghost predicate VisitAt(p: string, v: (string, string), names: seq<string>) {
    var (rest, w) := v;
    && |rest| + |w| <= |p| && (rest != "" ==> rest[0] == '/') && Names(rest) == names
    && p[|p| - |rest|..] == rest && p[|p| - |rest| - |w|..|p| - |rest|] == w
  }

  lemma VisitsBehind(p: string, n: nat, visits: seq<(string, string)>, names: seq<string>, m: nat)
    requires n <= |p| && m <= |names| == |visits|
    requires forall i :: 0 <= i < |names| - m ==> VisitAt(p[n..], visits[m..][i], names[m..][i + 1..])
    ensures forall i :: m <= i < |names| ==> VisitAt(p, visits[i], names[i + 1..])
  {
    forall i | m <= i < |names| ensures VisitAt(p, visits[i], names[i + 1..]) {
      assert visits[m..][i - m] == visits[i] && names[m..][i - m + 1..] == names[i + 1..];
      VisitBehind(p, n, visits[i], names[i + 1..]);
    }
  }

  lemma VisitBehind(p: string, n: nat, v: (string, string), names: seq<string>)
    requires n <= |p| && VisitAt(p[n..], v, names)
    ensures VisitAt(p, v, names)
  {
  }

  ghost predicate ShortNames(p: string) {
    forall w :: w in Names(p) ==> |w| <= MAX_NAME_LEN
  }

  /** Where a visit stands: `visited` are the visits so far, and the first name of `from` comes with `rest`. */
  ghost predicate AtVisit(path: string, visited: seq<(string, string)>, from: string, rest: string) {
    && IsText(rest) && |rest| <= MAX_LEN && GoodNames(from) && GoodNames(rest) && (from != "" ==> |rest| < |from|)
    && IsVisit(from, rest) && Visits(path) == visited + Visits(from)
  }

  /** The visitor accepts all of the visits. */
  ghost predicate AllAccepted(visitor: (string, string) -> bool, visits: seq<(string, string)>) {
    forall i :: 0 <= i < |visits| ==> visitor(visits[i].0, visits[i].1)
  }

  lemma AcceptedMore(visitor: (string, string) -> bool, visits: seq<(string, string)>, v: (string, string))
    requires AllAccepted(visitor, visits)
    ensures (visits + [v])[..|visits|] == visits
    ensures visitor(v.0, v.1) ==> AllAccepted(visitor, visits + [v])
  {
  }

  /** The first name of the remaining path goes to the buffer; without one the buffer is cleared. */
  method NextName(path: string, name: array<char>) returns (rest: string)
    requires IsText(path) && |path| <= MAX_LEN && GoodNames(path) && name.Length == MAX_NAME_LEN + 1
    modifies name
    ensures Holds(name, FirstName(path)) && IsText(rest) && |rest| <= MAX_LEN && GoodNames(rest)
    ensures (path != "" ==> |rest| < |path|) && IsVisit(path, rest)
  {
    GoodFirst(path);
    hide Names, Visits, GoodNames, IsVisit, FirstName;
    if path != "" {
      rest := Parse(path, name);
      GoodTail(path, rest);
    } else {
      forall i | 0 <= i < name.Length {
        name[i] := NUL;
      }
      EmptyVisit();
      rest := path;
    }
  }

  /** Shows the names in turn to a visitor, until it refuses one. */
  method Visit(path: string, visitor: (string, string) -> bool) returns (all: bool, visited: seq<(string, string)>)
    requires IsText(path) && |path| <= MAX_LEN && ShortNames(path)
    ensures visited <= Visits(path)
    ensures all ==> visited == Visits(path) && AllAccepted(visitor, visited)
    ensures !all ==> visited != [] && !visitor(visited[|visited| - 1].0, visited[|visited| - 1].1)
    ensures !all ==> AllAccepted(visitor, visited[..|visited| - 1])
  {
    NamesAreNames(path);
    assert GoodNames(path);
    assert AllAccepted(visitor, []);
    hide Names, Visits, GoodNames, IsVisit, FirstName, Holds, AtVisit, AllAccepted;
    GoodFirst(path);
    var name := new char[MAX_NAME_LEN + 1];
    visited := [];
    ghost var from := path;
    var subPath := Parse(path, name);
    GoodTail(path, subPath);
    VisitStarts(path, subPath);
    HeldFirst(name, FirstName(from));
    while name[0] != NUL
      invariant Holds(name, FirstName(from)) && (name[0] == NUL <==> FirstName(from) == "")
      invariant AtVisit(path, visited, from, subPath)
      invariant AllAccepted(visitor, visited)
      decreases |from|
    {
      ghost var w := FirstName(from);
      var n := StrLen(name, w);
      VisitOne(path, visited, from, subPath);
      AcceptedMore(visitor, visited, (subPath, w));
      visited := visited + [(subPath, name[..n])];
      if !visitor(subPath, name[..n]) {
        return false, visited;
      }
      from := subPath;
      subPath := NextName(subPath, name);
      VisitGoesOn(path, visited, from, subPath);
      HeldFirst(name, FirstName(from));
    }
    NoMore(path, visited, from, subPath);
    all := true;
  }

  lemma VisitStarts(path: string, rest: string)
    requires IsText(rest) && |rest| <= MAX_LEN && GoodNames(path) && GoodNames(rest)
    requires (path != "" ==> |rest| < |path|) && IsVisit(path, rest)
    ensures AtVisit(path, [], path, rest)
  {
    hide IsVisit, Visits, GoodNames;
  }

  /** One visit further. */
  lemma VisitOne(path: string, visited: seq<(string, string)>, from: string, rest: string)
    requires AtVisit(path, visited, from, rest) && FirstName(from) != ""
    ensures Visits(path) == (visited + [(rest, FirstName(from))]) + Visits(rest)
    ensures visited + [(rest, FirstName(from))] <= Visits(path)
    ensures IsText(rest) && |rest| <= MAX_LEN && GoodNames(rest) && |rest| < |from|
  {
    hide Names, Visits, GoodNames;
    EmptyVisit();
    assert Names(from) != [] && from != "";
    VisitsRegrouped(Visits(path), visited, (rest, FirstName(from)), Visits(rest));
  }

  lemma VisitsRegrouped(all: seq<(string, string)>, visited: seq<(string, string)>, v: (string, string),
                        more: seq<(string, string)>)
    requires all == visited + ([v] + more)
    ensures all == (visited + [v]) + more && visited + [v] <= all
  {
  }

  lemma VisitGoesOn(path: string, visited: seq<(string, string)>, from: string, rest: string)
    requires Visits(path) == visited + Visits(from) && GoodNames(from) && GoodNames(rest)
    requires IsText(rest) && |rest| <= MAX_LEN && (from != "" ==> |rest| < |from|) && IsVisit(from, rest)
    ensures AtVisit(path, visited, from, rest)
  {
    hide IsVisit, Visits, GoodNames;
  }

  lemma HeldFirst(name: array<char>, w: string)
    requires Holds(name, w)
    ensures name[0] == NUL <==> w == ""
  {
    assert w != "" ==> name[..|w|][0] == w[0];
  }

  ghost predicate GoodNames(p: string) {
    forall w :: w in Names(p) ==> |w| <= MAX_NAME_LEN && IsName(w)
  }

  lemma GoodFirst(p: string)
    requires GoodNames(p)
    ensures |FirstName(p)| <= MAX_NAME_LEN && (FirstName(p) != "" ==> p != "")
  {
  }

  lemma GoodTail(p: string, rest: string)
    requires GoodNames(p) && HasTail(p, rest)
    ensures GoodNames(rest)
  {
  }

  lemma EmptyVisit()
    ensures IsVisit("", "") && FirstName("") == ""
  {
  }

  lemma NoMore(path: string, visited: seq<(string, string)>, from: string, rest: string)
    requires AtVisit(path, visited, from, rest) && FirstName(from) == ""
    ensures Visits(path) == visited
  {
    VisitsHaveNames(from);
    assert Names(from) != [] ==> FirstName(from) in Names(from);
  }

  method GetDepth(path: string) returns (depth: nat)
    requires IsText(path) && |path| <= MAX_LEN && ShortNames(path)
    ensures depth == |Names(path)|
  {
    var all, visited := Visit(path, (s, w) => true);
    VisitsHaveNames(path);
    depth := |visited|;
  }

  lemma WithNamesGrows(p: string, names: seq<string>, i: nat)
    requires i <= |names|
    ensures |WithNames(p, names[..i])| <= |WithNames(p, names)|
  {
    if i < |names| {
      WithNamesGrows(p, names[..|names| - 1], i);
      assert names[..|names| - 1][..i] == names[..i];
    } else {
      assert names[..i] == names;
    }
  }

  lemma NamesAreText(p: string)
    requires IsText(p)
    ensures forall w :: w in Names(p) ==> IsText(w)
    decreases |p|
  {
    if p == "" {
    } else if p[0] == SEPARATOR {
      NamesAreText(p[1..]);
    } else {
      NamesAreText(p[NameLength(p)..]);
    }
  }

  class Path {
    const buf: array<char>
    ghost var text: string

    ghost predicate Valid()
      reads this, buf
    {
      buf.Length == MAX_LEN + 1 && Holds(buf, text)
    }

    /** A path of nothing but zeros, joined with `path`. */
    constructor (path: string)
      requires IsText(path) && |path| <= MAX_LEN && ShortNames(path) && |Joined("", path)| <= MAX_LEN
      ensures Valid() && fresh(buf) && text == Joined("", path)
      ensures IsJoin("", path, text)
    {
      buf := new char[MAX_LEN + 1](_ => NUL);
      text := "";
      new;
      Join(path);
    }

    method GetSize() returns (n: nat)
      requires Valid()
      ensures n == |text|
    {
      n := StrLen(buf, text);
    }

    method Put(n: nat, c: char)
      requires Valid() && n == |text| < MAX_LEN && c != NUL
      modifies this`text, buf
      ensures Valid() && text == old(text) + [c]
    {
      buf[n] := c;
      text := text + [c];
      assert buf[..n + 1] == text;
    }

    /** One name of a join: a separator where one is needed, then the name. */
    method Append(name: string)
      requires Valid() && IsText(name) && |WithName(text, name)| <= MAX_LEN
      modifies this`text, buf
      ensures Valid() && text == WithName(old(text), name)
      ensures var was := old(text);
        text == if was != "" && was[|was| - 1] != '/' then was + "/" + name else was + name
    {
      var len := StrLen(buf, text);
      if len > 0 && buf[len - 1] != SEPARATOR {
        assert buf[..len][len - 1] == text[len - 1];
        Put(len, SEPARATOR);
        len := len + 1;
      } else {
        assert len > 0 ==> buf[..len][len - 1] == text[len - 1];
      }
      ghost var from := text;
      var i := 0;
      while i != |name|
        invariant i <= |name| && Valid() && text == from + name[..i]
      {
        assert name[..i + 1] == name[..i] + [name[i]];
        Put(len + i, name[i]);
        i := i + 1;
      }
      assert name[..i] == name;
    }

    /** Appends the names of `child`, and a separator where it is a directory. */
    method Join(child: string)
      requires Valid() && IsText(child) && |child| <= MAX_LEN && ShortNames(child) && |Joined(text, child)| <= MAX_LEN
      modifies this`text, buf
      ensures Valid() && text == Joined(old(text), child)
      ensures IsJoin(old(text), child, text)
    {
      JoinedIsJoin(text, child);
      hide Names, Visits, NameLength, WithName, IsText, IsJoin;
      NamesAreText(child);
      VisitsHaveNames(child);
      ghost var names, was := Names(child), text;
      WithNamesGrows(Rooted(text, child), names, 0);
      var size := StrLen(buf, text);
      if size == 0 && IsAbsolute(child) {
        SeparatorIsText();
        Put(0, SEPARATOR);
      }
      assert text == Rooted(was, child);
      var all, visited := Visit(child, (s, w) => true);
      assert |visited| == |names| && forall i :: 0 <= i < |names| ==> visited[i].1 == names[i] && names[i] in names;
      hide IsDir, IsAbsolute, Rooted;
      AppendAll(visited, names);
      if IsDir(child) {
        size := StrLen(buf, text);
        Put(size, SEPARATOR);
      }
    }

    /** What the visits of a join do to the path. */
    method AppendAll(visited: seq<(string, string)>, ghost names: seq<string>)
      requires Valid() && |visited| == |names|
      requires forall i :: 0 <= i < |names| ==> visited[i].1 == names[i] && IsText(names[i])
      requires |WithNames(text, names)| <= MAX_LEN
      modifies this`text, buf
      ensures Valid() && text == WithNames(old(text), names)
    {
      hide IsText, WithName;
      ghost var root := text;
      var i := 0;
      while i != |visited|
        invariant i <= |visited| && Valid() && text == WithNames(root, names[..i])
      {
        WithNamesGrows(root, names, i + 1);
        assert names[..i + 1][..i] == names[..i];
        Append(visited[i].1);
        i := i + 1;
      }
      assert names[..i] == names;
    }
  }

  lemma SeparatorIsText()
    ensures IsText([SEPARATOR])
  {
  }
}
