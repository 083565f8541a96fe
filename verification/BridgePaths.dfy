/**
 Path strings of the SSH bridge's virtual filesystem: joining, `posixpath.dirname` and
 `posixpath.normpath` as the bridge uses them, and the canonical paths they produce.
 */
module BridgePaths {
  import opened MfsPaths
  import opened Strings

  /** A component that normalisation keeps as it is. */
  predicate ValidName(n: string) { n != "" && '/' !in n && n != "." && n != ".." }

  function JoinPath(base: string, child: string): string
  {
    if base == "/" then "/" + child else base + "/" + child
  }

  /** The root, or valid names each preceded by one slash. */
  predicate Canonical(p: string)
    decreases |p|
  {
    p == "/" ||
    (var k := LastSlash(p);
     k < |p| && p[k] == '/' && ValidName(p[k + 1..]) && (k == 0 || (p[..k] != "/" && Canonical(p[..k]))))
  }

  function BaseName(p: string): string
  {
    var k := LastSlash(p);
    if k < |p| && p[k] == '/' then p[k + 1..] else p
  }

  function StripSlashes(s: string): (r: string)
    ensures r <= s
    ensures forall i :: 0 <= i < |s| && s[i] != '/' ==> i < |r|
  {
    if s != "" && s[|s| - 1] == '/' then StripSlashes(s[..|s| - 1]) else s
  }

  predicate AllSlashes(s: string) { forall i :: 0 <= i < |s| ==> s[i] == '/' }

  /** `posixpath.dirname`. */
  function DirName(p: string): string
  {
    var k := LastSlash(p);
    var head := if k < |p| && p[k] == '/' then p[..k + 1] else "";
    if AllSlashes(head) then head else StripSlashes(head)
  }

  function ParentDir(p: string): string
  {
    if p == "/" || DirName(p) == "" then "/" else DirName(p)
  }

  /** `s.split("/")`. */
  function Split(s: string): seq<string> { SplitOn(s, '/') }

  /** One component applied to a normalised absolute path. */
  function Enter(base: string, n: string): string
  {
    if n == "" || n == "." then base
    else if n == ".." then ParentDir(base)
    else JoinPath(base, n)
  }

  function Resolve(base: string, parts: seq<string>): string
    decreases |parts|
  {
    if parts == [] then base else Resolve(Enter(base, parts[0]), parts[1..])
  }

  predicate DoubleSlash(p: string) { |p| >= 2 && p[0] == '/' && p[1] == '/' }

  predicate TwoSlashes(p: string) { DoubleSlash(p) && !(|p| >= 3 && p[2] == '/') }

  /** `posixpath.normpath` of an absolute path: exactly two leading slashes are kept, any other number becomes one. */
  function NormPath(t: string): string
    requires t != "" && t[0] == '/'
  {
    var r := Resolve("/", Split(t));
    if TwoSlashes(t) then "/" + r else r
  }

  function Absolute(cwd: string, target: string): (t: string)
    requires cwd != "" && cwd[0] == '/'
    ensures t != "" && t[0] == '/'
  {
    var t := if target == "" then "." else target;
    if t[0] == '/' then t else if cwd != "/" then cwd + "/" + t else "/" + t
  }

  function Normalize(cwd: string, target: string): string
    requires cwd != "" && cwd[0] == '/'
  {
    NormPath(Absolute(cwd, target))
  }

  /** Strictly beneath, or the path itself. */
  predicate Under(q: string, d: string) { q == d || Beneath(q, d) }

  // ---------- Canonical paths ----------

  lemma LastSlashJoin(a: string, n: string)
    requires '/' !in n
    ensures LastSlash(a + "/" + n) == |a|
  {
    var p := a + "/" + n;
    assert p[|a|] == '/' && forall i :: |a| < i < |p| ==> p[i] != '/';
  }

  lemma {:induction false} CanonicalShape(p: string)
    requires Canonical(p)
    ensures p != "" && p[0] == '/' && !DoubleSlash(p)
    ensures p != "/" ==> p[|p| - 1] != '/'
    decreases |p|
  {
    if p != "/" {
      var k := LastSlash(p);
      assert p[|p| - 1] == p[k + 1..][|p| - k - 2];
      if k == 0 {
        assert p[1] == p[1..][0];
      } else {
        CanonicalShape(p[..k]);
      }
    }
  }

  /** Joining a name is undone by the split at the last slash. */
  lemma JoinParts(base: string, n: string)
    requires base != "" && n != "" && '/' !in n
    ensures var p := JoinPath(base, n); Parent(p) == base && BaseName(p) == n && p != "/" && |p| > |base|
  {
    if base == "/" {
      assert "/" + n == "" + "/" + n;
      JoinCut("", n);
    } else {
      JoinCut(base, n);
    }
  }

  lemma JoinCut(a: string, n: string)
    requires '/' !in n
    ensures var p := a + "/" + n; LastSlash(p) == |a| && p[|a|] == '/' && p[..|a|] == a && p[|a| + 1..] == n
  {
    LastSlashJoin(a, n);
  }

  lemma JoinCanonical(base: string, n: string)
    requires Canonical(base) && ValidName(n)
    ensures var p := JoinPath(base, n);
      Canonical(p) && Parent(p) == base && BaseName(p) == n && p != "/" && |p| > |base|
  {
    CanonicalShape(base);
    JoinParts(base, n);
  }

  lemma StripOne(s: string)
    requires s != "" && s[|s| - 1] != '/'
    ensures StripSlashes(s + "/") == s
  {
  }

  lemma DirNameJoin(a: string, n: string)
    requires '/' !in n && (a == "" || a[|a| - 1] != '/')
    ensures DirName(a + "/" + n) == if a == "" then "/" else a
  {
    var p := a + "/" + n;
    LastSlashJoin(a, n);
    var head := p[..|a| + 1];
    assert head == a + "/";
    if a != "" {
      StripOne(a);
      assert head[|a| - 1] != '/';
    }
  }

  /** The bridge's parent is the split at the last slash. */
  lemma CanonicalDirName(p: string)
    requires Canonical(p) && p != "/"
    ensures ParentDir(p) == Parent(p)
  {
    var k := LastSlash(p);
    if k > 0 { CanonicalShape(p[..k]); }
    assert p == p[..k] + "/" + p[k + 1..];
    DirNameJoin(p[..k], p[k + 1..]);
  }

  /** Splitting at the last slash is the inverse of joining. */
  lemma CanonicalParent(p: string)
    requires Canonical(p) && p != "/"
    ensures ParentDir(p) == Parent(p) && Canonical(Parent(p)) && |Parent(p)| < |p|
    ensures ValidName(BaseName(p)) && p == JoinPath(Parent(p), BaseName(p))
  {
    CanonicalDirName(p);
    CutAt(p, LastSlash(p));
  }

  lemma CutAt(p: string, k: nat)
    requires k < |p| && p[k] == '/'
    ensures p == p[..k] + "/" + p[k + 1..]
    ensures k == 0 ==> p == "/" + p[1..]
  {
  }

  lemma DoubleParent(p: string)
    requires DoubleSlash(p)
    ensures DoubleSlash(ParentDir(p))
  {
  }

  // ---------- Normalisation ----------

  lemma SplitJoin(p: string, q: string)
    ensures Split(p + "/" + q) == Split(p) + Split(q)
  {
    SplitOnConcat(p, '/', q);
  }

  predicate Slashless(parts: seq<string>) { forall i :: 0 <= i < |parts| ==> '/' !in parts[i] }

  lemma SplitSlashless(s: string)
    ensures Slashless(Split(s))
  {
    SplitOnPieces(s, '/');
  }

  lemma {:induction false} ResolveConcat(base: string, a: seq<string>, b: seq<string>)
    ensures Resolve(base, a + b) == Resolve(Resolve(base, a), b)
    decreases |a|
  {
    if a == [] {
      assert a + b == b;
    } else {
      assert (a + b)[1..] == a[1..] + b;
      ResolveConcat(Enter(base, a[0]), a[1..], b);
    }
  }

  lemma {:induction false} ResolveCanonical(base: string, parts: seq<string>)
    requires Canonical(base) && Slashless(parts)
    ensures Canonical(Resolve(base, parts))
    decreases |parts|
  {
    if parts != [] {
      var n := parts[0];
      if n == ".." && base != "/" {
        CanonicalParent(base);
      } else if ValidName(n) {
        JoinCanonical(base, n);
      }
      ResolveCanonical(Enter(base, n), parts[1..]);
    }
  }

  lemma ResolveName(base: string, n: string)
    requires ValidName(n)
    ensures Split(n) == [n] && Resolve(base, [n]) == JoinPath(base, n)
  {
    SplitOnPiece(n, '/');
    assert Resolve(base, [n]) == Resolve(Enter(base, n), []);
  }

  lemma ResolveRoot()
    ensures Resolve("/", Split("/")) == "/" && Resolve("/", Split("")) == "/"
  {
    assert "/" == "" + "/" + "";
    SplitJoin("", "");
    SplitOnPiece("", '/');
    ResolveConcat("/", [""], [""]);
    assert Resolve("/", [""]) == Resolve(Enter("/", ""), []);
  }

  /** Resolving the components of a canonical path from the root rebuilds it. */
  lemma {:induction false} ResolveIdentity(p: string)
    requires Canonical(p)
    ensures Resolve("/", Split(p)) == p
    decreases |p|
  {
    hide Canonical, Parent, BaseName, ParentDir, Resolve, Split;
    ResolveRoot();
    if p != "/" {
      CanonicalParent(p);
      var d, n := Parent(p), BaseName(p);
      ResolveName(d, n);
      if d == "/" {
        assert p == "" + "/" + n;
        SplitJoin("", n);
        ResolveConcat("/", Split(""), [n]);
      } else {
        SplitJoin(d, n);
        ResolveIdentity(d);
        ResolveConcat("/", Split(d), [n]);
      }
    }
  }

  /** Normalisation leaves canonical paths alone, from whatever directory. */
  lemma NormalizeIdentity(cwd: string, p: string)
    requires cwd != "" && cwd[0] == '/' && Canonical(p)
    ensures Normalize(cwd, p) == p
  {
    CanonicalShape(p);
    ResolveIdentity(p);
  }

  /** A normalised path is canonical, except that exactly two leading slashes survive in front of a canonical path. */
  lemma NormalizeRange(cwd: string, t: string)
    requires cwd != "" && cwd[0] == '/'
    ensures var r := Normalize(cwd, t);
      if TwoSlashes(Absolute(cwd, t)) then DoubleSlash(r) && r[0] == '/' && Canonical(r[1..]) else Canonical(r)
  {
    var s := Absolute(cwd, t);
    SplitSlashless(s);
    ResolveCanonical("/", Split(s));
    var r := Resolve("/", Split(s));
    CanonicalShape(r);
    assert ("/" + r)[1..] == r;
  }

  /** A relative path is resolved component by component from the directory. */
  lemma NormalizeUnder(dest: string, rel: string)
    requires Canonical(dest) && rel != "" && rel[0] != '/'
    ensures dest != "" && dest[0] == '/' && Normalize(dest, rel) == Resolve(dest, Split(rel))
  {
    CanonicalShape(dest);
    if dest == "/" {
      assert "/" + rel == "" + "/" + rel;
      SplitJoin("", rel);
      ResolveConcat("/", [""], Split(rel));
      assert Resolve("/", [""]) == Resolve("/", []);
    } else {
      SplitJoin(dest, rel);
      ResolveIdentity(dest);
      ResolveConcat("/", Split(dest), Split(rel));
    }
  }

  // ---------- What the components of a relative path do ----------

  predicate Relative(r: string) { r == "" || r[0] != '/' }

  function Up(d: string): string { if d == "/" then "/" else Parent(d) }

  lemma UpCanonical(d: string)
    requires Canonical(d)
    ensures Canonical(Up(d)) && Enter(d, "..") == Up(d)
  {
    if d == "/" {
      assert ParentDir(d) == "/";
    } else {
      CanonicalParent(d);
    }
  }

  lemma ResolveOne(base: string, n: string)
    requires '/' !in n
    ensures Resolve(base, Split(n)) == Enter(base, n)
  {
    SplitOnPiece(n, '/');
    assert Resolve(base, [n]) == Resolve(Enter(base, n), []);
  }

  /** The empty path is the directory itself. */
  lemma NormalizeRelative(d: string, r: string)
    requires Canonical(d) && Relative(r)
    ensures d != "" && d[0] == '/' && Normalize(d, r) == Resolve(d, Split(r))
  {
    if r == "" {
      NormalizeUnder(d, ".");
      ResolveOne(d, ".");
      ResolveOne(d, "");
    } else {
      NormalizeUnder(d, r);
    }
  }

  /** A first component moves to its directory, from which the rest is resolved. */
  lemma NormalizeFirst(d: string, n: string, r: string)
    requires Canonical(d) && n != "" && '/' !in n && Relative(r) && Canonical(Enter(d, n))
    ensures d != "" && d[0] == '/' && Enter(d, n) != "" && Enter(d, n)[0] == '/'
    ensures Normalize(d, n) == Enter(d, n) && Normalize(d, n + "/" + r) == Normalize(Enter(d, n), r)
  {
    hide Normalize, Enter, Canonical;
    NormalizeRelative(d, n);
    NormalizeRelative(d, n + "/" + r);
    NormalizeRelative(Enter(d, n), r);
    ResolveOne(d, n);
    SplitJoin(n, r);
    ResolveConcat(d, Split(n), Split(r));
  }

  /** A name leads into the entry of that name. */
  lemma NormalizeName(d: string, n: string, r: string)
    requires Canonical(d) && ValidName(n) && Relative(r)
    ensures d != "" && d[0] == '/' && JoinPath(d, n)[0] == '/'
    ensures Normalize(d, n) == JoinPath(d, n) && Normalize(d, n + "/" + r) == Normalize(JoinPath(d, n), r)
  {
    JoinCanonical(d, n);
    NormalizeFirst(d, n, r);
  }

  /** Two dots lead to the parent, and from the root to the root. */
  lemma NormalizeParent(d: string, r: string)
    requires Canonical(d) && Relative(r)
    ensures d != "" && d[0] == '/' && Normalize("/", "..") == "/" && Normalize("/", "../" + r) == Normalize("/", r)
    ensures d != "/" ==> Parent(d) != "" && Parent(d)[0] == '/' && Canonical(Parent(d))
    ensures d != "/" ==> Normalize(d, "..") == Parent(d) && Normalize(d, "../" + r) == Normalize(Parent(d), r)
  {
    hide Normalize, Canonical, Parent;
    assert Canonical("/") by { RootCanonical(); }
    UpCanonical(d);
    UpCanonical("/");
    NormalizeFirst(d, "..", r);
    NormalizeFirst("/", "..", r);
    assert ".." + "/" + r == "../" + r;
  }

  lemma RootCanonical()
    ensures Canonical("/")
  {
  }

  /** One dot, and no path at all, stay. */
  lemma NormalizeDot(d: string, r: string)
    requires Canonical(d) && Relative(r)
    ensures d != "" && d[0] == '/'
    ensures Normalize(d, "") == Normalize(d, ".") == d && Normalize(d, "./" + r) == Normalize(d, r)
  {
    hide Canonical;
    NormalizeFirst(d, ".", r);
    assert "." + "/" + r == "./" + r;
  }

  /** Into a directory and back out of it is nothing, whether or not the directory exists. */
  lemma NormalizeBack(d: string, n: string, r: string)
    requires Canonical(d) && ValidName(n) && Relative(r)
    ensures d != "" && d[0] == '/' && Normalize(d, n + "/../" + r) == Normalize(d, r)
  {
    hide Normalize, Canonical, Parent;
    var p := JoinPath(d, n);
    assert n + "/../" + r == n + "/" + ("../" + r);
    JoinCanonical(d, n);
    NormalizeName(d, n, "../" + r);
    NormalizeParent(p, r);
    NormalizeParent(d, r);
  }

  /** Repeated slashes count once. */
  lemma NormalizeSlashes(d: string, a: string, r: string)
    requires Canonical(d) && a != "" && Relative(a)
    ensures d != "" && d[0] == '/' && Normalize(d, a + "//" + r) == Normalize(d, a + "/" + r)
  {
    hide Canonical;
    NormalizeUnder(d, a + "//" + r);
    NormalizeUnder(d, a + "/" + r);
    assert a + "//" + r == a + "/" + ("" + "/" + r);
    SplitJoin(a, "" + "/" + r);
    SplitJoin("", r);
    SplitJoin(a, r);
    ResolveConcat(d, Split(a), Split("") + Split(r));
    ResolveConcat(d, Split(a), Split(r));
    var e := Resolve(d, Split(a));
    ResolveConcat(e, Split(""), Split(r));
    ResolveOne(e, "");
  }

  /** A path with one leading slash does not depend on the directory. */
  lemma NormalizeRooted(d: string, r: string)
    requires Canonical(d) && r != "" && Relative(r)
    ensures d != "" && d[0] == '/' && Normalize(d, "/" + r) == Normalize("/", r)
  {
    CanonicalShape(d);
  }

  lemma ParentBeneath(p: string, d: string)
    requires Canonical(p) && Canonical(d) && d != "/" && Beneath(p, d)
    ensures p != "/" && (Parent(p) == d || Beneath(Parent(p), d))
  {
  }
}
