/**
 The SSH bridge's virtual filesystem: a set of directory paths and a dictionary of files,
 changed in place. `View` joins them into one map; the invariant says that the map is a tree.
 */
module BridgeFs {
  import opened Machine
  import opened MfsPaths
  import opened BridgePaths

  datatype Node = Dir | File(data: string)

  type Fs = map<string, Node>

  predicate IsDir(v: Fs, p: string) { p in v && v[p].Dir? }

  /** Rooted, canonical paths only, and every other path lies in a directory. */
  predicate WellFormed(v: Fs)
  {
    IsDir(v, "/") && forall p {:trigger Placed(v, p)} :: p in v ==> Placed(v, p)
  }

  predicate Placed(v: Fs, p: string) { Canonical(p) && (p != "/" ==> IsDir(v, Parent(p))) }

  // ---------- Listing a directory ----------

  /** Code-point order on strings, as `list.sort` uses it. */
  predicate LexLe(a: string, b: string)
  {
    a == "" || (b != "" && (a[0] < b[0] || (a[0] == b[0] && LexLe(a[1..], b[1..]))))
  }

  lemma {:induction false} LexTotal(a: string, b: string)
    ensures LexLe(a, b) || LexLe(b, a)
    ensures LexLe(a, b) && LexLe(b, a) ==> a == b
  {
    if a != "" && b != "" && a[0] == b[0] {
      LexTotal(a[1..], b[1..]);
      assert a == [a[0]] + a[1..] && b == [b[0]] + b[1..];
    }
  }

  lemma {:induction false} LexTransitive(a: string, b: string, c: string)
    requires LexLe(a, b) && LexLe(b, c)
    ensures LexLe(a, c)
  {
    if a != "" && a[0] == b[0] && b[0] == c[0] {
      LexTransitive(a[1..], b[1..], c[1..]);
    }
  }

  predicate LeastOf(m: string, s: set<string>) { m in s && forall x :: x in s ==> LexLe(m, x) }

  lemma {:induction false} LeastExists(s: set<string>)
    requires s != {}
    ensures exists m :: LeastOf(m, s)
    decreases |s|
  {
    var x :| x in s;
    LexTotal(x, x);
    var rest := s - {x};
    if rest == {} {
      assert s == {x};
      assert LeastOf(x, s);
    } else {
      LeastExists(rest);
      var r :| LeastOf(r, rest);
      LexTotal(x, r);
      var m := if LexLe(x, r) then x else r;
      forall y | y in s ensures LexLe(m, y) {
        if y != x && m == x { LexTransitive(x, r, y); }
      }
      assert LeastOf(m, s);
    }
  }

  /** A set of names in code-point order. */
  ghost function Sorted(s: set<string>): (names: seq<string>)
    ensures forall n :: n in names <==> n in s
    decreases |s|
  {
    if s == {} then []
    else
      LeastExists(s);
      var m :| LeastOf(m, s);
      [m] + Sorted(s - {m})
  }

  lemma SortedFirst(s: set<string>, m: string)
    requires LeastOf(m, s)
    ensures Sorted(s) == [m] + Sorted(s - {m})
  {
    LeastExists(s);
    var k :| LeastOf(k, s) && Sorted(s) == [k] + Sorted(s - {k});
    LexTotal(k, m);
  }

  function Insert(names: seq<string>, x: string): seq<string>
  {
    if names == [] || LexLe(x, names[0]) then [x] + names else [names[0]] + Insert(names[1..], x)
  }

  /** Inserting into the sorted names of a set sorts the larger set. */
  lemma {:induction false} InsertSorted(s: set<string>, x: string)
    requires x !in s
    ensures Insert(Sorted(s), x) == Sorted(s + {x})
    decreases |s|
  {
    if s == {} {
      LexTotal(x, x);
      SortedFirst(s + {x}, x);
      assert s + {x} - {x} == s;
    } else {
      LeastExists(s);
      var m :| LeastOf(m, s);
      SortedFirst(s, m);
      InsertLeast(s, x, m);
      if !LexLe(x, m) { InsertSorted(s - {m}, x); }
    }
  }

  lemma InsertLeast(s: set<string>, x: string, m: string)
    requires x !in s && LeastOf(m, s)
    ensures LexLe(x, m) ==> Sorted(s + {x}) == [x] + Sorted(s)
    ensures !LexLe(x, m) ==> Sorted(s + {x}) == [m] + Sorted((s - {m}) + {x})
  {
    LexTotal(x, x);
    LexTotal(x, m);
    if LexLe(x, m) {
      forall y | y in s ensures LexLe(x, y) { LexTransitive(x, m, y); }
      SortedFirst(s + {x}, x);
      assert s + {x} - {x} == s;
    } else {
      SortedFirst(s + {x}, m);
      assert s + {x} - {m} == (s - {m}) + {x};
    }
  }

  function Prefix(path: string): string { if path == "/" then "/" else path + "/" }

  /** `p` is directly inside `path`, found by its prefix. */
  predicate ChildPath(path: string, p: string)
  {
    p != path && Prefix(path) <= p && p[|Prefix(path)|..] != "" && '/' !in p[|Prefix(path)|..]
  }

  function ChildNames(ps: set<string>, path: string): (names: set<string>)
    ensures forall n :: n in names ==> JoinPath(path, n) in ps && n != "" && '/' !in n
    ensures forall n :: n != "" && '/' !in n && JoinPath(path, n) in ps ==> n in names
  {
    var pre := Prefix(path);
    var names := set p | p in ps && ChildPath(path, p) :: p[|pre|..];
    assert forall p :: p in ps && ChildPath(path, p) ==> p == JoinPath(path, p[|pre|..]);
    assert forall n :: n != "" && '/' !in n ==> ChildPath(path, JoinPath(path, n)) && JoinPath(path, n)[|pre|..] == n;
    names
  }

  ghost function Listing(v: Fs, path: string): seq<string> { Sorted(ChildNames(v.Keys, path)) }

  // ---------- The operations on values ----------

  predicate CanMkdir(v: Fs, p: string) { p !in v && IsDir(v, ParentDir(p)) }

  predicate CanWrite(v: Fs, p: string) { (IsDir(v, ParentDir(p)) || p == "/") && !IsDir(v, p) }

  /** In a tree, a path that can be made or written is canonical: two leading slashes have no directory. */
  lemma NewPath(v: Fs, target: string)
    requires WellFormed(v)
    ensures var p := Normalize("/", target);
      CanMkdir(v, p) || CanWrite(v, p) ==> Canonical(p) && p != "/" && IsDir(v, Parent(p))
  {
    var p := Normalize("/", target);
    NormalizeRange("/", target);
    if DoubleSlash(p) {
      DoubleParent(p);
      if ParentDir(p) in v {
        assert Placed(v, ParentDir(p));
        CanonicalShape(ParentDir(p));
      }
      if Canonical(p) { CanonicalShape(p); }
    } else if p != "/" {
      CanonicalParent(p);
    }
  }

  /** At a canonical path: new in a directory, new or a file in a directory, and moved to a new path in a directory. */
  lemma CanExact(v: Fs, p: string, src: string)
    requires WellFormed(v) && Canonical(p)
    ensures CanMkdir(v, p) <==> p != "/" && p !in v && Parent(p) in v && v[Parent(p)].Dir?
    ensures CanWrite(v, p) <==> p != "/" && (p in v ==> v[p].File?) && Parent(p) in v && v[Parent(p)].Dir?
    ensures CanMove(v, src, p) <==> src in v && p != "/" && p !in v && Parent(p) in v && v[Parent(p)].Dir?
  {
    if p != "/" {
      CanonicalParent(p);
    }
  }

  lemma AddKeeps(v: Fs, p: string, n: Node)
    requires WellFormed(v) && Canonical(p) && p != "/" && IsDir(v, Parent(p)) && (p in v ==> v[p].File? && n.File?)
    ensures WellFormed(v[p := n])
  {
    var w := v[p := n];
    forall q | q in w ensures Placed(w, q) {
      if q in v { assert Placed(v, q); }
    }
  }

  /** Removing a file, or a directory that lists as empty, leaves a tree. */
  lemma RemoveKeeps(v: Fs, p: string)
    requires WellFormed(v) && p in v && p != "/" && (v[p].Dir? ==> ChildNames(v.Keys, p) == {})
    ensures WellFormed(v - {p})
  {
    forall q | q in v - {p} ensures Placed(v - {p}, q) {
      assert Placed(v, q);
      if q != "/" {
        CanonicalParent(q);
        assert Parent(q) == p ==> BaseName(q) in ChildNames(v.Keys, p);
      }
    }
  }

  predicate CanMove(v: Fs, src: string, dst: string) { src in v && dst !in v && IsDir(v, ParentDir(dst)) }

  function Moved(v: Fs, src: string, dst: string): Fs
    requires src in v
  {
    (v - {src})[dst := v[src]]
  }

  lemma ChildParent(v: Fs, d: string, n: string)
    requires WellFormed(v) && Canonical(d) && n in ChildNames(v.Keys, d)
    ensures var p := JoinPath(d, n); p in v && p != "/" && Parent(p) == d && IsDir(v, d) && ValidName(n)
  {
    var p := JoinPath(d, n);
    assert Placed(v, p);
    JoinParts(d, n);
    CanonicalParent(p);
  }

  /** A path beneath the root has an ancestor directly in the root. */
  lemma {:induction false} RootHasChild(v: Fs, p: string)
    requires WellFormed(v) && p in v && p != "/"
    ensures ChildNames(v.Keys, "/") != {}
    decreases |p|
  {
    assert Placed(v, p);
    CanonicalParent(p);
    if Parent(p) == "/" {
      assert BaseName(p) in ChildNames(v.Keys, "/");
    } else {
      RootHasChild(v, Parent(p));
    }
  }

  lemma MoveKeeps(v: Fs, src: string, dst: string)
    requires WellFormed(v) && Canonical(dst) && dst !in v && src in v && src != "/" && IsDir(v, Parent(dst)) &&
      Parent(dst) != src
    requires v[src].File? || ChildNames(v.Keys, src) == {}
    ensures WellFormed(Moved(v, src, dst))
  {
    RemoveKeeps(v, src);
    AddKeeps(v - {src}, dst, v[src]);
  }

  /** A directory that is not empty, or that becomes its own parent, leaves a path without its directory. */
  lemma MoveBreaks(v: Fs, src: string, dst: string, p: string)
    requires src in v && v[src].Dir? && dst != src && p != "/" && Parent(p) == src && (p == dst || (p in v && p != src))
    ensures !WellFormed(Moved(v, src, dst))
  {
    assert p in Moved(v, src, dst) && !Placed(Moved(v, src, dst), p);
  }

  /**
   A move renames one path only. It leaves a tree exactly when it moves a file, or an empty
   directory that is not moved into itself; otherwise paths are left without their directory.
   */
  lemma MoveKeepsIff(v: Fs, src: string, dst: string)
    requires WellFormed(v) && Canonical(dst) && CanMove(v, src, dst)
    ensures WellFormed(Moved(v, src, dst)) <==> v[src].File? || (ChildNames(v.Keys, src) == {} && Parent(dst) != src)
  {
    CanonicalParent(dst);
    if ChildNames(v.Keys, src) != {} && v[src].Dir? {
      var n :| n in ChildNames(v.Keys, src);
      assert Placed(v, src);
      ChildParent(v, src, n);
      MoveBreaks(v, src, dst, JoinPath(src, n));
    } else if v[src].Dir? && Parent(dst) == src {
      MoveBreaks(v, src, dst, dst);
    } else {
      if Parent(dst) != "/" { RootHasChild(v, Parent(dst)); }
      MoveKeeps(v, src, dst);
    }
  }

  lemma ShortPaths()
    ensures Canonical("/a") && Canonical("/c") && Canonical("/a/b")
    ensures Parent("/a") == "/" && Parent("/c") == "/" && Parent("/a/b") == "/a" && ParentDir("/c") == "/"
  {
    hide Canonical, Parent, ParentDir, BaseName;
    RootCanonical();
    assert JoinPath("/", "a") == "/a" && JoinPath("/", "c") == "/c" && JoinPath("/a", "b") == "/a/b";
    JoinCanonical("/", "a");
    JoinCanonical("/", "c");
    JoinCanonical("/a", "b");
    CanonicalParent("/c");
  }

  /** A directory moved away from its child leaves the child without a parent. */
  lemma MoveOrphans()
    ensures var v := map["/" := Dir, "/a" := Dir, "/a/b" := File("")];
      && WellFormed(v) && Canonical("/c") && CanMove(v, "/a", "/c") && !WellFormed(Moved(v, "/a", "/c"))
  {
    hide Canonical, Parent, ParentDir;
    var v := map["/" := Dir, "/a" := Dir, "/a/b" := File("")];
    RootCanonical();
    ShortPaths();
    assert !Placed(Moved(v, "/a", "/c"), "/a/b");
  }

  // ---------- The filesystem object ----------

  function Joined(dirs: set<string>, files: map<string, string>): Fs
  {
    map p | p in dirs + files.Keys :: if p in dirs then Dir else File(files[p])
  }

  lemma JoinedAdd(dirs: set<string>, files: map<string, string>, p: string, data: string)
    requires dirs !! files.Keys && p !in dirs
    ensures p !in files ==> Joined(dirs + {p}, files) == Joined(dirs, files)[p := Dir]
    ensures Joined(dirs, files[p := data]) == Joined(dirs, files)[p := File(data)]
  {
  }

  lemma JoinedMove(dirs: set<string>, files: map<string, string>, src: string, dst: string)
    requires dirs !! files.Keys && src in dirs + files.Keys && dst !in dirs + files.Keys
    ensures src in files ==> Joined(dirs, (files - {src})[dst := files[src]]) == Moved(Joined(dirs, files), src, dst)
    ensures src in dirs ==> Joined(dirs - {src} + {dst}, files) == Moved(Joined(dirs, files), src, dst)
  {
  }

  class VirtualFs {
    var dirs: set<string>
    var files: map<string, string>

    ghost function View(): Fs
      reads this
    {
      Joined(dirs, files)
    }

    /** No path is both; a tree unless a move broke it. */
    ghost predicate Disjoint()
      reads this
    {
      dirs !! files.Keys
    }

    constructor ()
      ensures Disjoint() && WellFormed(View())
      ensures View() == map["/" := Dir, "/bin" := Dir, "/etc" := Dir, "/models" := Dir, "/state" := Dir]
    {
      dirs := {"/", "/bin", "/etc", "/models", "/state"};
      files := map[];
      new;
      InitialTree();
      assert View() == map["/" := Dir, "/bin" := Dir, "/etc" := Dir, "/models" := Dir, "/state" := Dir];
    }

    method Mkdir(path: string) returns (ok: bool)
      requires Disjoint()
      modifies `dirs
      ensures Disjoint()
      ensures ok <==> CanMkdir(old(View()), Normalize("/", path))
      ensures View() == if ok then old(View())[Normalize("/", path) := Dir] else old(View())
      ensures old(WellFormed(View())) ==> WellFormed(View())
    {
      ghost var v := View();
      var p := Normalize("/", path);
      if p in dirs || p in files || ParentDir(p) !in dirs {
        return false;
      }
      JoinedAdd(dirs, files, p, "");
      dirs := dirs + {p};
      if WellFormed(v) {
        NewPath(v, path);
        AddKeeps(v, p, Dir);
      }
      return true;
    }

    method Touch(path: string) returns (ok: bool)
      requires Disjoint()
      modifies `files
      ensures Disjoint()
      ensures var v, p := old(View()), Normalize("/", path);
        && (ok <==> IsDir(v, ParentDir(p)) && !IsDir(v, p))
        && View() == if ok && p !in v then v[p := File("")] else v
      ensures old(WellFormed(View())) ==> WellFormed(View())
    {
      ghost var v := View();
      var p := Normalize("/", path);
      if ParentDir(p) !in dirs || p in dirs {
        return false;
      }
      if p !in files {
        JoinedAdd(dirs, files, p, "");
        files := files[p := ""];
        if WellFormed(v) {
          NewPath(v, path);
          AddKeeps(v, p, File(""));
        }
      }
      return true;
    }

    method Write(path: string, payload: string) returns (ok: bool)
      requires Disjoint()
      modifies `files
      ensures Disjoint()
      ensures ok <==> CanWrite(old(View()), Normalize("/", path))
      ensures View() == if ok then old(View())[Normalize("/", path) := File(payload)] else old(View())
      ensures old(WellFormed(View())) ==> WellFormed(View())
    {
      ghost var v := View();
      var p := Normalize("/", path);
      if (ParentDir(p) !in dirs && p != "/") || p in dirs {
        return false;
      }
      JoinedAdd(dirs, files, p, payload);
      files := files[p := payload];
      if WellFormed(v) {
        NewPath(v, path);
        AddKeeps(v, p, File(payload));
      }
      return true;
    }

    method Move(source: string, target: string) returns (ok: bool)
      requires Disjoint()
      modifies this
      ensures Disjoint()
      ensures var v, src, dst := old(View()), Normalize("/", source), Normalize("/", target);
        && (ok <==> CanMove(v, src, dst))
        && View() == if ok then Moved(v, src, dst) else v
    {
      var src, dst := Normalize("/", source), Normalize("/", target);
      if src !in files && src !in dirs {
        return false;
      }
      if dst in files || dst in dirs || ParentDir(dst) !in dirs {
        return false;
      }
      JoinedMove(dirs, files, src, dst);
      if src in files {
        files := (files - {src})[dst := files[src]];
      } else {
        dirs := dirs - {src} + {dst};
      }
      return true;
    }

    method Remove(path: string, allowDir: bool) returns (ok: bool)
      requires Disjoint()
      modifies this
      ensures Disjoint()
      ensures var v, p := old(View()), Normalize("/", path);
        && (ok <==> p in v && p != "/" && v[p].Dir? == allowDir && (allowDir ==> ChildNames(v.Keys, p) == {}))
        && View() == if ok then v - {p} else v
      ensures old(WellFormed(View())) ==> WellFormed(View())
    {
      ghost var v := View();
      var p := Normalize("/", path);
      if p == "/" {
        return false;
      }
      if allowDir {
        if p !in dirs {
          return false;
        }
        var names := Children(p);
        if names != [] {
          return false;
        }
        dirs := dirs - {p};
      } else {
        if p !in files {
          return false;
        }
        files := files - {p};
      }
      assert View() == v - {p};
      if WellFormed(v) { RemoveKeeps(v, p); }
      return true;
    }

    method Read(path: string) returns (data: Option<string>)
      requires Disjoint()
      ensures var v, p := View(), Normalize("/", path);
        data == if p in v && v[p].File? then Some(v[p].data) else None
    {
      var p := Normalize("/", path);
      return if p in files then Some(files[p]) else None;
    }

    method Children(path: string) returns (names: seq<string>)
      requires Disjoint()
      ensures names == Listing(View(), path)
      ensures names == [] <==> ChildNames(View().Keys, path) == {}
    {
      names := ListChildren(dirs + files.Keys, path);
      assert dirs + files.Keys == View().Keys;
    }
  }

  /** Names of the paths directly inside `path`, in code-point order. */
  method ListChildren(ps: set<string>, path: string) returns (names: seq<string>)
    ensures names == Sorted(ChildNames(ps, path))
    ensures names == [] <==> ChildNames(ps, path) == {}
  {
    hide ChildNames, Sorted, Insert;
    NoChildren(path);
    var rest := ps;
    ghost var done: set<string> := {};
    names := [];
    while rest != {}
      invariant rest !! done && rest + done == ps
      invariant names == Sorted(ChildNames(done, path))
      decreases |rest|
    {
      var p :| p in rest;
      ListStep(done, p, path);
      var pre := Prefix(path);
      if p != path && pre <= p && p[|pre|..] != "" && '/' !in p[|pre|..] {
        names := Insert(names, p[|pre|..]);
      }
      rest, done := rest - {p}, done + {p};
    }
    assert done == ps;
    SortedEmpty(ChildNames(ps, path));
  }

  lemma NoChildren(path: string)
    ensures Sorted(ChildNames({}, path)) == []
  {
  }

  lemma ListStep(ps: set<string>, p: string, path: string)
    requires p !in ps
    ensures Sorted(ChildNames(ps + {p}, path)) ==
      if ChildPath(path, p) then Insert(Sorted(ChildNames(ps, path)), p[|Prefix(path)|..])
      else Sorted(ChildNames(ps, path))
  {
    ChildNamesStep(ps, p, path);
    if ChildPath(path, p) { InsertSorted(ChildNames(ps, path), p[|Prefix(path)|..]); }
  }

  lemma SortedEmpty(s: set<string>)
    ensures Sorted(s) == [] <==> s == {}
  {
  }

  lemma ChildNamesStep(ps: set<string>, p: string, path: string)
    requires p !in ps
    ensures var n := if ChildPath(path, p) then p[|Prefix(path)|..] else "";
      && (ChildPath(path, p) ==> ChildNames(ps + {p}, path) == ChildNames(ps, path) + {n} && n !in ChildNames(ps, path))
      && (!ChildPath(path, p) ==> ChildNames(ps + {p}, path) == ChildNames(ps, path))
  {
    var a, b := ChildNames(ps, path), ChildNames(ps + {p}, path);
    if ChildPath(path, p) {
      var n := p[|Prefix(path)|..];
      assert p == JoinPath(path, n);
      assert b == a + {n};
    } else {
      forall n | n in b ensures n in a {
        assert ChildPath(path, JoinPath(path, n));
      }
      assert b == a;
    }
  }

  lemma InitialTree()
    ensures WellFormed(map["/" := Dir, "/bin" := Dir, "/etc" := Dir, "/models" := Dir, "/state" := Dir])
  {
    var v: Fs := map["/" := Dir, "/bin" := Dir, "/etc" := Dir, "/models" := Dir, "/state" := Dir];
    forall p | p in v ensures Placed(v, p) {
      if p != "/" {
        var n := p[1..];
        assert p == JoinPath("/", n) && '/' !in n;
        JoinCanonical("/", n);
      }
    }
  }
}
