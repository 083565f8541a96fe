/**
 Archiving a subtree of the virtual filesystem and extracting it elsewhere: what the collector
 prints, what the extractor builds from it, and that the two together copy the subtree.
 */
module BridgeArchive {
  import opened Machine
  import opened Strings
  import opened MfsPaths
  import opened BridgePaths
  import opened BridgeFs
  import opened ArchiveText

  // ---------- Collecting ----------

  ghost function Longer(v: Fs, src: string): set<string> { set p | p in v.Keys && |p| > |src| }

  function ArchiveName(arc: string, child: string): string { if arc != "/" then arc + "/" + child else child }

  lemma LongerChild(v: Fs, src: string, n: string)
    requires n in ChildNames(v.Keys, src)
    ensures Longer(v, JoinPath(src, n)) < Longer(v, src)
  {
    assert JoinPath(src, n) in Longer(v, src) && JoinPath(src, n) !in Longer(v, JoinPath(src, n));
  }

  /** A path, then what lies beneath it, children in listing order. */
  ghost function Collected(v: Fs, src: string, arc: string): Option<seq<Entry>>
    decreases Longer(v, src), 1, 0
  {
    var p := Normalize("/", src);
    if p !in v then None
    else if v[p].File? then Some([FileEntry(arc, v[p].data)])
    else Prepend([DirEntry(arc)], CollectedAll(v, src, arc, Listing(v, src)))
  }

  ghost function CollectedAll(v: Fs, src: string, arc: string, names: seq<string>): Option<seq<Entry>>
    requires forall n :: n in names ==> n in ChildNames(v.Keys, src)
    decreases Longer(v, src), 0, |names|
  {
    if names == [] then Some([])
    else
      LongerChild(v, src, names[0]);
      match Collected(v, JoinPath(src, names[0]), ArchiveName(arc, names[0]))
      case None => None
      case Some(es) => Prepend(es, CollectedAll(v, src, arc, names[1..]))
  }

  // ---------- Extracting ----------

  datatype Outcome =
    Extracted | NotFound | InvalidArchive | InvalidPath | CannotCreate | CannotWrite | Parsing | IndexError

  /** One entry placed under `dest`. */
  function ApplyEntry(v: Fs, dest: string, e: Entry): (Fs, Outcome)
    requires Canonical(dest)
  {
    if e.path != "" && e.path[0] == '/' then (v, InvalidPath)
    else
      CanonicalShape(dest);
      var p := Normalize("/", Normalize(dest, e.path));
      match e
      case DirEntry(_) => if CanMkdir(v, p) then (v[p := Dir], Extracted) else (v, CannotCreate)
      case FileEntry(_, data) => if CanWrite(v, p) then (v[p := File(data)], Extracted) else (v, CannotWrite)
  }

  /** Entries in order; the first that cannot be placed stops, and what was placed stays. */
  function ApplyAll(v: Fs, dest: string, es: seq<Entry>): (Fs, Outcome)
    requires Canonical(dest)
    decreases |es|
  {
    if es == [] then (v, Extracted)
    else
      var r := ApplyEntry(v, dest, es[0]);
      if r.1.Extracted? then ApplyAll(r.0, dest, es[1..]) else r
  }

  /** What extraction makes of the state its parser is in. */
  function ExtractParsed(v: Fs, dest: string, p: Progress): (Fs, Outcome)
    requires Canonical(dest)
  {
    match p
    case Running(_, _) => (v, Parsing)
    case Raised => (v, IndexError)
    case Ended(None) => (v, InvalidArchive)
    case Ended(Some(es)) => ApplyAll(v, dest, es)
  }

  /** Extraction in the end; still parsing means for ever. */
  ghost function ExtractText(v: Fs, dest: string, text: string): (Fs, Outcome)
    requires Canonical(dest)
  {
    ExtractParsed(v, dest, Parse(text))
  }

  /**
   An entry named `n` is placed in the destination and one named `../n` beside the destination,
   when the directory it names exists and nothing is in its way.
   */
  lemma EntryPlace(v: Fs, dest: string, n: string, data: string, beside: bool)
    requires WellFormed(v) && Canonical(dest) && ValidName(n) && (beside ==> dest != "/")
    ensures var path, d := if beside then "../" + n else n, if beside then Parent(dest) else dest;
      var p := JoinPath(d, n);
      && ApplyEntry(v, dest, FileEntry(path, data)) ==
         (if d in v && v[d].Dir? && (p in v ==> v[p].File?) then (v[p := File(data)], Extracted) else (v, CannotWrite))
      && ApplyEntry(v, dest, DirEntry(path)) ==
         (if d in v && v[d].Dir? && p !in v then (v[p := Dir], Extracted) else (v, CannotCreate))
  {
    hide Normalize, Canonical, Parent, WellFormed, CanMkdir, CanWrite;
    NormalizeParent(dest, n);
    var d := if beside then Parent(dest) else dest;
    NormalizeName(d, n, "");
    var p := JoinPath(d, n);
    JoinCanonical(d, n);
    NormalizeIdentity("/", p);
    CanExact(v, p, p);
  }

  lemma ApplyEntryKeeps(v: Fs, dest: string, e: Entry)
    requires Canonical(dest) && WellFormed(v)
    ensures WellFormed(ApplyEntry(v, dest, e).0)
  {
    hide Normalize, WellFormed, Canonical;
    CanonicalShape(dest);
    var p := Normalize(dest, e.path);
    NewPath(v, p);
    if ApplyEntry(v, dest, e).1.Extracted? {
      AddKeeps(v, Normalize("/", p), if e.DirEntry? then Dir else File(e.data));
    }
  }

  /** Extraction leaves a tree, whatever the archive says and wherever it stops. */
  lemma {:induction false} ApplyKeeps(v: Fs, dest: string, es: seq<Entry>)
    requires Canonical(dest) && WellFormed(v)
    ensures WellFormed(ApplyAll(v, dest, es).0)
    decreases |es|
  {
    hide ApplyEntry, WellFormed;
    if es != [] {
      ApplyEntryKeeps(v, dest, es[0]);
      ApplyKeeps(ApplyEntry(v, dest, es[0]).0, dest, es[1..]);
    }
  }

  lemma {:induction false} ApplyConcat(v: Fs, dest: string, a: seq<Entry>, b: seq<Entry>)
    requires Canonical(dest)
    ensures ApplyAll(v, dest, a + b) ==
      if ApplyAll(v, dest, a).1.Extracted? then ApplyAll(ApplyAll(v, dest, a).0, dest, b) else ApplyAll(v, dest, a)
    decreases |a|
  {
    hide ApplyEntry;
    if a == [] {
      assert a + b == b;
    } else {
      assert (a + b)[0] == a[0] && (a + b)[1..] == a[1..] + b;
      ApplyConcat(ApplyEntry(v, dest, a[0]).0, dest, a[1..], b);
    }
  }

  // ---------- Where entries land ----------

  predicate Lands(dest: string, arc: string, target: string)
  {
    Canonical(dest) && Canonical(target) && arc != "" && arc[0] != '/' && Resolve(dest, Split(arc)) == target
  }

  lemma LandsCanonical(dest: string, arc: string, target: string)
    requires Lands(dest, arc, target)
    ensures Canonical(dest) && Canonical(target)
  {
  }

  lemma LandsAt(dest: string, arc: string, target: string)
    requires Lands(dest, arc, target)
    ensures dest != "" && dest[0] == '/' && Normalize("/", Normalize(dest, arc)) == target
  {
    CanonicalShape(dest);
    NormalizeUnder(dest, arc);
    NormalizeIdentity("/", target);
  }

  lemma LandsChild(dest: string, arc: string, target: string, n: string)
    requires Lands(dest, arc, target) && ValidName(n)
    ensures Lands(dest, ArchiveName(arc, n), JoinPath(target, n))
  {
    JoinCanonical(target, n);
    SplitJoin(arc, n);
    ResolveName(target, n);
    ResolveConcat(dest, Split(arc), [n]);
  }

  lemma LandsName(dest: string, n: string)
    requires Canonical(dest) && ValidName(n)
    ensures Lands(dest, n, JoinPath(dest, n))
  {
    JoinCanonical(dest, n);
    ResolveName(dest, n);
  }

  // ---------- Grafts ----------

  function At(v: Fs, p: string): Option<Node> { if p in v then Some(v[p]) else None }

  /** `w` is `v` with everything at and beneath `target` replaced by what `from` has at and beneath `src`. */
  ghost predicate Grafted(v: Fs, w: Fs, from: Fs, src: string, target: string)
  {
    forall q :: At(w, q) == if Under(q, target) then At(from, src + q[|target|..]) else At(v, q)
  }

  /** The component of `q` directly beneath `d`. */
  function FirstName(q: string, d: string): string
    requires Beneath(q, d)
  {
    var r := q[|d| + 1..];
    r[..IndexOf(r, '/')]
  }

  /** Beneath a common directory, being under a name is a matter of the rest of the path. */
  lemma UnderRest(d: string, r: string, n: string)
    ensures Under(d + "/" + r, d + "/" + n) <==> r == n || (|r| > |n| && r[..|n|] == n && r[|n|] == '/')
  {
    var q, c := d + "/" + r, d + "/" + n;
    assert q[|d| + 1..] == r && c[|d| + 1..] == n;
    if |r| > |n| {
      assert q[..|c|] == d + "/" + r[..|n|] && q[|c|] == r[|n|];
      if q[..|c|] == c { assert r[..|n|] == q[..|c|][|d| + 1..] == n; }
    }
  }

  lemma FirstPiece(r: string, n: string)
    requires '/' !in n
    ensures r[..IndexOf(r, '/')] == n <==> r == n || (|r| > |n| && r[..|n|] == n && r[|n|] == '/')
  {
    var k := IndexOf(r, '/');
    if |r| > |n| && r[..|n|] == n && r[|n|] == '/' {
      assert forall i :: 0 <= i < |n| ==> r[i] == n[i] != '/';
      assert k == |n|;
    }
    if r == n { assert k == |r|; }
  }

  lemma UnderDeeper(q: string, d: string, n: string)
    ensures Under(q, d + "/" + n) ==> Beneath(q, d)
  {
    var c := d + "/" + n;
    assert c[..|d|] == d && c[|d|] == '/';
    if |q| >= |c| && q[..|c|] == c { assert q[..|d|] == q[..|c|][..|d|] && q[|d|] == q[..|c|][|d|]; }
  }

  lemma FirstNameUnder(q: string, d: string, n: string)
    requires d != "/" && '/' !in n
    ensures Under(q, JoinPath(d, n)) <==> Beneath(q, d) && FirstName(q, d) == n
  {
    UnderDeeper(q, d, n);
    if Beneath(q, d) {
      var r := q[|d| + 1..];
      assert q == d + "/" + r;
      UnderRest(d, r, n);
      FirstPiece(r, n);
    }
  }

  /** In a tree, whatever is beneath a directory is at or beneath one of its children. */
  lemma {:induction false} FirstNameListed(v: Fs, d: string, p: string)
    requires WellFormed(v) && Canonical(d) && d != "/" && p in v && Beneath(p, d)
    ensures d in v && FirstName(p, d) in ChildNames(v.Keys, d)
    decreases |p|
  {
    assert Placed(v, p);
    ParentBeneath(p, d);
    CanonicalParent(p);
    var q := Parent(p);
    if q == d {
      assert p[|d| + 1..] == BaseName(p);
      assert FirstName(p, d) == BaseName(p);
    } else {
      FirstNameListed(v, d, q);
      FirstNameCut(p, q, d);
    }
  }

  lemma FirstNameCut(p: string, q: string, d: string)
    requires Beneath(q, d) && Beneath(p, q)
    ensures Beneath(p, d) && FirstName(p, d) == FirstName(q, d)
  {
    assert p[..|d|] == q[..|d|] && p[|d|] == q[|d|];
    var r, s := p[|d| + 1..], q[|d| + 1..];
    assert r[..|s|] == s && r[|s|] == '/';
    var k := IndexOf(s, '/');
    assert r[k] == '/' && forall i :: 0 <= i < k ==> r[i] == s[i] != '/';
    assert r[..k] == s[..k];
  }

  lemma {:induction false} NothingBeneath(v: Fs, d: string, q: string)
    requires WellFormed(v) && Canonical(d) && d != "/" && d !in v
    ensures Under(q, d) ==> q !in v
  {
    if Beneath(q, d) && q in v { FirstNameListed(v, d, q); }
  }

  lemma FilesAreLeaves(v: Fs, d: string, q: string)
    requires WellFormed(v) && Canonical(d) && d != "/" && d in v && v[d].File? && Beneath(q, d)
    ensures q !in v
  {
    if q in v {
      FirstNameListed(v, d, q);
      ChildParent(v, d, FirstName(q, d));
    }
  }

  // ---------- A collected subtree, extracted ----------

  /** A graft of a directory and of those children named in `done`. */
  ghost predicate PartGrafted(v: Fs, w: Fs, from: Fs, src: string, target: string, done: set<string>)
  {
    forall q :: At(w, q) ==
      if !Under(q, target) then At(v, q)
      else if q == target then Some(Dir)
      else if FirstName(q, target) in done then At(from, src + q[|target|..])
      else None
  }

  /** Grafting one more child extends the graft of the directory. */
  lemma GraftChild(v: Fs, a: Fs, b: Fs, from: Fs, src: string, target: string, done: set<string>, n: string)
    requires PartGrafted(v, a, from, src, target, done) && src != "/" && target != "/" && '/' !in n
    requires Grafted(a, b, from, JoinPath(src, n), JoinPath(target, n))
    ensures PartGrafted(v, b, from, src, target, done + {n})
  {
    hide FirstName;
    forall q ensures At(b, q) ==
      if !Under(q, target) then At(v, q)
      else if q == target then Some(Dir)
      else if FirstName(q, target) in done + {n} then At(from, src + q[|target|..])
      else None
    {
      FirstNameUnder(q, target, n);
      if Under(q, JoinPath(target, n)) {
        assert q[..|target| + 1 + |n|] == JoinPath(target, n);
        assert JoinPath(src, n) + q[|JoinPath(target, n)|..] == src + q[|target|..];
      }
    }
  }

  /** Once every listed child is grafted, the whole directory is. */
  lemma GraftDone(v: Fs, w: Fs, from: Fs, src: string, target: string)
    requires WellFormed(from) && IsDir(from, src) && src != "/" && target != "/"
    requires PartGrafted(v, w, from, src, target, ChildNames(from.Keys, src))
    ensures Grafted(v, w, from, src, target)
  {
    hide WellFormed, Canonical, ChildNames;
    forall q ensures At(w, q) == if Under(q, target) then At(from, src + q[|target|..]) else At(v, q) {
      if q == target {
        assert src + q[|target|..] == src;
      } else if Beneath(q, target) {
        GraftCovers(from, src, target, q);
      }
    }
  }

  lemma GraftCovers(from: Fs, src: string, target: string, q: string)
    requires WellFormed(from) && src in from && src != "/" && Beneath(q, target)
    ensures src + q[|target|..] in from ==> FirstName(q, target) in ChildNames(from.Keys, src)
  {
    var p := src + q[|target|..];
    if p in from {
      assert Placed(from, src);
      assert p[|src| + 1..] == q[|target| + 1..];
      FirstNameListed(from, src, p);
    }
  }

  /** The collected subtree, extracted where nothing is, is that subtree. */
  lemma {:induction false} CopyTree(from: Fs, src: string, arc: string, v: Fs, dest: string, target: string)
    requires WellFormed(from) && src in from && src != "/"
    requires WellFormed(v) && Lands(dest, arc, target) && target != "/" && target !in v && IsDir(v, Parent(target))
    ensures Collected(from, src, arc).Some?
    ensures var r := ApplyAll(v, dest, Collected(from, src, arc).value);
      r.1.Extracted? && Grafted(v, r.0, from, src, target)
    decreases Longer(from, src), 1, 0
  {
    hide WellFormed, Canonical, Lands, Normalize, ApplyEntry, PartGrafted, Grafted, Sorted, Longer, ChildNames;
    assert Placed(from, src) && Canonical(src) by { Spread(from, src); }
    NormalizeIdentity("/", src);
    var e := if from[src].File? then FileEntry(arc, from[src].data) else DirEntry(arc);
    LandOne(v, dest, target, e);
    var w := v[target := from[src]];
    if from[src].File? {
      assert Collected(from, src, arc) == Some([e]);
      assert ApplyAll(v, dest, [e]) == ApplyAll(w, dest, []);
      GraftFile(v, from, src, target);
    } else {
      var names := ChildNames(from.Keys, src);
      GraftDir(v, from, src, target);
      ApplyEntryKeeps(v, dest, e);
      CopyChildren(from, src, arc, names, v, w, dest, target, {});
      var es := CollectedAll(from, src, arc, Listing(from, src)).value;
      assert ApplyAll(v, dest, [e] + es) ==
        ApplyAll(w, dest, es) by { ApplyConcat(v, dest, [e], es); assert ApplyAll(w, dest, []) == (w, Extracted); }
      assert {} + names == names;
      GraftDone(v, ApplyAll(w, dest, es).0, from, src, target);
    }
  }

  lemma Spread(v: Fs, p: string)
    requires WellFormed(v) && p in v
    ensures Placed(v, p) && Canonical(p)
  {
  }

  lemma LandOne(v: Fs, dest: string, target: string, e: Entry)
    requires WellFormed(v) && Lands(dest, e.path, target) && target != "/" && !IsDir(v, target) &&
      IsDir(v, Parent(target))
    requires e.DirEntry? ==> target !in v
    ensures Canonical(dest) && Canonical(target)
    ensures ApplyEntry(v, dest, e) == (v[target := if e.DirEntry? then Dir else File(e.data)], Extracted)
  {
    LandsAt(dest, e.path, target);
    CanonicalParent(target);
  }

  lemma GraftFile(v: Fs, from: Fs, src: string, target: string)
    requires WellFormed(v) && WellFormed(from) && src in from && from[src].File? && src != "/"
    requires Canonical(target) && target != "/" && target !in v
    ensures Grafted(v, v[target := from[src]], from, src, target)
  {
    hide WellFormed, Canonical;
    var w := v[target := from[src]];
    Spread(from, src);
    forall q ensures At(w, q) == if Under(q, target) then At(from, src + q[|target|..]) else At(v, q) {
      NothingBeneath(v, target, q);
      if q == target {
        assert src + q[|target|..] == src;
      } else if Beneath(q, target) {
        FilesAreLeaves(from, src, src + q[|target|..]);
      }
    }
  }

  lemma GraftDir(v: Fs, from: Fs, src: string, target: string)
    requires WellFormed(v) && Canonical(target) && target != "/" && target !in v
    ensures PartGrafted(v, v[target := Dir], from, src, target, {})
  {
    hide WellFormed, Canonical;
    var w := v[target := Dir];
    forall q ensures At(w, q) == if !Under(q, target) then At(v, q) else if q == target then Some(Dir) else None {
      NothingBeneath(v, target, q);
    }
  }

  lemma {:induction false} CopyChildren(from: Fs, src: string, arc: string, todo: set<string>,
                                        v: Fs, a: Fs, dest: string, target: string, done: set<string>)
    requires WellFormed(from) && IsDir(from, src) && src != "/" && todo <= ChildNames(from.Keys, src) && todo !! done
    requires WellFormed(a) && Lands(dest, arc, target) && target != "/" && PartGrafted(v, a, from, src, target, done)
    ensures CollectedAll(from, src, arc, Sorted(todo)).Some?
    ensures var r := ApplyAll(a, dest, CollectedAll(from, src, arc, Sorted(todo)).value);
      r.1.Extracted? && PartGrafted(v, r.0, from, src, target, done + todo)
    decreases Longer(from, src), 0, |todo|
  {
    hide WellFormed, Canonical, Lands, ApplyAll, Collected, ChildNames, PartGrafted, Grafted, Longer, JoinPath,
      ArchiveName;
    LandsCanonical(dest, arc, target);
    if todo == {} {
      ApplyNone(a, dest);
      assert done + todo == done;
    } else {
      LeastExists(todo);
      var n :| LeastOf(n, todo);
      SortedFirst(todo, n);
      var rest, childSrc, childArc, childTarget := todo - {n}, JoinPath(src, n), ArchiveName(arc, n),
        JoinPath(target, n);
      LongerChild(from, src, n);
      PlaceChild(from, src, v, a, dest, arc, target, done, n);
      CopyTree(from, childSrc, childArc, a, dest, childTarget);
      var es := Collected(from, childSrc, childArc).value;
      var b := ApplyAll(a, dest, es).0;
      GraftChild(v, a, b, from, src, target, done, n);
      ApplyKeeps(a, dest, es);
      CopyChildren(from, src, arc, rest, v, b, dest, target, done + {n});
      assert done + {n} + rest == done + todo;
      assert Sorted(todo)[1..] == Sorted(rest);
      var es' := CollectedAll(from, src, arc, Sorted(rest)).value;
      assert CollectedAll(from, src, arc, Sorted(todo)).value == es + es';
      ApplyConcat(a, dest, es, es');
    }
  }

  lemma ApplyNone(v: Fs, dest: string)
    requires Canonical(dest)
    ensures ApplyAll(v, dest, []) == (v, Extracted)
  {
  }

  /** The next child is in the source, and its place in the target is free. */
  lemma PlaceChild(from: Fs, src: string, v: Fs, a: Fs, dest: string, arc: string, target: string, done: set<string>,
      n: string)
    requires WellFormed(from) && IsDir(from, src) && n in ChildNames(from.Keys, src) && n !in done
    requires Lands(dest, arc, target) && target != "/" && PartGrafted(v, a, from, src, target, done)
    ensures Canonical(dest) && '/' !in n
    ensures JoinPath(src, n) in from && JoinPath(src, n) != "/"
    ensures var t := JoinPath(target, n);
      Lands(dest, ArchiveName(arc, n), t) && t != "/" && t !in a && Parent(t) == target && IsDir(a, target)
  {
    Spread(from, src);
    ChildParent(from, src, n);
    LandsChild(dest, arc, target, n);
    JoinCanonical(target, n);
    FirstNameUnder(JoinPath(target, n), target, n);
    assert At(a, target) == Some(Dir);
    assert At(a, JoinPath(target, n)) == None;
  }

  // ---------- Names the archive can carry ----------

  /** No name at or beneath `src` contains a newline once archived under `arc`. */
  ghost predicate OneLineNames(v: Fs, src: string, arc: string)
  {
    forall p :: p in v && Under(p, src) ==> '\n' !in arc + p[|src|..]
  }

  lemma OneLineFile(v: Fs, src: string, arc: string)
    requires WellFormed(v) && src in v && src != "/" && v[src].File?
    ensures OneLineNames(v, src, arc) <==> '\n' !in arc
  {
    hide WellFormed, Canonical;
    Spread(v, src);
    forall p | p in v && Under(p, src) ensures arc + p[|src|..] == arc {
      if Beneath(p, src) { FilesAreLeaves(v, src, p); }
    }
    if OneLineNames(v, src, arc) { assert Under(src, src) && arc + src[|src|..] == arc; }
  }

  lemma OneLineChild(v: Fs, src: string, arc: string, n: string, p: string)
    requires src != "/" && arc != "/" && '/' !in n && Under(p, JoinPath(src, n))
    ensures Under(p, src) && ArchiveName(arc, n) + p[|JoinPath(src, n)|..] == arc + p[|src|..]
  {
  }

  lemma OneLineDir(v: Fs, src: string, arc: string)
    requires WellFormed(v) && IsDir(v, src) && src != "/" && arc != "/"
    ensures OneLineNames(v, src, arc) <==>
      '\n' !in arc &&
        forall n :: n in ChildNames(v.Keys, src) ==> OneLineNames(v, JoinPath(src, n), ArchiveName(arc, n))
  {
    hide WellFormed, Canonical, ArchiveName, JoinPath, FirstName;
    Spread(v, src);
    if OneLineNames(v, src, arc) {
      assert Under(src, src) && arc + src[|src|..] == arc;
      forall n, p | n in ChildNames(v.Keys, src) && p in v && Under(p, JoinPath(src, n))
        ensures '\n' !in ArchiveName(arc, n) + p[|JoinPath(src, n)|..]
      {
        OneLineChild(v, src, arc, n, p);
      }
    }
    if '\n' !in arc &&
      forall n :: n in ChildNames(v.Keys, src) ==> OneLineNames(v, JoinPath(src, n), ArchiveName(arc, n)) {
      forall p | p in v && Under(p, src) ensures '\n' !in arc + p[|src|..] {
        if p == src {
          assert arc + p[|src|..] == arc;
        } else {
          FirstNameListed(v, src, p);
          var n := FirstName(p, src);
          FirstNameUnder(p, src, n);
          OneLineChild(v, src, arc, n, p);
        }
      }
    }
  }

  /** Collecting an existing path always succeeds, and the entries are on one line each exactly when the names are. */
  lemma {:induction false} CollectTree(v: Fs, src: string, arc: string)
    requires WellFormed(v) && src in v && arc != "/"
    ensures Collected(v, src, arc).Some?
    ensures src != "/" ==> (OneLinePaths(Collected(v, src, arc).value) <==> OneLineNames(v, src, arc))
    decreases Longer(v, src), 1, 0
  {
    hide WellFormed, Canonical, Normalize, Longer, ChildNames, OneLineNames, Sorted;
    Spread(v, src);
    NormalizeIdentity("/", src);
    if v[src].File? {
      var e := FileEntry(arc, v[src].data);
      assert [e] + [] == [e];
      OneLineCons(e, []);
      if src != "/" { OneLineFile(v, src, arc); }
    } else {
      var names := ChildNames(v.Keys, src);
      CollectChildren(v, src, arc, names);
      var es := CollectedAll(v, src, arc, Sorted(names)).value;
      OneLineCons(DirEntry(arc), es);
      if src != "/" { OneLineDir(v, src, arc); }
    }
  }

  lemma OneLineCons(e: Entry, es: seq<Entry>)
    ensures OneLinePaths([e] + es) <==> '\n' !in e.path && OneLinePaths(es)
  {
    if OneLinePaths([e] + es) {
      assert ([e] + es)[0] == e;
      forall i | 0 <= i < |es| ensures '\n' !in es[i].path { assert ([e] + es)[i + 1] == es[i]; }
    }
  }

  lemma OneLineConcat(a: seq<Entry>, b: seq<Entry>)
    ensures OneLinePaths(a + b) <==> OneLinePaths(a) && OneLinePaths(b)
  {
    if OneLinePaths(a + b) {
      forall i | 0 <= i < |a| ensures '\n' !in a[i].path { assert (a + b)[i] == a[i]; }
      forall i | 0 <= i < |b| ensures '\n' !in b[i].path { assert (a + b)[|a| + i] == b[i]; }
    }
  }

  lemma {:induction false} CollectChildren(v: Fs, src: string, arc: string, todo: set<string>)
    requires WellFormed(v) && IsDir(v, src) && arc != "/" && todo <= ChildNames(v.Keys, src)
    ensures CollectedAll(v, src, arc, Sorted(todo)).Some?
    ensures OneLinePaths(CollectedAll(v, src, arc, Sorted(todo)).value) <==>
      forall n :: n in todo ==> OneLineNames(v, JoinPath(src, n), ArchiveName(arc, n))
    decreases Longer(v, src), 0, |todo|
  {
    hide WellFormed, Canonical, Collected, ChildNames, Longer, OneLineNames, OneLinePaths, JoinPath;
    if todo == {} {
      OneLineNone();
    } else {
      LeastExists(todo);
      var n :| LeastOf(n, todo);
      SortedFirst(todo, n);
      var rest := todo - {n};
      LongerChild(v, src, n);
      Spread(v, src);
      ChildParent(v, src, n);
      ArchiveNameLong(arc, n);
      CollectTree(v, JoinPath(src, n), ArchiveName(arc, n));
      CollectChildren(v, src, arc, rest);
      assert Sorted(todo)[1..] == Sorted(rest);
      var es, es' := Collected(v, JoinPath(src, n), ArchiveName(arc, n)).value,
        CollectedAll(v, src, arc, Sorted(rest)).value;
      assert CollectedAll(v, src, arc, Sorted(todo)).value == es + es';
      OneLineConcat(es, es');
    }
  }

  lemma OneLineNone()
    ensures OneLinePaths([])
  {
  }

  lemma ArchiveNameLong(arc: string, n: string)
    requires arc != "/" && n != ""
    ensures ArchiveName(arc, n) != "/"
  {
  }

  // ---------- The round trip ----------

  /** The archive text of a subtree, as `tar -cf` writes it. */
  ghost function ArchiveOf(v: Fs, src: string): string
    requires WellFormed(v) && src in v
  {
    CollectTree(v, src, BaseName(src));
    Archive(Collected(v, src, BaseName(src)).value)
  }

  /**
   Archiving a path and extracting the archive into a directory that lacks its name yields an
   identical subtree there and changes nothing else, unless a name contains a newline: then the
   archive is refused and nothing changes.
   */
  lemma ArchiveRoundTrip(from: Fs, src: string, v: Fs, dest: string)
    requires WellFormed(from) && src in from && src != "/"
    requires WellFormed(v) && IsDir(v, dest) && JoinPath(dest, BaseName(src)) !in v
    ensures Canonical(dest)
    ensures var r := ExtractText(v, dest, ArchiveOf(from, src));
      if OneLineNames(from, src, BaseName(src))
      then r.1.Extracted? && Grafted(v, r.0, from, src, JoinPath(dest, BaseName(src)))
      else r == (v, InvalidArchive)
  {
    hide WellFormed, Canonical, Collected, Parse, Grafted, ApplyAll, OneLinePaths, BaseName, JoinPath, Parent, Lands;
    Spread(from, src);
    Spread(v, dest);
    CanonicalParent(src);
    var n := BaseName(src);
    LandsName(dest, n);
    JoinCanonical(dest, n);
    CollectTree(from, src, n);
    ArchiveParses(Collected(from, src, n).value);
    CopyTree(from, src, n, v, dest, JoinPath(dest, n));
  }

  /** When the name is taken, a directory is refused, and a file replaces a file and nothing else. */
  lemma ArchiveOntoExisting(from: Fs, src: string, v: Fs, dest: string)
    requires WellFormed(from) && src in from && src != "/" && OneLineNames(from, src, BaseName(src))
    requires WellFormed(v) && IsDir(v, dest) && JoinPath(dest, BaseName(src)) in v
    ensures Canonical(dest)
    ensures var r, t := ExtractText(v, dest, ArchiveOf(from, src)), JoinPath(dest, BaseName(src));
      if from[src].Dir? then r == (v, CannotCreate)
      else if v[t].Dir? then r == (v, CannotWrite)
      else r == (v[t := from[src]], Extracted)
  {
    hide WellFormed, Canonical, Parse, Lands, Collected, ApplyEntry, ApplyAll, BaseName, JoinPath, OneLineNames;
    Spread(from, src);
    Spread(v, dest);
    CanonicalParent(src);
    var n := BaseName(src);
    LandsName(dest, n);
    var t := JoinPath(dest, n);
    JoinCanonical(dest, n);
    CollectTree(from, src, n);
    CollectedFirst(from, src, n);
    var es := Collected(from, src, n).value;
    ArchiveParses(es);
    LandTaken(v, dest, t, es[0]);
    ApplyFirst(v, dest, es);
  }

  /** A first entry that is refused decides, and so does an only one. */
  lemma ApplyFirst(v: Fs, dest: string, es: seq<Entry>)
    requires Canonical(dest) && es != [] && (|es| == 1 || !ApplyEntry(v, dest, es[0]).1.Extracted?)
    ensures ApplyAll(v, dest, es) == ApplyEntry(v, dest, es[0])
  {
  }

  /** The first entry is the path itself, and for a file the only one. */
  lemma CollectedFirst(v: Fs, src: string, arc: string)
    requires WellFormed(v) && src in v && Collected(v, src, arc).Some?
    ensures var es := Collected(v, src, arc).value;
      if v[src].File? then es == [FileEntry(arc, v[src].data)] else es != [] && es[0] == DirEntry(arc)
  {
    hide WellFormed, Canonical, Normalize;
    Spread(v, src);
    NormalizeIdentity("/", src);
  }

  lemma LandTaken(v: Fs, dest: string, target: string, e: Entry)
    requires WellFormed(v) && Lands(dest, e.path, target) && target in v && target != "/"
    ensures Canonical(dest)
    ensures ApplyEntry(v, dest, e) ==
      if e.DirEntry? then (v, CannotCreate)
      else if v[target].Dir? then (v, CannotWrite)
      else (v[target := File(e.data)], Extracted)
  {
    LandsAt(dest, e.path, target);
    Spread(v, target);
    CanonicalParent(target);
  }

  /** The root has no base name: its archive never extracts, anywhere, and changes nothing. */
  lemma RootNeverExtracts(from: Fs, v: Fs, dest: string)
    requires WellFormed(from) && WellFormed(v) && IsDir(v, dest)
    ensures Canonical(dest)
    ensures var r := ExtractText(v, dest, ArchiveOf(from, "/")); r.0 == v && !r.1.Extracted?
  {
    hide Canonical, Parse, Normalize, Collected;
    Spread(v, dest);
    assert BaseName("/") == "";
    CollectTree(from, "/", "");
    CollectedFirst(from, "/", "");
    ArchiveParses(Collected(from, "/", "").value);
    NormalizeHere(dest);
  }

  lemma NormalizeHere(dest: string)
    requires Canonical(dest)
    ensures dest != "" && dest[0] == '/' && Normalize("/", Normalize(dest, "")) == dest
  {
    NormalizeUnder(dest, ".");
    SplitOnPiece(".", '/');
    assert Resolve(dest, ["."]) == Resolve(dest, []);
    NormalizeIdentity("/", dest);
  }

  // ---------- The commands ----------

  lemma {:induction false} PrintConcat(a: seq<Entry>, b: seq<Entry>)
    ensures Print(a + b) == Print(a) + Print(b)
    decreases |a|
  {
    hide PrintEntry;
    if a == [] {
      assert a + b == b && Print(a) + Print(b) == Print(b);
    } else {
      assert (a + b)[0] == a[0] && (a + b)[1..] == a[1..] + b;
      PrintConcat(a[1..], b);
    }
  }

  lemma PrintNone(text: string)
    ensures text + Print([]) == text
  {
  }

  lemma PrintAppend(text: string, a: seq<Entry>, b: seq<Entry>)
    ensures text + Print(a) + Print(b) == text + Print(a + b)
  {
    hide Print;
    PrintConcat(a, b);
    assert text + Print(a) + Print(b) == text + (Print(a) + Print(b));
  }

  lemma PrintOne(e: Entry)
    ensures Print([e]) == PrintEntry(e)
  {
  }

  /** Appends the records of a path and of what lies beneath it. */
  method CollectEntries(fs: VirtualFs, source: string, arc: string, text: string) returns (ok: bool, out: string)
    requires fs.Disjoint()
    ensures ok <==> Collected(fs.View(), source, arc).Some?
    ensures ok ==> out == text + Print(Collected(fs.View(), source, arc).value)
    decreases Longer(fs.View(), source), 1, 0
  {
    hide Normalize, PrintEntry, ChildNames, Print, Longer, Sorted;
    var p := Normalize("/", source);
    if p !in fs.dirs && p !in fs.files {
      return false, text;
    }
    if p in fs.files {
      PrintOne(FileEntry(arc, fs.files[p]));
      return true, text + PrintEntry(FileEntry(arc, fs.files[p]));
    }
    var names := fs.Children(source);
    PrintOne(DirEntry(arc));
    ok, out := CollectAll(fs, source, arc, names, text + PrintEntry(DirEntry(arc)));
    if ok {
      ghost var es := CollectedAll(fs.View(), source, arc, names).value;
      PrintAppend(text, [DirEntry(arc)], es);
    }
  }

  method CollectAll(fs: VirtualFs, source: string, arc: string, names: seq<string>, text: string)
    returns (ok: bool, out: string)
    requires fs.Disjoint() && forall n :: n in names ==> n in ChildNames(fs.View().Keys, source)
    ensures ok <==> CollectedAll(fs.View(), source, arc, names).Some?
    ensures ok ==> out == text + Print(CollectedAll(fs.View(), source, arc, names).value)
    decreases Longer(fs.View(), source), 0, |names|
  {
    hide Normalize, PrintEntry, ChildNames, Collected, Print, Longer, JoinPath;
    if names == [] {
      PrintNone(text);
      return true, text;
    }
    ghost var v := fs.View();
    LongerChild(v, source, names[0]);
    var first := JoinPath(source, names[0]);
    var next;
    ok, next := CollectEntries(fs, first, ArchiveName(arc, names[0]), text);
    if !ok {
      return false, text;
    }
    ghost var es := Collected(v, first, ArchiveName(arc, names[0])).value;
    ok, out := CollectAll(fs, source, arc, names[1..], next);
    if ok {
      ghost var es' := CollectedAll(v, source, arc, names[1..]).value;
      PrintAppend(text, es, es');
    }
  }

  /** Extraction, with the parser's loop watched for `rounds` rounds. */
  method ExtractArchive(fs: VirtualFs, archive: string, dest: string, rounds: nat) returns (outcome: Outcome)
    requires fs.Disjoint() && Canonical(dest)
    modifies fs
    ensures fs.Disjoint()
    ensures var v, a := old(fs.View()), Normalize("/", archive);
      (fs.View(), outcome) == if a in v &&
        v[a].File? then ExtractParsed(v, dest, After(v[a].data, rounds)) else (v, NotFound)
  {
    hide After, Normalize, ApplyEntry;
    var content := fs.Read(archive);
    if content.None? {
      return NotFound;
    }
    var parsed := ParseEntries(content.value, rounds);
    if parsed.Running? {
      return Parsing;
    }
    if parsed.Raised? {
      return IndexError;
    }
    if parsed.result.None? {
      return InvalidArchive;
    }
    var es := parsed.result.value;
    ghost var v := fs.View();
    var i := 0;
    while i < |es|
      invariant 0 <= i <= |es| && fs.Disjoint()
      invariant ApplyAll(v, dest, es) == ApplyAll(fs.View(), dest, es[i..])
    {
      assert es[i..][0] == es[i] && es[i..][1..] == es[i + 1..];
      outcome := PlaceEntry(fs, dest, es[i]);
      if outcome != Extracted {
        return;
      }
      i := i + 1;
    }
    return Extracted;
  }

  method PlaceEntry(fs: VirtualFs, dest: string, e: Entry) returns (outcome: Outcome)
    requires fs.Disjoint() && Canonical(dest)
    modifies fs
    ensures fs.Disjoint() && (fs.View(), outcome) == ApplyEntry(old(fs.View()), dest, e)
  {
    hide Normalize, CanMkdir, CanWrite;
    if e.path != "" && e.path[0] == '/' {
      return InvalidPath;
    }
    CanonicalShape(dest);
    var absolute := Normalize(dest, e.path);
    match e {
      case DirEntry(_) =>
        var made := fs.Mkdir(absolute);
        return if made then Extracted else CannotCreate;
      case FileEntry(_, data) =>
        var written := fs.Write(absolute, data);
        return if written then Extracted else CannotWrite;
    }
  }
}
