/**
 Path strings of the mutable filesystem. Paths are C strings: a Dafny `string` holds the
 characters before the terminator. The tree lives only in these strings, so the facts that
 matter link the two ways the code reads them: the parent computed from the last slash, and
 children found by string prefix.
 */
module MfsPaths {
  import opened Strings

  const PATH_MAX := 96

  predicate ValidChar(c: char)
  {
    '!' <= c <= '~' && c !in {':', '*', '?', '"', '<', '>', '|'}
  }

  /** Absolute, printable, no empty component, no trailing slash except for the root, fits the buffer. */
  predicate ValidPath(p: string)
  {
    && 1 <= |p| < PATH_MAX
    && p[0] == '/'
    && (forall i :: 0 <= i < |p| ==> ValidChar(p[i]))
    && (forall i :: 1 <= i < |p| ==> p[i] != '/' || p[i - 1] != '/')
    && (|p| > 1 ==> p[|p| - 1] != '/')
  }

  method ValidatePath(p: string) returns (ok: bool)
    ensures ok <==> ValidPath(p)
  {
    if |p| == 0 || p[0] != '/' {
      return false;
    }
    var lastSlash := true;
    var i := 0;
    while i < PATH_MAX
      invariant 0 <= i <= PATH_MAX && i <= |p|
      invariant forall k :: 0 <= k < i ==> ValidChar(p[k])
      invariant forall k :: 1 <= k < i ==> p[k] != '/' || p[k - 1] != '/'
      invariant i > 0 ==> (lastSlash <==> p[i - 1] == '/')
    {
      if i == |p| {
        return !(i > 1 && lastSlash);
      }
      var c := p[i];
      if !ValidChar(c) {
        return false;
      }
      if c == '/' && lastSlash && i != 0 {
        return false;
      }
      lastSlash := c == '/';
      i := i + 1;
    }
    return false;
  }

  /** The root, or components behind one slash each: none empty, valid characters only, and room for the terminator. */
  lemma ValidExact(p: string)
    ensures ValidPath(p) <==>
      p == "/" ||
      (1 < |p| <= 95 && p[0] == '/' && forall n :: n in SplitOn(p[1..], '/') ==> n != "" && AllValid(n))
  {
    if |p| > 1 && p[0] == '/' {
      var s := p[1..];
      EmptyPieces(s);
      PiecesValid(s);
      var ps := SplitOn(s, '/');
      assert ps == [ps[0]] + ps[1..];
      assert "" !in ps <==> ps[0] != "" && "" !in ps[1..];
      SlashesApart(p, s);
      assert p == ['/'] + s;
      ValidCons('/', s);
    }
  }

  lemma SlashesApart(p: string, s: string)
    requires |p| > 1 && s == p[1..] && p[0] == '/'
    ensures s[0] != '/' && (forall i :: 0 <= i < |s| && s[i] == '/' ==> i + 1 < |s| && s[i + 1] != '/') <==>
      p[|p| - 1] != '/' && forall i :: 1 <= i < |p| ==> p[i] != '/' || p[i - 1] != '/'
  {
    assert forall i :: 1 <= i < |p| ==> p[i] == s[i - 1];
    assert forall i :: 0 <= i < |s| ==> s[i] == p[i + 1];
    if forall i :: 1 <= i < |p| ==> p[i] != '/' || p[i - 1] != '/' {
      assert p[1] != '/';
      forall i | 0 <= i < |s| && s[i] == '/' && i + 1 < |s| ensures s[i + 1] != '/' { assert p[i + 2] != '/'; }
    }
    if s[0] != '/' && forall i :: 0 <= i < |s| && s[i] == '/' ==> i + 1 < |s| && s[i + 1] != '/' {
      assert s[|s| - 1] != '/';
      forall i | 1 <= i < |p| ensures p[i] != '/' || p[i - 1] != '/' {
        if i > 1 && p[i - 1] == '/' { assert s[i - 2] == '/'; }
      }
    }
  }

  predicate AllValid(s: string) { forall i :: 0 <= i < |s| ==> ValidChar(s[i]) }

  /** The first piece is empty at a leading slash, a later one at a slash before another or at the end. */
  lemma {:induction false} EmptyPieces(s: string)
    ensures SplitOn(s, '/')[0] == "" <==> s == "" || s[0] == '/'
    ensures "" !in SplitOn(s, '/')[1..] <==>
      forall i :: 0 <= i < |s| && s[i] == '/' ==> i + 1 < |s| && s[i + 1] != '/'
  {
    if s != "" {
      var t, ps := s[1..], SplitOn(s, '/');
      EmptyPieces(t);
      var rest := SplitOn(t, '/');
      assert rest == [rest[0]] + rest[1..];
      assert ps[1..] == if s[0] == '/' then rest else rest[1..];
      assert forall i :: 0 <= i < |t| ==> t[i] == s[i + 1];
      assert forall i :: 1 <= i < |s| ==> s[i] == t[i - 1];
    }
  }

  lemma {:induction false} PiecesValid(s: string)
    ensures AllValid(s) <==> forall n :: n in SplitOn(s, '/') ==> AllValid(n)
  {
    hide ValidChar;
    if s != "" {
      var t, ps := s[1..], SplitOn(s, '/');
      PiecesValid(t);
      var rest := SplitOn(t, '/');
      assert s == [s[0]] + t && rest == [rest[0]] + rest[1..];
      ValidCons(s[0], t);
      SlashValid();
      if s[0] == '/' {
        assert forall n :: n in ps <==> n == "" || n in rest;
      } else {
        ValidCons(s[0], rest[0]);
        assert forall n :: n in ps <==> n == [s[0]] + rest[0] || n in rest[1..];
      }
    }
  }

  lemma ValidCons(c: char, s: string)
    ensures AllValid([c] + s) <==> ValidChar(c) && AllValid(s)
  {
    var t := [c] + s;
    assert t[0] == c && forall i :: 0 <= i < |s| ==> t[i + 1] == s[i];
  }

  lemma SlashValid()
    ensures ValidChar('/')
  {
  }

  function LastSlash(p: string): (k: nat)
    ensures k <= |p|
    ensures '/' in p ==> k < |p| && p[k] == '/' && '/' !in p[k + 1..]
    ensures forall i :: k < i < |p| ==> p[i] != '/'
    ensures '/' !in p ==> k == 0
  {
    if p == [] then 0
    else if p[|p| - 1] == '/' then |p| - 1
    else
      assert p == p[..|p| - 1] + [p[|p| - 1]];
      LastSlash(p[..|p| - 1])
  }

  function Parent(p: string): string
  {
    if LastSlash(p) == 0 then "/" else p[..LastSlash(p)]
  }

  method ParentPathOf(p: string) returns (parent: string)
    requires ValidPath(p)
    ensures parent == Parent(p)
  {
    var lastSlash := 0;
    var i := 0;
    while i < PATH_MAX && i < |p|
      invariant 0 <= i <= |p|
      invariant lastSlash == LastSlash(p[..i])
    {
      assert p[..i + 1] == p[..i] + [p[i]];
      assert p[..i + 1][..i] == p[..i];
      if p[i] == '/' {
        lastSlash := i;
      }
      i := i + 1;
    }
    assert p[..i] == p;
    if lastSlash == 0 {
      return "/";
    }
    return p[..lastSlash];
  }

  /** `q` lies strictly beneath directory `d`, as prefix comparison sees it. */
  predicate Beneath(q: string, d: string)
  {
    |q| > |d| && q[..|d|] == d && q[|d|] == '/'
  }

  /** The parent of a valid path is a valid path, and prefix detection finds every child of it. */
  lemma ParentIsPrefix(q: string)
    requires ValidPath(q)
    ensures ValidPath(Parent(q))
    ensures Parent(q) != "/" ==> Beneath(q, Parent(q)) && '/' !in q[|Parent(q)| + 1..]
  {
    var k := LastSlash(q);
    assert q[0] == '/' && '/' in q;
    if k > 0 {
      assert q[k] == '/' && q[k - 1] != '/';
      assert forall i :: 0 <= i < k ==> q[..k][i] == q[i];
    }
  }

  /** A path whose parent is another path is strictly longer, so parents never form a cycle. */
  lemma ParentShorter(q: string)
    requires ValidPath(q) && q != "/"
    ensures |Parent(q)| < |q|
  {
    var k := LastSlash(q);
    assert q[0] == '/' && '/' in q;
    assert |q| > 1;
    if k > 0 {
      assert k < |q|;
    }
  }
}
