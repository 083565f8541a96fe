/** Splitting and searching strings at a separator character. */
module Strings {

  function IndexOf(s: string, c: char): (k: nat)
    ensures k <= |s| && (k < |s| ==> s[k] == c) && forall i :: 0 <= i < k ==> s[i] != c
    ensures k == |s| <==> c !in s
  {
    if s == "" || s[0] == c then 0
    else
      assert s == [s[0]] + s[1..];
      1 + IndexOf(s[1..], c)
  }

  /** The pieces between separators; the empty string is one empty piece. */
  function SplitOn(s: string, c: char): (parts: seq<string>)
    ensures parts != []
  {
    if s == "" then [""]
    else
      var rest := SplitOn(s[1..], c);
      if s[0] == c then [""] + rest else [[s[0]] + rest[0]] + rest[1..]
  }

  lemma {:induction false} SplitOnConcat(p: string, c: char, q: string)
    ensures SplitOn(p + [c] + q, c) == SplitOn(p, c) + SplitOn(q, c)
    decreases |p|
  {
    var s := p + [c] + q;
    if p == "" {
      assert s[1..] == q;
    } else {
      assert s[1..] == p[1..] + [c] + q && s[0] == p[0];
      SplitOnConcat(p[1..], c, q);
    }
  }

  lemma {:induction false} SplitOnPiece(n: string, c: char)
    requires c !in n
    ensures SplitOn(n, c) == [n]
  {
    if n != "" {
      SplitOnPiece(n[1..], c);
      assert n == [n[0]] + n[1..];
    }
  }

  lemma {:induction false} SplitOnPieces(s: string, c: char)
    ensures forall i :: 0 <= i < |SplitOn(s, c)| ==> c !in SplitOn(s, c)[i]
  {
    if s != "" { SplitOnPieces(s[1..], c); }
  }

  /** Pieces put together again with the separator between them. */
  function JoinWith(parts: seq<string>, c: char): string
  {
    if parts == [] then "" else if |parts| == 1 then parts[0] else parts[0] + [c] + JoinWith(parts[1..], c)
  }

  lemma {:induction false} JoinSplit(s: string, c: char)
    ensures JoinWith(SplitOn(s, c), c) == s
  {
    if s != "" {
      JoinSplit(s[1..], c);
      var rest := SplitOn(s[1..], c);
      if s[0] == c {
        assert ([""] + rest)[1..] == rest;
        assert s == "" + [c] + s[1..];
      } else {
        var parts := [[s[0]] + rest[0]] + rest[1..];
        assert parts[1..] == rest[1..];
        assert s == [s[0]] + s[1..];
        assert |rest| > 1 ==>
          parts[0] + [c] + JoinWith(rest[1..], c) == [s[0]] + (rest[0] + [c] + JoinWith(rest[1..], c));
      }
    }
  }
}
