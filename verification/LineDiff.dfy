/**
 The line diff of the git workspace. Both texts are read line by line in step, so a hunk is a
 maximal run of line numbers at which they differ. The hunks are proved to be a recipe for the
 new text, and a truncated list of them to be none.
 */
module LineDiff {
  import opened Machine
  import opened Strings

  datatype Hunk = Hunk(oldStart: nat, oldCount: nat, newStart: nat, newCount: nat)

  // ---------- Lines ----------

  function Lines(t: string): (ls: seq<string>)
    ensures ls != []
  {
    SplitOn(t, '\n')
  }

  /** How many lines the diff walks: none in an empty text, although it has one to read. */
  function Count(t: string): nat { if t == "" then 0 else |Lines(t)| }

  // ---------- The diff as a function ----------

  datatype Texts = Texts(o: seq<string>, n: seq<string>, oldLines: nat, newLines: nat)

  predicate Counted(ls: seq<string>, count: nat) { count == |ls| || (count == 0 && ls == [""]) }

  predicate Valid(t: Texts) { t.o != [] && t.n != [] && Counted(t.o, t.oldLines) && Counted(t.n, t.newLines) }

  function TextsOf(old_: string, new_: string): (t: Texts)
    ensures Valid(t)
  {
    EmptyLine();
    Texts(Lines(old_), Lines(new_), Count(old_), Count(new_))
  }

  lemma EmptyLine()
    ensures Lines("") == [""]
  {
  }

  /** Lines with number `k` are left to walk on some side. */
  predicate More(t: Texts, k: nat) { Min(k, |t.o|) < t.oldLines || Min(k, |t.n|) < t.newLines }

  predicate Same(t: Texts, k: nat) { k < |t.o| && k < |t.n| && t.o[k] == t.n[k] }

  function Last(t: Texts): nat { |t.o| + |t.n| }

  lemma MoreBounded(t: Texts, k: nat)
    requires Valid(t) && More(t, k)
    ensures k < |t.o| || k < |t.n|
  {
  }

  /** The end of the run of differing lines that includes `k - 1`. */
  function RunEnd(t: Texts, k: nat): (e: nat)
    requires Valid(t)
    ensures e >= k && (More(t, e) ==> Same(t, e))
    ensures forall j :: k <= j < e ==> More(t, j) && !Same(t, j)
    decreases Last(t) - k
  {
    if More(t, k) && !Same(t, k) then
      MoreBounded(t, k);
      RunEnd(t, k + 1)
    else k
  }

  function HunkOf(t: Texts, k: nat, e: nat): Hunk
    requires k <= e
  {
    Hunk(Min(k, |t.o|) + 1, Min(e, |t.o|) - Min(k, |t.o|), Min(k, |t.n|) + 1, Min(e, |t.n|) - Min(k, |t.n|))
  }

  function Hunks(t: Texts, k: nat): seq<Hunk>
    requires Valid(t)
    decreases Last(t) - k
  {
    if !More(t, k) then []
    else
      MoreBounded(t, k);
      if Same(t, k) then Hunks(t, k + 1)
      else
        var e := RunEnd(t, k + 1);
        [HunkOf(t, k, e)] + Hunks(t, e)
  }

  // ---------- Replaying hunks ----------

  /** A hunk within both texts, behind old line `pos`. */
  predicate HunkFits(h: Hunk, pos: nat, oldLen: nat, newLen: nat)
  {
    pos + 1 <= h.oldStart && OldEnd(h) <= oldLen && 1 <= h.newStart && h.newStart - 1 + h.newCount <= newLen
  }

  function OldEnd(h: Hunk): int { h.oldStart - 1 + h.oldCount }

  /** Hunks in order, within both texts, from old line `pos` on. */
  predicate Fits(hs: seq<Hunk>, pos: nat, oldLen: nat, newLen: nat)
  {
    if hs == [] then pos <= oldLen
    else HunkFits(hs[0], pos, oldLen, newLen) && Fits(hs[1..], OldEnd(hs[0]), oldLen, newLen)
  }

  /** The old lines before a hunk, then its new ones. */
  function Patch(o: seq<string>, n: seq<string>, h: Hunk, pos: nat): seq<string>
    requires HunkFits(h, pos, |o|, |n|)
  {
    o[pos..h.oldStart - 1] + n[h.newStart - 1..h.newStart - 1 + h.newCount]
  }

  /** The old lines from `pos` on with each hunk's old lines replaced by its new ones. */
  function Replay(o: seq<string>, n: seq<string>, hs: seq<Hunk>, pos: nat): seq<string>
    requires Fits(hs, pos, |o|, |n|)
    decreases |hs|
  {
    if hs == [] then o[pos..] else Patch(o, n, hs[0], pos) + Replay(o, n, hs[1..], OldEnd(hs[0]))
  }

  lemma {:induction false} HunksFit(t: Texts, k: nat, c: nat)
    requires Valid(t) && c <= |Hunks(t, k)|
    ensures Fits(Hunks(t, k)[..c], Min(k, |t.o|), |t.o|, |t.n|)
    decreases Last(t) - k
  {
    hide Fits, HunkOf, HunkFits, OldEnd, Min;
    var hs := Hunks(t, k)[..c];
    if c == 0 {
      MinFits(t, k);
      FitsNone(hs, Min(k, |t.o|), |t.o|, |t.n|);
    } else {
      MoreBounded(t, k);
      if Same(t, k) {
        HunksFit(t, k + 1, c);
        MinFits(t, k);
        FitsEarlier(hs, Min(k, |t.o|), Min(k + 1, |t.o|), |t.o|, |t.n|);
      } else {
        var e := RunEnd(t, k + 1);
        HunksFit(t, e, c - 1);
        assert hs[1..] == Hunks(t, e)[..c - 1];
        HunkOfFits(t, k, e);
        FitsCons(hs, Min(k, |t.o|), |t.o|, |t.n|);
      }
    }
  }

  lemma MinFits(t: Texts, k: nat)
    ensures Min(k, |t.o|) <= Min(k + 1, |t.o|) <= |t.o|
  {
  }

  lemma HunkOfFits(t: Texts, k: nat, e: nat)
    requires k <= e
    ensures HunkFits(HunkOf(t, k, e), Min(k, |t.o|), |t.o|, |t.n|) && OldEnd(HunkOf(t, k, e)) == Min(e, |t.o|)
  {
  }

  lemma FitsNone(hs: seq<Hunk>, pos: nat, oldLen: nat, newLen: nat)
    requires hs == [] && pos <= oldLen
    ensures Fits(hs, pos, oldLen, newLen)
  {
  }

  lemma FitsEarlier(hs: seq<Hunk>, pos: nat, later: nat, oldLen: nat, newLen: nat)
    requires pos <= later && Fits(hs, later, oldLen, newLen)
    ensures Fits(hs, pos, oldLen, newLen)
  {
  }

  lemma FitsCons(hs: seq<Hunk>, pos: nat, oldLen: nat, newLen: nat)
    requires hs != [] && HunkFits(hs[0], pos, oldLen, newLen) && Fits(hs[1..], OldEnd(hs[0]), oldLen, newLen)
    ensures Fits(hs, pos, oldLen, newLen)
  {
  }

  lemma ReplayEqualLine(o: seq<string>, n: seq<string>, hs: seq<Hunk>, pos: nat)
    requires pos < |o| && Fits(hs, pos, |o|, |n|) && Fits(hs, pos + 1, |o|, |n|)
    ensures Replay(o, n, hs, pos) == [o[pos]] + Replay(o, n, hs, pos + 1)
  {
  }

  /** The lines from `k` on: none behind the end, else line `k` and the lines behind it. */
  lemma Ahead(s: seq<string>, k: nat)
    ensures k < |s| ==> s[Min(k, |s|)..] == [s[k]] + s[Min(k + 1, |s|)..]
    ensures k >= |s| ==> s[Min(k, |s|)..] == []
  {
    if k < |s| { assert s[k..] == [s[k]] + s[k + 1..]; }
  }

  lemma NoneAhead(t: Texts, k: nat)
    requires Valid(t) && !More(t, k)
    ensures t.o[Min(k, |t.o|)..] == t.n[Min(k, |t.n|)..]
  {
    if k > 0 { assert k >= |t.o| && k >= |t.n|; }
  }

  /** A hunk still to come means that the remaining lines differ. */
  lemma {:induction false} HunkMeansDifferent(t: Texts, k: nat)
    requires Valid(t)
    ensures Hunks(t, k) == [] <==> t.o[Min(k, |t.o|)..] == t.n[Min(k, |t.n|)..]
    decreases Last(t) - k
  {
    hide RunEnd, HunkOf, Min;
    Ahead(t.o, k);
    Ahead(t.n, k);
    if More(t, k) {
      MoreBounded(t, k);
      if Same(t, k) { HunkMeansDifferent(t, k + 1); }
    } else {
      NoneAhead(t, k);
    }
  }

  /** Over an equal line, replaying from it and from the line behind it succeed together. */
  lemma ReplaySame(t: Texts, k: nat, hs: seq<Hunk>)
    requires Same(t, k) && Fits(hs, Min(k, |t.o|), |t.o|, |t.n|) && Fits(hs, Min(k + 1, |t.o|), |t.o|, |t.n|)
    ensures Replay(t.o, t.n, hs, Min(k, |t.o|)) == t.n[Min(k, |t.n|)..] <==>
      Replay(t.o, t.n, hs, Min(k + 1, |t.o|)) == t.n[Min(k + 1, |t.n|)..]
  {
    hide Replay, Fits, Min;
    MinIs(k, |t.o|);
    MinIs(k, |t.n|);
    ReplayEqualLine(t.o, t.n, hs, k);
    Headed(t.n, k, Replay(t.o, t.n, hs, k + 1));
  }

  /** Replaying the first `c` hunks gives the new lines exactly when there are no more than `c`. */
  lemma {:induction false} ReplayExact(t: Texts, k: nat, c: nat)
    requires Valid(t) && c <= |Hunks(t, k)|
    ensures Fits(Hunks(t, k)[..c], Min(k, |t.o|), |t.o|, |t.n|)
    ensures Replay(t.o, t.n, Hunks(t, k)[..c], Min(k, |t.o|)) == t.n[Min(k, |t.n|)..] <==> c == |Hunks(t, k)|
    decreases Last(t) - k
  {
    hide Replay, Fits, More, RunEnd, HunkOf, Min;
    HunksFit(t, k, c);
    var hs := Hunks(t, k)[..c];
    if c == 0 {
      ReplayNone(t.o, t.n, hs, Min(k, |t.o|));
      HunkMeansDifferent(t, k);
    } else {
      MoreBounded(t, k);
      if Same(t, k) {
        ReplayExact(t, k + 1, c);
        ReplaySame(t, k, hs);
      } else {
        var e := RunEnd(t, k + 1);
        ReplayExact(t, e, c - 1);
        assert hs[1..] == Hunks(t, e)[..c - 1];
        ReplayHunk(t, k, e, hs);
      }
    }
  }

  lemma ReplayNone(o: seq<string>, n: seq<string>, hs: seq<Hunk>, pos: nat)
    requires hs == [] && Fits(hs, pos, |o|, |n|)
    ensures pos <= |o| && Replay(o, n, hs, pos) == o[pos..]
  {
  }

  lemma MinIs(k: nat, n: nat)
    requires k < n
    ensures Min(k, n) == k && Min(k + 1, n) == k + 1
  {
  }

  lemma Headed(n: seq<string>, k: nat, rest: seq<string>)
    requires k < |n|
    ensures [n[k]] + rest == n[k..] <==> rest == n[k + 1..]
  {
  }

  lemma PatchHere(t: Texts, k: nat, e: nat)
    requires k <= e && HunkFits(HunkOf(t, k, e), Min(k, |t.o|), |t.o|, |t.n|)
    ensures Patch(t.o, t.n, HunkOf(t, k, e), Min(k, |t.o|)) == t.n[Min(k, |t.n|)..Min(e, |t.n|)]
    ensures OldEnd(HunkOf(t, k, e)) == Min(e, |t.o|)
  {
  }

  lemma ReplayHunk(t: Texts, k: nat, e: nat, hs: seq<Hunk>)
    requires k <= e && hs != [] && hs[0] == HunkOf(t, k, e) && Fits(hs, Min(k, |t.o|), |t.o|, |t.n|)
    ensures Fits(hs[1..], Min(e, |t.o|), |t.o|, |t.n|)
    ensures Replay(t.o, t.n, hs, Min(k, |t.o|)) == t.n[Min(k, |t.n|)..] <==>
      Replay(t.o, t.n, hs[1..], Min(e, |t.o|)) == t.n[Min(e, |t.n|)..]
  {
    hide Patch, OldEnd, HunkOf, HunkFits, Min;
    PatchHere(t, k, e);
    Prefixed(t.n, Min(k, |t.n|), Min(e, |t.n|), Replay(t.o, t.n, hs[1..], Min(e, |t.o|)));
  }

  lemma Prefixed(n: seq<string>, a: nat, b: nat, rest: seq<string>)
    requires a <= b <= |n|
    ensures n[a..b] + rest == n[a..] <==> rest == n[b..]
  {
  }

  // ---------- What the hunks are like ----------

  predicate CoversOld(h: Hunk, i: nat) { h.oldStart <= i + 1 < h.oldStart + h.oldCount }

  predicate CoversNew(h: Hunk, i: nat) { h.newStart <= i + 1 < h.newStart + h.newCount }

  /** A line is in a hunk if and only if the line of the same number in the other text is another one or missing. */
  lemma {:induction false} HunksCover(t: Texts, k: nat, i: nat)
    requires Valid(t) && k <= i
    ensures i < |t.o| ==> ((exists h :: h in Hunks(t, k) && CoversOld(h, i)) <==> !(i < |t.n| && t.o[i] == t.n[i]))
    ensures i < |t.n| ==> ((exists h :: h in Hunks(t, k) && CoversNew(h, i)) <==> !(i < |t.o| && t.o[i] == t.n[i]))
    decreases Last(t) - k
  {
    hide RunEnd, HunkOf, CoversOld, CoversNew;
    if More(t, k) {
      MoreBounded(t, k);
      var e := if Same(t, k) then k + 1 else RunEnd(t, k + 1);
      if i >= e {
        HunksCover(t, e, i);
      } else {
        HunksBehind(t, e, i);
      }
      HunkCovers(t, k, e, i);
      if !Same(t, k) {
        var hs, h := Hunks(t, k), HunkOf(t, k, e);
        assert hs == [h] + Hunks(t, e) && hs[0] == h;
        assert forall g :: g in hs <==> g == h || g in Hunks(t, e);
        assert i < e ==> !Same(t, i);
      }
    }
  }

  lemma HunkCovers(t: Texts, k: nat, e: nat, i: nat)
    requires k <= i && k <= e
    ensures i < |t.o| ==> (CoversOld(HunkOf(t, k, e), i) <==> i < e)
    ensures i < |t.n| ==> (CoversNew(HunkOf(t, k, e), i) <==> i < e)
  {
  }

  lemma {:induction false} HunksBehind(t: Texts, k: nat, i: nat)
    requires Valid(t) && i < k
    ensures i < |t.o| ==> forall h :: h in Hunks(t, k) ==> !CoversOld(h, i)
    ensures i < |t.n| ==> forall h :: h in Hunks(t, k) ==> !CoversNew(h, i)
    decreases Last(t) - k
  {
    hide RunEnd;
    if More(t, k) {
      MoreBounded(t, k);
      HunksBehind(t, if Same(t, k) then k + 1 else RunEnd(t, k + 1), i);
    }
  }

  /** Not empty, and separated by as many equal lines in the old text as in the new, at least one. */
  predicate Spaced(hs: seq<Hunk>)
  {
    && (forall i :: 0 <= i < |hs| ==> hs[i].oldCount + hs[i].newCount > 0)
    && forall i :: 0 <= i < |hs| - 1 ==>
         var gap := hs[i + 1].oldStart - (hs[i].oldStart + hs[i].oldCount);
         gap > 0 && gap == hs[i + 1].newStart - (hs[i].newStart + hs[i].newCount)
  }

  /** The hunk of a run of different lines is not empty and equally far from the next one in both texts. */
  lemma NextHunk(t: Texts, k: nat, e: nat)
    requires Valid(t) && More(t, k) && !Same(t, k) && e == RunEnd(t, k + 1)
    ensures var h, hs := HunkOf(t, k, e), Hunks(t, e);
      && h.oldCount + h.newCount > 0
      && (hs != [] ==> 0 < hs[0].oldStart - (h.oldStart + h.oldCount) == hs[0].newStart - (h.newStart + h.newCount))
  {
    hide RunEnd;
    MoreBounded(t, k);
    if More(t, e) {
      assert Hunks(t, e) == Hunks(t, e + 1);
      NextAligned(t, e + 1);
    }
  }

  lemma {:induction false} HunksSpaced(t: Texts, k: nat)
    requires Valid(t)
    ensures Spaced(Hunks(t, k))
    decreases Last(t) - k
  {
    hide Spaced, RunEnd, HunkOf, Same, More;
    if !More(t, k) {
      SpacedNone();
    } else {
      MoreBounded(t, k);
      if Same(t, k) {
        HunksSpaced(t, k + 1);
      } else {
        var e := RunEnd(t, k + 1);
        HunksSpaced(t, e);
        NextHunk(t, k, e);
        SpacedCons(HunkOf(t, k, e), Hunks(t, e));
      }
    }
  }

  lemma SpacedNone()
    ensures Spaced([])
  {
  }

  lemma SpacedCons(h: Hunk, hs: seq<Hunk>)
    requires Spaced(hs) && h.oldCount + h.newCount > 0
    requires hs != [] ==> 0 < hs[0].oldStart - (h.oldStart + h.oldCount) == hs[0].newStart - (h.newStart + h.newCount)
    ensures Spaced([h] + hs)
  {
  }

  /** Behind equal lines, the next hunk starts at the same line number on both sides. */
  lemma {:induction false} NextAligned(t: Texts, k: nat)
    requires Valid(t) && k <= |t.o| && k <= |t.n|
    ensures Hunks(t, k) != [] ==> Hunks(t, k)[0].oldStart == Hunks(t, k)[0].newStart > k
    decreases Last(t) - k
  {
    if More(t, k) && Same(t, k) { NextAligned(t, k + 1); }
  }

  /** The whole diff of two texts, replayed on the old text, is the new text; fewer hunks never are. */
  lemma DiffReplays(old_: string, new_: string, c: nat)
    requires c <= |Hunks(TextsOf(old_, new_), 0)|
    ensures var t := TextsOf(old_, new_);
      && Fits(Hunks(t, 0)[..c], 0, |t.o|, |t.n|)
      && (Replay(t.o, t.n, Hunks(t, 0)[..c], 0) == Lines(new_) <==> c == |Hunks(t, 0)|)
      && (c == |Hunks(t, 0)| ==> JoinWith(Replay(t.o, t.n, Hunks(t, 0)[..c], 0), '\n') == new_)
  {
    hide Hunks, SplitOn, JoinWith;
    var t := TextsOf(old_, new_);
    ReplayExact(t, 0, c);
    assert t.n[0..] == t.n;
    JoinSplit(new_, '\n');
  }

  // ---------- The loops ----------

  method CountLines(text: string) returns (lines: nat)
    ensures lines == Count(text)
  {
    if text == "" {
      return 0;
    }
    lines := 1;
    var i := 0;
    assert text[0..] == text;
    while i < |text|
      invariant 0 <= i <= |text| && |Lines(text)| == lines - 1 + |Lines(text[i..])|
    {
      assert text[i..][1..] == text[i + 1..];
      if text[i] == '\n' {
        lines := lines + 1;
      }
      i := i + 1;
    }
  }

  /** Finds a line by walking over all lines before it. */
  method GetLine(text: string, index: nat) returns (found: bool, start: nat, length: nat)
    ensures found <==> index < |Lines(text)|
    ensures found ==> start + length <= |text| && text[start..start + length] == Lines(text)[index]
  {
    hide SplitOn;
    var cur := 0;
    start, length := 0, 0;
    var i := 0;
    assert text[0..] == text;
    while i <= |text|
      invariant 0 <= start <= i <= |text| + 1 && cur <= index && (i == |text| + 1 ==> start == i)
      invariant i <= |text| ==> LinesFrom(text, cur, start) && '\n' !in text[start..i]
      invariant i == |text| + 1 ==> cur == |Lines(text)|
    {
      if i == |text| || text[i] == '\n' {
        NextLine(text, cur, start, i);
        if cur == index {
          length := i - start;
          return true, start, length;
        }
        cur := cur + 1;
        start := i + 1;
      }
      i := i + 1;
    }
    return false, start, length;
  }

  /** The lines from number `cur` on are those of the text from `start` on. */
  predicate LinesFrom(text: string, cur: nat, start: nat)
  {
    start <= |text| && cur <= |Lines(text)| && Lines(text)[cur..] == Lines(text[start..])
  }

  lemma NextLine(text: string, cur: nat, start: nat, i: nat)
    requires LinesFrom(text, cur, start) && start <= i <= |text| && '\n' !in text[start..i] &&
      (i < |text| ==> text[i] == '\n')
    ensures cur < |Lines(text)| && Lines(text)[cur] == text[start..i]
    ensures i < |text| ==> LinesFrom(text, cur + 1, i + 1)
    ensures i == |text| ==> cur + 1 == |Lines(text)|
  {
    hide SplitOn;
    var t, line := text[start..], text[start..i];
    SplitOnPiece(line, '\n');
    if i < |text| {
      var rest := text[i + 1..];
      assert t == line + ['\n'] + rest;
      SplitOnConcat(line, '\n', rest);
      assert Lines(t) == [line] + Lines(rest);
      assert Lines(text)[cur + 1..] == Lines(text)[cur..][1..] == Lines(rest);
    } else {
      assert t == line;
    }
    assert Lines(text)[cur..][0] == Lines(text)[cur];
  }

  method LinesEqual(a: string, b: string) returns (equal: bool)
    ensures equal <==> a == b
  {
    if |a| != |b| {
      return false;
    }
    var i := 0;
    while i < |a|
      invariant 0 <= i <= |a| && a[..i] == b[..i]
    {
      if a[i] != b[i] {
        assert a[i] != b[i];
        return false;
      }
      i := i + 1;
    }
    assert a == a[..i] && b == b[..i];
    return true;
  }

  /** Which sides have the next line, and whether both have the same. */
  method Peek(old_: string, new_: string, oi: nat, ni: nat) returns (haveOld: bool, haveNew: bool, equal: bool)
    ensures haveOld == (oi < |Lines(old_)|) && haveNew == (ni < |Lines(new_)|)
    ensures equal <==> haveOld && haveNew && Lines(old_)[oi] == Lines(new_)[ni]
  {
    hide SplitOn;
    var os, ol, ns, nl;
    haveOld, os, ol := GetLine(old_, oi);
    haveNew, ns, nl := GetLine(new_, ni);
    equal := false;
    if haveOld && haveNew {
      equal := LinesEqual(old_[os..os + ol], new_[ns..ns + nl]);
    }
  }

  /** Fills in hunks until the texts or the hunk array are used up. */
  method ComputeDiff(old_: string, new_: string, hunks: array<Hunk>, capacity: nat) returns (count: nat)
    requires capacity <= hunks.Length
    modifies hunks
    ensures var all := Hunks(TextsOf(old_, new_), 0); count == Min(capacity, |all|) && hunks[..count] == all[..count]
    ensures forall i :: count <= i < hunks.Length ==> hunks[i] == old(hunks[i])
  {
    hide SplitOn, RunEnd, HunkOf, Hunks, Counted, Count, Lines;
    ghost var t := TextsOf(old_, new_);
    ghost var all := Hunks(t, 0);
    ghost var k := 0;
    var oldLines := CountLines(old_);
    var newLines := CountLines(new_);
    var oi, ni := 0, 0;
    count := 0;
    assert hunks[..0] + Hunks(t, 0) == all;
    while oi < oldLines || ni < newLines
      invariant oi == Min(k, |t.o|) && ni == Min(k, |t.n|) && count <= capacity
      invariant all == hunks[..count] + Hunks(t, k)
      invariant forall i :: count <= i < hunks.Length ==> hunks[i] == old(hunks[i])
      decreases Last(t) - k
    {
      MoreBounded(t, k);
      if count >= capacity {
        return;
      }
      var haveOld, haveNew, equal := Peek(old_, new_, oi, ni);
      if equal {
        StepSame(t, k);
        oi, ni, k := oi + 1, ni + 1, k + 1;
        continue;
      }
      ghost var e, done := RunEnd(t, k + 1), hunks[..count];
      StepHunks(t, k, e);
      hunks[count], oi, ni := TakeRun(old_, new_, oldLines, newLines, oi, ni, haveOld, haveNew, k);
      assert hunks[..count + 1] == done + [HunkOf(t, k, e)];
      assert done + [HunkOf(t, k, e)] + Hunks(t, e) == done + ([HunkOf(t, k, e)] + Hunks(t, e));
      count, k := count + 1, e;
    }
    StepEnd(t, k);
    assert hunks[..count] + [] == hunks[..count];
  }

  /** The hunk that starts at a pair of lines that differ. */
  method TakeRun(old_: string, new_: string, oldLines: nat, newLines: nat, oi0: nat, ni0: nat, haveOld: bool,
      haveNew: bool, ghost k: nat)
    returns (h: Hunk, oi: nat, ni: nat)
    requires oldLines == Count(old_) && newLines == Count(new_)
    requires var t := TextsOf(old_, new_);
      oi0 == Min(k, |t.o|) && ni0 == Min(k, |t.n|) && haveOld == (oi0 < |t.o|) && haveNew == (ni0 < |t.n|)
    ensures var t := TextsOf(old_, new_); var e := RunEnd(t, k + 1);
      h == HunkOf(t, k, e) && oi == Min(e, |t.o|) && ni == Min(e, |t.n|)
  {
    hide SplitOn, RunEnd;
    oi := if haveOld then oi0 + 1 else oi0;
    ni := if haveNew then ni0 + 1 else ni0;
    ghost var e;
    oi, ni, e := ConsumeRun(old_, new_, oldLines, newLines, oi, ni, k + 1);
    h := Hunk(oi0 + 1, oi - oi0, ni0 + 1, ni - ni0);
  }

  lemma StepSame(t: Texts, k: nat)
    requires Valid(t) && More(t, k) && Same(t, k)
    ensures Hunks(t, k) == Hunks(t, k + 1)
  {
  }

  lemma StepEnd(t: Texts, k: nat)
    requires Valid(t) && !More(t, k)
    ensures Hunks(t, k) == []
  {
  }

  lemma StepHunks(t: Texts, k: nat, e: nat)
    requires Valid(t) && More(t, k) && !Same(t, k) && e == RunEnd(t, k + 1)
    ensures Hunks(t, k) == [HunkOf(t, k, e)] + Hunks(t, e)
  {
  }

  /** Walks on, one line on each side that has one, to the next equal pair of lines. */
  method ConsumeRun(old_: string, new_: string, oldLines: nat, newLines: nat, oi0: nat, ni0: nat, ghost k0: nat)
    returns (oi: nat, ni: nat, ghost k: nat)
    requires oldLines == Count(old_) && newLines == Count(new_) && k0 >= 1
    requires var t := TextsOf(old_, new_); oi0 == Min(k0, |t.o|) && ni0 == Min(k0, |t.n|)
    ensures var t := TextsOf(old_, new_); k == RunEnd(t, k0) && oi == Min(k, |t.o|) && ni == Min(k, |t.n|)
  {
    hide SplitOn;
    ghost var t := TextsOf(old_, new_);
    oi, ni, k := oi0, ni0, k0;
    while oi < oldLines || ni < newLines
      invariant k >= k0 && oi == Min(k, |t.o|) && ni == Min(k, |t.n|) && RunEnd(t, k0) == RunEnd(t, k)
      decreases Last(t) - k
    {
      MoreBounded(t, k);
      var haveOld, haveNew, equal := Peek(old_, new_, oi, ni);
      if equal {
        break;
      }
      if haveOld && oi < oldLines {
        oi := oi + 1;
      }
      if haveNew && ni < newLines {
        ni := ni + 1;
      }
      k := k + 1;
    }
  }
}
