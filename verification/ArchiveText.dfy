/**
 The bridge's archive format: a magic line, then one record per entry with a header that gives
 the lengths of path and data. The printer, the cursor-loop parser with Python's reading of
 numbers, indices and slices, when that parser ends, and how far the two agree.
 */
module ArchiveText {
  import opened Machine
  import opened Collections
  import opened Strings

  const MAGIC: string := "XAIOSARCHIVE\n"

  datatype Entry = DirEntry(path: string) | FileEntry(path: string, data: string)

  // ---------- Numbers ----------

  function Digit(d: nat): (c: char)
    requires d < 10
    ensures '0' <= c <= '9'
  {
    (d + '0' as int) as char
  }

  function Dec(n: nat): (s: string)
    ensures s != "" && forall i :: 0 <= i < |s| ==> '0' <= s[i] <= '9'
  {
    if n < 10 then [Digit(n)] else Dec(n / 10) + [Digit(n % 10)]
  }

  predicate IsDigit(c: char) { '0' <= c <= '9' }

  predicate IsSpace(c: char) { c == ' ' || 9 <= c as int <= 13 || 28 <= c as int <= 31 }

  function Strip(s: string): (r: string)
    ensures |r| <= |s|
  {
    if s != "" && IsSpace(s[0]) then Strip(s[1..])
    else if s != "" && IsSpace(s[|s| - 1]) then Strip(s[..|s| - 1])
    else s
  }

  /** Digits, with single underscores between them. */
  predicate Grouped(s: string)
  {
    && s != "" && IsDigit(s[0]) && IsDigit(s[|s| - 1])
    && (forall i :: 0 <= i < |s| ==> IsDigit(s[i]) || s[i] == '_')
    && forall i :: 0 < i < |s| ==> !(s[i - 1] == '_' && s[i] == '_')
  }

  function DigitOf(c: char): (d: nat)
    requires IsDigit(c)
    ensures d < 10
  {
    c as int - '0' as int
  }

  function Value(s: string): nat
    requires forall i :: 0 <= i < |s| ==> IsDigit(s[i]) || s[i] == '_'
  {
    if s == "" then 0
    else if s[|s| - 1] == '_' then Value(s[..|s| - 1])
    else 10 * Value(s[..|s| - 1]) + DigitOf(s[|s| - 1])
  }

  function ParseDigits(s: string, sign: int): Option<int>
  {
    if Grouped(s) then Some(sign * Value(s)) else None
  }

  /** `int(s, 10)` on strings without digits or spaces beyond ASCII. */
  function ParseInt(s: string): Option<int>
  {
    var t := Strip(s);
    if t != "" && t[0] == '-' then ParseDigits(t[1..], -1)
    else if t != "" && t[0] == '+' then ParseDigits(t[1..], 1)
    else ParseDigits(t, 1)
  }

  lemma {:induction false} DecValue(n: nat)
    ensures Value(Dec(n)) == n
  {
    var s := Dec(n);
    if n < 10 {
      assert s[..0] == "";
      assert Value(s) == 10 * Value("") + n;
    } else {
      DecValue(n / 10);
      assert s[..|s| - 1] == Dec(n / 10) && s[|s| - 1] == Digit(n % 10);
    }
  }

  lemma DecRoundTrip(n: nat)
    ensures ParseInt(Dec(n)) == Some(n)
  {
    hide Dec, Value;
    DecValue(n);
    assert Strip(Dec(n)) == Dec(n);
  }

  // ---------- Printing ----------

  function Kind(e: Entry): string { if e.DirEntry? then "D" else "F" }

  function Payload(e: Entry): string { if e.DirEntry? then "" else e.data }

  function Header(kind: string, pathLen: nat, size: nat, path: string): string
  {
    kind + " " + (Dec(pathLen) + " " + (Dec(size) + " " + path))
  }

  function PrintEntry(e: Entry): string
  {
    Header(Kind(e), |e.path|, |Payload(e)|, e.path) + "\n" + (Payload(e) + "\n")
  }

  function Print(es: seq<Entry>): string
  {
    if es == [] then "" else PrintEntry(es[0]) + Print(es[1..])
  }

  lemma SmallNumbers()
    ensures Dec(0) == "0" && Dec(1) == "1" && Dec(2) == "2" && Dec(3) == "3" && Dec(10) == "10"
  {
    assert Dec(10) == Dec(1) + [Digit(0)];
  }

  /** A directory and a file of two characters in it, as they are printed. */
  lemma PrintedExample()
    ensures Print([DirEntry("d"), FileEntry("d/a", "hi")]) == "D 1 0 d\n\nF 3 2 d/a\nhi\n"
  {
    hide Dec, PrintEntry;
    var d, f := DirEntry("d"), FileEntry("d/a", "hi");
    SmallNumbers();
    PrintedOne(d, "1", "0");
    PrintedOne(f, "3", "2");
    assert [d, f][1..] == [f] && [f][1..] == [];
    assert PrintEntry(d) == "D 1 0 d\n\n" && PrintEntry(f) == "F 3 2 d/a\nhi\n";
  }

  lemma PrintedOne(e: Entry, n: string, size: string)
    requires Dec(|e.path|) == n && Dec(|Payload(e)|) == size
    ensures PrintEntry(e) == Kind(e) + " " + n + " " + size + " " + e.path + "\n" + Payload(e) + "\n"
  {
    hide Dec;
  }

  // ---------- Parsing ----------

  /** `s.split(c, n)`. */
  function SplitAt(s: string, c: char, n: nat): (parts: seq<string>)
    ensures 1 <= |parts| <= n + 1
    decreases n
  {
    var k := IndexOf(s, c);
    if n == 0 || k == |s| then [s] else [s[..k]] + SplitAt(s[k + 1..], c, n - 1)
  }

  datatype HeaderFields = HeaderFields(kind: string, size: int, path: string)

  function ParseHeader(h: string): Option<HeaderFields>
  {
    var parts := SplitAt(h, ' ', 3);
    if |parts| != 4 || ParseInt(parts[1]).None? || ParseInt(parts[2]).None? then None
    else if |parts[3]| != ParseInt(parts[1]).value then None
    else Some(HeaderFields(parts[0], ParseInt(parts[2]).value, parts[3]))
  }

  predicate IsNewline(c: char) { c == '\r' || c == '\n' }

  /** `text[i]`: a negative index counts from the end. */
  function CharAt(text: string, i: int): char
    requires -|text| <= i < |text|
  {
    text[At(text, i)]
  }

  function At(text: string, i: int): nat
    requires -|text| <= i <= |text|
  {
    if i < 0 then |text| + i else i
  }

  /** `text[i:j]`. */
  function Slice(text: string, i: nat, j: int): string
    requires i <= |text| && -|text| <= j <= |text|
  {
    if i <= At(text, j) then text[i..At(text, j)] else ""
  }

  function SkipNewlines(text: string, c: int): (r: int)
    requires -|text| <= c <= |text|
    ensures c <= r <= |text| && (r < |text| ==> !IsNewline(CharAt(text, r)))
    decreases |text| - c
  {
    if c < |text| && IsNewline(CharAt(text, c)) then SkipNewlines(text, c + 1) else c
  }

  /** What reading a record gives: nothing, an index error, or an entry and the next cursor. */
  datatype Read = Malformed | OutOfRange | Got(entry: Entry, next: int)

  function ReadAt(text: string, c: int): (r: Read)
    requires -|text| <= c < |text|
    ensures r.Got? ==> -|text| <= r.next <= |text|
  {
    var start := At(text, c);
    var newline := start + IndexOf(text[start..], '\n');
    if newline == |text| then Malformed else Behind(text, newline + 1, ParseHeader(text[start..newline]))
  }

  /** The entry a header announces, with its data behind `next`. */
  function Behind(text: string, next: nat, header: Option<HeaderFields>): (r: Read)
    requires next <= |text|
    ensures r.Got? ==> -|text| <= r.next <= |text|
  {
    if header.None? then Malformed
    else if header.value.kind == "D" then Got(DirEntry(header.value.path), next)
    else if header.value.kind != "F" then Malformed
    else
      var end := next + header.value.size;
      if end > |text| then Malformed
      else if end < -|text| then OutOfRange
      else Got(FileEntry(header.value.path, Slice(text, next, end)),
               if end < |text| && CharAt(text, end) == '\n' then end + 1 else end)
  }

  datatype Progress = Running(entries: seq<Entry>, cursor: int) | Ended(result: Option<seq<Entry>>) | Raised

  predicate InText(text: string, p: Progress) { p.Running? ==> -|text| <= p.cursor <= |text| }

  /** One round of the parser's loop. */
  function Round(text: string, p: Progress): (q: Progress)
    requires InText(text, p)
    ensures InText(text, q)
  {
    if !p.Running? then p
    else
      var c := SkipNewlines(text, p.cursor);
      if c == |text| then Ended(Some(p.entries))
      else
        match ReadAt(text, c)
        case Malformed => Ended(None)
        case OutOfRange => Raised
        case Got(e, next) => Running(p.entries + [e], next)
  }

  /** The parser after `k` rounds. */
  function After(text: string, k: nat): (p: Progress)
    ensures InText(text, p)
  {
    if k > 0 then Round(text, After(text, k - 1))
    else if MAGIC <= text then Running([], |MAGIC|)
    else Ended(None)
  }

  method ParseEntries(text: string, rounds: nat) returns (p: Progress)
    ensures p == After(text, rounds) && (rounds >= Enough(text) ==> (p.Running? <==> Endless(text)))
    ensures rounds >= Enough(text) && !Endless(text) ==> p == Parse(text)
    ensures rounds >= Enough(text) && MAGIC <= text && !ParseRest(text[|MAGIC|..]).Stuck? ==>
      p == Conclusion([], ParseRest(text[|MAGIC|..]))
  {
    p := RunParser(text, rounds);
    if rounds >= Enough(text) {
      EnoughRounds(text, rounds);
      EndlessIff(text);
      if MAGIC <= text && !ParseRest(text[|MAGIC|..]).Stuck? { AdvancingEnds(text); }
    }
  }

  /** The loop itself. */
  method RunParser(text: string, rounds: nat) returns (p: Progress)
    ensures p == After(text, rounds)
  {
    hide ReadAt;
    if !(MAGIC <= text) {
      Halted(text, 0, rounds);
      return Ended(None);
    }
    var cursor: int := |MAGIC|;
    var entries := [];
    var k := 0;
    while k < rounds
      invariant 0 <= k <= rounds && -|text| <= cursor <= |text|
      invariant After(text, k) == Running(entries, cursor)
    {
      var next := PassNewlines(text, cursor);
      k := k + 1;
      if next >= |text| {
        Halted(text, k, rounds);
        return Ended(Some(entries));
      }
      var read := ReadAt(text, next);
      match read {
        case Malformed =>
          Halted(text, k, rounds);
          return Ended(None);
        case OutOfRange =>
          Halted(text, k, rounds);
          return Raised;
        case Got(e, behind) =>
          entries, cursor := entries + [e], behind;
      }
    }
    return Running(entries, cursor);
  }

  method PassNewlines(text: string, start: int) returns (cursor: int)
    requires -|text| <= start <= |text|
    ensures cursor == SkipNewlines(text, start)
  {
    cursor := start;
    while cursor < |text| && IsNewline(CharAt(text, cursor))
      invariant start <= cursor <= |text| && SkipNewlines(text, start) == SkipNewlines(text, cursor)
    {
      cursor := cursor + 1;
    }
  }

  // ---------- When the parser ends ----------

  lemma RoundHalts(text: string, p: Progress)
    requires !p.Running?
    ensures Round(text, p) == p
  {
    hide ReadAt, SkipNewlines;
  }

  /** A parser that has stopped stays so. */
  lemma {:induction false} Halted(text: string, i: nat, k: nat)
    requires i <= k && !After(text, i).Running?
    ensures After(text, k) == After(text, i)
  {
    hide Round;
    if i < k {
      Halted(text, i, k - 1);
      RoundHalts(text, After(text, k - 1));
    }
  }

  lemma RunningBefore(text: string, i: nat, k: nat)
    requires i <= k && After(text, k).Running?
    ensures After(text, i).Running?
  {
    if !After(text, i).Running? { Halted(text, i, k); }
  }

  /** Where the parser goes depends on its cursor alone. */
  lemma SameCursor(text: string, i: nat, j: nat)
    requires After(text, i).Running? && After(text, j).Running? && After(text, i).cursor == After(text, j).cursor
    ensures var p, q := After(text, i + 1), After(text, j + 1);
      (p.Running? <==> q.Running?) && (p.Running? ==> p.cursor == q.cursor)
  {
    hide ReadAt, SkipNewlines;
    var next, later := i + 1, j + 1;
    assert After(text, next) == Round(text, After(text, i)) && After(text, later) == Round(text, After(text, j));
  }

  ghost predicate Repeats(text: string, i: nat, j: nat)
  {
    i < j && After(text, i).Running? && After(text, j).Running? && After(text, i).cursor == After(text, j).cursor
  }

  lemma {:induction false} Follows(text: string, i: nat, j: nat, m: nat)
    requires Repeats(text, i, j) && After(text, i + m).Running?
    ensures After(text, j + m).Running? && After(text, i + m).cursor == After(text, j + m).cursor
  {
    hide After;
    if m > 0 {
      RunningBefore(text, i + m - 1, i + m);
      Follows(text, i, j, m - 1);
      SameCursor(text, i + m - 1, j + m - 1);
      assert i + m - 1 + 1 == i + m && j + m - 1 + 1 == j + m;
    }
  }

  /** A parser that comes back to a cursor goes round from there for ever. */
  lemma {:induction false} Loops(text: string, i: nat, j: nat, k: nat)
    requires Repeats(text, i, j)
    ensures After(text, k).Running?
  {
    hide After;
    if k <= j {
      RunningBefore(text, k, j);
    } else {
      Loops(text, i, j, i + (k - j));
      Follows(text, i, j, k - j);
    }
  }

  lemma Pigeonhole(s: seq<int>, lo: int, hi: int)
    requires lo <= hi && hi - lo < |s| && forall i :: 0 <= i < |s| ==> lo <= s[i] < hi
    ensures exists i, j :: 0 <= i < j < |s| && s[i] == s[j]
  {
    if Distinct(s) {
      DistinctSize(s);
      RangeSize(Elements(s), lo, hi);
    }
  }

  ghost function Cursors(text: string, k: nat): (s: seq<int>)
    requires After(text, k).Running?
    ensures |s| == k + 1
    ensures forall i {:trigger s[i]} :: 0 <= i <= k ==> After(text, i).Running? && s[i] == After(text, i).cursor
  {
    assert forall i {:trigger After(text, i)} :: 0 <= i <= k ==> After(text, i).Running? by {
      forall i | 0 <= i <= k ensures After(text, i).Running? { RunningBefore(text, i, k); }
    }
    seq(k + 1, i requires 0 <= i <= k && After(text, i).Running? => After(text, i).cursor)
  }

  /** More rounds than a run without repetition can have. */
  function Enough(text: string): nat { 2 * |text| + 1 }

  ghost predicate Endless(text: string) { forall k: nat :: After(text, k).Running? }

  ghost predicate ComesBack(text: string) { exists i, j :: 0 <= i < j <= Enough(text) && Repeats(text, i, j) }

  lemma LongRunRepeats(text: string)
    requires After(text, Enough(text)).Running?
    ensures ComesBack(text)
  {
    hide After;
    var s := Cursors(text, Enough(text));
    Pigeonhole(s, -|text|, |text| + 1);
    var i, j :| 0 <= i < j < |s| && s[i] == s[j];
    assert Repeats(text, i, j);
  }

  lemma ComesBackForever(text: string)
    requires ComesBack(text)
    ensures Endless(text)
  {
    hide After;
    var i, j :| 0 <= i < j <= Enough(text) && Repeats(text, i, j);
    forall k: nat ensures After(text, k).Running? { Loops(text, i, j, k); }
  }

  /**
   The parser runs for ever exactly when it comes back to a cursor it had before, and then it
   does so within as many rounds as there are cursors.
   */
  lemma EndlessIff(text: string)
    ensures Endless(text) <==> ComesBack(text)
    ensures Endless(text) <==> After(text, Enough(text)).Running?
  {
    hide After, ComesBack;
    if ComesBack(text) { ComesBackForever(text); }
    if After(text, Enough(text)).Running? { LongRunRepeats(text); }
  }

  /** What the parser comes to; still running means that it never ends. */
  ghost function Parse(text: string): Progress { After(text, Enough(text)) }

  /** Watched for that long, the parser has ended or never will: more rounds show the same, or that it still runs. */
  lemma EnoughRounds(text: string, rounds: nat)
    requires rounds >= Enough(text)
    ensures !Parse(text).Running? ==> After(text, rounds) == Parse(text)
    ensures Parse(text).Running? <==> After(text, rounds).Running?
  {
    hide After;
    EndlessIff(text);
    if !Parse(text).Running? { Halted(text, Enough(text), rounds); }
  }

  lemma ParseSettles(text: string, k: nat)
    requires !After(text, k).Running?
    ensures Parse(text) == After(text, k)
  {
    hide After;
    EndlessIff(text);
    if k <= Enough(text) { Halted(text, k, Enough(text)); } else { Halted(text, Enough(text), k); }
  }

  // ---------- Records as a grammar ----------

  /**
   A record at the head of `u` and the text behind it, or a record whose size leads back to its own start or before.
   */
  datatype Record = NoRecord | Backward | Record(entry: Entry, rest: string)

  function ParseRecord(u: string): (r: Record)
    ensures r.Record? ==> |r.rest| < |u|
  {
    var k := IndexOf(u, '\n');
    if k == |u| then NoRecord else RecordBehind(u, k + 1, ParseHeader(u[..k]))
  }

  function RecordBehind(u: string, next: nat, header: Option<HeaderFields>): (r: Record)
    requires 0 < next <= |u|
    ensures r.Record? ==> |r.rest| < |u|
  {
    if header.None? then NoRecord
    else if header.value.kind == "D" then Record(DirEntry(header.value.path), u[next..])
    else if header.value.kind != "F" then NoRecord
    else
      var end := next + header.value.size;
      if end > |u| then NoRecord
      else if end <= 0 then Backward
      else Record(FileEntry(header.value.path, if next <= end then u[next..end] else ""), DropNewline(u[end..]))
  }

  function DropNewline(t: string): (r: string)
    ensures |r| <= |t|
  {
    if t != "" && t[0] == '\n' then t[1..] else t
  }

  function TrimNewlines(t: string): (r: string)
    ensures |r| <= |t| && (r != "" ==> !IsNewline(r[0]))
  {
    if t != "" && IsNewline(t[0]) then TrimNewlines(t[1..]) else t
  }

  datatype Parsed = Entries(es: seq<Entry>) | Refused | Stuck

  /** The records of `t` one after the other, up to a text that is no record or a record that leads back. */
  function ParseRest(t: string): Parsed
    decreases |t|
  {
    var u := TrimNewlines(t);
    if u == "" then Entries([])
    else
      match ParseRecord(u)
      case NoRecord => Refused
      case Backward => Stuck
      case Record(e, rest) => Follow(e, ParseRest(rest))
  }

  function Follow(e: Entry, p: Parsed): Parsed { if p.Entries? then Entries([e] + p.es) else p }

  function Prepend(es: seq<Entry>, o: Option<seq<Entry>>): Option<seq<Entry>>
  {
    match o
    case None => None
    case Some(rest) => Some(es + rest)
  }

  /** The record at `c` with its header line of `k` characters. */
  lemma ReadLine(text: string, c: nat, k: nat)
    requires c + k < |text| && text[c + k] == '\n' && '\n' !in text[c..c + k]
    ensures ReadAt(text, c) == Behind(text, c + k + 1, ParseHeader(text[c..c + k]))
    ensures ParseRecord(text[c..]) == RecordBehind(text[c..], k + 1, ParseHeader(text[c..c + k]))
  {
    hide IndexOf, ParseHeader, Behind, RecordBehind;
    var u := text[c..];
    CutSuffix(text, c, c + k);
    IndexIs(u, k);
  }

  lemma IndexIs(u: string, k: nat)
    requires k < |u| && u[k] == '\n' && '\n' !in u[..k]
    ensures IndexOf(u, '\n') == k
  {
  }

  /**
   Read at a cursor, a record moves the cursor forward exactly when it is a directory or its size
   is greater than minus the length of its header line with the newline.
   */
  lemma AdvanceExact(text: string, c: nat, k: nat, h: HeaderFields)
    requires c + k < |text| && text[c + k] == '\n' && '\n' !in text[c..c + k] && !IsNewline(text[c])
    requires ParseHeader(text[c..c + k]) == Some(h) && ReadAt(text, c).Got?
    ensures ReadAt(text, c).next > c <==> h.kind == "D" || h.size > -(k + 1)
  {
    hide ReadAt, ParseHeader;
    ReadLine(text, c, k);
  }

  predicate SameRecord(text: string, c: nat, record: Record, read: Read)
  {
    match record
    case NoRecord => read.Malformed?
    case Backward => read.OutOfRange? || (read.Got? && read.next <= c)
    case Record(e, rest) => c < |text| - |rest| && read == Got(e, |text| - |rest|) && rest == text[|text| - |rest|..]
  }

  /** The cursor loop and the grammar read the same record, and differ only where the cursor does not advance. */
  lemma ReadsRecord(text: string, c: nat)
    requires c < |text| && !IsNewline(text[c])
    ensures SameRecord(text, c, ParseRecord(text[c..]), ReadAt(text, c))
  {
    hide IndexOf, ParseHeader, Behind, RecordBehind;
    var k := IndexOf(text[c..], '\n');
    if k < |text| - c {
      CutSuffix(text, c, c + k);
      assert '\n' !in text[c..c + k];
      ReadLine(text, c, k);
      SameBehind(text, c, c + k + 1, ParseHeader(text[c..c + k]));
    }
  }

  lemma SameRefusal(text: string, c: nat)
    ensures SameRecord(text, c, NoRecord, Malformed)
  {
  }

  lemma SameDir(text: string, c: nat, next: nat, path: string)
    requires c < next <= |text|
    ensures SameRecord(text, c, Record(DirEntry(path), text[c..][next - c..]), Got(DirEntry(path), next))
  {
    CutSuffix(text, c, next);
  }

  lemma SameFileRecord(text: string, c: nat, next: nat, h: HeaderFields)
    requires c < next <= |text| && !IsNewline(text[c]) && h.kind == "F"
    ensures SameRecord(text, c, RecordBehind(text[c..], next - c, Some(h)), Behind(text, next, Some(h)))
  {
    hide DropNewline, Slice, IsNewline;
    var end := next + h.size;
    if c < end <= |text| {
      SameFile(text, c, next, end);
    } else if end <= c {
      NotPast(text, c, end);
    }
  }

  lemma SameBehind(text: string, c: nat, next: nat, header: Option<HeaderFields>)
    requires c < next <= |text| && !IsNewline(text[c])
    ensures SameRecord(text, c, RecordBehind(text[c..], next - c, header), Behind(text, next, header))
  {
    hide SameRecord, Slice, DropNewline, IsNewline;
    if header.None? || (header.value.kind != "D" && header.value.kind != "F") {
      SameRefusal(text, c);
    } else if header.value.kind == "D" {
      SameDir(text, c, next, header.value.path);
    } else {
      SameFileRecord(text, c, next, header.value);
    }
  }

  lemma NotPast(text: string, c: nat, end: int)
    requires end <= c < |text| && !IsNewline(text[c])
    ensures -|text| <= end ==> (if CharAt(text, end) == '\n' then end + 1 else end) <= c
  {
  }

  lemma SameFile(text: string, c: nat, next: nat, end: nat)
    requires c < next <= |text| && c < end <= |text|
    ensures (if next <= end then text[c..][next - c..end - c] else "") == Slice(text, next, end)
    ensures var rest := DropNewline(text[c..][end - c..]);
      var behind := if end < |text| && text[end] == '\n' then end + 1 else end;
      |rest| == |text| - behind && rest == text[behind..]
  {
    CutSuffix(text, c, end);
    if next <= end { CutMiddle(text, c, next, end); }
    if end < |text| { CutSuffix(text, end, end); }
  }

  lemma CutMiddle(text: string, c: nat, i: nat, j: nat)
    requires c <= i <= j <= |text|
    ensures text[c..][i - c..j - c] == text[i..j]
  {
  }

  lemma {:induction false} SkipsSame(text: string, c: nat)
    requires c <= |text|
    ensures TrimNewlines(text[c..]) == text[SkipNewlines(text, c)..]
    decreases |text| - c
  {
    if c < |text| && IsNewline(text[c]) {
      assert text[c..][1..] == text[c + 1..];
      SkipsSame(text, c + 1);
    }
  }

  function Conclusion(es: seq<Entry>, p: Parsed): Progress { Ended(if p.Entries? then Some(es + p.es) else None) }

  lemma ConclusionFollows(es: seq<Entry>, e: Entry, p: Parsed)
    ensures Conclusion(es, Follow(e, p)) == Conclusion(es + [e], p)
  {
    if p.Entries? { assert es + [e] + p.es == es + ([e] + p.es); }
  }

  /** One round at cursor `c` reads the record that the grammar finds there. */
  lemma RoundParses(text: string, es: seq<Entry>, c: nat)
    requires c <= |text| && !ParseRest(text[c..]).Stuck?
    ensures var p := Round(text, Running(es, c));
      || p == Conclusion(es, ParseRest(text[c..]))
      || (p.Running? && c < p.cursor && !ParseRest(text[p.cursor..]).Stuck?
          && Conclusion(p.entries, ParseRest(text[p.cursor..])) == Conclusion(es, ParseRest(text[c..])))
  {
    hide ParseRecord, ReadAt;
    var at := SkipNewlines(text, c);
    SkipsSame(text, c);
    if at == |text| {
      assert es + [] == es;
    } else {
      ReadsRecord(text, at);
      var r := ParseRecord(text[at..]);
      if r.Record? {
        ConclusionFollows(es, r.entry, ParseRest(r.rest));
      }
    }
  }

  /** The parser from a cursor, on a text whose records all advance it. */
  lemma {:induction false} ParsesFrom(text: string, k: nat, c: nat) returns (m: nat)
    requires c <= |text| && After(text, k).Running? && After(text, k).cursor == c && !ParseRest(text[c..]).Stuck?
    ensures After(text, m) == Conclusion(After(text, k).entries, ParseRest(text[c..]))
    decreases |text| - c
  {
    hide Round, ParseRest;
    var next := k + 1;
    assert After(text, k) == Running(After(text, k).entries, c);
    assert After(text, next) == Round(text, After(text, k));
    RoundParses(text, After(text, k).entries, c);
    if After(text, next).Running? && After(text, next).cursor > c {
      m := ParsesFrom(text, next, After(text, next).cursor);
    } else {
      m := next;
    }
  }

  /** On a text whose records all advance the cursor, the loop ends with exactly its entries, or refuses it. */
  lemma AdvancingEnds(text: string)
    requires MAGIC <= text && !ParseRest(text[|MAGIC|..]).Stuck?
    ensures Parse(text) == Conclusion([], ParseRest(text[|MAGIC|..]))
  {
    hide ParseRest, Parse;
    assert After(text, 0) == Running([], |MAGIC|);
    var m := ParsesFrom(text, 0, |MAGIC|);
    ParseSettles(text, m);
  }

  // ---------- A record that leads back to itself ----------

  const BACK: string := "F 1 -9 a"

  lemma BackHeader()
    ensures ParseHeader(BACK) == Some(HeaderFields("F", -9, "a")) && '\n' !in BACK
  {
    hide SplitAt, Strip;
    assert BACK == "F" + " " + ("1" + " " + ("-9" + " " + "a"));
    SplitFirst("F", "1" + " " + ("-9" + " " + "a"), 2);
    SplitFirst("1", "-9" + " " + "a", 1);
    SplitFirst("-9", "a", 0);
    SplitNone("a");
    assert SplitAt(BACK, ' ', 3) == ["F", "1", "-9", "a"];
    BackNumbers();
  }

  lemma BackNumbers()
    ensures ParseInt("1") == Some(1) && ParseInt("-9") == Some(-9)
  {
    assert Strip("1") == "1" && Strip("-9") == "-9" && "-9"[1..] == "9";
    assert "1"[..0] == "" && "9"[..0] == "";
    assert Value("1") == 1 && Value("9") == 9;
  }

  function Copies(k: nat): seq<Entry> { if k == 0 then [] else Copies(k - 1) + [FileEntry("a", "")] }

  function BackText(): string { MAGIC + BACK + "\n" }

  lemma BackReads()
    ensures |BackText()| == |MAGIC| + 9 && MAGIC <= BackText() &&
      ReadAt(BackText(), |MAGIC|) == Got(FileEntry("a", ""), |MAGIC|)
    ensures SkipNewlines(BackText(), |MAGIC|) == |MAGIC|
  {
    hide ParseHeader, ReadAt, ParseRecord;
    var text := BackText();
    BackHeader();
    assert text[|MAGIC|..|MAGIC| + 8] == BACK;
    ReadLine(text, |MAGIC|, 8);
  }

  /**
   A file of size -9 behind a header line of nine characters: the parser adds the same entry in every round, for ever.
   */
  lemma {:induction false} NegativeSizeLoops(k: nat)
    ensures After(BackText(), k) == Running(Copies(k), |MAGIC|)
  {
    hide ReadAt, BackText;
    BackReads();
    if k > 0 {
      NegativeSizeLoops(k - 1);
    }
  }

  lemma CutSuffix(text: string, i: nat, j: nat)
    requires i <= j <= |text|
    ensures text[i..][..j - i] == text[i..j] && text[i..][j - i..] == text[j..]
    ensures j < |text| ==> text[i..][j - i + 1..] == text[j + 1..] && text[i..][j - i] == text[j]
  {
  }

  // ---------- Parsing what was printed ----------

  lemma IndexOfFirst(a: string, c: char, b: string)
    requires c !in a
    ensures IndexOf(a + [c] + b, c) == |a|
  {
    var s := a + [c] + b;
    assert s[|a|] == c && forall i :: 0 <= i < |a| ==> s[i] == a[i] != c;
  }

  lemma SplitFirst(a: string, b: string, n: nat)
    requires ' ' !in a
    ensures SplitAt(a + " " + b, ' ', n + 1) == [a] + SplitAt(b, ' ', n)
  {
    var s := a + " " + b;
    IndexOfFirst(a, ' ', b);
    assert s[..|a|] == a && s[|a| + 1..] == b;
  }

  lemma SplitNone(s: string)
    ensures SplitAt(s, ' ', 0) == [s]
  {
  }

  lemma HeaderParts(kind: string, pathLen: nat, size: nat, path: string)
    requires ' ' !in kind
    ensures SplitAt(Header(kind, pathLen, size, path), ' ', 3) == [kind, Dec(pathLen), Dec(size), path]
  {
    hide Dec, SplitAt;
    SplitFirst(kind, Dec(pathLen) + " " + (Dec(size) + " " + path), 2);
    SplitFirst(Dec(pathLen), Dec(size) + " " + path, 1);
    SplitFirst(Dec(size), path, 0);
    SplitNone(path);
  }

  /** A header is read back exactly when its path has the announced length. */
  lemma HeaderRoundTrip(kind: string, pathLen: nat, size: nat, path: string)
    requires ' ' !in kind
    ensures ParseHeader(Header(kind, pathLen, size, path)) ==
      if |path| == pathLen then Some(HeaderFields(kind, size, path)) else None
  {
    hide ParseInt, Dec, Header, SplitAt;
    HeaderParts(kind, pathLen, size, path);
    DecRoundTrip(pathLen);
    DecRoundTrip(size);
  }

  lemma HeaderOneLine(kind: string, pathLen: nat, size: nat, path: string)
    requires '\n' !in kind && '\n' !in path
    ensures '\n' !in Header(kind, pathLen, size, path)
  {
  }

  lemma RecordAt(header: string, tail: string)
    requires '\n' !in header
    ensures ParseRecord(header + "\n" + tail) == RecordBehind(header + "\n" + tail, |header| + 1, ParseHeader(header))
  {
    hide IndexOf, ParseHeader, RecordBehind;
    var u := header + "\n" + tail;
    IndexOfFirst(header, '\n', tail);
    assert u[..|header|] == header;
  }

  lemma Rejoin(a: string, b: string, c: string, d: string)
    ensures a + b + (c + b) + d == a + b + (c + b + d)
  {
  }

  /** A printed record is read back with arbitrary data, whatever follows it. */
  lemma RecordRoundTrip(e: Entry, rest: string)
    requires '\n' !in e.path
    ensures ParseRecord(PrintEntry(e) + rest) == Record(e, if e.DirEntry? then "\n" + rest else rest)
  {
    hide ParseRecord, ParseHeader, Header;
    var header, data := Header(Kind(e), |e.path|, |Payload(e)|, e.path), Payload(e);
    HeaderOneLine(Kind(e), |e.path|, |data|, e.path);
    HeaderRoundTrip(Kind(e), |e.path|, |data|, e.path);
    var tail := data + "\n" + rest;
    Rejoin(header, "\n", data, rest);
    RecordAt(header, tail);
    var u, next := header + "\n" + tail, |header| + 1;
    assert u[next..] == tail && u[next..next + |data|] == data && u[next + |data|..] == "\n" + rest &&
      ("\n" + rest)[1..] == rest;
  }

  /** A newline in the path cuts the header short, and its length no longer matches. */
  lemma RecordCut(e: Entry, rest: string)
    requires '\n' in e.path
    ensures ParseRecord(PrintEntry(e) + rest) == NoRecord
  {
    hide ParseRecord, ParseHeader, Header, IndexOf;
    var k := IndexOf(e.path, '\n');
    var p, q := e.path[..k], e.path[k + 1..];
    var header, data := Header(Kind(e), |e.path|, |Payload(e)|, p), Payload(e) + "\n";
    HeaderOneLine(Kind(e), |e.path|, |Payload(e)|, p);
    HeaderRoundTrip(Kind(e), |e.path|, |Payload(e)|, p);
    assert e.path == p + "\n" + q;
    HeaderCut(Kind(e), |e.path|, |Payload(e)|, p, q);
    RejoinCut(header, q, data, rest);
    RecordAt(header, q + ("\n" + data) + rest);
  }

  lemma HeaderCut(kind: string, pathLen: nat, size: nat, p: string, q: string)
    ensures Header(kind, pathLen, size, p + "\n" + q) == Header(kind, pathLen, size, p) + "\n" + q
  {
  }

  lemma RejoinCut(h: string, q: string, data: string, rest: string)
    ensures h + "\n" + q + "\n" + data + rest == h + "\n" + (q + ("\n" + data) + rest)
  {
  }

  predicate OneLinePaths(es: seq<Entry>) { forall i :: 0 <= i < |es| ==> '\n' !in es[i].path }

  lemma PrintStarts(e: Entry, rest: string)
    ensures var u := PrintEntry(e) + rest; u != "" && !IsNewline(u[0])
  {
  }

  /** Parsing a printed list returns it exactly when no path contains a newline, and nothing otherwise. */
  lemma {:induction false} PrintedParses(es: seq<Entry>)
    ensures ParseRest(Print(es)) == if OneLinePaths(es) then Entries(es) else Refused
  {
    hide PrintEntry, ParseRecord;
    if es != [] {
      var e, rest := es[0], Print(es[1..]);
      var u := PrintEntry(e) + rest;
      PrintStarts(e, rest);
      assert Print(es) == u && TrimNewlines(u) == u;
      PrintedParses(es[1..]);
      assert es == [e] + es[1..];
      if '\n' !in e.path {
        RecordRoundTrip(e, rest);
        assert ("\n" + rest)[1..] == rest;
        assert ParseRest("\n" + rest) == ParseRest(rest);
        assert OneLinePaths(es) <==> OneLinePaths(es[1..]);
      } else {
        RecordCut(e, rest);
      }
    }
  }

  function Archive(es: seq<Entry>): string { MAGIC + Print(es) }

  lemma ArchiveParses(es: seq<Entry>)
    ensures Parse(Archive(es)) == Ended(if OneLinePaths(es) then Some(es) else None)
  {
    hide ParseRest, Print, OneLinePaths, Parse;
    if OneLinePaths(es) { assert [] + es == es; }
    assert MAGIC <= Archive(es) && Archive(es)[|MAGIC|..] == Print(es);
    PrintedParses(es);
    AdvancingEnds(Archive(es));
  }
}
