/**
 Byte-pair encoding on values: which rule a token pair takes, which merge a token list takes
 next, the text a token list spells, and what sorting the rules does to all of these.
 */
module BpeSpec {
  import opened Machine

  const INT32_MAX: int := 0x7FFF_FFFF
  const INT32_MIN: int := -0x8000_0000
  const NO_TOKEN: nat := 0xFFFF_FFFF
  const MAX_CURRENT: nat := 8192

  datatype Rule = Rule(a: nat, b: nat, merged: nat, priority: int)

  type Tokens = seq<nat>
  type Text = seq<byte>

  predicate Matches(r: Rule, a: nat, b: nat) { r.a == a && r.b == b }

  // ---------- Which rule a pair takes ----------

  function Better(o: Option<Rule>, r: Rule, a: nat, b: nat): Option<Rule>
  {
    if Matches(r, a, b) && (o.None? || r.priority < o.value.priority) then Some(r) else o
  }

  /** The earliest of the matching rules of lowest priority number, over rules in any order. */
  function Best(rules: seq<Rule>, a: nat, b: nat): Option<Rule>
  {
    if rules == [] then None
    else Better(Best(rules[..|rules| - 1], a, b), rules[|rules| - 1], a, b)
  }

  /** One more rule: it is the least, or the least so far stays it. */
  lemma LeastStep(rules: seq<Rule>, a: nat, b: nat, i: nat)
    requires i < |rules| - 1 && EarliestLeast(rules[..|rules| - 1], a, b, i)
    ensures var n := |rules| - 1;
      if Matches(rules[n], a, b) && rules[n].priority < rules[i].priority then EarliestLeast(rules, a, b, n)
      else EarliestLeast(rules, a, b, i)
  {
    var front := rules[..|rules| - 1];
    assert forall j :: 0 <= j < |front| ==> front[j] == rules[j];
  }

  lemma OnlyMatch(rules: seq<Rule>, a: nat, b: nat)
    requires rules != [] && Matches(rules[|rules| - 1], a, b)
    requires forall j :: 0 <= j < |rules| - 1 ==> !Matches(rules[j], a, b)
    ensures EarliestLeast(rules, a, b, |rules| - 1)
  {
  }

  /** What `Best` means. */
  lemma {:induction false} BestIsLeast(rules: seq<Rule>, a: nat, b: nat)
    ensures Best(rules, a, b).None? <==> forall i :: 0 <= i < |rules| ==> !Matches(rules[i], a, b)
    ensures Best(rules, a, b).Some? ==>
      exists i :: 0 <= i < |rules| && EarliestLeast(rules, a, b, i) && rules[i] == Best(rules, a, b).value
  {
    hide EarliestLeast;
    if rules != [] {
      var n := |rules| - 1;
      var front := rules[..n];
      BestIsLeast(front, a, b);
      if Best(front, a, b).Some? {
        var i :| 0 <= i < |front| && EarliestLeast(front, a, b, i) && front[i] == Best(front, a, b).value;
        LeastStep(rules, a, b, i);
      } else if Matches(rules[n], a, b) {
        assert forall j :: 0 <= j < n ==> front[j] == rules[j];
        OnlyMatch(rules, a, b);
      }
    }
  }

  predicate EarliestLeast(rules: seq<Rule>, a: nat, b: nat, i: nat)
    requires i < |rules|
  {
    Matches(rules[i], a, b) &&
    forall j :: 0 <= j < |rules| && Matches(rules[j], a, b) ==>
      rules[i].priority <= rules[j].priority && (j < i ==> rules[i].priority < rules[j].priority)
  }

  function FirstMatch(rules: seq<Rule>, a: nat, b: nat): Option<Rule>
  {
    if rules == [] then None
    else if Matches(rules[0], a, b) then Some(rules[0])
    else FirstMatch(rules[1..], a, b)
  }

  // ---------- Sorting ----------

  predicate Ordered(rules: seq<Rule>) { forall i, j :: 0 <= i < j < |rules| ==> rules[i].priority <= rules[j].priority }

  /** Places a rule behind those of lower or equal priority number. */
  function Insert(rules: seq<Rule>, r: Rule): (s: seq<Rule>)
    ensures |s| == |rules| + 1
  {
    if rules == [] || rules[|rules| - 1].priority <= r.priority then rules + [r]
    else Insert(rules[..|rules| - 1], r) + [rules[|rules| - 1]]
  }

  function Sort(rules: seq<Rule>): (s: seq<Rule>)
    ensures |s| == |rules|
  {
    if rules == [] then [] else Insert(Sort(rules[..|rules| - 1]), rules[|rules| - 1])
  }

  lemma {:induction false} InsertOrdered(rules: seq<Rule>, r: Rule)
    requires Ordered(rules)
    ensures Ordered(Insert(rules, r))
  {
    InsertElements(rules, r);
    if rules != [] && rules[|rules| - 1].priority > r.priority {
      var front, last := rules[..|rules| - 1], rules[|rules| - 1];
      assert rules == front + [last];
      InsertOrdered(front, r);
      InsertElements(front, r);
      var s := Insert(front, r);
      forall i | 0 <= i < |s| ensures s[i].priority <= last.priority {
        assert s[i] in multiset(s);
        assert s[i] in front || s[i] == r;
      }
    }
  }

  lemma {:induction false} InsertElements(rules: seq<Rule>, r: Rule)
    ensures multiset(Insert(rules, r)) == multiset(rules) + multiset{r}
  {
    if rules != [] && rules[|rules| - 1].priority > r.priority {
      InsertElements(rules[..|rules| - 1], r);
      assert rules == rules[..|rules| - 1] + [rules[|rules| - 1]];
    }
  }

  /** Sorting permutes the rules into priority order. */
  lemma {:induction false} SortOrders(rules: seq<Rule>)
    ensures Ordered(Sort(rules)) && multiset(Sort(rules)) == multiset(rules)
  {
    if rules != [] {
      var front, last := rules[..|rules| - 1], rules[|rules| - 1];
      assert rules == front + [last];
      SortOrders(front);
      InsertOrdered(Sort(front), last);
      InsertElements(Sort(front), last);
    }
  }

  lemma BestAppend(rules: seq<Rule>, r: Rule, a: nat, b: nat)
    ensures Best(rules + [r], a, b) == Better(Best(rules, a, b), r, a, b)
  {
  }

  /** Inserting in order finds the same best rule as appending: rules of equal priority keep their order. */
  lemma {:induction false} InsertBest(rules: seq<Rule>, r: Rule, a: nat, b: nat)
    ensures Best(Insert(rules, r), a, b) == Best(rules + [r], a, b)
  {
    if rules != [] && rules[|rules| - 1].priority > r.priority {
      var front, last := rules[..|rules| - 1], rules[|rules| - 1];
      InsertBest(front, r, a, b);
      BestAppend(Insert(front, r), last, a, b);
      BestAppend(front, r, a, b);
      BestAppend(front, last, a, b);
      BestAppend(rules, r, a, b);
      assert rules == front + [last];
    }
  }

  lemma {:induction false} SortBest(rules: seq<Rule>, a: nat, b: nat)
    ensures Best(Sort(rules), a, b) == Best(rules, a, b)
  {
    if rules != [] {
      var front, last := rules[..|rules| - 1], rules[|rules| - 1];
      SortBest(front, a, b);
      InsertBest(Sort(front), last, a, b);
      BestAppend(Sort(front), last, a, b);
    }
  }

  lemma {:induction false} OrderedFirst(rules: seq<Rule>, a: nat, b: nat)
    requires Ordered(rules)
    ensures FirstMatch(rules, a, b) == Best(rules, a, b)
  {
    if rules != [] {
      var n := |rules| - 1;
      OrderedFirst(rules[..n], a, b);
      FirstAppend(rules[..n], rules[n], a, b);
      assert rules == rules[..n] + [rules[n]];
      BestIsLeast(rules[..n], a, b);
    }
  }

  lemma {:induction false} FirstAppend(rules: seq<Rule>, r: Rule, a: nat, b: nat)
    ensures FirstMatch(rules + [r], a, b) ==
      if FirstMatch(rules, a, b).Some? then FirstMatch(rules, a, b) else if Matches(r, a, b) then Some(r) else None
  {
    if rules == [] {
      assert [r][1..] == [];
    } else {
      assert (rules + [r])[0] == rules[0] && (rules + [r])[1..] == rules[1..] + [r];
      FirstAppend(rules[1..], r, a, b);
    }
  }

  /** The first match in the sorted table is the best rule of the unsorted set. */
  lemma SortedLookup(rules: seq<Rule>, a: nat, b: nat)
    ensures FirstMatch(Sort(rules), a, b) == Best(rules, a, b)
  {
    SortOrders(rules);
    OrderedFirst(Sort(rules), a, b);
    SortBest(rules, a, b);
  }

  // ---------- Which merge a token list takes ----------

  /** The rule that may merge tokens `i` and `i + 1`; the largest priority number never applies. */
  function MergeAt(rules: seq<Rule>, ts: Tokens, i: nat): Option<Rule>
    requires i + 1 < |ts|
  {
    var r := Best(rules, ts[i], ts[i + 1]);
    if r.Some? && r.value.priority < INT32_MAX then r else None
  }

  /** Position `i` holds the leftmost merge of lowest priority number among the first `n` pairs. */
  predicate Leading(rules: seq<Rule>, ts: Tokens, i: nat, n: nat)
    requires i < n < |ts|
  {
    MergeAt(rules, ts, i).Some? &&
    forall j :: 0 <= j < n && MergeAt(rules, ts, j).Some? ==>
      var p, q := MergeAt(rules, ts, i).value.priority, MergeAt(rules, ts, j).value.priority;
      p <= q && (j < i ==> p < q)
  }

  predicate NoneAmong(rules: seq<Rule>, ts: Tokens, n: nat)
    requires n < |ts|
  {
    forall j :: 0 <= j < n ==> MergeAt(rules, ts, j).None?
  }

  lemma LeadingUnique(rules: seq<Rule>, ts: Tokens, i: nat, j: nat, n: nat)
    requires i < n < |ts| && j < n && Leading(rules, ts, i, n) && Leading(rules, ts, j, n)
    ensures i == j
  {
  }

  lemma {:induction false} LeadingExists(rules: seq<Rule>, ts: Tokens, n: nat)
    requires n < |ts|
    ensures NoneAmong(rules, ts, n) || exists i :: 0 <= i < n && Leading(rules, ts, i, n)
  {
    hide Best;
    if n > 0 {
      LeadingExists(rules, ts, n - 1);
      var m := MergeAt(rules, ts, n - 1);
      if NoneAmong(rules, ts, n - 1) {
        if m.Some? { assert Leading(rules, ts, n - 1, n); }
      } else {
        var i :| 0 <= i < n - 1 && Leading(rules, ts, i, n - 1);
        if m.Some? && m.value.priority < MergeAt(rules, ts, i).value.priority {
          assert Leading(rules, ts, n - 1, n);
        } else {
          assert Leading(rules, ts, i, n);
        }
      }
    }
  }

  /** The next merge: leftmost of lowest priority number, if it yields a token. */
  ghost function NextMerge(rules: seq<Rule>, ts: Tokens): (r: Option<nat>)
    ensures r.Some? ==> r.value + 1 < |ts|
  {
    if |ts| < 2 || NoneAmong(rules, ts, |ts| - 1) then None
    else
      LeadingExists(rules, ts, |ts| - 1);
      var i :| 0 <= i < |ts| - 1 && Leading(rules, ts, i, |ts| - 1);
      if MergeAt(rules, ts, i).value.merged == NO_TOKEN then None else Some(i)
  }

  function Merged(ts: Tokens, i: nat, t: nat): (r: Tokens)
    requires i + 1 < |ts|
    ensures |r| == |ts| - 1
  {
    ts[..i] + [t] + ts[i + 2..]
  }

  /** Merging until no merge applies. */
  ghost function Reduce(rules: seq<Rule>, ts: Tokens): (r: Tokens)
    ensures |r| <= |ts| && (ts != [] ==> r != [])
    ensures NextMerge(rules, r).None?
    decreases |ts|
  {
    var m := NextMerge(rules, ts);
    if m.None? then ts
    else
      NextMergeAt(rules, ts, m.value);
      Reduce(rules, Merged(ts, m.value, MergeAt(rules, ts, m.value).value.merged))
  }

  lemma NextMergeAt(rules: seq<Rule>, ts: Tokens, i: nat)
    requires NextMerge(rules, ts) == Some(i)
    ensures i + 1 < |ts| && Leading(rules, ts, i, |ts| - 1) && MergeAt(rules, ts, i).value.merged != NO_TOKEN
  {
  }

  /** Nothing to merge, exactly when no rule applies anywhere or the leading one yields no token. */
  lemma NextMergeNone(rules: seq<Rule>, ts: Tokens)
    requires |ts| >= 2
    ensures NextMerge(rules, ts).None? <==>
      NoneAmong(rules, ts, |ts| - 1) ||
      exists i :: 0 <= i < |ts| - 1 && Leading(rules, ts, i, |ts| - 1) && MergeAt(rules, ts, i).value.merged == NO_TOKEN
  {
  }

  /** A pair can merge exactly when a rule for it has a priority number below the largest. */
  lemma MergeAtExact(rules: seq<Rule>, ts: Tokens, i: nat)
    requires i + 1 < |ts|
    ensures MergeAt(rules, ts, i).Some? <==>
      exists k :: 0 <= k < |rules| && Matches(rules[k], ts[i], ts[i + 1]) && rules[k].priority < INT32_MAX
  {
    hide Best;
    BestIsLeast(rules, ts[i], ts[i + 1]);
  }

  /**
   The pair that merges next: its best rule applies and yields a token, every pair to its left
   has no rule or one of greater priority number, and no pair to its right one of smaller.
   */
  lemma NextMergeExact(rules: seq<Rule>, ts: Tokens, i: nat)
    requires i + 1 < |ts|
    ensures NextMerge(rules, ts) == Some(i) <==>
      var best := Best(rules, ts[i], ts[i + 1]);
      && best.Some? && best.value.priority < INT32_MAX && best.value.merged != NO_TOKEN
      && (forall j :: 0 <= j < i ==>
            var o := Best(rules, ts[j], ts[j + 1]); o.None? || o.value.priority > best.value.priority)
      && (forall j :: i < j < |ts| - 1 ==>
            var o := Best(rules, ts[j], ts[j + 1]); o.None? || o.value.priority >= best.value.priority)
  {
    hide Best, Leading, NextMerge;
    LeadingExact(rules, ts, i);
    if Leading(rules, ts, i, |ts| - 1) {
      LeadingNext(rules, ts, i);
    } else if NextMerge(rules, ts) == Some(i) {
      NextMergeAt(rules, ts, i);
    }
  }

  lemma LeadingNext(rules: seq<Rule>, ts: Tokens, i: nat)
    requires i + 1 < |ts| && Leading(rules, ts, i, |ts| - 1)
    ensures MergeAt(rules, ts, i).Some?
    ensures NextMerge(rules, ts) == if MergeAt(rules, ts, i).value.merged == NO_TOKEN then None else Some(i)
  {
    hide Best, NextMerge, MergeAt;
    var m, n := NextMerge(rules, ts), |ts| - 1;
    if m.Some? {
      NextMergeAt(rules, ts, m.value);
      LeadingUnique(rules, ts, i, m.value, n);
    } else {
      NextMergeNone(rules, ts);
      var j :| 0 <= j < n && Leading(rules, ts, j, n) && MergeAt(rules, ts, j).value.merged == NO_TOKEN;
      LeadingUnique(rules, ts, i, j, n);
    }
  }

  lemma LeadingExact(rules: seq<Rule>, ts: Tokens, i: nat)
    requires i + 1 < |ts|
    ensures Leading(rules, ts, i, |ts| - 1) <==>
      var best := Best(rules, ts[i], ts[i + 1]);
      && best.Some? && best.value.priority < INT32_MAX
      && (forall j :: 0 <= j < i ==>
            var o := Best(rules, ts[j], ts[j + 1]); o.None? || o.value.priority > best.value.priority)
      && (forall j :: i < j < |ts| - 1 ==>
            var o := Best(rules, ts[j], ts[j + 1]); o.None? || o.value.priority >= best.value.priority)
  {
    hide Best;
    if Leading(rules, ts, i, |ts| - 1) {
      forall j | 0 <= j < |ts| - 1
        ensures var o, best := Best(rules, ts[j], ts[j + 1]), Best(rules, ts[i], ts[i + 1]);
          o.None? || o.value.priority > best.value.priority || (j >= i && o.value.priority == best.value.priority)
      {
        assert MergeAt(rules, ts, j).None? ==> true;
      }
    }
  }

  function Repeat(t: nat, n: nat): (ts: Tokens)
    ensures |ts| == n && forall i :: 0 <= i < n ==> ts[i] == t
  {
    seq(n, _ => t)
  }

  /** A token that a rule merges with itself pairs up from the left: half as many, and the odd one last. */
  lemma ReduceRepeated(a: nat, m: nat, p: int, n: nat)
    requires m != a && m != NO_TOKEN && p < INT32_MAX
    ensures Reduce([Rule(a, a, m, p)], Repeat(a, n)) == Repeat(m, n / 2) + Repeat(a, n % 2)
  {
    assert Repeat(m, 0) + Repeat(a, n) == Repeat(a, n);
    ReduceTail(a, m, p, 0, n);
  }

  lemma {:induction false} ReduceTail(a: nat, m: nat, p: int, k: nat, n: nat)
    requires m != a && m != NO_TOKEN && p < INT32_MAX
    ensures Reduce([Rule(a, a, m, p)], Repeat(m, k) + Repeat(a, n)) == Repeat(m, k + n / 2) + Repeat(a, n % 2)
    decreases n
  {
    hide NextMerge, Best, MergeAt, Merged, Reduce;
    TailNext(a, m, p, k, n);
    var rules, ts := [Rule(a, a, m, p)], Repeat(m, k) + Repeat(a, n);
    ReduceStep(rules, ts);
    if n >= 2 {
      TailMerged(a, m, k, n);
      ReduceTail(a, m, p, k + 1, n - 2);
    }
  }

  lemma ReduceStep(rules: seq<Rule>, ts: Tokens)
    ensures var next := NextMerge(rules, ts);
      if next.None? then Reduce(rules, ts) == ts
      else MergeAt(rules, ts, next.value).Some? &&
           Reduce(rules, ts) == Reduce(rules, Merged(ts, next.value, MergeAt(rules, ts, next.value).value.merged))
  {
    hide NextMerge, Best, Merged;
    if NextMerge(rules, ts).Some? { NextMergeAt(rules, ts, NextMerge(rules, ts).value); }
  }

  lemma TailMerged(a: nat, m: nat, k: nat, n: nat)
    requires n >= 2
    ensures Merged(Repeat(m, k) + Repeat(a, n), k, m) == Repeat(m, k + 1) + Repeat(a, n - 2)
  {
  }

  /** Behind the pairs already merged, the first two tokens merge next. */
  lemma TailNext(a: nat, m: nat, p: int, k: nat, n: nat)
    requires m != a && m != NO_TOKEN && p < INT32_MAX
    ensures var rules, ts := [Rule(a, a, m, p)], Repeat(m, k) + Repeat(a, n);
      && NextMerge(rules, ts) == (if n < 2 then None else Some(k))
      && (n >= 2 ==> MergeAt(rules, ts, k) == Some(rules[0]))
  {
    hide NextMerge, Best;
    var rules, ts := [Rule(a, a, m, p)], Repeat(m, k) + Repeat(a, n);
    forall j | 0 <= j < |ts| - 1
      ensures Best(rules, ts[j], ts[j + 1]) == if k <= j then Some(rules[0]) else None
    {
      BestOfOne(rules[0], ts[j], ts[j + 1]);
    }
    if n >= 2 {
      NextMergeExact(rules, ts, k);
    } else if NextMerge(rules, ts).Some? {
      NextMergeExact(rules, ts, NextMerge(rules, ts).value);
    }
  }

  lemma BestOfOne(r: Rule, x: nat, y: nat)
    ensures Best([r], x, y) == if r.a == x && r.b == y then Some(r) else None
  {
    assert [r][..0] == [];
  }

  /** Rules of the largest priority number never apply. */
  lemma LargestNeverMerges(rules: seq<Rule>, ts: Tokens)
    requires forall k :: 0 <= k < |rules| ==> rules[k].priority >= INT32_MAX
    ensures Reduce(rules, ts) == ts
  {
    hide MergeAt;
    if |ts| >= 2 {
      forall j | 0 <= j < |ts| - 1 ensures MergeAt(rules, ts, j).None? { MergeAtExact(rules, ts, j); }
    }
  }

  // ---------- The text tokens spell ----------

  function TokenText(vocab: seq<Text>, t: nat): Text { if t < |vocab| then vocab[t] else [] }

  function Spell(vocab: seq<Text>, ts: Tokens): Text
  {
    if ts == [] then [] else TokenText(vocab, ts[0]) + Spell(vocab, ts[1..])
  }

  lemma {:induction false} SpellConcat(vocab: seq<Text>, a: Tokens, b: Tokens)
    ensures Spell(vocab, a + b) == Spell(vocab, a) + Spell(vocab, b)
    decreases |a|
  {
    if a == [] {
      assert a + b == b;
    } else {
      assert (a + b)[0] == a[0] && (a + b)[1..] == a[1..] + b;
      SpellConcat(vocab, a[1..], b);
    }
  }

  /** Every rule's merged token spells its two parts. */
  predicate Faithful(vocab: seq<Text>, rules: seq<Rule>)
  {
    forall i :: 0 <= i < |rules| ==>
      TokenText(vocab, rules[i].merged) == TokenText(vocab, rules[i].a) + TokenText(vocab, rules[i].b)
  }

  lemma MergeAtRule(rules: seq<Rule>, ts: Tokens, i: nat)
    requires i + 1 < |ts| && MergeAt(rules, ts, i).Some?
    ensures MergeAt(rules, ts, i).value in rules && Matches(MergeAt(rules, ts, i).value, ts[i], ts[i + 1])
  {
    BestIsLeast(rules, ts[i], ts[i + 1]);
  }

  lemma FaithfulRule(vocab: seq<Text>, rules: seq<Rule>, r: Rule)
    requires Faithful(vocab, rules) && r in rules
    ensures TokenText(vocab, r.merged) == TokenText(vocab, r.a) + TokenText(vocab, r.b)
  {
  }

  lemma MergedSpells(vocab: seq<Text>, rules: seq<Rule>, ts: Tokens, i: nat)
    requires Faithful(vocab, rules) && i + 1 < |ts| && MergeAt(rules, ts, i).Some?
    ensures Spell(vocab, Merged(ts, i, MergeAt(rules, ts, i).value.merged)) == Spell(vocab, ts)
  {
    hide MergeAt, Faithful, TokenText;
    MergeAtRule(rules, ts, i);
    var r := MergeAt(rules, ts, i).value;
    FaithfulRule(vocab, rules, r);
    var front, back := ts[..i], ts[i + 2..];
    assert ts == front + ([ts[i], ts[i + 1]] + back);
    assert Merged(ts, i, r.merged) == front + ([r.merged] + back);
    SpellTwo(vocab, ts[i], ts[i + 1], r.merged, back);
    SpellConcat(vocab, front, [ts[i], ts[i + 1]] + back);
    SpellConcat(vocab, front, [r.merged] + back);
  }

  lemma SpellTwo(vocab: seq<Text>, a: nat, b: nat, m: nat, back: Tokens)
    requires TokenText(vocab, m) == TokenText(vocab, a) + TokenText(vocab, b)
    ensures Spell(vocab, [a, b] + back) == Spell(vocab, [m] + back)
  {
  }

  /** Merging preserves the spelled text, all the way down. */
  lemma {:induction false} ReduceSpells(vocab: seq<Text>, rules: seq<Rule>, ts: Tokens)
    requires Faithful(vocab, rules)
    ensures Spell(vocab, Reduce(rules, ts)) == Spell(vocab, ts)
    decreases |ts|
  {
    hide Spell, Faithful, Leading;
    var m := NextMerge(rules, ts);
    if m.Some? {
      NextMergeAt(rules, ts, m.value);
      LeadingMerges(rules, ts, m.value);
      MergedSpells(vocab, rules, ts, m.value);
      ReduceSpells(vocab, rules, Merged(ts, m.value, MergeAt(rules, ts, m.value).value.merged));
    }
  }

  lemma LeadingMerges(rules: seq<Rule>, ts: Tokens, i: nat)
    requires i + 1 < |ts| && Leading(rules, ts, i, |ts| - 1)
    ensures MergeAt(rules, ts, i).Some?
  {
  }

  /** Every token spells something. */
  predicate Spelled(vocab: seq<Text>, ts: Tokens) { forall i :: 0 <= i < |ts| ==> TokenText(vocab, ts[i]) != [] }

  lemma MergedSpelled(vocab: seq<Text>, rules: seq<Rule>, ts: Tokens, i: nat)
    requires Faithful(vocab, rules) && Spelled(vocab, ts) && i + 1 < |ts| && MergeAt(rules, ts, i).Some?
    ensures Spelled(vocab, Merged(ts, i, MergeAt(rules, ts, i).value.merged))
  {
    hide MergeAt, Faithful, TokenText;
    MergeAtRule(rules, ts, i);
    var r := MergeAt(rules, ts, i).value;
    FaithfulRule(vocab, rules, r);
    assert TokenText(vocab, ts[i]) != [];
  }

  lemma {:induction false} ReduceSpelled(vocab: seq<Text>, rules: seq<Rule>, ts: Tokens)
    requires Faithful(vocab, rules) && Spelled(vocab, ts)
    ensures Spelled(vocab, Reduce(rules, ts))
    decreases |ts|
  {
    hide Spelled, Faithful, Leading;
    var m := NextMerge(rules, ts);
    if m.Some? {
      NextMergeAt(rules, ts, m.value);
      LeadingMerges(rules, ts, m.value);
      MergedSpelled(vocab, rules, ts, m.value);
      ReduceSpelled(vocab, rules, Merged(ts, m.value, MergeAt(rules, ts, m.value).value.merged));
    }
  }

  /** Dropping tokens that spell something loses text. */
  lemma {:induction false} SpelledLonger(vocab: seq<Text>, ts: Tokens)
    requires Spelled(vocab, ts)
    ensures |Spell(vocab, ts)| >= |ts|
  {
    if ts != [] {
      SpelledLonger(vocab, ts[1..]);
      assert TokenText(vocab, ts[0]) != [];
    }
  }

  // ---------- First tokens and last text ----------

  function FindFrom(vocab: seq<Text>, b: byte, i: nat): (t: nat)
    requires i <= |vocab|
    ensures i <= t <= |vocab| && (t < |vocab| ==> vocab[t] == [b]) && forall k :: i <= k < t ==> vocab[k] != [b]
    decreases |vocab| - i
  {
    if i == |vocab| || vocab[i] == [b] then i else FindFrom(vocab, b, i + 1)
  }

  /**
   The token of one input byte: the first entry that is just this byte, else the byte value.
   A zero byte looks like the end of an entry; what the lookup then finds depends on the bytes
   behind the entry and is the parameter `zero`.
   */
  function FirstToken(vocab: seq<Text>, zero: nat, b: byte): nat
  {
    if b == 0 then zero
    else
      var t := FindFrom(vocab, b, 0);
      if t < |vocab| then t else b
  }

  function FirstTokens(vocab: seq<Text>, zero: nat, input: Text): (ts: Tokens)
    ensures |ts| == |input| && forall i :: 0 <= i < |ts| ==> ts[i] == FirstToken(vocab, zero, input[i])
  {
    seq(|input|, i requires 0 <= i < |input| => FirstToken(vocab, zero, input[i]))
  }

  /** Every byte of the input is non-zero and has an entry of its own. */
  predicate Covered(vocab: seq<Text>, input: Text) { forall i :: 0 <= i < |input| ==>
      input[i] != 0 && [input[i]] in vocab }

  lemma {:induction false} FirstTokensSpell(vocab: seq<Text>, zero: nat, input: Text)
    requires Covered(vocab, input)
    ensures Spell(vocab, FirstTokens(vocab, zero, input)) == input && Spelled(vocab, FirstTokens(vocab, zero, input))
  {
    var ts := FirstTokens(vocab, zero, input);
    forall i | 0 <= i < |ts| ensures TokenText(vocab, ts[i]) == [input[i]] {
      FirstTokenSpells(vocab, zero, input[i]);
    }
    if input != [] {
      FirstTokensSpell(vocab, zero, input[1..]);
      assert ts[1..] == FirstTokens(vocab, zero, input[1..]);
      assert input == [input[0]] + input[1..];
    }
  }

  lemma FirstTokenSpells(vocab: seq<Text>, zero: nat, b: byte)
    requires b != 0 && [b] in vocab
    ensures TokenText(vocab, FirstToken(vocab, zero, b)) == [b]
  {
  }

  /** What tokenizing yields: the first bytes that fit, reduced, cut to the output size. */
  ghost function TokenizeSpec(vocab: seq<Text>, zero: nat, rules: seq<Rule>, input: Text, maxTokens: nat): Tokens
  {
    var ts := Reduce(rules, FirstTokens(vocab, zero, input[..Min(|input|, MAX_CURRENT)]));
    ts[..Min(|ts|, maxTokens)]
  }

  /** Token texts in order, up to the first that would not leave room for a terminator. */
  function Detokenize(vocab: seq<Text>, ts: Tokens, pos: nat, max: nat): Text
    decreases |ts|
  {
    if ts == [] then []
    else if ts[0] >= |vocab| then Detokenize(vocab, ts[1..], pos, max)
    else if pos + |vocab[ts[0]]| >= max then []
    else vocab[ts[0]] + Detokenize(vocab, ts[1..], pos + |vocab[ts[0]]|, max)
  }

  /** What comes out is the text of the first `k` tokens, and one more would leave no room for the terminator. */
  lemma {:induction false} DetokenizeCut(vocab: seq<Text>, ts: Tokens, pos: nat, max: nat) returns (k: nat)
    ensures k <= |ts| && Detokenize(vocab, ts, pos, max) == Spell(vocab, ts[..k])
    ensures k < |ts| ==> ts[k] < |vocab| && pos + |Spell(vocab, ts[..k + 1])| >= max
    decreases |ts|
  {
    hide Spell;
    k := 0;
    SpellNone(vocab, ts[..0]);
    if ts != [] {
      SpellFirst(vocab, ts, 0);
      if ts[0] >= |vocab| || pos + |vocab[ts[0]]| < max {
        var j := DetokenizeCut(vocab, ts[1..], pos + |TokenText(vocab, ts[0])|, max);
        SpellFirst(vocab, ts, j);
        if j + 1 < |ts| { SpellFirst(vocab, ts, j + 1); }
        k := j + 1;
      }
    }
  }

  lemma SpellNone(vocab: seq<Text>, ts: Tokens)
    requires |ts| == 0
    ensures Spell(vocab, ts) == []
  {
  }

  lemma SpellFirst(vocab: seq<Text>, ts: Tokens, k: nat)
    requires k < |ts|
    ensures Spell(vocab, ts[..k + 1]) == TokenText(vocab, ts[0]) + Spell(vocab, ts[1..][..k])
  {
    assert ts[..k + 1][1..] == ts[1..][..k];
  }

  /** All of the text is returned exactly when it fits, and nothing else of that length otherwise. */
  lemma {:induction false} DetokenizeFits(vocab: seq<Text>, ts: Tokens, pos: nat, max: nat)
    requires Spelled(vocab, ts) && pos < max
    ensures pos + |Spell(vocab, ts)| < max ==> Detokenize(vocab, ts, pos, max) == Spell(vocab, ts)
    ensures pos + |Detokenize(vocab, ts, pos, max)| < max
    decreases |ts|
  {
    if ts != [] {
      assert TokenText(vocab, ts[0]) != [];
      if pos + |vocab[ts[0]]| < max { DetokenizeFits(vocab, ts[1..], pos + |vocab[ts[0]]|, max); }
    }
  }

  /**
   Detokenizing what was tokenized gives the input back exactly when the input fits the working
   array, its tokens fit the token buffer, and the text and its terminator fit the output buffer.
   */
  lemma RoundTrip(vocab: seq<Text>, zero: nat, rules: seq<Rule>, input: Text, maxTokens: nat, max: nat)
    requires Faithful(vocab, rules) && Covered(vocab, input)
    ensures Detokenize(vocab, TokenizeSpec(vocab, zero, rules, input, maxTokens), 0, max) == input <==>
      |input| <= MAX_CURRENT && |Reduce(rules, FirstTokens(vocab, zero, input))| <= maxTokens &&
        (|input| < max || input == [])
  {
    hide Reduce, Faithful, Spell, Detokenize, FirstTokens;
    var n := Min(|input|, MAX_CURRENT);
    var head := input[..n];
    var first := FirstTokens(vocab, zero, head);
    FirstTokensSpell(vocab, zero, head);
    ReduceSpells(vocab, rules, first);
    ReduceSpelled(vocab, rules, first);
    var ts := Reduce(rules, first);
    var k := Min(|ts|, maxTokens);
    CutSpells(vocab, ts, k);
    if max > 0 { DetokenizeFits(vocab, ts[..k], 0, max); } else { DetokenizeNone(vocab, ts[..k]); }
    if |input| <= MAX_CURRENT {
      assert head == input;
      assert k == |ts| ==> ts[..k] == ts;
    }
    DetokenizeShort(vocab, ts[..k], 0, max);
  }

  lemma DetokenizeNone(vocab: seq<Text>, ts: Tokens)
    requires Spelled(vocab, ts)
    ensures Detokenize(vocab, ts, 0, 0) == []
  {
  }

  lemma CutSpells(vocab: seq<Text>, ts: Tokens, k: nat)
    requires Spelled(vocab, ts) && k <= |ts|
    ensures Spelled(vocab, ts[..k]) && |Spell(vocab, ts[..k])| + (|ts| - k) <= |Spell(vocab, ts)|
  {
    assert ts == ts[..k] + ts[k..];
    SpellConcat(vocab, ts[..k], ts[k..]);
    SpelledLonger(vocab, ts[k..]);
  }

  lemma {:induction false} DetokenizeShort(vocab: seq<Text>, ts: Tokens, pos: nat, max: nat)
    ensures |Detokenize(vocab, ts, pos, max)| <= |Spell(vocab, ts)|
    decreases |ts|
  {
    if ts != [] {
      DetokenizeShort(vocab, ts[1..], pos, max);
      if ts[0] < |vocab| { DetokenizeShort(vocab, ts[1..], pos + |vocab[ts[0]]|, max); }
    }
  }
}
