/**
 The BPE tokenizer as the kernel runs it: rules sorted in place, a linear table lookup, a merge
 loop that shifts tokens left in a fixed array. Each method is proved against `BpeSpec`, where
 the rules are the unsorted set they were loaded as.
 */
module Bpe {
  import opened Machine
  import opened BpeSpec

  /** The comparison subtracts 32-bit integers; the difference wraps. */
  function Compare(a: Rule, b: Rule): int { (a.priority - b.priority - INT32_MIN) % TWO32 + INT32_MIN }

  predicate Fits(a: Rule, b: Rule) { INT32_MIN <= a.priority - b.priority <= INT32_MAX }

  /** The comparison orders two 32-bit priorities exactly when their difference is a 32-bit integer. */
  lemma CompareExact(a: Rule, b: Rule)
    requires INT32_MIN <= a.priority <= INT32_MAX && INT32_MIN <= b.priority <= INT32_MAX
    ensures (Compare(a, b) > 0 <==> a.priority > b.priority) <==> Fits(a, b)
  {
  }

  /** The smallest priority number compares as greater than 1. */
  lemma CompareWraps()
    ensures Compare(Rule(0, 1, 2, INT32_MIN), Rule(3, 4, 5, 1)) == INT32_MAX
  {
  }

  predicate Comparable(rules: seq<Rule>) { forall x, y :: x in rules && y in rules ==> Fits(x, y) }

  lemma CompareFits(a: Rule, b: Rule)
    requires Fits(a, b)
    ensures Compare(a, b) == a.priority - b.priority
  {
  }

  method SortRules(rules: array<Rule>, count: nat)
    requires count <= rules.Length && Comparable(rules[..count])
    modifies rules
    ensures rules[..count] == Sort(old(rules[..count])) && rules[count..] == old(rules[count..])
  {
    hide Sort, Comparable, Fits;
    ghost var was := rules[..];
    SortNone(was[..0]);
    var i := 1;
    if count == 0 {
      return;
    }
    SortOne(was[..1]);
    while i < count
      invariant 1 <= i <= count
      invariant rules[..i] == Sort(was[..i])
      invariant forall k :: i <= k < rules.Length ==> rules[k] == was[k]
    {
      SortedFits(was[..count], i);
      assert was[..count][..i] == was[..i];
      forall k | 0 <= k < i ensures Fits(rules[k], rules[i]) { assert rules[k] == rules[..i][k]; }
      InsertInPlace(rules, i);
      SortStep(was, i);
      i := i + 1;
    }
  }

  lemma SortNone(rules: seq<Rule>)
    requires |rules| == 0
    ensures Sort(rules) == rules
  {
  }

  lemma SortOne(rules: seq<Rule>)
    requires |rules| == 1
    ensures Sort(rules) == rules
  {
  }

  lemma SortStep(rules: seq<Rule>, i: nat)
    requires i < |rules|
    ensures Sort(rules[..i + 1]) == Insert(Sort(rules[..i]), rules[i])
  {
    assert rules[..i + 1][..i] == rules[..i];
  }

  lemma SortedFits(rules: seq<Rule>, i: nat)
    requires Comparable(rules) && i < |rules|
    ensures forall k :: 0 <= k < i ==> Fits(Sort(rules[..i])[k], rules[i])
  {
    hide Fits, Sort;
    SortOrders(rules[..i]);
    var s := Sort(rules[..i]);
    forall k | 0 <= k < i ensures Fits(s[k], rules[i]) {
      assert s[k] in multiset(rules[..i]);
      assert s[k] in rules && rules[i] in rules;
    }
  }

  /** Moves rule `i` down to its place in the sorted prefix before it. */
  method InsertInPlace(rules: array<Rule>, i: nat)
    requires i < rules.Length && forall k :: 0 <= k < i ==> Fits(rules[k], rules[i])
    modifies rules
    ensures rules[..i + 1] == Insert(old(rules[..i]), old(rules[i]))
    ensures forall k :: i < k < rules.Length ==> rules[k] == old(rules[k])
  {
    hide Compare, Insert, Fits;
    ghost var pre := rules[..i];
    var temp := rules[i];
    var j := i - 1;
    while j >= 0 && Compare(rules[j], temp) > 0
      invariant -1 <= j < i
      invariant forall k :: 0 <= k <= j ==> rules[k] == pre[k]
      invariant forall k :: j + 2 <= k <= i ==> rules[k] == pre[k - 1]
      invariant forall k :: i < k < rules.Length ==> rules[k] == old(rules[k])
      invariant forall k :: j < k < i ==> pre[k].priority > temp.priority
    {
      CompareFits(pre[j], temp);
      rules[j + 1] := rules[j];
      j := j - 1;
    }
    if j >= 0 { CompareFits(pre[j], temp); }
    rules[j + 1] := temp;
    Placed(rules[..i + 1], pre, temp, j + 1);
    InsertedAt(pre, temp, j + 1);
  }

  lemma Placed(s: seq<Rule>, pre: seq<Rule>, r: Rule, p: nat)
    requires p <= |pre| && |s| == |pre| + 1 && s[p] == r
    requires (forall k :: 0 <= k < p ==> s[k] == pre[k]) && forall k :: p < k < |s| ==> s[k] == pre[k - 1]
    ensures s == pre[..p] + [r] + pre[p..]
  {
  }

  /** A rule goes behind the last one that is not greater. */
  lemma {:induction false} InsertedAt(pre: seq<Rule>, r: Rule, p: nat)
    requires p <= |pre| && (p > 0 ==> pre[p - 1].priority <= r.priority)
    requires forall k :: p <= k < |pre| ==> pre[k].priority > r.priority
    ensures Insert(pre, r) == pre[..p] + [r] + pre[p..]
    decreases |pre|
  {
    if p == |pre| {
      InsertHere(pre, r);
      assert pre[..p] == pre && pre[p..] == [];
    } else {
      var n := |pre| - 1;
      InsertedAt(pre[..n], r, p);
      assert pre[..n][..p] == pre[..p] && pre[..n][p..] + [pre[n]] == pre[p..];
      assert Insert(pre, r) == Insert(pre[..n], r) + [pre[n]];
    }
  }

  lemma InsertHere(front: seq<Rule>, r: Rule)
    requires front == [] || front[|front| - 1].priority <= r.priority
    ensures Insert(front, r) == front + [r]
  {
  }

  method FindToken(vocab: seq<Text>, zero: nat, b: byte) returns (t: nat)
    ensures t == FirstToken(vocab, zero, b)
  {
    if b == 0 {
      return zero;
    }
    var i := 0;
    while i < |vocab|
      invariant 0 <= i <= |vocab| && FindFrom(vocab, b, 0) == FindFrom(vocab, b, i)
    {
      if vocab[i] == [b] {
        return i;
      }
      i := i + 1;
    }
    return b;
  }

  method FindRule(rules: array<Rule>, count: nat, a: nat, b: nat, ghost table: seq<Rule>) returns (r: Option<Rule>)
    requires count <= rules.Length && rules[..count] == Sort(table)
    ensures r == Best(table, a, b)
  {
    SortedLookup(table, a, b);
    var i := 0;
    assert rules[0..count] == rules[..count];
    while i < count
      invariant 0 <= i <= count && FirstMatch(rules[..count], a, b) == FirstMatch(rules[i..count], a, b)
    {
      if rules[i].a == a && rules[i].b == b {
        return Some(rules[i]);
      }
      assert rules[i..count][1..] == rules[i + 1..count];
      i := i + 1;
    }
    return None;
  }

  /** Scans the adjacent pairs for the leftmost rule of lowest priority number. */
  method FindMerge(current: array<nat>, n: nat, rules: array<Rule>, count: nat, ghost table: seq<Rule>)
    returns (pos: nat, merged: nat)
    requires 1 < n <= current.Length && count <= rules.Length && rules[..count] == Sort(table)
    ensures NextMerge(table, current[..n]) == if merged == NO_TOKEN then None else Some(pos)
    ensures merged != NO_TOKEN ==>
      pos + 1 < n && MergeAt(table, current[..n], pos).Some? && MergeAt(table, current[..n], pos).value.merged == merged
    ensures merged != NO_TOKEN ==>
      var ts := current[..n];
      var best := Best(table, ts[pos], ts[pos + 1]);
      && best.Some? && best.value.merged == merged && best.value.priority < INT32_MAX
      && (forall j :: 0 <= j < pos ==>
            var o := Best(table, ts[j], ts[j + 1]); o.None? || o.value.priority > best.value.priority)
      && (forall j :: pos < j < n - 1 ==>
            var o := Best(table, ts[j], ts[j + 1]); o.None? || o.value.priority >= best.value.priority)
  {
    hide Best, Sort;
    ghost var ts := current[..n];
    var priority := INT32_MAX;
    pos, merged := 0, NO_TOKEN;
    var i := 0;
    while i < n - 1
      invariant 0 <= i <= n - 1 && priority <= INT32_MAX && ts == current[..n]
      invariant priority == INT32_MAX ==> merged == NO_TOKEN && NoneAmong(table, ts, i)
      invariant priority < INT32_MAX ==> pos < i && Leading(table, ts, pos, i)
      invariant priority < INT32_MAX ==>
        MergeAt(table, ts, pos).value.merged == merged && MergeAt(table, ts, pos).value.priority == priority
    {
      var rule := FindRule(rules, count, current[i], current[i + 1], table);
      assert rule == Best(table, ts[i], ts[i + 1]);
      if rule.Some? && rule.value.priority < priority {
        pos, priority, merged := i, rule.value.priority, rule.value.merged;
      }
      i := i + 1;
    }
    Decided(table, ts, pos, priority < INT32_MAX);
    if merged != NO_TOKEN { NextMergeExact(table, ts, pos); }
  }

  lemma Decided(rules: seq<Rule>, ts: Tokens, pos: nat, found: bool)
    requires |ts| >= 2 &&
      (if found then pos + 1 < |ts| && Leading(rules, ts, pos, |ts| - 1) else NoneAmong(rules, ts, |ts| - 1))
    ensures NextMerge(rules, ts) ==
      if found && MergeAt(rules, ts, pos).value.merged != NO_TOKEN then Some(pos) else None
  {
  }

  /** Overwrites the left token of a pair and closes the gap of the right one. */
  method MergePair(current: array<nat>, n: nat, pos: nat, merged: nat)
    requires pos + 1 < n <= current.Length
    modifies current
    ensures current[..n - 1] == Merged(old(current[..n]), pos, merged)
  {
    ghost var ts := current[..n];
    current[pos] := merged;
    var i := pos + 1;
    while i < n - 1
      invariant pos + 1 <= i <= n - 1
      invariant forall k :: 0 <= k < pos ==> current[k] == ts[k]
      invariant current[pos] == merged
      invariant forall k :: pos < k < i ==> current[k] == ts[k + 1]
      invariant forall k :: i <= k < n ==> current[k] == ts[k]
    {
      current[i] := current[i + 1];
      i := i + 1;
    }
    MergedIs(current[..n - 1], ts, pos, merged);
  }

  lemma MergedIs(s: Tokens, ts: Tokens, pos: nat, merged: nat)
    requires pos + 1 < |ts| && |s| == |ts| - 1 && s[pos] == merged
    requires (forall k :: 0 <= k < pos ==> s[k] == ts[k]) && forall k :: pos < k < |s| ==> s[k] == ts[k + 1]
    ensures s == Merged(ts, pos, merged)
  {
  }

  /** Fills the working array with one token per byte, as far as it reaches. */
  method FillTokens(current: array<nat>, vocab: seq<Text>, zero: nat, input: Text) returns (n: nat)
    requires current.Length == MAX_CURRENT
    modifies current
    ensures n == Min(|input|, MAX_CURRENT) && current[..n] == FirstTokens(vocab, zero, input[..n])
  {
    n := 0;
    while n < |input| && n < MAX_CURRENT
      invariant 0 <= n <= |input| && n <= MAX_CURRENT
      invariant forall k :: 0 <= k < n ==> current[k] == FirstToken(vocab, zero, input[k])
    {
      current[n] := FindToken(vocab, zero, input[n]);
      n := n + 1;
    }
  }

  /** Merges the leftmost best pair until none is left. */
  method ReduceTokens(current: array<nat>, count0: nat, rules: array<Rule>, count: nat, ghost table: seq<Rule>)
    returns (n: nat)
    requires count0 <= current.Length && count <= rules.Length && rules[..count] == Sort(table)
    modifies current
    ensures n <= count0 && current[..n] == Reduce(table, old(current[..count0]))
  {
    hide Sort, NextMerge, MergeAt;
    ghost var first := current[..count0];
    n := count0;
    var merged := true;
    while merged && n > 1
      invariant 0 <= n <= count0
      invariant Reduce(table, first) == Reduce(table, current[..n])
      invariant !merged ==> NextMerge(table, current[..n]).None?
      decreases n, merged
    {
      ghost var ts := current[..n];
      ghost var held := rules[..count];
      var pos, token := FindMerge(current, n, rules, count, table);
      merged := token != NO_TOKEN;
      if merged {
        MergePair(current, n, pos, token);
        n := n - 1;
      }
    }
    if n <= 1 { Short(table, current[..n]); }
  }

  lemma Short(rules: seq<Rule>, ts: Tokens)
    requires |ts| <= 1
    ensures NextMerge(rules, ts).None?
  {
  }

  method Tokenize(rules: array<Rule>, count: nat, vocab: seq<Text>, zero: nat, input: Text, maxTokens: nat,
      ghost table: seq<Rule>)
    returns (tokens: Tokens)
    requires count <= rules.Length && rules[..count] == Sort(table)
    ensures tokens == TokenizeSpec(vocab, zero, table, input, maxTokens)
  {
    hide Sort, NextMerge;
    if |input| == 0 || maxTokens == 0 {
      assert |input| == 0 ==> FirstTokens(vocab, zero, input[..0]) == [];
      return [];
    }
    var current := new nat[MAX_CURRENT];
    var n := FillTokens(current, vocab, zero, input);
    n := ReduceTokens(current, n, rules, count, table);
    var copied := if n < maxTokens then n else maxTokens;
    assert current[..n][..copied] == current[..copied];
    return current[..copied];
  }

  method DetokenizeTokens(vocab: seq<Text>, tokens: Tokens, max: nat) returns (output: Text)
    requires forall i :: 0 <= i < |vocab| ==> |vocab[i]| + max <= TWO32
    ensures output == Detokenize(vocab, tokens, 0, max)
  {
    output := [];
    var i := 0;
    while i < |tokens|
      invariant 0 <= i <= |tokens|
      invariant Detokenize(vocab, tokens, 0, max) == output + Detokenize(vocab, tokens[i..], |output|, max)
    {
      assert tokens[i..][0] == tokens[i] && tokens[i..][1..] == tokens[i + 1..];
      if tokens[i] < |vocab| {
        var text := vocab[tokens[i]];
        if |output| + |text| >= max {
          return;
        }
        Reassociate(output, text, Detokenize(vocab, tokens[i + 1..], |output| + |text|, max));
        output := output + text;
      }
      i := i + 1;
    }
  }

  lemma Reassociate(a: Text, b: Text, c: Text)
    ensures a + (b + c) == a + b + c
  {
  }
}
