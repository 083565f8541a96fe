/**
 Speculative decoding: a draft model proposes tokens, the target model verifies them. Whatever
 the draft model does, what comes out is a prefix of what the target model alone would decode.
 */
module Speculative {
  import opened Machine
  import opened Modular

  const MAX_DRAFT: nat := 8
  const INPUT_MAX: nat := 256

  /** One run of the runtime on a cell: an output, or a failure. */
  type Model = seq<byte> -> Option<seq<byte>>

  // ---------- Token ids ----------

  /** The first four bytes of an output, little-endian. */
  function TokenId(out: seq<byte>): (t: nat)
    ensures t < TWO32
  {
    ByteAt(out, 0) + 0x100 * ByteAt(out, 1) + 0x1_0000 * ByteAt(out, 2) + 0x100_0000 * ByteAt(out, 3)
  }

  function ByteAt(out: seq<byte>, i: nat): (b: int)
    ensures 0 <= b < 256
  {
    if i < |out| then out[i] else 0
  }

  method ExtractTokenId(out: seq<byte>) returns (token: nat)
    ensures token == TokenId(out)
  {
    token := 0;
    var readBytes := if |out| < 4 then |out| else 4;
    var i, shift: nat := 0, 1;
    while i < readBytes
      invariant 0 <= i <= readBytes && shift == [1, 0x100, 0x1_0000, 0x100_0000, 0x1_0000_0000][i]
      invariant 0 <= token < shift && token == TokenId(out[..i])
    {
      token := token + out[i] * shift;
      i, shift := i + 1, shift * 0x100;
    }
    assert |out| < 4 ==> out[..i] == out;
  }

  // ---------- Decoding with one model alone ----------

  function Low(ts: seq<nat>): (bs: seq<byte>)
    ensures |bs| == |ts|
  {
    seq(|ts|, i requires 0 <= i < |ts| => ts[i] % 256)
  }

  /** The model's token behind `context` and the low bytes of `ts`, if the input fits and the run yields one. */
  function Next(target: Model, context: seq<byte>, ts: seq<nat>): Option<nat>
  {
    if |context| + |ts| > INPUT_MAX then None
    else
      match target(context + Low(ts))
      case None => None
      case Some(out) => if out == [] then None else Some(TokenId(out))
  }

  /** Up to `n` tokens decoded one after the other. */
  function Decoded(target: Model, context: seq<byte>, n: nat): (ts: seq<nat>)
    ensures |ts| <= n
  {
    if n == 0 then []
    else
      var p := Decoded(target, context, n - 1);
      if |p| < n - 1 then p
      else
        match Next(target, context, p)
        case None => p
        case Some(t) => p + [t]
  }

  /** Every token is the target's next one. */
  predicate Follows(target: Model, context: seq<byte>, ts: seq<nat>)
  {
    forall i :: 0 <= i < |ts| ==> Next(target, context, ts[..i]) == Some(ts[i])
  }

  lemma {:induction false} DecodedFollows(target: Model, context: seq<byte>, n: nat)
    ensures var ts := Decoded(target, context, n);
      Follows(target, context, ts) && (|ts| < n ==> Next(target, context, ts) == None)
  {
    if n > 0 {
      DecodedFollows(target, context, n - 1);
      var p, ts := Decoded(target, context, n - 1), Decoded(target, context, n);
      forall i | 0 <= i < |ts| ensures Next(target, context, ts[..i]) == Some(ts[i]) {
        assert ts[..i] == p[..i];
      }
    }
  }

  /** Tokens that follow the target are a prefix of what it decodes alone. */
  lemma {:induction false} FollowsIsPrefix(target: Model, context: seq<byte>, ts: seq<nat>, n: nat)
    requires Follows(target, context, ts) && |ts| <= n
    ensures ts <= Decoded(target, context, n)
    decreases |ts|
  {
    var all := Decoded(target, context, n);
    DecodedFollows(target, context, n);
    if ts != [] {
      var k := |ts| - 1;
      forall i | 0 <= i < k ensures Next(target, context, ts[..k][..i]) == Some(ts[..k][i]) {
        assert ts[..k][..i] == ts[..i];
      }
      FollowsIsPrefix(target, context, ts[..k], n);
      assert all[..k] == ts[..k];
      assert all == ts[..k] || |all| > k;
      assert Next(target, context, ts[..k]) == Some(ts[k]);
    }
  }

  /** Tokens that follow a model up to where it yields none are what it decodes. */
  lemma DecodedIs(target: Model, context: seq<byte>, ts: seq<nat>, n: nat)
    requires Follows(target, context, ts) && |ts| <= n && (|ts| < n ==> Next(target, context, ts) == None)
    ensures Decoded(target, context, n) == ts
  {
    hide Next;
    var all := Decoded(target, context, n);
    DecodedFollows(target, context, n);
    FollowsIsPrefix(target, context, ts, n);
    assert all[..|ts|] == ts;
  }

  /** The model whose next token is one more than the last input byte. */
  function Successor(input: seq<byte>): Option<seq<byte>>
  {
    if input == [] then None else Some([(input[|input| - 1] as int + 1) % 256])
  }

  /** It counts on from the context, each token read back as the last input byte, until the input is full. */
  lemma {:induction false} SuccessorCounts(context: seq<byte>, n: nat)
    requires 0 < |context| <= INPUT_MAX
    ensures var ts := Decoded(Successor, context, n);
      && |ts| == Min(n, INPUT_MAX + 1 - |context|)
      && forall i :: 0 <= i < |ts| ==> ts[i] == (context[|context| - 1] as int + 1 + i) % 256
  {
    hide Next;
    if n > 0 {
      SuccessorCounts(context, n - 1);
      SuccessorNext(context, Decoded(Successor, context, n - 1));
    }
  }

  lemma SuccessorNext(context: seq<byte>, ts: seq<nat>)
    requires context != [] && forall i :: 0 <= i < |ts| ==> ts[i] == (context[|context| - 1] as int + 1 + i) % 256
    ensures Next(Successor, context, ts) ==
      if |context| + |ts| > INPUT_MAX then None else Some((context[|context| - 1] as int + 1 + |ts|) % 256)
  {
    hide TokenId;
    var input, c: int := context + Low(ts), context[|context| - 1];
    if ts != [] {
      assert input[|input| - 1] == ts[|ts| - 1] % 256 == (c + |ts|) % 256;
      ModSum(c + |ts|, 1, 256);
    }
    OneByteToken((input[|input| - 1] as int + 1) % 256);
  }

  lemma OneByteToken(b: byte)
    ensures TokenId([b]) == b
  {
  }

  /** The 32-bit sum that is compared with the buffer size. */
  function InputSize(context: seq<byte>, i: nat): nat { (|context| + i) % TWO32 }

  lemma NoRoom(target: Model, context: seq<byte>, ts: seq<nat>)
    requires |context| + |ts| > INPUT_MAX
    ensures Next(target, context, ts) == None
  {
  }

  /** Length of the longest common prefix. */
  function Agreeing(a: seq<nat>, b: seq<nat>): (k: nat)
    ensures k <= |a| && k <= |b| && a[..k] == b[..k]
    ensures k < |a| && k < |b| ==> a[k] != b[k]
  {
    if a == [] || b == [] || a[0] != b[0] then 0
    else
      var k := Agreeing(a[1..], b[1..]);
      assert a[..k + 1] == [a[0]] + a[1..][..k] && b[..k + 1] == [b[0]] + b[1..][..k];
      k + 1
  }

  lemma AgreeingIs(a: seq<nat>, b: seq<nat>, k: nat)
    requires k <= |a| && k <= |b| && a[..k] == b[..k] && (k < |a| && k < |b| ==> a[k] != b[k])
    ensures Agreeing(a, b) == k
  {
  }

  /** Where verification stops is where the draft leaves the target's own decoding. */
  lemma StopsWhereTheyPart(target: Model, context: seq<byte>, draft: seq<nat>, k: nat)
    requires k <= |draft| && Follows(target, context, draft[..k])
    requires k < |draft| ==> Next(target, context, draft[..k]) != Some(draft[k])
    ensures k == Agreeing(draft, Decoded(target, context, |draft|))
    ensures draft[..k] == Decoded(target, context, |draft|)[..k]
  {
    var all := Decoded(target, context, |draft|);
    FollowsIsPrefix(target, context, draft[..k], |draft|);
    DecodedFollows(target, context, |draft|);
    assert all[..k] == draft[..k];
    if k < |draft| && k < |all| {
      assert Next(target, context, all[..k]) == Some(all[k]);
    }
    AgreeingIs(draft, all, k);
  }

  // ---------- The decoder ----------

  /** Acceptance in percent, from 64-bit counters. */
  function Rate(accepted: nat, speculated: nat): nat
    requires speculated > 0
  {
    (accepted * 100) % TWO64 / speculated
  }

  class Decoder {
    const draftTokens: array<nat>
    const verifiedTokens: array<nat>
    var numDraft: nat
    var numAccepted: nat
    var totalSpeculations: nat
    var totalAccepted: nat
    var totalRejected: nat
    var acceptanceRate: nat

    /** Buffers in place, and every draft token counted once as accepted or rejected (modulo the counter width). */
    ghost predicate Valid()
      reads this
    {
      && draftTokens.Length == verifiedTokens.Length == MAX_DRAFT && draftTokens != verifiedTokens
      && numAccepted <= MAX_DRAFT && numDraft <= MAX_DRAFT
      && totalSpeculations < TWO64 && totalAccepted < TWO64 && totalRejected < TWO64
      && Add64(totalAccepted, totalRejected) == totalSpeculations
    }

    constructor ()
      ensures Valid() && fresh(draftTokens) && fresh(verifiedTokens)
      ensures totalSpeculations == totalAccepted == totalRejected == 0
    {
      draftTokens := new nat[MAX_DRAFT](_ => 0);
      verifiedTokens := new nat[MAX_DRAFT](_ => 0);
      numDraft, numAccepted := 0, 0;
      totalSpeculations, totalAccepted, totalRejected, acceptanceRate := 0, 0, 0, 0;
    }

    /**
     The draft model's own decoding fills the first slots; slots behind an early stop keep old
     tokens but count as drafted. A run without a token fails unless the context is full.
     */
    method GenerateDraft(draft: Model, context: seq<byte>, count: nat) returns (status: Status)
      requires Valid() && 0 < count <= MAX_DRAFT && |context| < TWO32
      modifies `numDraft, draftTokens
      ensures Valid()
      ensures var d := Decoded(draft, context, count);
        && draftTokens[..|d|] == d && draftTokens[|d|..] == old(draftTokens[|d|..])
        && (status.Ok? <==> |d| == count || |context| + |d| > INPUT_MAX)
        && numDraft == (if status.Ok? then count else |d|) && (!status.Ok? ==> status == ErrInvalid)
    {
      hide Next, Decoded;
      var i := 0;
      while i < count
        invariant 0 <= i <= count && numDraft == old(numDraft) && Follows(draft, context, draftTokens[..i])
        invariant i > 0 ==> |context| <= INPUT_MAX
        invariant forall k :: i <= k < MAX_DRAFT ==> draftTokens[k] == old(draftTokens[k])
      {
        if InputSize(context, i) > INPUT_MAX {
          NoRoom(draft, context, draftTokens[..i]);
          break;
        }
        var token := RunModel(draft, context, draftTokens[..i]);
        if token.None? {
          numDraft := i;
          DecodedIs(draft, context, draftTokens[..i], count);
          return ErrInvalid;
        }
        ghost var done := draftTokens[..i];
        draftTokens[i] := token.value;
        assert draftTokens[..i] == done && draftTokens[..i + 1] == done + [token.value];
        ghost var more := done + [token.value];
        assert more[..i] == done && more[..i + 1] == more;
        FollowsStep(draft, context, more, i);
        i := i + 1;
      }
      DecodedIs(draft, context, draftTokens[..i], count);
      numDraft := count;
      return Ok;
    }

    /** Accepts exactly as many draft tokens as agree with the target's own decoding. */
    method VerifyTokens(target: Model, context: seq<byte>)
      requires Valid() && |context| < TWO32
      modifies `numAccepted, `totalSpeculations, `totalAccepted, `totalRejected, `acceptanceRate, verifiedTokens
      ensures Valid()
      ensures numDraft > 0 ==> numAccepted == Agreeing(draftTokens[..numDraft], Decoded(target, context, numDraft))
      ensures numDraft > 0 ==> verifiedTokens[..numAccepted] == Decoded(target, context, numDraft)[..numAccepted]
      ensures numDraft > 0 ==> totalAccepted == Add64(old(totalAccepted), numAccepted)
      ensures numDraft > 0 ==> totalRejected == Add64(old(totalRejected), numDraft - numAccepted)
      ensures totalSpeculations == Add64(old(totalSpeculations), numDraft)
      ensures numDraft == 0 ==>
        numAccepted == old(numAccepted) && totalAccepted == old(totalAccepted) && totalRejected == old(totalRejected)
    {
      hide Agreeing, Decoded, Add64, Rate;
      if numDraft == 0 {
        return;
      }
      var accepted := CountAccepted(target, context);
      CountsBalance(totalAccepted, totalRejected, totalSpeculations, accepted, numDraft - accepted);
      numAccepted := accepted;
      totalSpeculations := Add64(totalSpeculations, numDraft);
      totalAccepted := Add64(totalAccepted, accepted);
      totalRejected := Add64(totalRejected, numDraft - accepted);
      if totalSpeculations > 0 {
        acceptanceRate := Rate(totalAccepted, totalSpeculations);
      }
    }

    method CountAccepted(target: Model, context: seq<byte>) returns (accepted: nat)
      requires draftTokens.Length == verifiedTokens.Length == MAX_DRAFT && draftTokens != verifiedTokens &&
        numDraft <= MAX_DRAFT && |context| < TWO32
      modifies verifiedTokens
      ensures accepted <= numDraft && accepted == Agreeing(draftTokens[..numDraft], Decoded(target, context, numDraft))
      ensures verifiedTokens[..accepted] == Decoded(target, context, numDraft)[..accepted]
    {
      hide Next;
      ghost var draft := draftTokens[..numDraft];
      accepted := 0;
      while accepted < numDraft
        invariant 0 <= accepted <= numDraft && Follows(target, context, draft[..accepted])
        invariant forall k :: 0 <= k < accepted ==> verifiedTokens[k] == draft[k]
        invariant accepted > 0 ==> |context| <= INPUT_MAX
      {
        if InputSize(context, accepted) > INPUT_MAX {
          NoRoom(target, context, draft[..accepted]);
          break;
        }
        var token := RunModel(target, context, draftTokens[..accepted]);
        assert draft[..accepted] == draftTokens[..accepted];
        if token.None? {
          break;
        }
        verifiedTokens[accepted] := token.value;
        if token.value != draftTokens[accepted] {
          break;
        }
        FollowsStep(target, context, draft, accepted);
        accepted := accepted + 1;
      }
      StopsWhereTheyPart(target, context, draft, accepted);
      assert verifiedTokens[..accepted] == draft[..accepted];
    }

    /** One run of a model on the context and the low bytes of the tokens so far. */
    method RunModel(target: Model, context: seq<byte>, ts: seq<nat>) returns (token: Option<nat>)
      requires |context| + |ts| <= INPUT_MAX
      ensures token == Next(target, context, ts)
    {
      var input := context;
      var j := 0;
      while j < |ts|
        invariant 0 <= j <= |ts| && input == context + Low(ts[..j])
      {
        assert Low(ts[..j + 1]) == Low(ts[..j]) + [ts[j] % 256];
        input := input + [ts[j] % 256];
        j := j + 1;
      }
      assert ts[..j] == ts;
      var out := target(input);
      if out.None? || out.value == [] {
        return None;
      }
      var t := ExtractTokenId(out.value);
      return Some(t);
    }

    /** For every draft model and context: the output is a prefix of the target's own decoding. */
    method DecodeStep(draft: Model, target: Model, context: seq<byte>) returns (status: Status, output: seq<nat>)
      requires Valid() && |context| < TWO32
      modifies this, draftTokens, verifiedTokens
      ensures Valid() && (status.Ok? ==> numDraft == MAX_DRAFT)
      ensures status.Ok? <==> var d := Decoded(draft, context, MAX_DRAFT);
        |d| == MAX_DRAFT || |context| + |d| > INPUT_MAX
      ensures status.Ok? ==> output <= Decoded(target, context, MAX_DRAFT) && Follows(target, context, output)
      ensures status.Ok? ==> |output| == Agreeing(draftTokens[..MAX_DRAFT], Decoded(target, context, MAX_DRAFT))
      ensures !status.Ok? ==> status == ErrInvalid && output == []
      ensures !status.Ok? ==>
        totalSpeculations == old(totalSpeculations) && totalAccepted == old(totalAccepted) &&
        totalRejected == old(totalRejected)
    {
      status := GenerateDraft(draft, context, MAX_DRAFT);
      output := [];
      if !status.Ok? {
        return;
      }
      VerifyTokens(target, context);
      var i := 0;
      while i < numAccepted
        invariant 0 <= i <= numAccepted && output == verifiedTokens[..i]
      {
        output := output + [verifiedTokens[i]];
        i := i + 1;
      }
      ghost var all := Decoded(target, context, MAX_DRAFT);
      assert output == all[..numAccepted];
      DecodedFollows(target, context, MAX_DRAFT);
      FollowsCut(target, context, all, numAccepted);
    }
  }

  lemma CountsBalance(a: nat, r: nat, s: nat, x: nat, y: nat)
    requires Add64(a, r) == s
    ensures Add64(Add64(a, x), Add64(r, y)) == Add64(s, x + y)
  {
    ModSum(a + x, r + y, TWO64);
    ModSum(a + r, x + y, TWO64);
    assert (a + x) + (r + y) == (a + r) + (x + y);
  }

  lemma FollowsStep(target: Model, context: seq<byte>, ts: seq<nat>, k: nat)
    requires k < |ts| && Follows(target, context, ts[..k]) && Next(target, context, ts[..k]) == Some(ts[k])
    ensures Follows(target, context, ts[..k + 1])
  {
    hide Next;
    var more := ts[..k + 1];
    forall i | 0 <= i < |more| ensures Next(target, context, more[..i]) == Some(more[i]) {
      assert more[..i] == ts[..i];
      if i < k { assert ts[..k][..i] == ts[..i] && Next(target, context, ts[..k][..i]) == Some(ts[..k][i]); }
    }
  }

  lemma FollowsCut(target: Model, context: seq<byte>, ts: seq<nat>, k: nat)
    requires k <= |ts| && Follows(target, context, ts)
    ensures Follows(target, context, ts[..k])
  {
    hide Next;
    forall i | 0 <= i < k ensures Next(target, context, ts[..k][..i]) == Some(ts[..k][i]) {
      assert ts[..k][..i] == ts[..i];
    }
  }
}
