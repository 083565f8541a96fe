/**
 The streaming part of SHA-256, for any compression function: the context after any sequence of
 updates is determined by the bytes fed in, and so is the digest. The padding is compared with
 that of section 5.1.1 of FIPS 180-4.
 */
module Sha256 {
  import opened Machine
  import opened Modular

  const BLOCK: nat := 64

  /** Compression of all whole blocks of a message. */
  function Compressed<S>(compress: (S, seq<byte>) -> S, state: S, m: seq<byte>): S
    decreases |m|
  {
    if |m| < BLOCK then state else Compressed(compress, compress(state, m[..BLOCK]), m[BLOCK..])
  }

  /** Length of the whole blocks. */
  function Whole(m: seq<byte>): (n: nat)
    ensures n <= |m| < n + BLOCK && n % BLOCK == 0
  {
    |m| / BLOCK * BLOCK
  }

  lemma {:induction false} CompressedConcat<S>(compress: (S, seq<byte>) -> S, state: S, a: seq<byte>, b: seq<byte>)
    requires |a| % BLOCK == 0
    ensures Compressed(compress, state, a + b) == Compressed(compress, Compressed(compress, state, a), b)
    decreases |a|
  {
    if a == [] {
      assert a + b == b;
    } else {
      assert (a + b)[..BLOCK] == a[..BLOCK] && (a + b)[BLOCK..] == a[BLOCK..] + b;
      CompressedConcat(compress, compress(state, a[..BLOCK]), a[BLOCK..], b);
    }
  }

  // ---------- Padding ----------

  function Zeros(n: nat): (z: seq<byte>)
    ensures |z| == n && forall i :: 0 <= i < n ==> z[i] == 0
  {
    seq(n, _ => 0)
  }

  /** Zero bytes behind the 0x80 so that eight more fill a block. */
  function ZeroCount(length: nat): (z: nat)
    ensures z < BLOCK && (length + 1 + z) % BLOCK == 56
  {
    var r := (length + 1) % BLOCK;
    ZeroCountFits(length + 1, if r <= 56 then 56 - r else 120 - r);
    if r <= 56 then 56 - r else 120 - r
  }

  lemma ZeroCountFits(n: nat, z: nat)
    requires z == if n % BLOCK <= 56 then 56 - n % BLOCK else 120 - n % BLOCK
    ensures (n + z) % BLOCK == 56
  {
  }

  /** A 64-bit number, most significant byte first. */
  function Be64(n: nat): (r: seq<byte>)
    requires n < TWO64
    ensures |r| == 8
  {
    [n / 0x100_0000_0000_0000, n / 0x1_0000_0000_0000 % 256, n / 0x100_0000_0000 % 256, n / 0x1_0000_0000 % 256,
     n / 0x100_0000 % 256, n / 0x1_0000 % 256, n / 0x100 % 256, n % 256]
  }

  /** 0x80 and zeros. */
  function Filled(m: seq<byte>): seq<byte> { m + ([0x80] + Zeros(ZeroCount(|m|))) }

  /** The message the kernel hashes: its length field counts the filling as well. */
  function Padded(m: seq<byte>): seq<byte> { Filled(m) + Be64(8 * |Filled(m)| % TWO64) }

  /** Section 5.1.1 of FIPS 180-4: the length field counts the message only. */
  function PaddedByStandard(m: seq<byte>): seq<byte> { Filled(m) + Be64(8 * |m| % TWO64) }

  lemma PaddedWhole(m: seq<byte>)
    ensures |Filled(m)| % BLOCK == 56 && |Padded(m)| % BLOCK == 0 && |PaddedByStandard(m)| == |Padded(m)|
  {
    hide Be64, ZeroCount, Zeros;
    var n := |m| + 1 + ZeroCount(|m|);
    assert |Filled(m)| == n && |Padded(m)| == n + 8;
    ModUnique(n + 8, n / BLOCK + 1, 0, BLOCK);
  }

  /** The value of bytes, most significant first. */
  function Number(b: seq<byte>): nat { if b == [] then 0 else Number(b[..|b| - 1]) * 256 + b[|b| - 1] }

  /** Bytes read so far make up what is left of `n` without its last `d`-th part; one more byte is one step finer. */
  lemma NextByte(b: seq<byte>, k: nat, n: nat, d: nat)
    requires k < |b| && d > 0 && Number(b[..k]) == n / (256 * d) && b[k] == n / d % 256
    ensures Number(b[..k + 1]) == n / d
  {
    var c := b[..k + 1];
    assert c[..k] == b[..k] && Number(c) == Number(c[..k]) * 256 + c[k];
    DivTwice(n, d);
  }

  lemma DivTwice(n: nat, d: nat)
    requires d > 0
    ensures n / d == n / (256 * d) * 256 + n / d % 256
  {
    var q, r := n / d, n % d;
    var s, t := q / 256, q % 256;
    Regroup(s, t, d);
    assert n == q * d + r;
    ModUnique(n, s, t * d + r, 256 * d);
  }

  lemma Regroup(s: nat, t: nat, d: nat)
    requires t < 256
    ensures (s * 256 + t) * d == s * (256 * d) + t * d && 0 <= t * d <= 255 * d
  {
    assert 0 <= (255 - t) * d;
  }

  lemma Be64Number(n: nat)
    requires n < TWO64
    ensures Number(Be64(n)) == n
  {
    hide Number;
    var r := Be64(n);
    assert Number(r[..0]) == 0 by { NumberNone(r[..0]); }
    NextByte(r, 0, n, 0x100_0000_0000_0000);
    NextByte(r, 1, n, 0x1_0000_0000_0000);
    NextByte(r, 2, n, 0x100_0000_0000);
    NextByte(r, 3, n, 0x1_0000_0000);
    NextByte(r, 4, n, 0x100_0000);
    NextByte(r, 5, n, 0x1_0000);
    NextByte(r, 6, n, 0x100);
    NextByte(r, 7, n, 1);
    assert r[..8] == r;
  }

  lemma NumberNone(b: seq<byte>)
    requires |b| == 0
    ensures Number(b) == 0
  {
  }

  /**
   The parts of a padded message: the message, 0x80, fewer than 64 zeros up to whole blocks, and
   the length in bits, most significant byte first: that of all bytes before it, or by the
   standard that of the message.
   */
  lemma PaddedLayout(m: seq<byte>)
    ensures var p, s := Padded(m), PaddedByStandard(m); var n := |p| - 8;
      && |p| == |s| && |p| % BLOCK == 0 && |m| < n < |m| + 1 + BLOCK
      && p[..n] == s[..n] && p[..|m|] == m && p[|m|] == 0x80 && (forall i :: |m| < i < n ==> p[i] == 0)
      && Number(p[n..]) == 8 * n % TWO64 && Number(s[n..]) == 8 * |m| % TWO64
  {
    hide Be64, ZeroCount, Number;
    PaddedWhole(m);
    var f := Filled(m);
    var p, s := Padded(m), PaddedByStandard(m);
    assert p[..|f|] == f == s[..|f|] && f[..|m|] == m;
    assert p[|f|..] == Be64(8 * |f| % TWO64) && s[|f|..] == Be64(8 * |m| % TWO64);
    Be64Number(8 * |f| % TWO64);
    Be64Number(8 * |m| % TWO64);
  }

  lemma Be64Injective(a: nat, b: nat)
    requires a < TWO64 && b < TWO64 && a % 0x1_0000 != b % 0x1_0000
    ensures Be64(a) != Be64(b)
  {
    if Be64(a) == Be64(b) {
      assert a / 0x100 % 256 == Be64(a)[6] == Be64(b)[6] && a % 256 == Be64(a)[7] == Be64(b)[7];
      LowWord(a);
      LowWord(b);
    }
  }

  lemma LowWord(n: nat)
    ensures n % 0x1_0000 == n / 0x100 % 256 * 256 + n % 256
  {
    var q := n / 0x100;
    ModUnique(n, q / 256, q % 256 * 256 + n % 256, 0x1_0000);
  }

  /** The kernel's padding is the standard's for no message at all: the counts differ by 8 to 512 bits. */
  lemma PaddingNeverStandard(m: seq<byte>)
    ensures Padded(m) != PaddedByStandard(m)
  {
    var f := Filled(m);
    var a, b := 8 * |f| % TWO64, 8 * |m| % TWO64;
    CountsDiffer(|m|, |f|);
    Be64Injective(a, b);
    assert Padded(m)[|f|..] == Be64(a) && PaddedByStandard(m)[|f|..] == Be64(b);
  }

  lemma CountsDiffer(n: nat, f: nat)
    requires n < f <= n + BLOCK
    ensures 8 * f % TWO64 % 0x1_0000 != 8 * n % TWO64 % 0x1_0000
  {
    assert TWO64 % 0x1_0000 == 0;
    LowOf(8 * f);
    LowOf(8 * n);
    var d := 8 * f - 8 * n;
    assert 0 < d <= 512;
  }

  lemma LowOf(x: nat)
    ensures x % TWO64 % 0x1_0000 == x % 0x1_0000
  {
  }

  function Digest<S>(compress: (S, seq<byte>) -> S, init: S, m: seq<byte>): S { Compressed(compress, init, Padded(m)) }

  // ---------- The context ----------

  class Context<S> {
    const compress: (S, seq<byte>) -> S
    const init: S
    var state: S
    var bitCount: nat
    const buffer: array<byte>
    var bufferLen: nat
    ghost var message: seq<byte>

    /** State and buffer are those of the bytes fed in so far, in whatever pieces they came. */
    ghost predicate Valid()
      reads this, buffer
    {
      && buffer.Length == BLOCK && bufferLen < BLOCK && bitCount == 8 * |message| % TWO64
      && state == Compressed(compress, init, message[..Whole(message)])
      && buffer[..bufferLen] == message[Whole(message)..]
    }

    constructor (compress: (S, seq<byte>) -> S, init: S)
      ensures Valid() && message == [] && this.compress == compress && this.init == init && fresh(buffer)
    {
      this.compress, this.init, this.state := compress, init, init;
      bitCount, bufferLen, message := 0, 0, [];
      buffer := new byte[BLOCK](_ => 0);
    }

    method Update(data: seq<byte>)
      requires Valid()
      modifies `state, `bitCount, `bufferLen, `message, buffer
      ensures Valid() && message == old(message) + data
    {
      hide Compressed;
      if |data| == 0 {
        assert message + data == message;
        return;
      }
      ghost var m := message;
      bitCount := Add64(bitCount, 8 * |data| % TWO64);
      CountsAdd(|m|, |data|);
      message := m + data;
      var taken := FillBuffer(data, m);
      ghost var done := m + data[..taken];
      while |data| - taken >= BLOCK
        invariant 0 <= taken <= |data| && bufferLen < BLOCK && (bufferLen > 0 ==> taken == |data|)
        invariant state == Compressed(compress, init, (m + data[..taken])[..Whole(m + data[..taken])])
        invariant buffer[..bufferLen] == (m + data[..taken])[Whole(m + data[..taken])..]
        invariant bitCount == 8 * |m + data| % TWO64 && message == m + data
      {
        NextBlock(compress, init, m + data[..taken], data[taken..taken + BLOCK]);
        assert data[..taken + BLOCK] == data[..taken] + data[taken..taken + BLOCK];
        assert m + data[..taken + BLOCK] == m + data[..taken] + data[taken..taken + BLOCK];
        state := compress(state, data[taken..taken + BLOCK]);
        taken := taken + BLOCK;
      }
      KeepRest(data, taken, m);
    }

    /** Completes a block that was begun, as far as the data goes. */
    method FillBuffer(data: seq<byte>, ghost m: seq<byte>) returns (taken: nat)
      requires buffer.Length == BLOCK && bufferLen < BLOCK && data != []
      requires state == Compressed(compress, init, m[..Whole(m)]) && buffer[..bufferLen] == m[Whole(m)..]
      modifies `state, `bufferLen, buffer
      ensures taken <= |data| && bufferLen < BLOCK && (bufferLen > 0 ==> taken == |data|)
      ensures var n := m + data[..taken];
        state == Compressed(compress, init, n[..Whole(n)]) && buffer[..bufferLen] == n[Whole(n)..]
    {
      hide Compressed;
      taken := 0;
      assert m + data[..0] == m;
      if bufferLen > 0 {
        var space := BLOCK - bufferLen;
        var count := if |data| < space then |data| else space;
        CopyIn(bufferLen, data[..count]);
        taken := count;
        ghost var n := m + data[..taken];
        WholeGrows(m, data[..taken], bufferLen + taken);
        bufferLen := bufferLen + taken;
        assert buffer[..bufferLen] == m[Whole(m)..] + data[..taken];
        if bufferLen == BLOCK {
          FullBlock(compress, init, m, data[..taken]);
          assert buffer[..] == buffer[..bufferLen];
          state := compress(state, buffer[..]);
          bufferLen := 0;
        }
      }
    }

    method CopyIn(at: nat, bytes: seq<byte>)
      requires at + |bytes| <= buffer.Length
      modifies buffer
      ensures buffer[..at + |bytes|] == old(buffer[..at]) + bytes
    {
      var i := 0;
      while i < |bytes|
        invariant 0 <= i <= |bytes| && buffer[..at + i] == old(buffer[..at]) + bytes[..i]
      {
        buffer[at + i] := bytes[i];
        i := i + 1;
      }
    }

    method KeepRest(data: seq<byte>, taken: nat, ghost m: seq<byte>)
      requires taken <= |data| && |data| - taken < BLOCK && buffer.Length == BLOCK && bufferLen < BLOCK
      requires (bufferLen > 0 ==> taken == |data|)
      requires var n := m + data[..taken];
        state == Compressed(compress, init, n[..Whole(n)]) && buffer[..bufferLen] == n[Whole(n)..]
      modifies `bufferLen, buffer
      ensures bufferLen < BLOCK
      ensures var n := m + data;
        state == Compressed(compress, init, n[..Whole(n)]) && buffer[..bufferLen] == n[Whole(n)..]
    {
      hide Compressed;
      ghost var n := m + data[..taken];
      if taken < |data| {
        assert m + data == n + data[taken..];
        WholeGrows(n, data[taken..], |data| - taken);
        CopyIn(0, data[taken..]);
        bufferLen := |data| - taken;
      } else {
        assert data[..taken] == data;
      }
    }

    /** Ends on a block boundary with the padding behind the message; what is left is the digest. */
    method Final()
      requires Valid()
      modifies `state, `bitCount, `bufferLen, `message, buffer
      ensures Valid() && bufferLen == 0 && message == Padded(old(message)) &&
        state == Digest(compress, init, old(message))
    {
      hide Compressed, Be64, Zeros, ZeroCount, Whole;
      ghost var m := message;
      Fill();
      var count := bitCount;
      Update(Be64(count));
      PaddedWhole(m);
      BufferTells(message, buffer[..bufferLen]);
      WholeAll(message);
    }

    /** The 0x80 and the zeros. */
    method Fill()
      requires Valid()
      modifies `state, `bitCount, `bufferLen, `message, buffer
      ensures Valid() && message == Filled(old(message))
    {
      hide Compressed;
      ghost var m := message;
      Update([0x80]);
      ghost var z := 0;
      assert message == m + ([0x80] + Zeros(0));
      while bufferLen != 56
        invariant Valid() && message == m + ([0x80] + Zeros(z)) && z <= ZeroCount(|m|)
        decreases ZeroCount(|m|) - z
      {
        BufferTells(message, buffer[..bufferLen]);
        NotYet(|m|, z, bufferLen);
        Update([0]);
        OneMoreZero(m, z);
        z := z + 1;
      }
      BufferTells(message, buffer[..bufferLen]);
      Reached(|m|, z);
    }
  }

  /** Hashing a message in any pieces is hashing it whole. */
  method HashChunks<S(0)>(compress: (S, seq<byte>) -> S, init: S, chunks: seq<seq<byte>>) returns (digest: S)
    ensures digest == Digest(compress, init, Concat(chunks))
  {
    hide Compressed, Padded;
    var ctx := new Context(compress, init);
    var i := 0;
    while i < |chunks|
      invariant 0 <= i <= |chunks| && fresh(ctx) && fresh(ctx.buffer) && ctx.Valid() &&
        ctx.message == Concat(chunks[..i])
      invariant ctx.compress == compress && ctx.init == init
    {
      ctx.Update(chunks[i]);
      assert chunks[..i + 1][..i] == chunks[..i];
      i := i + 1;
    }
    assert chunks[..i] == chunks;
    ctx.Final();
    digest := ctx.state;
  }

  function Concat(chunks: seq<seq<byte>>): seq<byte>
  {
    if chunks == [] then [] else Concat(chunks[..|chunks| - 1]) + chunks[|chunks| - 1]
  }

  // ---------- Small steps ----------

  lemma CountsAdd(a: nat, b: nat)
    ensures Add64(8 * a % TWO64, 8 * b % TWO64) == 8 * (a + b) % TWO64
  {
  }

  /** Adding `b` bytes to a message whose rest and `b` together hold `k`: fewer than a block, or exactly one. */
  lemma WholeGrows(m: seq<byte>, b: seq<byte>, k: nat)
    requires k == |m| - Whole(m) + |b| && k <= BLOCK
    ensures Whole(m + b) == if k < BLOCK then Whole(m) else Whole(m) + BLOCK
    ensures (m + b)[..Whole(m)] == m[..Whole(m)] && (m + b)[Whole(m)..] == m[Whole(m)..] + b
  {
  }

  /** A buffered rest completed to a block is compressed next. */
  lemma FullBlock<S>(compress: (S, seq<byte>) -> S, init: S, m: seq<byte>, b: seq<byte>)
    requires |m| - Whole(m) + |b| == BLOCK
    ensures var n := m + b;
      && Whole(n) == |n| && n[Whole(n)..] == []
      && Compressed(compress, init, n[..Whole(n)]) ==
        compress(Compressed(compress, init, m[..Whole(m)]), m[Whole(m)..] + b)
  {
    var n, done, last := m + b, m[..Whole(m)], m[Whole(m)..] + b;
    WholeGrows(m, b, BLOCK);
    assert n[..Whole(n)] == done + last;
    CompressedConcat(compress, init, done, last);
    OneBlock(compress, Compressed(compress, init, done), last);
  }

  lemma OneBlock<S>(compress: (S, seq<byte>) -> S, s: S, b: seq<byte>)
    requires |b| == BLOCK
    ensures Compressed(compress, s, b) == compress(s, b)
  {
    assert b[..BLOCK] == b && b[BLOCK..] == [];
  }

  /** Without a rest, the next 64 bytes are the next block. */
  lemma NextBlock<S>(compress: (S, seq<byte>) -> S, init: S, n: seq<byte>, b: seq<byte>)
    requires |b| == BLOCK && n[Whole(n)..] == []
    ensures var p := n + b;
      && Compressed(compress, init, p[..Whole(p)]) == compress(Compressed(compress, init, n[..Whole(n)]), b)
      && p[Whole(p)..] == []
  {
    FullBlock(compress, init, n, b);
    assert [] + b == b;
  }

  lemma OneMoreZero(m: seq<byte>, z: nat)
    ensures m + ([0x80] + Zeros(z)) + [0] == m + ([0x80] + Zeros(z + 1))
  {
  }

  lemma WholeAll(m: seq<byte>)
    requires |m| % BLOCK == 0
    ensures m[..Whole(m)] == m
  {
  }

  lemma BufferTells(m: seq<byte>, rest: seq<byte>)
    requires rest == m[Whole(m)..]
    ensures |rest| == |m| % BLOCK
  {
  }

  lemma NotYet(n: nat, z: nat, r: nat)
    requires z <= ZeroCount(n) && r == (n + 1 + z) % BLOCK != 56
    ensures z < ZeroCount(n)
  {
  }

  lemma Reached(n: nat, z: nat)
    requires z <= ZeroCount(n) && (n + 1 + z) % BLOCK == 56
    ensures z == ZeroCount(n)
  {
  }
}
