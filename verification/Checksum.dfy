/**
 The Internet checksum of the IPv4 and IPv6 code, the IPv4 header builder and the header
 validation. Sections 1 and 2 of RFC 1071 say what the sum is for: a zero field that is filled
 with the checksum makes the whole sum to zero.
 */
module Checksum {
  import opened Machine
  import opened Modular

  const ONES: int := 0xFFFF

  function Word(hi: int, lo: int): int { hi * 0x100 + lo }

  /** Sum of big-endian 16-bit words, an odd last byte padded with zero. */
  function WordSum(d: seq<byte>): (s: nat)
  {
    if |d| == 0 then 0
    else if |d| == 1 then Word(d[0], 0)
    else Word(d[0], d[1]) + WordSum(d[2..])
  }

  /** Adding the carries back until the sum has 16 bits. */
  function Fold(sum: nat): (r: nat)
    ensures r <= ONES
    decreases sum
  {
    if sum < 0x1_0000 then sum else Fold(sum % 0x1_0000 + sum / 0x1_0000)
  }

  /** Folding is reduction modulo 65535, with 65535 for the multiples other than zero. */
  lemma {:induction false} FoldExact(sum: nat)
    ensures Fold(sum) == if sum == 0 then 0 else if sum % ONES == 0 then ONES else sum % ONES
    decreases sum
  {
    if sum >= 0x1_0000 {
      var next := sum % 0x1_0000 + sum / 0x1_0000;
      FoldExact(next);
      assert sum == next + (sum / 0x1_0000) * ONES;
      ModShift(next, sum / 0x1_0000, ONES);
    }
  }

  function Complement(sum: nat): (c: nat)
    ensures c <= ONES
  {
    ONES - Fold(sum)
  }

  /** A message sums to zero exactly when its words add up to a multiple of 65535 other than zero. */
  lemma ZeroExact(sum: nat)
    ensures Complement(sum) == 0 <==> sum > 0 && sum % ONES == 0
  {
    FoldExact(sum);
  }

  /** Adding the checksum to the sum makes the next checksum zero. */
  lemma ComplementCancels(sum: nat)
    ensures Complement(sum + Complement(sum)) == 0
  {
    FoldExact(sum);
    var total := sum + Complement(sum);
    if sum == 0 {
      assert total == ONES;
    } else if sum % ONES == 0 {
      assert total == sum;
    } else {
      assert sum == sum / ONES * ONES + sum % ONES;
      assert total == (sum / ONES + 1) * ONES;
      ModUnique(total, sum / ONES + 1, 0, ONES);
    }
    ZeroExact(total);
  }

  /** The example in section 3 of RFC 1071: eight bytes whose words add up to 2ddf0, folded ddf2. */
  lemma Rfc1071Example()
    ensures var d: seq<byte> := [0x00, 0x01, 0xf2, 0x03, 0xf4, 0xf5, 0xf6, 0xf7];
      WordSum(d) == 0x2_ddf0 && Fold(WordSum(d)) == 0xddf2 && Complement(WordSum(d)) == 0x220d
  {
    var d: seq<byte> := [0x00, 0x01, 0xf2, 0x03, 0xf4, 0xf5, 0xf6, 0xf7];
    assert d[2..] == [0xf2, 0x03, 0xf4, 0xf5, 0xf6, 0xf7] && d[2..][2..] == [0xf4, 0xf5, 0xf6, 0xf7];
    assert d[2..][2..][2..] == [0xf6, 0xf7] && d[2..][2..][2..][2..] == [];
    assert WordSum(d[2..][2..][2..]) == 0xf6f7;
    assert WordSum(d[2..][2..]) == 0xf4f5 + 0xf6f7;
  }

  // ---------- Storing a 16-bit field ----------

  function Put16(d: seq<byte>, k: nat, v: nat): (r: seq<byte>)
    requires k + 1 < |d| && v <= ONES
    ensures |r| == |d| && Word(r[k], r[k + 1]) == v && forall i :: 0 <= i < |d| && i != k && i != k + 1 ==> r[i] == d[i]
  {
    d[k := v / 0x100][k + 1 := v % 0x100]
  }

  lemma {:induction false} PutAddsWord(d: seq<byte>, k: nat, v: nat)
    requires k % 2 == 0 && k + 1 < |d| && d[k] == 0 && d[k + 1] == 0 && v <= ONES
    ensures WordSum(Put16(d, k, v)) == WordSum(d) + v
    decreases |d|
  {
    var r := Put16(d, k, v);
    if k == 0 {
      assert r[2..] == d[2..];
    } else {
      assert r[2..] == Put16(d[2..], k - 2, v);
      PutAddsWord(d[2..], k - 2, v);
    }
  }

  /** Any bytes with a zero field at an even offset: once the checksum is stored there, the sum is zero. */
  lemma StoredChecksumVerifies(d: seq<byte>, k: nat, extra: nat)
    requires k % 2 == 0 && k + 1 < |d| && d[k] == 0 && d[k + 1] == 0
    ensures Complement(extra + WordSum(Put16(d, k, Complement(extra + WordSum(d))))) == 0
  {
    hide Complement;
    var c := Complement(extra + WordSum(d));
    PutAddsWord(d, k, c);
    ComplementCancels(extra + WordSum(d));
    assert extra + WordSum(Put16(d, k, c)) == extra + WordSum(d) + c;
  }

  lemma {:induction false} WordSumConcat(a: seq<byte>, b: seq<byte>)
    requires |a| % 2 == 0
    ensures WordSum(a + b) == WordSum(a) + WordSum(b)
    decreases |a|
  {
    if a == [] {
      assert a + b == b;
    } else {
      assert (a + b)[2..] == a[2..] + b && (a + b)[0] == a[0] && (a + b)[1] == a[1];
      WordSumConcat(a[2..], b);
    }
  }

  // ---------- The loops ----------

  method AddWords(start: nat, data: seq<byte>) returns (sum: nat)
    ensures sum == start + WordSum(data)
  {
    hide WordSum, Word;
    sum := start;
    var i := 0;
    ghost var w := 0;
    assert data[0..] == data;
    while i + 1 < |data|
      invariant 0 <= i <= |data| && i == 2 * w && start + WordSum(data) == sum + WordSum(data[i..])
    {
      WordStep(data, i);
      sum := sum + Word(data[i], data[i + 1]);
      i, w := i + 2, w + 1;
    }
    WordEnd(data, i, w);
    if |data| % 2 != 0 {
      sum := sum + Word(data[|data| - 1], 0);
    }
  }

  lemma WordStep(d: seq<byte>, i: nat)
    requires i + 1 < |d|
    ensures WordSum(d[i..]) == Word(d[i], d[i + 1]) + WordSum(d[i + 2..]) && Word(d[i], d[i + 1]) >= 0
  {
  }

  lemma WordEnd(d: seq<byte>, i: nat, w: nat)
    requires i == 2 * w && i <= |d| <= i + 1
    ensures (|d| % 2 != 0 <==> i < |d|) && WordSum(d[i..]) == if i < |d| then Word(d[i], 0) else 0
    ensures i < |d| ==> Word(d[i], 0) >= 0
  {
  }

  method FoldCarries(start: nat) returns (c: nat)
    ensures c == Complement(start)
  {
    var sum := start;
    while sum / 0x1_0000 != 0
      invariant Fold(sum) == Fold(start)
      decreases sum
    {
      sum := sum % 0x1_0000 + sum / 0x1_0000;
    }
    return ONES - sum;
  }

  method Ipv4Checksum(data: seq<byte>) returns (c: nat)
    ensures c == Complement(WordSum(data))
  {
    var sum := AddWords(0, data);
    c := FoldCarries(sum);
  }

  /** The 12-byte pseudo-header of an IPv4 payload. */
  function Pseudo4(src: nat, dst: nat, protocol: byte, length: nat): (p: seq<byte>)
    requires src < TWO32 && dst < TWO32 && length <= ONES
    ensures |p| == 12
  {
    Be32(src) + Be32(dst) + [0, protocol] + Be16(length)
  }

  function Be16(v: nat): (r: seq<byte>)
    requires v <= ONES
    ensures |r| == 2
  {
    [v / 0x100, v % 0x100]
  }

  function Be32(v: nat): (r: seq<byte>)
    requires v < TWO32
    ensures |r| == 4
  {
    Be16(v / 0x1_0000) + Be16(v % 0x1_0000)
  }

  lemma Be16Sum(v: nat)
    requires v <= ONES
    ensures WordSum(Be16(v)) == v
  {
  }

  lemma Be32Sum(v: nat)
    requires v < TWO32
    ensures WordSum(Be32(v)) == v / 0x1_0000 + v % 0x1_0000
  {
    WordSumConcat(Be16(v / 0x1_0000), Be16(v % 0x1_0000));
  }

  /** Field by field, the same sum as over the pseudo-header bytes followed by the payload. */
  method PseudoChecksum4(src: nat, dst: nat, protocol: byte, length: nat, payload: seq<byte>) returns (c: nat)
    requires src < TWO32 && dst < TWO32 && length <= ONES
    ensures c == Complement(WordSum(Pseudo4(src, dst, protocol, length) + payload))
  {
    hide WordSum, Complement;
    var sum := src / 0x1_0000 + src % 0x1_0000 + dst / 0x1_0000 + dst % 0x1_0000 + protocol + length;
    Pseudo4Sum(src, dst, protocol, length);
    WordSumConcat(Pseudo4(src, dst, protocol, length), payload);
    sum := AddWords(sum, payload);
    c := FoldCarries(sum);
  }

  lemma Pseudo4Sum(src: nat, dst: nat, protocol: byte, length: nat)
    requires src < TWO32 && dst < TWO32 && length <= ONES
    ensures WordSum(Pseudo4(src, dst, protocol, length)) ==
      src / 0x1_0000 + src % 0x1_0000 + dst / 0x1_0000 + dst % 0x1_0000 + protocol + length
  {
    Be32Sum(src);
    Be32Sum(dst);
    Be16Sum(length);
    var mid: seq<byte> := [0, protocol];
    assert WordSum(mid) == protocol by { assert mid[2..] == []; }
    WordSumConcat(Be32(src), Be32(dst));
    WordSumConcat(Be32(src) + Be32(dst), mid);
    WordSumConcat(Be32(src) + Be32(dst) + mid, Be16(length));
  }

  /** The 40-byte pseudo-header of section 8.1 of RFC 8200. */
  function Pseudo6(src: seq<byte>, dst: seq<byte>, nextHeader: byte, length: nat): (p: seq<byte>)
    requires |src| == |dst| == 16 && length < TWO32
    ensures |p| == 40
  {
    src + dst + Be32(length) + [0, 0, 0, nextHeader]
  }

  method PseudoChecksum6(src: seq<byte>, dst: seq<byte>, nextHeader: byte, length: nat, payload: seq<byte>)
    returns (c: nat)
    requires |src| == |dst| == 16 && length < TWO32
    ensures c == Complement(WordSum(Pseudo6(src, dst, nextHeader, length) + payload))
  {
    hide WordSum, Complement;
    var pseudo := FillPseudo6(src, dst, nextHeader, length);
    var sum := AddWords(0, pseudo[..]);
    sum := AddWords(sum, payload);
    c := FoldCarries(sum);
    WordSumConcat(pseudo[..], payload);
  }

  method FillPseudo6(src: seq<byte>, dst: seq<byte>, nextHeader: byte, length: nat) returns (pseudo: array<byte>)
    requires |src| == |dst| == 16 && length < TWO32
    ensures pseudo[..] == Pseudo6(src, dst, nextHeader, length)
  {
    pseudo := new byte[40];
    var i := 0;
    while i < 16
      invariant 0 <= i <= 16 && forall k :: 0 <= k < i ==> pseudo[k] == src[k]
    {
      pseudo[i] := src[i];
      i := i + 1;
    }
    i := 0;
    while i < 16
      invariant 0 <= i <= 16 && forall k :: 0 <= k < i ==> pseudo[16 + k] == dst[k]
      invariant forall k :: 0 <= k < 16 ==> pseudo[k] == src[k]
    {
      pseudo[16 + i] := dst[i];
      i := i + 1;
    }
    var be := Be32(length);
    pseudo[32], pseudo[33], pseudo[34], pseudo[35] := be[0], be[1], be[2], be[3];
    pseudo[36], pseudo[37], pseudo[38], pseudo[39] := 0, 0, 0, nextHeader;
    var want := Pseudo6(src, dst, nextHeader, length);
    assert forall k :: 0 <= k < 16 ==> want[k] == src[k] && want[16 + k] == dst[k];
    assert pseudo[..] == want;
  }

  /** A payload with a zero checksum field at an even offset verifies once the pseudo-header checksum is stored. */
  lemma PseudoVerifies(pseudo: seq<byte>, payload: seq<byte>, k: nat)
    requires |pseudo| % 2 == 0 && k % 2 == 0 && k + 1 < |payload| && payload[k] == 0 && payload[k + 1] == 0
    ensures Complement(WordSum(pseudo + Put16(payload, k, Complement(WordSum(pseudo + payload))))) == 0
  {
    hide WordSum, Complement;
    WordSumConcat(pseudo, payload);
    var c := Complement(WordSum(pseudo + payload));
    WordSumConcat(pseudo, Put16(payload, k, c));
    StoredChecksumVerifies(payload, k, WordSum(pseudo));
  }

  // ---------- IPv4 headers ----------

  /** The 20 header bytes with the checksum field still zero. */
  function HeaderFields(length: nat, protocol: byte, src: nat, dst: nat): (h: seq<byte>)
    requires length <= ONES && src < TWO32 && dst < TWO32
    ensures |h| == 20
  {
    [0x45, 0] + Be16(length) + [0, 0, 0x40, 0, 64, protocol, 0, 0] + Be32(src) + Be32(dst)
  }

  function Header(length: nat, protocol: byte, src: nat, dst: nat): (h: seq<byte>)
    requires length <= ONES && src < TWO32 && dst < TWO32
    ensures |h| == 20
  {
    var h := HeaderFields(length, protocol, src, dst);
    Put16(h, 10, Complement(WordSum(h)))
  }

  /** Four bytes as a number, most significant first. */
  function Number32(b: seq<byte>): nat
    requires |b| == 4
  {
    0x100_0000 * (b[0] as int) + 0x1_0000 * (b[1] as int) + 0x100 * (b[2] as int) + b[3]
  }

  lemma Be32Number(v: nat)
    requires v < TWO32
    ensures Number32(Be32(v)) == v
  {
  }

  /** Figure 4 of RFC 791: where each field of a built header is, all of them most significant byte first. */
  lemma HeaderLayout(length: nat, protocol: byte, src: nat, dst: nat)
    requires length <= ONES && src < TWO32 && dst < TWO32
    ensures var h := Header(length, protocol, src, dst);
      && h[0] == 0x45 && h[1] == 0 && 256 * (h[2] as int) + h[3] == length
      && h[4] == h[5] == 0 && h[6] == 0x40 && h[7] == 0 && h[8] == 64 && h[9] == protocol
      && Number32(h[12..16]) == src && Number32(h[16..20]) == dst
  {
    hide Complement, WordSum;
    var h := Header(length, protocol, src, dst);
    Be32Number(src);
    Be32Number(dst);
    assert h[12..16] == Be32(src) && h[16..20] == Be32(dst);
  }

  method FillHeader(hdr: array<byte>, length: nat, protocol: byte, src: nat, dst: nat)
    requires hdr.Length >= 20 && length <= ONES && src < TWO32 && dst < TWO32
    modifies hdr
    ensures hdr[..20] == HeaderFields(length, protocol, src, dst)
    ensures forall k :: 20 <= k < hdr.Length ==> hdr[k] == old(hdr[k])
  {
    hide Be16, Be32;
    Store(hdr, 0, [0x45, 0]);
    Store(hdr, 2, Be16(length));
    Store(hdr, 4, [0, 0, 0x40, 0, 64, protocol, 0, 0]);
    Store(hdr, 12, Be32(src));
    Store(hdr, 16, Be32(dst));
  }

  /** Writes bytes behind the first `k`, leaving the rest. */
  method Store(hdr: array<byte>, k: nat, bytes: seq<byte>)
    requires k + |bytes| <= hdr.Length
    modifies hdr
    ensures hdr[..k + |bytes|] == old(hdr[..k]) + bytes
    ensures forall j :: k + |bytes| <= j < hdr.Length ==> hdr[j] == old(hdr[j])
  {
    var i := 0;
    while i < |bytes|
      invariant 0 <= i <= |bytes|
      invariant forall j :: 0 <= j < k ==> hdr[j] == old(hdr[j])
      invariant forall j :: 0 <= j < i ==> hdr[k + j] == bytes[j]
      invariant forall j :: k + i <= j < hdr.Length ==> hdr[j] == old(hdr[j])
    {
      hdr[k + i] := bytes[i];
      i := i + 1;
    }
  }

  method BuildHeader(hdr: array<byte>, length: nat, protocol: byte, src: nat, dst: nat)
    requires hdr.Length >= 20 && length <= ONES && src < TWO32 && dst < TWO32
    modifies hdr
    ensures hdr[..20] == Header(length, protocol, src, dst)
    ensures forall k :: 20 <= k < hdr.Length ==> hdr[k] == old(hdr[k])
  {
    hide WordSum, Complement, HeaderFields;
    FillHeader(hdr, length, protocol, src, dst);
    var c := Ipv4Checksum(hdr[..20]);
    ghost var h := hdr[..20];
    hdr[10], hdr[11] := c / 0x100, c % 0x100;
    assert hdr[..20] == Put16(h, 10, c);
  }

  /** What an incoming Ethernet frame must satisfy. */
  predicate ValidFrame(frame: seq<byte>)
  {
    |frame| >= 34 &&
    var ip := frame[14..];
    var header, length := ip[0] % 16 * 4, Word(ip[2], ip[3]);
    && ip[0] / 16 == 4 && header >= 20 && header <= length && 14 + length <= |frame| && ip[8] != 0
    && Complement(WordSum(ip[..header])) == 0
  }

  method ValidateIncoming(frame: seq<byte>) returns (ok: bool)
    ensures ok <==> ValidFrame(frame)
  {
    if |frame| < 34 {
      return false;
    }
    var ip := frame[14..];
    var ihl := ip[0] % 16;
    if ip[0] / 16 != 4 || ihl < 5 {
      return false;
    }
    var headerBytes, totalLength := ihl * 4, Word(ip[2], ip[3]);
    if totalLength < headerBytes || 14 + totalLength > |frame| || ip[8] == 0 {
      return false;
    }
    var c := Ipv4Checksum(ip[..headerBytes]);
    return c == 0;
  }

  lemma {:induction false} WordSumChange(d: seq<byte>, i: nat, b: byte)
    requires i < |d|
    ensures WordSum(d[i := b]) == WordSum(d) + (b as int - d[i] as int) * if i % 2 == 0 then 0x100 else 1
    decreases |d|
  {
    var r := d[i := b];
    if i >= 2 {
      assert r[2..] == d[2..][i - 2 := b];
      WordSumChange(d[2..], i - 2, b);
    } else if |d| >= 2 {
      assert r[2..] == d[2..];
    }
  }

  /** No other byte anywhere in the header of a valid frame, behind the first, leaves a valid frame. */
  lemma OneByteDetected(frame: seq<byte>, i: nat, b: byte)
    requires ValidFrame(frame) && 0 < i < frame[14] % 16 * 4 && b != frame[14 + i]
    ensures !ValidFrame(frame[14 + i := b])
  {
    hide WordSum, Complement;
    var ip := frame[14..];
    var n := ip[0] % 16 * 4;
    var other := frame[14 + i := b];
    assert other[14..] == ip[i := b] && ip[i := b][..n] == ip[..n][i := b];
    WordSumChange(ip[..n], i, b);
    var s, t := WordSum(ip[..n]), WordSum(ip[..n][i := b]);
    ZeroExact(s);
    ZeroExact(t);
    NotBoth(s, t);
  }

  lemma NotBoth(s: nat, t: nat)
    requires s % ONES == 0 && s != t && -ONES < t - s < ONES
    ensures t % ONES != 0
  {
  }

  /** A built header passes validation exactly when its length field covers the header and fits the frame. */
  lemma BuiltHeaderValidates(ethernet: seq<byte>, length: nat, protocol: byte, src: nat, dst: nat, rest: seq<byte>)
    requires |ethernet| == 14 && length <= ONES && src < TWO32 && dst < TWO32
    ensures var frame := ethernet + Header(length, protocol, src, dst) + rest;
      ValidFrame(frame) <==> 20 <= length && 14 + length <= |frame|
  {
    hide WordSum, Complement;
    var h := Header(length, protocol, src, dst);
    var fields := HeaderFields(length, protocol, src, dst);
    var frame := ethernet + h + rest;
    StoredChecksumVerifies(fields, 10, 0);
    assert 0 + WordSum(fields) == WordSum(fields);
    assert frame[14..] == h + rest;
    assert (h + rest)[..20] == h;
    assert h[0] == fields[0] == 0x45 && h[8] == fields[8] == 64 && h[2] == fields[2] && h[3] == fields[3];
  }
}
