/**
 The kernel heap: a bump allocator with headers in front of the blocks and a best-fit free list.
 The list is a sequence of header addresses and the headers a map from address to usable size;
 `live` records what each allocation asked for.
 */
module Kheap {
  import opened Machine
  import opened Collections
  import opened Modular

  const PAGE_SIZE: nat := 4096
  const BASE: nat := 0x4a00_0000
  const LIMIT: nat := 0x4b00_0000
  const HEADER: nat := 16
  const TWO63: nat := 0x8000_0000_0000_0000

  datatype Request = Request(size: nat, align: nat)

  type Headers = map<nat, nat>

  predicate PowerOfTwo(n: nat) { n == 1 || (n > 1 && n % 2 == 0 && PowerOfTwo(n / 2)) }

  function AlignUp(value: nat, align: nat): (r: nat)
    requires align > 0
    ensures value <= r < value + align && r % align == 0
  {
    var q := (value + align - 1) / align;
    AlignedUp(value, align, q);
    q * align
  }

  lemma AlignedUp(value: nat, align: nat, q: nat)
    requires align > 0 && q == (value + align - 1) / align
    ensures value <= q * align < value + align && (q * align) % align == 0
  {
    assert value + align - 1 == q * align + (value + align - 1) % align;
    ModUnique(q * align, q, 0, align);
  }

  /** No smaller multiple is large enough. */
  lemma AlignUpLeast(value: nat, align: nat, m: nat)
    requires align > 0 && m % align == 0 && value <= m
    ensures AlignUp(value, align) <= m
  {
    var r := AlignUp(value, align);
    if m < r {
      MultiplesApart(m, r, align);
    }
  }

  lemma MultiplesApart(m: nat, r: nat, align: nat)
    requires align > 0 && m % align == 0 && r % align == 0 && m < r
    ensures m + align <= r
  {
    var i, j := m / align, r / align;
    assert r - m == (j - i) * align;
    if j > i {
      MulAtLeast(j - i, align);
    }
  }

  // ---------- The blocks ----------

  function End(headers: Headers, h: nat): nat
    requires h in headers
  {
    h + HEADER + headers[h]
  }

  /** Blocks lie between the base and the bump pointer, do not overlap, and hold 16-byte aligned data. */
  ghost predicate Blocks(headers: Headers, next: nat)
  {
    && (forall h :: h in headers ==>
      BASE <= h && End(headers, h) <= next && (h + HEADER) % HEADER == 0 && headers[h] > 0)
    && (forall g, h :: g in headers && h in headers && g < h ==> End(headers, g) <= h)
  }

  /** Where a block was cut off: the bump pointer before it, its header, and the alignment of its data. */
  datatype Cut = Cut(from: nat, header: nat, align: nat)

  /**
   The blocks in address order. The first starts at the base and every other where the one
   before it ends, moved up to the next address whose data is aligned; the bump pointer is the
   end of the last one.
   */
  ghost predicate Chained(order: seq<Cut>, headers: Headers, next: nat)
  {
    && headers.Keys == (set i | 0 <= i < |order| :: order[i].header)
    && (forall i :: 0 <= i < |order| ==> CutAt(order, headers, i))
    && next == LastEnd(order, headers, |order|)
  }

  predicate CutAt(order: seq<Cut>, headers: Headers, i: nat)
    requires i < |order|
  {
    var c := order[i];
    c.header in headers && c.from == LastEnd(order, headers, i) && c.from <= c.header < c.from + c.align
  }

  /** The end of the first `i` blocks. */
  function LastEnd(order: seq<Cut>, headers: Headers, i: nat): nat
    requires i <= |order|
  {
    if i > 0 && order[i - 1].header in headers then End(headers, order[i - 1].header) else BASE
  }

  lemma ChainedBump(order: seq<Cut>, headers: Headers, next: nat, h: nat, size: nat, align: nat)
    requires Chained(order, headers, next) && h !in headers && next <= h < next + align
    ensures Chained(order + [Cut(next, h, align)], headers[h := size], h + HEADER + size)
  {
    var o, hs := order + [Cut(next, h, align)], headers[h := size];
    forall i | 0 <= i < |o| ensures CutAt(o, hs, i) {
      if i < |order| {
        assert CutAt(order, headers, i);
        if i > 0 { assert CutAt(order, headers, i - 1); }
      } else if i > 0 {
        assert CutAt(order, headers, i - 1);
      }
    }
    assert forall i :: 0 <= i < |order| ==> o[i] == order[i];
    assert o[|order|].header == h;
  }

  /** No byte below the bump pointer is lost: it belongs to a block, or to the fewer than `align` bytes before one. */
  lemma EveryByteUsed(order: seq<Cut>, headers: Headers, next: nat, a: nat) returns (i: nat)
    requires Chained(order, headers, next) && BASE <= a < next
    ensures i < |order| && order[i].header in headers && order[i].from <= a < End(headers, order[i].header)
    ensures order[i].header < order[i].from + order[i].align
  {
    i := |order| - 1;
    assert CutAt(order, headers, i);
    while a < order[i].from
      invariant i < |order| && CutAt(order, headers, i) && a < End(headers, order[i].header)
    {
      i := i - 1;
      assert CutAt(order, headers, i);
    }
  }

  /** Every block is live, free or lost, and only one of these; a live one serves its request. */
  ghost predicate Accounted(headers: Headers, list: seq<nat>, live: map<nat, Request>, lost: set<nat>)
  {
    && Distinct(list)
    && headers.Keys == live.Keys + Elements(list) + lost
    && live.Keys !! Elements(list) && live.Keys !! lost && Elements(list) !! lost
    && (forall h :: h in live ==> live[h].align > 0 && headers[h] >= live[h].size && (h + HEADER) % live[h].align == 0)
  }

  /** Live allocations with their headers do not overlap and lie inside the mapped heap. */
  lemma LiveBlocksApart(headers: Headers, next: nat, mapped: nat, list: seq<nat>, live: map<nat, Request>,
      lost: set<nat>, g: nat, h: nat)
    requires Blocks(headers, next) && next <= mapped && Accounted(headers, list, live, lost)
    requires g in live && h in live && g != h
    ensures g in headers && h in headers && BASE <= g && End(headers, g) <= mapped
    ensures End(headers, g) <= h || End(headers, h) <= g
  {
  }

  // ---------- Best fit ----------

  predicate Eligible(headers: Headers, h: nat, size: nat, align: nat)
    requires align > 0
  {
    h in headers && headers[h] >= size && (h + HEADER) % align == 0
  }

  /** Large enough but misaligned: the search steps over it without moving its link pointer. */
  predicate Skipped(headers: Headers, h: nat, size: nat, align: nat)
    requires align > 0
  {
    h in headers && headers[h] >= size && (h + HEADER) % align != 0
  }

  /** The smallest eligible block among the first `n` of the list, the earliest of those. */
  predicate BestFit(headers: Headers, list: seq<nat>, size: nat, align: nat, i: nat, n: nat)
    requires align > 0 && i < n <= |list|
  {
    Eligible(headers, list[i], size, align) &&
    forall j :: 0 <= j < n && Eligible(headers, list[j], size, align) ==>
      headers[list[i]] <= headers[list[j]] && (j < i ==> headers[list[i]] < headers[list[j]])
  }

  /** No free block on the boundary that is large enough is smaller. */
  lemma SmallestFits(headers: Headers, list: seq<nat>, size: nat, align: nat, i: nat)
    requires align > 0 && i < |list| && BestFit(headers, list, size, align, i, |list|)
    requires forall j :: 0 <= j < |list| ==> list[j] in headers
    ensures forall g :: g in list && headers[g] >= size && (g + HEADER) % align == 0 ==> headers[list[i]] <= headers[g]
  {
    forall g | g in list && headers[g] >= size && (g + HEADER) % align == 0 ensures headers[list[i]] <= headers[g] {
      var j :| 0 <= j < |list| && list[j] == g;
      assert Eligible(headers, list[j], size, align);
    }
  }

  predicate NoneFits(headers: Headers, list: seq<nat>, size: nat, align: nat, n: nat)
    requires align > 0 && n <= |list|
  {
    forall j :: 0 <= j < n ==> !Eligible(headers, list[j], size, align)
  }

  /** Where the link pointer stands when the search reaches index `i`: before the run of skipped blocks there. */
  function LinkAt(headers: Headers, list: seq<nat>, size: nat, align: nat, i: nat): (j: nat)
    requires align > 0 && i <= |list|
    ensures j <= i && (j > 0 ==> !Skipped(headers, list[j - 1], size, align))
    ensures forall k :: j <= k < i ==> Skipped(headers, list[k], size, align)
  {
    if i == 0 || !Skipped(headers, list[i - 1], size, align) then i else LinkAt(headers, list, size, align, i - 1)
  }

  lemma SearchStart(headers: Headers, list: seq<nat>, size: nat, align: nat)
    requires align > 0
    ensures LinkAt(headers, list, size, align, 0) == 0 && NoneFits(headers, list, size, align, 0)
  {
  }

  /** One more block looked at: the link pointer and the best fit so far move as the loop moves them. */
  lemma SearchStep(headers: Headers, list: seq<nat>, size: nat, align: nat, i: nat, best: nat, found: bool)
    requires align > 0 && i < |list|
    requires if found then best < i &&
      BestFit(headers, list, size, align, best, i) else NoneFits(headers, list, size, align, i)
    ensures LinkAt(headers, list, size, align, i + 1) ==
      if Skipped(headers, list[i], size, align) then LinkAt(headers, list, size, align, i) else i + 1
    ensures Eligible(headers, list[i], size, align) && (!found || headers[list[i]] < headers[list[best]]) ==>
      BestFit(headers, list, size, align, i, i + 1)
    ensures found && !(Eligible(headers, list[i], size, align) && headers[list[i]] < headers[list[best]]) ==>
      BestFit(headers, list, size, align, best, i + 1)
    ensures !found && !Eligible(headers, list[i], size, align) ==> NoneFits(headers, list, size, align, i + 1)
  {
  }

  /** Unlinking the block at `i` through the link pointer also drops the run before it. */
  function Unlink(list: seq<nat>, j: nat, i: nat): seq<nat>
    requires j <= i < |list|
  {
    list[..j] + list[i + 1..]
  }

  /** Nothing but the chosen block leaves the list exactly when the block before it was not skipped. */
  lemma UnlinkExact(headers: Headers, list: seq<nat>, size: nat, align: nat, i: nat)
    requires align > 0 && i < |list| && Distinct(list)
    ensures var j := LinkAt(headers, list, size, align, i);
      && Elements(Unlink(list, j, i)) == Elements(list) - Elements(list[j..i]) - {list[i]}
      && Distinct(Unlink(list, j, i))
      && (Elements(Unlink(list, j, i)) + {list[i]} == Elements(list) <==>
        i == 0 || !Skipped(headers, list[i - 1], size, align))
  {
    var j := LinkAt(headers, list, size, align, i);
    var rest := Unlink(list, j, i);
    UnlinkElements(list, j, i);
    if j < i {
      assert list[i - 1] == list[j..i][i - 1 - j] && list[i - 1] in Elements(list[j..i]);
      assert list[i - 1] in Elements(list) && list[i - 1] !in Elements(rest) + {list[i]};
    } else {
      assert list[j..i] == [];
    }
  }

  lemma UnlinkElements(list: seq<nat>, j: nat, i: nat)
    requires j <= i < |list| && Distinct(list)
    ensures Elements(Unlink(list, j, i)) == Elements(list) - Elements(list[j..i]) - {list[i]} &&
      Distinct(Unlink(list, j, i))
    ensures list[i] in Elements(list) && list[i] !in Elements(list[j..i]) && Elements(list[j..i]) <= Elements(list)
  {
  }

  /** Two free blocks, the first large enough but not on the asked boundary: taking the second drops both. */
  lemma UnlinkLoses()
    ensures var headers, list := map[BASE := 64, BASE + 80 := 96], [BASE, BASE + 80];
      && Distinct(list) && Blocks(headers, BASE + 192)
      && BestFit(headers, list, 32, 32, 1, 2) && LinkAt(headers, list, 32, 32, 1) == 0
      && Unlink(list, 0, 1) == []
  {
    var headers, list := map[BASE := 64, BASE + 80 := 96], [BASE, BASE + 80];
    assert Skipped(headers, list[0], 32, 32) && Eligible(headers, list[1], 32, 32);
  }

  // ---------- The allocator ----------

  class Heap {
    var next: nat
    var mapped: nat
    var headers: Headers
    var list: seq<nat>
    ghost var live: map<nat, Request>
    ghost var lost: set<nat>
    ghost var order: seq<Cut>

    ghost predicate Valid()
      reads this
    {
      && BASE <= next <= mapped <= LIMIT && mapped % PAGE_SIZE == 0 && Blocks(headers, next)
      && Accounted(headers, list, live, lost) && Chained(order, headers, next)
    }

    constructor ()
      ensures Valid() && live == map[] && lost == {} && list == [] && headers == map[] && next == mapped == BASE
    {
      next, mapped, headers, list := BASE, BASE, map[], [];
      live, lost, order := map[], {}, [];
    }

    method Alloc(size: nat, align: nat) returns (ptr: Option<nat>)
      requires Valid() && size < TWO64 && align < TWO64
      modifies this
      ensures Valid()
      ensures ptr.None? ==> live == old(live) && list == old(list) && headers == old(headers) && lost == old(lost)
      ensures ptr.None? || ptr.value - HEADER in old(headers) ==> next == old(next) && mapped == old(mapped)
      ensures ptr.None? && size > 0 && PowerOfTwo(align) ==>
        NoneFits(headers, list, size, Max(align, HEADER), |list|) &&
          NeedsRoom(old(next), old(mapped), size, Max(align, HEADER))
      ensures ptr.Some? ==> size > 0 && PowerOfTwo(align) && ptr.value >= HEADER && ptr.value % align == 0
      ensures ptr.Some? ==> var h := ptr.value - HEADER;
        && h !in old(live) && live == old(live)[h := Request(size, Max(align, HEADER))]
        && h in headers && headers[h] >= size
      ensures ptr.Some? && ptr.value - HEADER in old(headers) ==>
        var hs, h := old(headers), ptr.value - HEADER;
        && h in old(list)
        && forall g :: g in old(list) && g in hs && hs[g] >= size && (g + HEADER) % Max(align, HEADER) == 0 ==>
             hs[h] <= hs[g]
      ensures ptr.Some? && ptr.value - HEADER in old(headers) ==>
        Reused(old(headers), old(list), old(lost), headers, list, lost, ptr.value - HEADER, size, Max(align, HEADER))
      ensures ptr.Some? && ptr.value - HEADER !in old(headers) ==>
        && NoneFits(old(headers), old(list), size, Max(align, HEADER), |old(list)|) && list == old(list) &&
          lost == old(lost)
        && headers == old(headers)[ptr.value - HEADER := size]
        && old(next) + HEADER <= ptr.value < old(next) + HEADER + Max(align, HEADER)
        && ptr.value % Max(align, HEADER) == 0
        && next == ptr.value + size && mapped == Max(old(mapped), AlignUp(next, PAGE_SIZE))
    {
      hide PowerOfTwo, Accounted, Blocks, Chained, Elements, BestFit, LinkAt, NoneFits, Reused, AlignUp;
      if size == 0 || !PowerOfTwo(align) {
        return None;
      }
      var a := Max(align, HEADER);
      PowerDivides(align);
      PowerTop(align);
      AccountedKeys(headers, list, live, lost);
      var found, best, link := Search(size, a);
      if found {
        var h := list[best];
        SmallestFits(headers, list, size, a, best);
        Take(size, a, best, link);
        DividesThrough(h + HEADER, align, a);
        return Some(h + HEADER);
      }
      ptr := Bump(size, a);
      if ptr.Some? { DividesThrough(ptr.value, align, a); }
    }

    /** Moves the chosen block from the list to the live ones. */
    method Take(size: nat, align: nat, best: nat, link: nat)
      requires Valid() && align > 0 && best < |list| && link == LinkAt(headers, list, size, align, best)
      requires Eligible(headers, list[best], size, align) && BestFit(headers, list, size, align, best, |list|)
      modifies `list, `live, `lost
      ensures Valid() && old(list)[best] !in old(live) && live == old(live)[old(list)[best] := Request(size, align)]
      ensures Reused(headers, old(list), old(lost), headers, list, lost, old(list)[best], size, align)
    {
      hide Accounted, Blocks, Chained, Elements, BestFit, LinkAt;
      TakeKeeps(headers, list, live, lost, best, link, Request(size, align));
      lost := lost + Elements(list[link..best]);
      live := live[list[best] := Request(size, align)];
      list := Unlink(list, link, best);
    }

    /** Walks the list once, as the source's loop does. */
    method Search(size: nat, align: nat) returns (found: bool, best: nat, link: nat)
      requires align > 0 && forall i :: 0 <= i < |list| ==> list[i] in headers
      ensures found ==> best < |list| && Eligible(headers, list[best], size, align)
      ensures found ==>
        BestFit(headers, list, size, align, best, |list|) && link == LinkAt(headers, list, size, align, best)
      ensures !found ==> NoneFits(headers, list, size, align, |list|)
    {
      hide BestFit, NoneFits, LinkAt, Elements;
      found, best, link := false, 0, 0;
      var prev := 0;
      var i := 0;
      SearchStart(headers, list, size, align);
      while i < |list|
        invariant 0 <= i <= |list| && prev == LinkAt(headers, list, size, align, i)
        invariant found ==> best < i && Eligible(headers, list[best], size, align)
        invariant found ==>
          BestFit(headers, list, size, align, best, i) && link == LinkAt(headers, list, size, align, best)
        invariant !found ==> NoneFits(headers, list, size, align, i)
      {
        var cur: nat := list[i];
        SearchStep(headers, list, size, align, i, best, found);
        if headers[cur] >= size {
          if (cur + HEADER) % align != 0 {
            i := i + 1;
            continue;
          }
          if !found || headers[cur] < headers[list[best]] {
            found, best, link := true, i, prev;
          }
        }
        prev := i + 1;
        i := i + 1;
      }
    }

    /** A new block behind the last one; page supply or mapping may fail. */
    method Bump(size: nat, align: nat) returns (ptr: Option<nat>)
      requires Valid() && 0 < size < TWO64 && HEADER <= align <= TWO63 && align % HEADER == 0
      modifies `next, `mapped, `headers, `live, `order
      ensures Valid()
      ensures ptr.None? ==>
        live == old(live) && headers == old(headers) && next == old(next) && mapped == old(mapped) &&
        NeedsRoom(old(next), old(mapped), size, align)
      ensures ptr.Some? ==>
        && old(next) + HEADER <= ptr.value < old(next) + HEADER + align && ptr.value % align == 0
        && next == ptr.value + size && mapped == Max(old(mapped), AlignUp(next, PAGE_SIZE))
        && ptr.value - HEADER !in old(headers)
      ensures ptr.Some? ==>
        headers == old(headers)[ptr.value - HEADER := size] &&
        live == old(live)[ptr.value - HEADER := Request(size, align)]
    {
      hide Accounted, Blocks, Chained, NoneFits, AlignUp;
      var start := AlignUp(next + HEADER, align);
      var end := Add64(start, size);
      if end < start || end > LIMIT {
        return None;
      }
      var pages := AlignUp(end, PAGE_SIZE);
      var ok: bool := *;
      if mapped < pages && !ok {
        return None;
      }
      MappedFits(end, pages);
      if mapped < pages {
        mapped := pages;
      }
      var h := start - HEADER;
      DividesThrough(start, HEADER, align);
      BumpKeeps(headers, next, list, live, lost, h, size, align);
      ChainedBump(order, headers, next, h, size, align);
      order := order + [Cut(next, h, align)];
      headers, live, next := headers[h := size], live[h := Request(size, align)], end;
      return Some(start);
    }

    method Free(ptr: nat)
      requires Valid() && (ptr != 0 ==> ptr >= HEADER && ptr - HEADER in live)
      modifies `list, `live
      ensures Valid()
      ensures ptr == 0 ==> list == old(list) && live == old(live)
      ensures ptr != 0 ==> list == [ptr - HEADER] + old(list) && live == old(live) - {ptr - HEADER}
    {
      hide Chained, Accounted, Blocks;
      if ptr == 0 {
        return;
      }
      var h := ptr - HEADER;
      FreeKeeps(headers, list, live, lost, h);
      list := [h] + list;
      live := live - {h};
    }
  }

  /** A new block would reach behind the heap or into pages not mapped yet. */
  predicate NeedsRoom(next: nat, mapped: nat, size: nat, align: nat)
    requires align > 0
  {
    var end := AlignUp(next + HEADER, align) + size;
    end > LIMIT || AlignUp(end, PAGE_SIZE) > mapped
  }

  /**
   Block `h` was the best fit of the list; the run of skipped blocks in front of it left the list with it and is lost.
   */
  ghost predicate Reused(headers: Headers, list: seq<nat>, lost: set<nat>, headers': Headers, list': seq<nat>,
      lost': set<nat>, h: nat, size: nat, align: nat)
    requires align > 0
  {
    headers' == headers &&
    exists i :: 0 <= i < |list| && list[i] == h && BestFit(headers, list, size, align, i, |list|) &&
      var j := LinkAt(headers, list, size, align, i);
      list' == Unlink(list, j, i) && lost' == lost + Elements(list[j..i])
  }

  lemma AccountedKeys(headers: Headers, list: seq<nat>, live: map<nat, Request>, lost: set<nat>)
    requires Accounted(headers, list, live, lost)
    ensures Elements(list) <= headers.Keys && live.Keys <= headers.Keys &&
      forall i :: 0 <= i < |list| ==> list[i] in headers
  {
  }

  lemma PowerDivides(align: nat)
    requires PowerOfTwo(align)
    ensures align > 0 && Max(align, HEADER) % HEADER == 0 && Max(align, HEADER) % align == 0
  {
    SmallPowers(align);
    if align < HEADER {
      assert align in {1, 2, 4, 8};
    } else {
      ModUnique(align, 1, 0, align);
    }
  }

  lemma TwiceProduct(h: nat, b: nat)
    ensures 2 * h * b == 2 * (h * b)
  {
  }

  lemma PowerTwice(p: nat)
    requires PowerOfTwo(p)
    ensures PowerOfTwo(2 * p)
  {
    assert 2 * p / 2 == p;
  }

  lemma {:induction false} PowerProduct(a: nat, b: nat)
    requires PowerOfTwo(a) && PowerOfTwo(b)
    ensures PowerOfTwo(a * b)
  {
    if a > 1 {
      var h := a / 2;
      PowerProduct(h, b);
      TwiceProduct(h, b);
      PowerTwice(h * b);
    }
  }

  lemma {:induction false} PowerBelow(n: nat, m: nat)
    requires PowerOfTwo(n) && PowerOfTwo(m) && n < 2 * m
    ensures n <= m
  {
    if n > 1 && m > 1 { PowerBelow(n / 2, m / 2); }
  }

  lemma PowerTwo()
    ensures PowerOfTwo(2)
  {
  }

  /** A 64-bit power of two has only the top bit to reach. */
  lemma PowerTop(n: nat)
    requires PowerOfTwo(n) && n < TWO64
    ensures n <= TWO63
  {
    hide PowerOfTwo;
    PowerTwo();
    PowerProduct(2, 2);
    PowerProduct(4, 4);
    PowerProduct(16, 16);
    PowerProduct(256, 256);
    PowerProduct(0x1_0000, 0x1_0000);
    PowerProduct(16, 4);
    PowerProduct(64, 2);
    PowerProduct(0x1_0000_0000, 0x1_0000);
    PowerProduct(0x1_0000_0000_0000, 256);
    PowerProduct(0x100_0000_0000_0000, 128);
    PowerBelow(n, TWO63);
  }

  lemma {:induction false} SmallPowers(n: nat)
    requires PowerOfTwo(n)
    ensures n < 16 ==> n in {1, 2, 4, 8}
    ensures n >= 16 ==> n % 16 == 0
  {
    if n > 1 {
      SmallPowers(n / 2);
      assert n == 2 * (n / 2);
    }
  }

  lemma DividesThrough(x: nat, d: nat, a: nat)
    requires d > 0 && a > 0 && a % d == 0 && x % a == 0
    ensures x % d == 0
  {
    var p, q := x / a, a / d;
    assert x == p * a && a == q * d;
    assert x == (p * q) * d by { assert p * (q * d) == (p * q) * d; }
    ModUnique(x, p * q, 0, d);
  }

  lemma MappedFits(end: nat, pages: nat)
    requires end <= LIMIT && end <= pages < end + PAGE_SIZE && pages % PAGE_SIZE == 0
    ensures pages <= LIMIT
  {
  }

  lemma TakeKeeps(headers: Headers, list: seq<nat>, live: map<nat, Request>, lost: set<nat>, i: nat, j: nat, r: Request)
    requires Accounted(headers, list, live, lost) && j <= i < |list| && r.align > 0
    requires list[i] in headers && headers[list[i]] >= r.size && (list[i] + HEADER) % r.align == 0
    ensures list[i] !in live
    ensures Accounted(headers, Unlink(list, j, i), live[list[i] := r], lost + Elements(list[j..i]))
  {
    UnlinkElements(list, j, i);
    var h := list[i];
    assert live[h := r].Keys == live.Keys + {h};
  }

  lemma BumpKeeps(headers: Headers, next: nat, list: seq<nat>, live: map<nat, Request>, lost: set<nat>, h: nat,
      size: nat, align: nat)
    requires Blocks(headers, next) && Accounted(headers, list, live, lost)
    requires BASE <= next <= h && size > 0 && align > 0 && (h + HEADER) % align == 0 && (h + HEADER) % HEADER == 0
    ensures h !in headers
    ensures Blocks(headers[h := size], h + HEADER + size)
    ensures Accounted(headers[h := size], list, live[h := Request(size, align)], lost)
  {
  }

  lemma FreeKeeps(headers: Headers, list: seq<nat>, live: map<nat, Request>, lost: set<nat>, h: nat)
    requires Accounted(headers, list, live, lost) && h in live
    ensures Accounted(headers, [h] + list, live - {h}, lost)
  {
  }
}
