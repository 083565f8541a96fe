/**
 The ARP cache: 32 slots, a lookup that moves its entry to the front by shifting, an insert
 that reuses the slot of the address, a free one, or the one with the smallest time of use.
 When that order by time is the order of use, and a run on which it is not.
 */
module Arp {
  import opened Machine
  import opened Collections
  import opened ArpSpec

  const UINT64_MAX: nat := 0xFFFF_FFFF_FFFF_FFFF

  datatype Slot = Slot(active: bool, ip: nat, mac: nat, lastUse: nat)

  // ---------- The table ----------

  predicate Holds(s: Slot, ip: nat) { s.active && s.ip == ip }

  /** The first slot of an address; the table size when there is none. */
  function FirstOf(slots: seq<Slot>, ip: nat): (i: nat)
    ensures i <= |slots| && (i < |slots| ==> Holds(slots[i], ip)) && forall j :: 0 <= j < i ==> !Holds(slots[j], ip)
  {
    if slots == [] || Holds(slots[0], ip) then 0 else 1 + FirstOf(slots[1..], ip)
  }

  function FirstFree(slots: seq<Slot>): (i: nat)
    ensures i <= |slots| && (i < |slots| ==> !slots[i].active) && forall j :: 0 <= j < i ==> slots[j].active
  {
    if slots == [] || !slots[0].active then 0 else 1 + FirstFree(slots[1..])
  }

  /** What the eviction scan picks: of the slots with the smallest last use the first. */
  predicate Victim(slots: seq<Slot>, i: nat)
    requires i < |slots|
  {
    forall j :: 0 <= j < |slots| ==>
      slots[i].lastUse <= slots[j].lastUse && (j < i ==> slots[i].lastUse < slots[j].lastUse)
  }

  function Oldest(slots: seq<Slot>): (i: nat)
    requires slots != []
    ensures i < |slots| && Victim(slots, i)
  {
    var n := |slots| - 1;
    if n == 0 then 0
    else
      var i := Oldest(slots[..n]);
      if slots[n].lastUse < slots[i].lastUse then n else i
  }

  /** Slot `i` moved to the front, the ones before it shifted up. */
  function Shifted(slots: seq<Slot>, i: nat): (r: seq<Slot>)
    requires i < |slots|
    ensures |r| == |slots|
  {
    [slots[i]] + slots[..i] + slots[i + 1..]
  }

  function LookedUp(slots: seq<Slot>, ip: nat, clock: nat): (r: seq<Slot>)
    ensures |r| == |slots|
  {
    var i := FirstOf(slots, ip);
    if i == |slots| then slots else Shifted(slots[i := slots[i].(lastUse := clock)], i)
  }

  function Inserted(slots: seq<Slot>, ip: nat, mac: nat, clock: nat): (r: seq<Slot>)
    requires slots != []
    ensures |r| == |slots|
  {
    var i, free := FirstOf(slots, ip), FirstFree(slots);
    if i < |slots| then slots[i := slots[i].(mac := mac, lastUse := clock)]
    else slots[(if free < |slots| then free else Oldest(slots)) := Slot(true, ip, mac, clock)]
  }

  // ---------- Slots in order of use ----------

  /** Active slots with different addresses. */
  predicate Listing(slots: seq<Slot>, order: seq<nat>)
  {
    && (forall k :: 0 <= k < |order| ==> order[k] < |slots| && slots[order[k]].active)
    && (forall k, l :: 0 <= k < l < |order| ==> slots[order[k]].ip != slots[order[l]].ip)
  }

  /** Every active slot other than `except` is listed. */
  predicate Covers(slots: seq<Slot>, order: seq<nat>, except: nat)
  {
    forall i :: 0 <= i < |slots| && slots[i].active && i != except ==> i in order
  }

  predicate Ordered(slots: seq<Slot>, order: seq<nat>)
  {
    |slots| == CACHE_SIZE && |order| <= CACHE_SIZE && Listing(slots, order) && Covers(slots, order, |slots|)
  }

  /** The listed slots, in the order of the list. */
  function Used(slots: seq<Slot>, order: seq<nat>): (u: seq<Slot>)
    requires forall k :: 0 <= k < |order| ==> order[k] < |slots|
    ensures |u| == |order| && forall k :: 0 <= k < |u| ==> u[k] == slots[order[k]]
  {
    seq(|order|, k requires 0 <= k < |order| => slots[order[k]])
  }

  function Pairs(u: seq<Slot>): (ps: seq<Pair>)
    ensures |ps| == |u| && forall k :: 0 <= k < |ps| ==> ps[k] == Pair(u[k].ip, u[k].mac)
  {
    seq(|u|, k requires 0 <= k < |u| => Pair(u[k].ip, u[k].mac))
  }

  /** `u` without its element at `p`. */
  function Cut<T>(u: seq<T>, p: nat): (r: seq<T>)
    requires p < |u|
    ensures |r| == |u| - 1 && forall k :: 0 <= k < |r| ==> r[k] == u[if k < p then k else k + 1]
  {
    u[..p] + u[p + 1..]
  }

  lemma PairsFront(s: Slot, u: seq<Slot>)
    ensures Pairs([s] + u) == [Pair(s.ip, s.mac)] + Pairs(u)
  {
  }

  lemma PairsCut(u: seq<Slot>, p: nat)
    requires p < |u|
    ensures Pairs(Cut(u, p)) == Cut(Pairs(u), p)
  {
  }

  /** Distinct slot numbers: never more than slots, and all of them when every slot is listed. */
  lemma OrderLength(order: seq<nat>, n: nat)
    requires (forall k :: 0 <= k < |order| ==> order[k] < n) && Distinct(order)
    ensures |order| <= n
    ensures (forall i: nat :: i < n ==> i in order) ==> |order| == n
  {
    DistinctSize(order);
    SubsetSize(Elements(order), Upto(n));
    if forall i: nat :: i < n ==> i in order { assert Elements(order) == Upto(n); }
  }

  lemma ListingIn(slots: seq<Slot>, order: seq<nat>)
    requires Listing(slots, order)
    ensures Distinct(order) && forall k :: 0 <= k < |order| ==> order[k] < |slots| && slots[order[k]].active
  {
    forall k, l | 0 <= k < l < |order| ensures order[k] != order[l] {
      assert slots[order[k]].ip != slots[order[l]].ip;
    }
  }

  /** A slot that is not listed, filled with another address, becomes the latest. */
  lemma Refill(slots: seq<Slot>, keep: seq<nat>, i: nat, s: Slot)
    requires |slots| == CACHE_SIZE && |keep| < CACHE_SIZE && i < |slots| && s.active
    requires Listing(slots, keep) && Covers(slots, keep, i)
    requires forall k :: 0 <= k < |keep| ==> keep[k] != i && slots[keep[k]].ip != s.ip
    ensures Ordered(slots[i := s], [i] + keep)
    ensures Used(slots[i := s], [i] + keep) == [s] + Used(slots, keep)
  {
    var slots', order' := slots[i := s], [i] + keep;
    forall j | 0 <= j < |slots'| && slots'[j].active ensures j in order' {
      if j != i { assert j in keep; }
    }
  }

  lemma DropCovers(slots: seq<Slot>, order: seq<nat>, p: nat)
    requires Covers(slots, order, |slots|) && p < |order|
    ensures Covers(slots, Cut(order, p), order[p])
  {
    var keep := Cut(order, p);
    forall j | 0 <= j < |slots| && slots[j].active && j != order[p] ensures j in keep {
      var k :| 0 <= k < |order| && order[k] == j;
      assert keep[if k < p then k else k - 1] == j;
    }
  }

  /** The order without one of its slots. */
  lemma Drop(slots: seq<Slot>, order: seq<nat>, p: nat)
    requires Ordered(slots, order) && p < |order|
    ensures var keep := Cut(order, p);
      && Listing(slots, keep) && Covers(slots, keep, order[p]) && Used(slots, keep) == Cut(Used(slots, order), p)
      && forall k :: 0 <= k < |keep| ==>
        keep[k] != order[p] && slots[keep[k]].ip != slots[order[p]].ip && keep[k] in order
  {
    ListingIn(slots, order);
    DropCovers(slots, order, p);
  }

  /** A listed slot used again, for the same address or for one that is not listed, becomes the latest. */
  lemma Reuse(slots: seq<Slot>, order: seq<nat>, p: nat, s: Slot)
    requires Ordered(slots, order) && p < |order| && s.active
    requires forall k :: 0 <= k < |order| && k != p ==> slots[order[k]].ip != s.ip
    ensures var i := order[p]; var slots', order' := slots[i := s], [i] + Cut(order, p);
      Ordered(slots', order') && Used(slots', order') == [s] + Cut(Used(slots, order), p)
  {
    hide Listing, Covers;
    ListingIn(slots, order);
    Drop(slots, order, p);
    Refill(slots, Cut(order, p), order[p], s);
  }

  function Place(j: nat, i: nat): nat { if j == i then 0 else if j < i then j + 1 else j }

  function Renumbered(order: seq<nat>, i: nat): (r: seq<nat>)
    ensures |r| == |order| && forall k :: 0 <= k < |r| ==> r[k] == Place(order[k], i)
  {
    seq(|order|, k requires 0 <= k < |order| => Place(order[k], i))
  }

  /** Moving a slot changes where entries are, not what the cache holds or in which order it was used. */
  lemma ShiftKeeps(slots: seq<Slot>, order: seq<nat>, i: nat)
    requires Ordered(slots, order) && i < |slots|
    ensures Ordered(Shifted(slots, i), Renumbered(order, i))
    ensures Used(Shifted(slots, i), Renumbered(order, i)) == Used(slots, order)
  {
    var slots', order' := Shifted(slots, i), Renumbered(order, i);
    forall j: nat | j < |slots| ensures slots'[Place(j, i)] == slots[j] {}
    forall k | 0 <= k < |order| ensures order'[k] < |slots'| && slots'[order'[k]] == slots[order[k]] {
      assert slots'[Place(order[k], i)] == slots[order[k]];
    }
    forall j | 0 <= j < |slots'| && slots'[j].active ensures j in order' {
      var was := if j == 0 then i else if j <= i then j - 1 else j;
      assert Place(was, i) == j && slots[was] == slots'[j];
      var k :| 0 <= k < |order| && order[k] == was;
      assert order'[k] == j;
    }
  }

  lemma Listed(slots: seq<Slot>, order: seq<nat>, i: nat) returns (p: nat)
    requires Ordered(slots, order) && i < |slots| && slots[i].active
    ensures p < |order| && order[p] == i && forall k :: 0 <= k < |order| ==> order[k] < |slots|
    ensures forall k :: 0 <= k < |order| && k != p ==> slots[order[k]].ip != slots[i].ip
    ensures var ps := Pairs(Used(slots, order)); ps[p] == Pair(slots[i].ip, slots[i].mac) && Has(ps, slots[i].ip)
  {
    p :| 0 <= p < |order| && order[p] == i;
    assert Pairs(Used(slots, order))[p].ip == slots[i].ip;
  }

  lemma Unlisted(slots: seq<Slot>, order: seq<nat>, ip: nat)
    requires Ordered(slots, order) && FirstOf(slots, ip) == |slots|
    ensures forall k :: 0 <= k < |order| ==> order[k] < |slots| && slots[order[k]].ip != ip
    ensures var ps := Pairs(Used(slots, order)); !Has(ps, ip) && forall k :: 0 <= k < |ps| ==> ps[k].ip != ip
  {
    forall k | 0 <= k < |order| ensures order[k] < |slots| && slots[order[k]].ip != ip {
      assert !Holds(slots[order[k]], ip);
    }
  }

  lemma RoomLeft(slots: seq<Slot>, order: seq<nat>, i: nat)
    requires Ordered(slots, order) && i < |slots| && !slots[i].active
    ensures |order| < CACHE_SIZE
  {
    ListingIn(slots, order);
    OrderLength(order + [i], CACHE_SIZE);
  }

  lemma FullOrder(slots: seq<Slot>, order: seq<nat>)
    requires Ordered(slots, order) && FirstFree(slots) == |slots|
    ensures |order| == CACHE_SIZE && order[CACHE_SIZE - 1] < |slots|
  {
    ListingIn(slots, order);
    assert forall i: nat :: i < CACHE_SIZE ==> i in order;
    OrderLength(order, CACHE_SIZE);
  }

  // ---------- When eviction by time is eviction by use ----------

  /** An insert that evicts nothing, or the least recently used slot. */
  predicate Harmless(slots: seq<Slot>, order: seq<nat>, ip: nat)
    requires Ordered(slots, order)
  {
    FirstOf(slots, ip) < |slots| || FirstFree(slots) < |slots| ||
    (FullOrder(slots, order); Victim(slots, order[CACHE_SIZE - 1]))
  }

  lemma OneVictim(slots: seq<Slot>, i: nat, j: nat)
    requires i < |slots| && j < |slots| && Victim(slots, i) && Victim(slots, j)
    ensures i == j
  {
    var a, b := slots[i].lastUse, slots[j].lastUse;
    assert a == b;
  }

  /**
   From a full cache that holds the most recently touched addresses, an eviction leaves such a
   cache exactly when the least recently used slot is the first of those with the smallest time.
   */
  lemma EvictionExact(slots: seq<Slot>, order: seq<nat>, i: nat, p: nat, history: seq<Pair>, t: Pair)
    requires Ordered(slots, order) && FirstFree(slots) == |slots| && FirstOf(slots, t.ip) == |slots|
    requires i < |slots| && Victim(slots, i) && p < |order| && order[p] == i
    requires Pairs(Used(slots, order)) == Kept(Recent(history))
    ensures Kept(Recent(history + [t])) == [t] + Cut(Pairs(Used(slots, order)), p) <==> Harmless(slots, order, t.ip)
  {
    hide Recent, Kept, Has, Victim, Listing, Covers;
    ListingIn(slots, order);
    FullOrder(slots, order);
    Unlisted(slots, order, t.ip);
    var kept, last := Pairs(Used(slots, order)), CACHE_SIZE - 1;
    TouchNew(history, kept, t);
    CutLast(kept, p);
    ListingPairs(slots, order);
    if Victim(slots, order[last]) {
      OneVictim(slots, i, order[last]);
      assert p == last;
    }
    if p < last { CutElsewhere(t, kept, p); }
  }

  lemma CutElsewhere(t: Pair, kept: seq<Pair>, p: nat)
    requires DistinctAddresses(kept) && p < |kept| - 1
    ensures [t] + kept[..|kept| - 1] != [t] + Cut(kept, p)
  {
    var a, b := [t] + kept[..|kept| - 1], [t] + Cut(kept, p);
    assert a[p + 1] == kept[p] && b[p + 1] == kept[p + 1];
  }

  lemma ListingPairs(slots: seq<Slot>, order: seq<nat>)
    requires Listing(slots, order)
    ensures (forall k :: 0 <= k < |order| ==> order[k] < |slots|) && DistinctAddresses(Pairs(Used(slots, order)))
  {
  }

  lemma CutLast(kept: seq<Pair>, p: nat)
    requires p < |kept|
    ensures p == |kept| - 1 ==> Cut(kept, p) == kept[..p]
  {
  }

  /** Times of use that do not increase along `u`, up to `now`: what a clock that never goes back leaves. */
  predicate Falling(u: seq<Slot>, now: int)
  {
    (forall k :: 0 <= k < |u| ==> u[k].lastUse <= now) &&
      forall k, l :: 0 <= k < l < |u| ==> u[k].lastUse >= u[l].lastUse
  }

  predicate NoTies(u: seq<Slot>) { forall k, l :: 0 <= k < l < |u| ==> u[k].lastUse != u[l].lastUse }

  lemma TouchTimes(u: seq<Slot>, now: int, s: Slot)
    requires Falling(u, now) && now <= s.lastUse
    ensures Falling([s] + u, s.lastUse) && (NoTies(u) && now < s.lastUse ==> NoTies([s] + u))
  {
  }

  lemma CutTimes(u: seq<Slot>, now: int, p: nat)
    requires Falling(u, now) && p < |u|
    ensures Falling(Cut(u, p), now) && (NoTies(u) ==> NoTies(Cut(u, p)))
  {
  }

  /**
   With a clock that never went back, the least recently used slot is evicted exactly when no
   slot before it has the same time.
   */
  lemma HarmlessForward(slots: seq<Slot>, order: seq<nat>, now: int, ip: nat)
    requires Ordered(slots, order) && FirstFree(slots) == |slots| && FirstOf(slots, ip) == |slots|
    requires Falling(Used(slots, order), now)
    ensures |order| == CACHE_SIZE && order[CACHE_SIZE - 1] < |slots|
    ensures var last := order[CACHE_SIZE - 1];
      Harmless(slots, order, ip) <==> forall j :: 0 <= j < last ==> slots[j].lastUse != slots[last].lastUse
  {
    FullOrder(slots, order);
    var last := order[CACHE_SIZE - 1];
    forall j | 0 <= j < |slots| ensures slots[last].lastUse <= slots[j].lastUse {
      assert slots[j].active;
      var k :| 0 <= k < |order| && order[k] == j;
      assert Used(slots, order)[k] == slots[j] && Used(slots, order)[CACHE_SIZE - 1] == slots[last];
    }
  }

  /** With a clock that always advanced, every insert is harmless. */
  lemma HarmlessStrict(slots: seq<Slot>, order: seq<nat>, now: int, ip: nat)
    requires Ordered(slots, order) && Falling(Used(slots, order), now) && NoTies(Used(slots, order))
    ensures Harmless(slots, order, ip)
  {
    if FirstFree(slots) == |slots| && FirstOf(slots, ip) == |slots| {
      FullOrder(slots, order);
      HarmlessForward(slots, order, now, ip);
      var last := order[CACHE_SIZE - 1];
      forall j | 0 <= j < last ensures slots[j].lastUse != slots[last].lastUse {
        assert slots[j].active;
        var k :| 0 <= k < |order| && order[k] == j;
        assert Used(slots, order)[k].lastUse != Used(slots, order)[CACHE_SIZE - 1].lastUse;
      }
    }
  }

  // ---------- What touches do to the recency list ----------

  /** A touch of a cached address moves it to the front of the kept list. */
  lemma Touch(history: seq<Pair>, kept: seq<Pair>, p: Pair, i: nat)
    requires kept == Kept(Recent(history)) && i < |kept| && kept[i].ip == p.ip
    ensures Kept(Recent(history + [p])) == [p] + Cut(kept, i)
  {
    hide Recent, Touched, Kept;
    RecentStep(history, p);
    RecentDistinct(history);
    KeptTouched(Recent(history), p);
    KeptPrefix(Recent(history));
    TouchedAt(kept, p, i);
    KeptShort([p] + Cut(kept, i));
  }

  /** A touch of another address puts it in front and drops the last one when the list is full. */
  lemma TouchNew(history: seq<Pair>, kept: seq<Pair>, p: Pair)
    requires kept == Kept(Recent(history)) && !Has(kept, p.ip)
    ensures |kept| <= CACHE_SIZE && Kept(Recent(history + [p])) == [p] + kept[..Min(|kept|, CACHE_SIZE - 1)]
  {
    hide Recent, Touched, Has;
    RecentStep(history, p);
    RecentDistinct(history);
    KeptTouched(Recent(history), p);
    KeptPrefix(Recent(history));
    TouchedNew(kept, p);
  }

  /** Last touches stay last touches when a listed address is touched again. */
  lemma TouchKnown(history: seq<Pair>, ps: seq<Pair>, p: Pair, i: nat)
    requires LastOnes(history, ps) && LatestFirst(history, ps) && i < |ps| && ps[i].ip == p.ip
    ensures LastOnes(history + [p], [p] + Cut(ps, i)) && LatestFirst(history + [p], [p] + Cut(ps, i))
  {
    hide LastOnes, LastTouch;
    LatestDistinct(history, ps);
    CutFronted(ps, p, i);
    TouchLastOnes(history, ps, p, [p] + Cut(ps, i), i);
  }

  lemma LatestDistinct(history: seq<Pair>, ps: seq<Pair>)
    requires LatestFirst(history, ps)
    ensures DistinctAddresses(ps)
  {
  }

  lemma CutFronted(ps: seq<Pair>, p: Pair, i: nat)
    requires DistinctAddresses(ps) && i < |ps| && ps[i].ip == p.ip
    ensures Fronted(ps, p, [p] + Cut(ps, i), i)
  {
  }

  /** The same when another address is touched, and when one is left out. */
  lemma TouchOther(history: seq<Pair>, ps: seq<Pair>, p: Pair)
    requires LastOnes(history, ps) && LatestFirst(history, ps) && forall k :: 0 <= k < |ps| ==> ps[k].ip != p.ip
    ensures LastOnes(history + [p], [p] + ps) && LatestFirst(history + [p], [p] + ps)
  {
    hide LastOnes, LatestFirst;
    assert Fronted(ps, p, [p] + ps, |ps|);
    TouchLastOnes(history, ps, p, [p] + ps, |ps|);
  }

  lemma CutOnes(history: seq<Pair>, ps: seq<Pair>, i: nat)
    requires LastOnes(history, ps) && LatestFirst(history, ps) && i < |ps|
    ensures LastOnes(history, Cut(ps, i)) && LatestFirst(history, Cut(ps, i))
  {
    hide LastTouch;
  }

  lemma RecentStep(history: seq<Pair>, p: Pair)
    ensures Recent(history + [p]) == Touched(Recent(history), p)
  {
    assert (history + [p])[..|history|] == history;
  }

  lemma KeptShort(ps: seq<Pair>)
    requires |ps| <= CACHE_SIZE
    ensures Kept(ps) == ps
  {
  }

  // ---------- What a call leaves ----------

  predicate Timed(slots: seq<Slot>) { forall j :: 0 <= j < |slots| ==> slots[j].lastUse <= UINT64_MAX }

  /** Every active slot is listed once, latest touch first, with the pair of that touch. */
  predicate Sound(slots: seq<Slot>, order: seq<nat>, history: seq<Pair>)
  {
    && Ordered(slots, order) && Timed(slots)
    && LastOnes(history, Pairs(Used(slots, order))) && LatestFirst(history, Pairs(Used(slots, order)))
  }

  predicate ExactFor(slots: seq<Slot>, order: seq<nat>, history: seq<Pair>)
    requires Sound(slots, order, history)
  {
    Pairs(Used(slots, order)) == Kept(Recent(history))
  }

  /** What a touch at `clock` makes of the times of use. */
  predicate TimesKept(u: seq<Slot>, now: int, u': seq<Slot>, clock: nat)
  {
    && (Falling(u, now) && now <= clock ==> Falling(u', clock))
    && (Falling(u, now) && NoTies(u) && now < clock ==> NoTies(u'))
  }

  lemma CutTouchTimes(u: seq<Slot>, now: int, p: nat, s: Slot)
    requires p < |u|
    ensures TimesKept(u, now, [s] + Cut(u, p), s.lastUse)
  {
    hide Falling, NoTies, Cut;
    if Falling(u, now) {
      CutTimes(u, now, p);
      if now <= s.lastUse { TouchTimes(Cut(u, p), now, s); }
    }
  }

  lemma ListedIn(slots: seq<Slot>, order: seq<nat>, history: seq<Pair>)
    requires Sound(slots, order, history)
    ensures |slots| == CACHE_SIZE && forall k :: 0 <= k < |order| ==> order[k] < |slots|
  {
  }

  lemma TimedIn(slots: seq<Slot>, order: seq<nat>, history: seq<Pair>)
    requires Sound(slots, order, history)
    ensures Ordered(slots, order) && Timed(slots)
  {
  }

  lemma TimedKept(slots: seq<Slot>, i: nat, s: Slot)
    requires Timed(slots) && i < |slots| && s.lastUse <= UINT64_MAX
    ensures Timed(slots[i := s])
  {
  }

  /** A cached address touched again. */
  lemma TouchListed(slots: seq<Slot>, order: seq<nat>, history: seq<Pair>, i: nat, s: Slot, now: int)
    returns (order': seq<nat>)
    requires Sound(slots, order, history) && i < |slots| && slots[i].active
    requires s.active && s.ip == slots[i].ip && s.lastUse <= UINT64_MAX
    ensures var slots', history' := slots[i := s], history + [Pair(s.ip, s.mac)];
      && Sound(slots', order', history') && TimesKept(Used(slots, order), now, Used(slots', order'), s.lastUse)
      && (ExactFor(slots, order, history) ==> ExactFor(slots', order', history'))
  {
    hide Ordered, Timed, Recent, Kept, LastOnes, LatestFirst, Has, TimesKept;
    var p := Listed(slots, order, i);
    var u, t := Used(slots, order), Pair(s.ip, s.mac);
    Reuse(slots, order, p, s);
    order' := [i] + Cut(order, p);
    TimedKept(slots, i, s);
    PairsFront(s, Cut(u, p));
    PairsCut(u, p);
    TouchKnown(history, Pairs(u), t, p);
    CutTouchTimes(u, now, p, s);
    if ExactFor(slots, order, history) { Touch(history, Pairs(u), t, p); }
  }

  /** A new address in a free slot. */
  lemma FillFree(slots: seq<Slot>, order: seq<nat>, history: seq<Pair>, i: nat, s: Slot, now: int)
    requires Sound(slots, order, history) && FirstOf(slots, s.ip) == |slots| && i < |slots| && !slots[i].active
    requires s.active && s.lastUse <= UINT64_MAX
    ensures var slots', order', history' := slots[i := s], [i] + order, history + [Pair(s.ip, s.mac)];
      && Sound(slots', order', history') && TimesKept(Used(slots, order), now, Used(slots', order'), s.lastUse)
      && (ExactFor(slots, order, history) ==> ExactFor(slots', order', history'))
  {
    hide Timed, Recent, Kept, LastOnes, LatestFirst, Has, FirstOf;
    var u, t := Used(slots, order), Pair(s.ip, s.mac);
    Unlisted(slots, order, s.ip);
    RoomLeft(slots, order, i);
    FreeUnlisted(slots, order, i);
    Refill(slots, order, i, s);
    TimedKept(slots, i, s);
    PairsFront(s, u);
    TouchOther(history, Pairs(u), t);
    if Falling(u, now) && now <= s.lastUse { TouchTimes(u, now, s); }
    if ExactFor(slots, order, history) {
      TouchNew(history, Pairs(u), t);
      assert Pairs(u)[..|u|] == Pairs(u);
    }
  }

  lemma FreeUnlisted(slots: seq<Slot>, order: seq<nat>, i: nat)
    requires Ordered(slots, order) && i < |slots| && !slots[i].active
    ensures Listing(slots, order) && Covers(slots, order, i) && forall k :: 0 <= k < |order| ==> order[k] != i
  {
  }

  /** A new address in the slot of the victim. */
  lemma Evict(slots: seq<Slot>, order: seq<nat>, history: seq<Pair>, i: nat, s: Slot, now: int)
    returns (order': seq<nat>)
    requires Sound(slots, order, history) && FirstOf(slots, s.ip) == |slots| && FirstFree(slots) == |slots|
    requires i < |slots| && Victim(slots, i) && s.active && s.lastUse <= UINT64_MAX
    ensures var slots', history' := slots[i := s], history + [Pair(s.ip, s.mac)];
      && Sound(slots', order', history') && TimesKept(Used(slots, order), now, Used(slots', order'), s.lastUse)
      && (ExactFor(slots, order, history) ==> (ExactFor(slots', order', history') <==> Harmless(slots, order, s.ip)))
  {
    hide Ordered, Timed, Recent, Kept, LastOnes, LatestFirst, Has, TimesKept, FirstOf, Victim, Harmless;
    var p := Listed(slots, order, i);
    var u, t := Used(slots, order), Pair(s.ip, s.mac);
    Unlisted(slots, order, s.ip);
    Reuse(slots, order, p, s);
    order' := [i] + Cut(order, p);
    TimedKept(slots, i, s);
    PairsFront(s, Cut(u, p));
    PairsCut(u, p);
    CutOnes(history, Pairs(u), p);
    TouchOther(history, Cut(Pairs(u), p), t);
    CutTouchTimes(u, now, p, s);
    if ExactFor(slots, order, history) { EvictionExact(slots, order, i, p, history, t); }
  }

  lemma KnownHarmless(slots: seq<Slot>, order: seq<nat>, ip: nat)
    requires Ordered(slots, order)
    ensures FirstOf(slots, ip) < |slots| || FirstFree(slots) < |slots| ==> Harmless(slots, order, ip)
  {
  }

  lemma ShiftSound(slots: seq<Slot>, order: seq<nat>, history: seq<Pair>, i: nat)
    requires Sound(slots, order, history) && i < |slots|
    ensures Sound(Shifted(slots, i), Renumbered(order, i), history)
    ensures Used(Shifted(slots, i), Renumbered(order, i)) == Used(slots, order)
  {
    hide Ordered, LastOnes, LatestFirst;
    ListedIn(slots, order, history);
    ShiftKeeps(slots, order, i);
  }

  /** An insert keeps an exact cache exact if and only if it is harmless. */
  lemma InsertKeeps(slots: seq<Slot>, order: seq<nat>, history: seq<Pair>, ip: nat, mac: nat, clock: nat, now: int)
    returns (order': seq<nat>)
    requires Sound(slots, order, history) && |slots| == CACHE_SIZE && clock <= UINT64_MAX
    ensures var slots', history' := Inserted(slots, ip, mac, clock), history + [Pair(ip, mac)];
      && Sound(slots', order', history') && TimesKept(Used(slots, order), now, Used(slots', order'), clock)
      && (ExactFor(slots, order, history) ==> (ExactFor(slots', order', history') <==> Harmless(slots, order, ip)))
  {
    hide Ordered, Timed, Recent, Kept, LastOnes, LatestFirst, TimesKept, FirstOf, FirstFree, Oldest, Victim, Harmless,
      Used, Pairs;
    var i, free := FirstOf(slots, ip), FirstFree(slots);
    KnownHarmless(slots, order, ip);
    if i < |slots| {
      order' := TouchListed(slots, order, history, i, slots[i].(mac := mac, lastUse := clock), now);
    } else if free < |slots| {
      FillFree(slots, order, history, free, Slot(true, ip, mac, clock), now);
      order' := [free] + order;
    } else {
      order' := Evict(slots, order, history, Oldest(slots), Slot(true, ip, mac, clock), now);
    }
  }

  /** The source finds a slot to write to: one of the address, a free one, or one below the largest time. */
  predicate HasPlace(slots: seq<Slot>, ip: nat)
  {
    FirstOf(slots, ip) < |slots| || FirstFree(slots) < |slots| ||
      exists j :: 0 <= j < |slots| && slots[j].lastUse < UINT64_MAX
  }

  function Empty(): (s: seq<Slot>)
    ensures |s| == CACHE_SIZE && forall j :: 0 <= j < |s| ==> s[j] == Slot(false, 0, 0, 0)
  {
    seq(CACHE_SIZE, _ => Slot(false, 0, 0, 0))
  }

  // ---------- The cache ----------

  class Cache {
    const slots: array<Slot>
    ghost var order: seq<nat>
    ghost var history: seq<Pair>
    ghost var now: int
    ghost var forward: bool // the clock never went back
    ghost var strict: bool // the clock advanced between any two touches

    /** Every cached address has the hardware address of its last touch, whatever the clock showed. */
    ghost predicate Valid()
      reads this, slots
    {
      && Sound(slots[..], order, history) && (strict ==> forward && Exact() && NoTies(Used(slots[..], order)))
      && (forward ==> Falling(Used(slots[..], order), now))
    }

    /** The cache holds exactly the most recently touched addresses. */
    ghost predicate Exact()
      reads this, slots
    {
      Sound(slots[..], order, history) && ExactFor(slots[..], order, history)
    }

    constructor ()
      ensures Valid() && fresh(slots) && slots[..] == Empty() && history == [] && now == -1 && strict
    {
      slots := new Slot[CACHE_SIZE](_ => Slot(false, 0, 0, 0));
      order, history, now, forward, strict := [], [], -1, true, true;
    }

    /** The first active slot of an address. */
    method Find(ip: nat) returns (i: nat)
      requires slots.Length == CACHE_SIZE
      ensures i == FirstOf(slots[..], ip)
    {
      i := 0;
      while i < CACHE_SIZE
        invariant 0 <= i <= CACHE_SIZE && forall j :: 0 <= j < i ==> !Holds(slots[j], ip)
      {
        if slots[i].active && slots[i].ip == ip {
          return;
        }
        i := i + 1;
      }
    }

    /** A hit is a touch; it keeps an exact cache exact. */
    method Lookup(ip: nat, clock: nat) returns (mac: Option<nat>)
      requires Valid() && clock <= UINT64_MAX
      modifies this, slots
      ensures Valid() && slots[..] == LookedUp(old(slots[..]), ip, clock)
      ensures var kept := old(Pairs(Used(slots[..], order)));
        if mac.None? then !Has(kept, ip) && history == old(history)
        else Pair(ip, mac.value) in kept && history == old(history) + [Pair(ip, mac.value)]
      ensures mac.None? ==> now == old(now) && forward == old(forward) && strict == old(strict)
      ensures mac.Some? ==> Advanced(old(now), old(strict), clock)
      ensures mac.Some? ==> forward == (old(forward) && old(now) <= clock)
      ensures old(Exact()) ==> Exact()
    {
      hide Recent, Ordered, Kept, LastOnes, LatestFirst, Has, Falling, NoTies, Used, Pairs, Shifted;
      ghost var s0 := slots[..];
      ListedIn(s0, order, history);
      var i := Find(ip);
      if i == CACHE_SIZE {
        Unlisted(s0, order, ip);
        return None;
      }
      mac := Some(slots[i].mac);
      ghost var p := Listed(s0, order, i);
      ghost var s := s0[i].(lastUse := clock);
      ghost var order' := TouchListed(s0, order, history, i, s, now);
      slots[i] := slots[i].(lastUse := clock);
      ghost var s1 := slots[..];
      assert s1 == s0[i := s];
      MoveToFront(i);
      ShiftSound(s1, order', history + [Pair(ip, mac.value)], i);
      order, history := Renumbered(order', i), history + [Pair(ip, mac.value)];
      forward, strict, now := forward && now <= clock, strict && now < clock, clock;
    }

    /** Shifts the slots before `i` up by one and puts slot `i` in front. */
    method MoveToFront(i: nat)
      requires i < slots.Length
      modifies slots
      ensures slots[..] == Shifted(old(slots[..]), i)
    {
      var tmp := slots[i];
      var j := i;
      while j > 0
        invariant 0 <= j <= i
        invariant forall k :: 0 <= k < j ==> slots[k] == old(slots[k])
        invariant forall k :: j < k <= i ==> slots[k] == old(slots[k - 1])
        invariant forall k :: i < k < slots.Length ==> slots[k] == old(slots[k])
      {
        slots[j] := slots[j - 1];
        j := j - 1;
      }
      slots[0] := tmp;
    }

    /** Every insert is a touch; it keeps an exact cache exact if and only if it is harmless. */
    method Insert(ip: nat, mac: nat, clock: nat)
      requires Valid() && clock <= UINT64_MAX && HasPlace(slots[..], ip)
      modifies this, slots
      ensures Valid() && slots[..] == Inserted(old(slots[..]), ip, mac, clock)
      ensures history == old(history) + [Pair(ip, mac)] && Advanced(old(now), old(strict), clock)
      ensures forward == (old(forward) && old(now) <= clock)
      ensures old(Exact()) ==> (Exact() <==> Harmless(old(slots[..]), old(order), ip))
    {
      hide Sound, ExactFor, Harmless, Falling, NoTies, Used, Victim;
      ghost var s0 := slots[..];
      ListedIn(s0, order, history);
      TimedIn(s0, order, history);
      ghost var order' := InsertKeeps(s0, order, history, ip, mac, clock, now);
      if strict { HarmlessStrict(s0, order, now, ip); }
      Put(ip, mac, clock);
      order, history := order', history + [Pair(ip, mac)];
      forward, strict, now := forward && now <= clock, strict && now < clock, clock;
    }

    /** The slot of the address, a free one, or the victim's is written. */
    method Put(ip: nat, mac: nat, clock: nat)
      requires slots.Length == CACHE_SIZE && Timed(slots[..]) && HasPlace(slots[..], ip)
      modifies slots
      ensures slots[..] == Inserted(old(slots[..]), ip, mac, clock)
    {
      hide FirstOf, FirstFree, Oldest, Victim;
      var i := Find(ip);
      if i < CACHE_SIZE {
        slots[i] := slots[i].(mac := mac, lastUse := clock);
      } else {
        i := FindFree();
        if i == CACHE_SIZE {
          i := FindOldest();
        }
        slots[i] := Slot(true, ip, mac, clock);
      }
    }

    method FindFree() returns (i: nat)
      requires slots.Length == CACHE_SIZE
      ensures i == FirstFree(slots[..])
    {
      i := 0;
      while i < CACHE_SIZE && slots[i].active
        invariant 0 <= i <= CACHE_SIZE && forall j :: 0 <= j < i ==> slots[j].active
      {
        i := i + 1;
      }
    }

    method FindOldest() returns (slot: nat)
      requires slots.Length == CACHE_SIZE && FirstFree(slots[..]) == CACHE_SIZE
      requires Timed(slots[..]) && exists j :: 0 <= j < CACHE_SIZE && slots[j].lastUse < UINT64_MAX
      ensures slot < CACHE_SIZE && slot == Oldest(slots[..]) && Victim(slots[..], slot)
    {
      slot := CACHE_SIZE;
      var oldest := UINT64_MAX;
      var i := 0;
      while i < CACHE_SIZE
        invariant 0 <= i <= CACHE_SIZE && slot <= CACHE_SIZE && (slot == CACHE_SIZE ==> oldest == UINT64_MAX)
        invariant slot < CACHE_SIZE ==> slot < i && slots[slot].lastUse == oldest
        invariant forall j :: 0 <= j < i ==>
          oldest <= slots[j].lastUse && (j < slot < CACHE_SIZE ==> oldest < slots[j].lastUse)
      {
        if slots[i].active && slots[i].lastUse < oldest {
          oldest := slots[i].lastUse;
          slot := i;
        }
        i := i + 1;
      }
      OneVictim(slots[..], slot, Oldest(slots[..]));
    }

    /** The time moved to `clock`, and was strict before and now or is not any more. */
    ghost predicate Advanced(before: int, wasStrict: bool, clock: nat)
      reads this
    {
      now == clock && strict == (wasStrict && before < clock)
    }
  }

  // ---------- A run on which times defeat the order of use ----------

  datatype Call = Lookup(ip: nat, clock: nat) | Insert(ip: nat, mac: nat, clock: nat)

  /** The table after the calls, from an empty cache. */
  function Run(calls: seq<Call>): (s: seq<Slot>)
    ensures |s| == CACHE_SIZE
  {
    if calls == [] then Empty()
    else
      var s, c := Run(calls[..|calls| - 1]), calls[|calls| - 1];
      match c
      case Lookup(ip, clock) => LookedUp(s, ip, clock)
      case Insert(ip, mac, clock) => Inserted(s, ip, mac, clock)
  }

  /** The touches of the calls: every insert, and every lookup that finds its address. */
  function Touches(calls: seq<Call>): seq<Pair>
  {
    if calls == [] then []
    else
      var n := |calls| - 1;
      var before, s, c := Touches(calls[..n]), Run(calls[..n]), calls[n];
      match c
      case Lookup(ip, _) =>
        var i := FirstOf(s, ip);
        if i < |s| then before + [Pair(ip, s[i].mac)] else before
      case Insert(ip, mac, _) => before + [Pair(ip, mac)]
  }

  /** Addresses 0 to k-1 inserted at time 7. */
  function Inserts(k: nat): (r: seq<Call>)
    ensures |r| == k && forall i :: 0 <= i < k ==> r[i] == Insert(i, i, 7)
  {
    seq(k, i requires 0 <= i < k => Insert(i, i, 7))
  }

  function Ascending(k: nat): (r: seq<Pair>)
    ensures |r| == k && forall i :: 0 <= i < k ==> r[i] == Pair(i, i)
  {
    seq(k, i requires 0 <= i < k => Pair(i, i))
  }

  function Descending(k: nat): (r: seq<Pair>)
    ensures |r| == k && forall i :: 0 <= i < k ==> r[i] == Pair(k - 1 - i, k - 1 - i)
  {
    seq(k, i requires 0 <= i < k => Pair(k - 1 - i, k - 1 - i))
  }

  lemma NoneHolds(slots: seq<Slot>, ip: nat)
    requires forall j :: 0 <= j < |slots| ==> !Holds(slots[j], ip)
    ensures FirstOf(slots, ip) == |slots|
  {
  }

  lemma FreeAt(slots: seq<Slot>, i: nat)
    requires i <= |slots| && (i < |slots| ==> !slots[i].active) && forall j :: 0 <= j < i ==> slots[j].active
    ensures FirstFree(slots) == i
  {
  }

  lemma {:induction false} InsertsFill(k: nat)
    requires k <= CACHE_SIZE
    ensures forall i :: 0 <= i < CACHE_SIZE ==>
      Run(Inserts(k))[i] == if i < k then Slot(true, i, i, 7) else Slot(false, 0, 0, 0)
    ensures Touches(Inserts(k)) == Ascending(k)
  {
    hide FirstOf, FirstFree;
    if k > 0 {
      var n := k - 1;
      InsertsFill(n);
      assert Inserts(k)[..n] == Inserts(n);
      var s := Run(Inserts(n));
      NoneHolds(s, n);
      FreeAt(s, n);
      assert Ascending(n) + [Pair(n, n)] == Ascending(k);
    }
  }

  lemma {:induction false} RecentAscending(k: nat)
    ensures Recent(Ascending(k)) == Descending(k)
  {
    hide Touched;
    if k > 0 {
      var n := k - 1;
      RecentAscending(n);
      assert Ascending(k)[..n] == Ascending(n);
      HasNot(Descending(n), n);
      TouchedNew(Descending(n), Pair(n, n));
      assert [Pair(n, n)] + Descending(n) == Descending(k);
    }
  }

  function TieCalls(): seq<Call> { Inserts(32) + [Lookup(31, 7)] + [Insert(32, 32, 7)] }

  /** The table of the run before its last call: the address just looked up in front, the others behind it. */
  lemma TieTable()
    ensures var calls := Inserts(32) + [Lookup(31, 7)]; var s := Run(calls);
      && s[0] == Slot(true, 31, 31, 7) && (forall i :: 0 < i < CACHE_SIZE ==> s[i] == Slot(true, i - 1, i - 1, 7))
      && Touches(calls) == Ascending(32) + [Pair(31, 31)]
  {
    hide FirstOf, FirstFree;
    InsertsFill(32);
    var calls, s := Inserts(32) + [Lookup(31, 7)], Run(Inserts(32));
    assert calls[..32] == Inserts(32);
    assert FirstOf(s, 31) == 31 by {
      assert Holds(s[31], 31) && forall j :: 0 <= j < 31 ==> !Holds(s[j], 31);
    }
  }

  lemma TieRecency()
    ensures Recent(Ascending(32) + [Pair(31, 31)] + [Pair(32, 32)]) == Descending(33)
  {
    hide Touched;
    RecentAscending(32);
    RecentStep(Ascending(32), Pair(31, 31));
    TouchedAt(Descending(32), Pair(31, 31), 0);
    assert [Pair(31, 31)] + (Descending(32)[..0] + Descending(32)[1..]) == Descending(32);
    RecentStep(Ascending(32) + [Pair(31, 31)], Pair(32, 32));
    HasNot(Descending(32), 32);
    TouchedNew(Descending(32), Pair(32, 32));
    assert [Pair(32, 32)] + Descending(32) == Descending(33);
  }

  /**
   Addresses 0 to 31 inserted, 31 looked up and 32 inserted, all at time 7: the last call evicts
   31, the address used just before it, and keeps 0, which is the least recently used one.
   */
  lemma TieEvictsLatest()
    ensures var s, kept := Run(TieCalls()), Kept(Recent(Touches(TieCalls())));
      && FirstOf(s, 31) == CACHE_SIZE && Has(kept, 31)
      && FirstOf(s, 0) < CACHE_SIZE && !Has(kept, 0)
  {
    hide FirstOf, FirstFree, Oldest, Recent;
    var calls, last := Inserts(32) + [Lookup(31, 7)], Insert(32, 32, 7);
    TieTable();
    var s := Run(calls);
    assert TieCalls()[..33] == calls && TieCalls()[33] == last;
    NoneHolds(s, 32);
    FreeAt(s, CACHE_SIZE);
    OneVictim(s, Oldest(s), 0);
    var t := Run(TieCalls());
    assert t == s[0 := Slot(true, 32, 32, 7)];
    NoneHolds(t, 31);
    assert Holds(t[1], 0);
    TieRecency();
    var kept := Kept(Descending(33));
    assert kept[1].ip == 31;
    HasNot(kept, 0);
  }
}
