/**
 Least-recently-used order on values: the addresses of a history of touches, most recent
 first, and why a cache that keeps the first 32 of them needs to know nothing else.
 */
module ArpSpec {
  import opened Machine

  const CACHE_SIZE: nat := 32

  /** An address and its hardware address. */
  datatype Pair = Pair(ip: nat, mac: nat)

  function Without(ps: seq<Pair>, ip: nat): (r: seq<Pair>)
    ensures |r| <= |ps|
  {
    if ps == [] then [] else (if ps[0].ip == ip then [] else [ps[0]]) + Without(ps[1..], ip)
  }

  function Touched(ps: seq<Pair>, p: Pair): seq<Pair> { [p] + Without(ps, p.ip) }

  /** The touched addresses, each once, most recently touched first, each as last touched. */
  function Recent(history: seq<Pair>): seq<Pair>
  {
    if history == [] then [] else Touched(Recent(history[..|history| - 1]), history[|history| - 1])
  }

  predicate DistinctAddresses(ps: seq<Pair>) { forall i, j :: 0 <= i < j < |ps| ==> ps[i].ip != ps[j].ip }

  // ---------- What the order means ----------

  /** Position of the last touch of an address; the history length when there is none. */
  function LastTouch(history: seq<Pair>, ip: nat): (i: nat)
    ensures i <= |history| &&
      (i < |history| ==> history[i].ip == ip && forall j :: i < j < |history| ==> history[j].ip != ip)
    ensures i == |history| ==> forall j :: 0 <= j < |history| ==> history[j].ip != ip
  {
    if history == [] then 0
    else
      var n := |history| - 1;
      if history[n].ip == ip then n
      else
        var i := LastTouch(history[..n], ip);
        if i == n then n + 1 else i
  }

  /** Every element is the last touch of its address. */
  predicate LastOnes(history: seq<Pair>, ps: seq<Pair>)
  {
    forall k :: 0 <= k < |ps| ==>
      LastTouch(history, ps[k].ip) < |history| && ps[k] == history[LastTouch(history, ps[k].ip)]
  }

  /** Later touches come first. */
  predicate LatestFirst(history: seq<Pair>, ps: seq<Pair>)
  {
    forall k, l :: 0 <= k < l < |ps| ==> LastTouch(history, ps[k].ip) > LastTouch(history, ps[l].ip)
  }

  /** No touched address is missing. */
  predicate Complete(history: seq<Pair>, ps: seq<Pair>)
  {
    forall j :: 0 <= j < |history| ==> Has(ps, history[j].ip)
  }

  predicate Has(ps: seq<Pair>, ip: nat) { exists k :: 0 <= k < |ps| && ps[k].ip == ip }

  predicate ByRecency(history: seq<Pair>, ps: seq<Pair>) { LastOnes(history, ps) && LatestFirst(history, ps) &&
      Complete(history, ps) }

  lemma {:induction false} WithoutNone(ps: seq<Pair>, ip: nat)
    requires !Has(ps, ip)
    ensures Without(ps, ip) == ps
  {
    if ps != [] {
      assert !Has(ps[1..], ip) by { assert forall k :: 0 <= k < |ps| - 1 ==> ps[1..][k] == ps[k + 1]; }
      assert ps[0].ip != ip;
      WithoutNone(ps[1..], ip);
      assert ps == [ps[0]] + ps[1..];
    }
  }

  /** In a list of distinct addresses, taking one out leaves what is before and behind it. */
  lemma {:induction false} WithoutAt(ps: seq<Pair>, i: nat)
    requires DistinctAddresses(ps) && i < |ps|
    ensures Without(ps, ps[i].ip) == ps[..i] + ps[i + 1..]
  {
    hide Has;
    var rest := ps[1..];
    assert forall k :: 0 <= k < |rest| ==> rest[k] == ps[k + 1];
    if i == 0 {
      HasNot(rest, ps[0].ip);
      WithoutNone(rest, ps[0].ip);
      assert [] + rest == rest && ps[..0] + rest == rest;
    } else {
      WithoutAt(rest, i - 1);
      assert ps[..i] == [ps[0]] + rest[..i - 1] && ps[i + 1..] == rest[i..];
    }
  }

  /** A touch puts a new address in front, or moves a known one there. */
  lemma TouchedNew(ps: seq<Pair>, p: Pair)
    requires !Has(ps, p.ip)
    ensures Touched(ps, p) == [p] + ps
  {
    WithoutNone(ps, p.ip);
  }

  lemma TouchedAt(ps: seq<Pair>, p: Pair, i: nat)
    requires DistinctAddresses(ps) && i < |ps| && ps[i].ip == p.ip
    ensures Touched(ps, p) == [p] + (ps[..i] + ps[i + 1..])
  {
    WithoutAt(ps, i);
  }

  lemma TouchedDistinct(ps: seq<Pair>, p: Pair)
    requires DistinctAddresses(ps)
    ensures DistinctAddresses(Touched(ps, p))
  {
    hide Touched;
    if i :| 0 <= i < |ps| && ps[i].ip == p.ip {
      TouchedAt(ps, p, i);
    } else {
      TouchedNew(ps, p);
    }
  }

  lemma {:induction false} RecentDistinct(history: seq<Pair>)
    ensures DistinctAddresses(Recent(history))
  {
    if history != [] {
      RecentDistinct(history[..|history| - 1]);
      TouchedDistinct(Recent(history[..|history| - 1]), history[|history| - 1]);
    }
  }

  /** The recency list is what its name says. */
  lemma {:induction false} RecentIsByRecency(history: seq<Pair>)
    ensures ByRecency(history, Recent(history))
  {
    if history != [] {
      var n := |history| - 1;
      var front, p := history[..n], history[n];
      RecentIsByRecency(front);
      RecentDistinct(front);
      assert history == front + [p];
      TouchByRecency(front, Recent(front), p);
    }
  }

  /** The element at `k` behind the front of a touched list comes from here in the list before. */
  function From(k: nat, i: nat): (f: int) { if k <= i then k - 1 else k }

  /** `rest` is `p` and then `ps` without its element at `i`, if there is one. */
  predicate Fronted(ps: seq<Pair>, p: Pair, rest: seq<Pair>, i: nat)
  {
    && i <= |ps| && |rest| == (if i < |ps| then |ps| else |ps| + 1) && rest[0] == p
    && (forall k :: 1 <= k < |rest| ==> 0 <= From(k, i) < |ps| && rest[k] == ps[From(k, i)] && rest[k].ip != p.ip)
    && (i < |ps| ==> ps[i].ip == p.ip)
  }

  lemma TouchedFronted(ps: seq<Pair>, p: Pair) returns (i: nat)
    requires DistinctAddresses(ps)
    ensures Fronted(ps, p, Touched(ps, p), i)
  {
    hide Touched;
    if j :| 0 <= j < |ps| && ps[j].ip == p.ip {
      i := j;
      TouchedAt(ps, p, i);
    } else {
      i := |ps|;
      TouchedNew(ps, p);
    }
  }

  lemma TouchByRecency(history: seq<Pair>, ps: seq<Pair>, p: Pair)
    requires ByRecency(history, ps) && DistinctAddresses(ps)
    ensures ByRecency(history + [p], Touched(ps, p))
  {
    hide LastTouch, Touched, From, Fronted, Has;
    var rest := Touched(ps, p);
    var i := TouchedFronted(ps, p);
    TouchLastOnes(history, ps, p, rest, i);
    TouchComplete(history, ps, p, rest, i);
  }

  lemma TouchLastOnes(history: seq<Pair>, ps: seq<Pair>, p: Pair, rest: seq<Pair>, i: nat)
    requires LastOnes(history, ps) && LatestFirst(history, ps) && Fronted(ps, p, rest, i)
    ensures LastOnes(history + [p], rest) && LatestFirst(history + [p], rest)
  {
  }

  lemma TouchComplete(history: seq<Pair>, ps: seq<Pair>, p: Pair, rest: seq<Pair>, i: nat)
    requires Complete(history, ps) && Fronted(ps, p, rest, i)
    ensures Complete(history + [p], rest)
  {
    var more := history + [p];
    forall j | 0 <= j < |more| ensures Has(rest, more[j].ip) {
      if more[j].ip == p.ip {
        assert rest[0].ip == more[j].ip;
      } else {
        assert more[j] == history[j];
        var k :| 0 <= k < |ps| && ps[k].ip == history[j].ip;
        assert rest[if k < i then k + 1 else k].ip == more[j].ip;
      }
    }
  }

  // ---------- Keeping the first ones ----------

  function Kept(ps: seq<Pair>): seq<Pair> { ps[..Min(|ps|, CACHE_SIZE)] }

  /** The next list of kept addresses depends only on the kept ones. */
  lemma KeptTouched(ps: seq<Pair>, p: Pair)
    requires DistinctAddresses(ps)
    ensures Kept(Touched(Kept(ps), p)) == Kept(Touched(ps, p))
  {
    hide Touched, Has, Kept;
    var kept := Kept(ps);
    KeptPrefix(ps);
    if i :| 0 <= i < |ps| && ps[i].ip == p.ip {
      TouchedAt(ps, p, i);
      KeptMoved(ps, p, i);
      if i < |kept| {
        TouchedAt(kept, p, i);
      } else {
        HasNot(kept, p.ip);
        TouchedNew(kept, p);
      }
    } else {
      HasNot(ps, p.ip);
      HasNot(kept, p.ip);
      TouchedNew(ps, p);
      TouchedNew(kept, p);
      KeptAdded(ps, p);
    }
  }

  lemma KeptPrefix(ps: seq<Pair>)
    ensures |Kept(ps)| == Min(|ps|, CACHE_SIZE) && forall k :: 0 <= k < |Kept(ps)| ==> Kept(ps)[k] == ps[k]
  {
  }

  lemma KeptMoved(ps: seq<Pair>, p: Pair, i: nat)
    requires i < |ps|
    ensures var kept := Kept(ps);
      Kept([p] + (ps[..i] + ps[i + 1..])) ==
        if i < |kept| then Kept([p] + (kept[..i] + kept[i + 1..])) else Kept([p] + kept)
  {
    var kept := Kept(ps);
    if i < |kept| {
      var a, b := [p] + (ps[..i] + ps[i + 1..]), [p] + (kept[..i] + kept[i + 1..]);
      assert forall k :: 0 <= k < |Kept(b)| ==> Kept(a)[k] == a[k] == b[k];
      assert Kept(a) == Kept(b);
    } else {
      var a, b := [p] + (ps[..i] + ps[i + 1..]), [p] + kept;
      assert forall k :: 0 <= k < |Kept(b)| ==> Kept(a)[k] == a[k] == b[k];
      assert Kept(a) == Kept(b);
    }
  }

  lemma KeptAdded(ps: seq<Pair>, p: Pair)
    ensures Kept([p] + ps) == Kept([p] + Kept(ps))
  {
  }

  lemma HasNot(ps: seq<Pair>, ip: nat)
    requires forall k :: 0 <= k < |ps| ==> ps[k].ip != ip
    ensures !Has(ps, ip)
  {
  }
}
