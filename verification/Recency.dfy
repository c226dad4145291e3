/**
 The recency order behind the window cache of `hex.rs`: which window indices an
 LRU cache of a given capacity holds after any history of accesses.

 The history is the specification.  `Recent` is the unbounded list of the
 windows used since the cache was last cleared, most recent first, and a cache
 of capacity `c` is proved to hold exactly its first `c` elements.
 */
module Recency {
  import opened Seqs

  /** What can happen to a cache: a window is served (from the cache or by a
      read), the cache is cleared, or a read fails. */
  datatype Event = Use(index: nat) | Clear | Fault(index: nat)

  type Trace = seq<Event>

  function Remove(s: seq<nat>, x: nat): seq<nat> {
    if s == [] then []
    else if s[0] == x then Remove(s[1..], x)
    else [s[0]] + Remove(s[1..], x)
  }

  function Take<T>(s: seq<T>, n: nat): seq<T> {
    if |s| <= n then s else s[..n]
  }

  /** The distinct windows used since the last clear, most recent first. */
  function Recent(t: Trace): seq<nat> {
    if t == [] then []
    else
      var before := Recent(t[..|t| - 1]);
      match t[|t| - 1]
      case Use(i) => [i] + Remove(before, i)
      case Clear => []
      case Fault(_) => before
  }

  /** Position of the last use of `x` since the last clear; -1 when there is none. */
  function LastUse(t: Trace, x: nat): (p: int)
    ensures -1 <= p < |t|
  {
    if t == [] then -1
    else match t[|t| - 1]
      case Use(i) => if i == x then |t| - 1 else LastUse(t[..|t| - 1], x)
      case Clear => -1
      case Fault(_) => LastUse(t[..|t| - 1], x)
  }

  /** One cache access as the code performs it: move to front on a hit, push and
      evict from the back on a miss. */
  function Touch(list: seq<nat>, x: nat, capacity: nat): seq<nat> {
    if x in list then [x] + Remove(list, x) else Take([x] + list, capacity)
  }

  /** Accesses that miss in a cache of the given capacity. */
  function Misses(t: Trace, capacity: nat): nat {
    if t == [] then 0
    else
      var before := t[..|t| - 1];
      Misses(before, capacity) +
      match t[|t| - 1]
      case Use(i) => if i in Take(Recent(before), capacity) then 0 else 1
      case Clear => 0
      case Fault(_) => 1
  }

  /** Accesses served from a cache of the given capacity. */
  function Hits(t: Trace, capacity: nat): nat {
    if t == [] then 0
    else
      var before := t[..|t| - 1];
      Hits(before, capacity) +
      match t[|t| - 1]
      case Use(i) => if i in Take(Recent(before), capacity) then 1 else 0
      case Clear => 0
      case Fault(_) => 0
  }

  function Faults(t: Trace): nat {
    if t == [] then 0 else Faults(t[..|t| - 1]) + if t[|t| - 1].Fault? then 1 else 0
  }

  // ---------------------------------------------------------------- lists ---

  lemma {:induction false} RemoveElements(s: seq<nat>, x: nat)
    ensures forall y :: y in Remove(s, x) <==> y in s && y != x
    ensures Distinct(s) ==> Distinct(Remove(s, x))
  {
    if s != [] {
      RemoveElements(s[1..], x);
      assert s == [s[0]] + s[1..];
      if Distinct(s) {
        assert Distinct(s[1..]) && s[0] !in s[1..];
      }
    }
  }

  lemma {:induction false} RemoveAbsent(s: seq<nat>, x: nat)
    requires x !in s
    ensures Remove(s, x) == s
  {
    if s != [] {
      RemoveAbsent(s[1..], x);
    }
  }

  lemma {:induction false} RemoveAt(s: seq<nat>, p: nat)
    requires Distinct(s) && p < |s|
    ensures Remove(s, s[p]) == s[..p] + s[p + 1..]
  {
    if p == 0 {
      RemoveAbsent(s[1..], s[0]);
    } else {
      RemoveAt(s[1..], p - 1);
    }
  }

  // ------------------------------------------------------------ recency order ---

  predicate ByLastUse(t: Trace, s: seq<nat>) {
    forall i, j :: 0 <= i < j < |s| ==> LastUse(t, s[i]) > LastUse(t, s[j])
  }

  lemma PrependDistinct(x: nat, s: seq<nat>)
    requires Distinct(s) && x !in s
    ensures Distinct([x] + s)
  {
  }

  lemma RemoveKeepsOrder(t: Trace, s: seq<nat>, x: nat)
    requires Distinct(s) && ByLastUse(t, s)
    ensures ByLastUse(t, Remove(s, x))
  {
    if x in s {
      var p :| 0 <= p < |s| && s[p] == x;
      RemoveAt(s, p);
    } else {
      RemoveAbsent(s, x);
    }
  }

  /** `s` lists exactly the windows used in `t` since the last clear, each once,
      ordered by how recently they were used. */
  ghost predicate IsRecencyOrder(t: Trace, s: seq<nat>) {
    && Distinct(s)
    && ByLastUse(t, s)
    && forall x :: x in s <==> LastUse(t, x) >= 0
  }

  lemma LastUseAfter(t: Trace, x: nat, y: nat)
    ensures LastUse(t + [Use(x)], y) == if y == x then |t| else LastUse(t, y)
    ensures LastUse(t + [Fault(x)], y) == LastUse(t, y)
    ensures LastUse(t + [Clear], y) == -1
  {
    assert forall e: Event :: (t + [e])[..|t + [e]| - 1] == t;
  }

  lemma UseMovesToFront(t: Trace, s: seq<nat>, x: nat)
    requires IsRecencyOrder(t, s)
    ensures IsRecencyOrder(t + [Use(x)], [x] + Remove(s, x))
  {
    var rest := Remove(s, x);
    RemoveElements(s, x);
    RemoveKeepsOrder(t, s, x);
    PrependDistinct(x, rest);
    hide Remove, Distinct, LastUse;
    forall y ensures LastUse(t + [Use(x)], y) == if y == x then |t| else LastUse(t, y) {
      LastUseAfter(t, x, y);
    }
  }

  lemma NothingAfterClear(t: Trace)
    ensures IsRecencyOrder(t + [Clear], [])
  {
    forall y ensures LastUse(t + [Clear], y) == -1 { LastUseAfter(t, 0, y); }
  }

  lemma FaultChangesNothing(t: Trace, x: nat)
    requires IsRecencyOrder(t, Recent(t))
    ensures IsRecencyOrder(t + [Fault(x)], Recent(t))
  {
    hide Recent;
    forall y ensures LastUse(t + [Fault(x)], y) == LastUse(t, y) { LastUseAfter(t, x, y); }
  }

  /** `Recent` is the recency order; the three conditions determine it. */
  lemma {:induction false} RecentIsRecencyOrder(t: Trace)
    ensures IsRecencyOrder(t, Recent(t))
  {
    if t != [] {
      var before := t[..|t| - 1];
      RecentIsRecencyOrder(before);
      assert t == before + [t[|t| - 1]];
      hide IsRecencyOrder;
      match t[|t| - 1] {
        case Use(x) => UseMovesToFront(before, Recent(before), x);
        case Clear => NothingAfterClear(before);
        case Fault(x) => FaultChangesNothing(before, x);
      }
    }
  }

  /** No other list meets the three conditions. */
  lemma {:induction false} RecencyOrderIsUnique(t: Trace, a: seq<nat>, b: seq<nat>)
    requires Distinct(a) && Distinct(b) && ByLastUse(t, a) && ByLastUse(t, b)
    requires forall x :: x in a <==> x in b
    ensures a == b
  {
    assert b == [] || b[0] in b;
    if a != [] {
      assert a[0] in b && b[0] in a;
      assert a[0] == b[0];
      forall x ensures x in a[1..] <==> x in b[1..] {
        assert x in a[1..] <==> x in a && x != a[0];
        assert x in b[1..] <==> x in b && x != b[0];
      }
      RecencyOrderIsUnique(t, a[1..], b[1..]);
    }
  }

  lemma PrefixDistinct(s: seq<nat>, n: nat)
    requires Distinct(s) && n <= |s|
    ensures Distinct(s[..n])
  {
  }

  lemma NotBefore(s: seq<nat>, p: nat, n: nat)
    requires Distinct(s) && n <= p < |s|
    ensures s[p] !in s[..n]
  {
  }

  lemma TouchAt(s: seq<nat>, p: nat, capacity: nat)
    requires Distinct(s) && p < |s| && capacity >= 1
    ensures Touch(Take(s, capacity), s[p], capacity) == Take([s[p]] + (s[..p] + s[p + 1..]), capacity)
  {
    hide Distinct, Remove;
    var held := Take(s, capacity);
    if p < |held| {
      assert held[p] == s[p];
      PrefixDistinct(s, |held|);
      RemoveAt(held, p);
      assert [s[p]] + (held[..p] + held[p + 1..]) == Take([s[p]] + (s[..p] + s[p + 1..]), capacity);
    } else {
      NotBefore(s, p, |held|);
      assert Take([s[p]] + held, capacity) == Take([s[p]] + (s[..p] + s[p + 1..]), capacity);
    }
  }

  /** One access to a cache holding the first `capacity` elements of a recency
      list leaves it holding the first `capacity` elements of the new one. */
  lemma TouchTracksRecency(s: seq<nat>, x: nat, capacity: nat)
    requires Distinct(s) && capacity >= 1
    ensures Touch(Take(s, capacity), x, capacity) == Take([x] + Remove(s, x), capacity)
  {
    hide Distinct, Remove;
    if x in s {
      var p :| 0 <= p < |s| && s[p] == x;
      RemoveAt(s, p);
      TouchAt(s, p, capacity);
    } else {
      RemoveAbsent(s, x);
    }
  }

  // ---------------------------------------------------------------- inclusion ---

  /** The LRU stack property: over one history, the smaller cache holds a prefix
      of what the larger one holds. */
  lemma SmallerCacheIsPrefix(t: Trace, c1: nat, c2: nat)
    requires c1 <= c2
    ensures Take(Recent(t), c1) <= Take(Recent(t), c2)
  {
  }

  /** No Belady anomaly: over one history a larger LRU cache never misses more,
      and what it does not miss it serves from the cache. */
  lemma {:induction false} LargerCacheNeverMissesMore(t: Trace, c1: nat, c2: nat)
    requires c1 <= c2
    ensures Misses(t, c2) <= Misses(t, c1)
    ensures Misses(t, c2) + Hits(t, c2) == Misses(t, c1) + Hits(t, c1)
    ensures Faults(t) <= Misses(t, c2)
  {
    if t != [] {
      LargerCacheNeverMissesMore(t[..|t| - 1], c1, c2);
      SmallerCacheIsPrefix(t[..|t| - 1], c1, c2);
    }
  }
}
