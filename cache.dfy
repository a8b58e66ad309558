/**
 * The DNS record cache (`src/cache.rs`): an LRU map from a domain to the
 * records stored for it, filtered by `clean_expired` (records whose TTL is
 * at most `now` are kept) whenever it is read or extended, and a wrapper that is absent when the configured size is 0.
 */
module Cache {
  import opened Wrappers
  import opened Records

  /** The records `clean_expired` keeps: those whose TTL is at most `now`, in their order. */
  function Clean(rrs: seq<Record>, now: nat): (r: seq<Record>)
    decreases |rrs|
  {
    if rrs == [] then []
    else
      var last := rrs[|rrs| - 1];
      Clean(rrs[..|rrs| - 1], now) + (if last.ttl <= now then [last] else [])
  }

  /** The records of one type, in their order. */
  function OfType(rrs: seq<Record>, t: RecordType): (r: seq<Record>)
    decreases |rrs|
  {
    if rrs == [] then []
    else
      var last := rrs[|rrs| - 1];
      OfType(rrs[..|rrs| - 1], t) + (if last.rtype == t then [last] else [])
  }

  /** Cleaning keeps exactly the records whose TTL is at most `now` and never adds one. */
  lemma {:induction false} CleanMembers(rrs: seq<Record>, now: nat)
    ensures forall r :: r in Clean(rrs, now) <==> r in rrs && r.ttl <= now
    ensures |Clean(rrs, now)| <= |rrs|
    decreases |rrs|
  {
    if rrs != [] {
      var init := rrs[..|rrs| - 1];
      CleanMembers(init, now);
      assert rrs == init + [rrs[|rrs| - 1]];
    }
  }

  /** Cleaning a concatenation cleans each part: the survivors keep their relative order. */
  lemma {:induction false} CleanAppend(a: seq<Record>, b: seq<Record>, now: nat)
    ensures Clean(a + b, now) == Clean(a, now) + Clean(b, now)
    decreases |b|
  {
    if b != [] {
      var init := b[..|b| - 1];
      var last := b[|b| - 1];
      assert a + b == (a + init) + [last];
      assert (a + b)[..|a + b| - 1] == a + init;
      assert (a + b)[|a + b| - 1] == last;
      CleanAppend(a, init, now);
      assert Clean(a + b, now) == Clean(a + init, now) + (if last.ttl <= now then [last] else []);
      assert Clean(b, now) == Clean(init, now) + (if last.ttl <= now then [last] else []);
    } else {
      assert a + b == a;
    }
  }

  /** A list whose every TTL is at most `now` is left as it is. */
  lemma {:induction false} CleanNoop(rrs: seq<Record>, now: nat)
    requires forall i :: 0 <= i < |rrs| ==> rrs[i].ttl <= now
    ensures Clean(rrs, now) == rrs
    decreases |rrs|
  {
    if rrs != [] {
      var init := rrs[..|rrs| - 1];
      assert forall i :: 0 <= i < |init| ==> init[i] == rrs[i];
      CleanNoop(init, now);
      assert rrs[|rrs| - 1].ttl <= now;
      assert rrs == init + [rrs[|rrs| - 1]];
    }
  }

  /** Cleaning twice at the same time is cleaning once. */
  lemma CleanIdempotent(rrs: seq<Record>, now: nat)
    ensures Clean(Clean(rrs, now), now) == Clean(rrs, now)
  {
    CleanMembers(rrs, now);
    var c := Clean(rrs, now);
    assert forall i :: 0 <= i < |c| ==> c[i] in c;
    CleanNoop(c, now);
  }

  /** The type filter keeps exactly the records of that type. */
  lemma {:induction false} OfTypeMembers(rrs: seq<Record>, t: RecordType)
    ensures forall r :: r in OfType(rrs, t) <==> r in rrs && r.rtype == t
    ensures |OfType(rrs, t)| <= |rrs|
    decreases |rrs|
  {
    if rrs != [] {
      var init := rrs[..|rrs| - 1];
      OfTypeMembers(init, t);
      assert rrs == init + [rrs[|rrs| - 1]];
    }
  }

  /**
   * The LRU map: the records per domain, the domains from least to most
   * recently used, and the fixed capacity.
   */
  datatype Lru = Lru(entries: map<string, seq<Record>>, recency: seq<string>, capacity: nat)

  predicate Distinct(s: seq<string>) {
    forall i, j :: 0 <= i < j < |s| ==> s[i] != s[j]
  }

  /** The recency list names each stored domain once, and the map holds at most `capacity` domains (never zero). */
  ghost predicate Valid(c: Lru) {
    c.capacity > 0 && |c.recency| <= c.capacity && Distinct(c.recency)
    && forall d :: d in c.entries <==> d in c.recency
  }

  /** The recency list without `d`. */
  function Remove(s: seq<string>, d: string): (r: seq<string>)
    decreases |s|
  {
    if s == [] then []
    else Remove(s[..|s| - 1], d) + (if s[|s| - 1] == d then [] else [s[|s| - 1]])
  }

  /** Removing keeps every other domain, keeps a list distinct, and shortens a distinct list holding `d` by one. */
  lemma {:induction false} RemoveSpec(s: seq<string>, d: string)
    ensures forall x :: x in Remove(s, d) <==> x in s && x != d
    ensures Distinct(s) ==> Distinct(Remove(s, d))
    ensures |Remove(s, d)| <= |s| && (d in s && Distinct(s) ==> |Remove(s, d)| == |s| - 1)
    ensures d !in s ==> Remove(s, d) == s
    decreases |s|
  {
    if s != [] {
      var init := s[..|s| - 1];
      var last := s[|s| - 1];
      RemoveSpec(init, d);
      assert s == init + [last];
      if Distinct(s) {
        assert Distinct(init);
        assert last !in init;
      }
    }
  }

  /** `d` moved to the most recently used end. */
  function Touch(s: seq<string>, d: string): seq<string> {
    Remove(s, d) + [d]
  }

  /** The domain a full map gives up for a new one: the least recently used. */
  function Victim(c: Lru): Option<string> {
    if |c.recency| >= c.capacity && c.recency != [] then Some(c.recency[0]) else None
  }

  /**
   * `Inner::put`: a stored domain is cleaned and the new records follow the
   * survivors; a new domain stores a copy of them, evicting the least
   * recently used domain when the map is full.
   */
  function LruPut(c: Lru, domain: string, rrs: seq<Record>, now: nat): Lru {
    if domain in c.entries then
      c.(entries := c.entries[domain := Clean(c.entries[domain], now) + rrs], recency := Touch(c.recency, domain))
    else
      match Victim(c)
      case Some(v) => c.(entries := (c.entries - {v})[domain := rrs], recency := c.recency[1..] + [domain])
      case None => c.(entries := c.entries[domain := rrs], recency := c.recency + [domain])
  }

  /**
   * `Inner::get`: an absent domain gives `None`; otherwise the domain is
   * cleaned, dropped with `None` when nothing survives, and else the
   * survivors of the asked type are returned.
   */
  function LruGet(c: Lru, domain: string, t: RecordType, now: nat): (Option<seq<Record>>, Lru) {
    if domain !in c.entries then (None, c)
    else
      var kept := Clean(c.entries[domain], now);
      if kept == [] then (None, c.(entries := c.entries - {domain}, recency := Remove(c.recency, domain)))
      else (Some(OfType(kept, t)), c.(entries := c.entries[domain := kept], recency := Touch(c.recency, domain)))
  }

  /** What is stored for a domain, empty when nothing is. */
  function Stored(c: Lru, domain: string): seq<Record> {
    if domain in c.entries then c.entries[domain] else []
  }

  /** A distinct list is as long as the set of its elements. */
  lemma {:induction false} DistinctCard(s: seq<string>)
    requires Distinct(s)
    ensures |set x | x in s| == |s|
    decreases |s|
  {
    if s != [] {
      var init := s[..|s| - 1];
      DistinctCard(init);
      assert (set x | x in s) == (set x | x in init) + {s[|s| - 1]};
      assert s[|s| - 1] !in init;
    }
  }

  /** The map never holds more domains than its capacity. */
  lemma Bounded(c: Lru)
    requires Valid(c)
    ensures |c.entries| <= c.capacity
  {
    DistinctCard(c.recency);
    assert c.entries.Keys == set x | x in c.recency;
  }

  /** `put` keeps the map valid, and afterwards the domain is stored and the most recently used. */
  lemma PutValid(c: Lru, domain: string, rrs: seq<Record>, now: nat)
    requires Valid(c)
    ensures var u := LruPut(c, domain, rrs, now);
      Valid(u) && domain in u.entries && u.recency[|u.recency| - 1] == domain && u.capacity == c.capacity
  {
    var u := LruPut(c, domain, rrs, now);
    if domain in c.entries {
      RemoveSpec(c.recency, domain);
      DistinctAppend(Remove(c.recency, domain), domain);
    } else if Victim(c).Some? {
      var rest := c.recency[1..];
      assert forall d :: d in rest <==> d in c.recency && d != c.recency[0];
      DistinctAppend(rest, domain);
    } else {
      DistinctAppend(c.recency, domain);
    }
  }

  lemma DistinctAppend(s: seq<string>, d: string)
    requires Distinct(s) && d !in s
    ensures Distinct(s + [d])
  {
  }

  /**
   * `put` touches no other domain, except that a new domain in a full map
   * evicts the least recently used one.
   */
  lemma PutOthers(c: Lru, domain: string, rrs: seq<Record>, now: nat, other: string)
    requires Valid(c) && other != domain && other in c.entries
    ensures var u := LruPut(c, domain, rrs, now);
      if domain !in c.entries && |c.entries| == c.capacity && other == c.recency[0] then other !in u.entries
      else other in u.entries && u.entries[other] == c.entries[other]
  {
    DistinctCard(c.recency);
    assert c.entries.Keys == set x | x in c.recency;
  }

  /** `put` on a stored domain cleans it, then appends; on a new domain it stores exactly the records given. */
  lemma PutStores(c: Lru, domain: string, rrs: seq<Record>, now: nat)
    ensures LruPut(c, domain, rrs, now).entries[domain]
      == (if domain in c.entries then Clean(c.entries[domain], now) + rrs else rrs)
  {
  }

  /**
   * Reading a domain right after `put`, at the same time, gives the records of
   * the asked type among the old and new ones that cleaning keeps, old
   * first; `None` when cleaning keeps none.
   */
  lemma PutThenGet(c: Lru, domain: string, rrs: seq<Record>, t: RecordType, now: nat)
    ensures var all := Clean(Stored(c, domain) + rrs, now);
      LruGet(LruPut(c, domain, rrs, now), domain, t, now).0 == if all == [] then None else Some(OfType(all, t))
  {
    var u := LruPut(c, domain, rrs, now);
    CleanAppend(Stored(c, domain), rrs, now);
    if domain in c.entries {
      CleanAppend(Clean(c.entries[domain], now), rrs, now);
      CleanIdempotent(c.entries[domain], now);
    } else {
      assert Stored(c, domain) + rrs == rrs;
    }
  }

  /** `get` keeps the map valid; an absent domain changes nothing. */
  lemma GetValid(c: Lru, domain: string, t: RecordType, now: nat)
    requires Valid(c)
    ensures Valid(LruGet(c, domain, t, now).1)
    ensures domain !in c.entries ==> LruGet(c, domain, t, now) == (None, c)
  {
    if domain in c.entries {
      RemoveSpec(c.recency, domain);
      DistinctAppend(Remove(c.recency, domain), domain);
    }
  }

  /**
   * What `get` answers: `None` exactly when the domain is absent or cleaning
   * keeps none of its records, in which case it is dropped; otherwise the
   * kept records of the asked type, the domain keeping just the kept ones.
   */
  lemma GetSpec(c: Lru, domain: string, t: RecordType, now: nat)
    ensures var (r, u) := LruGet(c, domain, t, now);
      (r.None? <==> Clean(Stored(c, domain), now) == [])
      && (r.Some? ==> (forall x :: x in r.value <==> x in Stored(c, domain) && x.ttl <= now && x.rtype == t)
                      && u.entries[domain] == Clean(c.entries[domain], now))
      && (domain in c.entries && r.None? ==> domain !in u.entries)
      && (forall d :: d != domain && d in c.entries ==> d in u.entries && u.entries[d] == c.entries[d])
  {
    var (r, u) := LruGet(c, domain, t, now);
    if domain in c.entries {
      CleanMembers(c.entries[domain], now);
      OfTypeMembers(Clean(c.entries[domain], now), t);
    }
  }

  /** `Inner`: the LRU map, changed in place by `put` and `get`. */
  class Store {
    var entries: map<string, seq<Record>>
    var recency: seq<string>
    const capacity: nat

    /** `Inner::with_capacity`: an empty map; the capacity is non-zero (`NonZeroUsize::new(..).unwrap()`). */
    constructor(capacity: nat)
      requires capacity > 0
      ensures View() == Lru(map[], [], capacity) && Valid(View())
    {
      entries := map[];
      recency := [];
      this.capacity := capacity;
    }

    function View(): Lru
      reads this
    {
      Lru(entries, recency, capacity)
    }

    /** `Inner::put`, at time `now`. */
    method Put(domain: string, rrs: seq<Record>, now: nat)
      requires Valid(View())
      modifies this
      ensures View() == LruPut(old(View()), domain, rrs, now)
    {
      if domain in entries {
        var vec := CleanExpired(entries[domain], now);
        entries := entries[domain := vec + rrs];
        recency := Touch(recency, domain);
      } else if |recency| >= capacity {
        entries := (entries - {recency[0]})[domain := rrs];
        recency := recency[1..] + [domain];
      } else {
        entries := entries[domain := rrs];
        recency := recency + [domain];
      }
    }

    /** `Inner::get`, at time `now`. */
    method Get(domain: string, t: RecordType, now: nat) returns (r: Option<seq<Record>>)
      modifies this
      ensures (r, View()) == LruGet(old(View()), domain, t, now)
    {
      if domain !in entries {
        return None;
      }
      var rrs := CleanExpired(entries[domain], now);
      if rrs == [] {
        entries := entries - {domain};
        recency := Remove(recency, domain);
        return None;
      }
      entries := entries[domain := rrs];
      recency := Touch(recency, domain);
      var picked := SelectType(rrs, t);
      r := Some(picked);
    }
  }

  /** `clean_expired`: `retain` over the records, front to back. */
  method CleanExpired(rrs: seq<Record>, now: nat) returns (kept: seq<Record>)
    ensures kept == Clean(rrs, now)
  {
    kept := [];
    var i := 0;
    while i < |rrs|
      invariant 0 <= i <= |rrs|
      invariant kept == Clean(rrs[..i], now)
    {
      assert rrs[..i + 1][..i] == rrs[..i];
      if rrs[i].ttl <= now {
        kept := kept + [rrs[i]];
      }
      i := i + 1;
    }
    assert rrs[..i] == rrs;
  }

  /** The `filter(..).collect()` over the records of one type. */
  method SelectType(rrs: seq<Record>, t: RecordType) returns (picked: seq<Record>)
    ensures picked == OfType(rrs, t)
  {
    picked := [];
    var i := 0;
    while i < |rrs|
      invariant 0 <= i <= |rrs|
      invariant picked == OfType(rrs[..i], t)
    {
      assert rrs[..i + 1][..i] == rrs[..i];
      if rrs[i].rtype == t {
        picked := picked + [rrs[i]];
      }
      i := i + 1;
    }
    assert rrs[..i] == rrs;
  }

  /** `Cache`: the store, absent when caching is switched off. */
  class RecordCache {
    const store: Store?

    /** `Cache::with_capacity`: no store for capacity 0, else an empty one of that capacity. */
    constructor WithCapacity(capacity: nat)
      ensures (store == null <==> capacity == 0)
      ensures store != null ==> fresh(store) && store.View() == Lru(map[], [], capacity) && Valid(store.View())
    {
      if capacity == 0 {
        store := null;
      } else {
        store := new Store(capacity);
      }
    }

    /** `Cache::enabled`. */
    predicate Enabled()
    {
      store != null
    }

    /** `Cache::access`: `Ok(None)` when caching is off, otherwise the store. */
    method Access() returns (r: Result<Option<Store>>)
      ensures r.Ok?
      ensures r.value.None? <==> !Enabled()
      ensures r.value.Some? ==> r.value.value == store
    {
      if store == null {
        return Ok(None);
      }
      r := Ok(Some(store));
    }
  }

  /** `with_index`: a predicate that also receives how many times it was called before. */
  class WithIndex<T> {
    var calls: nat
    const f: (nat, T) -> bool

    constructor(f: (nat, T) -> bool)
      ensures this.f == f && calls == 0
    {
      this.f := f;
      calls := 0;
    }

    /** One call: `f` sees the current count, which then goes up by one. */
    method Call(item: T) returns (b: bool)
      modifies this
      ensures b == f(old(calls), item) && calls == old(calls) + 1
    {
      b := f(calls, item);
      calls := calls + 1;
    }
  }

  /** Calling the predicate on each item in turn: the k-th call sees index k. */
  method CallEach<T>(p: WithIndex<T>, items: seq<T>) returns (bs: seq<bool>)
    requires p.calls == 0
    modifies p
    ensures |bs| == |items| && p.calls == |items|
    ensures forall k :: 0 <= k < |items| ==> bs[k] == p.f(k, items[k])
  {
    bs := [];
    var i := 0;
    while i < |items|
      invariant 0 <= i <= |items| && p.calls == i && |bs| == i
      invariant forall k :: 0 <= k < i ==> bs[k] == p.f(k, items[k])
    {
      var b := p.Call(items[i]);
      bs := bs + [b];
      i := i + 1;
    }
  }
}
