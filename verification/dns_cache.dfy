/**
 The bounded reverse-DNS cache of ping: a memo table in front of a deterministic resolver.
 */
module DnsCache {
  import opened Basics

  const CACHE_LIMIT := 1000

  type Address = string
  type Resolver = Address -> Option<string>

  /** What an uncached lookup would show: the name, or the address itself when there is none. */
  function Uncached(resolve: Resolver, ip: Address): string {
    match resolve(ip)
    case Some(name) => name
    case None => ip
  }

  /** A name is shown when there is one, the address itself when there is none, and nothing else. */
  lemma ShownNameIff(resolve: Resolver, ip: Address, shown: string)
    ensures shown == Uncached(resolve, ip) <==> resolve(ip) == Some(shown) || (resolve(ip) == None && shown == ip)
  {
  }

  function Distinct(queries: seq<Address>): set<Address> {
    set q | q in queries
  }

  /** How often an address was asked for, or resolved. */
  function Times(s: seq<Address>, ip: Address): nat {
    multiset(s)[ip]
  }

  /** Every cached answer is the resolver's own. */
  ghost predicate Faithful(resolve: Resolver, cached: map<Address, string>) {
    forall ip | ip in cached :: cached[ip] == Uncached(resolve, ip)
  }

  /**
   A cached address was resolved once; any other was resolved each time it was asked for, and
   exists only because the cache was already full.
   */
  ghost predicate Accounted(keys: set<Address>, queries: seq<Address>, calls: seq<Address>) {
    && |keys| <= CACHE_LIMIT
    && keys <= Distinct(queries)
    && (|keys| < CACHE_LIMIT ==> keys == Distinct(queries))
    && forall ip :: Times(calls, ip) == if ip in keys then 1 else Times(queries, ip)
  }

  lemma HitKeepsAccount(keys: set<Address>, queries: seq<Address>, calls: seq<Address>, ip: Address)
    requires Accounted(keys, queries, calls) && ip in keys
    ensures Accounted(keys, queries + [ip], calls)
  {
    assert ip in queries;
    forall q ensures Times(calls, q) == if q in keys then 1 else Times(queries + [ip], q) {
      assert Times(queries + [ip], q) == Times(queries, q) + multiset{ip}[q];
    }
    assert Distinct(queries + [ip]) == Distinct(queries);
  }

  lemma MissKeepsAccount(keys: set<Address>, queries: seq<Address>, calls: seq<Address>, ip: Address)
    requires Accounted(keys, queries, calls) && ip !in keys
    ensures Accounted(if |keys| < CACHE_LIMIT then keys + {ip} else keys, queries + [ip], calls + [ip])
  {
    var after := if |keys| < CACHE_LIMIT then keys + {ip} else keys;
    if |keys| < CACHE_LIMIT {
      assert ip !in queries;
      assert Times(queries, ip) == 0;
    }
    forall q ensures Times(calls + [ip], q) == if q in after then 1 else Times(queries + [ip], q) {
      assert Times(queries + [ip], q) == Times(queries, q) + multiset{ip}[q];
      assert Times(calls + [ip], q) == Times(calls, q) + multiset{ip}[q];
    }
    assert Distinct(queries + [ip]) == Distinct(queries) + {ip};
  }

  /**
   As long as at most 1000 distinct addresses were asked for, all of them are cached and each was
   resolved exactly once.
   */
  lemma ResolvedOnceEach(keys: set<Address>, queries: seq<Address>, calls: seq<Address>)
    requires Accounted(keys, queries, calls) && |Distinct(queries)| <= CACHE_LIMIT
    ensures keys == Distinct(queries)
    ensures forall ip :: Times(calls, ip) == if ip in queries then 1 else 0
  {
    if keys != Distinct(queries) {
      SmallerSubset(keys, Distinct(queries));
    }
    forall ip ensures Times(calls, ip) == if ip in queries then 1 else 0 {
      assert ip in keys <==> ip in queries;
      assert ip !in queries ==> Times(queries, ip) == 0;
    }
  }

  lemma SmallerSubset(a: set<Address>, b: set<Address>)
    requires a < b
    ensures |a| < |b|
  {
    assert |b - a| > 0 by {
      var x :| x in b && x !in a;
      assert x in b - a;
    }
    assert |b| == |a| + |b - a|;
  }

  /** The cache with the history that explains it: every query, and every call to the resolver. */
  datatype Memo = Memo(cached: map<Address, string>, queries: seq<Address>, calls: seq<Address>)
  {
    ghost predicate Valid(resolve: Resolver) {
      Faithful(resolve, cached) && Accounted(cached.Keys, queries, calls)
    }

    function Ask(resolve: Resolver, ip: Address): Memo {
      var asked := queries + [ip];
      if ip in cached then
        Memo(cached, asked, calls)
      else if |cached| < CACHE_LIMIT then
        Memo(cached[ip := Uncached(resolve, ip)], asked, calls + [ip])
      else
        Memo(cached, asked, calls + [ip])
    }
  }

  function AskAll(resolve: Resolver, ips: seq<Address>): Memo {
    if ips == [] then Memo(map[], [], []) else AskAll(resolve, ips[..|ips| - 1]).Ask(resolve, ips[|ips| - 1])
  }

  lemma AskKeepsValid(resolve: Resolver, memo: Memo, ip: Address)
    requires memo.Valid(resolve)
    ensures memo.Ask(resolve, ip).Valid(resolve)
  {
    if ip in memo.cached {
      HitKeepsAccount(memo.cached.Keys, memo.queries, memo.calls, ip);
    } else {
      MissKeepsAccount(memo.cached.Keys, memo.queries, memo.calls, ip);
      assert memo.cached[ip := Uncached(resolve, ip)].Keys == memo.cached.Keys + {ip};
      assert |memo.cached| == |memo.cached.Keys|;
    }
  }

  lemma {:induction false} AskAllQueries(resolve: Resolver, ips: seq<Address>)
    ensures AskAll(resolve, ips).queries == ips
  {
    if ips != [] {
      AskAllQueries(resolve, ips[..|ips| - 1]);
      assert ips == ips[..|ips| - 1] + [ips[|ips| - 1]];
    }
  }

  lemma {:induction false} AskAllValid(resolve: Resolver, ips: seq<Address>)
    ensures AskAll(resolve, ips).Valid(resolve)
  {
    if ips != [] {
      AskAllValid(resolve, ips[..|ips| - 1]);
      AskKeepsValid(resolve, AskAll(resolve, ips[..|ips| - 1]), ips[|ips| - 1]);
    }
  }

  /** The next lookup: a hit is the resolver's own answer. */
  lemma AskNext(resolve: Resolver, ips: seq<Address>, i: nat)
    requires i < |ips|
    ensures AskAll(resolve, ips[..i + 1]) == AskAll(resolve, ips[..i]).Ask(resolve, ips[i])
    ensures var before := AskAll(resolve, ips[..i]).cached;
      ips[i] in before ==> before[ips[i]] == Uncached(resolve, ips[i])
  {
    assert ips[..i + 1][..i] == ips[..i];
    AskAllValid(resolve, ips[..i]);
  }

  /**
   After any sequence of lookups the cache holds at most 1000 names, all of them the resolver's own;
   with at most 1000 distinct addresses asked for, each was resolved exactly once, and beyond that
   exactly the addresses that found the cache full are resolved anew each time.
   */
  lemma {:induction false} CacheAgrees(resolve: Resolver, ips: seq<Address>)
    ensures var memo := AskAll(resolve, ips);
      && |memo.cached| <= CACHE_LIMIT
      && Faithful(resolve, memo.cached)
      && (forall ip :: Times(memo.calls, ip) == if ip in memo.cached then 1 else Times(ips, ip))
      && (|Distinct(ips)| <= CACHE_LIMIT ==>
            && memo.cached.Keys == Distinct(ips)
            && forall ip :: Times(memo.calls, ip) == if ip in ips then 1 else 0)
  {
    AskAllValid(resolve, ips);
    AskAllQueries(resolve, ips);
    var memo := AskAll(resolve, ips);
    assert |memo.cached| == |memo.cached.Keys|;
    if |Distinct(ips)| <= CACHE_LIMIT {
      ResolvedOnceEach(memo.cached.Keys, ips, memo.calls);
    }
  }

  class Cache {
    const numericOnly: bool
    const resolve: Resolver
    var dnsCache: map<Address, string>
    ghost var queries: seq<Address>
    ghost var calls: seq<Address>

    ghost function Contents(): Memo
      reads this
    {
      Memo(dnsCache, queries, calls)
    }

    constructor (numericOnly: bool, resolve: Resolver)
      ensures Contents() == Memo(map[], [], [])
      ensures this.numericOnly == numericOnly && this.resolve == resolve
    {
      this.numericOnly, this.resolve := numericOnly, resolve;
      dnsCache, queries, calls := map[], [], [];
    }

    /** The answer is the cached one if there is one, else the resolver's. */
    method GetHostnameCached(ip: Address) returns (hostname: string)
      modifies this
      ensures numericOnly ==> hostname == ip && Contents() == old(Contents())
      ensures !numericOnly ==> hostname == if old(ip in dnsCache) then old(dnsCache)[ip] else Uncached(resolve, ip)
      ensures !numericOnly ==> Contents() == old(Contents()).Ask(resolve, ip)
    {
      if numericOnly { return ip; }
      queries := queries + [ip];
      if ip in dnsCache { return dnsCache[ip]; }
      hostname := match resolve(ip) { case Some(name) => name case None => ip };
      calls := calls + [ip];
      if |dnsCache| < CACHE_LIMIT {
        dnsCache := dnsCache[ip := hostname];
      }
    }
  }

  /** What is displayed for an address when nothing is cached. */
  function Shown(numericOnly: bool, resolve: Resolver, ip: Address): string {
    if numericOnly then ip else Uncached(resolve, ip)
  }

  /** One lookup by a cache that has answered exactly the first i queries. */
  method LookupNext(cache: Cache, ips: seq<Address>, i: nat) returns (name: string)
    requires i < |ips|
    requires cache.Contents() == if cache.numericOnly then Memo(map[], [], []) else AskAll(cache.resolve, ips[..i])
    modifies cache
    ensures cache.Contents() == if cache.numericOnly then Memo(map[], [], []) else AskAll(cache.resolve, ips[..i + 1])
    ensures name == Shown(cache.numericOnly, cache.resolve, ips[i])
  {
    AskNext(cache.resolve, ips, i);
    name := cache.GetHostnameCached(ips[i]);
  }

  /** Any sequence of lookups is answered as if there were no cache. */
  method LookupAll(numericOnly: bool, resolve: Resolver, ips: seq<Address>) returns (names: seq<string>, cached: map<Address, string>)
    ensures |names| == |ips|
    ensures forall i | 0 <= i < |ips| :: names[i] == Shown(numericOnly, resolve, ips[i])
    ensures cached == if numericOnly then map[] else AskAll(resolve, ips).cached
  {
    var cache := new Cache(numericOnly, resolve);
    names := [];
    for i := 0 to |ips|
      invariant fresh(cache) && cache.resolve == resolve && cache.numericOnly == numericOnly
      invariant cache.Contents() == if numericOnly then Memo(map[], [], []) else AskAll(resolve, ips[..i])
      invariant |names| == i
      invariant forall j | 0 <= j < i :: names[j] == Shown(numericOnly, resolve, ips[j])
    {
      var name := LookupNext(cache, ips, i);
      names := names + [name];
    }
    assert ips[..|ips|] == ips;
    cached := cache.dnsCache;
  }
}
