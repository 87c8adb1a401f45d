/** The merging of market maps in network/slinky_genesis.go. */
module MarketMaps {

  /** rest stands for the fields of a provider configuration that merging does not look at. */
  datatype Provider = Provider(name: string, offChainTicker: string, rest: string)

  datatype Market = Market(ticker: string, providers: seq<Provider>)

  type MarketMap = map<string, Market>

  /** providerConfigToKey: the two texts without a separator. */
  function ProviderKey(p: Provider): string {
    p.name + p.offChainTicker
  }

  function KeysOf(ps: seq<Provider>): set<string> {
    set p | p in ps :: ProviderKey(p)
  }

  // ---------- merging, on values ----------

  /** The providers whose key is not in seen, in order. */
  function Unseen(ps: seq<Provider>, seen: set<string>): seq<Provider> {
    if ps == [] then []
    else
      var n := |ps| - 1;
      Unseen(ps[..n], seen) + if ProviderKey(ps[n]) in seen then [] else [ps[n]]
  }

  function MergeMarket(a: Market, b: Market): Market {
    a.(providers := a.providers + Unseen(b.providers, KeysOf(a.providers)))
  }

  function MergeName(a: MarketMap, b: MarketMap, name: string): Market
    requires name in a || name in b
  {
    if name !in a then b[name] else if name !in b then a[name] else MergeMarket(a[name], b[name])
  }

  function Merge(a: MarketMap, b: MarketMap): MarketMap {
    map name | name in a.Keys + b.Keys :: MergeName(a, b, name)
  }

  // ---------- provider lists ----------

  lemma {:induction false} UnseenAppend(a: seq<Provider>, b: seq<Provider>, seen: set<string>)
    ensures Unseen(a + b, seen) == Unseen(a, seen) + Unseen(b, seen)
    decreases |b|
  {
    if b == [] {
      assert a + b == a;
    } else {
      UnseenAppend(a, b[..|b| - 1], seen);
      assert (a + b)[..|a + b| - 1] == a + b[..|b| - 1];
    }
  }

  lemma {:induction false} UnseenTwice(ps: seq<Provider>, seen: set<string>, more: set<string>)
    ensures Unseen(Unseen(ps, more), seen) == Unseen(ps, seen + more)
    decreases |ps|
  {
    if ps == [] {
    } else {
      var n := |ps| - 1;
      UnseenTwice(ps[..n], seen, more);
      UnseenAppend(Unseen(ps[..n], more), if ProviderKey(ps[n]) in more then [] else [ps[n]], seen);
      assert [ps[n]][..0] == [];
    }
  }

  lemma {:induction false} UnseenMembers(ps: seq<Provider>, seen: set<string>, p: Provider)
    ensures p in Unseen(ps, seen) <==> p in ps && ProviderKey(p) !in seen
    decreases |ps|
  {
    if ps == [] {
    } else {
      var n := |ps| - 1;
      UnseenMembers(ps[..n], seen, p);
      assert ps == ps[..n] + [ps[n]];
    }
  }

  lemma KeysAppend(a: seq<Provider>, b: seq<Provider>)
    ensures KeysOf(a + b) == KeysOf(a) + KeysOf(b)
  {
    forall k
      ensures k in KeysOf(a + b) <==> k in KeysOf(a) || k in KeysOf(b)
    {
      if k in KeysOf(a) { var p :| p in a && ProviderKey(p) == k; assert p in a + b; }
      if k in KeysOf(b) { var p :| p in b && ProviderKey(p) == k; assert p in a + b; }
    }
  }

  lemma KeysOfUnseen(ps: seq<Provider>, seen: set<string>)
    ensures KeysOf(Unseen(ps, seen)) == KeysOf(ps) - seen
  {
    forall k
      ensures k in KeysOf(Unseen(ps, seen)) <==> k in KeysOf(ps) && k !in seen
    {
      if k in KeysOf(Unseen(ps, seen)) {
        var p :| p in Unseen(ps, seen) && ProviderKey(p) == k;
        UnseenMembers(ps, seen, p);
      }
      if k in KeysOf(ps) && k !in seen {
        var p :| p in ps && ProviderKey(p) == k;
        UnseenMembers(ps, seen, p);
      }
    }
  }

  /** A merged market keeps the left ticker and the left providers first, and has the keys of both sides. */
  lemma MarketMerged(a: Market, b: Market)
    ensures var m := MergeMarket(a, b);
            && m.ticker == a.ticker && a.providers <= m.providers
            && KeysOf(m.providers) == KeysOf(a.providers) + KeysOf(b.providers)
  {
    KeysMerged(a.providers, b.providers);
  }

  lemma KeysMerged(a: seq<Provider>, b: seq<Provider>)
    ensures KeysOf(a + Unseen(b, KeysOf(a))) == KeysOf(a) + KeysOf(b)
  {
    KeysAppend(a, Unseen(b, KeysOf(a)));
    KeysOfUnseen(b, KeysOf(a));
  }

  lemma ProvidersAssociative(a: seq<Provider>, b: seq<Provider>, c: seq<Provider>)
    ensures var ab := a + Unseen(b, KeysOf(a));
            ab + Unseen(c, KeysOf(ab)) == a + Unseen(b + Unseen(c, KeysOf(b)), KeysOf(a))
  {
    KeysMerged(a, b);
    UnseenAppend(b, Unseen(c, KeysOf(b)), KeysOf(a));
    UnseenTwice(c, KeysOf(a), KeysOf(b));
  }

  lemma MarketAssociative(a: Market, b: Market, c: Market)
    ensures MergeMarket(MergeMarket(a, b), c) == MergeMarket(a, MergeMarket(b, c))
  {
    ProvidersAssociative(a.providers, b.providers, c.providers);
  }

  lemma {:induction false} AllSeen(ps: seq<Provider>, seen: set<string>)
    requires KeysOf(ps) <= seen
    ensures Unseen(ps, seen) == []
    decreases |ps|
  {
    if ps == [] {
    } else {
      var n := |ps| - 1;
      assert ps == ps[..n] + [ps[n]];
      KeysAppend(ps[..n], [ps[n]]);
      assert ProviderKey(ps[n]) in KeysOf(ps) by { assert ps[n] in ps; }
      AllSeen(ps[..n], seen);
    }
  }

  // ---------- market maps ----------

  /** Merging three maps does not depend on which two are merged first. */
  lemma MergeAssociative(a: MarketMap, b: MarketMap, c: MarketMap)
    ensures Merge(Merge(a, b), c) == Merge(a, Merge(b, c))
  {
    forall name | name in a.Keys + b.Keys + c.Keys
      ensures MergeName(Merge(a, b), c, name) == MergeName(a, Merge(b, c), name)
    {
      if name in a && name in b && name in c { MarketAssociative(a[name], b[name], c[name]); }
    }
  }

  lemma MarketMergedAgain(a: Market, b: Market)
    ensures MergeMarket(MergeMarket(a, b), b) == MergeMarket(a, b)
    ensures MergeMarket(b, b) == b
  {
    MarketMerged(a, b);
    AllSeen(b.providers, KeysOf(MergeMarket(a, b).providers));
    AllSeen(b.providers, KeysOf(b.providers));
  }

  /** Merging the same map again adds nothing. */
  lemma MergeIdempotent(a: MarketMap, b: MarketMap)
    ensures Merge(Merge(a, b), b) == Merge(a, b)
  {
    forall name | name in a.Keys + b.Keys
      ensures MergeName(Merge(a, b), b, name) == MergeName(a, b, name)
    {
      if name in b { MarketMergedAgain(if name in a then a[name] else b[name], b[name]); }
    }
  }

  /** A map merged into itself is unchanged. */
  lemma MergeWithItself(a: MarketMap)
    ensures Merge(a, a) == a
  {
    forall name | name in a
      ensures MergeName(a, a, name) == a[name]
    {
      MarketMergedAgain(a[name], a[name]);
    }
  }

  /** Every market of either map is there, with the left ticker, the left providers first and all keys. */
  lemma MergeKeeps(a: MarketMap, b: MarketMap, name: string)
    ensures name in Merge(a, b) <==> name in a || name in b
    ensures name in a ==> Merge(a, b)[name].ticker == a[name].ticker && a[name].providers <= Merge(a, b)[name].providers
    ensures name in b && name !in a ==> Merge(a, b)[name] == b[name]
    ensures name in a && name in b ==>
              KeysOf(Merge(a, b)[name].providers) == KeysOf(a[name].providers) + KeysOf(b[name].providers)
  {
    if name in a && name in b { MarketMerged(a[name], b[name]); }
  }

  /**
    A provider of the right map is lost if and only if it is none of the left ones and some left provider
    has the same text when name and off-chain ticker are written one after the other.
   */
  lemma ProviderLostIff(a: Market, b: Market, q: Provider)
    requires q in b.providers
    ensures q !in MergeMarket(a, b).providers
            <==> q !in a.providers && exists p :: p in a.providers && p.name + p.offChainTicker == q.name + q.offChainTicker
  {
    UnseenMembers(b.providers, KeysOf(a.providers), q);
    assert ProviderKey(q) in KeysOf(a.providers)
        <==> exists p :: p in a.providers && p.name + p.offChainTicker == q.name + q.offChainTicker;
  }

  /** No provider of the right map is lost if and only if none is told from a left one by its other parts only. */
  lemma NoProviderLostIff(a: Market, b: Market)
    ensures (forall q :: q in b.providers ==> q in MergeMarket(a, b).providers)
            <==> forall p, q :: p in a.providers && q in b.providers && p.name + p.offChainTicker == q.name + q.offChainTicker
                                ==> q in a.providers
  {
    forall q | q in b.providers
      ensures q !in MergeMarket(a, b).providers
              <==> q !in a.providers && exists p :: p in a.providers && p.name + p.offChainTicker == q.name + q.offChainTicker
    {
      ProviderLostIff(a, b, q);
    }
  }

  /** Among names of one length the key tells providers apart by name and off-chain ticker. */
  lemma KeysApart(p: Provider, q: Provider)
    requires |p.name| == |q.name|
    ensures ProviderKey(p) == ProviderKey(q) <==> p.name == q.name && p.offChainTicker == q.offChainTicker
  {
    assert ProviderKey(p)[..|p.name|] == p.name && ProviderKey(p)[|p.name|..] == p.offChainTicker;
    assert ProviderKey(q)[..|q.name|] == q.name && ProviderKey(q)[|q.name|..] == q.offChainTicker;
  }

  /** With no shared key the right providers follow the left ones, all of them and in their order. */
  lemma DisjointAppends(a: Market, b: Market)
    requires forall p, q :: p in a.providers && q in b.providers ==> p.name + p.offChainTicker != q.name + q.offChainTicker
    ensures MergeMarket(a, b).providers == a.providers + b.providers
  {
    forall q | q in b.providers
      ensures ProviderKey(q) !in KeysOf(a.providers)
    {
    }
    NoneSeen(b.providers, KeysOf(a.providers));
  }

  lemma {:induction false} NoneSeen(ps: seq<Provider>, seen: set<string>)
    requires forall p :: p in ps ==> ProviderKey(p) !in seen
    ensures Unseen(ps, seen) == ps
    decreases |ps|
  {
    if ps == [] {
    } else {
      var n := |ps| - 1;
      assert ps == ps[..n] + [ps[n]];
      NoneSeen(ps[..n], seen);
    }
  }

  /** Two different providers share a key, and merging their markets drops the right one. */
  lemma KeysCollide(ticker: string, rest: string)
    ensures var p, q := Provider("ab", "c", rest), Provider("a", "bc", rest);
            p != q && q !in MergeMarket(Market(ticker, [p]), Market(ticker, [q])).providers
  {
    var p, q := Provider("ab", "c", rest), Provider("a", "bc", rest);
    assert ProviderKey(p) == ProviderKey(q) by { assert "ab" + "c" == "a" + "bc"; }
    assert |p.name| != |q.name|;
    assert p in [p] && ProviderKey(q) in KeysOf([p]);
    UnseenMembers([q], KeysOf([p]), q);
  }

  // ---------- in place ----------

  /** The left map after the names in done have been visited. */
  function MergedSoFar(a: MarketMap, b: MarketMap, done: set<string>): MarketMap
    requires done <= b.Keys
  {
    map name | name in a.Keys + done :: if name in done then MergeName(a, b, name) else a[name]
  }

  lemma VisitName(a: MarketMap, b: MarketMap, done: set<string>, name: string)
    requires done <= b.Keys && name in b && name !in done
    ensures name in MergedSoFar(a, b, done) <==> name in a
    ensures name in a ==> MergedSoFar(a, b, done)[name] == a[name]
    ensures MergedSoFar(a, b, done + {name}) == MergedSoFar(a, b, done)[name := MergeName(a, b, name)]
  {
  }

  lemma VisitedAll(a: MarketMap, b: MarketMap)
    ensures MergedSoFar(a, b, {}) == a
    ensures MergedSoFar(a, b, b.Keys) == Merge(a, b)
  {
  }

  class Markets {
    var markets: MarketMap

    constructor (m: MarketMap)
      ensures markets == m
    {
      markets := m;
    }

    /** The right map is visited in any order; the result is the same. */
    method MergeMarketMaps(other: MarketMap)
      modifies this
      ensures markets == Merge(old(markets), other)
    {
      ghost var start := markets;
      ghost var done: set<string> := {};
      VisitedAll(start, other);
      var names := other.Keys;
      while names != {}
        invariant done !! names && done + names == other.Keys
        invariant markets == MergedSoFar(start, other, done)
        decreases |names|
      {
        var name :| name in names;
        VisitName(start, other, done, name);
        names := names - {name};
        done := done + {name};
        Visit(name, other[name]);
      }
      assert done == other.Keys;
    }

    method Visit(name: string, otherMarket: Market)
      modifies this
      ensures markets == old(markets)[name := if name in old(markets) then MergeMarket(old(markets)[name], otherMarket)
                                              else otherMarket]
    {
      if name !in markets {
        markets := markets[name := otherMarket];
        return;
      }
      var merged := MergeProviders(markets[name], otherMarket);
      markets := markets[name := merged];
    }
  }

  /** The two inner loops: collect the seen keys, then append what is not among them. */
  method MergeProviders(thisMarket: Market, otherMarket: Market) returns (merged: Market)
    ensures merged == MergeMarket(thisMarket, otherMarket)
  {
    var seen: set<string> := {};
    for i := 0 to |thisMarket.providers|
      invariant seen == KeysOf(thisMarket.providers[..i])
    {
      assert thisMarket.providers[..i + 1] == thisMarket.providers[..i] + [thisMarket.providers[i]];
      KeysAppend(thisMarket.providers[..i], [thisMarket.providers[i]]);
      seen := seen + {ProviderKey(thisMarket.providers[i])};
    }
    assert thisMarket.providers[..|thisMarket.providers|] == thisMarket.providers;
    merged := thisMarket;
    for i := 0 to |otherMarket.providers|
      invariant merged.ticker == thisMarket.ticker
      invariant merged.providers == thisMarket.providers + Unseen(otherMarket.providers[..i], seen)
    {
      var provider := otherMarket.providers[i];
      assert otherMarket.providers[..i + 1][..i] == otherMarket.providers[..i];
      if ProviderKey(provider) !in seen {
        merged := merged.(providers := merged.providers + [provider]);
      }
    }
    assert otherMarket.providers[..|otherMarket.providers|] == otherMarket.providers;
  }
}
