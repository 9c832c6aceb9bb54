/** Keys and version counters of the namespaced cache, and the service that owns them. */
module CacheStore {
  import opened Options
  import opened Numerals

  /** Namespaces are the constants of the cache table; none contains a colon. */
  predicate PlainName(ns: string) {
    ':' !in ns && ns != "__nsver__"
  }

  function VersionKey(ns: string): string {
    "__nsver__:" + ns
  }

  function Key(ns: string, version: nat, suffix: string): string {
    ns + ":v" + Decimal(version) + ":" + suffix
  }

  /** Text up to the first colon is determined by the whole text. */
  lemma FirstColon(a: string, b: string, x: string, y: string)
    requires ':' !in a && ':' !in b && a + ":" + x == b + ":" + y
    ensures a == b && x == y
  {
    var s, t := a + ":" + x, b + ":" + y;
    assert s[|a|] == ':' && t[|b|] == ':';
    assert forall i | 0 <= i < |a| :: s[i] == a[i] != ':';
    assert forall i | 0 <= i < |b| :: t[i] == b[i] != ':';
    assert a == s[..|a|] == t[..|b|] == b;
    assert x == s[|a| + 1..] == t[|b| + 1..] == y;
  }

  /** A key is three parts between colons, and the second has none. */
  lemma KeyParts(ns: string, v: nat, sx: string)
    ensures ':' !in "v" + Decimal(v) && Key(ns, v, sx) == ns + ":" + (("v" + Decimal(v)) + ":" + sx)
  {
    DecimalIsDigits(v);
  }

  /** No two (namespace, version, suffix) triples share a cache key, whatever the suffixes contain. */
  lemma KeyInjective(ns: string, v: nat, sx: string, ns': string, v': nat, sx': string)
    requires PlainName(ns) && PlainName(ns') && Key(ns, v, sx) == Key(ns', v', sx')
    ensures ns == ns' && v == v' && sx == sx'
  {
    var a, b := "v" + Decimal(v), "v" + Decimal(v');
    KeyParts(ns, v, sx);
    KeyParts(ns', v', sx');
    FirstColon(ns, ns', a + ":" + sx, b + ":" + sx');
    FirstColon(a, b, sx, sx');
    assert Decimal(v) == a[1..] == b[1..] == Decimal(v');
    DecimalInjective(v, v');
  }

  lemma KeyIsNotVersionKey(ns: string, v: nat, sx: string, other: string)
    requires PlainName(ns)
    ensures Key(ns, v, sx) != VersionKey(other)
  {
    if Key(ns, v, sx) == VersionKey(other) {
      var rest := "v" + Decimal(v) + ":" + sx;
      assert Key(ns, v, sx) == ns + ":" + rest;
      assert VersionKey(other) == "__nsver__" + ":" + other;
      FirstColon(ns, "__nsver__", rest, other);
    }
  }

  lemma VersionKeyInjective(ns: string, other: string)
    requires VersionKey(ns) == VersionKey(other)
    ensures ns == other
  {
    assert ns == VersionKey(ns)[10..] && other == VersionKey(other)[10..];
  }

  lemma KeysStayApart()
    ensures forall ns, v: nat, sx, other | PlainName(ns) :: Key(ns, v, sx) != VersionKey(other)
    ensures forall ns, other | VersionKey(ns) == VersionKey(other) :: ns == other
  {
    forall ns, v: nat, sx, other | PlainName(ns) ensures Key(ns, v, sx) != VersionKey(other) {
      KeyIsNotVersionKey(ns, v, sx, other);
    }
    forall ns, other | VersionKey(ns) == VersionKey(other) ensures ns == other {
      VersionKeyInjective(ns, other);
    }
  }

  /** What GET of the version counter means: absent or not positive reads as 1. */
  function VersionOf(versions: map<string, int>, ns: string): nat {
    if ns in versions && versions[ns] > 0 then versions[ns] else 1
  }

  /** MULTI / SETNX key 1 / INCR key / EXEC, one indivisible step. */
  function Bumped(versions: map<string, int>, ns: string): map<string, int> {
    var present := if ns in versions then versions else versions[ns := 1];
    present[ns := present[ns] + 1]
  }

  /** What the cache manager holds under one key; a fallback version counter lives there too. */
  datatype Slot<+V> = Item(value: V) | Null | Number(n: int)

  type Cache<V> = map<string, Slot<V>>

  /** The version a namespace reads as: Redis' counter, else whatever number the cache holds, else 1. */
  function VersionIn<V>(hasRedis: bool, nsver: map<string, int>, cache: Cache<V>, ns: string): int {
    if hasRedis then VersionOf(nsver, ns)
    else if VersionKey(ns) in cache && cache[VersionKey(ns)].Number? then cache[VersionKey(ns)].n
    else 1
  }

  /** Stored counters are positive, as bumps leave them, and nothing is stored under a version not reached yet. */
  ghost predicate Consistent<V>(hasRedis: bool, nsver: map<string, int>, cache: Cache<V>) {
    && (forall ns | ns in nsver :: nsver[ns] >= 1)
    && (forall ns | VersionKey(ns) in cache :: cache[VersionKey(ns)].Number? && cache[VersionKey(ns)].n >= 1)
    && (forall ns, v: nat, sx | PlainName(ns) && Key(ns, v, sx) in cache :: v <= VersionIn(hasRedis, nsver, cache, ns))
  }

  /** Two caches hold the same under every payload key. */
  ghost predicate SamePayloads<V>(c: Cache<V>, c': Cache<V>) {
    forall ns, v: nat, sx | PlainName(ns) ::
      (Key(ns, v, sx) in c' <==> Key(ns, v, sx) in c)
      && (Key(ns, v, sx) in c ==> c'[Key(ns, v, sx)] == c[Key(ns, v, sx)])
  }

  ghost predicate SameCounters<V>(c: Cache<V>, c': Cache<V>) {
    forall ns :: (VersionKey(ns) in c' <==> VersionKey(ns) in c)
                 && (VersionKey(ns) in c ==> c'[VersionKey(ns)] == c[VersionKey(ns)])
  }

  lemma CounterSet<V>(nsver: map<string, int>, c: Cache<V>, ns: string)
    requires Consistent(false, nsver, c)
    ensures var c' := c[VersionKey(ns) := Number(VersionIn(false, nsver, c, ns) + 1)];
            && Consistent(false, nsver, c') && SamePayloads(c, c')
            && VersionIn(false, nsver, c', ns) == VersionIn(false, nsver, c, ns) + 1
            && forall other | other != ns :: VersionIn(false, nsver, c', other) == VersionIn(false, nsver, c, other)
  {
    KeysStayApart();
  }

  lemma CounterIncremented<V>(nsver: map<string, int>, c: Cache<V>, ns: string)
    requires Consistent(true, nsver, c)
    ensures var nsver' := Bumped(nsver, ns);
            && Consistent(true, nsver', c)
            && VersionIn(true, nsver', c, ns) == VersionIn(true, nsver, c, ns) + 1
            && forall other | other != ns :: VersionIn(true, nsver', c, other) == VersionIn(true, nsver, c, other)
  {
  }

  lemma PayloadSet<V>(hasRedis: bool, nsver: map<string, int>, c: Cache<V>, ns: string, v: nat, sx: string,
                      slot: Slot<V>)
    requires Consistent(hasRedis, nsver, c) && PlainName(ns) && v <= VersionIn(hasRedis, nsver, c, ns)
    ensures Consistent(hasRedis, nsver, c[Key(ns, v, sx) := slot]) && SameCounters(c, c[Key(ns, v, sx) := slot])
  {
    KeysStayApart();
    forall ns', v': nat, sx' | PlainName(ns') && Key(ns', v', sx') == Key(ns, v, sx) ensures ns' == ns && v' == v {
      KeyInjective(ns', v', sx', ns, v, sx);
    }
  }

  lemma NothingAhead<V>(hasRedis: bool, nsver: map<string, int>, c: Cache<V>, ns: string, v: nat, sx: string)
    requires Consistent(hasRedis, nsver, c) && PlainName(ns) && v > VersionIn(hasRedis, nsver, c, ns)
    ensures Key(ns, v, sx) !in c
  {
  }

  /** How a call ends. */
  datatype Attempt<+R> = Returned(value: R) | Threw(error: string)

  /** The wrapped function: how it ends and what it leaves in the cache, where it may read and store too. */
  type Computation<!V> = Cache<V> -> (Attempt<Option<V>>, Cache<V>)

  function SlotOf<V>(value: Option<V>): Slot<V> {
    if value.Some? then Item(value.value) else Null
  }

  /** A stored null is a miss. */
  predicate ServedIn<V>(cache: Cache<V>, key: string) {
    key in cache && cache[key].Item?
  }

  /** It touches no counter and stores nothing ahead of a version, as nested cached reads do. */
  ghost predicate ReadsOnly<V(!new)>(hasRedis: bool, nsver: map<string, int>, fn: Computation<V>) {
    forall c {:trigger fn(c)} | Consistent(hasRedis, nsver, c) ::
      Consistent(hasRedis, nsver, fn(c).1) && SameCounters(c, fn(c).1)
  }

  class CacheService<V(==, !new)> {
    const hasRedis: bool
    var cache: Cache<V>
    var nsver: map<string, int>

    constructor (hasRedis: bool)
      ensures this.hasRedis == hasRedis && cache == map[] && nsver == map[] && Valid()
    {
      this.hasRedis := hasRedis;
      cache := map[];
      nsver := map[];
    }

    function Version(ns: string): int
      reads this
    {
      VersionIn(hasRedis, nsver, cache, ns)
    }

    ghost predicate Valid()
      reads this
    {
      Consistent(hasRedis, nsver, cache)
    }

    predicate Served(key: string)
      reads this
    {
      ServedIn(cache, key)
    }

    /** A missing, zero or negative counter in Redis reads as 1; the fallback returns any number it finds. */
    method GetNamespaceVersion(ns: string) returns (v: int)
      ensures hasRedis ==> v == if ns in nsver && nsver[ns] > 0 then nsver[ns] else 1
      ensures !hasRedis ==>
                v == if VersionKey(ns) in cache && cache[VersionKey(ns)].Number? then cache[VersionKey(ns)].n else 1
      ensures v == Version(ns) && (hasRedis || Valid() ==> v >= 1)
    {
      if hasRedis {
        var n := if ns in nsver then nsver[ns] else 0;
        return if n > 0 then n else 1;
      }
      v := 1;
      if VersionKey(ns) in cache && cache[VersionKey(ns)].Number? {
        v := cache[VersionKey(ns)].n;
      }
    }

    /** One call, nothing interleaved: the namespace moves on by one, every other namespace stays,
        no payload is touched, and nothing can be served under the new version. */
    method BumpNamespace(ns: string)
      requires Valid()
      modifies this
      ensures Valid()
      ensures Version(ns) == old(Version(ns)) + 1
      ensures forall other | other != ns :: Version(other) == old(Version(other))
      ensures SamePayloads(old(cache), cache)
      ensures forall sx | PlainName(ns) && Version(ns) >= 0 :: !Served(Key(ns, Version(ns), sx))
      ensures hasRedis ==> nsver == Bumped(old(nsver), ns) && cache == old(cache)
    {
      if hasRedis {
        CounterIncremented(nsver, cache, ns);
        if ns !in nsver {
          nsver := nsver[ns := 1];
        }
        nsver := nsver[ns := nsver[ns] + 1];
      } else {
        CounterSet(nsver, cache, ns);
        var current := GetNamespaceVersion(ns);
        cache := cache[VersionKey(ns) := Number(current + 1)];
      }
    }

    method BuildKey(ns: string, suffix: string) returns (key: string)
      requires Valid()
      ensures Version(ns) >= 1 && key == Key(ns, Version(ns), suffix)
    {
      var version := GetNamespaceVersion(ns);
      key := ns + ":v" + Decimal(version) + ":" + suffix;
    }

    /** `fn` is called exactly when no payload is served. What it returns, null included, is stored over
        whatever it left in the cache; if it throws, nothing is. */
    method Wrap(key: string, fn: Computation<V>) returns (r: Attempt<Option<V>>, ran: bool)
      modifies this`cache
      ensures ran <==> !old(Served(key))
      ensures !ran ==> cache == old(cache) && r == Returned(Some(cache[key].value))
      ensures ran ==> r == fn(old(cache)).0
                      && cache == if r.Returned? then fn(old(cache)).1[key := SlotOf(r.value)] else fn(old(cache)).1
    {
      if key in cache && cache[key].Item? {
        return Returned(Some(cache[key].value)), false;
      }
      var (end, left) := fn(cache);
      cache := left;
      if end.Returned? {
        cache := cache[key := SlotOf(end.value)];
      }
      return end, true;
    }

    /** The `Cacheable` wrapper: version first, then wrap. Right after a bump it always recomputes. */
    method CachedRead(ns: string, suffix: string, fn: Computation<V>) returns (r: Attempt<Option<V>>, ran: bool)
      requires Valid() && PlainName(ns) && ReadsOnly(hasRedis, nsver, fn)
      modifies this`cache
      ensures Valid() && SameCounters(old(cache), cache) && Version(ns) == old(Version(ns)) >= 1
      ensures ran <==> !old(Served(Key(ns, Version(ns), suffix)))
      ensures r == if ran then fn(old(cache)).0 else Returned(Some(old(cache)[Key(ns, Version(ns), suffix)].value))
      ensures r.Returned? && r.value.Some? ==>
                Served(Key(ns, Version(ns), suffix)) && cache[Key(ns, Version(ns), suffix)] == Item(r.value.value)
      ensures r.Threw? ==> cache == fn(old(cache)).1
    {
      var key := BuildKey(ns, suffix);
      ghost var before := cache;
      ghost var version := Version(ns);
      r, ran := Wrap(key, fn);
      if ran {
        ghost var left := fn(before).1;
        assert VersionIn(hasRedis, nsver, left, ns) == version;
        if r.Returned? {
          PayloadSet(hasRedis, nsver, left, ns, version, suffix, SlotOf(r.value));
        }
      }
    }

    /** The `InvalidateCache` wrapper: how the mutation ended is passed on; if it threw, nothing is bumped,
        else every listed namespace is. */
    method InvalidateAll<R>(mutation: Attempt<R>, namespaces: seq<string>) returns (r: Attempt<R>)
      requires Valid() && forall i | 0 <= i < |namespaces| :: PlainName(namespaces[i])
      modifies this
      ensures Valid() && r == mutation
      ensures mutation.Threw? ==> cache == old(cache) && nsver == old(nsver)
      ensures mutation.Returned? ==> forall ns | ns in namespaces :: Version(ns) > old(Version(ns))
      ensures forall ns | ns !in namespaces :: Version(ns) == old(Version(ns))
      ensures mutation.Returned? ==>
                forall ns, sx | ns in namespaces && Version(ns) >= 0 :: !Served(Key(ns, Version(ns), sx))
      ensures SamePayloads(old(cache), cache)
    {
      if mutation.Threw? {
        return mutation;
      }
      assert forall ns | ns in namespaces :: PlainName(ns);
      for i := 0 to |namespaces|
        invariant Valid() && SamePayloads(old(cache), cache)
        invariant forall ns :: Version(ns) >= old(Version(ns))
        invariant forall ns | ns in namespaces[..i] :: Version(ns) > old(Version(ns))
        invariant forall ns | ns !in namespaces[..i] :: Version(ns) == old(Version(ns))
      {
        assert namespaces[..i + 1] == namespaces[..i] + [namespaces[i]];
        BumpNamespace(namespaces[i]);
      }
      assert namespaces[..|namespaces|] == namespaces;
      forall ns, sx | ns in namespaces && Version(ns) >= 0 ensures !Served(Key(ns, Version(ns), sx)) {
        NothingAhead(hasRedis, old(nsver), old(cache), ns, Version(ns), sx);
      }
      r := mutation;
    }
  }
}
