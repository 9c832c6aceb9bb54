/** Exactly which mutations need which bumps: for every method, single-query or nested. */
module CacheBumps {
  import opened Options
  import opened CacheStore
  import opened CacheProtocol
  import opened CacheFreshness

  /** No sequence of database states from `lo` on explains the value. */
  ghost predicate Unexplained<D, V>(body: Body<D, V>, history: seq<D>, ns: string, sx: string, value: Option<V>,
                                    lo: nat)
  {
    forall trail: seq<nat> | AllAtLeast(trail, lo) :: !Derives(body, history, ns, sx, value, trail)
  }

  /** Write h has finished all its bumps, read j begins later, and what it ends with cannot be computed
      from the database states since the write. */
  ghost predicate StaleRun<D, V>(body: Body<D, V>, bumps: set<string>, ns: string, sx: string,
                                 ss: seq<State<D, V>>, acts: seq<Action<D>>, h: nat, j: nat) {
    && IsRun(body, ss, acts) && h < j && Finished(ss, acts, j, |acts|)
    && acts[h].Mutate? && acts[h].namespaces == bumps
    && acts[j].ns == ns && acts[j].suffix == sx
    && acts[h].w in ss[j].writers && ss[j].writers[acts[h].w].pending == {}
    && Unexplained(body, ss[|acts|].history, ns, sx, ss[|acts|].readers[acts[j].r].value, |ss[h].history|)
  }

  /** Such a run in which that write takes the database from d0 to d1. */
  ghost predicate StaleAfter<D(!new), V(!new)>(body: Body<D, V>, bumps: set<string>, ns: string, sx: string, d0: D,
                                               d1: D)
  {
    exists ss: seq<State<D, V>>, acts: seq<Action<D>>, h: nat, j: nat ::
      StaleRun(body, bumps, ns, sx, ss, acts, h, j) && ss[h].history == [d0] && acts[h].db == d1
  }

  lemma {:induction false} PendingShrinksByBump<D, V>(body: Body<D, V>, ss: seq<State<D, V>>, acts: seq<Action<D>>,
                                                      w: nat, ns: string, i: nat, j: nat)
    returns (t: nat)
    requires IsRun(body, ss, acts) && i <= j < |ss|
    requires w in ss[i].writers && ns in ss[i].writers[w].pending
    requires w in ss[j].writers && ns !in ss[j].writers[w].pending
    ensures i <= t < j && acts[t] == Bump(w, ns)
    decreases j - i
  {
    assert Enabled(ss[j - 1], acts[j - 1]);
    WriterStays(body, ss, acts, w, i, j - 1);
    if ns in ss[j - 1].writers[w].pending {
      t := j - 1;
    } else {
      t := PendingShrinksByBump(body, ss, acts, w, ns, i, j - 1);
    }
  }

  lemma Extend<D, V>(body: Body<D, V>, ss: seq<State<D, V>>, acts: seq<Action<D>>, a: Action<D>)
    requires IsRun(body, ss, acts) && Enabled(ss[|acts|], a)
    ensures IsRun(body, ss + [Apply(body, ss[|acts|], a)], acts + [a])
  {
    var ss', acts' := ss + [Apply(body, ss[|acts|], a)], acts + [a];
    forall i | 0 <= i < |acts'| ensures Enabled(ss'[i], acts'[i]) && ss'[i + 1] == Apply(body, ss'[i], acts'[i]) {
      if i < |acts| {
        assert Enabled(ss[i], acts[i]);
      }
    }
  }

  /** The old value still sits under version 1 and the write has `pending` left to bump. */
  ghost predicate Primed<D, V>(s: State<D, V>, ns: string, sx: string, d0: D, d1: D, v: V) {
    && s.history == [d0, d1]
    && ns !in s.versions
    && Key(ns, 1, sx) in s.entries && s.entries[Key(ns, 1, sx)].value == Some(v)
    && 1 !in s.readers
    && 0 in s.writers && ns !in s.writers[0].pending
  }

  lemma {:induction false} Drain<D, V>(body: Body<D, V>, ss: seq<State<D, V>>, acts: seq<Action<D>>, ns: string,
                                       sx: string, d0: D, d1: D, v: V)
    returns (ss': seq<State<D, V>>, acts': seq<Action<D>>)
    requires IsRun(body, ss, acts) && Primed(ss[|acts|], ns, sx, d0, d1, v)
    ensures IsRun(body, ss', acts') && ss <= ss' && acts <= acts'
    ensures Primed(ss'[|acts'|], ns, sx, d0, d1, v) && ss'[|acts'|].writers[0].pending == {}
    decreases |ss[|acts|].writers[0].pending|
  {
    var s := ss[|acts|];
    if s.writers[0].pending == {} {
      return ss, acts;
    }
    var other :| other in s.writers[0].pending;
    Extend(body, ss, acts, Bump(0, other));
    ss', acts' := Drain(body, ss + [Apply(body, s, Bump(0, other))], acts + [Bump(0, other)], ns, sx, d0, d1, v);
  }

  // ---------- Filling the cache ----------

  /** Reader 0 alone, on the first database state. */
  function Solo<D, V>(d0: D, entries: map<string, Entry<V>>, rd: Reader<V>): State<D, V> {
    State([d0], map[], map[], entries, map[0 := rd], map[])
  }

  lemma Miss<D, V>(body: Body<D, V>, ss: seq<State<D, V>>, acts: seq<Action<D>>, d0: D, outer: seq<Call>, fr: Frame)
    returns (ss': seq<State<D, V>>, acts': seq<Action<D>>)
    requires IsRun(body, ss, acts) && ss[|acts|] == Solo(d0, map[], Versioned(outer, fr))
    ensures IsRun(body, ss', acts') && ss'[|acts'|] == Solo(d0, map[], Missed(outer, fr))
  {
    Extend(body, ss, acts, Lookup(0));
    ss', acts' := ss + [Solo<D, V>(d0, map[], Missed(outer, fr))], acts + [Lookup(0)];
  }

  lemma AskDatabase<D, V>(body: Body<D, V>, ss: seq<State<D, V>>, acts: seq<Action<D>>, d0: D, outer: seq<Call>,
                          fr: Frame, value: Option<V>)
    returns (ss': seq<State<D, V>>, acts': seq<Action<D>>)
    requires IsRun(body, ss, acts) && ss[|acts|] == Solo(d0, map[], Missed(outer, fr))
    requires body(fr.ns, fr.suffix, d0) == Direct(value)
    ensures IsRun(body, ss', acts') && ss'[|acts'|] == Solo(d0, map[], Holding(outer, fr, value, [0]))
  {
    Extend(body, ss, acts, Query(0));
    ss', acts' := ss + [Solo(d0, map[], Holding(outer, fr, value, [0]))], acts + [Query(0)];
  }

  lemma AskNested<D, V>(body: Body<D, V>, ss: seq<State<D, V>>, acts: seq<Action<D>>, d0: D, outer: seq<Call>,
                        fr: Frame, inner: string)
    returns (ss': seq<State<D, V>>, acts': seq<Action<D>>)
    requires IsRun(body, ss, acts) && ss[|acts|] == Solo(d0, map[], Missed(outer, fr))
    requires body(fr.ns, fr.suffix, d0) == Nested(inner)
    ensures IsRun(body, ss', acts') && ss'[|acts'|] == Solo(d0, map[], Calling(outer + [Call(fr, 0)], fr.ns, inner))
  {
    Extend(body, ss, acts, Query(0));
    ss', acts' := ss + [Solo<D, V>(d0, map[], Calling(outer + [Call(fr, 0)], fr.ns, inner))], acts + [Query(0)];
  }

  lemma EnterNested<D, V>(body: Body<D, V>, ss: seq<State<D, V>>, acts: seq<Action<D>>, d0: D, outer: seq<Call>,
                          ns: string, inner: string)
    returns (ss': seq<State<D, V>>, acts': seq<Action<D>>)
    requires IsRun(body, ss, acts) && ss[|acts|] == Solo(d0, map[], Calling(outer, ns, inner))
    ensures IsRun(body, ss', acts') && ss'[|acts'|] == Solo(d0, map[], Versioned(outer, Frame(ns, inner, 1, 0)))
  {
    Extend(body, ss, acts, Nest(0));
    ss', acts' := ss + [Solo<D, V>(d0, map[], Versioned(outer, Frame(ns, inner, 1, 0)))], acts + [Nest(0)];
  }

  lemma PutBack<D, V>(body: Body<D, V>, ss: seq<State<D, V>>, acts: seq<Action<D>>, d0: D,
                      entries: map<string, Entry<V>>, outer: seq<Call>, fr: Frame, value: Option<V>, trail: seq<nat>)
    returns (ss': seq<State<D, V>>, acts': seq<Action<D>>, entries': map<string, Entry<V>>)
    requires IsRun(body, ss, acts) && ss[|acts|] == Solo(d0, entries, Holding(outer, fr, value, trail))
    ensures IsRun(body, ss', acts') && ss'[|acts'|] == Solo(d0, entries', Return(outer, fr, value, trail))
    ensures FrameKey(fr) in entries' && entries'[FrameKey(fr)].value == value
  {
    Extend(body, ss, acts, Put(0));
    entries' := entries[FrameKey(fr) := Entry(value, trail)];
    ss', acts' := ss + [Solo(d0, entries', Return(outer, fr, value, trail))], acts + [Put(0)];
  }

  /** Alone, a read of any nesting depth comes back to its caller and leaves its value in the cache. */
  lemma {:induction false} Serve<D, V>(body: Body<D, V>, ss: seq<State<D, V>>, acts: seq<Action<D>>, d0: D,
                                       outer: seq<Call>, ns: string, sx: string, value: Option<V>, trail: seq<nat>)
    returns (ss': seq<State<D, V>>, acts': seq<Action<D>>, entries: map<string, Entry<V>>)
    requires IsRun(body, ss, acts) && ss[|acts|] == Solo(d0, map[], Versioned(outer, Frame(ns, sx, 1, 0)))
    requires Derives(body, [d0], ns, sx, value, trail)
    ensures IsRun(body, ss', acts')
    ensures ss'[|acts'|] == Solo(d0, entries, Return(outer, Frame(ns, sx, 1, 0), value, trail))
    ensures Key(ns, 1, sx) in entries && entries[Key(ns, 1, sx)].value == value
    decreases |trail|
  {
    var fr := Frame(ns, sx, 1, 0);
    ss', acts' := Miss(body, ss, acts, d0, outer, fr);
    match body(ns, sx, d0) {
      case Direct(v) =>
        assert trail == [0];
        ss', acts' := AskDatabase(body, ss', acts', d0, outer, fr, value);
        entries := map[];
      case Nested(inner) =>
        var below := outer + [Call(fr, 0)];
        ss', acts' := AskNested(body, ss', acts', d0, outer, fr, inner);
        ss', acts' := EnterNested(body, ss', acts', d0, below, ns, inner);
        ss', acts', entries := Serve(body, ss', acts', d0, below, ns, inner, value, trail[1..]);
        assert below[..|outer|] == outer && [trail[0]] + trail[1..] == trail;
    }
    ss', acts', entries := PutBack(body, ss', acts', d0, entries, outer, fr, value, trail);
  }

  /** A read fills the cache from d0, then the write turns the database into d1. */
  lemma WarmUp<D, V>(body: Body<D, V>, bumps: set<string>, ns: string, sx: string, d0: D, d1: D, v: V, trail: seq<nat>)
    returns (ss: seq<State<D, V>>, acts: seq<Action<D>>, h: nat)
    requires PlainName(ns) && ns !in bumps && Derives(body, [d0], ns, sx, Some(v), trail)
    ensures IsRun(body, ss, acts) && |acts| == h + 1 && acts[h] == Mutate(0, bumps, d1) && ss[h].history == [d0]
    ensures Primed(ss[h + 1], ns, sx, d0, d1, v)
  {
    var s0 := State<D, V>.State([d0], map[], map[], map[], map[], map[]);
    var s1 := Solo<D, V>(d0, map[], Versioned([], Frame(ns, sx, 1, 0)));
    assert Apply(body, s0, Begin(0, ns, sx)) == s1;
    Extend(body, [s0], [], Begin(0, ns, sx));
    var entries: map<string, Entry<V>>;
    ss, acts, entries := Serve(body, [s0] + [s1], [] + [Begin(0, ns, sx)], d0, [], ns, sx, Some(v), trail);
    h := |acts|;
    Extend(body, ss, acts, Mutate(0, bumps, d1));
    ss, acts := ss + [Apply(body, ss[h], Mutate(0, bumps, d1))], acts + [Mutate(0, bumps, d1)];
    assert [d0] + [d1] == [d0, d1];
  }

  /** After the write a new read is served the old value. */
  lemma ServedOld<D, V>(body: Body<D, V>, ss: seq<State<D, V>>, acts: seq<Action<D>>, ns: string, sx: string, d0: D,
                        d1: D, v: V)
    returns (ss': seq<State<D, V>>, acts': seq<Action<D>>)
    requires PlainName(ns) && IsRun(body, ss, acts) && Primed(ss[|acts|], ns, sx, d0, d1, v)
    ensures IsRun(body, ss', acts') && ss <= ss' && acts <= acts' && |acts'| == |acts| + 2
    ensures acts'[|acts|] == Begin(1, ns, sx)
    ensures ss'[|acts'|].history == [d0, d1]
    ensures 1 in ss'[|acts'|].readers && ss'[|acts'|].readers[1].Done? && ss'[|acts'|].readers[1].value == Some(v)
  {
    Extend(body, ss, acts, Begin(1, ns, sx));
    var s1 := Apply(body, ss[|acts|], Begin(1, ns, sx));
    Extend(body, ss + [s1], acts + [Begin(1, ns, sx)], Lookup(1));
    ss', acts' := ss + [s1] + [Apply(body, s1, Lookup(1))], acts + [Begin(1, ns, sx)] + [Lookup(1)];
  }

  /** If d0 gives some value that d1 alone cannot, a write from d0 to d1 that does not bump the read's
      namespace has a run in which a read begun after the write completed still returns that value. */
  lemma StaleWithoutBump<D(!new), V(!new)>(body: Body<D, V>, bumps: set<string>, ns: string, sx: string, d0: D, d1: D,
                                           v: V, trail: seq<nat>)
    requires PlainName(ns) && ns !in bumps && Derives(body, [d0], ns, sx, Some(v), trail)
    requires Unexplained(body, [d0, d1], ns, sx, Some(v), 1)
    ensures StaleAfter(body, bumps, ns, sx, d0, d1)
  {
    var ss0, acts0, h := WarmUp(body, bumps, ns, sx, d0, d1, v, trail);
    var ss1, acts1 := Drain(body, ss0, acts0, ns, sx, d0, d1, v);
    var j := |acts1|;
    var ss, acts := ServedOld(body, ss1, acts1, ns, sx, d0, d1, v);
    assert ss[h] == ss0[h] && acts[h] == acts0[h] && ss[j] == ss1[j];
    assert StaleRun(body, bumps, ns, sx, ss, acts, h, j);
  }

  lemma FreshWhenBumped<D, V>(body: Body<D, V>, bumps: set<string>, ns: string, sx: string,
                              ss: seq<State<D, V>>, acts: seq<Action<D>>, h: nat, j: nat)
    requires ns in bumps
    ensures !StaleRun(body, bumps, ns, sx, ss, acts, h, j)
  {
    if StaleRun(body, bumps, ns, sx, ss, acts, h, j) {
      assert Enabled(ss[h], acts[h]);
      var t := PendingShrinksByBump(body, ss, acts, acts[h].w, ns, h + 1, j);
      ReadAfterBumpIsFresh(body, ss, acts, h, t, j, |acts|);
    }
  }

  /** For any cached method, nested or not, whose value a write can change: in every run every read begun
      after the write completed is fresh, exactly when the write lists the read's namespace. */
  lemma FreshIffBumped<D(!new), V(!new)>(body: Body<D, V>, bumps: set<string>, ns: string, sx: string, d0: D, d1: D,
                                         v: V, trail: seq<nat>)
    requires PlainName(ns) && Derives(body, [d0], ns, sx, Some(v), trail)
    requires Unexplained(body, [d0, d1], ns, sx, Some(v), 1)
    ensures ns in bumps <==>
              !exists ss: seq<State<D, V>>, acts: seq<Action<D>>, h: nat, j: nat ::
                StaleRun(body, bumps, ns, sx, ss, acts, h, j)
  {
    if ns !in bumps {
      StaleWithoutBump(body, bumps, ns, sx, d0, d1, v, trail);
    } else {
      forall ss: seq<State<D, V>>, acts: seq<Action<D>>, h: nat, j: nat
        ensures !StaleRun(body, bumps, ns, sx, ss, acts, h, j)
      {
        FreshWhenBumped(body, bumps, ns, sx, ss, acts, h, j);
      }
    }
  }
}
