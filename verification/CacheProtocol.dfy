/** Any number of cached reads, invalidating writes and evictions, interleaved at every await.
    `births`, `since`, `moment` and `trail` are history variables: the protocol never branches on them. */
module CacheProtocol {
  import opened Options
  import opened CacheStore

  /** What the wrapped repository method does after one query of the database: return, or return the
      result of another cached read in its own namespace. */
  datatype Plan<+V> = Direct(value: Option<V>) | Nested(suffix: string)

  type Body<!D, !V> = (string, string, D) -> Plan<V>

  /** A cached read that has fetched its version when `since` was the newest database state. */
  datatype Frame = Frame(ns: string, suffix: string, version: nat, since: nat)

  /** A read suspended in a nested read, and the database state its own query saw. */
  datatype Call = Call(frame: Frame, moment: nat)

  datatype Reader<+V> =
    | Versioned(outer: seq<Call>, frame: Frame)
    | Missed(outer: seq<Call>, frame: Frame)
    | Calling(outer: seq<Call>, ns: string, suffix: string)
    | Holding(outer: seq<Call>, frame: Frame, value: Option<V>, trail: seq<nat>)
    | Done(frame: Frame, value: Option<V>, trail: seq<nat>)

  datatype Entry<+V> = Entry(value: Option<V>, trail: seq<nat>)

  datatype Writer = Writer(moment: nat, pending: set<string>)

  /** For each namespace, the newest database state at each bump so far. */
  type Clock = map<string, seq<nat>>

  function At(births: Clock, ns: string): seq<nat> {
    if ns in births then births[ns] else []
  }

  datatype State<D, V> = State(
    history: seq<D>,
    versions: map<string, int>,
    births: Clock,
    entries: map<string, Entry<V>>,
    readers: map<nat, Reader<V>>,
    writers: map<nat, Writer>)

  datatype Action<D> =
    | Begin(r: nat, ns: string, suffix: string)
    | Nest(r: nat)
    | Lookup(r: nat)
    | Query(r: nat)
    | Put(r: nat)
    | Mutate(w: nat, namespaces: set<string>, db: D)
    | Bump(w: nat, ns: string)
    | Evict(key: string)

  // ---------- Steps ----------

  function FrameKey(fr: Frame): string {
    Key(fr.ns, fr.version, fr.suffix)
  }

  function Fetch<D, V>(s: State<D, V>, ns: string, suffix: string): Frame
    requires s.history != []
  {
    Frame(ns, suffix, VersionOf(s.versions, ns), |s.history| - 1)
  }

  /** A finished read hands its value to the read that called it, if any. */
  function Return<V>(outer: seq<Call>, fr: Frame, value: Option<V>, trail: seq<nat>): Reader<V> {
    if outer == [] then Done(fr, value, trail)
    else
      var caller := outer[|outer| - 1];
      Holding(outer[..|outer| - 1], caller.frame, value, [caller.moment] + trail)
  }

  predicate Enabled<D, V>(s: State<D, V>, a: Action<D>) {
    && s.history != []
    && match a
       case Begin(r, ns, _) => r !in s.readers && PlainName(ns)
       case Nest(r) => r in s.readers && s.readers[r].Calling?
       case Lookup(r) => r in s.readers && s.readers[r].Versioned?
       case Query(r) => r in s.readers && s.readers[r].Missed?
       case Put(r) => r in s.readers && s.readers[r].Holding?
       case Mutate(w, _, _) => w !in s.writers
       case Bump(w, ns) => w in s.writers && ns in s.writers[w].pending
       case Evict(_) => true
  }

  function Apply<D, V>(body: Body<D, V>, s: State<D, V>, a: Action<D>): State<D, V>
    requires Enabled(s, a)
  {
    var now := |s.history| - 1;
    match a
    case Begin(r, ns, suffix) => s.(readers := s.readers[r := Versioned([], Fetch(s, ns, suffix))])
    case Nest(r) =>
      var rd := s.readers[r];
      s.(readers := s.readers[r := Versioned(rd.outer, Fetch(s, rd.ns, rd.suffix))])
    case Lookup(r) =>
      var rd := s.readers[r];
      var key := FrameKey(rd.frame);
      var next := if key in s.entries && s.entries[key].value.Some?
                  then Return(rd.outer, rd.frame, s.entries[key].value, s.entries[key].trail)
                  else Missed(rd.outer, rd.frame);
      s.(readers := s.readers[r := next])
    case Query(r) =>
      var rd := s.readers[r];
      var next := match body(rd.frame.ns, rd.frame.suffix, s.history[now])
                  case Direct(value) => Holding(rd.outer, rd.frame, value, [now])
                  case Nested(suffix) => Calling(rd.outer + [Call(rd.frame, now)], rd.frame.ns, suffix);
      s.(readers := s.readers[r := next])
    case Put(r) =>
      var rd := s.readers[r];
      s.(entries := s.entries[FrameKey(rd.frame) := Entry(rd.value, rd.trail)],
         readers := s.readers[r := Return(rd.outer, rd.frame, rd.value, rd.trail)])
    case Mutate(w, namespaces, db) =>
      s.(history := s.history + [db], writers := s.writers[w := Writer(|s.history|, namespaces)])
    case Bump(w, ns) =>
      s.(versions := Bumped(s.versions, ns),
         births := s.births[ns := At(s.births, ns) + [now]],
         writers := s.writers[w := s.writers[w].(pending := s.writers[w].pending - {ns})])
    case Evict(key) => s.(entries := s.entries - {key})
  }

  ghost predicate Initial<D, V>(s: State<D, V>) {
    && |s.history| == 1
    && s.versions == map[] && s.births == map[] && s.entries == map[] && s.readers == map[] && s.writers == map[]
  }

  ghost predicate IsRun<D, V>(body: Body<D, V>, ss: seq<State<D, V>>, acts: seq<Action<D>>) {
    && |ss| == |acts| + 1
    && Initial(ss[0])
    && forall i {:trigger acts[i]} | 0 <= i < |acts| ::
         Enabled(ss[i], acts[i]) && ss[i + 1] == Apply(body, ss[i], acts[i])
  }

  // ---------- What a value means ----------

  predicate AllAtLeast(trail: seq<nat>, lo: nat) {
    forall i | 0 <= i < |trail| :: trail[i] >= lo
  }

  /** `value` is what the key's method computes when its successive queries see the database states
      history[trail[0]], history[trail[1]], ... */
  ghost predicate Derives<D, V>(body: Body<D, V>, history: seq<D>, ns: string, suffix: string, value: Option<V>,
                                trail: seq<nat>)
    decreases |trail|
  {
    && trail != []
    && trail[0] < |history|
    && match body(ns, suffix, history[trail[0]])
       case Direct(v) => |trail| == 1 && v == value
       case Nested(inner) => Derives(body, history, ns, inner, value, trail[1..])
  }

  lemma {:induction false} DerivesLater<D, V>(body: Body<D, V>, h: seq<D>, h': seq<D>, ns: string, sx: string,
                                              value: Option<V>, trail: seq<nat>)
    requires h <= h' && Derives(body, h, ns, sx, value, trail)
    ensures Derives(body, h', ns, sx, value, trail)
    decreases |trail|
  {
    match body(ns, sx, h[trail[0]])
    case Direct(v) =>
    case Nested(inner) => DerivesLater(body, h, h', ns, inner, value, trail[1..]);
  }

  // ---------- Invariant ----------

  /** The newest database state when `version` became current. */
  function Born(bs: seq<nat>, version: nat): nat {
    if 2 <= version < |bs| + 2 then bs[version - 2] else 0
  }

  predicate Ascending(bs: seq<nat>) {
    forall i, j | 0 <= i <= j < |bs| :: bs[i] <= bs[j]
  }

  lemma BornMonotone(bs: seq<nat>, bs': seq<nat>, v: nat, v': nat)
    requires bs <= bs' && Ascending(bs') && 1 <= v <= v' <= |bs'| + 1 && v <= |bs| + 1
    ensures Born(bs, v) <= Born(bs', v')
  {
  }

  ghost predicate FrameOk(now: nat, births: Clock, fr: Frame) {
    && PlainName(fr.ns)
    && 1 <= fr.version <= |At(births, fr.ns)| + 1
    && Born(At(births, fr.ns), fr.version) <= fr.since <= now
  }

  /** The suspended reads above a read of (ns, suffix) that runs under `version`, begun at `since`. */
  ghost predicate OuterOk<D, V>(body: Body<D, V>, h: seq<D>, births: Clock, outer: seq<Call>, ns: string,
                                suffix: string, version: nat, since: nat)
    decreases |outer|
  {
    outer != [] ==>
      && h != []
      && var c := outer[|outer| - 1];
         && FrameOk(|h| - 1, births, c.frame)
         && c.frame.ns == ns && c.frame.version <= version && c.frame.since <= c.moment <= since < |h|
         && body(ns, c.frame.suffix, h[c.moment]) == Nested(suffix)
         && OuterOk(body, h, births, outer[..|outer| - 1], ns, c.frame.suffix, c.frame.version, c.frame.since)
  }

  ghost predicate ValueOk<D, V>(body: Body<D, V>, h: seq<D>, births: Clock, fr: Frame, value: Option<V>,
                                trail: seq<nat>)
    requires h != []
  {
    && FrameOk(|h| - 1, births, fr)
    && Derives(body, h, fr.ns, fr.suffix, value, trail)
    && AllAtLeast(trail, Born(At(births, fr.ns), fr.version))
    && (value.None? ==> AllAtLeast(trail, fr.since))
  }

  ghost predicate ReaderOk<D, V>(body: Body<D, V>, h: seq<D>, births: Clock, rd: Reader<V>)
    requires h != []
  {
    match rd
    case Versioned(outer, fr) =>
      FrameOk(|h| - 1, births, fr) && OuterOk(body, h, births, outer, fr.ns, fr.suffix, fr.version, fr.since)
    case Missed(outer, fr) =>
      FrameOk(|h| - 1, births, fr) && OuterOk(body, h, births, outer, fr.ns, fr.suffix, fr.version, fr.since)
    case Calling(outer, ns, suffix) =>
      outer != [] && PlainName(ns) && OuterOk(body, h, births, outer, ns, suffix, |At(births, ns)| + 1, |h| - 1)
    case Holding(outer, fr, value, trail) =>
      && ValueOk(body, h, births, fr, value, trail)
      && OuterOk(body, h, births, outer, fr.ns, fr.suffix, fr.version, fr.since)
    case Done(fr, value, trail) => ValueOk(body, h, births, fr, value, trail)
  }

  /** One namespace: its counter is its number of bumps, which came in order and within the history. */
  ghost predicate VersionOk(versions: map<string, int>, births: Clock, moments: nat, ns: string) {
    && VersionOf(versions, ns) == |At(births, ns)| + 1
    && (ns in versions ==> versions[ns] >= 1)
    && Ascending(At(births, ns))
    && forall i | 0 <= i < |At(births, ns)| :: At(births, ns)[i] < moments
  }

  ghost predicate VersionsOk<D, V>(s: State<D, V>) {
    forall ns {:trigger VersionOf(s.versions, ns)} {:trigger At(s.births, ns)}
              {:trigger VersionOk(s.versions, s.births, |s.history|, ns)} ::
      VersionOk(s.versions, s.births, |s.history|, ns)
  }

  ghost predicate EntryOk<D, V>(body: Body<D, V>, s: State<D, V>, ns: string, v: nat, sx: string)
    requires Key(ns, v, sx) in s.entries
  {
    var e := s.entries[Key(ns, v, sx)];
    && 1 <= v <= |At(s.births, ns)| + 1
    && Derives(body, s.history, ns, sx, e.value, e.trail)
    && AllAtLeast(e.trail, Born(At(s.births, ns), v))
  }

  ghost predicate EntriesOk<D, V>(body: Body<D, V>, s: State<D, V>) {
    forall ns, v: nat, sx | PlainName(ns) && Key(ns, v, sx) in s.entries :: EntryOk(body, s, ns, v, sx)
  }

  ghost predicate Inv<D, V>(body: Body<D, V>, s: State<D, V>) {
    && s.history != []
    && VersionsOk(s)
    && EntriesOk(body, s)
    && (forall r | r in s.readers :: ReaderOk(body, s.history, s.births, s.readers[r]))
    && (forall w | w in s.writers :: s.writers[w].moment < |s.history|)
  }

  /** History and births only ever grow. */
  ghost predicate Grows<D>(h: seq<D>, births: Clock, h': seq<D>, births': Clock) {
    h <= h' && forall ns :: At(births, ns) <= At(births', ns)
  }

  lemma {:induction false} OuterStable<D, V>(body: Body<D, V>, h: seq<D>, births: Clock, h': seq<D>, births': Clock,
                                            outer: seq<Call>, ns: string, sx: string, v: nat, v': nat, since: nat,
                                            since': nat)
    requires Grows(h, births, h', births') && OuterOk(body, h, births, outer, ns, sx, v, since)
    requires v <= v' && since <= since' < |h'|
    ensures OuterOk(body, h', births', outer, ns, sx, v', since')
    decreases |outer|
  {
    if outer != [] {
      var c := outer[|outer| - 1];
      OuterStable(body, h, births, h', births', outer[..|outer| - 1], ns, c.frame.suffix,
                  c.frame.version, c.frame.version, c.frame.since, c.frame.since);
    }
  }

  lemma ReaderStable<D, V>(body: Body<D, V>, h: seq<D>, births: Clock, h': seq<D>, births': Clock, rd: Reader<V>)
    requires h != [] && Grows(h, births, h', births') && ReaderOk(body, h, births, rd)
    ensures ReaderOk(body, h', births', rd)
  {
    match rd
    case Versioned(outer, fr) =>
      OuterStable(body, h, births, h', births', outer, fr.ns, fr.suffix, fr.version, fr.version, fr.since, fr.since);
    case Missed(outer, fr) =>
      OuterStable(body, h, births, h', births', outer, fr.ns, fr.suffix, fr.version, fr.version, fr.since, fr.since);
    case Calling(outer, ns, sx) =>
      OuterStable(body, h, births, h', births', outer, ns, sx, |At(births, ns)| + 1,
                  |At(births', ns)| + 1, |h| - 1, |h'| - 1);
    case Holding(outer, fr, value, trail) =>
      DerivesLater(body, h, h', fr.ns, fr.suffix, value, trail);
      OuterStable(body, h, births, h', births', outer, fr.ns, fr.suffix, fr.version, fr.version, fr.since, fr.since);
    case Done(fr, value, trail) => DerivesLater(body, h, h', fr.ns, fr.suffix, value, trail);
  }

  /** Handing a good value to the calling read gives that read a good value. */
  lemma ReturnOk<D, V>(body: Body<D, V>, h: seq<D>, births: Clock, outer: seq<Call>, fr: Frame, value: Option<V>,
                       trail: seq<nat>)
    requires h != [] && ValueOk(body, h, births, fr, value, trail)
    requires OuterOk(body, h, births, outer, fr.ns, fr.suffix, fr.version, fr.since)
    requires Ascending(At(births, fr.ns))
    ensures ReaderOk(body, h, births, Return(outer, fr, value, trail))
  {
    if outer != [] {
      var c := outer[|outer| - 1];
      BornMonotone(At(births, fr.ns), At(births, fr.ns), c.frame.version, fr.version);
      assert ([c.moment] + trail)[1..] == trail;
    }
  }

  lemma SetReader<D, V>(body: Body<D, V>, s: State<D, V>, r: nat, rd: Reader<V>)
    requires Inv(body, s) && ReaderOk(body, s.history, s.births, rd)
    ensures Inv(body, s.(readers := s.readers[r := rd]))
  {
    var s' := s.(readers := s.readers[r := rd]);
    forall ns, v: nat, sx | PlainName(ns) && Key(ns, v, sx) in s'.entries ensures EntryOk(body, s', ns, v, sx) {
      assert EntryOk(body, s, ns, v, sx);
    }
  }

  lemma FetchOk<D, V>(s: State<D, V>, ns: string, suffix: string)
    requires s.history != [] && VersionsOk(s) && PlainName(ns)
    ensures FrameOk(|s.history| - 1, s.births, Fetch(s, ns, suffix))
    ensures Fetch(s, ns, suffix).version == |At(s.births, ns)| + 1
  {
  }

  lemma LookupKeepsInv<D, V>(body: Body<D, V>, s: State<D, V>, r: nat)
    requires Inv(body, s) && Enabled(s, Lookup(r))
    ensures Inv(body, Apply(body, s, Lookup(r)))
  {
    var rd := s.readers[r];
    var fr := rd.frame;
    var key := FrameKey(fr);
    if key in s.entries && s.entries[key].value.Some? {
      assert EntryOk(body, s, fr.ns, fr.version, fr.suffix);
      ReturnOk(body, s.history, s.births, rd.outer, fr, s.entries[key].value, s.entries[key].trail);
      SetReader(body, s, r, Return(rd.outer, fr, s.entries[key].value, s.entries[key].trail));
    } else {
      SetReader(body, s, r, Missed(rd.outer, fr));
    }
  }

  lemma AnswerOk<D, V>(body: Body<D, V>, h: seq<D>, births: Clock, outer: seq<Call>, fr: Frame, value: Option<V>)
    requires h != [] && ReaderOk(body, h, births, Missed(outer, fr))
             && body(fr.ns, fr.suffix, h[|h| - 1]) == Direct(value)
    ensures ReaderOk(body, h, births, Holding(outer, fr, value, [|h| - 1]))
  {
  }

  lemma AnswerKeepsInv<D, V>(body: Body<D, V>, s: State<D, V>, r: nat, value: Option<V>)
    requires Inv(body, s) && Enabled(s, Query(r))
    requires body(s.readers[r].frame.ns, s.readers[r].frame.suffix, s.history[|s.history| - 1]) == Direct(value)
    ensures Inv(body, s.(readers :=
                         s.readers[r := Holding(s.readers[r].outer, s.readers[r].frame, value, [|s.history| - 1])]))
  {
    var rd := s.readers[r];
    assert ReaderOk(body, s.history, s.births, rd);
    AnswerOk(body, s.history, s.births, rd.outer, rd.frame, value);
    SetReader(body, s, r, Holding(rd.outer, rd.frame, value, [|s.history| - 1]));
  }

  lemma CallKeepsInv<D, V>(body: Body<D, V>, s: State<D, V>, r: nat, suffix: string)
    requires Inv(body, s) && Enabled(s, Query(r))
    requires body(s.readers[r].frame.ns, s.readers[r].frame.suffix, s.history[|s.history| - 1]) == Nested(suffix)
    ensures var rd := s.readers[r];
            Inv(body, s.(readers :=
                         s.readers[r := Calling(rd.outer + [Call(rd.frame, |s.history| - 1)], rd.frame.ns, suffix)]))
  {
    var rd := s.readers[r];
    assert ReaderOk(body, s.history, s.births, rd);
    var outer := rd.outer + [Call(rd.frame, |s.history| - 1)];
    assert outer[..|outer| - 1] == rd.outer;
    SetReader(body, s, r, Calling(outer, rd.frame.ns, suffix));
  }

  lemma QueryKeepsInv<D, V>(body: Body<D, V>, s: State<D, V>, r: nat)
    requires Inv(body, s) && Enabled(s, Query(r))
    ensures Inv(body, Apply(body, s, Query(r)))
  {
    match body(s.readers[r].frame.ns, s.readers[r].frame.suffix, s.history[|s.history| - 1])
    case Direct(value) => AnswerKeepsInv(body, s, r, value);
    case Nested(suffix) => CallKeepsInv(body, s, r, suffix);
  }

  lemma FetchKeepsInv<D, V>(body: Body<D, V>, s: State<D, V>, a: Action<D>)
    requires Inv(body, s) && Enabled(s, a) && (a.Begin? || a.Nest?)
    ensures Inv(body, Apply(body, s, a))
  {
    match a
    case Begin(r, ns, sx) =>
      FetchOk(s, ns, sx);
      SetReader(body, s, r, Versioned([], Fetch(s, ns, sx)));
    case Nest(r) =>
      var rd := s.readers[r];
      FetchOk(s, rd.ns, rd.suffix);
      SetReader(body, s, r, Versioned(rd.outer, Fetch(s, rd.ns, rd.suffix)));
  }

  /** Storing a good value under the version its read began with. */
  lemma SetEntry<D, V>(body: Body<D, V>, s: State<D, V>, fr: Frame, value: Option<V>, trail: seq<nat>)
    requires Inv(body, s) && ValueOk(body, s.history, s.births, fr, value, trail)
    ensures Inv(body, s.(entries := s.entries[FrameKey(fr) := Entry(value, trail)]))
  {
    var s' := s.(entries := s.entries[FrameKey(fr) := Entry(value, trail)]);
    forall ns, v: nat, sx | PlainName(ns) && Key(ns, v, sx) in s'.entries ensures EntryOk(body, s', ns, v, sx) {
      if Key(ns, v, sx) == FrameKey(fr) {
        KeyInjective(ns, v, sx, fr.ns, fr.version, fr.suffix);
      } else {
        assert EntryOk(body, s, ns, v, sx);
      }
    }
  }

  lemma PutKeepsInv<D, V>(body: Body<D, V>, s: State<D, V>, r: nat)
    requires Inv(body, s) && Enabled(s, Put(r))
    ensures Inv(body, Apply(body, s, Put(r)))
  {
    var rd := s.readers[r];
    assert ReaderOk(body, s.history, s.births, rd);
    ReturnOk(body, s.history, s.births, rd.outer, rd.frame, rd.value, rd.trail);
    SetReader(body, s, r, Return(rd.outer, rd.frame, rd.value, rd.trail));
    SetEntry(body, s.(readers := s.readers[r := Return(rd.outer, rd.frame, rd.value, rd.trail)]),
             rd.frame, rd.value, rd.trail);
  }

  /** Entries and readers stay good while the history and the births grow. */
  lemma GrowthKeepsInv<D, V>(body: Body<D, V>, s: State<D, V>, s': State<D, V>)
    requires Inv(body, s) && Grows(s.history, s.births, s'.history, s'.births) && VersionsOk(s')
    requires s'.entries == s.entries && s'.readers == s.readers
    requires forall w | w in s'.writers :: s'.writers[w].moment < |s'.history|
    ensures Inv(body, s')
  {
    forall r | r in s'.readers ensures ReaderOk(body, s'.history, s'.births, s'.readers[r]) {
      ReaderStable(body, s.history, s.births, s'.history, s'.births, s.readers[r]);
    }
    forall ns, v: nat, sx | PlainName(ns) && Key(ns, v, sx) in s'.entries ensures EntryOk(body, s', ns, v, sx) {
      assert EntryOk(body, s, ns, v, sx);
      var e := s.entries[Key(ns, v, sx)];
      DerivesLater(body, s.history, s'.history, ns, sx, e.value, e.trail);
      BornMonotone(At(s.births, ns), At(s'.births, ns), v, v);
    }
  }

  lemma BumpedVersionOk(versions: map<string, int>, births: Clock, moments: nat, bumped: string, ns: string)
    requires moments > 0 && VersionOk(versions, births, moments, ns)
    ensures VersionOk(Bumped(versions, bumped), births[bumped := At(births, bumped) + [moments - 1]], moments, ns)
  {
  }

  lemma BumpKeepsVersions<D, V>(body: Body<D, V>, s: State<D, V>, w: nat, bumped: string)
    requires VersionsOk(s) && Enabled(s, Bump(w, bumped))
    ensures VersionsOk(Apply(body, s, Bump(w, bumped)))
  {
    var s' := Apply(body, s, Bump(w, bumped));
    forall ns ensures VersionOk(s'.versions, s'.births, |s'.history|, ns) {
      BumpedVersionOk(s.versions, s.births, |s.history|, bumped, ns);
    }
  }

  lemma BumpGrows<D, V>(body: Body<D, V>, s: State<D, V>, w: nat, bumped: string)
    requires Enabled(s, Bump(w, bumped))
    ensures Grows(s.history, s.births, Apply(body, s, Bump(w, bumped)).history, Apply(body, s, Bump(w, bumped)).births)
  {
  }

  lemma MutateKeepsVersions<D, V>(body: Body<D, V>, s: State<D, V>, w: nat, namespaces: set<string>, db: D)
    requires VersionsOk(s) && Enabled(s, Mutate(w, namespaces, db))
    ensures VersionsOk(Apply(body, s, Mutate(w, namespaces, db)))
    ensures Grows(s.history, s.births, Apply(body, s, Mutate(w, namespaces, db)).history,
                  Apply(body, s, Mutate(w, namespaces, db)).births)
  {
    var s' := Apply(body, s, Mutate(w, namespaces, db));
    forall ns ensures VersionOk(s'.versions, s'.births, |s'.history|, ns) {
      assert At(s.births, ns) == At(s'.births, ns);
    }
  }

  lemma EvictKeepsInv<D, V>(body: Body<D, V>, s: State<D, V>, key: string)
    requires Inv(body, s) && Enabled(s, Evict(key))
    ensures Inv(body, Apply(body, s, Evict(key)))
  {
    var s' := Apply(body, s, Evict(key));
    forall ns, v: nat, sx | PlainName(ns) && Key(ns, v, sx) in s'.entries ensures EntryOk(body, s', ns, v, sx) {
      assert EntryOk(body, s, ns, v, sx);
    }
  }

  lemma StepKeepsInv<D, V>(body: Body<D, V>, s: State<D, V>, a: Action<D>)
    requires Inv(body, s) && Enabled(s, a)
    ensures Inv(body, Apply(body, s, a))
    ensures Grows(s.history, s.births, Apply(body, s, a).history, Apply(body, s, a).births)
  {
    match a
    case Begin(_, _, _) => FetchKeepsInv(body, s, a);
    case Nest(_) => FetchKeepsInv(body, s, a);
    case Lookup(r) => LookupKeepsInv(body, s, r);
    case Query(r) => QueryKeepsInv(body, s, r);
    case Put(r) => PutKeepsInv(body, s, r);
    case Mutate(w, namespaces, db) =>
      MutateKeepsVersions(body, s, w, namespaces, db);
      GrowthKeepsInv(body, s, Apply(body, s, a));
    case Bump(w, ns) =>
      BumpKeepsVersions(body, s, w, ns);
      BumpGrows(body, s, w, ns);
      GrowthKeepsInv(body, s, Apply(body, s, a));
    case Evict(key) => EvictKeepsInv(body, s, key);
  }
}
