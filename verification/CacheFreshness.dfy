/** Freshness of cached reads over whole runs of the cache protocol. */
module CacheFreshness {
  import opened Options
  import opened CacheStore
  import opened CacheProtocol

  lemma {:induction false} RunKeepsInv<D, V>(body: Body<D, V>, ss: seq<State<D, V>>, acts: seq<Action<D>>, k: nat)
    requires IsRun(body, ss, acts) && k < |ss|
    ensures Inv(body, ss[k])
  {
    if k > 0 {
      RunKeepsInv(body, ss, acts, k - 1);
      assert Enabled(ss[k - 1], acts[k - 1]);
      StepKeepsInv(body, ss[k - 1], acts[k - 1]);
    }
  }

  lemma {:induction false} RunGrows<D, V>(body: Body<D, V>, ss: seq<State<D, V>>, acts: seq<Action<D>>, i: nat, j: nat)
    requires IsRun(body, ss, acts) && i <= j < |ss|
    ensures Grows(ss[i].history, ss[i].births, ss[j].history, ss[j].births)
    decreases j - i
  {
    if i < j {
      RunGrows(body, ss, acts, i, j - 1);
      RunKeepsInv(body, ss, acts, j - 1);
      assert Enabled(ss[j - 1], acts[j - 1]);
      StepKeepsInv(body, ss[j - 1], acts[j - 1]);
    }
  }

  /** The outermost read a reader is working for. */
  function Root<V>(rd: Reader<V>): Frame {
    if rd.Done? then rd.frame
    else if rd.outer != [] then rd.outer[0].frame
    else if rd.Calling? then Frame(rd.ns, rd.suffix, 0, 0)
    else rd.frame
  }

  lemma CallingHasCaller<D, V>(body: Body<D, V>, s: State<D, V>, r: nat)
    requires Inv(body, s) && r in s.readers && s.readers[r].Calling?
    ensures s.readers[r].outer != []
  {
    assert ReaderOk(body, s.history, s.births, s.readers[r]);
  }

  lemma StepKeepsRoot<D, V>(body: Body<D, V>, s: State<D, V>, a: Action<D>, r: nat)
    requires Enabled(s, a) && r in s.readers && (s.readers[r].Calling? ==> s.readers[r].outer != [])
    ensures r in Apply(body, s, a).readers && Root(Apply(body, s, a).readers[r]) == Root(s.readers[r])
  {
  }

  lemma {:induction false} RootStays<D, V>(body: Body<D, V>, ss: seq<State<D, V>>, acts: seq<Action<D>>, r: nat, j: nat,
                                           k: nat)
    requires IsRun(body, ss, acts) && j <= k < |ss| && r in ss[j].readers
    ensures r in ss[k].readers && Root(ss[k].readers[r]) == Root(ss[j].readers[r])
    decreases k - j
  {
    if j < k {
      RootStays(body, ss, acts, r, j, k - 1);
      RunKeepsInv(body, ss, acts, k - 1);
      var s, a := ss[k - 1], acts[k - 1];
      assert Enabled(s, a) && ss[k - 1 + 1] == Apply(body, s, a);
      if s.readers[r].Calling? {
        CallingHasCaller(body, s, r);
      }
      StepKeepsRoot(body, s, a, r);
    }
  }

  lemma {:induction false} WriterStays<D, V>(body: Body<D, V>, ss: seq<State<D, V>>, acts: seq<Action<D>>, w: nat,
                                             i: nat, j: nat)
    requires IsRun(body, ss, acts) && i <= j < |ss| && w in ss[i].writers
    ensures w in ss[j].writers && ss[j].writers[w].moment == ss[i].writers[w].moment
    decreases j - i
  {
    if i < j {
      WriterStays(body, ss, acts, w, i, j - 1);
      assert Enabled(ss[j - 1], acts[j - 1]);
    }
  }

  /** Step j begins the read that has finished by state k. */
  ghost predicate Finished<D, V>(ss: seq<State<D, V>>, acts: seq<Action<D>>, j: nat, k: nat) {
    && j < |acts| && acts[j].Begin?
    && j < k < |ss|
    && acts[j].r in ss[k].readers && ss[k].readers[acts[j].r].Done?
  }

  lemma FinishedRead<D, V>(body: Body<D, V>, ss: seq<State<D, V>>, acts: seq<Action<D>>, j: nat, k: nat)
    requires IsRun(body, ss, acts) && Finished(ss, acts, j, k)
    ensures ss[j].history != [] && ss[k].history != []
    ensures ss[k].readers[acts[j].r].frame == Fetch(ss[j], acts[j].ns, acts[j].suffix)
    ensures ReaderOk(body, ss[k].history, ss[k].births, ss[k].readers[acts[j].r])
  {
    assert Enabled(ss[j], acts[j]) && ss[j + 1] == Apply(body, ss[j], acts[j]);
    RootStays(body, ss, acts, acts[j].r, j + 1, k);
    RunKeepsInv(body, ss, acts, k);
  }

  lemma FetchedVersion<D, V>(body: Body<D, V>, ss: seq<State<D, V>>, acts: seq<Action<D>>, j: nat)
    requires IsRun(body, ss, acts) && j < |acts| && acts[j].Begin?
    ensures VersionOf(ss[j].versions, acts[j].ns) == |At(ss[j].births, acts[j].ns)| + 1
  {
    RunKeepsInv(body, ss, acts, j);
  }

  lemma BumpIsRecorded<D, V>(body: Body<D, V>, ss: seq<State<D, V>>, acts: seq<Action<D>>, h: nat, i: nat)
    requires IsRun(body, ss, acts) && h < i < |acts| && acts[h].Mutate? && acts[i].Bump? && acts[i].w == acts[h].w
    ensures var bs := At(ss[i + 1].births, acts[i].ns);
            bs != [] && bs[|bs| - 1] >= |ss[h].history|
  {
    assert Enabled(ss[h], acts[h]) && ss[h + 1] == Apply(body, ss[h], acts[h]);
    assert Enabled(ss[i], acts[i]) && ss[i + 1] == Apply(body, ss[i], acts[i]);
    WriterStays(body, ss, acts, acts[h].w, h + 1, i);
    RunGrows(body, ss, acts, h + 1, i);
  }

  lemma OrderedBirths<D, V>(body: Body<D, V>, ss: seq<State<D, V>>, acts: seq<Action<D>>, k: nat, ns: string)
    requires IsRun(body, ss, acts) && k < |ss|
    ensures Ascending(At(ss[k].births, ns))
  {
    RunKeepsInv(body, ss, acts, k);
  }

  /** The version current with some births was born no earlier than any birth before. */
  lemma BornLater(before: seq<nat>, then_: seq<nat>, now: seq<nat>)
    requires before != [] && before <= then_ <= now && Ascending(now)
    ensures Born(now, |then_| + 1) >= before[|before| - 1]
  {
    BornMonotone(before, now, |before| + 1, |then_| + 1);
  }

  lemma BornAfterBump<D, V>(body: Body<D, V>, ss: seq<State<D, V>>, acts: seq<Action<D>>, h: nat, i: nat, j: nat,
                            k: nat)
    requires IsRun(body, ss, acts) && h < i < j < |acts| && j <= k < |ss|
    requires acts[h].Mutate? && acts[j].Begin? && acts[i] == Bump(acts[h].w, acts[j].ns)
    ensures Born(At(ss[k].births, acts[j].ns), VersionOf(ss[j].versions, acts[j].ns)) >= |ss[h].history|
  {
    var ns := acts[j].ns;
    BumpIsRecorded(body, ss, acts, h, i);
    RunGrows(body, ss, acts, i + 1, j);
    RunGrows(body, ss, acts, j, k);
    FetchedVersion(body, ss, acts, j);
    OrderedBirths(body, ss, acts, k, ns);
    BornLater(At(ss[i + 1].births, ns), At(ss[j].births, ns), At(ss[k].births, ns));
  }

  /** Whatever else runs, a read that fetches its version after the bump of write h has completed
      returns what its method computes from database states no older than that write's own. */
  lemma ReadAfterBumpIsFresh<D, V>(body: Body<D, V>, ss: seq<State<D, V>>, acts: seq<Action<D>>, h: nat, i: nat, j: nat,
                                   k: nat)
    requires IsRun(body, ss, acts) && h < i < j < |acts| && Finished(ss, acts, j, k)
    requires acts[h].Mutate? && acts[i] == Bump(acts[h].w, acts[j].ns)
    ensures var done := ss[k].readers[acts[j].r];
            var written := |ss[h].history|;
            && written < |ss[k].history| && ss[k].history[written] == acts[h].db
            && Derives(body, ss[k].history, acts[j].ns, acts[j].suffix, done.value, done.trail)
            && AllAtLeast(done.trail, written)
  {
    assert Enabled(ss[h], acts[h]) && ss[h + 1] == Apply(body, ss[h], acts[h]);
    BornAfterBump(body, ss, acts, h, i, j, k);
    FinishedRead(body, ss, acts, j, k);
    RunGrows(body, ss, acts, h + 1, k);
    assert ss[h + 1].history <= ss[k].history;
    assert ss[h + 1].history[|ss[h].history|] == acts[h].db;
  }

  /** The plain case, one query and no nested read: the result is the key's database value at some
      moment no earlier than the write. */
  lemma PlainReadAfterBumpIsFresh<D(!new), V>(body: Body<D, V>, ss: seq<State<D, V>>, acts: seq<Action<D>>, h: nat,
                                              i: nat, j: nat, k: nat)
    requires IsRun(body, ss, acts) && h < i < j < |acts| && Finished(ss, acts, j, k)
    requires acts[h].Mutate? && acts[i] == Bump(acts[h].w, acts[j].ns)
    requires forall d :: body(acts[j].ns, acts[j].suffix, d).Direct?
    ensures exists m :: |ss[h].history| <= m < |ss[k].history|
              && body(acts[j].ns, acts[j].suffix, ss[k].history[m]) == Direct(ss[k].readers[acts[j].r].value)
  {
    ReadAfterBumpIsFresh(body, ss, acts, h, i, j, k);
    var m := ss[k].readers[acts[j].r].trail[0];
    assert body(acts[j].ns, acts[j].suffix, ss[k].history[m]) == Direct(ss[k].readers[acts[j].r].value);
  }

  /** A creation bumps nothing. If the key had no value in any earlier database state, a read begun
      after the creation still never reports an older state, because a stored null is never served. */
  lemma ReadAfterCreationIsFresh<D, V>(body: Body<D, V>, ss: seq<State<D, V>>, acts: seq<Action<D>>, h: nat, j: nat,
                                       k: nat)
    requires IsRun(body, ss, acts) && h < j && Finished(ss, acts, j, k) && acts[h].Mutate?
    requires forall t | 0 <= t < |ss[h].history| :: body(acts[j].ns, acts[j].suffix, ss[h].history[t]) == Direct(None)
    ensures var done := ss[k].readers[acts[j].r];
            && Derives(body, ss[k].history, acts[j].ns, acts[j].suffix, done.value, done.trail)
            && done.trail[0] >= |ss[h].history|
  {
    assert Enabled(ss[h], acts[h]) && ss[h + 1] == Apply(body, ss[h], acts[h]);
    FinishedRead(body, ss, acts, j, k);
    RunGrows(body, ss, acts, h, k);
    RunGrows(body, ss, acts, h + 1, j);
    var done := ss[k].readers[acts[j].r];
    assert done.value.None? ==> done.trail[0] >= done.frame.since >= |ss[h].history|;
    assert ss[h].history <= ss[k].history;
  }
}
