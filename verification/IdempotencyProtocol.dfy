/** Any number of requests sharing the store, interleaved at every await. */
module IdempotencyProtocol {
  import opened IdempotencyStore

  datatype Request = Request(key: string, bodyHash: string, ttlMs: int)

  /** `deadline` is when the slot the winner has written expires. */
  datatype Phase =
    | Waiting                                                    // lost the race, has not fetched yet
    | Running(deadline: int)                                     // the handler is in flight
    | Succeeded(deadline: int, status: int, body: string)        // about to store
    | Failed(deadline: int, error: string)                       // about to release
    | Answered(response: Response)

  datatype Client = Client(request: Request, phase: Phase)

  datatype State = State(clock: int, memory: Memory, clients: map<nat, Client>)

  datatype Action =
    | Tick(now: int)
    | Acquire(q: nat, request: Request)
    | Fetch(q: nat)
    | HandlerReturns(q: nat, status: int, body: string)
    | HandlerThrows(q: nat, error: string)
    | Store(q: nat)
    | StoreFails(q: nat, error: string, written: bool)
    | Release(q: nat)
    | ReleaseFails(q: nat)

  predicate Active(p: Phase) {
    p.Running? || p.Succeeded? || p.Failed?
  }

  predicate Enabled(s: State, a: Action) {
    match a
    case Tick(now) => now >= s.clock
    case Acquire(q, request) => q !in s.clients
    case Fetch(q) => q in s.clients && s.clients[q].phase.Waiting?
    case HandlerReturns(q, _, _) => q in s.clients && s.clients[q].phase.Running?
    case HandlerThrows(q, _) => q in s.clients && s.clients[q].phase.Running?
    case Store(q) => q in s.clients && s.clients[q].phase.Succeeded?
    case StoreFails(q, _, _) => q in s.clients && s.clients[q].phase.Succeeded?
    case Release(q) => q in s.clients && s.clients[q].phase.Failed?
    case ReleaseFails(q) => q in s.clients && s.clients[q].phase.Failed?
  }

  function SetPhase(s: State, q: nat, p: Phase): State
    requires q in s.clients
  {
    s.(clients := s.clients[q := s.clients[q].(phase := p)])
  }

  function StoredSlot(s: State, q: nat): Slot
    requires q in s.clients && s.clients[q].phase.Succeeded?
  {
    var c := s.clients[q];
    Slot(Complete(c.request.bodyHash, c.phase.status, c.phase.body), s.clock + c.request.ttlMs)
  }

  function Stored(s: State, q: nat): State
    requires q in s.clients && s.clients[q].phase.Succeeded?
  {
    s.(memory := s.memory[s.clients[q].request.key := StoredSlot(s, q)])
  }

  /** A store that fails may have taken effect all the same, as when only its reply is lost. */
  function Apply(s: State, a: Action): State
    requires Enabled(s, a)
  {
    match a
    case Tick(now) => s.(clock := now)
    case Acquire(q, request) =>
      if Live(s.memory, request.key, s.clock)
      then s.(clients := s.clients[q := Client(request, Waiting)])
      else
        var deadline := s.clock + LOCK_TTL_MS;
        s.(memory := s.memory[request.key := Slot(Locked(request.bodyHash), deadline)],
           clients := s.clients[q := Client(request, Running(deadline))])
    case Fetch(q) =>
      var request := s.clients[q].request;
      SetPhase(s, q, Answered(Contended(Find(View(s.memory, s.clock), request.key), request.bodyHash)))
    case HandlerReturns(q, status, body) =>
      SetPhase(s, q, Succeeded(s.clients[q].phase.deadline, status, body))
    case HandlerThrows(q, error) => SetPhase(s, q, Failed(s.clients[q].phase.deadline, error))
    case Store(q) => SetPhase(Stored(s, q), q, Answered(Fresh(s.clients[q].phase.status, s.clients[q].phase.body)))
    case StoreFails(q, error, written) =>
      if written then SetPhase(Stored(s, q), q, Failed(s.clock + s.clients[q].request.ttlMs, error))
      else SetPhase(s, q, Failed(s.clients[q].phase.deadline, error))
    case Release(q) =>
      SetPhase(s.(memory := s.memory - {s.clients[q].request.key}), q, Answered(Thrown(s.clients[q].phase.error)))
    case ReleaseFails(q) => SetPhase(s, q, Answered(Thrown(s.clients[q].phase.error)))
  }

  ghost predicate IsRun(ss: seq<State>, acts: seq<Action>) {
    && |ss| == |acts| + 1
    && ss[0].memory == map[] && ss[0].clients == map[]
    && (forall i {:trigger acts[i]} | 0 <= i < |acts| :: Enabled(ss[i], acts[i]) && ss[i + 1] == Apply(ss[i], acts[i]))
  }

  // ---------- While winners are timely ----------

  predicate Winner(s: State, q: nat, key: string) {
    q in s.clients && s.clients[q].request.key == key && Active(s.clients[q].phase)
  }

  /** No winner of this key is still at work after the slot it wrote has expired: its lock, or the response
      that it stored without learning so. */
  ghost predicate Timely(s: State, key: string) {
    forall q | Winner(s, q, key) :: s.clock <= s.clients[q].phase.deadline
  }

  /** The hypothesis, about one key and the states before k only. */
  ghost predicate TimelyBefore(ss: seq<State>, key: string, k: nat) {
    forall i | 0 <= i < k && i < |ss| :: Timely(ss[i], key)
  }

  /** The slot is the one the winner wrote last: its lock, or, before its release, perhaps its response. */
  predicate Owns(s: State, q: nat, key: string)
    requires Winner(s, q, key)
  {
    && key in s.memory && s.memory[key].expiresAt == s.clients[q].phase.deadline
    && (s.clients[q].phase.Failed? || s.memory[key].value == Locked(s.clients[q].request.bodyHash))
  }

  /** Each winner of the key still owns the slot it locked, and there is at most one. */
  ghost predicate Inv(s: State, key: string) {
    && (forall q | Winner(s, q, key) :: Owns(s, q, key))
    && (forall p, q | Winner(s, p, key) && Winner(s, q, key) :: p == q)
  }

  /** A step makes nobody a winner but a client whose acquisition finds the key free. */
  lemma NewWinner(s: State, a: Action, key: string, q: nat)
    requires Enabled(s, a) && Winner(Apply(s, a), q, key)
    ensures || (Winner(s, q, key) && Apply(s, a).clients[q].request == s.clients[q].request)
            || (a.Acquire? && a.q == q && a.request.key == key && !Live(s.memory, key, s.clock))
    ensures Winner(s, q, key) && (s.clients[q].phase.Failed? || !a.StoreFails? || a.q != q) ==>
              Apply(s, a).clients[q].phase.deadline == s.clients[q].phase.deadline
    ensures Winner(s, q, key) && s.clients[q].phase.Failed? ==> Apply(s, a).clients[q].phase.Failed?
  {
  }

  predicate SameSlot(s: State, s': State, key: string) {
    (key in s'.memory <==> key in s.memory) && (key in s.memory ==> s'.memory[key] == s.memory[key])
  }

  /** Only a winner's own step, or a lock won on a free key, touches the slot. */
  lemma SlotTouched(s: State, a: Action, key: string)
    requires Enabled(s, a)
    ensures || SameSlot(s, Apply(s, a), key)
            || (a.Acquire? && a.request.key == key && !Live(s.memory, key, s.clock))
            || ((a.Store? || a.Release?) && Winner(s, a.q, key) && !Winner(Apply(s, a), a.q, key))
            || (a.StoreFails? && a.written && Winner(s, a.q, key))
  {
  }

  lemma StepKeepsOwns(s: State, a: Action, key: string, q: nat)
    requires Inv(s, key) && Timely(s, key) && Enabled(s, a) && Winner(Apply(s, a), q, key)
    ensures Owns(Apply(s, a), q, key)
  {
    SlotTouched(s, a, key);
    NewWinner(s, a, key, q);
    if Winner(s, q, key) {
      assert Owns(s, q, key);
    }
  }

  lemma StepKeepsInv(s: State, a: Action, key: string)
    requires Inv(s, key) && Timely(s, key) && Enabled(s, a)
    ensures Inv(Apply(s, a), key)
  {
    var s' := Apply(s, a);
    forall q | Winner(s', q, key) ensures Owns(s', q, key) {
      StepKeepsOwns(s, a, key, q);
    }
    forall p, q | Winner(s', p, key) && Winner(s', q, key) ensures p == q {
      NewWinner(s, a, key, p);
      NewWinner(s, a, key, q);
    }
  }

  lemma {:induction false} RunKeepsInv(ss: seq<State>, acts: seq<Action>, key: string, k: nat)
    requires IsRun(ss, acts) && k < |ss| && TimelyBefore(ss, key, k)
    ensures Inv(ss[k], key)
  {
    if k > 0 {
      RunKeepsInv(ss, acts, key, k - 1);
      assert Enabled(ss[k - 1], acts[k - 1]) && Timely(ss[k - 1], key);
      StepKeepsInv(ss[k - 1], acts[k - 1], key);
    }
  }

  /** No state has two winners of one key at work unless one of that key was overdue before. */
  lemma OneHandlerPerKey(ss: seq<State>, acts: seq<Action>, key: string, k: nat, p: nat, q: nat)
    requires IsRun(ss, acts) && k < |ss| && TimelyBefore(ss, key, k)
    requires Winner(ss[k], p, key) && Winner(ss[k], q, key)
    ensures p == q
  {
    RunKeepsInv(ss, acts, key, k);
  }

  /** The step writes a response to the store, whether or not it learns so. */
  predicate WritesResponse(s: State, a: Action) {
    (a.Store? || (a.StoreFails? && a.written)) && a.q in s.clients && s.clients[a.q].phase.Succeeded?
  }

  /** The slot is there, and the only winner of the key there may be is q, about to release. */
  ghost predicate Keeps(s: State, key: string, slot: Slot, q: nat) {
    && key in s.memory && s.memory[key] == slot
    && forall w | Winner(s, w, key) :: w == q && s.clients[w].phase.Failed?
  }

  lemma ResponseIsKept(s: State, a: Action)
    requires Enabled(s, a) && WritesResponse(s, a) && Inv(s, s.clients[a.q].request.key)
    ensures Keeps(Apply(s, a), s.clients[a.q].request.key, StoredSlot(s, a.q), a.q)
  {
    var key := s.clients[a.q].request.key;
    assert Winner(s, a.q, key);
    forall w | Winner(Apply(s, a), w, key) ensures w == a.q && Apply(s, a).clients[w].phase.Failed? {
      NewWinner(s, a, key, w);
    }
  }

  lemma StepKeepsResponse(s: State, a: Action, key: string, slot: Slot, q: nat)
    requires Enabled(s, a) && Keeps(s, key, slot, q) && s.clock <= slot.expiresAt
    requires !(a.Release? && a.q == q)
    ensures Keeps(Apply(s, a), key, slot, q)
  {
    SlotTouched(s, a, key);
    forall w | Winner(Apply(s, a), w, key) ensures w == q && Apply(s, a).clients[w].phase.Failed? {
      NewWinner(s, a, key, w);
    }
  }

  /** The slot a response was written to stays as it is until its time-to-live ends, or until a winner that
      has not learned of it releases the key. */
  lemma {:induction false} ResponseStays(ss: seq<State>, acts: seq<Action>, i: nat, j: nat)
    requires IsRun(ss, acts) && i < |acts| && i < j < |ss| && WritesResponse(ss[i], acts[i])
    requires TimelyBefore(ss, ss[i].clients[acts[i].q].request.key, i)
    requires forall m | i < m < j :: !(acts[m].Release? && acts[m].q == acts[i].q)
    requires ss[j].clock <= StoredSlot(ss[i], acts[i].q).expiresAt
    ensures Keeps(ss[j], ss[i].clients[acts[i].q].request.key, StoredSlot(ss[i], acts[i].q), acts[i].q)
    decreases j - i
  {
    var key := ss[i].clients[acts[i].q].request.key;
    assert Enabled(ss[j - 1], acts[j - 1]) && ss[j - 1 + 1] == Apply(ss[j - 1], acts[j - 1]);
    if j == i + 1 {
      RunKeepsInv(ss, acts, key, i);
      ResponseIsKept(ss[i], acts[i]);
    } else {
      ResponseStays(ss, acts, i, j - 1);
      StepKeepsResponse(ss[j - 1], acts[j - 1], key, StoredSlot(ss[i], acts[i].q), acts[i].q);
    }
  }

  lemma {:induction false} AnsweredStays(ss: seq<State>, acts: seq<Action>, p: nat, i: nat, k: nat)
    requires IsRun(ss, acts) && i <= k < |ss| && p in ss[i].clients && ss[i].clients[p].phase.Answered?
    ensures p in ss[k].clients && ss[k].clients[p].phase.Answered?
    decreases k
  {
    if i < k {
      AnsweredStays(ss, acts, p, i, k - 1);
      assert Enabled(ss[k - 1], acts[k - 1]) && ss[k - 1 + 1] == Apply(ss[k - 1], acts[k - 1]);
    }
  }

  /** A client that has been answered does nothing more. */
  lemma NoReleaseAfterStore(ss: seq<State>, acts: seq<Action>, i: nat, j: nat)
    requires IsRun(ss, acts) && i < |acts| && i < j < |ss| && acts[i].Store?
    ensures forall m | i < m < j :: !(acts[m].Release? && acts[m].q == acts[i].q)
  {
    assert Enabled(ss[i], acts[i]) && ss[i + 1] == Apply(ss[i], acts[i]);
    forall m | i < m < j ensures !(acts[m].Release? && acts[m].q == acts[i].q) {
      AnsweredStays(ss, acts, acts[i].q, i + 1, m);
      assert Enabled(ss[m], acts[m]);
    }
  }

  /** Nobody has released what step i wrote before step j: never, once the store reported success. */
  ghost predicate Unreleased(acts: seq<Action>, i: nat, j: nat) {
    && i < j <= |acts|
    && (acts[i].Store? || (acts[i].StoreFails? && forall m | i < m < j :: acts[m] != Release(acts[i].q)))
  }

  /** From a written response until its time-to-live ends, and unless a winner whose store failed all the
      same releases the key: no request for the key starts a handler. */
  lemma NoRerunWhileStored(ss: seq<State>, acts: seq<Action>, i: nat, j: nat)
    requires IsRun(ss, acts) && i < j < |acts| && WritesResponse(ss[i], acts[i]) && Unreleased(acts, i, j)
    requires acts[j].Acquire? && acts[j].request.key == ss[i].clients[acts[i].q].request.key
    requires TimelyBefore(ss, acts[j].request.key, i)
    requires ss[j].clock <= ss[i].clock + ss[i].clients[acts[i].q].request.ttlMs
    ensures ss[j + 1].clients[acts[j].q] == Client(acts[j].request, Waiting) && ss[j + 1].memory == ss[j].memory
  {
    if acts[i].Store? {
      NoReleaseAfterStore(ss, acts, i, j);
    }
    ResponseStays(ss, acts, i, j);
    assert Enabled(ss[j], acts[j]);
  }

  /** ... and every request that fetches gets exactly the stored answer, or a rejection if its body differs. */
  lemma ReplayWhileStored(ss: seq<State>, acts: seq<Action>, i: nat, k: nat)
    requires IsRun(ss, acts) && i < k < |acts| && WritesResponse(ss[i], acts[i]) && Unreleased(acts, i, k)
    requires acts[k].Fetch? && acts[k].q in ss[k].clients
    requires ss[k].clients[acts[k].q].request.key == ss[i].clients[acts[i].q].request.key
    requires TimelyBefore(ss, ss[i].clients[acts[i].q].request.key, i)
    requires ss[k].clock <= ss[i].clock + ss[i].clients[acts[i].q].request.ttlMs
    ensures var winner, asker := ss[i].clients[acts[i].q], ss[k].clients[acts[k].q];
            ss[k + 1].clients[acts[k].q].phase ==
            Answered(if asker.request.bodyHash == winner.request.bodyHash
                     then Replayed(winner.phase.status, winner.phase.body)
                     else BodyMismatch)
  {
    if acts[i].Store? {
      NoReleaseAfterStore(ss, acts, i, k);
    }
    ResponseStays(ss, acts, i, k);
    assert Enabled(ss[k], acts[k]);
  }

  /** That release is what ends it: right after it the next request starts a handler again. */
  lemma RerunAfterRelease(ss: seq<State>, acts: seq<Action>, m: nat, q: nat, request: Request)
    requires IsRun(ss, acts) && m < |acts| && acts[m].Release? && q !in ss[m + 1].clients
    requires acts[m].q in ss[m].clients && ss[m].clients[acts[m].q].request.key == request.key
    ensures Apply(ss[m + 1], Acquire(q, request)).clients[q].phase.Running?
  {
    assert Enabled(ss[m], acts[m]) && ss[m + 1] == Apply(ss[m], acts[m]);
  }
}
