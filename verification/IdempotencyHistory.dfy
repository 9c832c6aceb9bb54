/** What the history of a run decides: when a handler starts, timely winners or not. */
module IdempotencyHistory {
  import opened Options
  import opened IdempotencyStore
  import opened IdempotencyProtocol

  /** The step changes what is stored under the key: a won lock, a stored response or a release. */
  predicate Writes(s: State, a: Action, key: string)
    requires Enabled(s, a)
  {
    match a
    case Acquire(_, request) => request.key == key && !Live(s.memory, key, s.clock)
    case Store(q) => s.clients[q].request.key == key
    case StoreFails(q, _, written) => written && s.clients[q].request.key == key
    case Release(q) => s.clients[q].request.key == key
    case _ => false
  }

  /** Until when what it wrote holds the key; a release does not hold it at all. */
  function HeldUntil(s: State, a: Action): Option<int>
    requires Enabled(s, a)
  {
    match a
    case Acquire(_, _) => Some(s.clock + LOCK_TTL_MS)
    case Store(q) => Some(s.clock + s.clients[q].request.ttlMs)
    case StoreFails(q, _, _) => Some(s.clock + s.clients[q].request.ttlMs)
    case _ => None
  }

  predicate WroteAt(ss: seq<State>, acts: seq<Action>, key: string, w: nat)
    requires w < |acts| < |ss|
  {
    Enabled(ss[w], acts[w]) && Writes(ss[w], acts[w], key)
  }

  ghost predicate LastWrite(ss: seq<State>, acts: seq<Action>, key: string, w: nat, k: nat)
    requires k <= |acts| < |ss|
  {
    w < k && WroteAt(ss, acts, key, w) && forall v | w < v < k :: !WroteAt(ss, acts, key, v)
  }

  /** What step w wrote no longer holds the key at `now`. */
  predicate Freed(s: State, a: Action, now: int)
    requires Enabled(s, a)
  {
    HeldUntil(s, a).None? || HeldUntil(s, a).value < now
  }

  lemma StepWritesSlot(s: State, a: Action, key: string)
    requires Enabled(s, a)
    ensures !Writes(s, a, key) ==> (key in Apply(s, a).memory <==> key in s.memory)
                                   && (key in s.memory ==> Apply(s, a).memory[key] == s.memory[key])
    ensures Writes(s, a, key) ==> (key in Apply(s, a).memory <==> HeldUntil(s, a).Some?)
                                  && (HeldUntil(s, a).Some? ==>
                                      Apply(s, a).memory[key].expiresAt == HeldUntil(s, a).value)
  {
  }

  /** The slot is what the last write left. */
  lemma {:induction false} SlotIsLastWrite(ss: seq<State>, acts: seq<Action>, key: string, k: nat)
    returns (last: Option<nat>)
    requires IsRun(ss, acts) && k < |ss|
    ensures last.None? ==> key !in ss[k].memory && forall v | 0 <= v < k :: !WroteAt(ss, acts, key, v)
    ensures last.Some? ==> LastWrite(ss, acts, key, last.value, k)
                           && (key in ss[k].memory <==> HeldUntil(ss[last.value], acts[last.value]).Some?)
                           && (key in ss[k].memory ==>
                               Some(ss[k].memory[key].expiresAt) == HeldUntil(ss[last.value], acts[last.value]))
  {
    if k == 0 {
      return None;
    }
    last := SlotIsLastWrite(ss, acts, key, k - 1);
    assert Enabled(ss[k - 1], acts[k - 1]) && ss[k - 1 + 1] == Apply(ss[k - 1], acts[k - 1]);
    StepWritesSlot(ss[k - 1], acts[k - 1], key);
    if WroteAt(ss, acts, key, k - 1) {
      last := Some(k - 1);
    }
  }

  lemma LastWriteIsUnique(ss: seq<State>, acts: seq<Action>, key: string, w: nat, w': nat, k: nat)
    requires k <= |acts| < |ss| && LastWrite(ss, acts, key, w, k) && LastWrite(ss, acts, key, w', k)
    ensures w == w'
  {
    assert WroteAt(ss, acts, key, w) && WroteAt(ss, acts, key, w');
  }

  lemma AcquireRuns(s: State, q: nat, request: Request)
    requires q !in s.clients
    ensures Apply(s, Acquire(q, request)).clients[q].phase.Running? <==> !Live(s.memory, request.key, s.clock)
  {
  }

  /** In every run a request starts a handler exactly when the last write under its key, if there is one,
      was a release or no longer holds. */
  lemma HandlerStartsIff(ss: seq<State>, acts: seq<Action>, k: nat, q: nat, request: Request)
    requires IsRun(ss, acts) && k < |ss| && q !in ss[k].clients
    ensures Apply(ss[k], Acquire(q, request)).clients[q].phase.Running? <==>
            forall w: nat | LastWrite(ss, acts, request.key, w, k) :: Freed(ss[w], acts[w], ss[k].clock)
  {
    var last := SlotIsLastWrite(ss, acts, request.key, k);
    AcquireRuns(ss[k], q, request);
    forall w: nat | LastWrite(ss, acts, request.key, w, k)
      ensures Freed(ss[w], acts[w], ss[k].clock) <==> !Live(ss[k].memory, request.key, ss[k].clock)
    {
      if last.Some? {
        LastWriteIsUnique(ss, acts, request.key, w, last.value, k);
      } else {
        assert false;
      }
    }
  }

  lemma {:induction false} StaysPresent(ss: seq<State>, acts: seq<Action>, p: nat, i: nat, k: nat)
    requires IsRun(ss, acts) && i < k < |ss| && acts[i].Acquire? && acts[i].q == p
    ensures p in ss[k].clients
    decreases k
  {
    assert Enabled(ss[k - 1], acts[k - 1]) && ss[k - 1 + 1] == Apply(ss[k - 1], acts[k - 1]);
    if k > i + 1 {
      StaysPresent(ss, acts, p, i, k - 1);
    }
  }

  lemma {:induction false} RunningSince(ss: seq<State>, acts: seq<Action>, p: nat, i: nat, k: nat)
    requires IsRun(ss, acts) && i < k < |ss| && acts[i].Acquire? && acts[i].q == p
    requires p in ss[k].clients && ss[k].clients[p].phase.Running?
    ensures WroteAt(ss, acts, acts[i].request.key, i)
    ensures ss[k].clients[p] == Client(acts[i].request, Running(ss[i].clock + LOCK_TTL_MS))
    decreases k
  {
    assert Enabled(ss[k - 1], acts[k - 1]) && ss[k - 1 + 1] == Apply(ss[k - 1], acts[k - 1]);
    if k > i + 1 {
      StaysPresent(ss, acts, p, i, k - 1);
      RunningSince(ss, acts, p, i, k - 1);
    }
  }

  lemma {:induction false} OverStays(ss: seq<State>, acts: seq<Action>, p: nat, i: nat, k: nat)
    requires IsRun(ss, acts) && i <= k < |ss| && p in ss[i].clients
    requires ss[i].clients[p].phase.Failed? || ss[i].clients[p].phase.Answered?
    ensures p in ss[k].clients && (ss[k].clients[p].phase.Failed? || ss[k].clients[p].phase.Answered?)
    decreases k
  {
    if i < k {
      OverStays(ss, acts, p, i, k - 1);
      assert Enabled(ss[k - 1], acts[k - 1]) && ss[k - 1 + 1] == Apply(ss[k - 1], acts[k - 1]);
    }
  }

  /** A client that has stored or released is not running afterwards, and it acquires once. */
  lemma {:induction false} OwnWriteEnds(ss: seq<State>, acts: seq<Action>, p: nat, i: nat, w: nat, k: nat)
    requires IsRun(ss, acts) && i < w < k < |ss| && acts[i].Acquire? && acts[i].q == p
    requires acts[w].Acquire? || acts[w].Store? || acts[w].StoreFails? || acts[w].Release?
    requires p in ss[k].clients && ss[k].clients[p].phase.Running?
    ensures acts[w].q != p
  {
    StaysPresent(ss, acts, p, i, w);
    StaysPresent(ss, acts, p, i, w + 1);
    assert Enabled(ss[w], acts[w]) && ss[w + 1] == Apply(ss[w], acts[w]);
    if acts[w].q == p && !acts[w].Acquire? {
      OverStays(ss, acts, p, w + 1, k);
    }
  }

  /** While p, which won at step i, runs, another request starts a second handler exactly when p's lock has
      expired with nothing written under the key since, or somebody else's later write was the last one and
      was a release or no longer holds. */
  lemma SecondHandlerIff(ss: seq<State>, acts: seq<Action>, i: nat, k: nat, p: nat, q: nat, request: Request)
    requires IsRun(ss, acts) && i < k < |ss| && acts[i].Acquire? && acts[i].q == p && acts[i].request.key == request.key
    requires p in ss[k].clients && ss[k].clients[p].phase.Running? && q !in ss[k].clients
    ensures Apply(ss[k], Acquire(q, request)).clients[q].phase.Running? <==>
            || (LastWrite(ss, acts, request.key, i, k) && ss[k].clients[p].phase.deadline < ss[k].clock)
            || (exists w :: i < w < k && LastWrite(ss, acts, request.key, w, k) && Freed(ss[w], acts[w], ss[k].clock))
    ensures forall w | i < w < k && WroteAt(ss, acts, request.key, w) :: acts[w].q != p
  {
    HandlerStartsIff(ss, acts, k, q, request);
    RunningSince(ss, acts, p, i, k);
    var last := SlotIsLastWrite(ss, acts, request.key, k);
    assert last.Some? && i <= last.value by {
      assert WroteAt(ss, acts, request.key, i);
    }
    forall w: nat | LastWrite(ss, acts, request.key, w, k) ensures w == last.value {
      LastWriteIsUnique(ss, acts, request.key, w, last.value, k);
    }
    forall w | i < w < k && WroteAt(ss, acts, request.key, w) ensures acts[w].q != p {
      OwnWriteEnds(ss, acts, p, i, w, k);
    }
  }

  /** While its own lock holds, that takes a winner of the same key that was overdue at some moment before. */
  lemma SecondHandlerNeedsOverdue(ss: seq<State>, acts: seq<Action>, k: nat, p: nat, q: nat, request: Request)
    requires IsRun(ss, acts) && k < |ss| && Winner(ss[k], p, request.key) && q !in ss[k].clients
    requires ss[k].clock <= ss[k].clients[p].phase.deadline
    requires Apply(ss[k], Acquire(q, request)).clients[q].phase.Running?
    ensures exists j :: 0 <= j < k && !Timely(ss[j], request.key)
  {
    if TimelyBefore(ss, request.key, k) {
      RunKeepsInv(ss, acts, request.key, k);
    }
  }

  /** If all winners of the key have been timely so far, its own lock alone decides. */
  lemma TimelySecondHandlerIff(ss: seq<State>, acts: seq<Action>, k: nat, p: nat, q: nat, request: Request)
    requires IsRun(ss, acts) && k < |ss| && Winner(ss[k], p, request.key) && q !in ss[k].clients
    requires TimelyBefore(ss, request.key, k)
    ensures Apply(ss[k], Acquire(q, request)).clients[q].phase.Running? <==>
              ss[k].clock > ss[k].clients[p].phase.deadline
  {
    RunKeepsInv(ss, acts, request.key, k);
  }

  lemma Extend(ss: seq<State>, acts: seq<Action>, a: Action)
    requires IsRun(ss, acts) && Enabled(ss[|acts|], a)
    ensures IsRun(ss + [Apply(ss[|acts|], a)], acts + [a])
  {
    var ss', acts' := ss + [Apply(ss[|acts|], a)], acts + [a];
    forall i | 0 <= i < |acts'| ensures Enabled(ss'[i], acts'[i]) && ss'[i + 1] == Apply(ss'[i], acts'[i]) {
      if i < |acts| {
        assert Enabled(ss[i], acts[i]);
      }
    }
  }

  /** The first winner is overdue when a second one wins the lock. */
  lemma OverdueWinner(request: Request) returns (ss: seq<State>, acts: seq<Action>)
    ensures IsRun(ss, acts) && |ss| == 4
    ensures ss[3] == State(60001, map[request.key := Slot(Locked(request.bodyHash), 120001)],
                           map[0 := Client(request, Running(60000)), 1 := Client(request, Running(120001))])
  {
    var s0 := State(0, map[], map[]);
    var s1 := Apply(s0, Acquire(0, request));
    var s2 := Apply(s1, Tick(60001));
    Extend([s0], [], Acquire(0, request));
    Extend([s0] + [s1], [] + [Acquire(0, request)], Tick(60001));
    Extend([s0] + [s1] + [s2], [] + [Acquire(0, request)] + [Tick(60001)], Acquire(1, request));
    ss := [s0] + [s1] + [s2] + [Apply(s2, Acquire(1, request))];
    acts := [] + [Acquire(0, request)] + [Tick(60001)] + [Acquire(1, request)];
  }

  /** Its late release deletes the second winner's lock, and a third handler starts while the second still
      runs under an unexpired lock. */
  lemma LateReleaseFreesLock(request: Request) returns (ss: seq<State>, acts: seq<Action>)
    ensures IsRun(ss, acts) && |ss| == 7
    ensures Winner(ss[6], 1, request.key) && ss[6].clients[1].phase == Running(120001)
    ensures Winner(ss[6], 2, request.key) && ss[6].clients[2].phase == Running(120001)
    ensures ss[6].clock == 60001
  {
    var ss3, acts3 := OverdueWinner(request);
    var s4 := Apply(ss3[3], HandlerThrows(0, "late"));
    var s5 := Apply(s4, Release(0));
    Extend(ss3, acts3, HandlerThrows(0, "late"));
    Extend(ss3 + [s4], acts3 + [HandlerThrows(0, "late")], Release(0));
    Extend(ss3 + [s4] + [s5], acts3 + [HandlerThrows(0, "late")] + [Release(0)], Acquire(2, request));
    ss := ss3 + [s4] + [s5] + [Apply(s5, Acquire(2, request))];
    acts := acts3 + [HandlerThrows(0, "late")] + [Release(0)] + [Acquire(2, request)];
  }

  /** A response is stored but the store's reply is lost. */
  lemma LostReply(request: Request, status: int, body: string) returns (ss: seq<State>, acts: seq<Action>)
    requires request.ttlMs >= 0
    ensures IsRun(ss, acts) && |ss| == 4
    ensures ss[3] == State(0, map[request.key := Slot(Complete(request.bodyHash, status, body), request.ttlMs)],
                           map[0 := Client(request, Failed(request.ttlMs, "lost"))])
  {
    var s0 := State(0, map[], map[]);
    var s1 := Apply(s0, Acquire(0, request));
    var s2 := Apply(s1, HandlerReturns(0, status, body));
    var lost := StoreFails(0, "lost", true);
    Extend([s0], [], Acquire(0, request));
    Extend([s0] + [s1], [] + [Acquire(0, request)], HandlerReturns(0, status, body));
    Extend([s0] + [s1] + [s2], [] + [Acquire(0, request)] + [HandlerReturns(0, status, body)], lost);
    ss := [s0] + [s1] + [s2] + [Apply(s2, lost)];
    acts := [] + [Acquire(0, request)] + [HandlerReturns(0, status, body)] + [lost];
  }

  /** A second request is given that response; then the winner's release forgets it and a third request
      runs the handler again, all before any deadline. */
  lemma LostReplyRunsTwice(request: Request, status: int, body: string) returns (ss: seq<State>, acts: seq<Action>)
    requires request.ttlMs >= 0
    ensures IsRun(ss, acts) && |ss| == 8 && ss[7].clock == 0
    ensures 1 in ss[7].clients && ss[7].clients[1] == Client(request, Answered(Replayed(status, body)))
    ensures 2 in ss[7].clients && ss[7].clients[2].phase.Running? && ss[7].clients[2].request == request
  {
    var ss3, acts3 := LostReply(request, status, body);
    var s4 := Apply(ss3[3], Acquire(1, request));
    var s5 := Apply(s4, Fetch(1));
    var s6 := Apply(s5, Release(0));
    Extend(ss3, acts3, Acquire(1, request));
    Extend(ss3 + [s4], acts3 + [Acquire(1, request)], Fetch(1));
    Extend(ss3 + [s4] + [s5], acts3 + [Acquire(1, request)] + [Fetch(1)], Release(0));
    var acts6 := acts3 + [Acquire(1, request)] + [Fetch(1)] + [Release(0)];
    Extend(ss3 + [s4] + [s5] + [s6], acts6, Acquire(2, request));
    ss, acts := ss3 + [s4] + [s5] + [s6] + [Apply(s6, Acquire(2, request))], acts6 + [Acquire(2, request)];
  }
}
