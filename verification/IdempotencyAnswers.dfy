/** Where every answer comes from, in every run. */
module IdempotencyAnswers {
  import opened IdempotencyStore
  import opened IdempotencyProtocol

  // ---------- One fetch ----------

  /** A fetch answers by the slot that is live, and writes nothing. */
  lemma FetchMeans(s: State, q: nat)
    requires Enabled(s, Fetch(q))
    ensures var s', request := Apply(s, Fetch(q)), s.clients[q].request;
            && s' == s.(clients := s.clients[q := Client(request, Answered(s'.clients[q].phase.response))])
            && Refusal(View(s.memory, s.clock), request.key, request.bodyHash, s'.clients[q].phase.response)
  {
  }

  /** While the handler of a key runs, or its response is being stored, everybody else who asks is told so, or
      that the body differs. */
  lemma FetchWhileAtWork(ss: seq<State>, acts: seq<Action>, k: nat, p: nat)
    requires IsRun(ss, acts) && k < |acts| && acts[k].Fetch? && acts[k].q in ss[k].clients
    requires TimelyBefore(ss, ss[k].clients[acts[k].q].request.key, k + 1)
    requires Winner(ss[k], p, ss[k].clients[acts[k].q].request.key) && !ss[k].clients[p].phase.Failed?
    ensures ss[k + 1].clients[acts[k].q].phase ==
            Answered(if ss[k].clients[acts[k].q].request.bodyHash == ss[k].clients[p].request.bodyHash then InProgress
                     else BodyMismatch)
  {
    var key := ss[k].clients[acts[k].q].request.key;
    RunKeepsInv(ss, acts, key, k);
    assert Owns(ss[k], p, key) && Timely(ss[k], key);
    assert Enabled(ss[k], acts[k]) && ss[k + 1] == Apply(ss[k], acts[k]);
  }

  // ---------- Whole runs ----------

  /** The step writes exactly this response, for this key and body. */
  predicate WritesFor(s: State, a: Action, key: string, bodyHash: string, status: int, body: string) {
    && WritesResponse(s, a)
    && s.clients[a.q].request.key == key && s.clients[a.q].request.bodyHash == bodyHash
    && s.clients[a.q].phase.status == status && s.clients[a.q].phase.body == body
  }

  ghost predicate Written(ss: seq<State>, acts: seq<Action>, k: nat, key: string, entry: Entry)
    requires |ss| == |acts| + 1 && k < |ss| && entry.Complete?
  {
    exists i | 0 <= i < k :: WritesFor(ss[i], acts[i], key, entry.bodyHash, entry.status, entry.body)
  }

  ghost predicate Returned(acts: seq<Action>, k: nat, q: nat, status: int, body: string)
    requires k <= |acts|
  {
    exists i | 0 <= i < k :: acts[i] == HandlerReturns(q, status, body)
  }

  ghost predicate Failure(acts: seq<Action>, k: nat, q: nat, error: string)
    requires k <= |acts|
  {
    exists i | 0 <= i < k ::
      acts[i] == HandlerThrows(q, error) || (acts[i].StoreFails? && acts[i].q == q && acts[i].error == error)
  }

  lemma Last(ss: seq<State>, acts: seq<Action>, k: nat)
    requires IsRun(ss, acts) && 0 < k < |ss|
    ensures Enabled(ss[k - 1], acts[k - 1]) && ss[k] == Apply(ss[k - 1], acts[k - 1])
  {
    assert ss[k - 1 + 1] == Apply(ss[k - 1], acts[k - 1]);
  }

  /** What one step can have put into the memory. */
  lemma SlotOrigin(s: State, a: Action, key: string)
    requires Enabled(s, a) && key in Apply(s, a).memory && Apply(s, a).memory[key].value.Complete?
    ensures var entry := Apply(s, a).memory[key].value;
            || (key in s.memory && s.memory[key].value == entry)
            || WritesFor(s, a, key, entry.bodyHash, entry.status, entry.body)
  {
  }

  lemma {:induction false} StoredIsWritten(ss: seq<State>, acts: seq<Action>, k: nat, key: string)
    requires IsRun(ss, acts) && k < |ss| && key in ss[k].memory && ss[k].memory[key].value.Complete?
    ensures Written(ss, acts, k, key, ss[k].memory[key].value)
    decreases k
  {
    if k > 0 {
      Last(ss, acts, k);
      SlotOrigin(ss[k - 1], acts[k - 1], key);
      if key in ss[k - 1].memory && ss[k - 1].memory[key].value == ss[k].memory[key].value {
        StoredIsWritten(ss, acts, k - 1, key);
      }
    }
  }

  /** One step gives a client a phase only from the one before, or by that client's own action. */
  lemma PhaseOrigin(s: State, a: Action, q: nat)
    requires Enabled(s, a) && q in Apply(s, a).clients
    ensures var c := Apply(s, a).clients[q];
            || (q in s.clients && c == s.clients[q])
            || (a == Acquire(q, c.request) && q !in s.clients && (c.phase.Waiting? || c.phase.Running?))
            || (!a.Tick? && a.q == q && q in s.clients && c.request == s.clients[q].request)
  {
  }

  lemma {:induction false} RequestStays(ss: seq<State>, acts: seq<Action>, q: nat, i: nat, j: nat)
    requires IsRun(ss, acts) && i <= j < |ss| && q in ss[i].clients
    ensures q in ss[j].clients && ss[j].clients[q].request == ss[i].clients[q].request
    decreases j
  {
    if i < j {
      RequestStays(ss, acts, q, i, j - 1);
      Last(ss, acts, j);
      PhaseOrigin(ss[j - 1], acts[j - 1], q);
    }
  }

  lemma {:induction false} SucceededHasReturned(ss: seq<State>, acts: seq<Action>, k: nat, q: nat)
    requires IsRun(ss, acts) && k < |ss| && q in ss[k].clients && ss[k].clients[q].phase.Succeeded?
    ensures Returned(acts, k, q, ss[k].clients[q].phase.status, ss[k].clients[q].phase.body)
    decreases k
  {
    if k > 0 {
      Last(ss, acts, k);
      PhaseOrigin(ss[k - 1], acts[k - 1], q);
      if q in ss[k - 1].clients && ss[k - 1].clients[q] == ss[k].clients[q] {
        SucceededHasReturned(ss, acts, k - 1, q);
      }
    }
  }

  lemma {:induction false} FailedHasFailed(ss: seq<State>, acts: seq<Action>, k: nat, q: nat)
    requires IsRun(ss, acts) && k < |ss| && q in ss[k].clients && ss[k].clients[q].phase.Failed?
    ensures Failure(acts, k, q, ss[k].clients[q].phase.error)
    decreases k
  {
    if k > 0 {
      Last(ss, acts, k);
      PhaseOrigin(ss[k - 1], acts[k - 1], q);
      if q in ss[k - 1].clients && ss[k - 1].clients[q] == ss[k].clients[q] {
        FailedHasFailed(ss, acts, k - 1, q);
      }
    }
  }

  /** What an answer is backed by: its own handler's result or failure, or a response written before for the
      same key and body. */
  ghost predicate Backed(ss: seq<State>, acts: seq<Action>, k: nat, q: nat, request: Request, response: Response)
    requires |ss| == |acts| + 1 && k < |ss|
  {
    match response
    case Fresh(status, body) => Returned(acts, k, q, status, body)
    case Thrown(error) => Failure(acts, k, q, error)
    case Replayed(status, body) => Written(ss, acts, k, request.key, Complete(request.bodyHash, status, body))
    case _ => true
  }

  /** ... by the step that gave the answer. */
  lemma AnswerIsBacked(ss: seq<State>, acts: seq<Action>, k: nat, q: nat)
    requires IsRun(ss, acts) && k < |acts| && q in ss[k].clients && !acts[k].Tick? && acts[k].q == q
    requires ss[k + 1].clients[q].phase.Answered?
    ensures Backed(ss, acts, k, q, ss[k].clients[q].request, ss[k + 1].clients[q].phase.response)
  {
    Last(ss, acts, k + 1);
    match acts[k] {
      case Fetch(_) =>
        FetchMeans(ss[k], q);
        if ss[k + 1].clients[q].phase.response.Replayed? {
          var response := ss[k + 1].clients[q].phase.response;
          assert response == Replayed(response.status, response.body);
          StoredIsWritten(ss, acts, k, ss[k].clients[q].request.key);
        }
      case Store(_) => SucceededHasReturned(ss, acts, k, q);
      case Release(_) => FailedHasFailed(ss, acts, k, q);
      case ReleaseFails(_) => FailedHasFailed(ss, acts, k, q);
      case _ =>
    }
  }

  lemma BackedLater(ss: seq<State>, acts: seq<Action>, j: nat, k: nat, q: nat, request: Request, response: Response)
    requires |ss| == |acts| + 1 && j <= k < |ss| && Backed(ss, acts, j, q, request, response)
    ensures Backed(ss, acts, k, q, request, response)
  {
  }

  /** No answer is made up: in every run, timely or not, a client's own response or error is what its handler
      returned or what it was told, and a replay was written before, whole, for the same key and body. */
  lemma {:induction false} AnswersAreBacked(ss: seq<State>, acts: seq<Action>, k: nat, q: nat)
    requires IsRun(ss, acts) && k < |ss| && q in ss[k].clients && ss[k].clients[q].phase.Answered?
    ensures Backed(ss, acts, k, q, ss[k].clients[q].request, ss[k].clients[q].phase.response)
    decreases k
  {
    if k > 0 {
      Last(ss, acts, k);
      PhaseOrigin(ss[k - 1], acts[k - 1], q);
      if q in ss[k - 1].clients && ss[k - 1].clients[q] == ss[k].clients[q] {
        AnswersAreBacked(ss, acts, k - 1, q);
      } else {
        AnswerIsBacked(ss, acts, k - 1, q);
      }
      BackedLater(ss, acts, k - 1, k, q, ss[k].clients[q].request, ss[k].clients[q].phase.response);
    }
  }

  /** So a replay is what some handler returned for that key and body. */
  lemma ReplayWasReturned(ss: seq<State>, acts: seq<Action>, k: nat, q: nat) returns (i: nat, w: nat)
    requires IsRun(ss, acts) && k < |ss| && q in ss[k].clients && ss[k].clients[q].phase.Answered?
    requires ss[k].clients[q].phase.response.Replayed?
    ensures var request, response := ss[k].clients[q].request, ss[k].clients[q].phase.response;
            && i < k && acts[i] == HandlerReturns(w, response.status, response.body)
            && w in ss[i].clients && ss[i].clients[w].request.key == request.key
            && ss[i].clients[w].request.bodyHash == request.bodyHash
  {
    var request, response := ss[k].clients[q].request, ss[k].clients[q].phase.response;
    AnswersAreBacked(ss, acts, k, q);
    var j :| 0 <= j < k && WritesFor(ss[j], acts[j], request.key, request.bodyHash, response.status, response.body);
    w := acts[j].q;
    SucceededHasReturned(ss, acts, j, w);
    i :| 0 <= i < j && acts[i] == HandlerReturns(w, response.status, response.body);
    assert Enabled(ss[i], acts[i]);
    RequestStays(ss, acts, w, i, j);
  }
}
