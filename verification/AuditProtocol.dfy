/** Concurrent appends under the chain lock, with retention deletes at any moment. */
module AuditProtocol {
  import opened Options
  import opened AuditChain

  /** `tail` is the predecessor hash the lock holder has read. `clock` and `used` are history variables:
      the last creation time and every id ever issued. */
  datatype State = State(
    log: seq<Row>,
    holder: Option<nat>,
    tail: Option<Option<Digest>>,
    clock: int,
    used: set<nat>)

  datatype Action =
    | Acquire(a: nat)
    | ReadTail(a: nat, last: Option<Row>)
    | Commit(a: nat, fields: Fields)
    | Rollback(a: nat)
    | Retain(cutoff: int)

  /** Ids are fresh and, as a hypothesis, creation times strictly increase. */
  predicate Enabled(s: State, a: Action) {
    match a
    case Acquire(_) => s.holder == None
    case ReadTail(who, last) => s.holder == Some(who) && s.tail == None && Latest(s.log, last)
    case Commit(who, fields) =>
      s.holder == Some(who) && s.tail.Some? && fields.id !in s.used && fields.createdAt > s.clock
    case Rollback(who) => s.holder == Some(who)
    case Retain(_) => true
  }

  function Apply(s: State, a: Action): State
    requires Enabled(s, a)
  {
    match a
    case Acquire(who) => s.(holder := Some(who), tail := None)
    case ReadTail(_, last) => s.(tail := Some(HashOf(last)))
    case Commit(_, fields) =>
      var row := Row(fields, s.tail.value, ComputeAuditHash(s.tail.value, fields));
      s.(log := Insert(s.log, row), holder := None, tail := None,
         clock := fields.createdAt, used := s.used + {fields.id})
    case Rollback(_) => s.(holder := None, tail := None)
    case Retain(cutoff) => s.(log := Kept(s.log, cutoff))
  }

  ghost predicate IsRun(ss: seq<State>, acts: seq<Action>) {
    && |ss| == |acts| + 1
    && ss[0].log == [] && ss[0].holder == None && ss[0].tail == None
    && forall i {:trigger acts[i]} | 0 <= i < |acts| :: Enabled(ss[i], acts[i]) && ss[i + 1] == Apply(ss[i], acts[i])
  }

  ghost predicate Inv(s: State) {
    && Ordered(s.log)
    && Intact(s.log)
    && UniqueIds(s.log)
    && (forall row | row in s.log :: row.fields.createdAt <= s.clock && row.fields.id in s.used)
    && (s.tail.Some? && s.log != [] ==> s.tail.value == Some(LastHash(s.log)))
  }

  /** Times are pairwise distinct, as every commit was later than the clock. */
  ghost predicate DistinctTimes(log: seq<Row>) {
    forall i, j | 0 <= i < j < |log| :: log[i].fields.createdAt != log[j].fields.createdAt
  }

  lemma LastIsLatest(log: seq<Row>, k: nat)
    requires Ordered(log) && k < |log|
    ensures log[k].fields.createdAt <= log[|log| - 1].fields.createdAt
  {
  }

  lemma LatestIsLast(log: seq<Row>, last: Option<Row>)
    requires Ordered(log) && Latest(log, last) && log != []
    requires DistinctTimes(log)
    ensures last == Some(log[|log| - 1])
  {
    var k :| 0 <= k < |log| && log[k] == last.value;
    LastIsLatest(log, k);
    assert log[|log| - 1] in log;
  }

  lemma {:induction false} InsertAtEnd(log: seq<Row>, row: Row)
    requires forall other | other in log :: Before(other, row)
    ensures Insert(log, row) == log + [row]
  {
    if log != [] {
      assert log[0] in log && !Before(row, log[0]);
      InsertAtEnd(log[1..], row);
      assert log == [log[0]] + log[1..];
    }
  }

  lemma IntactSnoc(log: seq<Row>, row: Row)
    requires Intact(log) && HashOk(row) && (log != [] ==> row.prevHash == Some(LastHash(log)))
    ensures Intact(log + [row])
  {
    forall k | 0 <= k < |log + [row]| ensures RowOk(log + [row], k) {
      if k < |log| {
        assert RowOk(log, k);
      }
    }
  }

  /** Appending behind every row there is keeps order and unique ids. */
  lemma AppendKeepsOrder(log: seq<Row>, row: Row)
    requires Ordered(log) && UniqueIds(log)
    requires forall i | 0 <= i < |log| :: Before(log[i], row) && log[i].fields.id != row.fields.id
    ensures Ordered(log + [row]) && UniqueIds(log + [row])
  {
  }

  lemma CommitKeepsInv(s: State, a: Action)
    requires Inv(s) && Enabled(s, a) && a.Commit?
    ensures Inv(Apply(s, a))
  {
    var row := Row(a.fields, s.tail.value, ComputeAuditHash(s.tail.value, a.fields));
    InsertAtEnd(s.log, row);
    IntactSnoc(s.log, row);
    assert forall i | 0 <= i < |s.log| :: s.log[i] in s.log;
    AppendKeepsOrder(s.log, row);
    assert forall other | other in s.log + [row] :: other in s.log || other == row;
  }

  lemma CommitKeepsTimes(s: State, a: Action)
    requires Inv(s) && DistinctTimes(s.log) && Enabled(s, a) && a.Commit?
    ensures DistinctTimes(Apply(s, a).log)
  {
    var row := Row(a.fields, s.tail.value, ComputeAuditHash(s.tail.value, a.fields));
    InsertAtEnd(s.log, row);
    assert forall i | 0 <= i < |s.log| :: s.log[i] in s.log;
  }

  lemma SuffixKeepsOrder(log: seq<Row>, k: nat)
    requires Ordered(log) && UniqueIds(log) && k <= |log|
    ensures Ordered(log[k..]) && UniqueIds(log[k..])
  {
    var rest := log[k..];
    assert forall i | 0 <= i < |rest| :: rest[i] == log[k + i];
  }

  lemma SuffixIsKnown(s: State, k: nat)
    requires Inv(s) && k <= |s.log|
    ensures forall row | row in s.log[k..] :: row.fields.createdAt <= s.clock && row.fields.id in s.used
    ensures s.tail.Some? && s.log[k..] != [] ==> s.tail.value == Some(LastHash(s.log[k..]))
  {
    assert forall row | row in s.log[k..] :: row in s.log;
  }

  lemma RetainKeepsInv(s: State, cutoff: int)
    requires Inv(s)
    ensures Inv(Apply(s, Retain(cutoff)))
  {
    var k := RetentionDropsPrefix(s.log, cutoff);
    SuffixKeepsOrder(s.log, k);
    SuffixIntact(s.log, k);
    SuffixIsKnown(s, k);
  }

  lemma RetainKeepsTimes(s: State, cutoff: int)
    requires Inv(s) && DistinctTimes(s.log)
    ensures DistinctTimes(Apply(s, Retain(cutoff)).log)
  {
    var k := RetentionDropsPrefix(s.log, cutoff);
    assert forall i | 0 <= i < |s.log[k..]| :: s.log[k..][i] == s.log[k + i];
  }

  lemma StepKeepsInv(s: State, a: Action)
    requires Inv(s) && DistinctTimes(s.log) && Enabled(s, a)
    ensures Inv(Apply(s, a)) && DistinctTimes(Apply(s, a).log)
  {
    match a
    case Acquire(_) =>
    case Rollback(_) =>
    case ReadTail(_, last) =>
      if s.log != [] {
        LatestIsLast(s.log, last);
      }
    case Commit(_, _) =>
      CommitKeepsInv(s, a);
      CommitKeepsTimes(s, a);
    case Retain(cutoff) =>
      RetainKeepsInv(s, cutoff);
      RetainKeepsTimes(s, cutoff);
  }

  lemma {:induction false} RunKeepsInv(ss: seq<State>, acts: seq<Action>, k: nat)
    requires IsRun(ss, acts) && k < |ss|
    ensures Inv(ss[k]) && DistinctTimes(ss[k].log)
  {
    if k > 0 {
      RunKeepsInv(ss, acts, k - 1);
      assert Enabled(ss[k - 1], acts[k - 1]);
      StepKeepsInv(ss[k - 1], acts[k - 1]);
    }
  }

  /** Every reachable log verifies as ok with every row scanned, and no two rows share a predecessor. */
  lemma EveryRunVerifies(ss: seq<State>, acts: seq<Action>, k: nat, v: Verdict)
    requires IsRun(ss, acts) && k < |ss| && Reports(ss[k].log, v)
    ensures UniqueIds(ss[k].log)
    ensures v == Verdict(true, |ss[k].log|, |ss[k].log|, None, Ok)
    ensures forall i, j | 0 <= i < j < |ss[k].log| :: ss[k].log[i].prevHash != ss[k].log[j].prevHash
  {
    RunKeepsInv(ss, acts, k);
    OneVerdict(ss[k].log, v, v);
    forall i, j | 0 <= i < j < |ss[k].log| ensures ss[k].log[i].prevHash != ss[k].log[j].prevHash {
      NoFork(ss[k].log, i, j);
    }
  }

  // ---------- Why creation times must increase ----------

  lemma {:induction false} InsertPosition(log: seq<Row>, row: Row) returns (p: nat)
    requires Ordered(log)
    ensures p <= |log| && Insert(log, row) == log[..p] + [row] + log[p..]
    ensures p < |log| ==> Before(row, log[p])
    ensures forall i | 0 <= i < p :: !Before(row, log[i])
  {
    if log == [] || Before(row, log[0]) {
      p := 0;
    } else {
      var q := InsertPosition(log[1..], row);
      p := q + 1;
      assert log[..p] == [log[0]] + log[1..][..q];
      assert forall i | 1 <= i < p :: log[i] == log[1..][i - 1];
    }
  }

  /** A row that lands before an existing row cuts the link to that row. */
  lemma InTheMiddleBreaks(log: seq<Row>, row: Row, p: nat, q: nat)
    requires Intact(log) && p < |log| && q < |log|
    requires HashOk(row) && row.prevHash == Some(log[q].hash)
    requires forall i | 0 <= i < |log| :: log[i].fields.id != row.fields.id
    ensures !Intact(log[..p] + [row] + log[p..])
  {
    var log' := log[..p] + [row] + log[p..];
    assert log'[p + 1] == log[p] && log'[p] == row;
    assert RowOk(log, p);
    if p == 0 {
      DeeperAlongChain(log, 0, q);
    } else {
      assert RowOk(log, p - 1);
    }
    assert !LinkOk(log', p + 1);
    assert !RowOk(log', p + 1);
  }

  /** A row appended after the last one must point at it. */
  lemma AtTheEndIff(log: seq<Row>, row: Row, q: nat)
    requires Intact(log) && q < |log| && UniqueIds(log)
    requires HashOk(row) && row.prevHash == Some(log[q].hash)
    ensures Intact(log + [row]) <==> q == |log| - 1
  {
    var n := |log|;
    assert RowOk(log, q) && RowOk(log, n - 1);
    if q == n - 1 {
      IntactSnoc(log, row);
    } else {
      assert log[q].hash != log[n - 1].hash;
      assert !LinkOk(log + [row], n);
      assert !RowOk(log + [row], n);
    }
  }

  lemma InsideBreaks(log: seq<Row>, row: Row, p: nat, q: nat)
    requires Ordered(log) && Intact(log) && p < |log| && Before(row, log[p])
    requires forall i | 0 <= i < |log| :: log[i].fields.id != row.fields.id
    requires q < |log| && HashOk(row) && row.prevHash == Some(log[q].hash)
    ensures !Intact(log[..p] + [row] + log[p..]) && !Before(log[|log| - 1], row)
  {
    InTheMiddleBreaks(log, row, p, q);
    assert p < |log| - 1 ==> Before(log[p], log[|log| - 1]);
  }

  lemma LastOfSorted(log: seq<Row>, row: Row)
    requires log != [] && log[|log| - 1].fields.id != row.fields.id
    requires !Before(row, log[|log| - 1])
    ensures Before(log[|log| - 1], row)
  {
  }

  lemma BehindVerifiesIff(log: seq<Row>, row: Row, p: nat, q: nat)
    requires Ordered(log) && Intact(log) && UniqueIds(log) && p == |log| > 0
    requires forall i | 0 <= i < |log| :: log[i].fields.id != row.fields.id && !Before(row, log[i])
    requires q < |log| && HashOk(row) && row.prevHash == Some(log[q].hash)
    ensures Before(log[|log| - 1], row)
    ensures Intact(log[..p] + [row] + log[p..]) <==> log[q] == log[|log| - 1]
  {
    assert log[..p] + [row] + log[p..] == log + [row];
    LastOfSorted(log, row);
    AtTheEndIff(log, row, q);
  }

  /** An append to a good log, for any clock reading and any latest row the query may return, keeps the
      log verifiable exactly when the log was empty or the new row sorts after the last row and that
      row was the predecessor it was given. Rows of equal createdAt can miss both. */
  lemma AppendVerifiesIff(log: seq<Row>, fields: Fields, last: Option<Row>)
    requires Ordered(log) && Intact(log) && UniqueIds(log) && Latest(log, last)
    requires forall i | 0 <= i < |log| :: log[i].fields.id != fields.id
    ensures var row := Row(fields, HashOf(last), ComputeAuditHash(HashOf(last), fields));
            Intact(Insert(log, row)) <==>
            log == [] || (Before(log[|log| - 1], row) && last == Some(log[|log| - 1]))
  {
    var row := Row(fields, HashOf(last), ComputeAuditHash(HashOf(last), fields));
    if log == [] {
      assert RowOk([row], 0);
    } else {
      var p := InsertPosition(log, row);
      var q :| 0 <= q < |log| && log[q] == last.value;
      if p < |log| {
        InsideBreaks(log, row, p, q);
      } else {
        BehindVerifiesIff(log, row, p, q);
      }
    }
  }

  function Plain(id: nat, createdAt: int): Fields {
    Fields(id, createdAt, None, None, "", None, None, None, None, None)
  }

  /** Two rows written in the same millisecond, the second with the smaller id: reported as broken_chain
      although nothing was tampered with. */
  lemma SameMillisecondBreaksChain(t: int) returns (log: seq<Row>)
    ensures exists first: Row, second: Row ::
              && first == Row(Plain(2, t), None, ComputeAuditHash(None, Plain(2, t)))
              && second == Row(Plain(1, t), Some(first.hash), ComputeAuditHash(Some(first.hash), Plain(1, t)))
              && log == Insert(Insert([], first), second)
    ensures forall v | Reports(log, v) :: v == Verdict(false, 2, 1, Some(2), BrokenChain)
  {
    var first := Row(Plain(2, t), None, ComputeAuditHash(None, Plain(2, t)));
    var second := Row(Plain(1, t), Some(first.hash), ComputeAuditHash(Some(first.hash), Plain(1, t)));
    log := Insert(Insert([], first), second);
    assert log == [second, first];
    assert RowOk(log, 0) && !RowOk(log, 1);
  }
}
