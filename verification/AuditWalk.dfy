/** The verifier's walk on a log that changes between its pages: appends and retention at any page boundary. */
module AuditWalk {
  import opened Options
  import opened AuditChain
  import opened AuditProtocol

  /** The walk after its page queries saw the states at these moments of a run. */
  function Walked(ss: seq<State>, times: seq<nat>, pageSize: nat): Pager
    requires forall i | 0 <= i < |times| :: times[i] < |ss|
  {
    if times == [] then BEGIN
    else Turn(ss[times[|times| - 1]].log, Walked(ss, times[..|times| - 1], pageSize), pageSize)
  }

  function ReadAfter(log: seq<Row>, p: Pager, read: seq<Row>, pageSize: nat): seq<Row> {
    if p.done then read else read + PageAfter(log, p.cursor, pageSize).items
  }

  /** The rows of the pages it has fetched, in that order. */
  function Read(ss: seq<State>, times: seq<nat>, pageSize: nat): seq<Row>
    requires forall i | 0 <= i < |times| :: times[i] < |ss|
  {
    if times == [] then []
    else
      var before := times[..|times| - 1];
      ReadAfter(ss[times[|times| - 1]].log, Walked(ss, before, pageSize), Read(ss, before, pageSize), pageSize)
  }

  /** On a log that stands still the walk is the one `VerifyChain` makes, with its verdict. */
  lemma {:induction false} StandingStill(ss: seq<State>, log: seq<Row>, times: seq<nat>, pageSize: nat)
    requires pageSize >= 1 && UniqueIds(log)
    requires forall i | 0 <= i < |times| :: times[i] < |ss| && ss[times[i]].log == log
    ensures Walked(ss, times, pageSize) == Turns(log, |times|, pageSize)
    ensures Walked(ss, times, pageSize).done ==> Reports(log, VerdictOf(Walked(ss, times, pageSize).walk, |log|))
    ensures |times| > |log| ==> Walked(ss, times, pageSize).done
  {
    TurnsKeepTrack(log, |times|, pageSize);
    if times != [] {
      StandingStill(ss, log, times[..|times| - 1], pageSize);
    }
  }

  // ---------- Rows never change and ids never come back ----------

  lemma {:induction false} UsedGrows(ss: seq<State>, acts: seq<Action>, i: nat, j: nat)
    requires IsRun(ss, acts) && i <= j < |ss|
    ensures ss[i].used <= ss[j].used
    decreases j
  {
    if i < j {
      UsedGrows(ss, acts, i, j - 1);
      assert Enabled(ss[j - 1], acts[j - 1]) && ss[j - 1 + 1] == Apply(ss[j - 1], acts[j - 1]);
    }
  }

  /** A row of the next state's log was there before, or is new by its id and its time. */
  lemma RowOrigin(s: State, a: Action, row: Row)
    requires Inv(s) && Enabled(s, a) && row in Apply(s, a).log
    ensures row in s.log || (row.fields.id !in s.used && row.fields.createdAt > s.clock)
  {
    match a
    case Commit(_, fields) =>
      var new_ := Row(fields, s.tail.value, ComputeAuditHash(s.tail.value, fields));
      InsertAtEnd(s.log, new_);
    case Retain(cutoff) =>
      var k := RetentionDropsPrefix(s.log, cutoff);
    case _ =>
  }

  lemma OneRowPerId(log: seq<Row>, row: Row, other: Row)
    requires UniqueIds(log) && row in log && other in log && row.fields.id == other.fields.id
    ensures row == other
  {
    var a :| 0 <= a < |log| && log[a] == row;
    var b :| 0 <= b < |log| && log[b] == other;
  }

  lemma IdsAreUsed(ss: seq<State>, acts: seq<Action>, i: nat, j: nat, row: Row)
    requires IsRun(ss, acts) && i <= j < |ss| && row in ss[i].log
    ensures row.fields.id in ss[j].used
  {
    RunKeepsInv(ss, acts, i);
    UsedGrows(ss, acts, i, j);
  }

  lemma {:induction false} SameIdSameRow(ss: seq<State>, acts: seq<Action>, i: nat, j: nat, row: Row, other: Row)
    requires IsRun(ss, acts) && i <= j < |ss|
    requires row in ss[i].log && other in ss[j].log && row.fields.id == other.fields.id
    ensures row == other
    decreases j
  {
    if i == j {
      RunKeepsInv(ss, acts, j);
      OneRowPerId(ss[j].log, row, other);
    } else {
      RunKeepsInv(ss, acts, j - 1);
      IdsAreUsed(ss, acts, i, j - 1, row);
      assert Enabled(ss[j - 1], acts[j - 1]) && ss[j - 1 + 1] == Apply(ss[j - 1], acts[j - 1]);
      RowOrigin(ss[j - 1], acts[j - 1], other);
      if other in ss[j - 1].log {
        SameIdSameRow(ss, acts, i, j - 1, row, other);
      }
    }
  }

  lemma {:induction false} ClockGrows(ss: seq<State>, acts: seq<Action>, i: nat, j: nat)
    requires IsRun(ss, acts) && i <= j < |ss|
    ensures ss[i].clock <= ss[j].clock
    decreases j
  {
    if i < j {
      ClockGrows(ss, acts, i, j - 1);
      assert Enabled(ss[j - 1], acts[j - 1]) && ss[j - 1 + 1] == Apply(ss[j - 1], acts[j - 1]);
    }
  }

  /** Whatever was not there before was written later than anything was then. */
  lemma {:induction false} NewRowsAreLater(ss: seq<State>, acts: seq<Action>, i: nat, j: nat, row: Row)
    requires IsRun(ss, acts) && i <= j < |ss| && row in ss[j].log && row !in ss[i].log
    ensures row.fields.createdAt > ss[i].clock
    decreases j
  {
    if i < j {
      RunKeepsInv(ss, acts, j - 1);
      assert Enabled(ss[j - 1], acts[j - 1]) && ss[j - 1 + 1] == Apply(ss[j - 1], acts[j - 1]);
      RowOrigin(ss[j - 1], acts[j - 1], row);
      ClockGrows(ss, acts, i, j - 1);
      if row in ss[j - 1].log {
        NewRowsAreLater(ss, acts, i, j - 1, row);
      }
    }
  }

  /** One step takes a row away only by retention, and then everything as old or older with it. */
  lemma RowTaken(s: State, a: Action, gone: Row, row: Row)
    requires Inv(s) && Enabled(s, a) && gone in s.log && gone !in Apply(s, a).log && row in Apply(s, a).log
    ensures row.fields.createdAt > gone.fields.createdAt
  {
    match a
    case Commit(_, fields) =>
      InsertAtEnd(s.log, Row(fields, s.tail.value, ComputeAuditHash(s.tail.value, fields)));
      assert false;
    case Retain(cutoff) =>
      KeptExactly(s.log, cutoff, gone);
      KeptExactly(s.log, cutoff, row);
    case _ =>
  }

  /** Once a row is gone, every row there is was written later. */
  lemma {:induction false} RemovedMeansOlderGone(ss: seq<State>, acts: seq<Action>, i: nat, j: nat, gone: Row, row: Row)
    requires IsRun(ss, acts) && i <= j < |ss| && gone in ss[i].log && gone !in ss[j].log && row in ss[j].log
    ensures row.fields.createdAt > gone.fields.createdAt
    decreases j
  {
    RunKeepsInv(ss, acts, i);
    if i < j {
      RunKeepsInv(ss, acts, j - 1);
      assert Enabled(ss[j - 1], acts[j - 1]) && ss[j - 1 + 1] == Apply(ss[j - 1], acts[j - 1]);
      if gone in ss[j - 1].log {
        RowTaken(ss[j - 1], acts[j - 1], gone, row);
      } else if row in ss[j - 1].log {
        RemovedMeansOlderGone(ss, acts, i, j - 1, gone, row);
      } else {
        RowOrigin(ss[j - 1], acts[j - 1], row);
        ClockGrows(ss, acts, i, j - 1);
      }
    }
  }

  // ---------- One page ----------

  /** Scanning a stretch of an intact log from just behind the row last seen finds nothing wrong. */
  lemma {:induction false} ScanChained(w: Walk, log: seq<Row>, a: nat, b: nat)
    requires Intact(log) && a <= b <= |log| && w.failure == None
    requires w.first || (a > 0 && w.expected == Some(log[a - 1].hash))
    ensures var r := ScanAll(w, log[a..b]);
            && r.failure == None && r.scanned == w.scanned + (b - a)
            && (if b > a then !r.first && r.expected == Some(log[b - 1].hash) else r == w)
    decreases b
  {
    if b > a {
      ScanChained(w, log, a, b - 1);
      ScanSlice(w, log, a, b - 1);
      assert RowOk(log, b - 1);
    }
  }

  /** A cursor leads to just behind its row, or to the end of a log that no longer has it. */
  lemma {:induction false} CursorFound(log: seq<Row>, id: nat)
    ensures var start := Start(log, Some(id));
            || (start > 0 && log[start - 1].fields.id == id)
            || (start == |log| && forall row | row in log :: row.fields.id != id)
  {
    if log != [] && log[0].fields.id != id {
      CursorFound(log[1..], id);
      assert log == [log[0]] + log[1..];
    }
  }

  /** Nothing has failed, and the walk expects the hash of the row its cursor names, the one it has seen last. */
  ghost predicate Honest(p: Pager, seen: Option<Row>) {
    && p.walk.failure == None
    && (p.done || if p.cursor.None? then p.walk.first && seen.None?
                  else seen.Some? && seen.value.fields.id == p.cursor.value && p.walk.expected == Some(seen.value.hash))
  }

  /** A row of the log with the id of the one last seen is that row. */
  ghost predicate SameIfSameId(log: seq<Row>, seen: Option<Row>) {
    forall row | row in log && seen.Some? && row.fields.id == seen.value.fields.id :: row == seen.value
  }

  /** Whether the walk still knows its place: at the very start, or as long as its cursor's row is stored. */
  predicate KnowsPlace(log: seq<Row>, cursor: Option<nat>) {
    cursor.None? || exists row | row in log :: row.fields.id == cursor.value
  }

  /** The next page starts right behind the row last seen, or else behind the whole log. */
  lemma CursorPosition(log: seq<Row>, p: Pager, seen: Option<Row>)
    requires Honest(p, seen) && SameIfSameId(log, seen) && !p.done
    ensures var start := Start(log, p.cursor);
            if KnowsPlace(log, p.cursor) then seen == (if start == 0 then None else Some(log[start - 1]))
            else start == |log|
  {
    if p.cursor.Some? {
      CursorFound(log, p.cursor.value);
      var start := Start(log, p.cursor);
      assert start > 0 && log[start - 1].fields.id == p.cursor.value ==> log[start - 1] in log;
    }
  }

  function SeenAfter(log: seq<Row>, p: Pager, seen: Option<Row>, pageSize: nat): Option<Row> {
    var end := PageEnd(log, p.cursor, pageSize);
    if p.done || end == Start(log, p.cursor) then seen else Some(log[end - 1])
  }

  lemma TurnStaysHonest(log: seq<Row>, p: Pager, seen: Option<Row>, pageSize: nat)
    requires pageSize >= 1 && Intact(log) && Honest(p, seen) && SameIfSameId(log, seen)
    ensures Honest(Turn(log, p, pageSize), SeenAfter(log, p, seen, pageSize))
    ensures !p.done ==>
              Turn(log, p, pageSize).walk.scanned == p.walk.scanned + |PageAfter(log, p.cursor, pageSize).items|
  {
    if !p.done {
      var start, end := Start(log, p.cursor), PageEnd(log, p.cursor, pageSize);
      CursorPosition(log, p, seen);
      if end > start {
        ScanChained(p.walk, log, start, end);
        CursorOfSlice(log, start, end, pageSize);
      }
    }
  }

  // ---------- What has been read ----------

  function RowsOf(rows: seq<Row>): set<Row> {
    set row | row in rows
  }

  function RowsUpTo(rows: seq<Row>, limit: int): set<Row> {
    set row | row in rows && row.fields.createdAt <= limit
  }

  /** In this log, exactly the rows up to the one last seen have been read. */
  ghost predicate Covers(log: seq<Row>, read: seq<Row>, seen: Option<Row>) {
    if seen.None? then read == []
    else
      && RowsOf(read) == RowsUpTo(read, seen.value.fields.createdAt)
      && RowsUpTo(log, seen.value.fields.createdAt) <= RowsOf(read)
  }

  lemma CoversMeans(log: seq<Row>, read: seq<Row>, seen: Row)
    ensures Covers(log, read, Some(seen)) <==>
            && (forall row | row in read :: row.fields.createdAt <= seen.fields.createdAt)
            && (forall row | row in log && row.fields.createdAt <= seen.fields.createdAt :: row in read)
  {
    var limit := seen.fields.createdAt;
    assert forall row :: row in RowsOf(read) <==> row in read;
    assert forall row :: row in RowsUpTo(read, limit) <==> row in read && row.fields.createdAt <= limit;
    assert forall row :: row in RowsUpTo(log, limit) <==> row in log && row.fields.createdAt <= limit;
  }

  lemma UpTo(log: seq<Row>, i: nat, j: nat)
    requires Ordered(log) && DistinctTimes(log) && i < |log| && j < |log|
    ensures log[i].fields.createdAt <= log[j].fields.createdAt <==> i <= j
  {
    assert i < j ==> Before(log[i], log[j]);
    assert j < i ==> Before(log[j], log[i]);
  }

  lemma StretchNotLater(log: seq<Row>, start: nat, end: nat, row: Row)
    requires Ordered(log) && DistinctTimes(log) && start < end <= |log| && row in log[start..end]
    ensures row.fields.createdAt <= log[end - 1].fields.createdAt
  {
    var k :| start <= k < end && log[k] == row;
    UpTo(log, k, end - 1);
  }

  lemma StretchHasRow(log: seq<Row>, start: nat, end: nat, row: Row)
    requires Ordered(log) && DistinctTimes(log) && start < end <= |log|
    requires row in log && row.fields.createdAt <= log[end - 1].fields.createdAt
    ensures row in log[start..end] || (start > 0 && row.fields.createdAt <= log[start - 1].fields.createdAt)
  {
    var k :| 0 <= k < |log| && log[k] == row;
    UpTo(log, k, end - 1);
    if k < start {
      UpTo(log, k, start - 1);
    } else {
      assert log[start..end][k - start] == row;
    }
  }

  /** Reading the rows from behind the one last seen up to another one keeps it so. */
  lemma StretchCovers(log: seq<Row>, read: seq<Row>, start: nat, end: nat)
    requires Ordered(log) && DistinctTimes(log) && start < end <= |log|
    requires Covers(log, read, if start == 0 then None else Some(log[start - 1]))
    ensures Covers(log, read + log[start..end], Some(log[end - 1]))
  {
    var last := log[end - 1];
    if start > 0 {
      CoversMeans(log, read, log[start - 1]);
      UpTo(log, start - 1, end - 1);
    }
    CoversMeans(log, read + log[start..end], last);
    forall row | row in read + log[start..end] ensures row.fields.createdAt <= last.fields.createdAt {
      if row in log[start..end] {
        StretchNotLater(log, start, end, row);
      }
    }
    forall row | row in log && row.fields.createdAt <= last.fields.createdAt ensures row in read + log[start..end] {
      StretchHasRow(log, start, end, row);
    }
  }

  lemma PageCovers(log: seq<Row>, read: seq<Row>, seen: Option<Row>, start: nat, end: nat)
    requires Ordered(log) && DistinctTimes(log) && start <= end <= |log| && Covers(log, read, seen)
    requires start == |log| || seen == (if start == 0 then None else Some(log[start - 1]))
    ensures Covers(log, read + log[start..end], if end == start then seen else Some(log[end - 1]))
  {
    if end > start {
      StretchCovers(log, read, start, end);
    } else {
      assert read + log[start..end] == read;
    }
  }

  /** Later appends and retention change nothing about the rows up to the one last seen. */
  lemma CoversLater(ss: seq<State>, acts: seq<Action>, i: nat, j: nat, read: seq<Row>, seen: Row)
    requires IsRun(ss, acts) && i <= j < |ss| && seen in ss[i].log && Covers(ss[i].log, read, Some(seen))
    ensures Covers(ss[j].log, read, Some(seen)) && SameIfSameId(ss[j].log, Some(seen))
  {
    RunKeepsInv(ss, acts, i);
    CoversMeans(ss[i].log, read, seen);
    CoversMeans(ss[j].log, read, seen);
    forall row | row in ss[j].log && row.fields.createdAt <= seen.fields.createdAt ensures row in read {
      if row !in ss[i].log {
        NewRowsAreLater(ss, acts, i, j, row);
      }
    }
    forall row | row in ss[j].log && row.fields.id == seen.fields.id ensures row == seen {
      SameIdSameRow(ss, acts, i, j, seen, row);
    }
  }

  // ---------- Every honest run ----------

  ghost predicate Ascending(times: seq<nat>) {
    forall i, j | 0 <= i <= j < |times| :: times[i] <= times[j]
  }

  /** The walk is honest, and has read exactly the rows of this log up to the one it has seen last. */
  ghost predicate Tracks(p: Pager, read: seq<Row>, seen: Option<Row>, log: seq<Row>) {
    && Honest(p, seen) && p.walk.scanned == |read|
    && Covers(log, read, seen) && (seen.Some? ==> seen.value in log)
  }

  predicate Idle(log: seq<Row>, p: Pager, pageSize: nat) {
    p.done || PageEnd(log, p.cursor, pageSize) == Start(log, p.cursor)
  }

  lemma IdleTurn(log: seq<Row>, p: Pager, read: seq<Row>, seen: Option<Row>, pageSize: nat, seenIn: seq<Row>)
    requires Tracks(p, read, seen, seenIn) && Idle(log, p, pageSize)
    ensures Tracks(Turn(log, p, pageSize), read, seen, seenIn) && ReadAfter(log, p, read, pageSize) == read
  {
    assert read + [] == read;
  }

  lemma ReadingTurn(log: seq<Row>, p: Pager, read: seq<Row>, seen: Option<Row>, pageSize: nat)
    requires pageSize >= 1 && Honest(p, seen) && p.walk.scanned == |read| && !Idle(log, p, pageSize)
    requires Ordered(log) && DistinctTimes(log) && Intact(log) && SameIfSameId(log, seen) && Covers(log, read, seen)
    ensures Tracks(Turn(log, p, pageSize), ReadAfter(log, p, read, pageSize), SeenAfter(log, p, seen, pageSize), log)
  {
    TurnStaysHonest(log, p, seen, pageSize);
    CursorPosition(log, p, seen);
    PageCovers(log, read, seen, Start(log, p.cursor), PageEnd(log, p.cursor, pageSize));
  }

  /** At any later moment the rows up to the one last seen are still exactly those read. */
  lemma CoversNow(ss: seq<State>, acts: seq<Action>, at: nat, t: nat, read: seq<Row>, seen: Option<Row>)
    requires IsRun(ss, acts) && t < |ss| && (seen.Some? ==> at <= t && seen.value in ss[at].log)
    requires at < |ss| && Covers(ss[at].log, read, seen)
    ensures Covers(ss[t].log, read, seen) && SameIfSameId(ss[t].log, seen)
  {
    if seen.Some? {
      CoversLater(ss, acts, at, t, read, seen.value);
    }
  }

  lemma {:induction false} WalkIsTracked(ss: seq<State>, acts: seq<Action>, times: seq<nat>, pageSize: nat)
    returns (p: Pager, read: seq<Row>, seen: Option<Row>, at: nat)
    requires IsRun(ss, acts) && pageSize >= 1 && Ascending(times)
    requires forall i | 0 <= i < |times| :: times[i] < |ss|
    ensures p == Walked(ss, times, pageSize) && read == Read(ss, times, pageSize)
    ensures at < |ss| && (seen.Some? ==> times != [] && at <= times[|times| - 1])
    ensures Tracks(p, read, seen, ss[at].log)
  {
    if times == [] {
      return BEGIN, [], None, 0;
    }
    var n := |times| - 1;
    var before, t := times[..n], times[n];
    var p0, read0, seen0, at0 := WalkIsTracked(ss, acts, before, pageSize);
    assert n > 0 ==> before[n - 1] == times[n - 1] <= t;
    p, read := Turn(ss[t].log, p0, pageSize), ReadAfter(ss[t].log, p0, read0, pageSize);
    CoversNow(ss, acts, at0, t, read0, seen0);
    RunKeepsInv(ss, acts, t);
    if Idle(ss[t].log, p0, pageSize) {
      IdleTurn(ss[t].log, p0, read0, seen0, pageSize, ss[at0].log);
      seen, at := seen0, at0;
    } else {
      ReadingTurn(ss[t].log, p0, read0, seen0, pageSize);
      seen, at := SeenAfter(ss[t].log, p0, seen0, pageSize), t;
    }
  }

  /** Whatever is appended or retained between its pages, the verifier reports no failure in an honest run. */
  lemma HonestRunNeverFails(ss: seq<State>, acts: seq<Action>, times: seq<nat>, pageSize: nat)
    requires IsRun(ss, acts) && pageSize >= 1 && Ascending(times)
    requires forall i | 0 <= i < |times| :: times[i] < |ss|
    ensures Walked(ss, times, pageSize).walk.failure == None
    ensures Walked(ss, times, pageSize).walk.scanned == |Read(ss, times, pageSize)|
  {
    var p, read, seen, at := WalkIsTracked(ss, acts, times, pageSize);
  }

  // ---------- When the walk is complete ----------

  /** A page that ends the walk of a log it knows its place in ends at the log's end. */
  lemma LastPage(log: seq<Row>, p: Pager, seen: Option<Row>, pageSize: nat)
    requires pageSize >= 1 && log != [] && Intact(log) && Honest(p, seen) && SameIfSameId(log, seen) && !p.done
    requires Turn(log, p, pageSize).done && KnowsPlace(log, p.cursor)
    ensures PageEnd(log, p.cursor, pageSize) == |log|
    ensures Turn(log, p, pageSize).walk.expected == Some(LastHash(log))
  {
    var start, end := Start(log, p.cursor), PageEnd(log, p.cursor, pageSize);
    CursorPosition(log, p, seen);
    CursorOfSlice(log, start, end, pageSize);
    if end > start {
      ScanChained(p.walk, log, start, end);
    }
  }

  /** A walk that has lost its place reads nothing more, and does not expect what the log ends in. */
  lemma LostPage(log: seq<Row>, p: Pager, seen: Row, pageSize: nat)
    requires log != [] && Intact(log) && Honest(p, Some(seen)) && SameIfSameId(log, Some(seen)) && !p.done
    requires HashOk(seen) && !KnowsPlace(log, p.cursor)
    ensures PageAfter(log, p.cursor, pageSize).items == [] && Turn(log, p, pageSize).done
    ensures Turn(log, p, pageSize).walk.expected != Some(LastHash(log)) && seen !in log
  {
    CursorPosition(log, p, Some(seen));
    var last := log[|log| - 1];
    assert RowOk(log, |log| - 1) && last in log;
    assert last.hash == seen.hash ==> last.fields == seen.fields;
  }

  lemma EndCovers(log: seq<Row>, read: seq<Row>, seen: Option<Row>)
    requires log != [] && Ordered(log) && DistinctTimes(log) && Covers(log, read, seen) && seen == Some(log[|log| - 1])
    ensures forall row | row in log :: row in read
  {
    CoversMeans(log, read, seen.value);
    forall row | row in log ensures row in read {
      var k :| 0 <= k < |log| && log[k] == row;
      UpTo(log, k, |log| - 1);
    }
  }

  lemma LastPageCovers(log: seq<Row>, p: Pager, seen: Option<Row>, read: seq<Row>, pageSize: nat)
    requires log != [] && Ordered(log) && DistinctTimes(log) && !p.done
    requires Honest(p, seen) && SameIfSameId(log, seen) && Covers(log, read, seen)
    requires KnowsPlace(log, p.cursor) && PageEnd(log, p.cursor, pageSize) == |log|
    ensures forall row | row in log :: row in read + PageAfter(log, p.cursor, pageSize).items
  {
    CursorPosition(log, p, seen);
    PageCovers(log, read, seen, Start(log, p.cursor), |log|);
    EndCovers(log, read + log[Start(log, p.cursor)..|log|], SeenAfter(log, p, seen, pageSize));
  }

  lemma NothingLeftIsRead(ss: seq<State>, acts: seq<Action>, i: nat, j: nat, read: seq<Row>, seen: Row)
    requires IsRun(ss, acts) && i <= j < |ss| && seen in ss[i].log && seen !in ss[j].log
    requires Covers(ss[j].log, read, Some(seen))
    ensures forall row | row in ss[j].log :: row !in read
  {
    CoversMeans(ss[j].log, read, seen);
    forall row | row in ss[j].log ensures row !in read {
      RemovedMeansOlderGone(ss, acts, i, j, seen, row);
    }
  }

  lemma RowsAreHashed(log: seq<Row>, row: Row)
    requires Intact(log) && row in log
    ensures HashOk(row)
  {
    var k :| 0 <= k < |log| && log[k] == row;
    assert RowOk(log, k);
  }

  /** The walk that the query at the last of these moments ends has read the whole log there is at that
      moment, down to its last hash, exactly when it still knew its place; otherwise none of it. */
  lemma WalkReadsAllIff(ss: seq<State>, acts: seq<Action>, times: seq<nat>, pageSize: nat)
    requires IsRun(ss, acts) && pageSize >= 1 && Ascending(times) && times != []
    requires forall i | 0 <= i < |times| :: times[i] < |ss|
    requires !Walked(ss, times[..|times| - 1], pageSize).done && Walked(ss, times, pageSize).done
    requires ss[times[|times| - 1]].log != []
    ensures var log := ss[times[|times| - 1]].log;
            var knows := KnowsPlace(log, Walked(ss, times[..|times| - 1], pageSize).cursor);
            && (knows ==> forall row | row in log :: row in Read(ss, times, pageSize))
            && (!knows ==> forall row | row in log :: row !in Read(ss, times, pageSize))
            && (Walked(ss, times, pageSize).walk.expected == Some(LastHash(log)) <==> knows)
  {
    var before, t := times[..|times| - 1], times[|times| - 1];
    var log := ss[t].log;
    var p, read, seen, at := WalkIsTracked(ss, acts, before, pageSize);
    assert |times| > 1 ==> before[|before| - 1] == times[|times| - 2] <= t;
    CoversNow(ss, acts, at, t, read, seen);
    RunKeepsInv(ss, acts, t);
    if KnowsPlace(log, p.cursor) {
      LastPage(log, p, seen, pageSize);
      LastPageCovers(log, p, seen, read, pageSize);
    } else {
      RunKeepsInv(ss, acts, at);
      RowsAreHashed(ss[at].log, seen.value);
      LostPage(log, p, seen.value, pageSize);
      NothingLeftIsRead(ss, acts, at, t, read, seen.value);
      assert read + [] == read;
    }
  }

  // ---------- A walk that loses its place ----------

  lemma Extend(ss: seq<State>, acts: seq<Action>, a: Action)
    requires IsRun(ss, acts) && Enabled(ss[|acts|], a)
    ensures IsRun(ss + [Apply(ss[|acts|], a)], acts + [a])
  {
    var ss', acts' := ss + [Apply(ss[|acts|], a)], acts + [a];
    forall i | 0 <= i < |acts'| ensures Enabled(ss'[i], acts'[i]) && ss'[i + 1] == Apply(ss'[i], acts'[i]) {
      if i < |acts| {
        assert Enabled(ss[i], acts[i]);
      }
    }
  }

  /** One append by the process that next takes the lock. */
  lemma Append(ss: seq<State>, acts: seq<Action>, last: Option<Row>, fields: Fields)
    returns (ss': seq<State>, acts': seq<Action>)
    requires IsRun(ss, acts) && ss[|acts|].holder == None && Latest(ss[|acts|].log, last)
    requires fields.id !in ss[|acts|].used && fields.createdAt > ss[|acts|].clock
    ensures IsRun(ss', acts') && ss <= ss' && |acts'| == |acts| + 3
    ensures var s := ss[|acts|];
            ss'[|acts'|] == State(Insert(s.log, Row(fields, HashOf(last), ComputeAuditHash(HashOf(last), fields))),
                                  None, None, fields.createdAt, s.used + {fields.id})
  {
    var s := ss[|acts|];
    var s1 := Apply(s, Acquire(0));
    var s2 := Apply(s1, ReadTail(0, last));
    Extend(ss, acts, Acquire(0));
    Extend(ss + [s1], acts + [Acquire(0)], ReadTail(0, last));
    Extend(ss + [s1] + [s2], acts + [Acquire(0)] + [ReadTail(0, last)], Commit(0, fields));
    ss' := ss + [s1] + [s2] + [Apply(s2, Commit(0, fields))];
    acts' := acts + [Acquire(0)] + [ReadTail(0, last)] + [Commit(0, fields)];
  }

  lemma LastQuery(ss: seq<State>, times: seq<nat>, pageSize: nat)
    requires times != [] && forall i | 0 <= i < |times| :: times[i] < |ss|
    ensures var before, log := times[..|times| - 1], ss[times[|times| - 1]].log;
            var p := Walked(ss, before, pageSize);
            && Walked(ss, times, pageSize) == Turn(log, p, pageSize)
            && Read(ss, times, pageSize) == ReadAfter(log, p, Read(ss, before, pageSize), pageSize)
  {
  }

  lemma FirstPage(first: Row)
    requires HashOk(first) && first.fields.id == 1
    ensures PageAfter([first], None, 1) == Page([first], Some(1))
    ensures Turn([first], BEGIN, 1) == Pager(Walk(Some(first.hash), false, 1, None), Some(1), false)
  {
    assert [first][0..1] == [first];
    assert [first][..0] == [];
    assert ScanAll(START, [first]) == Scan(START, first);
  }

  lemma SecondPage(first: Row, row: Row)
    requires row.fields.id == 2
    ensures PageAfter([row], Some(1), 1).items == []
    ensures var p := Pager(Walk(Some(first.hash), false, 1, None), Some(1), false);
            Turn([row], p, 1) == p.(done := true)
  {
    assert [row][1..] == [];
    assert Start([row], Some(1)) == 1;
  }

  lemma LosesPlace(ss: seq<State>, first: Row, row: Row)
    requires |ss| == 8 && ss[3].log == [first] && ss[7].log == [row]
    requires HashOk(first) && first.fields.id == 1 && row.fields.id == 2
    ensures Walked(ss, [3, 7], 1) == Pager(Walk(Some(first.hash), false, 1, None), Some(1), true)
    ensures Read(ss, [3, 7], 1) == [first]
  {
    FirstPage(first);
    SecondPage(first, row);
    var none: seq<nat> := [];
    assert [3][..0] == none && [3, 7][..1] == [3];
    LastQuery(ss, [3], 1);
    LastQuery(ss, [3, 7], 1);
    assert Read(ss, none, 1) + [first] == [first] && [first] + [] == [first];
  }

  lemma DropsFirst(first: Row, row: Row)
    requires first.fields.createdAt == 1 && row.fields.createdAt == 2
    ensures Kept([first, row], 2) == [row]
  {
    assert [row][1..] == [];
    assert Kept([row], 2) == [row] + Kept([], 2);
    assert [first, row][1..] == [row];
  }

  lemma TwoAppends() returns (ss: seq<State>, acts: seq<Action>, first: Row, row: Row)
    ensures IsRun(ss, acts) && |ss| == 7 && ss[3].log == [first] && ss[6].log == [first, row]
    ensures HashOk(first) && first.fields == Plain(1, 1) && row.fields == Plain(2, 2)
  {
    var f1, f2 := Plain(1, 1), Plain(2, 2);
    first := Row(f1, None, ComputeAuditHash(None, f1));
    row := Row(f2, Some(first.hash), ComputeAuditHash(Some(first.hash), f2));
    ss, acts := Append([State([], None, None, 0, {})], [], None, f1);
    assert Insert([], first) == [first];
    var ss3 := ss;
    ss, acts := Append(ss, acts, Some(first), f2);
    assert Insert([first], row) == [first, row];
    assert ss[3] == ss3[3];
  }

  /** Between two pages of one row, a second row is appended and retention removes the first: the walk ends
      as valid with one row scanned, and the one row there is has not been read. */
  lemma RetentionEndsWalk() returns (ss: seq<State>, acts: seq<Action>, row: Row)
    ensures IsRun(ss, acts) && |ss| == 8 && ss[7].log == [row]
    ensures var w := Walked(ss, [3, 7], 1);
            w.done && VerdictOf(w.walk, 1) == Verdict(true, 1, 1, None, Ok) && row !in Read(ss, [3, 7], 1)
  {
    var first: Row;
    ss, acts, first, row := TwoAppends();
    Extend(ss, acts, Retain(2));
    ss, acts := ss + [Apply(ss[6], Retain(2))], acts + [Retain(2)];
    DropsFirst(first, row);
    LosesPlace(ss, first, row);
  }
}
