/** The audit log's hash chain: rows, the paged verifier, tamper evidence. */
module AuditChain {
  import opened Options

  datatype Fields = Fields(
    id: nat,
    createdAt: int,
    userId: Option<string>,
    workspaceId: Option<string>,
    action: string,
    resource: Option<string>,
    resourceId: Option<string>,
    metadata: Option<string>,
    ipAddress: Option<string>,
    userAgent: Option<string>)

  /** SHA-256 of the canonical text, taken to be collision free; a stored hash may also be any other text. */
  datatype Digest = Foreign(text: string) | Sha(prevHash: Option<Digest>, fields: Fields)

  datatype Row = Row(fields: Fields, prevHash: Option<Digest>, hash: Digest)

  function ComputeAuditHash(prevHash: Option<Digest>, fields: Fields): Digest {
    Sha(prevHash, fields)
  }

  /** ORDER BY createdAt ASC, id ASC. */
  predicate Before(a: Row, b: Row) {
    a.fields.createdAt < b.fields.createdAt ||
    (a.fields.createdAt == b.fields.createdAt && a.fields.id < b.fields.id)
  }

  predicate Ordered(log: seq<Row>) {
    forall i, j | 0 <= i < j < |log| :: Before(log[i], log[j])
  }

  predicate UniqueIds(log: seq<Row>) {
    forall i, j | 0 <= i < j < |log| :: log[i].fields.id != log[j].fields.id
  }

  // ---------- What the verifier is for ----------

  predicate LinkOk(log: seq<Row>, k: nat)
    requires k < |log|
  {
    k == 0 || log[k].prevHash == Some(log[k - 1].hash)
  }

  predicate HashOk(row: Row) {
    row.hash == ComputeAuditHash(row.prevHash, row.fields)
  }

  predicate RowOk(log: seq<Row>, k: nat)
    requires k < |log|
  {
    LinkOk(log, k) && HashOk(log[k])
  }

  predicate Intact(log: seq<Row>) {
    forall k {:trigger RowOk(log, k)} | 0 <= k < |log| :: RowOk(log, k)
  }

  datatype Reason = Ok | BadHash | BrokenChain

  datatype Verdict = Verdict(valid: bool, total: nat, scanned: nat, brokenAt: Option<nat>, reason: Reason)

  /** What one pass over the ordered log should report. */
  predicate Reports(log: seq<Row>, v: Verdict) {
    && v.total == |log|
    && v.scanned <= |log|
    && (forall k {:trigger RowOk(log, k)} | 0 <= k < v.scanned :: RowOk(log, k))
    && if v.scanned == |log| then v.valid && v.brokenAt == None && v.reason == Ok
       else
         && !v.valid
         && v.brokenAt == Some(log[v.scanned].fields.id)
         && (if LinkOk(log, v.scanned) then !HashOk(log[v.scanned]) && v.reason == BadHash else v.reason == BrokenChain)
  }

  predicate GoodUpTo(log: seq<Row>, n: nat) {
    n <= |log| && forall k {:trigger RowOk(log, k)} | 0 <= k < n :: RowOk(log, k)
  }

  /** So the page size cannot matter. */
  lemma OneVerdict(log: seq<Row>, v: Verdict, v': Verdict)
    requires Reports(log, v) && Reports(log, v')
    ensures v == v' && (v.valid <==> Intact(log))
  {
    assert v.scanned < |log| ==> !RowOk(log, v.scanned);
    assert v'.scanned < |log| ==> !RowOk(log, v'.scanned);
  }

  // ---------- The repository ----------

  /** The row goes where ORDER BY will return it. */
  function Insert(log: seq<Row>, row: Row): seq<Row> {
    if log == [] || Before(row, log[0]) then [row] + log
    else [log[0]] + Insert(log[1..], row)
  }

  function Kept(log: seq<Row>, cutoff: int): seq<Row> {
    if log == [] then []
    else (if log[0].fields.createdAt < cutoff then [] else [log[0]]) + Kept(log[1..], cutoff)
  }

  lemma {:induction false} KeptShorter(log: seq<Row>, cutoff: int)
    ensures |Kept(log, cutoff)| <= |log|
  {
    if log != [] {
      KeptShorter(log[1..], cutoff);
    }
  }

  lemma {:induction false} KeptExactly(log: seq<Row>, cutoff: int, row: Row)
    ensures row in Kept(log, cutoff) <==> row in log && row.fields.createdAt >= cutoff
  {
    if log != [] {
      KeptExactly(log[1..], cutoff, row);
      assert row in log <==> row == log[0] || row in log[1..];
    }
  }

  /** `findFirst` ordered by createdAt descending: some row none is later than. */
  predicate Latest(log: seq<Row>, last: Option<Row>) {
    match last
    case None => log == []
    case Some(row) => row in log && forall other | other in log :: other.fields.createdAt <= row.fields.createdAt
  }

  function HashOf(last: Option<Row>): Option<Digest> {
    if last.None? then None else Some(last.value.hash)
  }

  datatype Page = Page(items: seq<Row>, nextCursor: Option<nat>)

  /** Where a page starts: after the cursor's row, or past the end if no row has that id. */
  function Start(log: seq<Row>, afterId: Option<nat>): (k: nat)
    ensures k <= |log|
  {
    if afterId.None? then 0
    else if log == [] then 0
    else if log[0].fields.id == afterId.value then 1
    else 1 + Start(log[1..], afterId)
  }

  lemma {:induction false} StartAfter(log: seq<Row>, k: nat)
    requires k < |log| && UniqueIds(log)
    ensures Start(log, Some(log[k].fields.id)) == k + 1
  {
    if k > 0 {
      assert log[0].fields.id != log[k].fields.id;
      StartAfter(log[1..], k - 1);
    }
  }

  function PageEnd(log: seq<Row>, afterId: Option<nat>, pageSize: nat): (end: nat)
    ensures Start(log, afterId) <= end <= |log|
  {
    if Start(log, afterId) + pageSize <= |log| then Start(log, afterId) + pageSize else |log|
  }

  /** A full page names its last row as next cursor. */
  function PageOf(items: seq<Row>, pageSize: nat): Page {
    Page(items, if |items| == pageSize && items != [] then Some(items[|items| - 1].fields.id) else None)
  }

  /** The rows after the cursor's, at most one page of them. */
  function PageAfter(log: seq<Row>, afterId: Option<nat>, pageSize: nat): Page {
    PageOf(log[Start(log, afterId)..PageEnd(log, afterId, pageSize)], pageSize)
  }

  lemma {:induction false} StartFrom(log: seq<Row>, k: nat, id: nat)
    requires k <= |log| && forall i | 0 <= i < k :: log[i].fields.id != id
    ensures Start(log, Some(id)) == k + Start(log[k..], Some(id))
  {
    if k > 0 {
      StartFrom(log[1..], k - 1, id);
      assert log[1..][k - 1..] == log[k..];
    } else {
      assert log[0..] == log;
    }
  }

  class AuditLogs {
    /** The table, as ORDER BY createdAt ASC, id ASC returns it. */
    var rows: seq<Row>

    constructor ()
      ensures rows == []
    {
      rows := [];
    }

    method FindLatest() returns (last: Option<Row>)
      requires Ordered(rows)
      ensures Latest(rows, last)
    {
      if rows == [] {
        return None;
      }
      last := Some(rows[|rows| - 1]);
    }

    /** One transaction under the chain lock; `fields` already carries the fresh id and the clock reading. */
    method Create(fields: Fields) returns (log: Row)
      requires Ordered(rows)
      modifies this
      ensures exists last :: Latest(old(rows), last) && log.prevHash == HashOf(last)
      ensures log.fields == fields && HashOk(log)
      ensures rows == Insert(old(rows), log)
    {
      var last := FindLatest();
      var prevHash := HashOf(last);
      var hash := ComputeAuditHash(prevHash, fields);
      log := Row(fields, prevHash, hash);
      rows := Insert(rows, log);
    }

    method DeleteOlderThan(cutoff: int) returns (count: nat)
      modifies this
      ensures rows == Kept(old(rows), cutoff)
      ensures forall row :: row in rows <==> row in old(rows) && row.fields.createdAt >= cutoff
      ensures count == |old(rows)| - |rows|
    {
      forall row ensures row in Kept(rows, cutoff) <==> row in rows && row.fields.createdAt >= cutoff {
        KeptExactly(rows, cutoff, row);
      }
      KeptShorter(rows, cutoff);
      count := |rows| - |Kept(rows, cutoff)|;
      rows := Kept(rows, cutoff);
    }

    method CountAll() returns (n: nat)
      ensures n == |rows|
    {
      n := |rows|;
    }

    method FindStart(afterId: Option<nat>) returns (start: nat)
      ensures start == Start(rows, afterId)
    {
      start := 0;
      if afterId.Some? {
        while start < |rows| && rows[start].fields.id != afterId.value
          invariant start <= |rows| && forall i | 0 <= i < start :: rows[i].fields.id != afterId.value
        {
          start := start + 1;
        }
        StartFrom(rows, start, afterId.value);
        start := if start < |rows| then start + 1 else start;
      }
    }

    method IterateChainAsc(afterId: Option<nat>, pageSize: nat) returns (page: Page)
      ensures page == PageAfter(rows, afterId, pageSize)
    {
      var start := FindStart(afterId);
      var end := if start + pageSize <= |rows| then start + pageSize else |rows|;
      var items := rows[start..end];
      var nextCursor := if |items| == pageSize && items != [] then Some(items[|items| - 1].fields.id) else None;
      page := Page(items, nextCursor);
    }
  }

  const PAGE_SIZE: nat := 500

  // ---------- The paged walk ----------

  /** What the walk carries from row to row; `failure` is the id of the row it stopped at, and why. */
  datatype Walk = Walk(expected: Option<Digest>, first: bool, scanned: nat, failure: Option<(nat, Reason)>)

  const START: Walk := Walk(None, true, 0, None)

  function Scan(w: Walk, row: Row): Walk {
    if w.failure.Some? then w
    else
      var expected := if w.first then row.prevHash else w.expected;
      if row.prevHash != expected then w.(failure := Some((row.fields.id, BrokenChain)))
      else if !HashOk(row) then w.(failure := Some((row.fields.id, BadHash)))
      else Walk(Some(row.hash), false, w.scanned + 1, None)
  }

  function ScanAll(w: Walk, rows: seq<Row>): Walk {
    if rows == [] then w else Scan(ScanAll(w, rows[..|rows| - 1]), rows[|rows| - 1])
  }

  lemma {:induction false} FailureStays(w: Walk, rows: seq<Row>, i: nat)
    requires i <= |rows| && ScanAll(w, rows[..i]).failure.Some?
    ensures ScanAll(w, rows) == ScanAll(w, rows[..i])
    decreases |rows|
  {
    if i < |rows| {
      assert rows[..|rows| - 1][..i] == rows[..i];
      FailureStays(w, rows[..|rows| - 1], i);
    } else {
      assert rows[..i] == rows;
    }
  }

  /** The inner loop, over the rows of one page. */
  method ScanPage(w: Walk, items: seq<Row>) returns (r: Walk)
    requires w.failure == None
    ensures r == ScanAll(w, items)
  {
    var expectedPrevHash, first, scanned := w.expected, w.first, w.scanned;
    for i := 0 to |items|
      invariant ScanAll(w, items[..i]) == Walk(expectedPrevHash, first, scanned, None)
    {
      var row := items[i];
      assert items[..i + 1][..i] == items[..i];
      var before := Walk(expectedPrevHash, first, scanned, None);
      assert ScanAll(w, items[..i + 1]) == Scan(before, row);
      if first {
        expectedPrevHash := row.prevHash;
        first := false;
      }
      if row.prevHash != expectedPrevHash {
        FailureStays(w, items, i + 1);
        return before.(failure := Some((row.fields.id, BrokenChain)));
      }
      var recomputed := ComputeAuditHash(row.prevHash, row.fields);
      if recomputed != row.hash {
        FailureStays(w, items, i + 1);
        return before.(failure := Some((row.fields.id, BadHash)));
      }
      expectedPrevHash := Some(row.hash);
      scanned := scanned + 1;
    }
    assert items[..|items|] == items;
    r := Walk(expectedPrevHash, first, scanned, None);
  }

  /** The walk has passed exactly the first rows of the log, all good. */
  ghost predicate InSync(log: seq<Row>, w: Walk) {
    && w.failure == None && GoodUpTo(log, w.scanned)
    && (w.first <==> w.scanned == 0)
    && (w.scanned > 0 ==> w.expected == Some(log[w.scanned - 1].hash))
  }

  /** The walk has stopped where one pass over the log would have. */
  ghost predicate Stopped(log: seq<Row>, w: Walk) {
    w.failure.Some? && Reports(log, Verdict(false, |log|, w.scanned, Some(w.failure.value.0), w.failure.value.1))
  }

  lemma SliceSnoc(log: seq<Row>, a: nat, b: nat)
    requires a < b <= |log|
    ensures log[a..b] == log[a..b - 1] + [log[b - 1]]
  {
  }

  lemma ScanSnoc(w: Walk, rows: seq<Row>, row: Row)
    ensures ScanAll(w, rows + [row]) == Scan(ScanAll(w, rows), row)
  {
    assert (rows + [row])[..|rows|] == rows;
  }

  lemma ScanSlice(w: Walk, log: seq<Row>, a: nat, b: nat)
    requires a <= b < |log|
    ensures ScanAll(w, log[a..b + 1]) == Scan(ScanAll(w, log[a..b]), log[b])
  {
    SliceSnoc(log, a, b + 1);
    ScanSnoc(w, log[a..b], log[b]);
  }

  /** The walk has passed exactly k rows, or has stopped where it should. */
  ghost predicate PassedOrStopped(log: seq<Row>, w: Walk, k: nat) {
    (InSync(log, w) && w.scanned == k) || Stopped(log, w)
  }

  lemma ScanStep(log: seq<Row>, w: Walk)
    requires InSync(log, w) && w.scanned < |log|
    ensures PassedOrStopped(log, Scan(w, log[w.scanned]), w.scanned + 1)
  {
    assert GoodUpTo(log, w.scanned) && (RowOk(log, w.scanned) ==> GoodUpTo(log, w.scanned + 1));
  }

  lemma ScanOnward(log: seq<Row>, r: Walk, k: nat)
    requires k < |log| && PassedOrStopped(log, r, k)
    ensures PassedOrStopped(log, Scan(r, log[k]), k + 1)
  {
    if r.failure.None? {
      ScanStep(log, r);
    }
  }

  lemma {:induction false} ScanKeepsSync(log: seq<Row>, w: Walk, n: nat)
    requires InSync(log, w) && w.scanned + n <= |log|
    ensures PassedOrStopped(log, ScanAll(w, log[w.scanned..w.scanned + n]), w.scanned + n)
  {
    if n > 0 {
      var last := w.scanned + n - 1;
      ScanKeepsSync(log, w, n - 1);
      ScanSlice(w, log, w.scanned, last);
      ScanOnward(log, ScanAll(w, log[w.scanned..last]), last);
      assert w.scanned + n == last + 1;
    }
  }

  lemma CursorOfSlice(log: seq<Row>, start: nat, end: nat, pageSize: nat)
    requires start <= end <= |log| && pageSize >= 1
    ensures PageOf(log[start..end], pageSize).nextCursor ==
              if end - start == pageSize then Some(log[end - 1].fields.id) else None
  {
  }

  lemma CursorLeadsPast(log: seq<Row>, end: nat, next: Option<nat>)
    requires UniqueIds(log) && 0 < end <= |log| && next == Some(log[end - 1].fields.id)
    ensures Start(log, next) == end
  {
    StartAfter(log, end - 1);
  }

  /** The next cursor leads to just after the page, and there is none only at the end of the log. */
  lemma NextCursor(log: seq<Row>, cursor: Option<nat>, pageSize: nat)
    requires pageSize >= 1 && UniqueIds(log)
    ensures var next, end := PageAfter(log, cursor, pageSize).nextCursor, PageEnd(log, cursor, pageSize);
            if next.Some? then Start(log, next) == end else end == |log|
  {
    var start, end := Start(log, cursor), PageEnd(log, cursor, pageSize);
    var next := PageAfter(log, cursor, pageSize).nextCursor;
    CursorOfSlice(log, start, end, pageSize);
    if next.Some? {
      CursorLeadsPast(log, end, next);
    }
  }

  /** One page: either all its rows were good, or the walk stopped. */
  lemma PageKeepsSync(log: seq<Row>, w: Walk, cursor: Option<nat>, pageSize: nat)
    requires InSync(log, w) && Start(log, cursor) == w.scanned
    ensures PassedOrStopped(log, ScanAll(w, PageAfter(log, cursor, pageSize).items), PageEnd(log, cursor, pageSize))
  {
    ScanKeepsSync(log, w, PageEnd(log, cursor, pageSize) - w.scanned);
  }

  /** The walk between two page queries. */
  datatype Pager = Pager(walk: Walk, cursor: Option<nat>, done: bool)

  const BEGIN: Pager := Pager(START, None, false)

  /** One page query and the inner loop over its rows. */
  function Turn(log: seq<Row>, p: Pager, pageSize: nat): Pager {
    if p.done then p
    else
      var page := PageAfter(log, p.cursor, pageSize);
      if page.items == [] then p.(done := true)
      else
        var w := ScanAll(p.walk, page.items);
        if w.failure.Some? || page.nextCursor.None? then Pager(w, p.cursor, true)
        else Pager(w, page.nextCursor, false)
  }

  /** n page queries on a log that stands still. */
  function Turns(log: seq<Row>, n: nat, pageSize: nat): Pager {
    if n == 0 then BEGIN else Turn(log, Turns(log, n - 1, pageSize), pageSize)
  }

  /** What is answered when the walk is over; `total` was counted before it. */
  function VerdictOf(w: Walk, total: nat): Verdict {
    if w.failure.None? then Verdict(true, total, w.scanned, None, Ok)
    else Verdict(false, total, w.scanned, Some(w.failure.value.0), w.failure.value.1)
  }

  /** While it goes on the walk is in step with the log; once over, its answer is the one-pass report. */
  ghost predicate OnTrack(log: seq<Row>, p: Pager) {
    if p.done then Reports(log, VerdictOf(p.walk, |log|))
    else InSync(log, p.walk) && Start(log, p.cursor) == p.walk.scanned
  }

  lemma TurnKeepsTrack(log: seq<Row>, p: Pager, pageSize: nat)
    requires pageSize >= 1 && UniqueIds(log) && OnTrack(log, p)
    ensures OnTrack(log, Turn(log, p, pageSize))
    ensures !Turn(log, p, pageSize).done ==> Turn(log, p, pageSize).walk.scanned > p.walk.scanned
  {
    if !p.done {
      PageKeepsSync(log, p.walk, p.cursor, pageSize);
      NextCursor(log, p.cursor, pageSize);
    }
  }

  lemma {:induction false} TurnsKeepTrack(log: seq<Row>, n: nat, pageSize: nat)
    requires pageSize >= 1 && UniqueIds(log)
    ensures OnTrack(log, Turns(log, n, pageSize))
    ensures !Turns(log, n, pageSize).done ==> Turns(log, n, pageSize).walk.scanned >= n
  {
    if n > 0 {
      TurnsKeepTrack(log, n - 1, pageSize);
      TurnKeepsTrack(log, Turns(log, n - 1, pageSize), pageSize);
    }
  }

  /** The whole verification, for any page size of at least one, on a table that stands still: so many turns
      of the walk that it is over, and then the one-pass report. */
  method VerifyChain(auditLogs: AuditLogs, pageSize: nat) returns (v: Verdict)
    requires pageSize >= 1 && UniqueIds(auditLogs.rows)
    ensures Reports(auditLogs.rows, v)
    ensures exists n | Turns(auditLogs.rows, n, pageSize).done ::
              v == VerdictOf(Turns(auditLogs.rows, n, pageSize).walk, |auditLogs.rows|)
  {
    ghost var log := auditLogs.rows;
    ghost var n := 0;
    var total := auditLogs.CountAll();
    var cursor: Option<nat> := None;
    var walk := START;
    while true
      invariant Turns(log, n, pageSize) == Pager(walk, cursor, false)
      invariant walk.failure == None && walk.scanned <= |log|
      decreases |log| - walk.scanned
    {
      TurnsKeepTrack(log, n, pageSize);
      TurnsKeepTrack(log, n + 1, pageSize);
      TurnKeepsTrack(log, Pager(walk, cursor, false), pageSize);
      n := n + 1;
      var page := auditLogs.IterateChainAsc(cursor, pageSize);
      if |page.items| == 0 {
        break;
      }
      walk := ScanPage(walk, page.items);
      if walk.failure.Some? {
        return Verdict(false, total, walk.scanned, Some(walk.failure.value.0), walk.failure.value.1);
      }
      if page.nextCursor == None {
        break;
      }
      cursor := page.nextCursor;
    }
    v := Verdict(true, total, walk.scanned, None, Ok);
  }

  method Execute(auditLogs: AuditLogs) returns (v: Verdict)
    requires UniqueIds(auditLogs.rows)
    ensures Reports(auditLogs.rows, v)
  {
    v := VerifyChain(auditLogs, PAGE_SIZE);
  }

  // ---------- Tamper evidence ----------

  function LastHash(log: seq<Row>): Digest
    requires log != []
  {
    log[|log| - 1].hash
  }

  lemma {:induction false} SameRowFromEnd(a: seq<Row>, b: seq<Row>, t: nat)
    requires a != [] && t < |a| <= |b| && Intact(a) && Intact(b) && LastHash(a) == LastHash(b)
    ensures a[|a| - 1 - t] == b[|b| - 1 - t]
  {
    var i, j := |a| - 1 - t, |b| - 1 - t;
    assert RowOk(a, i) && RowOk(b, j);
    if t > 0 {
      SameRowFromEnd(a, b, t - 1);
      assert RowOk(a, i + 1) && RowOk(b, j + 1);
    }
  }

  /** Two accepted logs that end in the same hash agree on their whole common length. */
  lemma SameEndSameRows(a: seq<Row>, b: seq<Row>)
    requires a != [] && |a| <= |b| && Intact(a) && Intact(b) && LastHash(a) == LastHash(b)
    ensures a == b[|b| - |a|..]
  {
    forall i | 0 <= i < |a| ensures a[i] == b[|b| - |a|..][i] {
      SameRowFromEnd(a, b, |a| - 1 - i);
    }
  }

  lemma SuffixIntact(log: seq<Row>, k: nat)
    requires Intact(log) && k <= |log|
    ensures Intact(log[k..])
  {
    forall i | 0 <= i < |log| - k ensures RowOk(log[k..], i) {
      assert RowOk(log, k + i);
    }
  }

  /** Against a log that reaches back to the first row ever written, the only change that keeps the
      final hash and still verifies is dropping rows from the front. */
  lemma OnlyTruncationPasses(original: seq<Row>, found: seq<Row>)
    requires original != [] && found != [] && Intact(original) && original[0].prevHash == None
    requires LastHash(found) == LastHash(original)
    ensures Intact(found) <==> |found| <= |original| && found == original[|original| - |found|..]
  {
    if |found| <= |original| && found == original[|original| - |found|..] {
      SuffixIntact(original, |original| - |found|);
    }
    if Intact(found) {
      if |found| <= |original| {
        SameEndSameRows(found, original);
      } else {
        var k := |found| - |original|;
        assert RowOk(found, k) && found[k..][0] == found[k];
        SameEndSameRows(original, found);
      }
    }
  }

  // ---------- Chains never fold back ----------

  function Depth(d: Digest): nat {
    match d
    case Foreign(_) => 0
    case Sha(prev, _) => 1 + (match prev case None => 0 case Some(p) => Depth(p))
  }

  function DepthOf(d: Option<Digest>): int {
    if d.None? then 0 else Depth(d.value)
  }

  lemma {:induction false} DeeperAlongChain(log: seq<Row>, i: nat, j: nat)
    requires Intact(log) && i <= j < |log|
    ensures DepthOf(log[i].prevHash) < Depth(log[j].hash)
    decreases j - i
  {
    assert RowOk(log, j);
    if i < j {
      DeeperAlongChain(log, i, j - 1);
    }
  }

  /** No two rows of an intact log name the same predecessor. */
  lemma NoFork(log: seq<Row>, i: nat, j: nat)
    requires Intact(log) && i < j < |log|
    ensures log[i].prevHash != log[j].prevHash
  {
    DeeperAlongChain(log, i, j - 1);
    assert RowOk(log, j);
  }

  lemma {:induction false} NothingToDrop(log: seq<Row>, cutoff: int)
    requires Ordered(log) && (log != [] ==> log[0].fields.createdAt >= cutoff)
    ensures Kept(log, cutoff) == log
  {
    if log != [] {
      assert |log| > 1 ==> Before(log[0], log[1]) && log[1..][0] == log[1];
      NothingToDrop(log[1..], cutoff);
      assert [log[0]] + log[1..] == log;
    }
  }

  /** Retention removes exactly the rows before some position: those older than the cutoff. */
  lemma {:induction false} RetentionDropsPrefix(log: seq<Row>, cutoff: int) returns (k: nat)
    requires Ordered(log)
    ensures k <= |log| && Kept(log, cutoff) == log[k..]
    ensures forall i | 0 <= i < |log| :: i < k <==> log[i].fields.createdAt < cutoff
  {
    if log == [] || log[0].fields.createdAt >= cutoff {
      NothingToDrop(log, cutoff);
      assert forall i | 0 < i < |log| :: Before(log[0], log[i]);
      return 0;
    }
    var rest := RetentionDropsPrefix(log[1..], cutoff);
    k := rest + 1;
    assert log[1..][rest..] == log[k..];
    forall i | 0 <= i < |log| ensures i < k <==> log[i].fields.createdAt < cutoff {
      assert i > 0 ==> log[i] == log[1..][i - 1];
    }
  }
}
