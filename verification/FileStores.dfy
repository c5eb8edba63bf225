/**
 The health file of a standalone node: findings, the transition log and one
 health record per task. Every call loads the state, edits it and saves it;
 here the state is the object's fields.

 A transition is recognised as a replay by its digest. SHA-256 is taken to be
 injective, so the digest is the tuple it hashes, with NUL bytes removed from
 each part as the hash input has them removed.
 */
module FileStores {
  import opened Wrappers
  import opened Findings
  import opened Fences
  import Texts

  const MAX_LOG: nat := 20000

  datatype Note = Note(evidence: string, reason: string, actor: string, at: Option<int>, version: int)

  const NO_NOTE := Note("", "", "", None, 0)

  datatype Row = Row(finding: Finding, count: int, resolvedAt: Option<int>, waiver: Note)

  datatype TaskHealth = TaskHealth(task: string, status: string, reasons: seq<Key>, unknown: seq<string>,
      evaluatedAt: int)

  datatype Record = Record(verdict: TaskHealth, generation: nat, stored: Stored)

  datatype Digest = Digest(task: string, kind: string, subject: string, op: string, reason: string,
                           severity: string, evidence: string, detail: string, fact: int)

  datatype LogRow = LogRow(task: string, kind: string, subject: string, op: string, reason: string, severity: string,
                           detail: string, digest: Digest, generation: nat, version: int, factAt: int)

  datatype State = State(rows: seq<Row>, health: map<string, Record>, log: seq<LogRow>)

  datatype Error = NotSupported | NotAllowed | EvidenceRequired

  datatype Result = Done(generations: seq<nat>) | Refused(error: Error)

  // ---- Digests -------------------------------------------------------------------

  function OpText(op: Op): string {
    match op
    case Open => "OPEN"
    case Update => "UPDATE"
    case Escalate => "ESCALATE"
    case Downgrade => "DOWNGRADE"
    case Close => "CLOSE"
  }

  function NoNul(s: string): string {
    if s == [] then [] else (if s[0] == '\0' then [] else [s[0]]) + NoNul(s[1..])
  }

  function MakeDigest(task: string, kind: string, subject: string, op: string, reason: string, c: Content,
      fact: int): Digest {
    Digest(NoNul(task), NoNul(kind), NoNul(subject), NoNul(op), NoNul(reason), NoNul(c.severity), NoNul(c.evidence),
        NoNul(c.detail), fact)
  }

  function DigestOf(task: string, t: Transition): Digest {
    MakeDigest(task, t.key.kind, t.key.subject, OpText(t.op), t.reason, t.instance.content,
               if t.factAt.Some? then t.factAt.value else t.at)
  }

  predicate Logged(log: seq<LogRow>, task: string, d: Digest) {
    exists i :: 0 <= i < |log| && log[i].task == task && log[i].digest == d
  }

  // ---- Rows ----------------------------------------------------------------------

  /** One row per key. */
  ghost predicate Unique(rows: seq<Row>) {
    forall i, j :: 0 <= i < j < |rows| ==> rows[i].finding.key != rows[j].finding.key
  }

  function IndexOf(rows: seq<Row>, key: Key): (j: int)
    ensures -1 <= j < |rows|
    ensures j >= 0 ==> rows[j].finding.key == key
    ensures forall i :: 0 <= i < (if j < 0 then |rows| else j) ==> rows[i].finding.key != key
  {
    if rows == [] then -1
    else if rows[0].finding.key == key then 0
    else var j := IndexOf(rows[1..], key); if j < 0 then -1 else j + 1
  }

  /** The finding open under a key. */
  function OpenAt(rows: seq<Row>, key: Key): Option<Finding> {
    var j := IndexOf(rows, key);
    if j >= 0 && rows[j].resolvedAt.None? then Some(rows[j].finding) else None
  }

  function NewRow(key: Key, now: int): Row {
    Row(Finding(key, Content("", "", "", []), now, 0, 0), 0, None, NO_NOTE)
  }

  function Refreshed(row: Row, c: Content, generation: nat, now: int): Row {
    row.(finding := row.finding.(content := c, lastSeen := now, generation := generation),
         count := row.count + 1, resolvedAt := None)
  }

  function Resolved(row: Row, generation: nat, now: int): Row {
    row.(finding := row.finding.(generation := generation), resolvedAt := Some(now))
  }

  /** The rows after one new transition. */
  function Put(rows: seq<Row>, key: Key, t: Transition, generation: nat, now: int): seq<Row> {
    var j := IndexOf(rows, key);
    if t.op == Close then
      if j >= 0 && rows[j].resolvedAt.None? then rows[j := Resolved(rows[j], generation, now)] else rows
    else if j < 0 then rows + [Refreshed(NewRow(key, now), t.instance.content, generation, now)]
    else rows[j := Refreshed(rows[j], t.instance.content, generation, now)]
  }

  lemma IndexIs(rows: seq<Row>, key: Key, j: nat)
    requires Unique(rows) && j < |rows| && rows[j].finding.key == key
    ensures IndexOf(rows, key) == j
  {
  }

  /** An edit of one row, or one row more, leaves the other keys alone. */
  lemma EditedElsewhere(rows: seq<Row>, after: seq<Row>, key: Key, k: Key)
    requires Unique(rows) && Unique(after) && k != key
    requires |rows| <= |after| <= |rows| + 1
    requires forall i :: 0 <= i < |rows| ==> after[i].finding.key == rows[i].finding.key
    requires forall i :: 0 <= i < |rows| && rows[i].finding.key != key ==> after[i] == rows[i]
    requires |rows| < |after| ==> after[|rows|].finding.key == key
    ensures OpenAt(after, k) == OpenAt(rows, k)
  {
    var i, j := IndexOf(rows, k), IndexOf(after, k);
    if i >= 0 {
      IndexIs(after, k, i);
    }
  }

  /** A new transition decides its own key and no other. */
  lemma PutDecidesItsKey(rows: seq<Row>, key: Key, t: Transition, generation: nat, now: int)
    requires Unique(rows)
    ensures var after := Put(rows, key, t, generation, now);
            && Unique(after)
            && (forall k :: k != key ==> OpenAt(after, k) == OpenAt(rows, k))
            && if t.op == Close then OpenAt(after, key).None?
               else
                 && OpenAt(after, key).Some? && OpenAt(after, key).value.key == key
                 && OpenAt(after, key).value.content == t.instance.content
  {
    var after, j := Put(rows, key, t, generation, now), IndexOf(rows, key);
    assert forall i :: 0 <= i < |rows| ==> after[i].finding.key == rows[i].finding.key;
    forall k | k != key ensures OpenAt(after, k) == OpenAt(rows, k) {
      EditedElsewhere(rows, after, key, k);
    }
    if j >= 0 {
      IndexIs(after, key, j);
    } else if t.op != Close {
      IndexIs(after, key, |rows|);
    }
  }

  // ---- Applying transitions ------------------------------------------------------

  datatype Work = Work(rows: seq<Row>, log: seq<LogRow>, generation: nat, generations: seq<nat>)

  function LogOf(task: string, t: Transition, generation: nat, now: int): LogRow {
    LogRow(task, t.key.kind, t.key.subject, OpText(t.op), t.reason, t.instance.content.severity,
        t.instance.content.detail,
           DigestOf(task, t), generation, t.version, if t.factAt.Some? then t.factAt.value else now)
  }

  function ApplyOne(w: Work, task: string, t: Transition, now: int): Work {
    if Logged(w.log, task, DigestOf(task, t)) then w.(generations := w.generations + [0])
    else
      var g := w.generation + 1;
      Work(Put(w.rows, Key(task, t.key.kind, t.key.subject), t, g, now), w.log + [LogOf(task, t, g, now)], g,
          w.generations + [g])
  }

  function ApplyAll(w: Work, task: string, ts: seq<Transition>, now: int): (r: Work)
    ensures |r.generations| == |w.generations| + |ts|
  {
    if ts == [] then w else ApplyOne(ApplyAll(w, task, ts[..|ts|-1], now), task, ts[|ts|-1], now)
  }

  function Newest(log: seq<LogRow>): seq<LogRow> {
    if |log| > MAX_LOG then log[|log|-MAX_LOG..] else log
  }

  function Generation(s: State, task: string): nat { if task in s.health then s.health[task].generation else 0 }

  function StoredOf(s: State, task: string): Option<Stored> {
    if task in s.health then Some(s.health[task].stored) else None
  }

  predicate Accepts(s: State, task: string, fence: Fence) {
    fence.mode == Standalone && CheckFence(fence, None, StoredOf(s, task)) == Accepted
  }

  function Begin(s: State, task: string): Work { Work(s.rows, s.log, Generation(s, task), []) }

  function FenceRecord(fence: Fence): Stored { Stored(fence.mode, 0, fence.node, fence.instance, "") }

  function Applied(s: State, task: string, fence: Fence, ts: seq<Transition>, h: TaskHealth, now: int): State {
    var w := ApplyAll(Begin(s, task), task, ts, now);
    State(w.rows, s.health[task := Record(h.(task := task), w.generation, FenceRecord(fence))], Newest(w.log))
  }

  // ---- Waivers -------------------------------------------------------------------

  const EMPTY_HEALTH := TaskHealth("", "", [], [], 0)

  function Bumped(s: State, task: string, fence: Fence): map<string, Record> {
    s.health[task := Record(if task in s.health then s.health[task].verdict else EMPTY_HEALTH,
                            Generation(s, task) + 1, FenceRecord(fence))]
  }

  function WaiverLog(s: State, task: string, kind: string, subject: string, op: string, reason: string,
                     evidence: string, detail: string, fact: int): LogRow
  {
    LogRow(task, kind, subject, op, reason, "", "",
        MakeDigest(task, kind, subject, op, reason, Content("", detail, evidence, []), fact),
           Generation(s, task) + 1, 1, fact)
  }

  function WaivedRows(rows: seq<Row>, key: Key, note: Note, now: int): seq<Row> {
    var j := IndexOf(rows, key);
    if j < 0 then
      var row := NewRow(key, now);
      rows + [row.(finding := row.finding.(lastSeen := now), waiver := note)]
    else rows[j := rows[j].(waiver := note)]
  }

  function WithWaiver(s: State, task: string, fence: Fence, w: Waiver, now: int): State {
    var at := if w.at.Some? then w.at.value else now;
    var key := Key(task, w.key.kind, w.key.subject);
    State(WaivedRows(s.rows, key, Note(w.evidence, w.reason, w.actor, Some(at), 1), now), Bumped(s, task, fence),
          s.log + [WaiverLog(s, task, w.key.kind, w.key.subject, "WAIVE", w.reason, w.evidence,
              w.actor + ": " + w.reason, at)])
  }

  predicate HasWaiver(s: State, key: Key) {
    var j := IndexOf(s.rows, key);
    j >= 0 && s.rows[j].waiver.evidence != ""
  }

  function WithoutWaiver(s: State, task: string, fence: Fence, key: Key, now: int): State {
    if !HasWaiver(s, key) then s
    else
      var j := IndexOf(s.rows, key);
      State(s.rows[j := s.rows[j].(waiver := NO_NOTE)], Bumped(s, task, fence),
            s.log + [WaiverLog(s, task, key.kind, key.subject, "UNWAIVE", "UNWAIVE", "", "", now)])
  }

  // ---- The store -----------------------------------------------------------------

  class FileStore {
    var rows: seq<Row>
    var health: map<string, Record>
    var log: seq<LogRow>

    ghost predicate Valid()
      reads this
    {
      Unique(rows)
    }

    ghost function Contents(): (s: State)
      reads this
    {
      State(rows, health, log)
    }

    constructor ()
      ensures Valid() && Contents() == State([], map[], [])
    {
      rows, health, log := [], map[], [];
    }

    /**
     The index and the digest set are filled once and kept up to date, so that no
     transition searches the rows or the log again.
     */
    method ApplyTransitions(task: string, fence: Fence, ts: seq<Transition>, h: TaskHealth, now: int)
        returns (r: Result)
      requires Valid()
      modifies this
      ensures Valid()
      ensures r.Done? <==> Accepts(old(Contents()), task, fence)
      ensures r.Done? ==> r.generations == ApplyAll(Begin(old(Contents()), task), task, ts, now).generations
      ensures Contents() == if r.Done? then Applied(old(Contents()), task, fence, ts, h, now) else old(Contents())
    {
      hide DigestOf;
      hide LogOf;
      hide Put;
      hide CheckFence;
      hide IsIndex;
      hide AreDigests;
      if fence.mode != Standalone {
        return Refused(NotSupported);
      }
      var stored := if task in health then Some(health[task].stored) else None;
      if CheckFence(fence, None, stored) != Accepted {
        return Refused(NotAllowed);
      }
      var digests := Digests(log, task);
      var index := Indexed(rows);
      var gen: nat := if task in health then health[task].generation else 0;
      var generations: seq<nat> := [];
      var newRows, newLog := rows, log;
      ghost var start := Begin(Contents(), task);
      for i := 0 to |ts|
        invariant Unique(newRows) && IsIndex(index, newRows) && AreDigests(digests, newLog, task)
        invariant Work(newRows, newLog, gen, generations) == ApplyAll(start, task, ts[..i], now)
        invariant unchanged(this)
      {
        var t := ts[i];
        assert ts[..i+1][..i] == ts[..i];
        var d := DigestOf(task, t);
        DigestKnown(digests, newLog, task, d);
        if d in digests {
          generations := generations + [0];
        } else {
          DigestAdded(digests, newLog, task, t, gen + 1, now);
          digests := digests + {d};
          gen := gen + 1;
          generations := generations + [gen];
          newLog := newLog + [LogOf(task, t, gen, now)];
          newRows, index := Edit(newRows, index, Key(task, t.key.kind, t.key.subject), t, gen, now);
        }
      }
      assert ts[..|ts|] == ts;
      if |newLog| > MAX_LOG {
        newLog := newLog[|newLog|-MAX_LOG..];
      }
      rows, log := newRows, newLog;
      health := health[task := Record(h.(task := task), gen, Stored(fence.mode, 0, fence.node, fence.instance, ""))];
      return Done(generations);
    }

    method PutWaiver(task: string, fence: Fence, w: Waiver, now: int) returns (r: Result)
      requires Valid()
      modifies this
      ensures Valid()
      ensures r.Done? <==> fence.mode == Standalone && w.evidence != "" && Accepts(old(Contents()), task, fence)
      ensures Contents() == if r.Done? then WithWaiver(old(Contents()), task, fence, w, now) else old(Contents())
    {
      hide NoNul;
      hide MakeDigest;
      hide CheckFence;
      if fence.mode != Standalone {
        return Refused(NotSupported);
      }
      if w.evidence == "" {
        return Refused(EvidenceRequired);
      }
      if CheckFence(fence, None, if task in health then Some(health[task].stored) else None) != Accepted {
        return Refused(NotAllowed);
      }
      var at := if w.at.Some? then w.at.value else now;
      var key := Key(task, w.key.kind, w.key.subject);
      var gen := (if task in health then health[task].generation else 0) + 1;
      var j := Search(rows, key);
      var newRows := rows;
      if j < 0 {
        newRows := newRows + [Row(Finding(key, Content("", "", "", []), now, now, 0), 0, None, NO_NOTE)];
        j := |newRows| - 1;
      }
      rows := newRows[j := newRows[j].(waiver := Note(w.evidence, w.reason, w.actor, Some(at), 1))];
      health := health[task := Record(if task in health then health[task].verdict else EMPTY_HEALTH, gen,
                                      Stored(fence.mode, 0, fence.node, fence.instance, ""))];
      var d := MakeDigest(task, w.key.kind, w.key.subject, "WAIVE", w.reason,
          Content("", w.actor + ": " + w.reason, w.evidence, []), at);
      log := log + [LogRow(task, w.key.kind, w.key.subject, "WAIVE", w.reason, "", "", d, gen, 1, at)];
      return Done([gen]);
    }

    method DeleteWaiver(task: string, fence: Fence, key: Key, now: int) returns (r: Result)
      requires Valid()
      modifies this
      ensures Valid()
      ensures r.Done? <==> Accepts(old(Contents()), task, fence)
      ensures Contents() == if r.Done? then WithoutWaiver(old(Contents()), task, fence, key, now) else old(Contents())
    {
      hide NoNul;
      hide MakeDigest;
      hide CheckFence;
      if fence.mode != Standalone {
        return Refused(NotSupported);
      }
      if CheckFence(fence, None, if task in health then Some(health[task].stored) else None) != Accepted {
        return Refused(NotAllowed);
      }
      var j := Search(rows, key);
      if j < 0 || rows[j].waiver.evidence == "" {
        return Done([]);
      }
      rows := rows[j := rows[j].(waiver := NO_NOTE)];
      var gen := (if task in health then health[task].generation else 0) + 1;
      health := health[task := Record(if task in health then health[task].verdict else EMPTY_HEALTH, gen,
                                      Stored(fence.mode, 0, fence.node, fence.instance, ""))];
      var d := MakeDigest(task, key.kind, key.subject, "UNWAIVE", "UNWAIVE", Content("", "", "", []), now);
      log := log + [LogRow(task, key.kind, key.subject, "UNWAIVE", "UNWAIVE", "", "", d, gen, 1, now)];
      return Done([gen]);
    }

    /** The open findings of a task, in key order. */
    method ListOpen(task: string) returns (open: seq<Finding>)
      requires Valid()
      ensures Lists(open, rows, task)
      ensures forall i, j :: 0 <= i < j < |open| ==> LessKey(open[i].key, open[j].key)
    {
      hide LessKey;
      open := [];
      for i := 0 to |rows|
        invariant forall a, b :: 0 <= a < b < |open| ==> LessKey(open[a].key, open[b].key)
        invariant forall x :: x in open <==> exists j :: 0 <= j < i && rows[j].finding == x && Shown(rows[j], task)
      {
        if rows[i].finding.key.task == task && rows[i].resolvedAt.None? {
          assert forall a :: 0 <= a < |open| ==> open[a] in open;
          InsertFindingKeepsOrder(open, rows[i].finding);
          open := InsertFinding(open, rows[i].finding);
        }
      }
      ListsAll(open, rows, task);
    }
  }

  predicate Shown(row: Row, task: string) { row.finding.key.task == task && row.resolvedAt.None? }

  method Search(rows: seq<Row>, key: Key) returns (j: int)
    ensures j == IndexOf(rows, key)
  {
    for i := 0 to |rows|
      invariant forall k :: 0 <= k < i ==> rows[k].finding.key != key
    {
      if rows[i].finding.key == key {
        return i;
      }
    }
    return -1;
  }

  ghost predicate IsIndex(index: map<Key, nat>, rows: seq<Row>) {
    && (forall k :: k in index ==> index[k] < |rows| && rows[index[k]].finding.key == k)
    && forall i :: 0 <= i < |rows| ==> rows[i].finding.key in index
  }

  method Indexed(rows: seq<Row>) returns (index: map<Key, nat>)
    ensures IsIndex(index, rows)
  {
    index := map[];
    for i := 0 to |rows|
      invariant forall k :: k in index ==> index[k] < i && rows[index[k]].finding.key == k
      invariant forall j :: 0 <= j < i ==> rows[j].finding.key in index
    {
      index := index[rows[i].finding.key := i];
    }
  }

  ghost predicate AreDigests(digests: set<Digest>, log: seq<LogRow>, task: string) {
    forall d :: d in digests <==> Logged(log, task, d)
  }

  method Digests(log: seq<LogRow>, task: string) returns (digests: set<Digest>)
    ensures AreDigests(digests, log, task)
  {
    digests := {};
    for i := 0 to |log|
      invariant forall d :: d in digests <==> exists j :: 0 <= j < i && log[j].task == task && log[j].digest == d
    {
      if log[i].task == task {
        digests := digests + {log[i].digest};
      }
    }
  }

  lemma LogPush(log: seq<LogRow>, task: string, row: LogRow)
    ensures forall d :: Logged(log + [row], task, d) <==> Logged(log, task, d) || (row.task == task && row.digest == d)
  {
    var l := log + [row];
    forall d ensures Logged(l, task, d) <==> Logged(log, task, d) || (row.task == task && row.digest == d) {
      assert l[|log|] == row;
      assert forall i :: 0 <= i < |log| ==> l[i] == log[i];
    }
  }

  lemma DigestKnown(digests: set<Digest>, log: seq<LogRow>, task: string, d: Digest)
    requires AreDigests(digests, log, task)
    ensures d in digests <==> Logged(log, task, d)
  {
  }

  lemma DigestAdded(digests: set<Digest>, log: seq<LogRow>, task: string, t: Transition, gen: nat, now: int)
    requires AreDigests(digests, log, task)
    ensures AreDigests(digests + {DigestOf(task, t)}, log + [LogOf(task, t, gen, now)], task)
  {
    hide DigestOf;
    LogPush(log, task, LogOf(task, t, gen, now));
  }

  /** One new transition, by the index. */
  method Edit(rows: seq<Row>, index: map<Key, nat>, key: Key, t: Transition, gen: nat, now: int)
    returns (newRows: seq<Row>, newIndex: map<Key, nat>)
    requires Unique(rows) && IsIndex(index, rows)
    ensures newRows == Put(rows, key, t, gen, now)
    ensures Unique(newRows) && IsIndex(newIndex, newRows)
  {
    newRows, newIndex := rows, index;
    PutDecidesItsKey(rows, key, t, gen, now);
    if key in index {
      IndexIs(rows, key, index[key]);
    }
    if t.op == Close {
      if key in index && rows[index[key]].resolvedAt.None? {
        newRows := rows[index[key] := Resolved(rows[index[key]], gen, now)];
      }
      return;
    }
    if key !in newIndex {
      newRows := newRows + [NewRow(key, now)];
      newIndex := newIndex[key := |newRows| - 1];
    }
    var j := newIndex[key];
    newRows := newRows[j := Refreshed(newRows[j], t.instance.content, gen, now)];
  }

  function InsertFinding(l: seq<Finding>, x: Finding): seq<Finding> {
    if l == [] || LessKey(x.key, l[0].key) then [x] + l else [l[0]] + InsertFinding(l[1..], x)
  }

  lemma {:induction false} InsertFindingKeepsOrder(l: seq<Finding>, x: Finding)
    requires forall i, j :: 0 <= i < j < |l| ==> LessKey(l[i].key, l[j].key)
    requires forall i :: 0 <= i < |l| ==> l[i].key != x.key
    ensures forall i, j :: 0 <= i < j < |InsertFinding(l, x)| ==>
              LessKey(InsertFinding(l, x)[i].key, InsertFinding(l, x)[j].key)
    ensures forall y :: y in InsertFinding(l, x) <==> y == x || y in l
  {
    hide LessKey;
    if l == [] {
    } else if LessKey(x.key, l[0].key) {
      forall j | 0 <= j < |l| ensures LessKey(x.key, l[j].key) {
        if j > 0 {
          LessKeyTransitive(x.key, l[0].key, l[j].key);
        }
      }
    } else {
      InsertFindingKeepsOrder(l[1..], x);
      LessKeyTotal(x.key, l[0].key);
      var rest := InsertFinding(l[1..], x);
      assert l == [l[0]] + l[1..];
      forall j | 0 <= j < |rest| ensures LessKey(l[0].key, rest[j].key) {
        assert rest[j] in rest;
      }
    }
  }

  /** The list shows exactly the findings open for the task. */
  ghost predicate Lists(open: seq<Finding>, rows: seq<Row>, task: string) {
    forall x :: x in open <==> x.key.task == task && OpenAt(rows, x.key) == Some(x)
  }

  lemma ListsAll(open: seq<Finding>, rows: seq<Row>, task: string)
    requires Unique(rows)
    requires forall x :: x in open <==> exists j :: 0 <= j < |rows| && rows[j].finding == x && Shown(rows[j], task)
    ensures Lists(open, rows, task)
  {
    forall x ensures x in open <==> x.key.task == task && OpenAt(rows, x.key) == Some(x) {
      if x in open {
        var j :| 0 <= j < |rows| && rows[j].finding == x && Shown(rows[j], task);
        IndexIs(rows, x.key, j);
      }
    }
  }
}
