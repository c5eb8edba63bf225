/**
 What one call of the health file changes, row by row and field by field, and
 what makes two transitions the same content.
 */
module StoreLaws {
  import opened Wrappers
  import opened Findings
  import opened Fences
  import opened FileStores

  // ---- Rows ----------------------------------------------------------------------

  /** Only the row under the key differs, and at most one row under it is new, at the end. */
  ghost predicate EditsOne(rows: seq<Row>, after: seq<Row>, key: Key) {
    && |rows| <= |after| <= |rows| + 1
    && (forall i :: 0 <= i < |rows| && rows[i].finding.key != key ==> after[i] == rows[i])
    && (|after| > |rows| ==> after[|rows|].finding.key == key)
    && (|after| > |rows| ==> forall i :: 0 <= i < |rows| ==> rows[i].finding.key != key)
  }

  /** An open row is resolved now; everything else about it stays. */
  ghost predicate ResolvedRow(was: Row, row: Row, generation: nat, now: int) {
    && row.resolvedAt == Some(now) && row.finding.generation == generation && row.count == was.count
    && row.waiver == was.waiver && row.finding.key == was.finding.key && row.finding.content == was.finding.content
    && row.finding.firstSeen == was.finding.firstSeen && row.finding.lastSeen == was.finding.lastSeen
  }

  /** A row is open with this content, seen now, once more; since when it is known and its waiver stay. */
  ghost predicate SeenRow(was: Row, row: Row, c: Content, generation: nat, now: int) {
    && row.resolvedAt.None? && row.finding.content == c && row.finding.lastSeen == now
    && row.finding.generation == generation && row.count == was.count + 1
    && row.waiver == was.waiver && row.finding.key == was.finding.key && row.finding.firstSeen == was.finding.firstSeen
  }

  ghost predicate FirstSeenRow(key: Key, row: Row, c: Content, generation: nat, now: int) {
    && row.resolvedAt.None? && row.finding == Finding(key, c, now, now, generation) && row.count == 1
    && row.waiver == Note("", "", "", None, 0)
  }

  /** What a new transition does to the rows. */
  lemma PutIs(rows: seq<Row>, key: Key, t: Transition, generation: nat, now: int)
    requires Unique(rows)
    ensures var after := Put(rows, key, t, generation, now);
            && EditsOne(rows, after, key)
            && (forall j :: 0 <= j < |rows| && rows[j].finding.key == key ==>
                  if t.op != Close then SeenRow(rows[j], after[j], t.instance.content, generation, now)
                  else if rows[j].resolvedAt.None? then ResolvedRow(rows[j], after[j], generation, now)
                  else after[j] == rows[j])
            && (|after| > |rows| <==> t.op != Close && forall j :: 0 <= j < |rows| ==> rows[j].finding.key != key)
            && (|after| > |rows| ==> FirstSeenRow(key, after[|rows|], t.instance.content, generation, now))
  {
    forall j | 0 <= j < |rows| && rows[j].finding.key == key ensures IndexOf(rows, key) == j { IndexIs(rows, key, j); }
  }

  lemma OpenAtIs(rows: seq<Row>, key: Key, x: Finding)
    requires Unique(rows)
    ensures OpenAt(rows, key) == Some(x) <==>
              exists j :: 0 <= j < |rows| && rows[j].finding == x && x.key == key && rows[j].resolvedAt.None?
  {
    forall j | 0 <= j < |rows| && rows[j].finding.key == key ensures IndexOf(rows, key) == j { IndexIs(rows, key, j); }
  }

  // ---- Content -------------------------------------------------------------------

  ghost predicate Plain(s: string) { '\0' !in s }

  /** The texts of a transition hold no NUL. */
  ghost predicate PlainTexts(task: string, t: Transition) {
    && Plain(task) && Plain(t.key.kind) && Plain(t.key.subject) && Plain(t.reason) && Plain(t.instance.content.severity)
    && Plain(t.instance.content.evidence) && Plain(t.instance.content.detail)
  }

  lemma {:induction false} PlainStays(s: string)
    requires Plain(s)
    ensures NoNul(s) == s
  {
    if s == [] {
    } else {
      PlainStays(s[1..]);
      assert s == [s[0]] + s[1..];
    }
  }

  /** A NUL is taken out wherever it stands, and nothing else. */
  lemma {:induction false} NulsGo(a: string, b: string)
    ensures NoNul(a + "\0" + b) == NoNul(a + b)
    decreases |a|
  {
    if a == [] {
      assert a + "\0" + b == "\0" + b && a + b == b;
      assert ("\0" + b)[1..] == b && [] + NoNul(b) == NoNul(b);
    } else {
      NulsGo(a[1..], b);
      assert (a + "\0" + b)[1..] == a[1..] + "\0" + b;
      assert (a + b)[1..] == a[1..] + b;
    }
  }

  ghost function FactTime(t: Transition): int { if t.factAt.Some? then t.factAt.value else t.at }

  /**
   Two transitions of a task are the same content exactly when kind, subject,
   operation, reason, severity, evidence, detail and fact time agree.
   */
  lemma SameDigestIff(task: string, a: Transition, b: Transition)
    requires PlainTexts(task, a) && PlainTexts(task, b)
    ensures DigestOf(task, a) == DigestOf(task, b) <==>
              && a.key.kind == b.key.kind && a.key.subject == b.key.subject && a.op == b.op && a.reason == b.reason
              && a.instance.content.severity == b.instance.content.severity
              && a.instance.content.evidence == b.instance.content.evidence
              && a.instance.content.detail == b.instance.content.detail && FactTime(a) == FactTime(b)
  {
    hide NoNul;
    PlainDigest(task, a);
    PlainDigest(task, b);
    assert OpText(a.op) == OpText(b.op) <==> a.op == b.op;
  }

  lemma PlainDigest(task: string, t: Transition)
    requires PlainTexts(task, t)
    ensures DigestOf(task, t) == Digest(task, t.key.kind, t.key.subject, OpText(t.op), t.reason,
                                        t.instance.content.severity, t.instance.content.evidence,
                                        t.instance.content.detail, FactTime(t))
  {
    hide NoNul;
    var c := t.instance.content;
    PlainStays(task);
    PlainStays(t.key.kind);
    PlainStays(t.key.subject);
    PlainStays(t.reason);
    PlainStays(c.severity);
    PlainStays(c.evidence);
    PlainStays(c.detail);
    PlainStays(OpText(t.op));
  }

  // ---- One transition ------------------------------------------------------------

  /** The log row of a transition. */
  ghost predicate Logs(row: LogRow, task: string, t: Transition, generation: nat, now: int) {
    && row.task == task && row.kind == t.key.kind && row.subject == t.key.subject && row.op == OpText(t.op)
    && row.reason == t.reason && row.severity == t.instance.content.severity && row.detail == t.instance.content.detail
    && row.digest == DigestOf(task, t) && row.generation == generation && row.version == t.version
    && row.factAt == if t.factAt.Some? then t.factAt.value else now
  }

  /** A replay gets 0 and changes nothing; any other transition takes the next generation, one log row and one edit. */
  lemma ApplyOneIs(w: Work, task: string, t: Transition, now: int)
    ensures var after := ApplyOne(w, task, t, now);
            var key := Key(task, t.key.kind, t.key.subject);
            if exists i :: 0 <= i < |w.log| && w.log[i].task == task && w.log[i].digest == DigestOf(task, t)
            then
              && after.rows == w.rows && after.log == w.log && after.generation == w.generation
              && after.generations == w.generations + [0]
            else
              && after.generation == w.generation + 1 && after.generations == w.generations + [w.generation + 1]
              && after.rows == Put(w.rows, key, t, w.generation + 1, now)
              && |after.log| == |w.log| + 1 && w.log <= after.log
              && Logs(after.log[|w.log|], task, t, w.generation + 1, now)
  {
    hide DigestOf;
    hide Put;
  }

  /** The words of the operations. */
  lemma OpTexts()
    ensures OpText(Open) == "OPEN" && OpText(Update) == "UPDATE" && OpText(Escalate) == "ESCALATE"
    ensures OpText(Downgrade) == "DOWNGRADE" && OpText(Close) == "CLOSE"
  {
  }

  // ---- One call ------------------------------------------------------------------

  /** The task has no record, or one of this node, of no node, or of no mode yet. */
  lemma AcceptsIff(s: State, task: string, fence: Fence)
    ensures Accepts(s, task, fence) <==>
              fence.mode == Standalone && (task in s.health ==>
                var st := s.health[task].stored;
                (st.mode == Unset || st.mode == Standalone) && (st.node == "" || st.node == fence.node))
  {
    hide CheckFence;
    AcceptedIff(fence, None, StoredOf(s, task));
  }

  /** A record of the task: its verdict, its generation, and who wrote it. */
  ghost predicate Recorded(r: Record, verdict: TaskHealth, generation: nat, fence: Fence) {
    && r.verdict == verdict && r.generation == generation
    && r.stored == Stored(fence.mode, 0, fence.node, fence.instance, "")
  }

  /** What an apply leaves of the records and of the log: the last 20000 rows. */
  lemma AppliedIs(s: State, task: string, fence: Fence, ts: seq<Transition>, h: TaskHealth, now: int)
    ensures var after := Applied(s, task, fence, ts, h, now);
            var w := ApplyAll(Begin(s, task), task, ts, now);
            && after.rows == w.rows && task in after.health
            && Recorded(after.health[task], h.(task := task), w.generation, fence)
            && (forall other :: other != task ==>
                  (other in after.health <==> other in s.health)
                  && (other in s.health ==> after.health[other] == s.health[other]))
            && |after.log| == (if |w.log| <= 20000 then |w.log| else 20000)
            && after.log == w.log[|w.log| - |after.log|..]
  {
    hide ApplyAll;
  }

  ghost function GenerationOf(s: State, task: string): nat {
    if task in s.health then s.health[task].generation else 0
  }

  lemma BeginIs(s: State, task: string)
    ensures var w := Begin(s, task);
            w.rows == s.rows && w.log == s.log && w.generation == GenerationOf(s, task) && w.generations == []
  {
  }

  /** The call takes one generation of the task and logs one row; its verdict stays. */
  ghost predicate TakesOne(s: State, after: State, task: string, fence: Fence, op: string) {
    && task in after.health
    && Recorded(after.health[task], if task in s.health then s.health[task].verdict else TaskHealth("", "", [], [], 0),
                GenerationOf(s, task) + 1, fence)
    && (forall other :: other != task ==>
          (other in after.health <==> other in s.health)
          && (other in s.health ==> after.health[other] == s.health[other]))
    && |after.log| == |s.log| + 1 && s.log <= after.log
    && after.log[|s.log|].task == task && after.log[|s.log|].op == op
    && after.log[|s.log|].generation == GenerationOf(s, task) + 1 && after.log[|s.log|].version == 1
  }

  /** The waiver of the row is set and nothing else of it changes. */
  ghost predicate WaiverSet(was: Row, row: Row, note: Note) {
    row.waiver == note && row.finding == was.finding && row.count == was.count && row.resolvedAt == was.resolvedAt
  }

  lemma WaiveIs(s: State, task: string, fence: Fence, w: Waiver, now: int)
    requires Unique(s.rows)
    ensures var after, key := WithWaiver(s, task, fence, w, now), Key(task, w.key.kind, w.key.subject);
            var at := if w.at.Some? then w.at.value else now;
            var note := Note(w.evidence, w.reason, w.actor, Some(at), 1);
            && EditsOne(s.rows, after.rows, key) && TakesOne(s, after, task, fence, "WAIVE")
            && (forall j :: 0 <= j < |s.rows| && s.rows[j].finding.key == key ==>
                  WaiverSet(s.rows[j], after.rows[j], note))
            && (|after.rows| > |s.rows| <==> forall j :: 0 <= j < |s.rows| ==> s.rows[j].finding.key != key)
            && (|after.rows| > |s.rows| ==>
                  after.rows[|s.rows|] == Row(Finding(key, Content("", "", "", []), now, now, 0), 0, None, note))
            && var row := after.log[|s.log|];
               row.kind == key.kind && row.subject == key.subject && row.reason == w.reason && row.factAt == at
               && row.severity == "" && row.detail == ""
               && row.digest == MakeDigest(task, key.kind, key.subject, "WAIVE", w.reason,
                                           Content("", w.actor + ": " + w.reason, w.evidence, []), at)
  {
    hide MakeDigest;
    var key := Key(task, w.key.kind, w.key.subject);
    forall j | 0 <= j < |s.rows| && s.rows[j].finding.key == key ensures IndexOf(s.rows, key) == j {
      IndexIs(s.rows, key, j);
    }
  }

  /** A row of the key has a waiver. */
  ghost predicate Noted(s: State, key: Key) {
    exists j :: 0 <= j < |s.rows| && s.rows[j].finding.key == key && s.rows[j].waiver.evidence != ""
  }

  lemma UnwaiveIs(s: State, task: string, fence: Fence, key: Key, now: int)
    requires Unique(s.rows)
    ensures var after := WithoutWaiver(s, task, fence, key, now);
            if !Noted(s, key) then after == s
            else
              && TakesOne(s, after, task, fence, "UNWAIVE") && |after.rows| == |s.rows|
              && (forall j :: 0 <= j < |s.rows| ==>
                    if s.rows[j].finding.key == key then WaiverSet(s.rows[j], after.rows[j], Note("", "", "", None, 0))
                    else after.rows[j] == s.rows[j])
              && var row := after.log[|s.log|];
                 row.kind == key.kind && row.subject == key.subject && row.reason == "UNWAIVE" && row.factAt == now
                 && row.severity == "" && row.detail == ""
                 && row.digest == MakeDigest(task, key.kind, key.subject, "UNWAIVE", "UNWAIVE",
                                             Content("", "", "", []), now)
  {
    hide MakeDigest;
    forall j | 0 <= j < |s.rows| && s.rows[j].finding.key == key ensures IndexOf(s.rows, key) == j {
      IndexIs(s.rows, key, j);
    }
  }
}
