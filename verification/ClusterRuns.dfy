/**
 Every interleaving of the statements that competing workers run on the rows
 of one task: lease statements, fenced health writes, task writes and yields.
 An acquire on a pool without a session timeout is three statements (upsert,
 row read, clock read); other steps may come between them. The clock may move
 in either direction.
 */
module ClusterRuns {
  import opened Wrappers
  import opened Leases
  import opened Fences

  /** A call that has read the lease row and has not read the clock yet, or has not read the row. */
  datatype Call = AfterUpsert(worker: string) | AfterRead(worker: string, row: Row)

  /** An answer "you hold this epoch" that a worker got, from an acquire, a verification or a renewal. */
  datatype Told = Told(worker: string, epoch: int)

  datatype Event =
    | Wrote(fence: Fence, waiver: bool)
    | ReleasedAt(epoch: int)
    | Yielded(generation: int)

  datatype Yield = Yield(newEpoch: int, expectEpoch: int, expectGeneration: int, release: bool, releaseEpoch: int)

  datatype TaskRow = TaskRow(epoch: int, generation: int)

  datatype State = State(now: int, row: Option<Row>, calls: map<nat, Call>, told: seq<Told>,
                         task: TaskRow, stored: Stored, log: seq<Event>)

  datatype Step =
    | Tick(time: int)
    | AcquireUpsert(call: nat, worker: string, ttlNanos: int)
    | ReadRow(call: nat)
    | ReadClock(call: nat)
    | VerifyRow(call: nat, worker: string, epoch: int)
    | Renew(worker: string, epoch: int, ttlNanos: int)
    | Release(worker: string, epoch: int)
    | HealthWrite(fence: Fence, waiver: bool)
    | TaskWrite(newEpoch: int)
    | CommitYield(y: Yield)

  function Initial(now: int, task: TaskRow): State {
    State(now, None, map[], [], task, Stored(Unset, 0, "", "", ""), [])
  }

  /** The lease row as a health transaction selects it; a standalone write does not lock it. */
  function LeaseSeen(s: State, f: Fence): Option<LeaseView> {
    if f.mode == Standalone || s.row.None? then None
    else Some(LeaseView(s.row.value.owner, s.row.value.epoch, s.row.value.expireAt <= s.now))
  }

  function StoredSeen(s: State): Option<Stored> {
    if s.stored.mode == Unset then None else Some(s.stored)
  }

  predicate Accepts(s: State, f: Fence) {
    CheckFence(f, LeaseSeen(s, f), StoredSeen(s)) == Accepted
  }

  function AfterWrite(s: State, f: Fence, waiver: bool): State {
    if !Accepts(s, f) then s
    else s.(stored := Stored(f.mode, f.taskEpoch, f.node, f.instance,
                             if !waiver && f.RecordsChainOwner() then f.node else s.stored.chainOwner),
            log := s.log + [Wrote(f, waiver)])
  }

  /** The update of the task row matches: epoch and generation are still the loaded ones. */
  predicate TakesEffect(s: State, y: Yield) {
    s.row.Some? && s.task.epoch == y.expectEpoch && s.task.generation == y.expectGeneration
  }

  predicate YieldFrees(s: State, y: Yield) {
    TakesEffect(s, y) && y.release && s.row.value.epoch == y.releaseEpoch
  }

  function AfterYield(s: State, y: Yield): State {
    if !TakesEffect(s, y) then s
    else s.(task := TaskRow(y.newEpoch, s.task.generation + 1),
            row := if y.release then FreedByEpoch(s.row, y.releaseEpoch, s.now) else s.row,
            log := s.log + [Yielded(y.expectGeneration)]
                   + (if YieldFrees(s, y) then [ReleasedAt(y.releaseEpoch)] else []))
  }

  function Next(coll: Collation, s: State, st: Step): State {
    match st
    case Tick(time) => s.(now := time)
    case AcquireUpsert(call, worker, ttl) =>
      s.(row := Some(Upserted(coll, s.row, worker, TtlMicros(ttl), s.now)),
         calls := s.calls[call := AfterUpsert(worker)])
    case ReadRow(call) =>
      if call in s.calls && s.calls[call].AfterUpsert? && s.row.Some?
      then s.(calls := s.calls[call := AfterRead(s.calls[call].worker, s.row.value)]) else s
    case VerifyRow(call, worker, epoch) =>
      if s.row.Some? && s.row.value.owner == worker && s.row.value.epoch == epoch
      then s.(calls := s.calls[call := AfterRead(worker, s.row.value)]) else s
    case ReadClock(call) =>
      if call in s.calls && s.calls[call].AfterRead?
      then
        var c := s.calls[call];
        s.(calls := s.calls - {call},
           told := if c.row.owner == c.worker && s.now < c.row.expireAt
                   then s.told + [Told(c.worker, c.row.epoch)] else s.told)
      else s
    case Renew(worker, epoch, ttl) =>
      s.(row := Renewed(coll, s.row, worker, epoch, TtlMicros(ttl), s.now),
         told := if Matches(coll, s.row, worker, epoch) then s.told + [Told(worker, epoch)] else s.told)
    case Release(worker, epoch) =>
      s.(row := Freed(coll, s.row, worker, epoch, s.now),
         log := if Matches(coll, s.row, worker, epoch) then s.log + [ReleasedAt(epoch)] else s.log)
    case HealthWrite(f, waiver) => AfterWrite(s, f, waiver)
    case TaskWrite(epoch) => s.(task := TaskRow(epoch, s.task.generation + 1))
    case CommitYield(y) => AfterYield(s, y)
  }

  function Run(coll: Collation, s0: State, steps: seq<Step>): State {
    if steps == [] then s0 else Next(coll, Run(coll, s0, steps[..|steps|-1]), steps[|steps|-1])
  }

  lemma RunSnoc(coll: Collation, s0: State, steps: seq<Step>, k: nat)
    requires k < |steps|
    ensures Run(coll, s0, steps[..k+1]) == Next(coll, Run(coll, s0, steps[..k]), steps[k])
  {
    assert steps[..k+1][..k] == steps[..k];
  }

  // ---- The inductive invariant ---------------------------------------------------

  /** One worker to the lease: the same id, or ids the server takes for the same non-empty one. */
  ghost predicate SameOwner(coll: Collation, a: string, b: string) {
    a == b || (!Vacant(coll, a) && coll(a) == coll(b))
  }

  /** For each epoch, the last named owner a state of the run had at it. */
  ghost function Noted(coll: Collation, owners: map<int, string>, row: Option<Row>): map<int, string> {
    if row.Some? && row.value.owner != "" then owners[row.value.epoch := row.value.owner] else owners
  }

  ghost function Owners(coll: Collation, s0: State, steps: seq<Step>): map<int, string> {
    if steps == [] then Noted(coll, map[], s0.row)
    else Noted(coll, Owners(coll, s0, steps[..|steps|-1]), Run(coll, s0, steps).row)
  }

  /** `worker` is the one owner of `epoch` on record, unless it has no name. */
  ghost predicate OnRecord(coll: Collation, owners: map<int, string>, epoch: int, worker: string) {
    worker == "" || (epoch in owners && SameOwner(coll, owners[epoch], worker))
  }

  /** The epoch is past, or released, or its owner is `worker` to the server. */
  ghost predicate HeldOrPast(coll: Collation, row: Option<Row>, epoch: int, worker: string) {
    row.Some? && epoch <= row.value.epoch
        && (epoch == row.value.epoch ==> row.value.owner == "" || coll(row.value.owner) == coll(worker))
  }

  /** What a row read and an answer say of the rows from then on. */
  ghost predicate Stands(coll: Collation, s: State, owners: map<int, string>, epoch: int, worker: string) {
    HeldOrPast(coll, s.row, epoch, worker) && (Vacant(coll, worker) || OnRecord(coll, owners, epoch, worker))
  }

  ghost predicate LeaseInv(coll: Collation, s: State, owners: map<int, string>) {
    && (s.row.None? ==> owners == map[])
    && (s.row.Some? ==> forall e :: e in owners ==> e <= s.row.value.epoch)
    && (s.row.Some? ==> OnRecord(coll, owners, s.row.value.epoch, s.row.value.owner))
    && (forall k :: k in s.calls && s.calls[k].AfterRead? ==>
          Stands(coll, s, owners, s.calls[k].row.epoch, s.calls[k].row.owner))
    && (forall t :: t in s.told ==> Stands(coll, s, owners, t.epoch, t.worker))
  }

  ghost predicate ClusterWrite(e: Event) { e.Wrote? && e.fence.mode == Cluster }
  ghost predicate HolderWrite(e: Event) { e.Wrote? && e.fence.Holder() }

  /** The lease holder itself, after it read the directory. */
  ghost predicate VerifiedHolder(f: Fence) { f.mode == Cluster && !f.proxy && !f.delegated && f.chainVerified }

  ghost function LastVerified(log: seq<Event>): string {
    if log == [] then ""
    else
      var e := log[|log|-1];
      if e.Wrote? && !e.waiver && VerifiedHolder(e.fence) then e.fence.node else LastVerified(log[..|log|-1])
  }

  /** A named holder that wrote is still the stored node, as long as its epoch is the current one and not released. */
  ghost predicate StillGuards(s: State, f: Fence) {
    s.row.Some? && (f.taskEpoch == s.row.value.epoch && s.row.value.owner != "" ==>
      s.stored.mode == Cluster && s.stored.epoch == f.taskEpoch && s.stored.node == f.node)
  }

  /** What one log entry says about the current rows. */
  ghost predicate EntryInv(coll: Collation, s: State, owners: map<int, string>, e: Event) {
    && (ClusterWrite(e) ==> s.stored.mode == Cluster && s.row.Some? && e.fence.taskEpoch <= s.row.value.epoch)
    && (HolderWrite(e) && e.fence.node != "" ==> StillGuards(s, e.fence))
    && (e.ReleasedAt? ==>
          s.row.Some? && e.epoch <= s.row.value.epoch && (e.epoch == s.row.value.epoch ==> s.row.value.owner == ""))
    && (e.Yielded? ==> e.generation < s.task.generation)
    && (e.Wrote? ==> s.stored.mode != Unset && (e.fence.mode != Standalone ==> s.stored.mode != Standalone))
    && (e.Wrote? && e.fence.node != "" && s.stored.mode == Standalone ==> s.stored.node == e.fence.node)
  }

  ghost predicate LogInv(coll: Collation, s: State, owners: map<int, string>) {
    && (forall i :: 0 <= i < |s.log| ==> EntryInv(coll, s, owners, s.log[i]))
    && s.stored.chainOwner == LastVerified(s.log)
  }

  /** The order facts of a log, each about an earlier and a later entry. */
  ghost predicate OrderedPair(a: Event, b: Event) {
    && (ClusterWrite(a) && ClusterWrite(b) ==> a.fence.taskEpoch <= b.fence.taskEpoch)
    && (ClusterWrite(a) && b.Wrote? ==> b.fence.mode == Cluster)
    && (a.Wrote? && b.Wrote? && b.fence.mode == Standalone ==>
          a.fence.mode == Standalone && (a.fence.node != "" ==> b.fence.node == a.fence.node))
    && (a.ReleasedAt? && HolderWrite(b) && b.fence.taskEpoch == a.epoch ==> b.fence.node == "")
    && (HolderWrite(a) && HolderWrite(b) && a.fence.taskEpoch == b.fence.taskEpoch && a.fence.node != ""
          && b.fence.node != "" ==>
          a.fence.node == b.fence.node)
    && (a.Yielded? && b.Yielded? ==> a.generation < b.generation)
  }

  ghost predicate OrderInv(log: seq<Event>) {
    forall i, j :: 0 <= i < j < |log| ==> OrderedPair(log[i], log[j])
  }

  ghost predicate Inv(coll: Collation, s: State, owners: map<int, string>) {
    LeaseInv(coll, s, owners) && LogInv(coll, s, owners) && OrderInv(s.log)
  }

  /** No step lowers the epoch, changes the owner within an epoch, or revives a released epoch. */
  lemma RowNext(coll: Collation, s: State, st: Step)
    requires s.row.Some?
    ensures Next(coll, s, st).row.Some?
    ensures var r, r' := s.row.value, Next(coll, s, st).row.value;
            && r.epoch <= r'.epoch
            && (r.epoch == r'.epoch ==> r'.owner == "" || SameOwner(coll, r.owner, r'.owner))
            && (r.epoch == r'.epoch && r.owner == "" ==> r'.owner == "")
  {
  }

  /** A step gives up the lease of a row: its own release, or a yield that takes effect and releases that epoch. */
  ghost predicate GivesUp(coll: Collation, s: State, st: Step)
    requires s.row.Some?
  {
    || (st.Release? && coll(st.worker) == coll(s.row.value.owner) && st.epoch == s.row.value.epoch)
    || (st.CommitYield? && st.y.release && st.y.releaseEpoch == s.row.value.epoch
        && s.task.epoch == st.y.expectEpoch && s.task.generation == st.y.expectGeneration)
  }

  /**
   No step takes a live lease away: its owner and epoch change if and only if
   the step gives it up, and its expiry only then or by its own renewal.
   */
  lemma LiveLeaseStays(coll: Collation, s: State, st: Step)
    requires s.row.Some? && s.row.value.owner != "" && s.now < s.row.value.expireAt
    ensures var r, after := s.row.value, Next(coll, s, st).row;
            && after.Some? && after.value.epoch == r.epoch
            && (GivesUp(coll, s, st) <==> after.value.owner != r.owner)
            && (GivesUp(coll, s, st) ==> after.value.owner == "" && after.value.expireAt == s.now)
            && (!GivesUp(coll, s, st) && after.value.expireAt != r.expireAt ==>
                  && st.Renew? && coll(st.worker) == coll(r.owner) && st.epoch == r.epoch
                  && after.value.expireAt == s.now + TtlMicros(st.ttlNanos))
  {
    hide Accepts;
  }

  lemma OwnersGrow(coll: Collation, s: State, owners: map<int, string>, st: Step)
    requires LeaseInv(coll, s, owners)
    ensures var later := Noted(coll, owners, Next(coll, s, st).row);
            forall e :: e in owners ==> e in later && SameOwner(coll, owners[e], later[e])
  {
    if s.row.Some? {
      RowNext(coll, s, st);
    }
  }

  lemma RowIsNoted(coll: Collation, s: State, owners: map<int, string>, st: Step)
    requires LeaseInv(coll, s, owners)
    ensures var row := Next(coll, s, st).row;
            && (row.None? ==> Noted(coll, owners, row) == map[])
            && (row.Some? ==> OnRecord(coll, Noted(coll, owners, row), row.value.epoch, row.value.owner))
            && (row.Some? ==> forall e :: e in Noted(coll, owners, row) ==> e <= row.value.epoch)
  {
    hide Accepts;
    if s.row.Some? {
      RowNext(coll, s, st);
    }
  }

  lemma StandsKept(coll: Collation, s: State, owners: map<int, string>, st: Step)
    requires LeaseInv(coll, s, owners)
    ensures var s' := Next(coll, s, st);
            forall e, w :: Stands(coll, s, owners, e, w) ==> Stands(coll, s', Noted(coll, owners, s'.row), e, w)
  {
    hide Noted;
    hide Next;
    OwnersGrow(coll, s, owners, st);
    if s.row.Some? {
      RowNext(coll, s, st);
    }
  }

  /** The row itself stands, for every worker it matches. */
  lemma MatchStands(coll: Collation, s: State, owners: map<int, string>)
    requires LeaseInv(coll, s, owners)
    ensures forall w, e :: Matches(coll, s.row, w, e) ==> Stands(coll, s, owners, e, w)
    ensures s.row.Some? ==> Stands(coll, s, owners, s.row.value.epoch, s.row.value.owner)
  {
  }

  lemma LeaseStep(coll: Collation, s: State, owners: map<int, string>, st: Step)
    requires LeaseInv(coll, s, owners)
    ensures LeaseInv(coll, Next(coll, s, st), Noted(coll, owners, Next(coll, s, st).row))
  {
    hide Accepts;
    hide Upserted;
    hide Renewed;
    hide Freed;
    hide FreedByEpoch;
    hide Noted;
    hide OnRecord;
    hide Stands;
    hide Matches;
    StandsKept(coll, s, owners, st);
    RowIsNoted(coll, s, owners, st);
    MatchStands(coll, s, owners);
  }

  /** What an accepted cluster write says about the rows at that moment. */
  lemma AcceptedCluster(s: State, f: Fence)
    requires Accepts(s, f) && f.mode == Cluster
    ensures s.row.Some? && s.row.value.epoch == f.taskEpoch
    ensures f.Holder() ==> s.row.value.owner == f.node && s.now < s.row.value.expireAt
  {
  }

  lemma EntryKept(coll: Collation, s: State, owners: map<int, string>, st: Step, e: Event)
    requires LeaseInv(coll, s, owners) && EntryInv(coll, s, owners, e)
    ensures EntryInv(coll, Next(coll, s, st), Noted(coll, owners, Next(coll, s, st).row), e)
  {
    OwnersGrow(coll, s, owners, st);
    if s.row.Some? {
      RowNext(coll, s, st);
    }
  }

  lemma EntryAdded(coll: Collation, s: State, owners: map<int, string>, st: Step, e: Event)
    requires LeaseInv(coll, s, owners)
    requires s.log <= Next(coll, s, st).log && e in Next(coll, s, st).log[|s.log|..]
    ensures EntryInv(coll, Next(coll, s, st), Noted(coll, owners, Next(coll, s, st).row), e)
  {
    if st.HealthWrite? && st.fence.mode == Cluster {
      AcceptedCluster(s, st.fence);
    }
  }

  lemma LogGrows(coll: Collation, s: State, st: Step)
    ensures s.log <= Next(coll, s, st).log
    ensures s.stored.chainOwner == LastVerified(s.log) ==>
              Next(coll, s, st).stored.chainOwner == LastVerified(Next(coll, s, st).log)
  {
    var s' := Next(coll, s, st);
    if s'.log != s.log {
      assert s'.log[..|s.log|] == s.log;
      if st.CommitYield? && YieldFrees(s, st.y) {
        var one := s.log + [Yielded(st.y.expectGeneration)];
        assert s'.log[..|s.log| + 1] == one && one[..|s.log|] == s.log;
      }
    }
  }

  lemma LogStep(coll: Collation, s: State, owners: map<int, string>, st: Step)
    requires Inv(coll, s, owners)
    ensures LogInv(coll, Next(coll, s, st), Noted(coll, owners, Next(coll, s, st).row))
  {
    var s' := Next(coll, s, st);
    LogGrows(coll, s, st);
    forall i | 0 <= i < |s'.log|
      ensures EntryInv(coll, s', Noted(coll, owners, s'.row), s'.log[i])
    {
      if i < |s.log| {
        EntryKept(coll, s, owners, st, s.log[i]);
      } else {
        assert s'.log[i] == s'.log[|s.log|..][i - |s.log|];
        EntryAdded(coll, s, owners, st, s'.log[i]);
      }
    }
  }

  lemma OrderStep(coll: Collation, s: State, owners: map<int, string>, st: Step)
    requires Inv(coll, s, owners)
    ensures OrderInv(Next(coll, s, st).log)
  {
    if st.HealthWrite? && Accepts(s, st.fence) && st.fence.mode == Cluster {
      AcceptedCluster(s, st.fence);
    }
  }

  lemma {:induction false} RunInv(coll: Collation, s0: State, steps: seq<Step>)
    requires s0 == Initial(s0.now, s0.task)
    ensures Inv(coll, Run(coll, s0, steps), Owners(coll, s0, steps))
  {
    if steps == [] {
    } else {
      var before := steps[..|steps|-1];
      RunInv(coll, s0, before);
      var s, owners, st := Run(coll, s0, before), Owners(coll, s0, before), steps[|steps|-1];
      LeaseStep(coll, s, owners, st);
      LogStep(coll, s, owners, st);
      OrderStep(coll, s, owners, st);
    }
  }

  // ---- Theorems over whole runs --------------------------------------------------

  /** The epoch never decreases along a run. */
  lemma {:induction false} EpochNeverDecreases(coll: Collation, s0: State, steps: seq<Step>, i: nat, j: nat)
    requires i <= j <= |steps|
    requires Run(coll, s0, steps[..i]).row.Some?
    ensures Run(coll, s0, steps[..j]).row.Some?
    ensures Run(coll, s0, steps[..i]).row.value.epoch <= Run(coll, s0, steps[..j]).row.value.epoch
    decreases j
  {
    if i < j {
      EpochNeverDecreases(coll, s0, steps, i, j - 1);
      RunSnoc(coll, s0, steps, j - 1);
      RowNext(coll, Run(coll, s0, steps[..j-1]), steps[j-1]);
    }
  }

  lemma {:induction false} OwnersStay(coll: Collation, s0: State, steps: seq<Step>, i: nat, e: int)
    requires s0 == Initial(s0.now, s0.task) && i <= |steps|
    requires e in Owners(coll, s0, steps[..i])
    ensures e in Owners(coll, s0, steps) && SameOwner(coll, Owners(coll, s0, steps[..i])[e], Owners(coll, s0, steps)[e])
    decreases |steps|
  {
    if i == |steps| {
      assert steps[..i] == steps;
    } else {
      var before := steps[..|steps|-1];
      assert before[..i] == steps[..i];
      OwnersStay(coll, s0, before, i, e);
      RunInv(coll, s0, before);
      OwnersGrow(coll, Run(coll, s0, before), Owners(coll, s0, before), steps[|steps|-1]);
    }
  }

  /** Each epoch has at most one named owner ever: one id, or ids the server takes for the same non-empty one. */
  lemma OneOwnerPerEpoch(coll: Collation, s0: State, steps: seq<Step>, i: nat, j: nat)
    requires s0 == Initial(s0.now, s0.task) && i <= |steps| && j <= |steps|
    requires Run(coll, s0, steps[..i]).row.Some? && Run(coll, s0, steps[..j]).row.Some?
    ensures var a, b := Run(coll, s0, steps[..i]).row.value, Run(coll, s0, steps[..j]).row.value;
            a.epoch == b.epoch && a.owner != "" && b.owner != "" ==> SameOwner(coll, a.owner, b.owner)
  {
    var a, b := Run(coll, s0, steps[..i]).row.value, Run(coll, s0, steps[..j]).row.value;
    if a.epoch == b.epoch && a.owner != "" && b.owner != "" {
      RunInv(coll, s0, steps[..i]);
      RunInv(coll, s0, steps[..j]);
      OwnersStay(coll, s0, steps, i, a.epoch);
      OwnersStay(coll, s0, steps, j, b.epoch);
    }
  }

  /**
   Any two workers ever told that they hold one epoch have ids the server takes
   for the same one, or it takes one of them for the empty string.
   */
  lemma ToldOnce(coll: Collation, s0: State, steps: seq<Step>, t: Told, u: Told)
    requires s0 == Initial(s0.now, s0.task)
    requires t in Run(coll, s0, steps).told && u in Run(coll, s0, steps).told && t.epoch == u.epoch
    ensures coll(t.worker) == coll(u.worker) || Vacant(coll, t.worker) || Vacant(coll, u.worker)
  {
    RunInv(coll, s0, steps);
  }

  /**
   What a worker is told, and when: by a clock read, that it holds the epoch of
   the row it read, if that row was its own, byte for byte, and not lapsed by
   then; by a renewal, if the row matches. Nothing else tells a worker anything.
   */
  lemma ToldNext(coll: Collation, s: State, st: Step)
    ensures var told := Next(coll, s, st).told;
            if st.ReadClock? && st.call in s.calls && s.calls[st.call].AfterRead?
               && s.calls[st.call].row.owner == s.calls[st.call].worker && s.now < s.calls[st.call].row.expireAt
            then told == s.told + [Told(s.calls[st.call].worker, s.calls[st.call].row.epoch)]
            else if st.Renew? && s.row.Some?
                    && coll(s.row.value.owner) == coll(st.worker) && s.row.value.epoch == st.epoch
            then told == s.told + [Told(st.worker, st.epoch)]
            else told == s.told
  {
    hide Accepts;
  }

  /** A call reads the row as it is: after its own upsert, or to verify an epoch the worker owns byte for byte. */
  lemma CallsNext(coll: Collation, s: State, st: Step, k: nat)
    requires k in Next(coll, s, st).calls && (k !in s.calls || s.calls[k] != Next(coll, s, st).calls[k])
    ensures var c := Next(coll, s, st).calls[k];
            || (st.AcquireUpsert? && st.call == k && c == AfterUpsert(st.worker))
            || (st == ReadRow(k) && k in s.calls && s.calls[k] == AfterUpsert(c.worker) && s.row == Some(c.row))
            || (st.VerifyRow? && st.call == k && st.worker == c.worker && s.row == Some(c.row)
                && c.row.owner == c.worker && c.row.epoch == st.epoch)
  {
    hide Accepts;
  }

  /** From state `i` to state `j` of a run the lease is never lapsed and never given up. */
  ghost predicate HeldThrough(coll: Collation, s0: State, steps: seq<Step>, i: nat, j: nat)
    requires j <= |steps|
  {
    forall k :: i <= k < j ==>
      var s := Run(coll, s0, steps[..k]);
      s.row.Some? && s.now < s.row.value.expireAt && !GivesUp(coll, s, steps[k])
  }

  lemma {:induction false} HeldLeaseStays(coll: Collation, s0: State, steps: seq<Step>, i: nat, j: nat)
    requires i <= j <= |steps| && HeldThrough(coll, s0, steps, i, j)
    requires var r := Run(coll, s0, steps[..i]).row; r.Some? && r.value.owner != ""
    ensures var a, b := Run(coll, s0, steps[..i]).row, Run(coll, s0, steps[..j]).row;
            b.Some? && b.value.owner == a.value.owner && b.value.epoch == a.value.epoch
    decreases j
  {
    hide Next;
    hide Run;
    hide GivesUp;
    if i == j {
    } else {
      HeldLeaseStays(coll, s0, steps, i, j - 1);
      RunSnoc(coll, s0, steps, j - 1);
      LiveLeaseStays(coll, Run(coll, s0, steps[..j-1]), steps[j-1]);
    }
  }

  /**
   The lease excludes: as long as a named owner's lease is neither lapsed nor
   given up, it stays that owner's at that epoch, and nobody has been told a
   higher epoch, nor anybody but that owner this one.
   */
  lemma LeaseExcludes(coll: Collation, s0: State, steps: seq<Step>, i: nat, j: nat)
    requires s0 == Initial(s0.now, s0.task) && i <= j <= |steps| && HeldThrough(coll, s0, steps, i, j)
    requires var r := Run(coll, s0, steps[..i]).row; r.Some? && r.value.owner != ""
    ensures var r, s := Run(coll, s0, steps[..i]).row.value, Run(coll, s0, steps[..j]);
            && s.row.Some? && s.row.value.owner == r.owner && s.row.value.epoch == r.epoch
            && (forall t :: t in s.told ==>
                  t.epoch <= r.epoch && (t.epoch == r.epoch ==> coll(t.worker) == coll(r.owner)))
  {
    hide Next;
    hide Run;
    hide GivesUp;
    HeldLeaseStays(coll, s0, steps, i, j);
    RunInv(coll, s0, steps[..j]);
  }

  /** Two workers the server cannot tell apart: the second takes the lapsed lease at the same epoch. */
  ghost function CollisionRun(a: string, b: string): seq<Step> {
    [AcquireUpsert(0, a, 1000), ReadRow(0), ReadClock(0), Tick(1), AcquireUpsert(0, b, 1000), ReadRow(0), ReadClock(0)]
  }

  lemma RunOfFive(coll: Collation, s0: State, r: seq<Step>)
    requires |r| == 5
    ensures Run(coll, s0, r) ==
              Next(coll, Next(coll, Next(coll, Next(coll, Next(coll, s0, r[0]), r[1]), r[2]), r[3]), r[4])
  {
    hide Next;
    RunSnoc(coll, s0, r, 0);
    RunSnoc(coll, s0, r, 1);
    RunSnoc(coll, s0, r, 2);
    RunSnoc(coll, s0, r, 3);
    RunSnoc(coll, s0, r, 4);
    assert r[..0] == [] && r[..5] == r;
  }

  lemma RunOfSeven(coll: Collation, s0: State, r: seq<Step>)
    requires |r| == 7
    ensures Run(coll, s0, r) == Next(coll, Next(coll, Run(coll, s0, r[..5]), r[5]), r[6])
    ensures Run(coll, s0, r[..5]) ==
              Next(coll, Next(coll, Next(coll, Next(coll, Next(coll, s0, r[0]), r[1]), r[2]), r[3]), r[4])
  {
    hide Next;
    RunOfFive(coll, s0, r[..5]);
    RunSnoc(coll, s0, r, 5);
    RunSnoc(coll, s0, r, 6);
    assert r[..7] == r;
  }

  lemma CollidingWorkersShareAnEpoch(coll: Collation, task: TaskRow, a: string, b: string)
    requires coll(a) == coll(b) && !Vacant(coll, a)
    ensures Run(coll, Initial(0, task), CollisionRun(a, b)).told == [Told(a, 1), Told(b, 1)]
  {
    hide Accepts;
    hide AfterYield;
    hide Run;
    var s0, r := Initial(0, task), CollisionRun(a, b);
    RunOfSeven(coll, s0, r);
    var s3 := Next(coll, Next(coll, Next(coll, s0, r[0]), r[1]), r[2]);
    assert s3.told == [Told(a, 1)] && s3.row == Some(Row(a, 1, 1, 0));
    var s5 := Next(coll, Next(coll, s3, r[3]), r[4]);
    assert s5.row == Some(Row(b, 1, 2, 0)) && s5.told == [Told(a, 1)] && s5.now == 1;
  }

  /**
   A worker whose id the server takes for the empty string renews a released
   row: it is told that it holds the epoch its last owner was told.
   */
  ghost function VacantRun(a: string, b: string): seq<Step> {
    [AcquireUpsert(0, b, 1000), ReadRow(0), ReadClock(0), Release(b, 1), Renew(a, 1, 1000)]
  }

  lemma VacantWorkerSharesAnEpoch(coll: Collation, task: TaskRow, a: string, b: string)
    requires Vacant(coll, a)
    ensures Run(coll, Initial(0, task), VacantRun(a, b)).told == [Told(b, 1), Told(a, 1)]
  {
    hide Accepts;
    hide AfterYield;
    hide Run;
    var s0, r := Initial(0, task), VacantRun(a, b);
    RunOfFive(coll, s0, r);
    var s3 := Next(coll, Next(coll, Next(coll, s0, r[0]), r[1]), r[2]);
    assert s3.told == [Told(b, 1)] && s3.row == Some(Row(b, 1, 1, 0)) && s3.now == 0;
  }

  /** Some epoch was told to both workers. */
  ghost predicate ToldBoth(s: State, a: string, b: string) {
    exists e :: Told(a, e) in s.told && Told(b, e) in s.told
  }

  /**
   Exactly when no run ever tells two different workers that they hold one
   epoch: the server takes neither for the empty string and tells them apart.
   */
  lemma NeverToldBothIff(coll: Collation, task: TaskRow, a: string, b: string)
    requires a != b
    ensures !Vacant(coll, a) && !Vacant(coll, b) && coll(a) != coll(b) <==>
              forall steps, now: int :: !ToldBoth(Run(coll, Initial(now, task), steps), a, b)
  {
    hide Run;
    if !Vacant(coll, a) && !Vacant(coll, b) && coll(a) != coll(b) {
      forall steps, now: int ensures !ToldBoth(Run(coll, Initial(now, task), steps), a, b) {
        var s0 := Initial(now, task);
        var s := Run(coll, s0, steps);
        forall e | Told(a, e) in s.told ensures Told(b, e) !in s.told {
          if Told(b, e) in s.told {
            ToldOnce(coll, s0, steps, Told(a, e), Told(b, e));
          }
        }
      }
    } else {
      var run := if Vacant(coll, a) then VacantRun(a, b)
                 else if Vacant(coll, b) then VacantRun(b, a) else CollisionRun(a, b);
      if Vacant(coll, a) {
        VacantWorkerSharesAnEpoch(coll, task, a, b);
      } else if Vacant(coll, b) {
        VacantWorkerSharesAnEpoch(coll, task, b, a);
      } else {
        CollidingWorkersShareAnEpoch(coll, task, a, b);
      }
      var told := Run(coll, Initial(0, task), run).told;
      assert told[0] in told && told[1] in told;
      assert ToldBoth(Run(coll, Initial(0, task), run), a, b);
    }
  }

  /** The accepted writes of any run, in order. */
  lemma FencedWrites(coll: Collation, s0: State, steps: seq<Step>, i: nat, j: nat)
    requires s0 == Initial(s0.now, s0.task)
    requires i < j < |Run(coll, s0, steps).log|
    ensures var a, b := Run(coll, s0, steps).log[i], Run(coll, s0, steps).log[j];
            && (ClusterWrite(a) && b.Wrote? ==> ClusterWrite(b) && a.fence.taskEpoch <= b.fence.taskEpoch)
            && (HolderWrite(a) && HolderWrite(b) && a.fence.taskEpoch == b.fence.taskEpoch && a.fence.node != ""
                  && b.fence.node != "" ==>
                  a.fence.node == b.fence.node)
            && (a.ReleasedAt? && HolderWrite(b) && b.fence.taskEpoch == a.epoch ==> b.fence.node == "")
            && (a.Wrote? && b.Wrote? && b.fence.mode == Standalone ==>
                  a.fence.mode == Standalone && (a.fence.node != "" ==> b.fence.node == a.fence.node))
  {
    RunInv(coll, s0, steps);
  }

  /**
   Who may write for a task it does not hold: nobody while a lease is live; a
   delegate only as the node of the latest holder write that read the
   directory; and a never-leased writer only before the first lease.
   */
  lemma WritesOnBehalf(coll: Collation, s0: State, steps: seq<Step>, f: Fence)
    requires s0 == Initial(s0.now, s0.task)
    requires Accepts(Run(coll, s0, steps), f)
    ensures var s := Run(coll, s0, steps);
            && (f.mode == Cluster && f.OnBehalf() ==>
                  s.row.Some? && s.row.value.epoch == f.taskEpoch
                      && (s.row.value.owner == "" || s.row.value.expireAt <= s.now))
            && (f.mode == Cluster && f.delegated ==> f.node == LastVerified(s.log) != "")
            && (f.mode == NeverLeased ==> s.row.None?)
            && (f.Holder() ==>
                  && s.row.Some? && s.row.value.owner == f.node
                  && s.row.value.epoch == f.taskEpoch && s.now < s.row.value.expireAt)
  {
    RunInv(coll, s0, steps);
  }

  /** chain_owner is the node of the latest accepted holder write that read the directory. */
  lemma ChainOwnerIsLastVerified(coll: Collation, s0: State, steps: seq<Step>)
    requires s0 == Initial(s0.now, s0.task)
    ensures Run(coll, s0, steps).stored.chainOwner == LastVerified(Run(coll, s0, steps).log)
  {
    RunInv(coll, s0, steps);
  }

  /** The fence of the latest accepted write. */
  ghost function LastWrite(log: seq<Event>): Option<Fence> {
    if log == [] then None
    else if log[|log|-1].Wrote? then Some(log[|log|-1].fence)
    else LastWrite(log[..|log|-1])
  }

  /** The stored fence is that of the latest accepted write. */
  ghost predicate StoresLast(s: State) {
    match LastWrite(s.log)
    case None => s.stored.mode == Unset
    case Some(f) =>
      && f.mode != Unset
      && s.stored == Stored(f.mode, f.taskEpoch, f.node, f.instance, s.stored.chainOwner)
  }

  lemma StoresLastNext(coll: Collation, s: State, st: Step)
    requires StoresLast(s)
    ensures StoresLast(Next(coll, s, st))
  {
    hide AfterWrite;
    hide LastWrite;
    hide Upserted;
    hide Renewed;
    hide Freed;
    hide FreedByEpoch;
    hide Matches;
    if st.HealthWrite? {
      StoresAfterWrite(s, st.fence, st.waiver);
    } else if st.Release? {
      LastWritePush(s.log, ReleasedAt(st.epoch));
    } else if st.CommitYield? {
      var one := s.log + [Yielded(st.y.expectGeneration)];
      LastWritePush(s.log, Yielded(st.y.expectGeneration));
      LastWritePush(one, ReleasedAt(st.y.releaseEpoch));
      assert one + [] == one;
    }
  }

  lemma StoresAfterWrite(s: State, f: Fence, waiver: bool)
    requires StoresLast(s)
    ensures StoresLast(AfterWrite(s, f, waiver))
  {
    hide CheckFence;
    hide LastWrite;
    AcceptedIff(f, LeaseSeen(s, f), StoredSeen(s));
    LastWritePush(s.log, Wrote(f, waiver));
  }

  lemma LastWritePush(log: seq<Event>, e: Event)
    ensures LastWrite(log + [e]) == if e.Wrote? then Some(e.fence) else LastWrite(log)
  {
    assert (log + [e])[..|log|] == log;
  }

  lemma {:induction false} StoredIsLastWrite(coll: Collation, s0: State, steps: seq<Step>)
    requires s0 == Initial(s0.now, s0.task)
    ensures StoresLast(Run(coll, s0, steps))
  {
    hide Next;
    if steps == [] {
    } else {
      StoredIsLastWrite(coll, s0, steps[..|steps|-1]);
      StoresLastNext(coll, Run(coll, s0, steps[..|steps|-1]), steps[|steps|-1]);
    }
  }

  /** The latest accepted write was no cluster write, or at an earlier epoch, or at this one by this node or none. */
  ghost predicate Unopposed(last: Option<Fence>, f: Fence) {
    last.None? || last.value.mode != Cluster || last.value.taskEpoch < f.taskEpoch
    || (last.value.taskEpoch == f.taskEpoch && (last.value.node == "" || last.value.node == f.node))
  }

  /** The lease row and the latest accepted write decide who may write next. */
  ghost predicate MayWrite(s: State, f: Fence) {
    var last := LastWrite(s.log);
    match f.mode
    case Standalone =>
      last.None? || (last.value.mode == Standalone && (last.value.node == "" || last.value.node == f.node))
    case NeverLeased => s.row.None? && (last.None? || last.value.mode != Cluster)
    case Cluster =>
      && s.row.Some? && s.row.value.epoch == f.taskEpoch
      && if f.proxy || f.delegated then
           && (s.row.value.owner == "" || (s.row.value.expireAt <= s.now && Unopposed(last, f)))
           && (f.delegated ==> f.node == LastVerified(s.log) != "")
         else s.row.value.owner == f.node && s.now < s.row.value.expireAt && Unopposed(last, f)
    case _ => false
  }

  /**
   Exactly who is accepted in a reachable state, by the lease row and the
   history of accepted writes alone.
   */
  lemma AcceptedByHistory(coll: Collation, s0: State, steps: seq<Step>, f: Fence)
    requires s0 == Initial(s0.now, s0.task)
    ensures Accepts(Run(coll, s0, steps), f) <==> MayWrite(Run(coll, s0, steps), f)
  {
    hide Next;
    hide Run;
    hide CheckFence;
    hide LeaseInv;
    hide OrderInv;
    var s := Run(coll, s0, steps);
    RunInv(coll, s0, steps);
    StoredIsLastWrite(coll, s0, steps);
    AcceptedIff(f, LeaseSeen(s, f), StoredSeen(s));
    if LastWrite(s.log).Some? {
      var i := LastWriteIsWrite(s.log);
      assert EntryInv(coll, s, Owners(coll, s0, steps), s.log[i]);
    } else {
      NothingVerified(s.log);
    }
  }

  lemma {:induction false} NothingVerified(log: seq<Event>)
    requires LastWrite(log).None?
    ensures LastVerified(log) == ""
  {
    if log == [] {
    } else {
      NothingVerified(log[..|log|-1]);
    }
  }

  lemma {:induction false} LastWriteIsWrite(log: seq<Event>) returns (i: nat)
    requires LastWrite(log).Some?
    ensures i < |log| && log[i].Wrote? && log[i].fence == LastWrite(log).value
  {
    if log[|log|-1].Wrote? {
      i := |log| - 1;
    } else {
      i := LastWriteIsWrite(log[..|log|-1]);
    }
  }

  /** After a release at an epoch no named holder is accepted at it. */
  lemma ReleasedEpochIsClosed(coll: Collation, s0: State, steps: seq<Step>, f: Fence)
    requires s0 == Initial(s0.now, s0.task)
    requires ReleasedAt(f.taskEpoch) in Run(coll, s0, steps).log
    requires f.Holder() && f.node != ""
    ensures !Accepts(Run(coll, s0, steps), f)
  {
    RunInv(coll, s0, steps);
  }

  /** A holder that names no node is: a renewal by the empty worker id revives the released row. */
  lemma UnnamedHolderWritesAfterRelease(coll: Collation, task: TaskRow)
    ensures var f := Fence(Cluster, 1, "", "", false, false, false);
            var s := Run(coll, Initial(0, task), [AcquireUpsert(0, "w", 1000), Release("w", 1), Renew("", 1, 1000)]);
            f.Holder() && ReleasedAt(1) in s.log && Accepts(s, f)
  {
    var s0, r := Initial(0, task), [AcquireUpsert(0, "w", 1000), Release("w", 1), Renew("", 1, 1000)];
    RunSnoc(coll, s0, r, 0);
    RunSnoc(coll, s0, r, 1);
    RunSnoc(coll, s0, r, 2);
    assert r[..0] == [] && r[..3] == r;
    var s2 := Run(coll, s0, r[..2]);
    assert s2 == Next(coll, Next(coll, s0, r[0]), r[1]) && s2.log[0] == ReleasedAt(1);
  }

  ghost predicate ReleaseIsFinal(coll: Collation, s: State, node: string) {
    forall f: Fence :: f.Holder() && f.node == node && ReleasedAt(f.taskEpoch) in s.log ==> !Accepts(s, f)
  }

  /** So a release is final for a node, in every run, exactly when the node has a name. */
  lemma ReleaseIsFinalIff(coll: Collation, task: TaskRow, node: string)
    ensures node != "" <==> forall steps, now: int :: ReleaseIsFinal(coll, Run(coll, Initial(now, task), steps), node)
  {
    if node != "" {
      forall steps, now: int ensures ReleaseIsFinal(coll, Run(coll, Initial(now, task), steps), node) {
        var s := Run(coll, Initial(now, task), steps);
        forall f: Fence | f.Holder() && f.node == node && ReleasedAt(f.taskEpoch) in s.log ensures !Accepts(s, f) {
          ReleasedEpochIsClosed(coll, Initial(now, task), steps, f);
        }
      }
    } else {
      var f := Fence(Cluster, 1, "", "", false, false, false);
      UnnamedHolderWritesAfterRelease(coll, task);
      var steps := [AcquireUpsert(0, "w", 1000), Release("w", 1), Renew("", 1, 1000)];
      assert !ReleaseIsFinal(coll, Run(coll, Initial(0, task), steps), "");
    }
  }

  /** A yield frees by epoch alone, and still only its own lease when its worker was told it held that epoch. */
  lemma YieldFreesOwnLease(coll: Collation, s0: State, steps: seq<Step>, y: Yield, worker: string)
    requires s0 == Initial(s0.now, s0.task)
    requires Told(worker, y.releaseEpoch) in Run(coll, s0, steps).told
    ensures var s := Run(coll, s0, steps);
            s.row.Some? && AfterYield(s, y).row != s.row ==>
              s.row.value.owner == "" || coll(s.row.value.owner) == coll(worker)
  {
    RunInv(coll, s0, steps);
  }

  /** Of the yields prepared from one loaded generation at most one takes effect in a run. */
  lemma OneYieldPerGeneration(coll: Collation, s0: State, steps: seq<Step>, i: nat, j: nat, y: Yield, z: Yield)
    requires s0 == Initial(s0.now, s0.task) && i < j < |steps|
    requires steps[i] == CommitYield(y) && TakesEffect(Run(coll, s0, steps[..i]), y)
    requires steps[j] == CommitYield(z) && y.expectGeneration == z.expectGeneration
    ensures !TakesEffect(Run(coll, s0, steps[..j]), z)
  {
    hide Next;
    hide Run;
    GenerationNeverDecreases(coll, s0, steps, i + 1, j);
    RunSnoc(coll, s0, steps, i);
    GenerationNext(coll, Run(coll, s0, steps[..i]), steps[i]);
  }

  /** Every task write adds one to the generation, and nothing else changes it. */
  lemma GenerationNext(coll: Collation, s: State, st: Step)
    ensures Next(coll, s, st).task ==
              if st.TaskWrite? then TaskRow(st.newEpoch, s.task.generation + 1)
              else if st.CommitYield? && s.row.Some? && s.task == TaskRow(st.y.expectEpoch, st.y.expectGeneration)
              then TaskRow(st.y.newEpoch, s.task.generation + 1)
              else s.task
  {
    hide Accepts;
  }

  lemma {:induction false} GenerationNeverDecreases(coll: Collation, s0: State, steps: seq<Step>, i: nat, j: nat)
    requires i <= j <= |steps|
    ensures Run(coll, s0, steps[..i]).task.generation <= Run(coll, s0, steps[..j]).task.generation
    decreases j
  {
    hide Next;
    hide Run;
    if i < j {
      GenerationNeverDecreases(coll, s0, steps, i, j - 1);
      RunSnoc(coll, s0, steps, j - 1);
      GenerationNext(coll, Run(coll, s0, steps[..j-1]), steps[j-1]);
    }
  }
}
