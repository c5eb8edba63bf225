/** The rows of one task, changed statement by statement inside one transaction. */
module ClusterTables {
  import opened Wrappers
  import opened Leases
  import opened Fences
  import opened ClusterRuns

  class TaskTables {
    var row: Option<Row>
    var task: TaskRow
    var stored: Stored

    /** The rows are those of a state of a run. */
    ghost predicate Shows(s: State)
      reads this
    {
      row == s.row && task == s.task && stored == s.stored
    }

    /** Task row first, under its loaded epoch and generation; the lease after it, by epoch alone. */
    method CommitYield(y: Yield, now: int, ghost s: State) returns (affected: nat)
      requires Shows(s) && now == s.now
      modifies this
      ensures Shows(AfterYield(s, y))
      ensures affected == if row.Some? && old(task) == TaskRow(y.expectEpoch, y.expectGeneration) then 1 else 0
      ensures affected == 0 ==> row == old(row) && task == old(task)
      ensures affected == 1 ==> task == TaskRow(y.newEpoch, y.expectGeneration + 1)
      ensures affected == 1 && y.release && old(row).value.epoch == y.releaseEpoch ==>
                row == Some(Row("", y.releaseEpoch, now, old(row).value.renewedAt))
      ensures affected == 1 && !(y.release && old(row).value.epoch == y.releaseEpoch) ==> row == old(row)
      ensures stored == old(stored)
    {
      if row.None? {
        return 0;
      }
      if task.epoch != y.expectEpoch || task.generation != y.expectGeneration {
        return 0;
      }
      task := TaskRow(y.newEpoch, task.generation + 1);
      if y.release && row.value.epoch == y.releaseEpoch {
        row := Some(row.value.(owner := "", expireAt := now));
      }
      return 1;
    }

    /** The locked rows are read, the fence is checked, and only then is anything written. */
    method HealthWrite(f: Fence, waiver: bool, now: int, ghost s: State) returns (verdict: Verdict)
      requires Shows(s) && now == s.now
      modifies this
      ensures verdict == Accepted <==> Accepts(s, f)
      ensures Shows(AfterWrite(s, f, waiver))
      ensures row == old(row) && task == old(task) && (verdict != Accepted ==> stored == old(stored))
      ensures verdict == Accepted ==>
                && stored.mode == f.mode && stored.epoch == f.taskEpoch
                && stored.node == f.node && stored.instance == f.instance
                && stored.chainOwner == if !waiver && VerifiedHolder(f) then f.node else old(stored).chainOwner
    {
      var lease := None;
      if f.mode != Standalone && row.Some? {
        lease := Some(LeaseView(row.value.owner, row.value.epoch, row.value.expireAt <= now));
      }
      verdict := CheckFence(f, lease, if stored.mode == Unset then None else Some(stored));
      if verdict != Accepted {
        return;
      }
      var owner := stored.chainOwner;
      if !waiver && f.RecordsChainOwner() {
        owner := f.node;
      }
      stored := Stored(f.mode, f.taskEpoch, f.node, f.instance, owner);
    }
  }
}
