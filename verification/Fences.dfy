/** The fence rule of a health write. */
module Fences {
  import opened Wrappers

  datatype Mode = Unset | Cluster | Standalone | NeverLeased | OtherMode

  datatype Fence = Fence(mode: Mode, taskEpoch: int, node: string, instance: string,
                         proxy: bool, delegated: bool, chainVerified: bool)
  {
    predicate OnBehalf() { proxy || delegated }

    /** A cluster write by the lease holder itself. */
    predicate Holder() { mode == Cluster && !OnBehalf() }

    predicate RecordsChainOwner() { mode == Cluster && !proxy && !delegated && chainVerified }
  }

  datatype LeaseView = LeaseView(owner: string, epoch: int, expired: bool)

  datatype Stored = Stored(mode: Mode, epoch: int, node: string, instance: string, chainOwner: string)

  datatype Verdict = Accepted | Fenced | LeaseLagging | ModeUnsupported

  function CheckFence(f: Fence, lease: Option<LeaseView>, stored: Option<Stored>): Verdict {
    match f.mode
    case Standalone =>
      if stored.Some? && stored.value.mode != Unset && stored.value.mode != Standalone then Fenced
      else if stored.Some? && stored.value.node != "" && stored.value.node != f.node then Fenced
      else Accepted
    case NeverLeased =>
      if lease.Some? then Fenced
      else if stored.Some? && stored.value.mode == Cluster then Fenced
      else Accepted
    case Cluster => CheckCluster(f, lease, stored)
    case _ => ModeUnsupported
  }

  function CheckCluster(f: Fence, lease: Option<LeaseView>, stored: Option<Stored>): Verdict {
    if lease.None? then Fenced
    else
      var l := lease.value;
      if f.OnBehalf() && (l.epoch != f.taskEpoch || (!l.expired && l.owner != "")) then Fenced
      else if !f.OnBehalf() && (l.owner != f.node || l.epoch != f.taskEpoch) then Fenced
      else if !f.OnBehalf() && l.expired then LeaseLagging
      else if stored.Some? && stored.value.mode == Cluster && stored.value.epoch > f.taskEpoch then Fenced
      else if stored.Some? && stored.value.mode == Cluster && stored.value.epoch == f.taskEpoch
              && stored.value.node != "" && stored.value.node != f.node && !(f.OnBehalf() && l.owner == "") then Fenced
      else if f.delegated && (stored.None? || stored.value.chainOwner == "" || stored.value.chainOwner != f.node)
          then Fenced
      else Accepted
  }

  /** No write at a later epoch, nor by another node at this one; on a released lease the node does not matter. */
  ghost predicate NotSuperseded(f: Fence, owner: string, stored: Option<Stored>) {
    stored.Some? && stored.value.mode == Cluster ==>
      || stored.value.epoch < f.taskEpoch
      || (stored.value.epoch == f.taskEpoch
          && (stored.value.node == "" || stored.value.node == f.node || ((f.proxy || f.delegated) && owner == "")))
  }

  /** Exactly who is accepted, kind of writer by kind of writer, and how the others are refused. */
  lemma AcceptedIff(f: Fence, lease: Option<LeaseView>, stored: Option<Stored>)
    ensures f.mode == Standalone ==>
              (CheckFence(f, lease, stored) == Accepted <==>
                stored.None? || ((stored.value.mode == Unset || stored.value.mode == Standalone)
                                 && (stored.value.node == "" || stored.value.node == f.node)))
    ensures f.mode == NeverLeased ==>
              (CheckFence(f, lease, stored) == Accepted <==>
                lease.None? && (stored.None? || stored.value.mode != Cluster))
    ensures f.mode == Cluster && !f.proxy && !f.delegated ==>
              (CheckFence(f, lease, stored) == Accepted <==>
                && lease == Some(LeaseView(f.node, f.taskEpoch, false))
                && NotSuperseded(f, lease.value.owner, stored))
    ensures f.mode == Cluster && (f.proxy || f.delegated) ==>
              (CheckFence(f, lease, stored) == Accepted <==>
                && lease.Some? && lease.value.epoch == f.taskEpoch && (lease.value.owner == "" || lease.value.expired)
                && NotSuperseded(f, lease.value.owner, stored)
                && (f.delegated ==> stored.Some? && stored.value.chainOwner == f.node != ""))
    ensures CheckFence(f, lease, stored) == ModeUnsupported <==> f.mode == Unset || f.mode == OtherMode
    ensures CheckFence(f, lease, stored) == LeaseLagging <==>
              && f.mode == Cluster && !f.proxy && !f.delegated && lease.Some?
              && lease.value == LeaseView(f.node, f.taskEpoch, true)
  {
  }
}
