/** Why each copy of a content pass ended as it did: the read it comes from, or the digest it had none of. */
module Ends {
  import opened Wrappers
  import opened Queues
  import opened Passes

  // ---- Digests -------------------------------------------------------------------

  /** The local copy of the segment was read clean, so its digest is known. */
  ghost predicate LocalClean(ends: seq<End>, x: nat) {
    exists j :: 0 <= j < |ends| && ends[j].work.copy.seg == x && ends[j].work.copy.local
        && ends[j].outcome == Read(true)
  }

  ghost predicate LocalDeferred(ends: seq<End>, x: nat) {
    exists j :: 0 <= j < |ends| && ends[j].work.copy.seg == x && ends[j].work.copy.local && ends[j].outcome.Deferred()
  }

  /**
   An object without a catalog digest is hashed only against a local copy read
   clean in this pass; without one it waits if the local copy was deferred, and
   is unverifiable otherwise.
   */
  ghost predicate Supported(ends: seq<End>, k: nat)
    requires k < |ends|
  {
    var e, x := ends[k], ends[k].work.copy.seg;
    && (e.outcome == Unverifiable || e.outcome == DeferredNoDigest ==>
          !e.work.copy.local && !e.work.copy.digest && !LocalClean(ends[..k], x))
    && (e.outcome == DeferredNoDigest ==> LocalDeferred(ends[..k], x))
    && (!e.work.copy.local && !e.work.copy.digest && e.outcome.Read? ==> LocalClean(ends[..k], x))
  }

  ghost predicate AllSupported(ends: seq<End>) {
    forall k :: 0 <= k < |ends| ==> Supported(ends, k)
  }

  ghost predicate Digests(ends: seq<End>, clean: set<nat>, skipped: set<nat>) {
    forall x :: (x in clean <==> LocalClean(ends, x)) && (x in skipped <==> LocalDeferred(ends, x))
  }

  lemma DigestsPush(ends: seq<End>, e: End, clean: set<nat>, skipped: set<nat>)
    requires Digests(ends, clean, skipped)
    ensures var x := e.work.copy.seg;
            Digests(ends + [e], if e.work.copy.local && e.outcome == Read(true) then clean + {x} else clean,
                    if e.work.copy.local && e.outcome.Deferred() then skipped + {x} else skipped)
  {
    var l := ends + [e];
    assert l[|ends|] == e;
    assert forall j :: 0 <= j < |ends| ==> l[j] == ends[j];
    forall x
      ensures LocalClean(l, x) <==>
                LocalClean(ends, x) || (e.work.copy.seg == x && e.work.copy.local && e.outcome == Read(true))
      ensures LocalDeferred(l, x) <==>
                LocalDeferred(ends, x) || (e.work.copy.seg == x && e.work.copy.local && e.outcome.Deferred())
    {
    }
  }

  lemma SupportedPush(ends: seq<End>, e: End)
    requires AllSupported(ends) && Supported(ends + [e], |ends|)
    ensures AllSupported(ends + [e])
  {
    hide LocalClean;
    hide LocalDeferred;
    var l := ends + [e];
    forall k | 0 <= k < |l| ensures Supported(l, k) {
      if k < |ends| {
        assert Supported(ends, k) && l[..k] == ends[..k];
      }
    }
  }

  lemma {:induction false} SupportedLate(ends: seq<End>, rest: seq<Work>)
    requires AllSupported(ends)
    ensures AllSupported(ends + OutOfTimeEnds(rest))
  {
    hide LocalClean;
    hide LocalDeferred;
    var l := ends + OutOfTimeEnds(rest);
    forall k | 0 <= k < |l| ensures Supported(l, k) {
      if k < |ends| {
        assert Supported(ends, k) && l[..k] == ends[..k];
      } else {
        assert l[k] == OutOfTimeEnds(rest)[k - |ends|];
      }
    }
  }

  lemma SupportsEnd(ends: seq<End>, e: End, clean: set<nat>, skipped: set<nat>)
    requires Digests(ends, clean, skipped)
    requires e.outcome == Unverifiable || e.outcome == DeferredNoDigest ==>
               !e.work.copy.local && !e.work.copy.digest && e.work.copy.seg !in clean
    requires e.outcome == DeferredNoDigest ==> e.work.copy.seg in skipped
    requires !e.work.copy.local && !e.work.copy.digest && e.outcome.Read? ==> e.work.copy.seg in clean
    ensures Supported(ends + [e], |ends|)
  {
    hide LocalClean;
    hide LocalDeferred;
    assert (ends + [e])[..|ends|] == ends;
  }

  // ---- Reads -----------------------------------------------------------------------

  /**
   The read that an end comes from, with what it cost: a copy counts as read
   when its read got to the end, clean or not; as missing when it is an object
   that is not there; as failed when it is a local file that is not there, or
   on any other failure; and as late when the deadline cut the read.
   */
  ghost predicate ReadAs(e: End, env: Env, n: nat) {
    var r := env.read(n, e.work);
    && r.paid == e.paid
    && match r.result
       case Got(clean) => e.outcome == Read(clean)
       case NotFound => if e.work.copy.local then e.outcome == Errored else e.outcome == Missing
       case Failed => e.outcome == Errored
       case OutOfTime => e.outcome == DeferredTime
       case Stopped => false
  }

  /** A copy ends as read, failed or missing only by a read of it that gave that; nothing else of these costs bytes. */
  ghost predicate Explained(e: End, env: Env) {
    && (e.outcome.Read? || e.outcome == Errored || e.outcome == Missing ==> exists n: nat :: ReadAs(e, env, n))
    && (e.outcome == Unverifiable || e.outcome == DeferredBudget || e.outcome == DeferredNoDigest ==> e.paid == 0)
  }

  ghost predicate AllExplained(ends: seq<End>, env: Env) {
    forall e :: e in ends ==> Explained(e, env)
  }

  lemma ExplainedPush(ends: seq<End>, e: End, env: Env)
    requires AllExplained(ends, env) && Explained(e, env)
    ensures AllExplained(ends + [e], env)
  {
    hide Explained;
  }

  lemma ExplainedLate(ends: seq<End>, rest: seq<Work>, env: Env)
    requires AllExplained(ends, env)
    ensures AllExplained(ends + OutOfTimeEnds(rest), env)
  {
    hide ReadAs;
    var late := OutOfTimeEnds(rest);
    assert forall e :: e in late ==> e.outcome == DeferredTime;
  }

  // ---- Passes without a deadline ---------------------------------------------------

  /** No deadline cuts the pass or a read of it. */
  ghost predicate Unhurried(env: Env) {
    (forall n :: env.ctx(n) != Expired) && forall n, w :: env.read(n, w).result != OutOfTime
  }

  ghost predicate NoneLate(ends: seq<End>) {
    forall e :: e in ends ==> e.outcome != DeferredTime
  }

  ghost predicate NoneDeferred(ends: seq<End>) {
    forall e :: e in ends ==> !e.outcome.Deferred()
  }

  lemma NoneLatePush(ends: seq<End>, e: End)
    requires NoneLate(ends) && e.outcome != DeferredTime
    ensures NoneLate(ends + [e])
  {
  }

  /** Nothing waits for a digest when no local copy was deferred. */
  lemma NothingWaits(ends: seq<End>)
    requires NoneOver(ends) && NoneLate(ends) && AllSupported(ends)
    ensures NoneDeferred(ends)
  {
    forall j | 0 <= j < |ends| && ends[j].work.copy.local ensures !ends[j].outcome.Deferred() {
      assert Supported(ends, j) && ends[j] in ends;
    }
    forall k | 0 <= k < |ends| ensures !ends[k].outcome.Deferred() {
      assert Supported(ends, k) && ends[k] in ends;
      assert forall j :: 0 <= j < k ==> ends[..k][j] == ends[j];
      assert !LocalDeferred(ends[..k], ends[k].work.copy.seg);
    }
  }

  // ---- The book of a pass ----------------------------------------------------------

  /** What the loop keeps of its ends: why each is so, and the local copies read clean or deferred. */
  ghost predicate Book(ends: seq<End>, clean: set<nat>, skipped: set<nat>, env: Env) {
    Digests(ends, clean, skipped) && AllSupported(ends) && AllExplained(ends, env)
        && (Unhurried(env) ==> NoneLate(ends))
  }

  lemma BookStart(env: Env)
    ensures Book([], {}, {}, env)
  {
  }

  lemma BookPush(ends: seq<End>, e: End, clean: set<nat>, skipped: set<nat>, env: Env)
    requires Book(ends, clean, skipped, env) && Explained(e, env) && (e.outcome == DeferredTime ==> !Unhurried(env))
    requires e.outcome == Unverifiable || e.outcome == DeferredNoDigest ==>
               !e.work.copy.local && !e.work.copy.digest && e.work.copy.seg !in clean
    requires e.outcome == DeferredNoDigest ==> e.work.copy.seg in skipped
    requires !e.work.copy.local && !e.work.copy.digest && e.outcome.Read? ==> e.work.copy.seg in clean
    ensures var x := e.work.copy.seg;
            Book(ends + [e], if e.work.copy.local && e.outcome == Read(true) then clean + {x} else clean,
                 if e.work.copy.local && e.outcome.Deferred() then skipped + {x} else skipped, env)
  {
    hide Digests;
    hide AllSupported;
    hide AllExplained;
    hide Explained;
    hide Supported;
    hide NoneLate;
    hide Unhurried;
    SupportsEnd(ends, e, clean, skipped);
    SupportedPush(ends, e);
    ExplainedPush(ends, e, env);
    if Unhurried(env) {
      NoneLatePush(ends, e);
    }
    DigestsPush(ends, e, clean, skipped);
  }

  lemma BookSays(ends: seq<End>, clean: set<nat>, skipped: set<nat>, env: Env)
    requires Book(ends, clean, skipped, env)
    ensures AllSupported(ends) && AllExplained(ends, env)
    ensures Unhurried(env) ==> NoneLate(ends) && (NoneOver(ends) ==> NoneDeferred(ends))
  {
    hide Digests;
    hide AllSupported;
    hide AllExplained;
    hide NoneLate;
    hide Unhurried;
    hide NoneOver;
    hide NoneDeferred;
    if Unhurried(env) && NoneOver(ends) {
      NothingWaits(ends);
    }
  }
}
