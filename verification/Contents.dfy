/** The recent share, and the loop that pays for the content queue. */
module Contents {
  import opened Wrappers
  import opened Queues
  import opened Passes
  import opened Ends

  const MAX64: int := 0x7fff_ffff_ffff_ffff
  const DEFAULT_SHARE_PERCENT: nat := 25

  /** `budget` is what the byte budget can pay before the deadline, when there are both. */
  datatype Options = Options(passBytes: int, sharePercent: nat, budget: Option<int>)

  // ---- The recent share ----------------------------------------------------------

  /** C: the lesser of PassBytes and the budget; negative when neither limits the pass. */
  function Capacity(o: Options): int {
    var c := if o.passBytes > 0 then o.passBytes else -1;
    if o.budget.Some? && (c < 0 || o.budget.value < c) then o.budget.value else c
  }

  function Wrap64(x: int): int { (x + MAX64 + 1) % (2 * (MAX64 + 1)) - (MAX64 + 1) }

  /** The percentage of the capacity, with 64-bit wrap-around and truncation towards zero. */
  function Part(c: int, percent: nat): int {
    var p := Wrap64(c * percent);
    if p >= 0 then p / 100 else -(-p / 100)
  }

  function Percent(o: Options): nat { if o.sharePercent == 0 then DEFAULT_SHARE_PERCENT else o.sharePercent }

  /**
   What limits a pass: PassBytes when it is positive, the byte budget when there
   is one, the lesser of both, or nothing. The share is a quarter unless set.
   */
  lemma CapacityIs(o: Options)
    ensures o.passBytes > 0 && o.budget.None? ==> Capacity(o) == o.passBytes
    ensures o.passBytes <= 0 && o.budget.Some? ==> Capacity(o) == o.budget.value
    ensures o.passBytes > 0 && o.budget.Some? ==>
              Capacity(o) <= o.passBytes && Capacity(o) <= o.budget.value
              && (Capacity(o) == o.passBytes || Capacity(o) == o.budget.value)
    ensures o.passBytes <= 0 && o.budget.None? ==> Capacity(o) < 0
    ensures Percent(o) == if o.sharePercent == 0 then 25 else o.sharePercent
  {
  }

  /**
   The percentage is right exactly when the product fits in 64 bits; a larger
   one can turn negative, which reads as no limit.
   */
  lemma PartIffNoOverflow(c: nat, percent: nat)
    ensures Part(c, percent) == c * percent / 100 <==> c * percent <= MAX64
  {
    var x := c * percent;
    assert 0 <= x;
    Wrapped(x);
    if x <= MAX64 {
      assert Wrap64(x) == x;
    } else if Wrap64(x) >= 0 {
      assert Wrap64(x) + 100 <= x;
    }
  }

  lemma Wrapped(x: nat)
    ensures x <= MAX64 ==> Wrap64(x) == x
    ensures x > MAX64 ==> Wrap64(x) <= x - 2 * (MAX64 + 1)
  {
    var y, m := x + MAX64 + 1, 2 * (MAX64 + 1);
    assert y == m * (y / m) + y % m;
    if x > MAX64 {
      assert y / m >= 1;
    }
  }

  /** The share never exceeds the percentage, and is negative exactly when the wrapped product is at most -100. */
  lemma PartSign(c: nat, percent: nat)
    ensures Part(c, percent) <= c * percent / 100
    ensures Part(c, percent) < 0 <==> Wrap64(c * percent) <= -100
  {
    assert 0 <= c * percent;
    Wrapped(c * percent);
  }

  /** A cap of 2^62 bytes at two percent: the product wraps to -2^63, and the share is negative. */
  lemma ShareTurnsNegative()
    ensures var o := Options(0x4000_0000_0000_0000, 2, None);
            Capacity(o) == o.passBytes > 0 && Wrap64(Capacity(o) * Percent(o)) == -MAX64 - 1
                && Part(Capacity(o), Percent(o)) < 0
  {
    PartSign(0x4000_0000_0000_0000, 2);
  }

  function Min(a: int, b: int): int { if a < b then a else b }

  function Max(a: int, b: int): int { if a > b then a else b }

  /**
   min(C x share, max(0, C - F - S)) with F the forced work and S the largest
   other segment that fits in C - F; -1 for no limit.
   */
  method RecentShare(q: seq<Work>, o: Options) returns (share: int, largest: nat)
    ensures Capacity(o) < 0 ==> share == -1
    ensures Capacity(o) >= 0 ==>
              var c, f := Capacity(o), ForcedCost(q);
              IsLargest(q, c - f, largest) && share == Min(Part(c, Percent(o)), Max(0, c - f - largest))
    ensures share < 0 <==> Capacity(o) < 0 || Wrap64(Capacity(o) * Percent(o)) <= -100
  {
    hide Total;
    hide Part;
    hide Wrap64;
    hide SegCost;
    hide ForcedCost;
    largest := 0;
    var c := -1;
    if o.passBytes > 0 {
      c := o.passBytes;
    }
    if o.budget.Some? && (c < 0 || o.budget.value < c) {
      c := o.budget.value;
    }
    if c < 0 {
      return -1, 0;
    }
    var f, cost := Costs(q);
    var s: nat := 0;
    var todo := cost.Keys;
    while todo != {}
      invariant todo <= cost.Keys
      invariant forall x :: x in cost.Keys - todo && SegCost(q, x) <= c - f ==> SegCost(q, x) <= s
      invariant s == 0 || (s <= c - f && exists x :: SegCost(q, x) == s)
      decreases todo
    {
      var x :| x in todo;
      todo := todo - {x};
      if cost[x] <= c - f && cost[x] > s {
        s := cost[x];
      }
    }
    largest := s;
    PartSign(c, Percent(o));
    share := Min(Part(c, Percent(o)), Max(0, c - f - s));
  }

  method Costs(q: seq<Work>) returns (f: nat, cost: map<nat, nat>)
    ensures f == ForcedCost(q)
    ensures forall x :: SegCost(q, x) == if x in cost then cost[x] else 0
  {
    hide Total;
    f, cost := 0, map[];
    NoCost();
    for i := 0 to |q|
      invariant f == ForcedCost(q[..i])
      invariant forall x :: SegCost(q[..i], x) == if x in cost then cost[x] else 0
    {
      var w := q[i];
      assert q[..i+1] == q[..i] + [w];
      TotalPush(q[..i], w, ForcedSize());
      forall x ensures SegCost(q[..i+1], x) == SegCost(q[..i], x) + SegSize(x)(w) {
        TotalPush(q[..i], w, SegSize(x));
      }
      if w.tier == FORCED {
        f := f + w.copy.size;
      } else {
        cost := cost[w.copy.seg := (if w.copy.seg in cost then cost[w.copy.seg] else 0) + w.copy.size];
      }
    }
    assert q[..|q|] == q;
  }

  lemma NoCost()
    ensures ForcedCost([]) == 0 && forall x :: SegCost([], x) == 0
  {
  }

  // ---- The loop ------------------------------------------------------------------

  function RecentWork(): Work -> nat { (w: Work) => if w.tier == RECENT then 1 else 0 }

  /** The turns the rest of the queue can still take: a demoted work takes one more. */
  function Turns(rest: seq<Work>): nat { |rest| + Total(rest, RecentWork()) }

  lemma DemoteTakesATurn(t: Turn)
    requires t.rest != [] && t.rest[0].tier == RECENT && t.rest[0].copy.fallback != RECENT
    ensures Turns(Demote(t).rest) < Turns(t.rest)
  {
    hide Insert;
    var low := Work(t.rest[0].copy, DropTier(t.rest[0].copy));
    TotalInsert(t.rest[1..], low, RecentWork());
    InsertIs(t.rest[1..], low);
    assert |multiset(Insert(t.rest[1..], low))| == |multiset(t.rest[1..])| + 1;
  }

  lemma HeadTakesATurn(rest: seq<Work>)
    requires rest != []
    ensures Turns(rest[1..]) < Turns(rest)
  {
  }

  predicate Fits(size: nat, passBytes: int, total: nat, room: bool) {
    !(passBytes > 0 && total + size > passBytes) && room
  }

  method DeferRest(ends: seq<End>, rest: seq<Work>) returns (r: seq<End>)
    ensures r == ends + OutOfTimeEnds(rest)
  {
    r := ends;
    for k := 0 to |rest|
      invariant r == ends + OutOfTimeEnds(rest[..k])
    {
      assert OutOfTimeEnds(rest[..k+1]) == OutOfTimeEnds(rest[..k]) + [End(rest[k], DeferredTime, 0)];
      r := r + [End(rest[k], DeferredTime, 0)];
    }
    assert rest[..|rest|] == rest;
  }

  lemma {:induction false} LateCostsNothing(ends: seq<End>, rest: seq<Work>)
    ensures Spent(ends + OutOfTimeEnds(rest)) == Spent(ends)
              && SpentRecent(ends + OutOfTimeEnds(rest)) == SpentRecent(ends)
  {
    var l := ends + OutOfTimeEnds(rest);
    if rest == [] {
      assert l == ends;
    } else {
      var n := |rest| - 1;
      LateCostsNothing(ends, rest[..n]);
      assert l[..|l|-1] == ends + OutOfTimeEnds(rest[..n]);
    }
  }

  lemma StarvedEarlier(ends: seq<End>, late: seq<End>, q: seq<Work>, c: Caps)
    requires NotStarved(ends + late, q, c)
    ensures NotStarved(ends, q, c)
  {
    hide Roomy;
    var l := ends + late;
    assert forall k :: 0 <= k < |ends| ==> l[k] == ends[k];
    forall k | 0 <= k < |ends| && IsFirst(ends, k) && Roomy(q, c, ends[k].work.copy.seg)
      ensures NeverOver(ends, ends[k].work.copy.seg)
    {
      assert IsFirst(l, k);
    }
  }

  /** Nothing cancels the pass. */
  ghost predicate Steady(env: Env) {
    (forall n :: env.ctx(n) != Cancelled) && forall n, w :: env.read(n, w).result != Stopped
  }

  /** Without a byte budget a copy is deferred for bytes only when it does not fit behind what was paid before it. */
  ghost predicate OverOnly(ends: seq<End>, passBytes: int, env: Env) {
    NoBudget(env) ==> forall k :: 0 <= k < |ends| && ends[k].outcome == DeferredBudget ==>
      passBytes > 0 && Spent(ends[..k]) + ends[k].work.copy.size > passBytes
  }

  lemma OverOnlyPush(ends: seq<End>, e: End, passBytes: int, env: Env)
    requires OverOnly(ends, passBytes, env)
    requires e.outcome == DeferredBudget ==>
              !NoBudget(env) || (passBytes > 0 && Spent(ends) + e.work.copy.size > passBytes)
    ensures OverOnly(ends + [e], passBytes, env)
  {
    var l := ends + [e];
    assert l[..|ends|] == ends && forall k :: 0 <= k < |ends| ==> l[..k] == ends[..k];
  }

  lemma OverOnlyLate(ends: seq<End>, rest: seq<Work>, passBytes: int, env: Env)
    requires OverOnly(ends, passBytes, env)
    ensures OverOnly(ends + OutOfTimeEnds(rest), passBytes, env)
  {
    var l := ends + OutOfTimeEnds(rest);
    assert forall k :: 0 <= k < |ends| ==> l[..k] == ends[..k] && l[k] == ends[k];
  }

  lemma EnvAt(env: Env, n: nat, w: Work)
    ensures Honest(env) ==> env.read(n, w).paid <= w.copy.size
    ensures NoBudget(env) ==> env.room(n)
    ensures Unhurried(env) ==> env.ctx(n) != Expired && env.read(n, w).result != OutOfTime
    ensures Steady(env) ==> env.ctx(n) != Cancelled && env.read(n, w).result != Stopped
  {
  }

  lemma Demotes(t: Turn, s: Setting, env: Env)
    requires t.rest != [] && t.rest[0].tier == RECENT && Good(t, s, env) && Proper(s.q)
    requires Straight(t, s) && (t.rest[0].copy.seg in t.demoted || s.share >= 0)
    ensures Sorted(t.rest[1..]) && Turns(Demote(t).rest) < Turns(t.rest) && Straight(Demote(t), s)
  {
    hide Turns;
    hide Demote;
    hide Before;
    RestCopies(t, multiset(Copies(s.q)));
    assert t.rest[0] in t.rest;
    DemoteTakesATurn(t);
  }

  /** The works ended, in order. */
  function Works(ends: seq<End>): seq<Work> {
    seq(|ends|, i requires 0 <= i < |ends| => ends[i].work)
  }

  /** One copy: deferred when it does not fit, else parsed or hashed. */
  method Attempt(w: Work, passBytes: int, total: nat, env: Env, n: nat, clean: bool, skipped: bool)
    returns (outcome: Outcome, paid: nat, stopped: bool)
    ensures Honest(env) ==> paid <= w.copy.size
    ensures paid > 0 && passBytes > 0 ==> total + w.copy.size <= passBytes
    ensures outcome == DeferredBudget ==> !NoBudget(env) || (passBytes > 0 && total + w.copy.size > passBytes)
    ensures outcome == DeferredTime ==> !Unhurried(env)
    ensures outcome == Unverifiable || outcome == DeferredNoDigest ==> !w.copy.local && !w.copy.digest && !clean
    ensures outcome == DeferredNoDigest ==> skipped
    ensures !w.copy.local && !w.copy.digest && outcome.Read? ==> clean
    ensures !stopped ==> Explained(End(w, outcome, paid), env)
    ensures stopped ==> !Steady(env)
  {
    hide Honest;
    hide NoBudget;
    hide Unhurried;
    hide Steady;
    EnvAt(env, n, w);
    outcome, paid, stopped := DeferredBudget, 0, false;
    if Fits(w.copy.size, passBytes, total, env.room(n)) {
      if !w.copy.local && !clean && !w.copy.digest {
        outcome := if skipped then DeferredNoDigest else Unverifiable;
      } else {
        var r := env.read(n, w);
        outcome, paid, stopped := OutcomeOf(w, r.result), r.paid, r.result == Stopped;
        assert !stopped ==> ReadAs(End(w, outcome, paid), env, n);
      }
    }
  }

  /** Inserting behind the head, seen from the whole queue. */
  lemma InsertBehind(q: seq<Work>, i: nat, low: Work, at: nat)
    requires i < |q| && at <= |q| - i - 1
    requires q[i+1..][..at] + [low] + q[i+1..][at..] == Insert(q[i+1..], low)
    ensures (q[..i+1+at] + [low] + q[i+1+at..])[i+1..] == Insert(q[i+1..], low)
  {
    hide Insert;
    assert q[..i+1+at] == q[..i+1] + q[i+1..][..at];
    assert q[i+1+at..] == q[i+1..][at..];
  }

  /** A demoted work goes behind everything that does not come later. */
  method PutBack(q: seq<Work>, i: nat, low: Work) returns (r: seq<Work>)
    requires i < |q| && Sorted(q[i+1..])
    ensures i + 1 <= |r| && r[i+1..] == Insert(q[i+1..], low)
  {
    hide Before;
    hide Insert;
    var at := Search(q[i+1..], low);
    InsertAt(q[i+1..], low, at);
    InsertBehind(q, i, low, at);
    r := q[..i+1+at] + [low] + q[i+1+at..];
  }

  /**
   What the loop promises of its ends and of the bytes it paid, all of them and
   those at the recent tier. Every scheduled copy ends once, in queue order; an
   object waits for its own local copy; the bytes stay within the caps without
   starving what comes after the recent tier; a copy is deferred for bytes only
   when it does not fit; without a share nothing is demoted; and only a
   cancellation or a deadline cuts the pass.
   */
  ghost predicate Promises(s: Setting, env: Env, ends: seq<End>, cancelled: bool, total: nat, recent: nat) {
    && multiset(Ended(ends)) <= multiset(Copies(s.q)) && (!cancelled ==> multiset(Ended(ends)) == multiset(Copies(s.q)))
    && InOrder(ends) && ParsedFirst(ends) && AllSupported(ends) && AllExplained(ends, env)
    && Spent(ends) <= total && SpentRecent(ends) <= recent
          && (!cancelled ==> Spent(ends) == total && SpentRecent(ends) == recent)
    && (Honest(env) && s.passBytes > 0 ==> total <= s.passBytes)
    && (Honest(env) && s.share >= 0 ==> recent <= s.share)
    && (Exact(s, env) ==> NotStarved(ends, s.q, s.caps))
    && (s.passBytes <= 0 && NoBudget(env) ==> NoneOver(ends))
    && (s.passBytes <= 0 && NoBudget(env) && Unhurried(env) ==> NoneDeferred(ends))
    && (s.share < 0 ==> Works(ends) <= s.q && (!cancelled ==> Works(ends) == s.q))
    && OverOnly(ends, s.passBytes, env) && (Unhurried(env) ==> NoneLate(ends)) && (Steady(env) ==> !cancelled)
  }

  /** Without a share the ends and the rest are the queue, tier by tier. */
  ghost predicate Straight(t: Turn, s: Setting) {
    s.share < 0 ==> t.demoted == {} && Works(t.ends) + t.rest == s.q
  }

  lemma StraightStart(s: Setting)
    ensures Straight(Start(s.q), s)
  {
    assert Works([]) + s.q == s.q;
  }

  lemma StraightFinish(t: Turn, s: Setting, outcome: Outcome, paid: nat)
    requires t.rest != [] && Straight(t, s)
    ensures Straight(Finish(t, outcome, paid), s)
  {
    var f := Finish(t, outcome, paid);
    assert Works(f.ends) == Works(t.ends) + [t.rest[0]];
    assert Works(t.ends) + [t.rest[0]] + t.rest[1..] == Works(t.ends) + t.rest;
  }

  /** A run whose remaining copies are deferred, or that has none left, keeps the promises. */
  lemma RunsOut(t: Turn, s: Setting, env: Env, clean: set<nat>, skipped: set<nat>)
    requires Good(t, s, env) && Book(t.ends, clean, skipped, env) && Straight(t, s) && (t.rest == [] || !Unhurried(env))
    requires OverOnly(t.ends, s.passBytes, env)
    ensures Promises(s, env, t.ends + OutOfTimeEnds(t.rest), false, t.total, t.recent)
  {
    hide Inv;
    hide First;
    hide Exact;
    hide Capped;
    hide NotStarved;
    hide AllSupported;
    hide AllExplained;
    hide Copies;
    hide Ended;
    hide InOrder;
    hide ParsedFirst;
    hide NoneDeferred;
    hide Unhurried;
    hide Honest;
    hide Book;
    hide OverOnly;
    hide NoneLate;
    hide Steady;
    var ends := t.ends + OutOfTimeEnds(t.rest);
    BookSays(t.ends, clean, skipped, env);
    TimedOut(t, multiset(Copies(s.q)));
    SupportedLate(t.ends, t.rest);
    ExplainedLate(t.ends, t.rest, env);
    LateCostsNothing(t.ends, t.rest);
    OverOnlyLate(t.ends, t.rest, s.passBytes, env);
    if Exact(s, env) {
      AllServed(t, s, env);
    }
    assert t.rest == [] ==> ends == t.ends;
    assert s.share < 0 ==> Works(ends) == Works(t.ends) + t.rest;
  }

  /** So does a run that is cancelled, in a read of its next copy or before it. */
  lemma IsCancelled(t: Turn, s: Setting, env: Env, clean: set<nat>, skipped: set<nat>, more: nat, moreRecent: nat)
    requires Good(t, s, env) && Book(t.ends, clean, skipped, env) && Straight(t, s)
    requires OverOnly(t.ends, s.passBytes, env) && !Steady(env)
    requires Honest(env) && s.passBytes > 0 && more > 0 ==> t.total + more <= s.passBytes
    requires Honest(env) && s.share >= 0 && moreRecent > 0 ==> t.recent + moreRecent <= s.share
    ensures Promises(s, env, t.ends, true, t.total + more, t.recent + moreRecent)
  {
    hide First;
    hide Exact;
    hide Capped;
    hide Coupled;
    hide Before;
    hide NotStarved;
    hide AllSupported;
    hide AllExplained;
    hide NoneDeferred;
    hide Unhurried;
    hide Honest;
    hide Book;
    hide OverOnly;
    hide NoneLate;
    hide Steady;
    BookSays(t.ends, clean, skipped, env);
    if Exact(s, env) {
      AllServed(t, s, env);
      StarvedEarlier(t.ends, OutOfTimeEnds(t.rest), s.q, s.caps);
    }
  }

  /** Pay for a queue. */
  method Pay(s: Setting, env: Env) returns (ends: seq<End>, cancelled: bool, total: nat, recent: nat)
    requires Sorted(s.q) && Proper(s.q)
    ensures Promises(s, env, ends, cancelled, total, recent)
  {
    hide Promises;
    hide Straight;
    hide Book;
    hide Explained;
    hide Good;
    hide Proper;
    hide Turns;
    hide Insert;
    hide Before;
    hide Honest;
    hide NoBudget;
    hide Unhurried;
    hide OutOfTimeEnds;
    hide OverOnly;
    hide Steady;
    var q, i, n := s.q, 0, 0;
    var demoted, clean, skipped := {}, {}, {};
    ends, cancelled, total, recent := [], false, 0, 0;
    ghost var t := Start(s.q);
    GoodStart(s, env);
    BookStart(env);
    StraightStart(s);
    OverOnlyStart(s.passBytes, env);
    while i < |q|
      invariant 0 <= i <= |q| && !cancelled
      invariant t.rest == q[i..] && t.demoted == demoted && t.recent == recent && t.total == total && t.ends == ends
      invariant Good(t, s, env) && Book(ends, clean, skipped, env) && Straight(t, s) && OverOnly(ends, s.passBytes, env)
      decreases Turns(q[i..])
    {
      var w := q[i];
      EnvAt(env, n, w);
      var ctx := env.ctx(n);
      if ctx == Cancelled {
        IsCancelled(t, s, env, clean, skipped, 0, 0);
        return ends, true, total, recent;
      }
      if ctx == Expired {
        RunsOut(t, s, env, clean, skipped);
        ends := DeferRest(ends, q[i..]);
        return;
      }
      var size := w.copy.size;
      if w.tier == RECENT && (w.copy.seg in demoted || (s.share >= 0 && recent + size > s.share)) {
        GoodDemote(t, s, env);
        Demotes(t, s, env);
        demoted := demoted + {w.copy.seg};
        q := PutBack(q, i, Work(w.copy, DropTier(w.copy)));
        t := Demote(t);
        i, n := i + 1, n + 1;
      } else {
        var outcome, paid, stopped := Attempt(w, s.passBytes, total, env, n, w.copy.seg in clean,
            w.copy.seg in skipped);
        if stopped {
          IsCancelled(t, s, env, clean, skipped, paid, if w.tier == RECENT then paid else 0);
          return ends, true, total + paid, recent + if w.tier == RECENT then paid else 0;
        }
        Finishes(t, s, env, outcome, paid);
        var e := End(w, outcome, paid);
        BookPush(ends, e, clean, skipped, env);
        SpentIsTotal(t, s, env);
        OverOnlyPush(ends, e, s.passBytes, env);
        if w.copy.local && outcome == Read(true) {
          clean := clean + {w.copy.seg};
        }
        if w.copy.local && outcome.Deferred() {
          skipped := skipped + {w.copy.seg};
        }
        ends, total := ends + [e], total + paid;
        if w.tier == RECENT {
          recent := recent + paid;
        }
        t := Finish(t, outcome, paid);
        i, n := i + 1, n + 1;
      }
    }
    RunsOut(t, s, env, clean, skipped);
    assert OutOfTimeEnds(t.rest) == [] by { NoRest(); }
    assert ends + [] == ends;
  }

  lemma Finishes(t: Turn, s: Setting, env: Env, outcome: Outcome, paid: nat)
    requires t.rest != [] && Good(t, s, env) && Proper(s.q) && Straight(t, s) && Turned(t, s, env, outcome, paid)
    ensures Good(Finish(t, outcome, paid), s, env) && Straight(Finish(t, outcome, paid), s)
              && Turns(t.rest[1..]) < Turns(t.rest)
  {
    hide Good;
    hide Straight;
    hide Turned;
    hide Finish;
    hide Proper;
    GoodFinish(t, s, env, outcome, paid);
    StraightFinish(t, s, outcome, paid);
    HeadTakesATurn(t.rest);
  }

  lemma OverOnlyStart(passBytes: int, env: Env)
    ensures OverOnly([], passBytes, env)
  {
  }

  lemma SpentIsTotal(t: Turn, s: Setting, env: Env)
    requires Good(t, s, env)
    ensures t.total == Spent(t.ends)
  {
  }

  lemma NoRest()
    ensures OutOfTimeEnds([]) == []
  {
  }

  // ---- What a negative share costs -------------------------------------------------

  /** Every read reaches the end of its copy, finds nothing wrong and pays for all of it. */
  function PlainEnv(): Env {
    Env(n => Live, n => true, (n, w: Work) => Reading(Got(true), w.copy.size))
  }

  /** What a lone recent copy costs when nothing limits its tier. */
  lemma LoneCopyIsPaid(w: Work, passBytes: int, ends: seq<End>)
    requires w.tier == RECENT && w.copy.local && w.copy.size <= passBytes
    requires Works(ends) == [w] && AllExplained(ends, PlainEnv()) && AllSupported(ends)
    requires OverOnly(ends, passBytes, PlainEnv()) && NoneLate(ends)
    ensures SpentRecent(ends) == w.copy.size
  {
    assert |ends| == |Works(ends)|;
    var e := ends[0];
    assert e.work == Works(ends)[0] && e in ends && Explained(e, PlainEnv()) && Supported(ends, 0);
    assert ends[..0] == [];
    assert NoBudget(PlainEnv());
    assert e.outcome != DeferredBudget;
    if e.outcome.Read? || e.outcome == Errored || e.outcome == Missing {
      var n: nat :| ReadAs(e, PlainEnv(), n);
    }
  }

  lemma LoneCost(w: Work)
    requires w.tier == RECENT
    ensures ForcedCost([w]) == 0 && forall x :: SegCost([w], x) == if x == w.copy.seg then w.copy.size else 0
  {
    assert [w] == [] + [w];
    NoCost();
    TotalPush([], w, ForcedSize());
    forall x ensures SegCost([w], x) == if x == w.copy.seg then w.copy.size else 0 { TotalPush([], w, SegSize(x)); }
  }

  /**
   With a share that wrapped to a negative number a pass over one recent copy
   pays for all of it, and so more than the recent bound whenever the copy is
   larger than the room the bound leaves.
   */
  method RecentBoundIsLost(w: Work, o: Options) returns (ends: seq<End>, largest: nat)
    requires o.passBytes > 0 && o.budget.None? && Wrap64(o.passBytes * Percent(o)) <= -100
    requires Proper([w]) && w.tier == RECENT && w.copy.local && 0 < w.copy.size <= o.passBytes < 2 * w.copy.size
    ensures Works(ends) == [w] && IsLargest([w], o.passBytes - ForcedCost([w]), largest)
    ensures SpentRecent(ends) == w.copy.size > Min(o.passBytes * Percent(o) / 100,
              Max(0, o.passBytes - ForcedCost([w]) - largest))
  {
    hide Wrap64;
    hide SegCost;
    hide ForcedCost;
    var share, cancelled, total, recent;
    LoneCost(w);
    share, largest := RecentShare([w], o);
    assert SegCost([w], w.copy.seg) == w.copy.size;
    ends, cancelled, total, recent := Pay(Setting([w], o.passBytes, share, Caps(0, 0, 0, 0)), PlainEnv());
    PlainEnvIs();
    LoneCopyIsPaid(w, o.passBytes, ends);
  }

  lemma PlainEnvIs()
    ensures Unhurried(PlainEnv()) && Steady(PlainEnv())
  {
  }
}
