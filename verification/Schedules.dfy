/**
 Which segments a verifier pass reads by content: the tiers, the rotation, the
 queue, and the pass over it. Times are nanoseconds since 1970; the clock of a
 pass is not before that.
 */
module Schedules {
  import opened Wrappers
  import opened Queues
  import opened Passes
  import opened Ends
  import opened Contents

  const SECOND: nat := 1_000_000_000
  const HOUR: nat := 3_600_000_000_000
  const ZERO_TIME: int := -62_135_596_800_000_000_000
  const DEFAULT_PERIOD: nat := 24 * HOUR
  const DEFAULT_RECENT: nat := 24 * HOUR
  const CLOCK_SKEW_TOLERANCE: nat := HOUR
  const DEFAULT_ROTATION: nat := 20

  /**
   A sealed row as the pass sees it. `forced` and `named` say what open findings
   do to it, `held` that a forced segment was already read in this period;
   `parse` and `hash` say which copies may be read.
   */
  datatype Seg = Seg(name: string, sealedAt: int, uploadedAt: int, uploaded: bool, last: int, size: nat, objSize: nat,
                     parse: bool, hash: bool, digest: bool, forced: bool, held: bool, named: bool)

  datatype Clock = Clock(now: nat, period: int, rotation: int, recent: int)

  /** The slot hash of a name. */
  type Hash = string -> nat

  // ---- Rotation ------------------------------------------------------------------

  function RotationLength(rotation: int): nat {
    if rotation == 0 then DEFAULT_ROTATION else if rotation < 0 then 0 else rotation
  }

  function PeriodOf(period: int): nat { if period < SECOND then DEFAULT_PERIOD else period }

  function PeriodSeconds(period: int): (s: nat)
    ensures s > 0
  {
    PeriodOf(period) / SECOND
  }

  /** The number of the rotation period a time is in. */
  function PeriodAt(c: Clock): nat { c.now / SECOND / PeriodSeconds(c.period) }

  predicate SlotIn(hash: Hash, name: string, n: nat, period: nat) {
    n != 0 && hash(name) % n == period % n
  }

  predicate InRotation(hash: Hash, name: string, c: Clock) {
    SlotIn(hash, name, RotationLength(c.rotation), PeriodAt(c))
  }

  function SlotStart(c: Clock): nat { PeriodAt(c) * PeriodSeconds(c.period) * SECOND }

  lemma ModIs(x: int, n: int, q: int, r: int)
    requires 0 <= r < n && x == n * q + r
    ensures x % n == r
  {
    var d := q - x / n;
    assert n * d == x % n - r;
    assert d >= 1 ==> n * d >= n;
    assert d <= -1 ==> n * d <= -n;
  }

  lemma OnlyOneResidue(a: nat, b: nat, n: nat)
    requires a < b < a + n
    ensures a % n != b % n
  {
    var q, r := a / n, a % n + (b - a);
    assert a == n * q + a % n;
    if r < n {
      ModIs(b, n, q, r);
    } else {
      assert n * (q + 1) == n * q + n;
      ModIs(b, n, q + 1, r - n);
    }
  }

  /** Each name has its slot in exactly one of any n consecutive periods. */
  lemma ExactlyOneSlot(hash: Hash, name: string, n: nat, k: nat) returns (p: nat)
    requires n > 0
    ensures k <= p < k + n && SlotIn(hash, name, n, p)
    ensures forall r: nat :: k <= r < k + n && SlotIn(hash, name, n, r) ==> r == p
  {
    var h := hash(name) % n;
    p := k + (h + n - k % n) % n;
    ResidueReached(h, n, k);
    forall r: nat | k <= r < k + n && r != p ensures !SlotIn(hash, name, n, r) {
      if r < p {
        OnlyOneResidue(r, p, n);
      } else {
        OnlyOneResidue(p, r, n);
      }
    }
  }

  lemma ResidueReached(h: nat, n: nat, k: nat)
    requires h < n
    ensures (k + (h + n - k % n) % n) % n == h
  {
    var m := k % n;
    assert k == n * (k / n) + m;
    if h >= m {
      assert (h + n - m) % n == h - m by { ModIs(h + n - m, n, 1, h - m); }
      ModIs(k + (h - m), n, k / n, h);
    } else {
      assert (h + n - m) % n == h + n - m by { ModIs(h + n - m, n, 0, h + n - m); }
      ModIs(k + (h + n - m), n, k / n + 1, h);
    }
  }

  // ---- Tiers ---------------------------------------------------------------------

  /** sealed_at or uploaded_at, whichever is later and not in the future. */
  function LastChange(s: Seg, c: Clock): int {
    var sealed := if s.sealedAt <= c.now then s.sealedAt else ZERO_TIME;
    if s.uploadedAt <= c.now && s.uploadedAt > sealed then s.uploadedAt else sealed
  }

  predicate Stale(s: Seg, c: Clock) { s.last == ZERO_TIME || s.last < LastChange(s, c) }

  predicate RecentUpload(at: int, c: Clock) {
    && at != ZERO_TIME && at - c.now <= CLOCK_SKEW_TOLERANCE
    && c.now - at <= if c.recent <= 0 then DEFAULT_RECENT else c.recent
  }

  predicate Fresh(s: Seg, c: Clock) { Stale(s, c) && (!s.uploaded || RecentUpload(s.uploadedAt, c)) }

  function OrderOf(s: Seg, c: Clock): int { if Stale(s, c) then ZERO_TIME else s.last }

  function Fallback(hash: Hash, s: Seg, c: Clock): nat {
    var n, order := RotationLength(c.rotation), OrderOf(s, c);
    if InRotation(hash, s.name, c) && order < SlotStart(c) then SLOT
    else if s.named then UNSCHEDULED
    else if n > 0 && (order == ZERO_TIME || c.now - order >= n * PeriodOf(c.period)) then OVERDUE
    else UNSCHEDULED
  }

  function TierOf(hash: Hash, s: Seg, c: Clock): nat {
    if s.forced then if s.held then UNSCHEDULED else FORCED
    else if s.named then Fallback(hash, s, c)
    else if Fresh(s, c) then RECENT
    else if Fallback(hash, s, c) != UNSCHEDULED || !Stale(s, c) then Fallback(hash, s, c)
    else TAIL
  }

  // ---- The tiers, by the times and flags of the row ------------------------------

  /** Verified, and not before a change that has happened: no time of the row after it is past. */
  ghost predicate Verified(s: Seg, c: Clock) {
    && s.last != ZERO_TIME
    && (s.sealedAt <= c.now ==> s.sealedAt <= s.last)
    && (s.uploadedAt <= c.now ==> s.uploadedAt <= s.last)
    && (c.now < s.sealedAt ==> ZERO_TIME <= s.last)
  }

  /** Uploaded at a known time, at most an hour from now and at most the recent window, by default a day, ago. */
  ghost predicate JustUploaded(s: Seg, c: Clock) {
    && s.uploadedAt != ZERO_TIME && s.uploadedAt <= c.now + 3_600_000_000_000
    && c.now <= s.uploadedAt + if c.recent > 0 then c.recent else 86_400_000_000_000
  }

  /** A period is a day unless it is given and at least a second. */
  ghost function PeriodNanos(c: Clock): int { if c.period >= 1_000_000_000 then c.period else 86_400_000_000_000 }

  /** The whole seconds of it. */
  ghost function PeriodLength(c: Clock): int { PeriodNanos(c) / 1_000_000_000 }

  /** The periods of a rotation: 20 when not set, none when negative. */
  ghost function Periods(c: Clock): int { if c.rotation == 0 then 20 else if c.rotation < 0 then 0 else c.rotation }

  /** The start of the period that holds the clock: a whole number of periods, no more than one period ago. */
  ghost predicate StartsPeriod(c: Clock, start: int, number: int) {
    && start == number * PeriodLength(c) * 1_000_000_000
    && start <= c.now && c.now / 1_000_000_000 < (number + 1) * PeriodLength(c)
  }

  lemma SlotStartStarts(c: Clock)
    ensures StartsPeriod(c, SlotStart(c), PeriodAt(c))
  {
    var sec, p := c.now / SECOND, PeriodSeconds(c.period);
    assert sec == p * (sec / p) + sec % p;
    assert PeriodAt(c) == sec / p && p == PeriodLength(c);
    assert PeriodAt(c) * p <= sec < (PeriodAt(c) + 1) * p;
  }

  /** The name's slot is the period that holds the clock. */
  ghost predicate SlotNow(hash: Hash, s: Seg, c: Clock) {
    Periods(c) > 0 && hash(s.name) % Periods(c) == PeriodAt(c) % Periods(c)
  }

  /** The slot of the name is now, and the segment was not verified since that began. */
  ghost predicate DueInSlot(hash: Hash, s: Seg, c: Clock) {
    SlotNow(hash, s, c) && !(Verified(s, c) && SlotStart(c) <= s.last)
  }

  /** Not verified since its last change, and not uploaded yet or just uploaded. */
  ghost predicate DueRecent(s: Seg, c: Clock) { !Verified(s, c) && (!s.uploaded || JustUploaded(s, c)) }

  /** The rotation is on and the segment was not verified since its last change, or a whole rotation ago. */
  ghost predicate DueOverdue(s: Seg, c: Clock) {
    Periods(c) > 0 && (!Verified(s, c) || c.now - s.last >= Periods(c) * PeriodNanos(c))
  }

  lemma StaleIff(s: Seg, c: Clock)
    ensures Stale(s, c) <==> !Verified(s, c)
    ensures OrderOf(s, c) == if Verified(s, c) then s.last else ZERO_TIME
  {
  }

  /**
   The tier of every segment. A segment an open finding forces is read first,
   unless this period read it already; one that a finding only names is read in
   its slot; every other one as recent, in its slot, when overdue, or, with the
   rotation off, last.
   */
  lemma TierIs(hash: Hash, s: Seg, c: Clock)
    ensures TierOf(hash, s, c) == FORCED <==> s.forced && !s.held
    ensures s.forced ==> (TierOf(hash, s, c) == UNSCHEDULED <==> s.held)
    ensures !s.forced && s.named ==>
              TierOf(hash, s, c) == if DueInSlot(hash, s, c) then SLOT else UNSCHEDULED
    ensures TierOf(hash, s, c) == RECENT <==> !s.forced && !s.named && DueRecent(s, c)
    ensures TierOf(hash, s, c) == SLOT <==>
              !s.forced && (s.named || !DueRecent(s, c)) && DueInSlot(hash, s, c)
    ensures TierOf(hash, s, c) == OVERDUE <==>
              !s.forced && !s.named && !DueRecent(s, c) && !DueInSlot(hash, s, c) && DueOverdue(s, c)
    ensures TierOf(hash, s, c) == TAIL <==>
              && !s.forced && !s.named && !Verified(s, c)
              && !DueRecent(s, c) && !DueInSlot(hash, s, c) && !DueOverdue(s, c)
  {
    hide SlotStart;
    hide PeriodAt;
    hide LastChange;
    StaleIff(s, c);
  }

  /** Where demoted recent work goes. */
  lemma FallbackIs(hash: Hash, s: Seg, c: Clock)
    ensures Fallback(hash, s, c) ==
              if DueInSlot(hash, s, c) then SLOT
              else if !s.named && DueOverdue(s, c) then OVERDUE else UNSCHEDULED
  {
    hide SlotStart;
    hide PeriodAt;
    hide LastChange;
    StaleIff(s, c);
  }

  /** In its slot period a segment no finding names is scheduled, unless it was verified since the period began. */
  lemma DrawnInItsSlot(hash: Hash, s: Seg, c: Clock)
    requires !s.forced && !s.named && InRotation(hash, s.name, c)
    ensures TierOf(hash, s, c) != UNSCHEDULED || (s.last >= SlotStart(c) && s.last >= LastChange(s, c))
  {
    hide SlotStart;
    hide InRotation;
  }

  /** A segment that changed since it was verified, or never was, is never left out of a pass. */
  lemma StaleIsScheduled(hash: Hash, s: Seg, c: Clock)
    requires !s.forced && !s.named && Stale(s, c)
    ensures TierOf(hash, s, c) != UNSCHEDULED
  {
    hide SlotStart;
    hide InRotation;
  }

  /**
   With the rotation on, a segment no finding names is left out of a pass exactly
   when it was verified since its last change, less than a whole rotation ago,
   and, in its slot period, since that period began.
   */
  lemma LeftOutIff(hash: Hash, s: Seg, c: Clock)
    requires !s.forced && !s.named && RotationLength(c.rotation) > 0
    ensures TierOf(hash, s, c) == UNSCHEDULED <==>
              && s.last != ZERO_TIME && LastChange(s, c) <= s.last
              && c.now - s.last < RotationLength(c.rotation) * PeriodOf(c.period)
              && (InRotation(hash, s.name, c) ==> SlotStart(c) <= s.last)
  {
    hide SlotStart;
    hide InRotation;
    hide LastChange;
  }

  /** A segment verified now is not stale now, even when a time of its row is in the future. */
  lemma VerifiedIsNotStale(s: Seg, c: Clock)
    ensures !Stale(s.(last := c.now), c)
  {
  }

  // ---- The queue -----------------------------------------------------------------

  function CopyOf(hash: Hash, c: Clock, s: Seg, i: nat, local: bool): Copy {
    Copy(i, local, if local then s.size else s.objSize, OrderOf(s, c), s.name, Fallback(hash, s, c), s.digest)
  }

  function WorkOf(hash: Hash, c: Clock, s: Seg, i: nat): seq<Work> {
    var tier := TierOf(hash, s, c);
    if tier == UNSCHEDULED then []
    else
      (if s.parse then [Work(CopyOf(hash, c, s, i, true), tier)] else [])
      + (if s.hash then [Work(CopyOf(hash, c, s, i, false), tier)] else [])
  }

  /** The copies a pass schedules, segment by segment. */
  function Scheduled(hash: Hash, c: Clock, segs: seq<Seg>): seq<Work> {
    if segs == [] then [] else Scheduled(hash, c, segs[..|segs|-1]) + WorkOf(hash, c, segs[|segs|-1], |segs| - 1)
  }

  /** Where a scheduled work comes from. */
  ghost predicate From(hash: Hash, c: Clock, segs: seq<Seg>, w: Work) {
    && w.copy.seg < |segs| && w.copy == CopyOf(hash, c, segs[w.copy.seg], w.copy.seg, w.copy.local)
    && w.tier == TierOf(hash, segs[w.copy.seg], c) != UNSCHEDULED
    && if w.copy.local then segs[w.copy.seg].parse else segs[w.copy.seg].hash
  }

  lemma {:induction false} ScheduledIs(hash: Hash, c: Clock, segs: seq<Seg>)
    ensures forall w :: w in Scheduled(hash, c, segs) <==> From(hash, c, segs, w)
  {
    hide TierOf;
    hide CopyOf;
    if segs == [] {
    } else {
      var n := |segs| - 1;
      ScheduledIs(hash, c, segs[..n]);
      forall w ensures w in Scheduled(hash, c, segs) <==> From(hash, c, segs, w) {
        CopyKeepsSeg(hash, c, segs[n], n);
        assert From(hash, c, segs, w) && w.copy.seg < n ==> From(hash, c, segs[..n], w);
      }
    }
  }

  /** The copies of a segment that a pass schedules, field by field. */
  ghost predicate Lists(hash: Hash, c: Clock, segs: seq<Seg>, w: Work) {
    w.copy.seg < |segs| &&
    var s, x := segs[w.copy.seg], w.copy;
    && (if x.local then s.parse && x.size == s.size else s.hash && x.size == s.objSize)
    && x.name == s.name && x.digest == s.digest
    && x.order == (if Verified(s, c) then s.last else ZERO_TIME)
    && x.fallback == (if DueInSlot(hash, s, c) then SLOT
                      else if !s.named && DueOverdue(s, c) then OVERDUE else UNSCHEDULED)
    && w.tier == TierOf(hash, s, c) && w.tier != UNSCHEDULED
  }

  lemma ScheduledLists(hash: Hash, c: Clock, segs: seq<Seg>)
    ensures forall w :: w in Scheduled(hash, c, segs) <==> Lists(hash, c, segs, w)
  {
    hide TierOf;
    hide Fallback;
    hide OrderOf;
    hide Scheduled;
    hide Verified;
    hide DueInSlot;
    hide DueOverdue;
    ScheduledIs(hash, c, segs);
    forall w ensures From(hash, c, segs, w) <==> Lists(hash, c, segs, w) {
      if w.copy.seg < |segs| {
        StaleIff(segs[w.copy.seg], c);
        FallbackIs(hash, segs[w.copy.seg], c);
      }
    }
  }

  /** Within a tier, segments not verified since their last change come first, and of the others the longest ago. */
  lemma OldestFirst(hash: Hash, c: Clock, segs: seq<Seg>, q: seq<Work>, i: nat, j: nat)
    requires Sorted(q) && multiset(q) == multiset(Scheduled(hash, c, segs)) && i < j < |q| && q[i].tier == q[j].tier
    requires forall s :: s in segs ==> ZERO_TIME <= s.last
    ensures q[i].copy.seg < |segs| && q[j].copy.seg < |segs|
    ensures var a, b := segs[q[i].copy.seg], segs[q[j].copy.seg];
            Verified(a, c) ==> Verified(b, c) && a.last <= b.last
  {
    hide TierOf;
    hide Scheduled;
    hide DueInSlot;
    hide DueOverdue;
    ScheduledLists(hash, c, segs);
    assert q[i] in multiset(q) && q[j] in multiset(q);
    assert q[i] in Scheduled(hash, c, segs) && q[j] in Scheduled(hash, c, segs);
    assert Lists(hash, c, segs, q[i]) && Lists(hash, c, segs, q[j]);
    assert segs[q[i].copy.seg] in segs && segs[q[j].copy.seg] in segs;
    SortedPays(q, i, j);
  }

  lemma CopyKeepsSeg(hash: Hash, c: Clock, s: Seg, i: nat)
    ensures forall local :: CopyOf(hash, c, s, i, local).seg == i && CopyOf(hash, c, s, i, local).local == local
  {
  }

  lemma FallbackTier(hash: Hash, s: Seg, c: Clock)
    ensures Fallback(hash, s, c) == SLOT || Fallback(hash, s, c) == OVERDUE || Fallback(hash, s, c) == UNSCHEDULED
  {
  }

  lemma {:induction false} ScheduledOnce(hash: Hash, c: Clock, segs: seq<Seg>, x: Copy)
    ensures multiset(Copies(Scheduled(hash, c, segs)))[x] <= 1
    ensures x.seg >= |segs| ==> multiset(Copies(Scheduled(hash, c, segs)))[x] == 0
  {
    hide TierOf;
    hide OrderOf;
    hide Fallback;
    if segs == [] {
    } else {
      var n := |segs| - 1;
      ScheduledOnce(hash, c, segs[..n], x);
      var a, b := Scheduled(hash, c, segs[..n]), WorkOf(hash, c, segs[n], n);
      assert Copies(a + b) == Copies(a) + Copies(b);
      OneOfEach(hash, c, segs[n], n, x);
    }
  }

  lemma OneOfEach(hash: Hash, c: Clock, s: Seg, i: nat, x: Copy)
    ensures multiset(Copies(WorkOf(hash, c, s, i)))[x] <= if x.seg == i then 1 else 0
  {
    hide TierOf;
    hide OrderOf;
    hide Fallback;
    var l, o := CopyOf(hash, c, s, i, true), CopyOf(hash, c, s, i, false);
    var copies := Copies(WorkOf(hash, c, s, i));
    assert copies == [] || copies == [l] || copies == [o] || copies == [l, o];
  }

  lemma CopyFrom(q: seq<Work>, x: Copy) returns (w: Work)
    requires x in multiset(Copies(q))
    ensures w in q && w.copy == x
  {
    var i :| 0 <= i < |q| && Copies(q)[i] == x;
    w := q[i];
  }

  lemma ScheduledIsProper(hash: Hash, c: Clock, segs: seq<Seg>)
    ensures Proper(Scheduled(hash, c, segs))
    ensures (forall i, j :: 0 <= i < |segs| && 0 <= j < |segs| && segs[i].name == segs[j].name ==> i == j) ==>
              NamesDiffer(multiset(Copies(Scheduled(hash, c, segs))))
  {
    hide TierOf;
    hide OrderOf;
    hide Fallback;
    hide Scheduled;
    hide Copies;
    var q := Scheduled(hash, c, segs);
    ScheduledIs(hash, c, segs);
    forall x | x in multiset(Copies(q))
      ensures multiset(Copies(q))[x] == 1 && (x.fallback == SLOT || x.fallback == OVERDUE || x.fallback == UNSCHEDULED)
    {
      ScheduledOnce(hash, c, segs, x);
      var w := CopyFrom(q, x);
      FallbackTier(hash, segs[x.seg], c);
    }
    forall a, b | a in multiset(Copies(q)) && b in multiset(Copies(q))
      ensures a.seg < |segs| && b.seg < |segs|
      ensures a == CopyOf(hash, c, segs[a.seg], a.seg, a.local) && b == CopyOf(hash, c, segs[b.seg], b.seg, b.local)
    {
      var v := CopyFrom(q, a);
      var w := CopyFrom(q, b);
    }
  }

  lemma {:induction false} SortKeepsCopies(q: seq<Work>)
    ensures multiset(Copies(StableSort(q))) == multiset(Copies(q))
  {
    hide Insert;
    if q == [] {
    } else {
      var n := |q| - 1;
      SortKeepsCopies(q[..n]);
      InsertCopies(StableSort(q[..n]), q[n]);
      assert Copies(q) == Copies(q[..n]) + [q[n].copy];
    }
  }

  /** The content work of a pass, in the order it is paid for. */
  method Queue(hash: Hash, c: Clock, segs: seq<Seg>) returns (q: seq<Work>)
    ensures Sorted(q) && Proper(q)
    ensures multiset(q) == multiset(Scheduled(hash, c, segs))
              && multiset(Copies(q)) == multiset(Copies(Scheduled(hash, c, segs)))
  {
    hide TierOf;
    hide CopyOf;
    hide Before;
    q := [];
    for i := 0 to |segs|
      invariant q == Scheduled(hash, c, segs[..i])
    {
      assert segs[..i+1][..i] == segs[..i];
      var s := segs[i];
      var tier := TierOf(hash, s, c);
      if tier != UNSCHEDULED {
        if s.parse {
          q := q + [Work(CopyOf(hash, c, s, i, true), tier)];
        }
        if s.hash {
          q := q + [Work(CopyOf(hash, c, s, i, false), tier)];
        }
      }
    }
    assert segs[..|segs|] == segs;
    ghost var all := q;
    StableSortSorts(q);
    SortKeepsCopies(q);
    ScheduledIsProper(hash, c, segs);
    q := StableSort(q);
    SortedIsProper(all, q);
  }

  lemma SortedIsProper(all: seq<Work>, q: seq<Work>)
    requires Proper(all) && multiset(q) == multiset(all) && multiset(Copies(q)) == multiset(Copies(all))
    ensures Proper(q)
  {
    hide Consistent;
    hide Copies;
    assert forall w :: w in q <==> w in multiset(q);
    assert forall w :: w in all <==> w in multiset(all);
  }

  // ---- A content pass ------------------------------------------------------------

  ghost predicate NamesAreUnique(segs: seq<Seg>) {
    forall i, j :: 0 <= i < |segs| && 0 <= j < |segs| && segs[i].name == segs[j].name ==> i == j
  }

  /** PassBytes is the only cap, and reads are no longer than listed. */
  ghost predicate OnlyPassBytes(o: Options, env: Env) {
    o.passBytes > 0 && o.budget.None? && Honest(env) && NoBudget(env)
  }

  /** The product behind the recent share does not wrap to a number that makes the share negative. */
  predicate ShareHolds(o: Options) { Wrap64(o.passBytes * Percent(o)) > -100 }

  /** Nothing limits the pass. */
  ghost predicate Uncapped(o: Options, env: Env) {
    o.passBytes <= 0 && NoBudget(env) && Unhurried(env)
  }

  /** What an uncapped pass that was not cancelled leaves. */
  ghost predicate Ran(hash: Hash, c: Clock, segs: seq<Seg>, env: Env, ends: seq<End>) {
    && multiset(Ended(ends)) == multiset(Copies(Scheduled(hash, c, segs)))
    && ParsedFirst(ends) && AllSupported(ends) && AllExplained(ends, env) && NoneDeferred(ends)
  }

  /**
   A content pass. `q` is its queue and `largest` the largest unforced segment
   that fits beside the forced work.
   */
  method Content(hash: Hash, c: Clock, segs: seq<Seg>, o: Options, env: Env)
    returns (ends: seq<End>, cancelled: bool, q: seq<Work>, largest: nat)
    ensures Sorted(q) && multiset(q) == multiset(Scheduled(hash, c, segs))
    ensures !cancelled ==> multiset(Ended(ends)) == multiset(Copies(q))
    ensures multiset(Ended(ends)) <= multiset(Copies(q))
    ensures InOrder(ends) && ParsedFirst(ends) && AllSupported(ends) && AllExplained(ends, env)
    ensures Honest(env) && o.passBytes > 0 ==> Spent(ends) <= o.passBytes
    ensures OnlyPassBytes(o, env) ==> IsLargest(q, o.passBytes - ForcedCost(q), largest)
    ensures OnlyPassBytes(o, env) && ShareHolds(o) ==>
              SpentRecent(ends) <= Min(o.passBytes * Percent(o) / 100, Max(0, o.passBytes - ForcedCost(q) - largest))
    ensures OnlyPassBytes(o, env) && ShareHolds(o) && NamesAreUnique(segs) ==>
              NotStarved(ends, q, Caps(o.passBytes, ForcedCost(q), largest, 0))
    ensures o.passBytes > 0 && o.budget.None? && !ShareHolds(o) ==>
              Works(ends) <= q && (!cancelled ==> Works(ends) == q)
    ensures Uncapped(o, env) ==> NoneDeferred(ends)
    ensures Uncapped(o, env) && !cancelled ==> Ran(hash, c, segs, env, ends)
  {
    hide Sorted;
    hide Proper;
    hide NamesDiffer;
    hide Scheduled;
    hide Copies;
    hide Ended;
    hide InOrder;
    hide ParsedFirst;
    hide AllSupported;
    hide AllExplained;
    hide Works;
    hide Wrap64;
    hide NotStarved;
    hide NoneDeferred;
    hide ForcedCost;
    hide IsLargest;
    hide Honest;
    hide NoBudget;
    hide Unhurried;
    hide Part;
    q := Queue(hash, c, segs);
    ScheduledIsProper(hash, c, segs);
    var share;
    share, largest := RecentShare(q, o);
    if o.passBytes > 0 {
      PartSign(o.passBytes, Percent(o));
    }
    var caps := Caps(if o.passBytes > 0 then o.passBytes else 0, ForcedCost(q), largest, share);
    var total, recent;
    ends, cancelled, total, recent := Pay(Setting(q, o.passBytes, share, caps), env);
    if o.passBytes > 0 {
      SameRoom(ends, q, caps, Caps(o.passBytes, ForcedCost(q), largest, 0));
    }
  }

  lemma SameRoom(ends: seq<End>, q: seq<Work>, a: Caps, b: Caps)
    requires a.cap == b.cap && a.forced == b.forced
    ensures NotStarved(ends, q, a) ==> NotStarved(ends, q, b)
  {
    hide SegCost;
  }

  // ---- A rotation of passes ------------------------------------------------------

  /**
   One pass over a segment: its clock, the rows it saw, where the segment is
   among them, its environment and its ends.
   */
  datatype View = View(clock: Clock, segs: seq<Seg>, at: nat, env: Env, ends: seq<End>)

  /** An uncapped pass in a period, over a segment with a readable copy that no finding names. */
  ghost predicate FullPass(hash: Hash, v: View, name: string, period: int, rotation: int, p: nat) {
    && PeriodAt(v.clock) == p && v.clock.period == period && v.clock.rotation == rotation
    && v.at < |v.segs| && v.segs[v.at].name == name && !v.segs[v.at].forced && !v.segs[v.at].named
    && Readable(v.segs[v.at]) && Ran(hash, v.clock, v.segs, v.env, v.ends)
  }

  /** Some copy may be read, and an object only when there is something to compare it with. */
  predicate Readable(s: Seg) { (s.parse || s.hash) && (s.hash ==> s.digest || s.parse) }

  /** The end is that of the segment's copy, and it was read to its end by content. */
  ghost predicate ReadCopy(v: View, local: bool) {
    exists e :: e in v.ends && e.work.copy.seg == v.at && e.work.copy.local == local && e.outcome.Read?
  }

  /** The pass read the segment's copy in one of its turns, and that read failed. */
  ghost predicate FailedCopy(v: View, local: bool) {
    exists e, n: nat :: e in v.ends && e.work.copy.seg == v.at && e.work.copy.local == local
                        && (e.outcome == Errored || e.outcome == Missing) && ReadAs(e, v.env, n)
  }

  /** Every read of the environment reaches the end of its copy and finds nothing wrong. */
  ghost predicate ReadsSucceed(env: Env) { forall n, w :: env.read(n, w).result == Got(true) }

  /**
   Its local copy, and its object when the catalog has a digest, was read by
   content or its read failed; and where reads succeed every copy was read.
   */
  ghost predicate ReadByContent(v: View)
    requires v.at < |v.segs|
  {
    var s := v.segs[v.at];
    && (s.parse ==> ReadCopy(v, true) || FailedCopy(v, true))
    && (s.hash && s.digest ==> ReadCopy(v, false) || FailedCopy(v, false))
    && (ReadsSucceed(v.env) ==> (s.parse ==> ReadCopy(v, true)) && (s.hash ==> ReadCopy(v, false)))
  }

  /** The pass read it, or it was verified since the period began and not changed after. */
  ghost predicate Covered(v: View)
    requires v.at < |v.segs|
  {
    var s := v.segs[v.at];
    (s.last >= SlotStart(v.clock) && s.last >= LastChange(s, v.clock)) || ReadByContent(v)
  }

  /** A scheduled copy has an end. */
  lemma CopyEnded(hash: Hash, v: View, local: bool) returns (k: nat)
    requires v.at < |v.segs| && TierOf(hash, v.segs[v.at], v.clock) != UNSCHEDULED
    requires if local then v.segs[v.at].parse else v.segs[v.at].hash
    requires multiset(Ended(v.ends)) == multiset(Copies(Scheduled(hash, v.clock, v.segs)))
    ensures k < |v.ends| && v.ends[k].work.copy == CopyOf(hash, v.clock, v.segs[v.at], v.at, local)
  {
    hide TierOf;
    hide Fallback;
    hide OrderOf;
    hide Scheduled;
    var q, s := Scheduled(hash, v.clock, v.segs), v.segs[v.at];
    ScheduledIs(hash, v.clock, v.segs);
    var w := Work(CopyOf(hash, v.clock, s, v.at, local), TierOf(hash, s, v.clock));
    assert From(hash, v.clock, v.segs, w);
    var i :| 0 <= i < |q| && q[i] == w;
    assert Copies(q)[i] == w.copy;
    assert w.copy in multiset(Copies(q));
    assert w.copy in Ended(v.ends);
    k :| 0 <= k < |v.ends| && Ended(v.ends)[k] == w.copy;
  }

  /** A copy that is not left without a digest was read, or its read failed. */
  lemma ReadOrFailed(v: View, k: nat)
    requires AllExplained(v.ends, v.env) && NoneDeferred(v.ends)
    requires k < |v.ends| && v.ends[k].work.copy.seg == v.at && v.ends[k].outcome != Unverifiable
    ensures var local := v.ends[k].work.copy.local;
            (ReadCopy(v, local) || FailedCopy(v, local))
                && (ReadsSucceed(v.env) ==> v.ends[k].outcome == Read(true) && ReadCopy(v, local))
  {
    var e := v.ends[k];
    assert e in v.ends && Explained(e, v.env);
    var n: nat :| ReadAs(e, v.env, n);
  }

  /** A local copy, and an object whose digest the catalog has, is never unverifiable. */
  lemma HasDigest(v: View, k: nat)
    requires AllSupported(v.ends) && k < |v.ends| && (v.ends[k].work.copy.local || v.ends[k].work.copy.digest)
    ensures v.ends[k].outcome != Unverifiable
  {
    assert Supported(v.ends, k);
  }

  /** Nor is an object whose local copy was read clean: that copy ended before it. */
  lemma LocalGivesDigest(v: View, l: nat, k: nat)
    requires AllSupported(v.ends) && ParsedFirst(v.ends) && NoneDeferred(v.ends) && l < |v.ends| && k < |v.ends|
    requires ObjectThenLocal(v.ends[k].work.copy, v.ends[l].work.copy) && v.ends[l].outcome == Read(true)
    ensures v.ends[k].outcome != Unverifiable
  {
    assert Supported(v.ends, k) && v.ends[k] in v.ends;
    if l < k {
      assert v.ends[..k][l] == v.ends[l];
      assert LocalClean(v.ends[..k], v.ends[k].work.copy.seg);
    }
  }

  lemma ScheduledIsRead(hash: Hash, v: View)
    requires v.at < |v.segs| && Readable(v.segs[v.at]) && Ran(hash, v.clock, v.segs, v.env, v.ends)
              && TierOf(hash, v.segs[v.at], v.clock) != UNSCHEDULED
    ensures ReadByContent(v)
  {
    hide TierOf;
    hide Fallback;
    hide OrderOf;
    hide Scheduled;
    hide ParsedFirst;
    hide AllSupported;
    hide AllExplained;
    hide NoneDeferred;
    hide ReadsSucceed;
    hide ReadCopy;
    hide FailedCopy;
    var s, l: nat := v.segs[v.at], 0;
    if s.parse {
      l := CopyEnded(hash, v, true);
      HasDigest(v, l);
      ReadOrFailed(v, l);
    }
    if s.hash {
      var k := CopyEnded(hash, v, false);
      if s.digest {
        HasDigest(v, k);
        ReadOrFailed(v, k);
      } else if ReadsSucceed(v.env) {
        LocalGivesDigest(v, l, k);
        ReadOrFailed(v, k);
      }
    }
  }

  /** An uncapped pass reads every segment that an open finding forces and that this period has not read. */
  lemma ForcedIsRead(hash: Hash, v: View)
    requires v.at < |v.segs| && Readable(v.segs[v.at]) && v.segs[v.at].forced && !v.segs[v.at].held
    requires Ran(hash, v.clock, v.segs, v.env, v.ends)
    ensures ReadByContent(v)
  {
    hide TierOf;
    hide Ran;
    hide ReadByContent;
    TierIs(hash, v.segs[v.at], v.clock);
    ScheduledIsRead(hash, v);
  }

  /** With an uncapped pass in each of n consecutive periods, every segment is read by content in one of them. */
  lemma EveryRotationReads(hash: Hash, name: string, period: int, rotation: int, k: nat, view: nat -> View)
    requires RotationLength(rotation) > 0
    requires forall p: nat :: k <= p < k + RotationLength(rotation) ==>
              FullPass(hash, view(p), name, period, rotation, p)
    ensures exists p: nat :: k <= p < k + RotationLength(rotation) && view(p).at < |view(p).segs| && Covered(view(p))
  {
    hide TierOf;
    hide SlotStart;
    hide LastChange;
    hide PeriodAt;
    hide Ran;
    hide Readable;
    hide ReadByContent;
    var p := ExactlyOneSlot(hash, name, RotationLength(rotation), k);
    var v := view(p);
    assert FullPass(hash, v, name, period, rotation, p);
    var s := v.segs[v.at];
    DrawnInItsSlot(hash, s, v.clock);
    if TierOf(hash, s, v.clock) != UNSCHEDULED {
      ScheduledIsRead(hash, v);
    }
    assert Covered(v);
  }
}
