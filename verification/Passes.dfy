/**
 The content loop of a verifier pass: it pays for a queue of copies in order,
 and puts recent work past its share back into the queue at a lower tier.

 What the loop does not decide is an environment asked once per turn: whether
 the pass was cancelled or its deadline passed, whether the byte budget can
 still pay, and what a read gave and cost.
 */
module Passes {
  import opened Wrappers
  import opened Queues
  import Texts

  datatype Ctx = Live | Cancelled | Expired

  datatype Result = Got(clean: bool) | Failed | NotFound | OutOfTime | Stopped

  datatype Reading = Reading(result: Result, paid: nat)

  datatype Env = Env(ctx: nat -> Ctx, room: nat -> bool, read: (nat, Work) -> Reading)

  datatype Outcome =
    | Read(clean: bool) | Errored | Missing | Unverifiable
    | DeferredTime | DeferredBudget | DeferredNoDigest
  {
    predicate Deferred() { DeferredTime? || DeferredBudget? || DeferredNoDigest? }
  }

  /** How one copy ended: at which tier, with what result, for how many bytes. */
  datatype End = End(work: Work, outcome: Outcome, paid: nat)

  function OutcomeOf(w: Work, r: Result): Outcome {
    match r
    case Got(clean) => Read(clean)
    case NotFound => if w.copy.local then Errored else Missing
    case OutOfTime => DeferredTime
    case Failed => Errored
    case Stopped => Errored
  }

  /** No read costs more than the listed size of its copy. */
  ghost predicate Honest(env: Env) {
    forall n, w :: env.read(n, w).paid <= w.copy.size
  }

  ghost predicate NoBudget(env: Env) { forall n :: env.room(n) }

  // ---- Queues the loop is given --------------------------------------------------

  /** The copies of one segment agree, and no copy is listed twice. */
  ghost predicate Consistent(copies: multiset<Copy>) {
    && (forall c :: c in copies ==>
          copies[c] == 1 && (c.fallback == SLOT || c.fallback == OVERDUE || c.fallback == UNSCHEDULED))
    && (forall a, b :: a in copies && b in copies && a.seg == b.seg ==>
          a.order == b.order && a.name == b.name && a.fallback == b.fallback && (a.local == b.local ==> a == b))
  }

  ghost predicate Proper(q: seq<Work>) {
    && Consistent(multiset(Copies(q)))
    && (forall a, b :: a in q && b in q && a.copy.seg == b.copy.seg ==> a.tier == b.tier)
  }

  ghost predicate NamesDiffer(copies: multiset<Copy>) {
    forall a, b :: a in copies && b in copies && a.name == b.name ==> a.seg == b.seg
  }

  function DropTier(c: Copy): nat { if c.fallback == UNSCHEDULED then TAIL else c.fallback }

  /** Recent work past its share goes to its slot or overdue tier, and to the tail when it has neither. */
  lemma DropIs(c: Copy)
    ensures c.fallback != UNSCHEDULED ==> DropTier(c) == c.fallback
    ensures c.fallback == UNSCHEDULED ==> DropTier(c) == TAIL
  {
  }

  // ---- The state of the loop -----------------------------------------------------

  /**
   The work left, the segments demoted, the bytes paid at the forced and recent
   tiers and in all, the ends so far, and the first segment below recent.
   */
  datatype Turn = Turn(rest: seq<Work>, demoted: set<nat>, forced: nat, recent: nat, total: nat, ends: seq<End>,
      first: Option<nat>)

  function Demote(t: Turn): Turn
    requires t.rest != []
  {
    var w := t.rest[0];
    t.(rest := Insert(t.rest[1..], Work(w.copy, DropTier(w.copy))), demoted := t.demoted + {w.copy.seg})
  }

  function Finish(t: Turn, outcome: Outcome, paid: nat): Turn
    requires t.rest != []
  {
    var w := t.rest[0];
    Turn(t.rest[1..], t.demoted,
         t.forced + (if w.tier == FORCED then paid else 0), t.recent + (if w.tier == RECENT then paid else 0),
         t.total + paid, t.ends + [End(w, outcome, paid)],
         if t.first.None? && w.tier >= SLOT then Some(w.copy.seg) else t.first)
  }

  function Ended(ends: seq<End>): seq<Copy> {
    seq(|ends|, i requires 0 <= i < |ends| => ends[i].work.copy)
  }

  /** Every copy of the queue is ended or waiting, once. */
  ghost predicate Conserved(t: Turn, copies: multiset<Copy>) {
    multiset(Ended(t.ends)) + multiset(Copies(t.rest)) == copies
  }

  ghost predicate InOrder(ends: seq<End>) {
    forall j, k :: 0 <= j < k < |ends| ==> !Before(ends[k].work, ends[j].work)
  }

  ghost predicate Ordered(t: Turn) {
    && Sorted(t.rest) && InOrder(t.ends)
    && (forall e, w :: e in t.ends && w in t.rest ==> !Before(w, e.work))
  }

  /** A local copy waits with its object's tier, or was demoted first and the object follows. */
  predicate Pair(t: Turn, a: Work, b: Work) {
    a.tier == b.tier || (b.tier == RECENT && b.copy.seg in t.demoted && a.tier == DropTier(a.copy))
  }

  ghost predicate Coupled(t: Turn) {
    && (forall a, b :: a in t.rest && b in t.rest && a.copy.seg == b.copy.seg ==>
          (a.tier == FORCED <==> b.tier == FORCED))
    && (forall a, b :: a in t.rest && b in t.rest && a.copy.seg == b.copy.seg && a.copy.local && !b.copy.local ==>
          Pair(t, a, b))
    && (forall e, w :: e in t.ends && w in t.rest && e.work.copy.seg == w.copy.seg ==>
          (e.work.tier == FORCED <==> w.tier == FORCED) && (w.copy.local ==> e.work.copy.local))
  }

  predicate ObjectThenLocal(a: Copy, b: Copy) { a.seg == b.seg && b.local && !a.local }

  /** No object ends before its own local copy, unless the deadline passed before it was read. */
  ghost predicate ParsedFirst(ends: seq<End>) {
    forall j, k :: 0 <= j < k < |ends| && ObjectThenLocal(ends[j].work.copy, ends[k].work.copy) ==>
      ends[j].outcome == DeferredTime && ends[j].paid == 0
  }

  ghost predicate Inv(t: Turn, copies: multiset<Copy>) {
    Conserved(t, copies) && Ordered(t) && Coupled(t) && ParsedFirst(t.ends)
  }

  lemma RestCopies(t: Turn, copies: multiset<Copy>)
    requires Conserved(t, copies)
    ensures forall w :: w in t.rest ==> w.copy in copies
  {
    forall w | w in t.rest ensures w.copy in copies {
      var i :| 0 <= i < |t.rest| && t.rest[i] == w;
      assert Copies(t.rest)[i] == w.copy;
      assert w.copy in multiset(Copies(t.rest));
    }
  }

  lemma Split(q: seq<Work>)
    requires q != []
    ensures q == [q[0]] + q[1..] && multiset(Copies(q)) == multiset{q[0].copy} + multiset(Copies(q[1..]))
  {
    assert Copies(q) == [q[0].copy] + Copies(q[1..]);
  }

  // ---- Demoting ------------------------------------------------------------------

  lemma DemoteConserves(t: Turn, copies: multiset<Copy>)
    requires t.rest != [] && Conserved(t, copies)
    ensures Conserved(Demote(t), copies)
  {
    hide Insert;
    var w := t.rest[0];
    Split(t.rest);
    InsertCopies(t.rest[1..], Work(w.copy, DropTier(w.copy)));
  }

  lemma LaterStill(w: Work, low: Work, e: Work)
    requires !Before(w, e) && w.tier < low.tier
    ensures !Before(low, e)
  {
  }

  lemma DemoteKeepsOrder(t: Turn, copies: multiset<Copy>)
    requires t.rest != [] && t.rest[0].tier == RECENT && Ordered(t) && Conserved(t, copies) && Consistent(copies)
    ensures Ordered(Demote(t))
  {
    hide Insert;
    hide Before;
    RestCopies(t, copies);
    var w := t.rest[0];
    assert w in t.rest;
    var low := Work(w.copy, DropTier(w.copy));
    InsertKeepsSorted(t.rest[1..], low);
    InsertIs(t.rest[1..], low);
    forall e, x | e in t.ends && x in Demote(t).rest ensures !Before(x, e.work) {
      if x == low {
        LaterStill(w, low, e.work);
      } else {
        assert x in t.rest;
      }
    }
  }

  /** An object ahead of its waiting local copy is recent work whose local copy was demoted. */
  lemma AheadOfLocal(t: Turn, copies: multiset<Copy>, a: Work)
    requires t.rest != [] && Ordered(t) && Coupled(t) && Conserved(t, copies) && Consistent(copies)
    requires a in t.rest && a.copy.local && !t.rest[0].copy.local && a.copy.seg == t.rest[0].copy.seg
    ensures t.rest[0].tier == RECENT && t.rest[0].copy.seg in t.demoted && a.tier == DropTier(a.copy)
  {
    RestCopies(t, copies);
    var w := t.rest[0];
    assert Pair(t, a, w);
    HeadIsFirst(t.rest);
  }

  lemma HeadIsFirst(q: seq<Work>)
    requires q != [] && Sorted(q)
    ensures forall x :: x in q ==> !Before(x, q[0])
  {
    BeforeIsOrder(q[0], q[0]);
  }

  lemma DemotePairs(t: Turn, copies: multiset<Copy>, a: Work, b: Work)
    requires t.rest != [] && t.rest[0].tier == RECENT && Ordered(t) && Coupled(t) && Conserved(t, copies)
              && Consistent(copies)
    requires a in Demote(t).rest && b in Demote(t).rest && a.copy.seg == b.copy.seg && a.copy.local && !b.copy.local
    ensures Pair(Demote(t), a, b)
  {
    hide Insert;
    hide Before;
    RestCopies(t, copies);
    var w := t.rest[0];
    var low := Work(w.copy, DropTier(w.copy));
    InsertIs(t.rest[1..], low);
    if b == low {
      assert a in t.rest;
      AheadOfLocal(t, copies, a);
    } else if a == low {
      assert Pair(t, w, b);
    } else {
      assert Pair(t, a, b);
    }
  }

  /** What waits after a demotion waited before, at the same side of the forced tier. */
  lemma DemoteFrom(t: Turn, x: Work) returns (y: Work)
    requires t.rest != [] && t.rest[0].tier == RECENT && x in Demote(t).rest
    requires t.rest[0].copy.fallback == SLOT || t.rest[0].copy.fallback == OVERDUE
              || t.rest[0].copy.fallback == UNSCHEDULED
    ensures y in t.rest && y.copy == x.copy && (y.tier == FORCED <==> x.tier == FORCED)
  {
    hide Insert;
    var w := t.rest[0];
    InsertIs(t.rest[1..], Work(w.copy, DropTier(w.copy)));
    y := if x in t.rest[1..] then x else w;
  }

  lemma DemoteKeepsCoupled(t: Turn, copies: multiset<Copy>)
    requires t.rest != [] && t.rest[0].tier == RECENT && Ordered(t) && Coupled(t) && Conserved(t, copies)
              && Consistent(copies)
    ensures Coupled(Demote(t))
  {
    hide Pair;
    hide Ordered;
    hide Conserved;
    assert t.rest[0] in t.rest && t.rest[0].copy in copies by { RestCopies(t, copies); }
    var d := Demote(t);
    assert d.ends == t.ends;
    hide Demote;
    forall a, b | a in d.rest && b in d.rest && a.copy.seg == b.copy.seg && a.copy.local && !b.copy.local
      ensures Pair(d, a, b)
    {
      DemotePairs(t, copies, a, b);
    }
    forall a, b | a in d.rest && b in d.rest && a.copy.seg == b.copy.seg
      ensures a.tier == FORCED <==> b.tier == FORCED
    {
      var a0 := DemoteFrom(t, a);
      var b0 := DemoteFrom(t, b);
    }
    forall e, x | e in t.ends && x in d.rest && e.work.copy.seg == x.copy.seg
      ensures (e.work.tier == FORCED <==> x.tier == FORCED) && (x.copy.local ==> e.work.copy.local)
    {
      var y := DemoteFrom(t, x);
    }
  }

  // ---- Ending --------------------------------------------------------------------

  lemma FinishConserves(t: Turn, outcome: Outcome, paid: nat, copies: multiset<Copy>)
    requires t.rest != [] && Conserved(t, copies)
    ensures Conserved(Finish(t, outcome, paid), copies)
  {
    var e := End(t.rest[0], outcome, paid);
    Split(t.rest);
    assert Ended(t.ends + [e]) == Ended(t.ends) + [e.work.copy];
  }

  lemma FinishKeepsOrder(t: Turn, outcome: Outcome, paid: nat)
    requires t.rest != [] && Ordered(t)
    ensures Ordered(Finish(t, outcome, paid))
  {
    hide Before;
    var f := Finish(t, outcome, paid);
    Split(t.rest);
    assert t.rest[0] in t.rest;
    forall e, w | e in f.ends && w in f.rest ensures !Before(w, e.work) {
      if e in t.ends {
        assert w in t.rest;
      }
    }
  }

  lemma FinishKeepsCoupled(t: Turn, outcome: Outcome, paid: nat, copies: multiset<Copy>)
    requires t.rest != [] && Ordered(t) && Coupled(t) && Conserved(t, copies) && Consistent(copies)
    requires !(t.rest[0].tier == RECENT && t.rest[0].copy.seg in t.demoted)
    ensures Coupled(Finish(t, outcome, paid))
  {
    hide Before;
    var f, w := Finish(t, outcome, paid), t.rest[0];
    assert forall x :: x in f.rest ==> x in t.rest;
    forall a, b | a in f.rest && b in f.rest && a.copy.seg == b.copy.seg && a.copy.local && !b.copy.local
      ensures Pair(f, a, b)
    {
      assert Pair(t, a, b);
    }
    forall e, x | e in f.ends && x in f.rest && e.work.copy.seg == x.copy.seg
      ensures (e.work.tier == FORCED <==> x.tier == FORCED) && (x.copy.local ==> e.work.copy.local)
    {
      if e !in t.ends {
        assert e.work == w && w in t.rest;
        if x.copy.local && !w.copy.local {
          AheadOfLocal(t, copies, x);
        }
      }
    }
  }

  lemma FinishKeepsParsedFirst(t: Turn, outcome: Outcome, paid: nat)
    requires t.rest != [] && Coupled(t) && ParsedFirst(t.ends)
    ensures ParsedFirst(Finish(t, outcome, paid).ends)
  {
    var ends := Finish(t, outcome, paid).ends;
    assert t.rest[0] in t.rest;
    forall j, k | 0 <= j < k < |ends| && ObjectThenLocal(ends[j].work.copy, ends[k].work.copy)
      ensures ends[j].outcome == DeferredTime && ends[j].paid == 0
    {
      assert ends[j] == t.ends[j] && t.ends[j] in t.ends;
      if k < |t.ends| {
        assert ends[k] == t.ends[k];
      }
    }
  }

  lemma DemoteKeeps(t: Turn, copies: multiset<Copy>)
    requires t.rest != [] && t.rest[0].tier == RECENT && Inv(t, copies) && Consistent(copies)
    ensures Inv(Demote(t), copies)
  {
    hide Insert;
    hide Ordered;
    hide Coupled;
    hide Conserved;
    DemoteConserves(t, copies);
    DemoteKeepsOrder(t, copies);
    DemoteKeepsCoupled(t, copies);
  }

  lemma FinishKeeps(t: Turn, outcome: Outcome, paid: nat, copies: multiset<Copy>)
    requires t.rest != [] && Inv(t, copies) && Consistent(copies)
    requires !(t.rest[0].tier == RECENT && t.rest[0].copy.seg in t.demoted)
    ensures Inv(Finish(t, outcome, paid), copies)
  {
    hide Ordered;
    hide Coupled;
    hide Conserved;
    hide ParsedFirst;
    FinishConserves(t, outcome, paid, copies);
    FinishKeepsOrder(t, outcome, paid);
    FinishKeepsCoupled(t, outcome, paid, copies);
    FinishKeepsParsedFirst(t, outcome, paid);
  }

  // ---- The deadline --------------------------------------------------------------

  function OutOfTimeEnds(rest: seq<Work>): seq<End> {
    seq(|rest|, i requires 0 <= i < |rest| => End(rest[i], DeferredTime, 0))
  }

  lemma TimedOut(t: Turn, copies: multiset<Copy>)
    requires Inv(t, copies)
    ensures var ends := t.ends + OutOfTimeEnds(t.rest);
            multiset(Ended(ends)) == copies && InOrder(ends) && ParsedFirst(ends)
  {
    LateConserves(t);
    LateInOrder(t);
    LateParsedFirst(t);
  }

  lemma LateConserves(t: Turn)
    ensures multiset(Ended(t.ends + OutOfTimeEnds(t.rest))) == multiset(Ended(t.ends)) + multiset(Copies(t.rest))
  {
    var late := OutOfTimeEnds(t.rest);
    assert Ended(late) == Copies(t.rest);
    assert Ended(t.ends + late) == Ended(t.ends) + Ended(late);
  }

  lemma LateAt(t: Turn, i: nat)
    requires i < |t.ends| + |t.rest|
    ensures var e := (t.ends + OutOfTimeEnds(t.rest))[i];
            if i < |t.ends| then e == t.ends[i] && e in t.ends
            else e == End(t.rest[i - |t.ends|], DeferredTime, 0) && e.work in t.rest
  {
  }

  lemma LateInOrder(t: Turn)
    requires Ordered(t)
    ensures InOrder(t.ends + OutOfTimeEnds(t.rest))
  {
    hide Before;
    var ends := t.ends + OutOfTimeEnds(t.rest);
    forall j, k | 0 <= j < k < |ends| ensures !Before(ends[k].work, ends[j].work) {
      LateAt(t, j);
      LateAt(t, k);
    }
  }

  lemma LateParsedFirst(t: Turn)
    requires Coupled(t) && ParsedFirst(t.ends)
    ensures ParsedFirst(t.ends + OutOfTimeEnds(t.rest))
  {
    var ends := t.ends + OutOfTimeEnds(t.rest);
    forall j, k | 0 <= j < k < |ends| && ObjectThenLocal(ends[j].work.copy, ends[k].work.copy)
      ensures ends[j].outcome == DeferredTime && ends[j].paid == 0
    {
      LateAt(t, j);
      LateAt(t, k);
    }
  }

  // ---- Bytes ---------------------------------------------------------------------

  /** The largest cost of a segment's unforced work that fits in `room`; 0 when none does. */
  ghost predicate IsLargest(q: seq<Work>, room: int, s: nat) {
    && (forall x :: SegCost(q, x) <= room ==> SegCost(q, x) <= s)
    && (s == 0 || (s <= room && exists x :: SegCost(q, x) == s))
  }

  /** The cap of the pass, the forced and the largest other cost, and the share of the recent tier. */
  datatype Caps = Caps(cap: nat, forced: nat, largest: nat, share: int)

  /** What the recent share is chosen for: behind the forced work it leaves room for the largest segment. */
  ghost predicate Fair(c: Caps, q: seq<Work>) {
    && c.forced == ForcedCost(q)
    && IsLargest(q, c.cap - c.forced, c.largest)
    && 0 <= c.share && (c.share <= c.cap - c.forced - c.largest || c.share == 0)
  }

  /** What was paid, on reads no longer than listed. */
  ghost predicate Paid(t: Turn, c: Caps, q: seq<Work>) {
    && t.total <= c.cap && t.recent <= c.share
    && t.forced + ForcedCost(t.rest) <= c.forced
    && (forall x :: SegCost(t.rest, x) <= SegCost(q, x))
    && (t.first.None? ==> t.total == t.forced + t.recent)
  }

  ghost predicate First(t: Turn) {
    && (t.first.None? ==> forall e :: e in t.ends ==> e.work.tier < SLOT)
    && (t.first.Some? ==>
          exists k :: 0 <= k < |t.ends| && IsFirst(t.ends, k) && t.ends[k].work.copy.seg == t.first.value)
  }

  /** The first end below the recent tier. */
  ghost predicate IsFirst(ends: seq<End>, k: nat) {
    k < |ends| && ends[k].work.tier >= SLOT && forall j :: 0 <= j < k ==> ends[j].work.tier < SLOT
  }

  lemma FinishKeepsFirst(t: Turn, outcome: Outcome, paid: nat)
    requires t.rest != [] && First(t)
    ensures First(Finish(t, outcome, paid))
  {
    var f := Finish(t, outcome, paid);
    assert forall j :: 0 <= j < |t.ends| ==> f.ends[j] == t.ends[j] && t.ends[j] in t.ends;
    if t.first.Some? {
      var k :| 0 <= k < |t.ends| && IsFirst(t.ends, k) && t.ends[k].work.copy.seg == t.first.value;
      assert IsFirst(f.ends, k);
    } else if f.first.Some? {
      assert IsFirst(f.ends, |t.ends|);
    }
  }

  lemma HeadCost(q: seq<Work>, x: nat)
    requires q != []
    ensures ForcedCost(q) == ForcedSize()(q[0]) + ForcedCost(q[1..])
    ensures SegCost(q, x) == SegSize(x)(q[0]) + SegCost(q[1..], x)
  {
  }

  lemma DemoteKeepsPaid(t: Turn, c: Caps, q: seq<Work>)
    requires t.rest != [] && t.rest[0].tier == RECENT && Paid(t, c, q)
    requires t.rest[0].copy.fallback == SLOT || t.rest[0].copy.fallback == OVERDUE
              || t.rest[0].copy.fallback == UNSCHEDULED
    ensures Paid(Demote(t), c, q)
  {
    hide Insert;
    hide Total;
    var w := t.rest[0];
    var low := Work(w.copy, DropTier(w.copy));
    TotalInsert(t.rest[1..], low, ForcedSize());
    forall x ensures SegCost(Demote(t).rest, x) <= SegCost(q, x) {
      TotalInsert(t.rest[1..], low, SegSize(x));
      HeadCost(t.rest, x);
    }
    HeadCost(t.rest, 0);
  }

  lemma FinishKeepsPaid(t: Turn, outcome: Outcome, paid: nat, c: Caps, q: seq<Work>)
    requires t.rest != [] && Paid(t, c, q) && paid <= t.rest[0].copy.size
    requires t.total + paid <= c.cap
    requires t.rest[0].tier == RECENT ==> t.recent + paid <= c.share
    ensures Paid(Finish(t, outcome, paid), c, q)
  {
    hide Total;
    HeadCost(t.rest, 0);
    forall x ensures SegCost(t.rest[1..], x) <= SegCost(q, x) {
      HeadCost(t.rest, x);
    }
  }

  /** Recent work within its share always fits: what is left of the cap covers it. */
  lemma RecentFits(t: Turn, c: Caps, q: seq<Work>)
    requires t.rest != [] && Paid(t, c, q) && Fair(c, q) && t.first.None?
    requires t.rest[0].tier == RECENT && t.recent + t.rest[0].copy.size <= c.share
    ensures t.total + t.rest[0].copy.size <= c.cap
  {
    hide Total;
    hide IsLargest;
  }

  /** The first segment below recent, when it costs no more than the cap less the forced work, still fits as a whole. */
  lemma FirstFits(t: Turn, c: Caps, q: seq<Work>)
    requires t.rest != [] && Paid(t, c, q) && Fair(c, q) && t.first.None? && t.rest[0].tier >= SLOT
    requires SegCost(q, t.rest[0].copy.seg) <= c.cap - c.forced
    ensures t.total + SegCost(t.rest, t.rest[0].copy.seg) <= c.cap
  {
    hide Total;
    var x := t.rest[0].copy.seg;
    assert SegCost(q, x) <= c.largest;
    assert SegCost(t.rest, x) <= SegCost(q, x);
  }

  // ---- No starvation -------------------------------------------------------------

  lemma TwicePlaced(q: seq<Work>, i: nat, j: nat)
    requires i < j < |q| && q[i].copy == q[j].copy
    ensures multiset(Copies(q))[q[i].copy] >= 2
  {
    var c := Copies(q);
    assert c == c[..i] + [c[i]] + c[i+1..j] + [c[j]] + c[j+1..];
  }

  /** Below the recent tier the two copies of a segment stand side by side. */
  lemma SideBySide(t: Turn, copies: multiset<Copy>, k: nat)
    requires Inv(t, copies) && Consistent(copies) && NamesDiffer(copies)
    requires 1 <= k < |t.rest| && t.rest[0].tier >= SLOT && t.rest[k].copy.seg == t.rest[0].copy.seg
    ensures k == 1 && t.rest[1].tier == t.rest[0].tier
  {
    hide Texts.Less;
    RestCopies(t, copies);
    var w, b, c := t.rest[0], t.rest[k], t.rest[1];
    assert w in t.rest && b in t.rest && c in t.rest;
    if w.copy.local == b.copy.local {
      TwicePlaced(t.rest, 0, k);
    } else if b.copy.local {
      AheadOfLocal(t, copies, b);
    } else {
      assert Pair(t, w, b);
      if k > 1 {
        BeforeIsOrder(w, c);
        BeforeIsOrder(c, b);
        Texts.LessTotal(w.copy.name, c.copy.name);
        assert c.copy.name == w.copy.name;
        if c.copy.local {
          TwicePlaced(t.rest, 0, 1);
        } else {
          TwicePlaced(t.rest, 1, k);
        }
      }
    }
  }

  ghost predicate Roomy(q: seq<Work>, c: Caps, x: nat) { SegCost(q, x) <= c.cap - c.forced }

  ghost predicate NeverOver(ends: seq<End>, x: nat) {
    forall e :: e in ends && e.work.copy.seg == x ==> e.outcome != DeferredBudget
  }

  /** The first segment below recent keeps the room for its second copy. */
  ghost predicate Reserved(t: Turn, c: Caps, q: seq<Work>) {
    && (forall e :: e in t.ends && e.work.tier == RECENT ==> e.outcome != DeferredBudget)
    && (t.first.Some? && Roomy(q, c, t.first.value) ==>
          && NeverOver(t.ends, t.first.value)
          && forall k :: 0 <= k < |t.rest| && t.rest[k].copy.seg == t.first.value ==>
                k == 0 && t.total + t.rest[k].copy.size <= c.cap)
  }

  lemma RecentBeforeFirst(t: Turn)
    requires t.rest != [] && Ordered(t) && First(t) && t.rest[0].tier < SLOT
    ensures t.first.None?
  {
    assert t.rest[0] in t.rest;
    assert forall k :: 0 <= k < |t.ends| ==> t.ends[k] in t.ends;
  }

  lemma TotalOfTwo(q: seq<Work>, k: nat, x: nat)
    requires 1 <= k < |q| && q[0].copy.seg == q[k].copy.seg == x && q[0].tier != FORCED && q[k].tier != FORCED
    ensures q[0].copy.size + q[k].copy.size <= SegCost(q, x)
  {
    HeadCost(q, x);
    TotalOfOne(q[1..], k - 1, SegSize(x));
  }

  /** What is deferred for budget does not fit. */
  lemma FinishKeepsReserved(t: Turn, outcome: Outcome, paid: nat, c: Caps, q: seq<Work>, copies: multiset<Copy>)
    requires t.rest != [] && Inv(t, copies) && Consistent(copies) && NamesDiffer(copies) && First(t)
    requires Paid(t, c, q) && Fair(c, q) && Reserved(t, c, q)
    requires paid <= t.rest[0].copy.size
    requires t.rest[0].tier == RECENT ==> t.recent + t.rest[0].copy.size <= c.share
    requires outcome == DeferredBudget ==> t.total + t.rest[0].copy.size > c.cap
    ensures Reserved(Finish(t, outcome, paid), c, q)
  {
    hide SegCost;
    hide ForcedCost;
    hide Before;
    hide Conserved;
    hide IsLargest;
    var f, w := Finish(t, outcome, paid), t.rest[0];
    assert w in t.rest;
    if w.tier < SLOT {
      RecentBeforeFirst(t);
      if w.tier == RECENT {
        RecentFits(t, c, q);
      }
    } else if t.first.None? {
      if Roomy(q, c, w.copy.seg) {
        OpensRoom(t, outcome, paid, c, q, copies);
      }
    } else if Roomy(q, c, t.first.value) {
      forall e | e in f.ends && e.work.copy.seg == t.first.value ensures e.outcome != DeferredBudget {
        assert e in t.ends || e == End(w, outcome, paid);
      }
      assert forall k :: 0 <= k < |f.rest| ==> f.rest[k] == t.rest[k + 1];
    }
  }

  lemma OpensRoom(t: Turn, outcome: Outcome, paid: nat, c: Caps, q: seq<Work>, copies: multiset<Copy>)
    requires t.rest != [] && Inv(t, copies) && Consistent(copies) && NamesDiffer(copies) && First(t)
    requires Paid(t, c, q) && Fair(c, q) && Reserved(t, c, q) && t.first.None? && t.rest[0].tier >= SLOT
    requires Roomy(q, c, t.rest[0].copy.seg) && paid <= t.rest[0].copy.size
    requires outcome == DeferredBudget ==> t.total + t.rest[0].copy.size > c.cap
    ensures var f := Finish(t, outcome, paid);
            && NeverOver(f.ends, t.rest[0].copy.seg)
            && forall k :: 0 <= k < |f.rest| && f.rest[k].copy.seg == t.rest[0].copy.seg ==>
                 k == 0 && f.total + f.rest[k].copy.size <= c.cap
  {
    hide Total;
    hide Before;
    hide Conserved;
    hide IsLargest;
    var f, w := Finish(t, outcome, paid), t.rest[0];
    var x := w.copy.seg;
    assert w in t.rest;
    FirstFits(t, c, q);
    TotalOfOne(t.rest, 0, SegSize(x));
    forall e | e in f.ends && e.work.copy.seg == x ensures e.outcome != DeferredBudget {
      if e in t.ends {
        assert e.work.tier == RECENT;
      }
    }
    forall k | 0 <= k < |f.rest| && f.rest[k].copy.seg == x ensures k == 0 && f.total + f.rest[k].copy.size <= c.cap {
      SideBySide(t, copies, k + 1);
      TotalOfTwo(t.rest, k + 1, x);
    }
  }

  // ---- One turn of the loop ------------------------------------------------------

  function Spent(ends: seq<End>): nat {
    if ends == [] then 0 else Spent(ends[..|ends|-1]) + ends[|ends|-1].paid
  }

  function SpentRecent(ends: seq<End>): nat {
    if ends == [] then 0
    else SpentRecent(ends[..|ends|-1]) + if ends[|ends|-1].work.tier == RECENT then ends[|ends|-1].paid else 0
  }

  /** What one run of the loop is given. `caps` is what the share was computed from. */
  datatype Setting = Setting(q: seq<Work>, passBytes: int, share: int, caps: Caps)

  /** PassBytes limits the pass, reads are no longer than listed, and the share is the fair one. */
  ghost predicate Capped(s: Setting, env: Env) {
    Honest(env) && s.passBytes == s.caps.cap && s.passBytes > 0 && s.share == s.caps.share && Fair(s.caps, s.q)
  }

  ghost predicate Exact(s: Setting, env: Env) {
    Capped(s, env) && NoBudget(env) && NamesDiffer(multiset(Copies(s.q)))
  }

  ghost predicate Within(t: Turn, s: Setting) {
    && t.total == Spent(t.ends) && t.recent == SpentRecent(t.ends)
    && (s.passBytes > 0 ==> t.total <= s.passBytes)
    && (s.share >= 0 ==> t.recent <= s.share)
  }

  ghost predicate NoneOver(ends: seq<End>) {
    forall e :: e in ends ==> e.outcome != DeferredBudget
  }

  ghost predicate Good(t: Turn, s: Setting, env: Env) {
    && Inv(t, multiset(Copies(s.q))) && First(t)
    && (Honest(env) ==> Within(t, s))
    && t.total == Spent(t.ends) && t.recent == SpentRecent(t.ends)
    && (Capped(s, env) ==> Paid(t, s.caps, s.q))
    && (Exact(s, env) ==> Reserved(t, s.caps, s.q))
    && (s.passBytes <= 0 && NoBudget(env) ==> NoneOver(t.ends))
  }

  function Start(q: seq<Work>): Turn { Turn(q, {}, 0, 0, 0, [], None) }

  lemma GoodStart(s: Setting, env: Env)
    requires Sorted(s.q) && Proper(s.q)
    ensures Good(Start(s.q), s, env)
  {
    hide Before;
    hide Total;
    hide IsLargest;
    var t := Start(s.q);
    assert Ended(t.ends) == [];
    assert Conserved(t, multiset(Copies(s.q)));
  }

  lemma GoodDemote(t: Turn, s: Setting, env: Env)
    requires t.rest != [] && t.rest[0].tier == RECENT && Good(t, s, env) && Proper(s.q)
    ensures Good(Demote(t), s, env)
  {
    hide Insert;
    hide Inv;
    hide Fair;
    hide Paid;
    var copies := multiset(Copies(s.q));
    DemoteKeeps(t, copies);
    assert t.first.None? && t.rest[0].copy in copies by { HeadFacts(t, copies); }
    if Capped(s, env) {
      DemoteKeepsPaid(t, s.caps, s.q);
    }
  }

  lemma HeadFacts(t: Turn, copies: multiset<Copy>)
    requires t.rest != [] && Inv(t, copies) && First(t)
    ensures t.rest[0].copy in copies && (t.rest[0].tier < SLOT ==> t.first.None?)
  {
    hide Conserved;
    RestCopies(t, copies);
    assert t.rest[0] in t.rest;
    if t.rest[0].tier < SLOT {
      RecentBeforeFirst(t);
    }
  }

  /**
   The turn is the loop's: recent work is within its share, what is read fits,
   what is deferred for budget does not.
   */
  ghost predicate Turned(t: Turn, s: Setting, env: Env, outcome: Outcome, paid: nat)
    requires t.rest != []
  {
    var w := t.rest[0];
    && (w.tier == RECENT ==> w.copy.seg !in t.demoted && (s.share < 0 || t.recent + w.copy.size <= s.share))
    && (Honest(env) ==> paid <= w.copy.size)
    && (paid > 0 && s.passBytes > 0 ==> t.total + w.copy.size <= s.passBytes)
    && (outcome == DeferredBudget ==> !NoBudget(env) || (s.passBytes > 0 && t.total + w.copy.size > s.passBytes))
  }

  lemma GoodFinish(t: Turn, s: Setting, env: Env, outcome: Outcome, paid: nat)
    requires t.rest != [] && Good(t, s, env) && Proper(s.q) && Turned(t, s, env, outcome, paid)
    ensures Good(Finish(t, outcome, paid), s, env)
  {
    hide Inv;
    hide IsLargest;
    hide ForcedCost;
    hide Paid;
    hide Reserved;
    hide First;
    var copies := multiset(Copies(s.q));
    FinishKeeps(t, outcome, paid, copies);
    FinishKeepsFirst(t, outcome, paid);
    var f := Finish(t, outcome, paid);
    assert f.ends[..|f.ends|-1] == t.ends;
    if Capped(s, env) {
      assert t.total + paid <= s.caps.cap;
      FinishKeepsPaid(t, outcome, paid, s.caps, s.q);
    }
    if Exact(s, env) {
      FinishKeepsReserved(t, outcome, paid, s.caps, s.q, copies);
    }
  }

  // ---- The loop ------------------------------------------------------------------

  /**
   The first segment below the recent tier, if the cap less the forced work
   covers it, loses no copy to the budget.
   */
  ghost predicate NotStarved(ends: seq<End>, q: seq<Work>, c: Caps) {
    && (forall e :: e in ends && e.work.tier == RECENT ==> e.outcome != DeferredBudget)
    && (forall k :: 0 <= k < |ends| && IsFirst(ends, k) && Roomy(q, c, ends[k].work.copy.seg) ==>
          NeverOver(ends, ends[k].work.copy.seg))
  }

  lemma FirstIsOne(ends: seq<End>, late: seq<End>, i: nat, k: nat)
    requires i < |ends| && IsFirst(ends, i) && IsFirst(ends + late, k)
    ensures i == k
  {
    var all := ends + late;
    assert forall j :: 0 <= j < |ends| ==> all[j] == ends[j];
  }

  lemma AllServed(t: Turn, s: Setting, env: Env)
    requires Good(t, s, env) && Exact(s, env)
    ensures NotStarved(t.ends + OutOfTimeEnds(t.rest), s.q, s.caps)
  {
    hide Roomy;
    hide Fair;
    hide Paid;
    hide Ordered;
    hide Conserved;
    hide Within;
    hide ParsedFirst;
    hide Pair;
    var late := OutOfTimeEnds(t.rest);
    var ends := t.ends + late;
    assert forall e :: e in late ==> e.outcome == DeferredTime && e.work in t.rest;
    forall k | 0 <= k < |ends| && IsFirst(ends, k) && Roomy(s.q, s.caps, ends[k].work.copy.seg)
      ensures NeverOver(ends, ends[k].work.copy.seg)
    {
      if t.first.Some? {
        var i :| 0 <= i < |t.ends| && IsFirst(t.ends, i) && t.ends[i].work.copy.seg == t.first.value;
        FirstIsOne(t.ends, late, i, k);
      } else {
        LateFirst(t, s, k);
      }
    }
  }

  lemma LateFirst(t: Turn, s: Setting, k: nat)
    requires Coupled(t) && First(t) && t.first.None? && Reserved(t, s.caps, s.q)
    requires IsFirst(t.ends + OutOfTimeEnds(t.rest), k)
    ensures NeverOver(t.ends + OutOfTimeEnds(t.rest), (t.ends + OutOfTimeEnds(t.rest))[k].work.copy.seg)
  {
    hide Pair;
    hide Roomy;
    var late := OutOfTimeEnds(t.rest);
    var ends := t.ends + late;
    assert forall j :: 0 <= j < |t.ends| ==> ends[j] == t.ends[j] && t.ends[j] in t.ends;
    assert ends[k] == late[k - |t.ends|] && ends[k].work in t.rest;
    forall e | e in ends && e.work.copy.seg == ends[k].work.copy.seg ensures e.outcome != DeferredBudget {
      if e in t.ends {
        assert e.work.tier == RECENT;
      } else {
        assert e in late;
      }
    }
  }
}
