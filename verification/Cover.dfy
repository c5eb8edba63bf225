/** Whether a chain of segments can be restored to a point in time, and what that applies. */
module Cover {
  import opened Wrappers
  import opened Intervals
  import opened GtidSets

  /** An event as the coverage scan keeps it; `when` 0 is the zero time. */
  datatype CoverEvent = CoverEvent(uuid: string, seqNo: int, when: nat, counts: bool, end: nat)

  datatype CoverSegment = CoverSegment(name: string, source: string, readable: bool, events: seq<CoverEvent>)

  datatype Break = Break(files: seq<string>, reason: string)

  datatype Reason = Empty | Before | After | AtBreak(reason: string) | NotReadable(name: string)

  datatype Answer =
    | Uncovered(why: Reason)
    | Covered(segments: seq<string>, stopSeg: nat, stopPos: nat, applied: Sets)

  predicate Bounded(segs: seq<CoverSegment>) {
    forall i, j :: 0 <= i < |segs| && 0 <= j < |segs[i].events| ==> segs[i].events[j].seqNo < MAX64
  }

  ghost predicate CopiedAt(segs: seq<CoverSegment>, i: nat, j: nat) {
    i < |segs| && j < |segs[i].events| && segs[i].events[j].counts && segs[i].events[j].when != 0
  }

  ghost predicate Seen(segs: seq<CoverSegment>, i: nat, j: nat, when: nat) {
    CopiedAt(segs, i, j) && segs[i].events[j].when == when
  }

  /** A copied event not after `at`. */
  ghost predicate Hit(segs: seq<CoverSegment>, at: int, i: nat, j: nat) {
    CopiedAt(segs, i, j) && segs[i].events[j].when <= at
  }

  /** The last such event in chain order. */
  ghost predicate IsStop(segs: seq<CoverSegment>, at: int, i: nat, j: nat) {
    Hit(segs, at, i, j) && forall a: nat, b: nat :: Hit(segs, at, a, b) ==> a < i || (a == i && b <= j)
  }

  ghost predicate WithinWindow(segs: seq<CoverSegment>, at: int) {
    && (exists i: nat, j: nat :: Hit(segs, at, i, j))
    && (exists i: nat, j: nat :: CopiedAt(segs, i, j) && at <= segs[i].events[j].when)
  }

  predicate NamedBy(s: CoverSegment, files: seq<string>) {
    exists f :: f in files && f != "" && (f == s.name || f == s.source)
  }

  /** A segment is named by its own name or by its source file, never by an empty name. */
  lemma NamedIs(s: CoverSegment, files: seq<string>)
    ensures NamedBy(s, files) <==> (s.name != "" && s.name in files) || (s.source != "" && s.source in files)
  {
  }

  /** The break cuts the chain at or before `stop`: the last segment it names is no later. */
  ghost predicate Cuts(segs: seq<CoverSegment>, b: Break, stop: nat) {
    exists c: nat :: c <= stop && CutsAt(segs, b, c)
  }

  /** The last segment it names. */
  ghost predicate CutsAt(segs: seq<CoverSegment>, b: Break, c: nat) {
    c < |segs| && NamedBy(segs[c], b.files) && forall d :: c < d < |segs| ==> !NamedBy(segs[d], b.files)
  }

  /**
   The reason of the first break that cuts at or before `stop`. The empty text
   stands for no break, also when it is that reason.
   */
  ghost function CutReason(segs: seq<CoverSegment>, breaks: seq<Break>, stop: nat): string {
    if breaks == [] then ""
    else if Cuts(segs, breaks[0], stop) then breaks[0].reason
    else CutReason(segs, breaks[1..], stop)
  }

  /** The first break that cuts at or before `stop`, or -1. */
  lemma {:induction false} FirstCut(segs: seq<CoverSegment>, breaks: seq<Break>, stop: nat) returns (i: int)
    ensures -1 <= i < |breaks|
    ensures i < 0 ==> CutReason(segs, breaks, stop) == ""
    ensures i < 0 ==> forall k :: 0 <= k < |breaks| ==> !Cuts(segs, breaks[k], stop)
    ensures i >= 0 ==> CutReason(segs, breaks, stop) == breaks[i].reason && Cuts(segs, breaks[i], stop)
    ensures i >= 0 ==> forall k :: 0 <= k < i ==> !Cuts(segs, breaks[k], stop)
  {
    hide Cuts;
    if breaks == [] {
      i := -1;
    } else if Cuts(segs, breaks[0], stop) {
      i := 0;
    } else {
      i := FirstCut(segs, breaks[1..], stop);
      if i >= 0 {
        i := i + 1;
      }
    }
  }

  /** The break is the first to cut at the segment where it cuts. */
  ghost predicate Leads(segs: seq<CoverSegment>, breaks: seq<Break>, i: nat) {
    i < |breaks| && exists c: nat :: CutsAt(segs, breaks[i], c) && forall k :: 0 <= k < i ==> !Cuts(segs, breaks[k], c)
  }

  /** A leading break without a reason stands before a leading break with one. */
  ghost predicate Hides(segs: seq<CoverSegment>, breaks: seq<Break>) {
    exists i: nat, j: nat :: i < j && Leads(segs, breaks, i) && Leads(segs, breaks, j) && breaks[i].reason == ""
        && breaks[j].reason != ""
  }

  /** A stop before a whole one is whole. */
  ghost predicate DownClosed(segs: seq<CoverSegment>, breaks: seq<Break>) {
    forall a: nat, b: nat :: a <= b < |segs| && CutReason(segs, breaks, b) == "" ==> CutReason(segs, breaks, a) == ""
  }

  /** Cutting at a stop is cutting at every later one. */
  lemma CutsLater(segs: seq<CoverSegment>, b: Break, stop: nat, later: nat)
    requires Cuts(segs, b, stop) && stop <= later
    ensures Cuts(segs, b, later)
  {
  }

  lemma FirstCutLeads(segs: seq<CoverSegment>, breaks: seq<Break>, i: nat, stop: nat)
    requires i < |breaks| && Cuts(segs, breaks[i], stop) && forall k :: 0 <= k < i ==> !Cuts(segs, breaks[k], stop)
    ensures Leads(segs, breaks, i)
  {
    var c: nat :| c <= stop && CutsAt(segs, breaks[i], c);
    forall k | 0 <= k < i ensures !Cuts(segs, breaks[k], c) {
      if Cuts(segs, breaks[k], c) {
        CutsLater(segs, breaks[k], c, stop);
      }
    }
  }

  lemma LeaderDecides(segs: seq<CoverSegment>, breaks: seq<Break>, i: nat) returns (c: nat)
    requires Leads(segs, breaks, i)
    ensures c < |segs| && CutsAt(segs, breaks[i], c) && CutReason(segs, breaks, c) == breaks[i].reason
    ensures forall k :: 0 <= k < i ==> !Cuts(segs, breaks[k], c)
  {
    c :| CutsAt(segs, breaks[i], c) && forall k :: 0 <= k < i ==> !Cuts(segs, breaks[k], c);
    assert Cuts(segs, breaks[i], c);
    var f := FirstCut(segs, breaks, c);
    assert f == i;
  }

  /** Stops are downward closed if and only if no leading break without a reason hides one with a reason. */
  lemma DownClosedIff(segs: seq<CoverSegment>, breaks: seq<Break>)
    ensures DownClosed(segs, breaks) <==> !Hides(segs, breaks)
  {
    hide Cuts;
    if Hides(segs, breaks) {
      var i: nat, j: nat :| i < j && Leads(segs, breaks, i) && Leads(segs, breaks, j) && breaks[i].reason == ""
          && breaks[j].reason != "";
      var b := LeaderDecides(segs, breaks, i);
      var a := LeaderDecides(segs, breaks, j);
      if b < a {
        CutsFrom(segs, breaks[i], b, a);
      }
    } else {
      forall a: nat, b: nat | a <= b < |segs| && CutReason(segs, breaks, b) == ""
        ensures CutReason(segs, breaks, a) == ""
      {
        Unhidden(segs, breaks, a, b);
      }
    }
  }

  lemma CutsFrom(segs: seq<CoverSegment>, b: Break, c: nat, stop: nat)
    requires CutsAt(segs, b, c) && c <= stop
    ensures Cuts(segs, b, stop)
  {
  }

  lemma Unhidden(segs: seq<CoverSegment>, breaks: seq<Break>, a: nat, b: nat)
    requires !Hides(segs, breaks) && a <= b < |segs| && CutReason(segs, breaks, b) == ""
    ensures CutReason(segs, breaks, a) == ""
  {
    hide Cuts;
    hide Leads;
    var j := FirstCut(segs, breaks, a);
    if j >= 0 && breaks[j].reason != "" {
      FirstCutLeads(segs, breaks, j, a);
      CutsLater(segs, breaks[j], a, b);
      var i := FirstCut(segs, breaks, b);
      FirstCutLeads(segs, breaks, i, b);
    }
  }

  /** The transaction is in a restore through `stop`, where events after `at` are left out. */
  ghost predicate Applies(segs: seq<CoverSegment>, at: int, stop: nat, k: string, x: int) {
    exists i: nat, j: nat :: i <= stop && i < |segs| && j < |segs[i].events|
        && Takes(segs[i].events[j], i == stop, at, k, x)
  }

  ghost predicate Takes(e: CoverEvent, atStop: bool, at: int, k: string, x: int) {
    e.uuid == k != "" && e.seqNo == x > 0 && (atStop ==> e.when <= at)
  }

  /** The restore through segment `stop` is possible. */
  ghost predicate Restorable(segs: seq<CoverSegment>, breaks: seq<Break>, stop: nat) {
    && stop < |segs|
    && CutReason(segs, breaks, stop) == ""
    && (forall i :: 0 <= i <= stop ==> segs[i].readable)
  }

  /** Time `at` is in the window and the restore through its stop is possible. */
  ghost predicate CoveredAt(segs: seq<CoverSegment>, breaks: seq<Break>, at: int) {
    WithinWindow(segs, at) && exists i: nat, j: nat :: IsStop(segs, at, i, j) && Restorable(segs, breaks, i)
  }

  /** The answer stops at event `j` of its last segment. */
  ghost predicate StopsAt(segs: seq<CoverSegment>, at: int, r: Answer, j: nat) {
    r.Covered? && IsStop(segs, at, r.stopSeg, j) && segs[r.stopSeg].events[j].end == r.stopPos
  }

  /** What the answer for time `at` has to be. */
  ghost predicate Answers(segs: seq<CoverSegment>, breaks: seq<Break>, at: int, r: Answer) {
    && (r.Covered? <==> CoveredAt(segs, breaks, at))
    && (r.Covered? ==>
          && r.stopSeg < |segs| && |r.segments| == r.stopSeg + 1
          && (forall i :: 0 <= i <= r.stopSeg ==> r.segments[i] == segs[i].name)
          && (exists j: nat :: StopsAt(segs, at, r, j))
          && Good(r.applied) && forall k, x :: Mem(r.applied, k, x) <==> Applies(segs, at, r.stopSeg, k, x))
  }

  /** The index of the last segment the files name. */
  method LastNamed(segs: seq<CoverSegment>, files: seq<string>) returns (c: Option<nat>)
    ensures c.None? <==> forall i :: 0 <= i < |segs| ==> !NamedBy(segs[i], files)
    ensures c.Some? ==> c.value < |segs| && NamedBy(segs[c.value], files)
    ensures c.Some? ==> forall d :: c.value < d < |segs| ==> !NamedBy(segs[d], files)
  {
    c := None;
    for i := 0 to |segs|
      invariant c.None? <==> forall k :: 0 <= k < i ==> !NamedBy(segs[k], files)
      invariant c.Some? ==> c.value < i && NamedBy(segs[c.value], files)
      invariant c.Some? ==> forall d :: c.value < d < i ==> !NamedBy(segs[d], files)
    {
      if NamedBy(segs[i], files) {
        c := Some(i);
      }
    }
  }

  method BreakAt(segs: seq<CoverSegment>, stop: nat, breaks: seq<Break>) returns (r: string)
    ensures r == CutReason(segs, breaks, stop)
  {
    assert breaks[0..] == breaks;
    for i := 0 to |breaks|
      invariant CutReason(segs, breaks, stop) == CutReason(segs, breaks[i..], stop)
    {
      assert breaks[i..][0] == breaks[i] && breaks[i..][1..] == breaks[i+1..];
      var c := LastNamed(segs, breaks[i].files);
      if c.None? {
        continue;
      }
      if stop >= c.value {
        assert CutsAt(segs, breaks[i], c.value);
        return breaks[i].reason;
      }
    }
    return "";
  }

  method Window(segs: seq<CoverSegment>) returns (w: Option<(nat, nat)>)
    ensures w.None? <==> forall i: nat, j: nat :: !CopiedAt(segs, i, j)
    ensures w.Some? ==> IsWindow(segs, w.value.0, w.value.1)
  {
    w := None;
    ghost var ei: nat, ej: nat, li: nat, lj: nat := 0, 0, 0, 0;
    for i := 0 to |segs|
      invariant w.None? <==> forall a: nat, b: nat :: a < i ==> !CopiedAt(segs, a, b)
      invariant w.Some? ==> Seen(segs, ei, ej, w.value.0) && Seen(segs, li, lj, w.value.1)
      invariant w.Some? ==> forall a: nat, b: nat :: a < i && CopiedAt(segs, a, b) ==>
                w.value.0 <= segs[a].events[b].when <= w.value.1
    {
      for j := 0 to |segs[i].events|
        invariant w.None? <==> forall a: nat, b: nat :: a < i || (a == i && b < j) ==> !CopiedAt(segs, a, b)
        invariant w.Some? ==> Seen(segs, ei, ej, w.value.0) && Seen(segs, li, lj, w.value.1)
        invariant w.Some? ==> forall a: nat, b: nat :: (a < i || (a == i && b < j)) && CopiedAt(segs, a, b) ==>
          w.value.0 <= segs[a].events[b].when <= w.value.1
      {
        var e := segs[i].events[j];
        if !e.counts || e.when == 0 {
          continue;
        }
        assert CopiedAt(segs, i, j);
        if w.None? || e.when < w.value.0 {
          w := Some((e.when, if w.None? then e.when else w.value.1));
          ei, ej := i, j;
          if w.value.1 == e.when {
            li, lj := i, j;
          }
        }
        if e.when > w.value.1 {
          w := Some((w.value.0, e.when));
          li, lj := i, j;
        }
      }
    }
  }

  ghost predicate IsWindow(segs: seq<CoverSegment>, earliest: nat, latest: nat) {
    && (exists i: nat, j: nat :: CopiedAt(segs, i, j) && segs[i].events[j].when == earliest)
    && (exists i: nat, j: nat :: CopiedAt(segs, i, j) && segs[i].events[j].when == latest)
    && (forall i: nat, j: nat :: CopiedAt(segs, i, j) ==> earliest <= segs[i].events[j].when <= latest)
  }

  lemma WindowBounds(segs: seq<CoverSegment>, earliest: nat, latest: nat, at: int)
    requires IsWindow(segs, earliest, latest)
    ensures WithinWindow(segs, at) <==> earliest <= at <= latest
  {
    var i: nat, j: nat :| CopiedAt(segs, i, j) && segs[i].events[j].when == earliest;
    assert earliest <= at ==> Hit(segs, at, i, j);
  }

  method FindStop(segs: seq<CoverSegment>, at: int) returns (r: Option<(nat, nat)>)
    ensures r.None? <==> forall i: nat, j: nat :: !Hit(segs, at, i, j)
    ensures r.Some? ==> exists j: nat :: IsStop(segs, at, r.value.0, j) && segs[r.value.0].events[j].end == r.value.1
  {
    r := None;
    ghost var sj: nat := 0;
    for i := 0 to |segs|
      invariant r.None? <==> forall a: nat, b: nat :: a < i ==> !Hit(segs, at, a, b)
      invariant r.Some? ==> r.value.0 < i && Hit(segs, at, r.value.0, sj) && segs[r.value.0].events[sj].end == r.value.1
      invariant r.Some? ==> forall a: nat, b: nat :: a < i && Hit(segs, at, a, b) ==>
                a < r.value.0 || (a == r.value.0 && b <= sj)
    {
      for j := 0 to |segs[i].events|
        invariant r.None? <==> forall a: nat, b: nat :: a < i || (a == i && b < j) ==> !Hit(segs, at, a, b)
        invariant r.Some? ==>
                    r.value.0 <= i && Hit(segs, at, r.value.0, sj) && segs[r.value.0].events[sj].end == r.value.1
        invariant r.Some? ==> forall a: nat, b: nat :: (a < i || (a == i && b < j)) && Hit(segs, at, a, b) ==>
          a < r.value.0 || (a == r.value.0 && b <= sj)
      {
        var e := segs[i].events[j];
        if !e.counts || e.when == 0 || e.when > at {
          continue;
        }
        assert Hit(segs, at, i, j);
        r := Some((i, e.end));
        sj := j;
      }
    }
    if r.Some? {
      assert IsStop(segs, at, r.value.0, sj);
    }
  }

  method Applied(segs: seq<CoverSegment>, at: int, stop: nat) returns (names: seq<string>, applied: Sets)
    requires stop < |segs| && Bounded(segs)
    ensures |names| == stop + 1 && forall i :: 0 <= i <= stop ==> names[i] == segs[i].name
    ensures Good(applied) && forall k, x :: Mem(applied, k, x) <==> Applies(segs, at, stop, k, x)
  {
    names := [];
    var out := new GtidSet();
    for i := 0 to stop + 1
      invariant |names| == i && forall a :: 0 <= a < i ==> names[a] == segs[a].name
      invariant Good(out.m) && fresh(out)
      invariant forall k, x :: Mem(out.m, k, x) <==> AppliesBefore(segs, at, stop, i, 0, k, x)
    {
      names := names + [segs[i].name];
      for j := 0 to |segs[i].events|
        invariant Good(out.m) && fresh(out)
        invariant forall k, x :: Mem(out.m, k, x) <==> AppliesBefore(segs, at, stop, i, j, k, x)
      {
        var e := segs[i].events[j];
        AppliesNext(segs, at, stop, i, j);
        if e.seqNo <= 0 || e.uuid == "" || (i == stop && e.when > at) {
          continue;
        }
        out.Add(e.uuid, e.seqNo, e.seqNo);
      }
      AppliesRow(segs, at, stop, i);
    }
    applied := out.m;
  }

  /** Applies, by an event before event `j` of segment `i`. */
  ghost predicate AppliesBefore(segs: seq<CoverSegment>, at: int, stop: nat, i: nat, j: nat, k: string, x: int) {
    exists a: nat, b: nat :: (a < i || (a == i && b < j)) && a <= stop && a < |segs| && b < |segs[a].events|
                             && Takes(segs[a].events[b], a == stop, at, k, x)
  }

  lemma AppliesNext(segs: seq<CoverSegment>, at: int, stop: nat, i: nat, j: nat)
    requires i <= stop < |segs| && j < |segs[i].events|
    ensures forall k, x :: AppliesBefore(segs, at, stop, i, j + 1, k, x) <==>
              AppliesBefore(segs, at, stop, i, j, k, x) || Takes(segs[i].events[j], i == stop, at, k, x)
  {
  }

  lemma AppliesRow(segs: seq<CoverSegment>, at: int, stop: nat, i: nat)
    requires i <= stop < |segs|
    ensures forall k, x :: AppliesBefore(segs, at, stop, i + 1, 0, k, x) <==>
              AppliesBefore(segs, at, stop, i, |segs[i].events|, k, x)
  {
  }

  lemma StopIsUnique(segs: seq<CoverSegment>, at: int, i: nat, j: nat, a: nat, b: nat)
    requires IsStop(segs, at, i, j) && IsStop(segs, at, a, b)
    ensures i == a && j == b
  {
  }

  method CoverTime(segs: seq<CoverSegment>, at: int, breaks: seq<Break>) returns (r: Answer)
    requires Bounded(segs)
    ensures Answers(segs, breaks, at, r)
  {
    var w := Window(segs);
    if w.None? {
      return Uncovered(Empty);
    }
    WindowBounds(segs, w.value.0, w.value.1, at);
    if at < w.value.0 {
      return Uncovered(Before);
    }
    if at > w.value.1 {
      return Uncovered(After);
    }
    assert WithinWindow(segs, at);
    var stop := FindStop(segs, at);
    if stop.None? {
      return Uncovered(Before);
    }
    r := Finish(segs, at, stop.value.0, stop.value.1, breaks);
  }

  method Finish(segs: seq<CoverSegment>, at: int, stopSeg: nat, stopPos: nat, breaks: seq<Break>) returns (r: Answer)
    requires Bounded(segs) && WithinWindow(segs, at)
    requires exists j: nat :: IsStop(segs, at, stopSeg, j) && segs[stopSeg].events[j].end == stopPos
    ensures Answers(segs, breaks, at, r)
  {
    ghost var j: nat :| IsStop(segs, at, stopSeg, j) && segs[stopSeg].events[j].end == stopPos;
    forall a: nat, b: nat | IsStop(segs, at, a, b) ensures a == stopSeg { StopIsUnique(segs, at, stopSeg, j, a, b); }
    var cut := BreakAt(segs, stopSeg, breaks);
    if cut != "" {
      return Uncovered(AtBreak(cut));
    }
    for i := 0 to stopSeg + 1
      invariant forall a :: 0 <= a < i ==> segs[a].readable
    {
      if !segs[i].readable {
        return Uncovered(NotReadable(segs[i].name));
      }
    }
    var names, applied := Applied(segs, at, stopSeg);
    assert Restorable(segs, breaks, stopSeg);
    r := Covered(names, stopSeg, stopPos, applied);
    assert StopsAt(segs, at, r, j);
  }

  /**
   Coverage by time is monotone: an earlier time inside the window of a covered
   one, when it is covered too, is so by a prefix of its segments, with a stop
   that is not later and with a subset of its transactions; and it is covered,
   unless a break without a reason hides one with a reason.
   */
  lemma CoverageIsMonotone(segs: seq<CoverSegment>, breaks: seq<Break>, at1: int, at2: int, r1: Answer, r2: Answer)
    requires Answers(segs, breaks, at1, r1) && Answers(segs, breaks, at2, r2)
    requires r2.Covered? && at1 <= at2 && exists i: nat, j: nat :: Hit(segs, at1, i, j)
    ensures !Hides(segs, breaks) ==> r1.Covered?
    ensures r1.Covered? ==> r1.segments <= r2.segments && r1.stopSeg <= r2.stopSeg
    ensures r1.Covered? ==> forall k, x :: Mem(r1.applied, k, x) ==> Mem(r2.applied, k, x)
    ensures r1.Covered? && r1.stopSeg == r2.stopSeg ==>
              exists j1: nat, j2: nat :: j1 <= j2 && StopsAt(segs, at1, r1, j1) && StopsAt(segs, at2, r2, j2)
  {
    if !Hides(segs, breaks) {
      EarlierIsCovered(segs, breaks, at1, at2);
    }
    if r1.Covered? {
      var j1: nat :| StopsAt(segs, at1, r1, j1);
      var j2: nat :| StopsAt(segs, at2, r2, j2);
      assert Hit(segs, at2, r1.stopSeg, j1);
      EarlierApplies(segs, at1, at2, r1.stopSeg, r2.stopSeg);
    }
  }

  lemma EarlierIsCovered(segs: seq<CoverSegment>, breaks: seq<Break>, at1: int, at2: int)
    requires !Hides(segs, breaks) && CoveredAt(segs, breaks, at2) && at1 <= at2
    requires exists i: nat, j: nat :: Hit(segs, at1, i, j)
    ensures CoveredAt(segs, breaks, at1)
  {
    var i2: nat, j2: nat :| IsStop(segs, at2, i2, j2) && Restorable(segs, breaks, i2);
    var i1, j1 := StopExists(segs, at1);
    assert Hit(segs, at2, i1, j1);
    assert WithinWindow(segs, at1) by {
      var i: nat, j: nat :| CopiedAt(segs, i, j) && at2 <= segs[i].events[j].when;
      assert at1 <= segs[i].events[j].when;
    }
    DownClosedIff(segs, breaks);
    assert Restorable(segs, breaks, i1);
  }

  lemma EarlierApplies(segs: seq<CoverSegment>, at1: int, at2: int, stop1: nat, stop2: nat)
    requires at1 <= at2 && stop1 <= stop2 < |segs|
    ensures forall k, x :: Applies(segs, at1, stop1, k, x) ==> Applies(segs, at2, stop2, k, x)
  {
    forall k, x | Applies(segs, at1, stop1, k, x) ensures Applies(segs, at2, stop2, k, x) {
      var i: nat, j: nat :| i <= stop1 && i < |segs| && j < |segs[i].events|
          && Takes(segs[i].events[j], i == stop1, at1, k, x);
      assert Takes(segs[i].events[j], i == stop2, at2, k, x);
    }
  }

  /** Some hit is the last one. */
  lemma StopExists(segs: seq<CoverSegment>, at: int) returns (i: nat, j: nat)
    requires exists a: nat, b: nat :: Hit(segs, at, a, b)
    ensures IsStop(segs, at, i, j)
  {
    i, j :| Hit(segs, at, i, j);
    while !IsStop(segs, at, i, j)
      invariant Hit(segs, at, i, j)
      decreases |segs| - i, |segs[i].events| - j
    {
      var a: nat, b: nat :| Hit(segs, at, a, b) && !(a < i || (a == i && b <= j));
      i, j := a, b;
    }
  }

  // ---- Exactly when coverage is monotone in time -----------------------------------

  /** An earlier time in the window of a covered one is covered. */
  ghost predicate Monotone(segs: seq<CoverSegment>, breaks: seq<Break>) {
    forall at1: int, at2: int ::
      at1 <= at2 && WithinWindow(segs, at1) && CoveredAt(segs, breaks, at2) ==> CoveredAt(segs, breaks, at1)
  }

  /** The segments of the same files, with any events and readable or not. */
  ghost predicate SameNames(segs: seq<CoverSegment>, s: seq<CoverSegment>) {
    |s| == |segs| && forall i :: 0 <= i < |segs| ==> s[i].name == segs[i].name && s[i].source == segs[i].source
  }

  lemma {:induction false} CutReasonByName(segs: seq<CoverSegment>, s: seq<CoverSegment>, breaks: seq<Break>, stop: nat)
    requires SameNames(segs, s)
    ensures CutReason(s, breaks, stop) == CutReason(segs, breaks, stop)
  {
    if breaks == [] {
    } else {
      CutReasonByName(segs, s, breaks[1..], stop);
      CutsByName(segs, s, breaks[0]);
      assert Cuts(segs, breaks[0], stop) <==> Cuts(s, breaks[0], stop);
    }
  }

  lemma CutsByName(segs: seq<CoverSegment>, s: seq<CoverSegment>, b: Break)
    requires SameNames(segs, s)
    ensures forall c: nat :: CutsAt(segs, b, c) <==> CutsAt(s, b, c)
  {
    assert forall i :: 0 <= i < |segs| ==> (NamedBy(s[i], b.files) <==> NamedBy(segs[i], b.files));
  }

  function EventAt(when: nat): CoverEvent { CoverEvent("", 0, when, true, 4) }

  /** The files of `segs`, all readable, with an event at time 1 in segment `a` and one at time 2 in segment `b`. */
  function TwoEvents(segs: seq<CoverSegment>, a: nat, b: nat): seq<CoverSegment> {
    seq(|segs|, i requires 0 <= i < |segs| =>
      CoverSegment(segs[i].name, segs[i].source, true,
                   if i == a then [EventAt(1)] else if i == b then [EventAt(2)] else []))
  }

  /**
   Where the earlier of two segments is behind a break and the later one is
   not, the time of the later event alone is covered.
   */
  lemma LaterTimeCovered(segs: seq<CoverSegment>, breaks: seq<Break>, a: nat, b: nat)
    requires a < b < |segs| && CutReason(segs, breaks, a) != "" && CutReason(segs, breaks, b) == ""
    ensures var s := TwoEvents(segs, a, b);
            SameNames(segs, s) && WithinWindow(s, 1) && !CoveredAt(s, breaks, 1) && CoveredAt(s, breaks, 2)
  {
    var s := TwoEvents(segs, a, b);
    CutReasonByName(segs, s, breaks, a);
    CutReasonByName(segs, s, breaks, b);
    assert CopiedAt(s, a, 0) && CopiedAt(s, b, 0);
    assert IsStop(s, 1, a, 0) && IsStop(s, 2, b, 0);
    assert Restorable(s, breaks, b);
    forall i: nat, j: nat | IsStop(s, 1, i, j) ensures !Restorable(s, breaks, i) {
      StopIsUnique(s, 1, a, 0, i, j);
    }
  }

  /**
   Exactly which break lists leave coverage monotone in time, whatever the
   files hold: those in which no break without a reason hides one with a reason.
   */
  lemma MonotoneIff(segs: seq<CoverSegment>, breaks: seq<Break>)
    ensures !Hides(segs, breaks) <==> forall s :: SameNames(segs, s) ==> Monotone(s, breaks)
  {
    hide CutReason;
    if Hides(segs, breaks) {
      DownClosedIff(segs, breaks);
      var a: nat, b: nat :| a <= b < |segs| && CutReason(segs, breaks, b) == "" && CutReason(segs, breaks, a) != "";
      LaterTimeCovered(segs, breaks, a, b);
      var s := TwoEvents(segs, a, b);
      assert SameNames(segs, s) && !Monotone(s, breaks);
    } else {
      forall s | SameNames(segs, s) ensures Monotone(s, breaks) {
        HidesByName(segs, s, breaks);
        forall at1: int, at2: int | at1 <= at2 && WithinWindow(s, at1) && CoveredAt(s, breaks, at2)
          ensures CoveredAt(s, breaks, at1)
        {
          EarlierIsCovered(s, breaks, at1, at2);
        }
      }
    }
  }

  lemma HidesByName(segs: seq<CoverSegment>, s: seq<CoverSegment>, breaks: seq<Break>)
    requires SameNames(segs, s)
    ensures Hides(segs, breaks) <==> Hides(s, breaks)
  {
    hide CutReason;
    DownClosedIff(segs, breaks);
    DownClosedIff(s, breaks);
    forall stop: nat ensures CutReason(s, breaks, stop) == CutReason(segs, breaks, stop) {
      CutReasonByName(segs, s, breaks, stop);
    }
  }

  /**
   A break without a reason hides the breaks after it: here time 2 is covered
   and the earlier time 1, inside the window, is not.
   */
  lemma EmptyReasonHidesABreak()
    ensures var segs := [CoverSegment("a", "", true, [EventAt(1)]), CoverSegment("b", "", true, [EventAt(2)])];
            var breaks := [Break(["b"], ""), Break(["a"], "gap")];
            WithinWindow(segs, 1) && !CoveredAt(segs, breaks, 1) && CoveredAt(segs, breaks, 2)
  {
    var a, b := CoverSegment("a", "", true, [EventAt(1)]), CoverSegment("b", "", true, [EventAt(2)]);
    var segs, first, second := [a, b], Break(["b"], ""), Break(["a"], "gap");
    assert "a" in second.files && "b" in first.files;
    assert NamedBy(b, first.files) && !NamedBy(a, first.files) && NamedBy(a, second.files) && !NamedBy(b, second.files);
    assert segs[0] == a && segs[1] == b;
    assert CutsAt(segs, first, 1) && !CutsAt(segs, first, 0) && CutsAt(segs, second, 0);
    assert Cuts(segs, first, 1) && !Cuts(segs, first, 0) && Cuts(segs, second, 0);
    assert [first, second][1..] == [second];
    assert CutReason(segs, [second], 0) == "gap";
    LaterTimeCovered(segs, [first, second], 0, 1);
    assert TwoEvents(segs, 0, 1) == segs;
  }
}
