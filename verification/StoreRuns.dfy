/**
 What the health file keeps over every sequence of calls, and what reconciling
 again after an apply gives.
 */
module StoreRuns {
  import opened Wrappers
  import opened Findings
  import opened Fences
  import opened FileStores
  import opened Reconciles

  // ---- One apply -----------------------------------------------------------------

  lemma LoggedAfterOne(w: Work, task: string, t: Transition, now: int, d: Digest)
    ensures Logged(ApplyOne(w, task, t, now).log, task, d) <==> Logged(w.log, task, d) || DigestOf(task, t) == d
  {
    hide DigestOf;
    hide Put;
    LogPush(w.log, task, LogOf(task, t, w.generation + 1, now));
  }

  lemma {:induction false} LoggedAfter(w: Work, task: string, ts: seq<Transition>, now: int, d: Digest)
    ensures Logged(ApplyAll(w, task, ts, now).log, task, d) <==>
              Logged(w.log, task, d) || exists j :: 0 <= j < |ts| && DigestOf(task, ts[j]) == d
  {
    hide DigestOf;
    hide Logged;
    hide ApplyOne;
    if ts == [] {
    } else {
      var n := |ts| - 1;
      LoggedAfter(w, task, ts[..n], now, d);
      LoggedAfterOne(ApplyAll(w, task, ts[..n], now), task, ts[n], now, d);
      assert forall j :: 0 <= j < n ==> ts[..n][j] == ts[j];
      assert (exists j :: 0 <= j < |ts| && DigestOf(task, ts[j]) == d) <==>
             (DigestOf(task, ts[n]) == d || exists j :: 0 <= j < n && DigestOf(task, ts[..n][j]) == d);
    }
  }

  /** The call skips this transition: its content is in the log, or earlier in the call. */
  ghost predicate Replay(log: seq<LogRow>, task: string, ts: seq<Transition>, i: nat)
    requires i < |ts|
  {
    Logged(log, task, DigestOf(task, ts[i])) || exists j :: 0 <= j < i && DigestOf(task, ts[j]) == DigestOf(task, ts[i])
  }

  lemma OneGeneration(w: Work, task: string, t: Transition, now: int)
    ensures var after, n := ApplyOne(w, task, t, now), |w.generations|;
            && |after.generations| == n + 1 && after.generations[..n] == w.generations
            && after.generations[n] == if Logged(w.log, task, DigestOf(task, t)) then 0 else w.generation + 1
  {
    hide DigestOf;
    hide Put;
    hide Logged;
  }

  /** Generation 0 marks exactly the replays; every other transition takes the next number. */
  lemma {:induction false} ZeroIffReplay(w: Work, task: string, ts: seq<Transition>, now: int, i: nat)
    requires i < |ts| && w.generations == []
    ensures var after := ApplyAll(w, task, ts, now);
            && (after.generations[i] == 0 <==> Replay(w.log, task, ts, i))
            && (after.generations[i] != 0 ==> after.generations[i] == ApplyAll(w, task, ts[..i], now).generation + 1)
  {
    hide DigestOf;
    hide ApplyOne;
    hide Logged;
    var n := |ts| - 1;
    OneGeneration(ApplyAll(w, task, ts[..n], now), task, ts[n], now);
    if i < n {
      ZeroIffReplay(w, task, ts[..n], now, i);
      assert ts[..n][..i] == ts[..i];
      assert forall j :: 0 <= j <= i ==> ts[..n][j] == ts[j];
      assert ApplyAll(w, task, ts[..n], now).generations[i] == ApplyAll(w, task, ts, now).generations[i];
      assert Replay(w.log, task, ts[..n], i) <==> Replay(w.log, task, ts, i);
    } else {
      LoggedAfter(w, task, ts[..n], now, DigestOf(task, ts[n]));
      assert forall j :: 0 <= j < n ==> ts[..n][j] == ts[j];
    }
  }

  /** A call of replays alone changes no finding and takes no number. */
  lemma {:induction false} ReplaysChangeNothing(w: Work, task: string, ts: seq<Transition>, now: int)
    requires forall i :: 0 <= i < |ts| ==> Logged(w.log, task, DigestOf(task, ts[i]))
    ensures var after := ApplyAll(w, task, ts, now);
            after.rows == w.rows && after.log == w.log && after.generation == w.generation
  {
    hide DigestOf;
    hide Put;
    if ts == [] {
    } else {
      ReplaysChangeNothing(w, task, ts[..|ts|-1], now);
    }
  }

  // ---- Numbering -----------------------------------------------------------------

  /** The rows of the task carry the numbers from+1, from+2, ... to, in this order. */
  ghost predicate Numbered(rows: seq<LogRow>, task: string, from: int, to: int) {
    if rows == [] then from == to
    else if rows[|rows|-1].task == task then rows[|rows|-1].generation == to
        && Numbered(rows[..|rows|-1], task, from, to - 1)
    else Numbered(rows[..|rows|-1], task, from, to)
  }

  lemma {:induction false} NumberedConcat(a: seq<LogRow>, b: seq<LogRow>, task: string, from: int, mid: int, to: int)
    requires Numbered(a, task, from, mid) && Numbered(b, task, mid, to)
    ensures Numbered(a + b, task, from, to)
  {
    if b == [] {
      assert a + b == a;
    } else {
      var n := |b| - 1;
      assert (a + b)[..|a + b| - 1] == a + b[..n] && (a + b)[|a + b| - 1] == b[n];
      NumberedConcat(a, b[..n], task, from, mid, if b[n].task == task then to - 1 else to);
    }
  }

  ghost predicate Between(rows: seq<LogRow>, task: string, from: int, to: int) {
    && (forall i :: 0 <= i < |rows| && rows[i].task == task ==> from < rows[i].generation <= to)
    && (forall i, j :: 0 <= i < j < |rows| && rows[i].task == rows[j].task == task ==>
          rows[i].generation < rows[j].generation)
    && (forall g :: from < g <= to ==> Has(rows, task, g))
  }

  ghost predicate Has(rows: seq<LogRow>, task: string, g: int) {
    exists i :: 0 <= i < |rows| && rows[i].task == task && rows[i].generation == g
  }

  lemma {:induction false} NumberedMeans(rows: seq<LogRow>, task: string, from: int, to: int)
    requires Numbered(rows, task, from, to)
    ensures from <= to && Between(rows, task, from, to)
  {
    if rows == [] {
    } else {
      var n := |rows| - 1;
      var rest, top := rows[..n], if rows[n].task == task then to - 1 else to;
      NumberedMeans(rest, task, from, top);
      BetweenPush(rest, rows[n], task, from, top);
      assert rows == rest + [rows[n]];
    }
  }

  lemma BetweenPush(rest: seq<LogRow>, row: LogRow, task: string, from: int, top: int)
    requires from <= top && Between(rest, task, from, top) && (row.task == task ==> row.generation == top + 1)
    ensures Between(rest + [row], task, from, if row.task == task then top + 1 else top)
  {
    var rows := rest + [row];
    assert forall i :: 0 <= i < |rest| ==> rows[i] == rest[i];
    forall g | from < g <= top ensures Has(rows, task, g) {
      assert Has(rest, task, g);
      var i :| 0 <= i < |rest| && rest[i].task == task && rest[i].generation == g;
      assert rows[i] == rest[i];
    }
    assert row.task == task ==> Has(rows, task, top + 1) by { assert rows[|rest|] == row; }
  }

  lemma OneNumbers(w: Work, task: string, t: Transition, now: int)
    ensures var after := ApplyOne(w, task, t, now);
            || (after.log == w.log && after.generation == w.generation)
            || (|after.log| == |w.log| + 1 && after.log[..|w.log|] == w.log && after.generation == w.generation + 1
                && after.log[|w.log|].task == task && after.log[|w.log|].generation == after.generation)
  {
    hide DigestOf;
    hide Put;
    hide Logged;
  }

  lemma {:induction false} ApplyNumbers(w: Work, task: string, ts: seq<Transition>, now: int, other: string)
    ensures var after := ApplyAll(w, task, ts, now);
            && |w.log| <= |after.log| && after.log[..|w.log|] == w.log
            && Numbered(after.log[|w.log|..], other, w.generation,
                        if other == task then after.generation else w.generation)
  {
    hide ApplyOne;
    if ts == [] {
    } else {
      var n := |ts| - 1;
      var before, after := ApplyAll(w, task, ts[..n], now), ApplyAll(w, task, ts, now);
      ApplyNumbers(w, task, ts[..n], now, other);
      OneNumbers(before, task, ts[n], now);
      if |after.log| > |before.log| {
        var tail := after.log[|w.log|..];
        assert tail[..|tail|-1] == before.log[|w.log|..] && tail[|tail|-1] == after.log[|before.log|];
      }
    }
  }

  // ---- Runs ----------------------------------------------------------------------

  datatype Call =
    | Apply(task: string, fence: Fence, ts: seq<Transition>, health: TaskHealth, now: int)
    | Waive(task: string, fence: Fence, waiver: Waiver, now: int)
    | Unwaive(task: string, fence: Fence, key: Key, now: int)

  predicate Taken(s: State, c: Call) {
    Accepts(s, c.task, c.fence) && (c.Waive? ==> c.waiver.evidence != "")
  }

  /** The state after a call; a refused call changes nothing. */
  function After(s: State, c: Call): State {
    if !Taken(s, c) then s
    else
      match c
      case Apply(task, fence, ts, health, now) => Applied(s, task, fence, ts, health, now)
      case Waive(task, fence, waiver, now) => WithWaiver(s, task, fence, waiver, now)
      case Unwaive(task, fence, key, now) => WithoutWaiver(s, task, fence, key, now)
  }

  /** The log before the oldest rows are dropped. */
  function Unpruned(s: State, c: Call): seq<LogRow> {
    if Taken(s, c) && c.Apply? then ApplyAll(Begin(s, c.task), c.task, c.ts, c.now).log else After(s, c).log
  }

  lemma Grew(s: State, c: Call)
    ensures |s.log| <= |Unpruned(s, c)| && Unpruned(s, c)[..|s.log|] == s.log
  {
    hide ApplyAll;
    if c.Apply? {
      ApplyNumbers(Begin(s, c.task), c.task, c.ts, c.now, c.task);
    }
  }

  function Written(s: State, c: Call): seq<LogRow> {
    Grew(s, c);
    Unpruned(s, c)[|s.log|..]
  }

  function Run(s: State, calls: seq<Call>): State {
    if calls == [] then s else After(Run(s, calls[..|calls|-1]), calls[|calls|-1])
  }

  /** Every log row the calls write, dropped since or not. */
  function History(s: State, calls: seq<Call>): seq<LogRow> {
    if calls == [] then [] else History(s, calls[..|calls|-1]) + Written(Run(s, calls[..|calls|-1]), calls[|calls|-1])
  }

  lemma CallNumbers(s: State, c: Call, task: string)
    ensures Numbered(Written(s, c), task, Generation(s, task), Generation(After(s, c), task))
  {
    hide ApplyAll;
    hide MakeDigest;
    hide WaivedRows;
    if !Taken(s, c) {
      assert Written(s, c) == [];
    } else if c.Apply? {
      var w := Begin(s, c.task);
      ApplyNumbers(w, c.task, c.ts, c.now, task);
      if task != c.task {
        Renumbered(Written(s, c), task, w.generation, Generation(s, task));
      }
    } else if After(s, c) == s {
      assert Written(s, c) == [];
    } else {
      var row := After(s, c).log[|s.log|];
      assert Written(s, c) == [row];
      assert [row][..0] == [];
    }
  }

  lemma {:induction false} Renumbered(rows: seq<LogRow>, task: string, g: int, h: int)
    requires Numbered(rows, task, g, g)
    ensures Numbered(rows, task, h, h)
  {
    NumberedMeans(rows, task, g, g);
    if rows == [] {
    } else {
      assert rows[|rows|-1].task != task;
      Renumbered(rows[..|rows|-1], task, g, h);
    }
  }

  lemma {:induction false} RunNumbers(s: State, calls: seq<Call>, task: string)
    ensures Numbered(History(s, calls), task, Generation(s, task), Generation(Run(s, calls), task))
  {
    hide Written;
    hide After;
    if calls == [] {
    } else {
      var n := |calls| - 1;
      var mid := Run(s, calls[..n]);
      RunNumbers(s, calls[..n], task);
      CallNumbers(mid, calls[n], task);
      NumberedConcat(History(s, calls[..n]), Written(mid, calls[n]), task,
                     Generation(s, task), Generation(mid, task), Generation(Run(s, calls), task));
    }
  }

  /**
   Over every run, from any state: the log rows written for a task carry the
   generations after its first one, each number once, in order, without a gap.
   */
  lemma GenerationsAreConsecutive(s: State, calls: seq<Call>, task: string)
    ensures Generation(s, task) <= Generation(Run(s, calls), task)
    ensures Between(History(s, calls), task, Generation(s, task), Generation(Run(s, calls), task))
  {
    hide *;
    RunNumbers(s, calls, task);
    NumberedMeans(History(s, calls), task, Generation(s, task), Generation(Run(s, calls), task));
  }

  ghost predicate Suffix<T>(a: seq<T>, b: seq<T>) {
    |a| <= |b| && b[|b|-|a|..] == a
  }

  /** The log is the newest part of all that was ever written, and at least its last 20000 rows. */
  ghost predicate KeepsNewest(log: seq<LogRow>, all: seq<LogRow>) {
    Suffix(log, all) && (|log| == |all| || |log| >= MAX_LOG)
  }

  lemma NewestOfSuffix(log: seq<LogRow>, all: seq<LogRow>, more: seq<LogRow>)
    requires KeepsNewest(log, all)
    ensures KeepsNewest(log + more, all + more) && KeepsNewest(Newest(log + more), all + more)
  {
    var l, a := log + more, all + more;
    assert a[|a|-|l|..] == l;
    var n := Newest(l);
    assert a[|a|-|n|..] == a[|a|-|l|..][|l|-|n|..];
  }

  lemma CallLog(s: State, c: Call)
    ensures Unpruned(s, c) == s.log + Written(s, c)
    ensures After(s, c).log == Unpruned(s, c) || After(s, c).log == Newest(Unpruned(s, c))
  {
    hide ApplyAll;
    hide MakeDigest;
    hide WaivedRows;
    Grew(s, c);
  }

  lemma {:induction false} LogIsNewest(s: State, calls: seq<Call>)
    ensures KeepsNewest(Run(s, calls).log, s.log + History(s, calls))
  {
    hide After;
    hide Written;
    hide Unpruned;
    hide KeepsNewest;
    hide Newest;
    if calls == [] {
      assert s.log + History(s, calls) == s.log;
      assert KeepsNewest(s.log, s.log) by { SuffixOfItself(s.log); }
    } else {
      var n := |calls| - 1;
      var mid, all := Run(s, calls[..n]), s.log + History(s, calls[..n]);
      LogIsNewest(s, calls[..n]);
      CallLog(mid, calls[n]);
      NewestOfSuffix(mid.log, all, Written(mid, calls[n]));
      assert s.log + History(s, calls) == all + Written(mid, calls[n]);
    }
  }

  lemma SuffixOfItself(log: seq<LogRow>)
    ensures KeepsNewest(log, log)
  {
    assert log[0..] == log;
  }

  /**
   A transition whose content is among the last 20000 rows ever written is
   recognised: it takes no number and changes no finding.
   */
  lemma RecentReplayIsRecognised(s: State, calls: seq<Call>, task: string, t: Transition, now: int, k: nat)
    requires k < |s.log + History(s, calls)| && |s.log + History(s, calls)| - k <= MAX_LOG
    requires (s.log + History(s, calls))[k].task == task && (s.log + History(s, calls))[k].digest == DigestOf(task, t)
    ensures var w := Begin(Run(s, calls), task);
            var after := ApplyAll(w, task, [t], now);
            after.generations == [0] && after.rows == w.rows && after.log == w.log && after.generation == w.generation
  {
    hide DigestOf;
    hide History;
    LogIsNewest(s, calls);
    var w, all := Begin(Run(s, calls), task), s.log + History(s, calls);
    assert w.log[k - (|all| - |w.log|)] == all[k];
    assert [t][..0] == [];
    assert Logged(w.log, task, DigestOf(task, t));
  }

  lemma {:induction false} ApplyKeepsUnique(w: Work, task: string, ts: seq<Transition>, now: int)
    requires Unique(w.rows)
    ensures Unique(ApplyAll(w, task, ts, now).rows)
  {
    hide DigestOf;
    hide Put;
    if ts == [] {
    } else {
      var n := |ts| - 1;
      ApplyKeepsUnique(w, task, ts[..n], now);
      var before := ApplyAll(w, task, ts[..n], now);
      PutDecidesItsKey(before.rows, Key(task, ts[n].key.kind, ts[n].key.subject), ts[n], before.generation + 1, now);
    }
  }

  /** No run ever stores two rows under one key. */
  lemma {:induction false} KeysStayUnique(s: State, calls: seq<Call>)
    requires Unique(s.rows)
    ensures Unique(Run(s, calls).rows)
  {
    hide ApplyAll;
    hide MakeDigest;
    if calls == [] {
    } else {
      var c, mid := calls[|calls|-1], Run(s, calls[..|calls|-1]);
      KeysStayUnique(s, calls[..|calls|-1]);
      if Taken(mid, c) && c.Apply? {
        ApplyKeepsUnique(Begin(mid, c.task), c.task, c.ts, c.now);
      }
    }
  }

  // ---- Reconciling again ---------------------------------------------------------

  lemma HeldIsOpen(open: seq<Finding>, rows: seq<Row>, task: string, key: Key)
    requires Lists(open, rows, task) && key.task == task
    ensures Held(open, key) == OpenAt(rows, key)
  {
    HeldIffListed(open, key);
    var o := OpenAt(rows, key);
    assert o.Some? ==> o.value.key == key && o.value in open;
  }

  /** What an apply of distinct keys leaves under one key. */
  lemma {:induction false} AppliedAt(w: Work, task: string, ts: seq<Transition>, now: int, k: Key)
    requires Unique(w.rows) && w.generations == []
    requires DistinctKeys(ts) && forall i :: 0 <= i < |ts| ==> ts[i].key.task == task
    ensures var after := ApplyAll(w, task, ts, now);
            && Unique(after.rows)
            && (forall i :: 0 <= i < |ts| && ts[i].key == k && after.generations[i] != 0 ==>
                  Follows(OpenAt(after.rows, k), ts[i]))
            && ((forall i :: 0 <= i < |ts| && ts[i].key == k ==> after.generations[i] == 0) ==>
                  OpenAt(after.rows, k) == OpenAt(w.rows, k))
  {
    hide ApplyOne;
    hide OpenAt;
    hide Unique;
    if ts == [] {
    } else {
      var n := |ts| - 1;
      AppliedAt(w, task, ts[..n], now, k);
      var before, after, t := ApplyAll(w, task, ts[..n], now), ApplyAll(w, task, ts, now), ts[n];
      OneDecides(before, task, t, now, k);
      assert forall i :: 0 <= i < n ==> ts[..n][i] == ts[i] && after.generations[i] == before.generations[i];
    }
  }

  /** One transition of an apply: a replay changes nothing, another decides its own key. */
  lemma OneDecides(w: Work, task: string, t: Transition, now: int, k: Key)
    requires Unique(w.rows) && t.key.task == task
    ensures var after := ApplyOne(w, task, t, now);
            && Unique(after.rows) && |after.generations| == |w.generations| + 1
                  && after.generations[..|w.generations|] == w.generations
            && (after.generations[|w.generations|] == 0 || k != t.key ==> OpenAt(after.rows, k) == OpenAt(w.rows, k))
            && (after.generations[|w.generations|] != 0 && k == t.key ==> Follows(OpenAt(after.rows, k), t))
  {
    hide DigestOf;
    hide Put;
    hide OpenAt;
    hide Unique;
    hide Logged;
    assert t.key == Key(task, t.key.kind, t.key.subject);
    PutDecidesItsKey(w.rows, t.key, t, w.generation + 1, now);
  }

  /** The transitions an apply took for replays. */
  function Skipped(ts: seq<Transition>, generations: seq<nat>): seq<Transition>
    requires |generations| == |ts|
  {
    if ts == [] then []
    else
      var n := |ts| - 1;
      Skipped(ts[..n], generations[..n]) + if generations[n] == 0 then [ts[n]] else []
  }

  ghost predicate SkippedOne(ts: seq<Transition>, generations: seq<nat>, x: Transition)
    requires |generations| == |ts|
  {
    exists i :: 0 <= i < |ts| && ts[i] == x && generations[i] == 0
  }

  lemma SkippedPush(ts: seq<Transition>, generations: seq<nat>, x: Transition)
    requires |generations| == |ts| > 0
    ensures var n := |ts| - 1;
            SkippedOne(ts, generations, x) <==>
                SkippedOne(ts[..n], generations[..n], x) || (ts[n] == x && generations[n] == 0)
  {
    var n := |ts| - 1;
    if i :| 0 <= i < n && ts[i] == x && generations[i] == 0 {
      assert ts[..n][i] == x && generations[..n][i] == 0;
    }
  }

  lemma {:induction false} SkippedAre(ts: seq<Transition>, generations: seq<nat>)
    requires |generations| == |ts| && Ordered(ts)
    ensures Ordered(Skipped(ts, generations))
    ensures forall x :: x in Skipped(ts, generations) <==> SkippedOne(ts, generations, x)
  {
    hide LessKey;
    if ts == [] {
    } else {
      var n := |ts| - 1;
      SkippedAre(ts[..n], generations[..n]);
      var rest := Skipped(ts[..n], generations[..n]);
      forall i | 0 <= i < |rest| ensures LessKey(rest[i].key, ts[n].key) {
        assert rest[i] in rest;
        var j :| 0 <= j < n && ts[..n][j] == rest[i];
      }
      forall x ensures x in Skipped(ts, generations) <==> SkippedOne(ts, generations, x) {
        hide SkippedOne;
        SkippedPush(ts, generations, x);
      }
    }
  }

  lemma DistinctIfOrdered(ts: seq<Transition>)
    requires Ordered(ts)
    ensures DistinctKeys(ts)
  {
    hide LessKey;
    forall i, j | 0 <= i < j < |ts| ensures ts[i].key != ts[j].key {
      LessKeyTotal(ts[i].key, ts[j].key);
    }
  }

  lemma PlanIsOfTask(r: Registry, f: Facts, open: seq<Finding>, ts: seq<Transition>)
    requires IsPlan(r, f, open, ts)
    ensures forall i :: 0 <= i < |ts| ==> ts[i].key.task == f.task
  {
    hide Held;
    hide Wanted;
    hide Change;
    hide Retire;
  }

  /** The decision on one key after the plan was applied: the same transition if it was skipped, none otherwise. */
  lemma DecisionAfterApply(r: Registry, f: Facts, s: State, open: seq<Finding>, ts: seq<Transition>, now: int, key: Key)
    requires Unique(s.rows) && Lists(open, s.rows, f.task) && IsPlan(r, f, open, ts)
    ensures var after := ApplyAll(Begin(s, f.task), f.task, ts, now);
            var again := Decide(r, f, key, OpenAt(after.rows, key));
            && (again.Some? ==> exists i :: 0 <= i < |ts| && ts[i] == again.value && after.generations[i] == 0)
            && (forall i :: 0 <= i < |ts| && ts[i].key == key && after.generations[i] == 0 ==> again == Some(ts[i]))
  {
    hide Decide;
    hide OpenAt;
    hide Held;
    hide LessKey;
    hide ApplyAll;
    DistinctIfOrdered(ts);
    PlanIsOfTask(r, f, open, ts);
    var after := ApplyAll(Begin(s, f.task), f.task, ts, now);
    AppliedAt(Begin(s, f.task), f.task, ts, now, key);
    var have := OpenAt(s.rows, key);
    OpenKey(s.rows, key);
    OpenKey(after.rows, key);
    DecidedKey(r, f, key, have);
    DecidedKey(r, f, key, OpenAt(after.rows, key));
    if key.task == f.task {
      HeldIsOpen(open, s.rows, f.task, key);
      var t := Decide(r, f, key, have);
      if t.Some? {
        var i :| 0 <= i < |ts| && ts[i] == t.value;
        if after.generations[i] != 0 {
          DecisionSettles(r, f, key, have, OpenAt(after.rows, key));
        }
      }
    }
  }

  lemma OpenKey(rows: seq<Row>, key: Key)
    ensures OpenAt(rows, key).Some? ==> OpenAt(rows, key).value.key == key
  {
  }

  /**
   Reconciling, applying and reconciling again with the same facts yields
   exactly the transitions the store took for replays.
   */
  lemma ReconcileAfterApply(r: Registry, f: Facts, s: State, fence: Fence, h: TaskHealth, now: int,
                            open: seq<Finding>, ts: seq<Transition>, openAfter: seq<Finding>)
    requires Unique(s.rows) && Accepts(s, f.task, fence)
    requires Lists(open, s.rows, f.task) && IsPlan(r, f, open, ts)
    requires Lists(openAfter, Applied(s, f.task, fence, ts, h, now).rows, f.task)
    ensures IsPlan(r, f, openAfter, Skipped(ts, ApplyAll(Begin(s, f.task), f.task, ts, now).generations))
  {
    hide Decide;
    hide OpenAt;
    hide Held;
    hide LessKey;
    hide ApplyAll;
    hide Skipped;
    var after := ApplyAll(Begin(s, f.task), f.task, ts, now);
    var again := Skipped(ts, after.generations);
    SkippedAre(ts, after.generations);
    forall key ensures Decide(r, f, key, Held(openAfter, key)) == Decide(r, f, key, OpenAt(after.rows, key)) {
      if key.task == f.task {
        HeldIsOpen(openAfter, after.rows, f.task, key);
      } else {
        NotOurs(r, f, key, Held(openAfter, key), OpenAt(after.rows, key));
      }
    }
    forall i | 0 <= i < |again| ensures Decide(r, f, again[i].key, Held(openAfter, again[i].key)) == Some(again[i]) {
      assert again[i] in again;
      DecisionAfterApply(r, f, s, open, ts, now, again[i].key);
    }
    forall key | Decide(r, f, key, Held(openAfter, key)).Some?
      ensures Decide(r, f, key, Held(openAfter, key)).value in again
    {
      DecisionAfterApply(r, f, s, open, ts, now, key);
    }
  }

  lemma NotOurs(r: Registry, f: Facts, key: Key, a: Option<Finding>, b: Option<Finding>)
    requires key.task != f.task
    ensures Decide(r, f, key, a) == None == Decide(r, f, key, b)
  {
  }

  /** Reconciling again yields nothing if and only if no transition of the plan was a replay. */
  lemma SettledIffNoReplay(r: Registry, f: Facts, s: State, fence: Fence, h: TaskHealth, now: int,
                           open: seq<Finding>, ts: seq<Transition>, openAfter: seq<Finding>)
    requires Unique(s.rows) && Accepts(s, f.task, fence)
    requires Lists(open, s.rows, f.task) && IsPlan(r, f, open, ts)
    requires Lists(openAfter, Applied(s, f.task, fence, ts, h, now).rows, f.task)
    ensures IsPlan(r, f, openAfter, []) <==> forall i :: 0 <= i < |ts| ==> !Replay(s.log, f.task, ts, i)
  {
    hide Decide;
    hide OpenAt;
    hide Held;
    hide LessKey;
    hide ApplyAll;
    hide Skipped;
    hide DigestOf;
    hide Replay;
    var generations := ApplyAll(Begin(s, f.task), f.task, ts, now).generations;
    var again := Skipped(ts, generations);
    ReconcileAfterApply(r, f, s, fence, h, now, open, ts, openAfter);
    SkippedAre(ts, generations);
    EmptyIff(again);
    forall i | 0 <= i < |ts| ensures generations[i] == 0 <==> Replay(s.log, f.task, ts, i) {
      ZeroIffReplay(Begin(s, f.task), f.task, ts, now, i);
    }
    if IsPlan(r, f, openAfter, []) {
      PlanIsUnique(r, f, openAfter, again, []);
      assert forall i :: 0 <= i < |ts| && generations[i] == 0 ==> SkippedOne(ts, generations, ts[i]);
    }
  }

  /** The facts and the open set fix the plan. */
  lemma PlanIsUnique(r: Registry, f: Facts, open: seq<Finding>, a: seq<Transition>, b: seq<Transition>)
    requires IsPlan(r, f, open, a) && IsPlan(r, f, open, b)
    ensures a == b
  {
    hide Decide;
    hide Held;
    hide LessKey;
    forall t ensures t in a <==> t in b {
      assert t in a ==> Decide(r, f, t.key, Held(open, t.key)) == Some(t);
      assert t in b ==> Decide(r, f, t.key, Held(open, t.key)) == Some(t);
    }
    OrderedIsUnique(a, b);
  }

  // ---- A replay that was none ----------------------------------------------------

  lemma {:induction false} NoNulSame(s: string)
    requires '\0' !in s
    ensures NoNul(s) == s
  {
    if s == [] {
    } else {
      NoNulSame(s[1..]);
      assert [s[0]] + s[1..] == s;
    }
  }

  /**
   A finding that opens, closes and opens again with the fact time it had
   before is taken for a replay: it stays closed.
   */
  lemma ReopenedFactStaysClosed(s: State, fence: Fence, h: TaskHealth, now: int, o: Transition, c: Transition)
    requires Unique(s.rows) && Accepts(s, o.key.task, fence) && |s.log| + 2 < MAX_LOG
    requires o.op == Open && c.op == Close && c.key == o.key
    requires !Logged(s.log, o.key.task, DigestOf(o.key.task, o)) && !Logged(s.log, o.key.task, DigestOf(o.key.task, c))
    ensures var task := o.key.task;
            var opens, closes := Apply(task, fence, [o], h, now), Apply(task, fence, [c], h, now);
            && OpenAt(Run(s, [opens]).rows, o.key).Some?
            && OpenAt(Run(s, [opens, closes, opens]).rows, o.key).None?
  {
    hide *;
    var task := o.key.task;
    var opens, closes := Apply(task, fence, [o], h, now), Apply(task, fence, [c], h, now);
    RunOfThree(s, opens, closes, opens);
    OpIsInDigest(o, c);
    TakenIf(s, opens);
    TakesEffect(s, opens, o, DigestOf(task, c));
    var s1 := After(s, opens);
    SameFence(s1, opens, closes);
    TakesEffect(s1, closes, c, DigestOf(task, o));
    var s2 := After(s1, closes);
    SameFence(s2, closes, opens);
    OneApply(s2, opens, o);
  }

  lemma TakesEffect(s: State, call: Call, t: Transition, d: Digest)
    requires call.Apply? && call.ts == [t] && t.key.task == call.task && Taken(s, call) && |s.log| < MAX_LOG
              && Unique(s.rows)
    requires !Logged(s.log, call.task, DigestOf(call.task, t)) && d != DigestOf(call.task, t)
    ensures var after := After(s, call);
            && Unique(after.rows) && Taken(after, call) && |after.log| == |s.log| + 1
            && (OpenAt(after.rows, t.key).None? <==> t.op == Close)
            && Logged(after.log, call.task, DigestOf(call.task, t))
            && (Logged(after.log, call.task, d) <==> Logged(s.log, call.task, d))
  {
    hide *;
    OneApply(s, call, t);
    var g := Generation(s, call.task) + 1;
    assert t.key == Key(call.task, t.key.kind, t.key.subject);
    PutDecidesItsKey(s.rows, t.key, t, g, call.now);
    LogPush(s.log, call.task, LogOf(call.task, t, g, call.now));
    LogCarries(call.task, t, g, call.now);
  }

  lemma LogCarries(task: string, t: Transition, g: nat, now: int)
    ensures LogOf(task, t, g, now).task == task && LogOf(task, t, g, now).digest == DigestOf(task, t)
  {
  }

  lemma TakenIf(s: State, c: Call)
    requires c.Apply? && Accepts(s, c.task, c.fence)
    ensures Taken(s, c)
  {
  }

  lemma SameFence(s: State, a: Call, b: Call)
    requires a.Apply? && b.Apply? && a.task == b.task && a.fence == b.fence && Taken(s, a)
    ensures Taken(s, b)
  {
  }

  lemma OneApply(s: State, c: Call, t: Transition)
    requires c.Apply? && c.ts == [t] && Taken(s, c) && |s.log| < MAX_LOG
    ensures After(s, c).rows == (if Logged(s.log, c.task, DigestOf(c.task, t)) then s.rows
                                 else Put(s.rows, Key(c.task, t.key.kind, t.key.subject), t, Generation(s, c.task) + 1,
                                     c.now))
    ensures After(s, c).log == (if Logged(s.log, c.task, DigestOf(c.task, t)) then s.log
                                else s.log + [LogOf(c.task, t, Generation(s, c.task) + 1, c.now)])
    ensures Taken(After(s, c), c)
  {
    hide DigestOf;
    hide Put;
    hide Logged;
    assert [t][..0] == [];
    var w := Begin(s, c.task);
    assert ApplyAll(w, c.task, [t][..0], c.now) == w;
    assert ApplyAll(w, c.task, [t], c.now) == ApplyOne(w, c.task, t, c.now);
  }

  lemma OpIsInDigest(o: Transition, c: Transition)
    requires o.op == Open && c.op == Close
    ensures DigestOf(o.key.task, o) != DigestOf(o.key.task, c)
  {
    hide NoNul;
    NoNulSame("OPEN");
    NoNulSame("CLOSE");
  }

  lemma RunOfThree(s: State, a: Call, b: Call, c: Call)
    ensures Run(s, [a]) == After(s, a)
    ensures Run(s, [a, b, c]) == After(After(After(s, a), b), c)
  {
    hide After;
    assert [a, b, c][..2] == [a, b] && [a, b][..1] == [a] && [a][..0] == [];
    assert Run(s, []) == s;
    assert Run(s, [a]) == After(s, a);
    assert Run(s, [a, b]) == After(After(s, a), b);
  }
}
