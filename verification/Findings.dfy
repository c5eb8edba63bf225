/** Findings, transitions, and the facts one evaluation of a task rests on. */
module Findings {
  import opened Wrappers
  import Texts

  /** The same key is the same finding. */
  datatype Key = Key(task: string, kind: string, subject: string)

  type Severity = string

  function Rank(s: Severity): nat {
    if s == "CRITICAL" then 3 else if s == "WARNING" then 2 else if s == "INFO" then 1 else 0
  }

  /** What is wrong, without when it was seen. */
  datatype Content = Content(severity: Severity, detail: string, evidence: string, segments: seq<string>)

  /** A finding that should be open. `factAt` is None when the instance names no fact time. */
  datatype Instance = Instance(key: Key, content: Content, factAt: Option<int>, confirm: bool)

  /** A stored finding. */
  datatype Finding = Finding(key: Key, content: Content, firstSeen: int, lastSeen: int, generation: int)

  datatype Op = Open | Update | Escalate | Downgrade | Close

  datatype Transition = Transition(key: Key, op: Op, reason: string, at: int, factAt: Option<int>, version: int,
      instance: Instance)

  datatype Waiver = Waiver(key: Key, evidence: string, reason: string, actor: string, at: Option<int>)

  datatype SignalKey = SignalKey(kind: string, subject: string)

  datatype Signal = Signal(failureSeq: nat, successSeq: nat, successFactAt: Option<int>)

  /** What an evaluation reads besides the sources its kinds derive from. */
  datatype Facts = Facts(task: string, now: int, nowText: string, complete: set<string>, absentSince: map<Key, int>,
                         open: set<Key>, confirmed: set<Key>, objectSegments: set<string>, noObjectStorage: bool,
                         objectConfigAudit: string, waivers: seq<Waiver>, signals: map<SignalKey, Signal>)

  datatype ClearRule = ClearRule(holds: Option<(Facts, Key) -> bool>, holdDown: int,
      reason: Option<(Facts, Key) -> string>)

  datatype KindSpec = KindSpec(kind: string, severity: Severity, scopes: seq<string>, clear: ClearRule,
                               derive: Option<Facts -> seq<Instance>>, managed: bool, confirm: bool, version: int,
                                   waivable: bool)

  type Registry = map<string, KindSpec>

  // ---- The order of keys ---------------------------------------------------------

  predicate LessKey(a: Key, b: Key) {
    if a.task != b.task then Texts.Less(a.task, b.task)
    else if a.kind != b.kind then Texts.Less(a.kind, b.kind)
    else Texts.Less(a.subject, b.subject)
  }

  lemma LessKeyTotal(a: Key, b: Key)
    ensures a == b || LessKey(a, b) || LessKey(b, a)
    ensures !(LessKey(a, b) && LessKey(b, a)) && !LessKey(a, a)
  {
    Texts.LessTotal(a.task, b.task);
    Texts.LessTotal(a.kind, b.kind);
    Texts.LessTotal(a.subject, b.subject);
    Texts.LessTotal(a.subject, a.subject);
  }

  lemma LessKeyTransitive(a: Key, b: Key, c: Key)
    requires LessKey(a, b) && LessKey(b, c)
    ensures LessKey(a, c)
  {
    hide Texts.Less;
    if a.task != b.task && b.task != c.task {
      Texts.LessTransitive(a.task, b.task, c.task);
      Texts.LessTotal(a.task, b.task);
    } else if a.task == b.task == c.task && a.kind != b.kind && b.kind != c.kind {
      Texts.LessTransitive(a.kind, b.kind, c.kind);
      Texts.LessTotal(a.kind, b.kind);
    } else if a.task == b.task == c.task && a.kind == b.kind == c.kind {
      Texts.LessTransitive(a.subject, b.subject, c.subject);
    }
  }

  /** Transitions sorted by key, so at most one per key. */
  ghost predicate Ordered(ts: seq<Transition>) {
    forall i, j :: 0 <= i < j < |ts| ==> LessKey(ts[i].key, ts[j].key)
  }

  lemma EmptyIff(ts: seq<Transition>)
    ensures ts == [] <==> forall t :: t !in ts
  {
    if ts != [] {
      assert ts[0] in ts;
    }
  }

  /** Two ordered lists of the same transitions are one list. */
  lemma {:induction false} OrderedIsUnique(a: seq<Transition>, b: seq<Transition>)
    requires Ordered(a) && Ordered(b)
    requires forall t :: t in a <==> t in b
    ensures a == b
  {
    hide LessKey;
    EmptyIff(a);
    EmptyIff(b);
    if a != [] && b != [] {
      assert a[0] in b && b[0] in a;
      var i :| 0 <= i < |b| && b[i] == a[0];
      var j :| 0 <= j < |a| && a[j] == b[0];
      LessKeyTotal(a[0].key, b[0].key);
      assert a[0] == b[0];
      forall t ensures t in a[1..] <==> t in b[1..] {
        LessKeyTotal(a[0].key, a[0].key);
        assert a == [a[0]] + a[1..] && b == [b[0]] + b[1..];
        assert a[0] !in a[1..] && b[0] !in b[1..];
        assert t in a <==> t == a[0] || t in a[1..];
        assert t in b <==> t == b[0] || t in b[1..];
      }
      OrderedIsUnique(a[1..], b[1..]);
      assert a == [a[0]] + a[1..] && b == [b[0]] + b[1..];
    }
  }

  // ---- Sorting by key ------------------------------------------------------------

  function InsertByKey(ts: seq<Transition>, t: Transition): seq<Transition> {
    if ts == [] || LessKey(t.key, ts[0].key) then [t] + ts else [ts[0]] + InsertByKey(ts[1..], t)
  }

  function SortByKey(ts: seq<Transition>): seq<Transition> {
    if ts == [] then [] else InsertByKey(SortByKey(ts[..|ts|-1]), ts[|ts|-1])
  }

  ghost predicate DistinctKeys(ts: seq<Transition>) {
    forall i, j :: 0 <= i < j < |ts| ==> ts[i].key != ts[j].key
  }

  lemma {:induction false} InsertKeepsOrder(ts: seq<Transition>, t: Transition)
    requires Ordered(ts) && forall i :: 0 <= i < |ts| ==> ts[i].key != t.key
    ensures Ordered(InsertByKey(ts, t))
    ensures forall x :: x in InsertByKey(ts, t) <==> x == t || x in ts
  {
    hide LessKey;
    if ts == [] {
    } else if LessKey(t.key, ts[0].key) {
      forall j | 0 <= j < |ts| ensures LessKey(t.key, ts[j].key) {
        if j > 0 {
          LessKeyTransitive(t.key, ts[0].key, ts[j].key);
        }
      }
    } else {
      InsertKeepsOrder(ts[1..], t);
      LessKeyTotal(t.key, ts[0].key);
      var rest := InsertByKey(ts[1..], t);
      assert ts == [ts[0]] + ts[1..];
      forall j | 0 <= j < |rest| ensures LessKey(ts[0].key, rest[j].key) {
        assert rest[j] in rest;
      }
    }
  }

  lemma {:induction false} SortedByKey(ts: seq<Transition>)
    requires DistinctKeys(ts)
    ensures Ordered(SortByKey(ts))
    ensures forall x :: x in SortByKey(ts) <==> x in ts
  {
    if ts == [] {
    } else {
      var n := |ts| - 1;
      SortedByKey(ts[..n]);
      var s := SortByKey(ts[..n]);
      forall i | 0 <= i < |s| ensures s[i].key != ts[n].key {
        assert s[i] in ts[..n];
      }
      InsertKeepsOrder(s, ts[n]);
      assert ts == ts[..n] + [ts[n]];
    }
  }
}
