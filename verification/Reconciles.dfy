/**
 Reconcile: from the open findings of a task and the facts of one evaluation
 to the transitions that make the open set the desired one.

 `Decide` says per key what becomes of it; the method walks lists and maps in
 whatever order it meets them and ends up with exactly those decisions, in
 key order.
 */
module Reconciles {
  import opened Wrappers
  import opened Findings
  import Texts
  import CanonicalLoops
  import CanonicalRanges

  const OBJECT_SUFFIX := "#object"
  const CHAIN_OBJECTS := "chain.objects"

  // ---- Scopes --------------------------------------------------------------------

  /** The segment of an object-origin subject. */
  function ObjectSegment(subject: string): Option<string> {
    var n := |subject| - |OBJECT_SUFFIX|;
    if n >= 0 && subject[n..] == OBJECT_SUFFIX then Some(subject[..n]) else None
  }

  predicate AllComplete(f: Facts, scopes: seq<string>) {
    scopes != [] && forall i :: 0 <= i < |scopes| ==> scopes[i] in f.complete
  }

  function WithoutObjects(scopes: seq<string>): seq<string> {
    if scopes == [] then [] else (if scopes[0] == CHAIN_OBJECTS then [] else [scopes[0]]) + WithoutObjects(scopes[1..])
  }

  predicate InstanceComplete(f: Facts, spec: KindSpec, key: Key) {
    var segment := ObjectSegment(key.subject);
    if segment.Some? then CHAIN_OBJECTS in f.complete && segment.value in f.objectSegments
    else AllComplete(f, if spec.kind == "SEGMENT_MISSING" then WithoutObjects(spec.scopes) else spec.scopes)
  }

  predicate ConfigScoped(key: Key) {
    ObjectSegment(key.subject).Some? || key.kind == "UPLOAD_LATE" || key.kind == "ORPHAN_ROW"
  }

  // ---- Waivers -------------------------------------------------------------------

  predicate WaivedBy(w: Waiver, key: Key, evidence: string) {
    w.key == key && CanonicalRanges.Canon(w.evidence) == CanonicalRanges.Canon(evidence)
  }

  predicate Waived(f: Facts, key: Key, evidence: string, spec: KindSpec) {
    && spec.waivable && evidence != "" && CanonicalRanges.Canon(evidence).Some?
    && exists i :: 0 <= i < |f.waivers| && WaivedBy(f.waivers[i], key, evidence)
  }

  ghost predicate NamesTheSet(w: Waiver, key: Key, evidence: string) {
    && w.key == key && CanonicalRanges.Parse(w.evidence).Some? && CanonicalRanges.Parse(evidence).Some?
    && CanonicalRanges.SameTransactions(CanonicalRanges.Parse(w.evidence).value, CanonicalRanges.Parse(evidence).value)
  }

  /**
   A waiver applies exactly when it names, in whatever spelling, the
   transactions of the finding: no more, no fewer.
   */
  lemma WaivedIffSameTransactions(f: Facts, key: Key, evidence: string, spec: KindSpec)
    requires spec.waivable && evidence != ""
    ensures Waived(f, key, evidence, spec) <==>
              exists i :: 0 <= i < |f.waivers| && NamesTheSet(f.waivers[i], key, evidence)
  {
    forall i | 0 <= i < |f.waivers|
      ensures CanonicalRanges.Canon(evidence).Some? && WaivedBy(f.waivers[i], key, evidence) <==>
                NamesTheSet(f.waivers[i], key, evidence)
    {
      SameSpelling(f.waivers[i], key, evidence);
    }
  }

  lemma SameSpelling(w: Waiver, key: Key, evidence: string)
    ensures CanonicalRanges.Canon(evidence).Some? && WaivedBy(w, key, evidence) <==> NamesTheSet(w, key, evidence)
  {
    hide CanonicalRanges.Parse;
    hide CanonicalRanges.SameTransactions;
    CanonicalRanges.CanonIffParse(w.evidence);
    CanonicalRanges.CanonIffParse(evidence);
    if CanonicalRanges.Canon(w.evidence).Some? && CanonicalRanges.Canon(evidence).Some? {
      CanonicalRanges.SameTextIffSameTransactions(w.evidence, evidence);
    }
  }

  // ---- What should be open -------------------------------------------------------

  /** The kind is judged in this pass: its first scope is complete. */
  predicate Judged(spec: KindSpec, f: Facts) {
    spec.managed && spec.derive.Some? && spec.scopes != [] && spec.scopes[0] in f.complete
  }

  function Stamp(f: Facts, kind: string, spec: KindSpec, i: Instance): Instance {
    Instance(Key(f.task, kind, i.key.subject),
             if i.content.severity == "" then i.content.(severity := spec.severity) else i.content, i.factAt, i.confirm)
  }

  function Derived(r: Registry, f: Facts, kind: string): seq<Instance> {
    if kind in r && Judged(r[kind], f) then
      var list := r[kind].derive.value(f);
      seq(|list|, i requires 0 <= i < |list| => Stamp(f, kind, r[kind], list[i]))
    else []
  }

  /** The most severe instance of the key that no waiver removes; the earliest of equals. */
  function Best(f: Facts, spec: KindSpec, list: seq<Instance>, key: Key): Option<Instance> {
    if list == [] then None
    else
      var n := |list| - 1;
      var best, last := Best(f, spec, list[..n], key), list[n];
      if last.key != key || Waived(f, key, last.content.evidence, spec) then best
      else if best.Some? && Rank(best.value.content.severity) >= Rank(last.content.severity) then best
      else Some(last)
  }

  function Raw(r: Registry, f: Facts, key: Key): Option<Instance> {
    if key.kind in r then Best(f, r[key.kind], Derived(r, f, key.kind), key) else None
  }

  predicate WaivesOne(f: Facts, spec: KindSpec, list: seq<Instance>, key: Key) {
    exists i :: 0 <= i < |list| && list[i].key == key && Waived(f, key, list[i].content.evidence, spec)
  }

  predicate WaivedKey(r: Registry, f: Facts, key: Key) {
    key.kind in r && WaivesOne(f, r[key.kind], Derived(r, f, key.kind), key)
  }

  predicate NeedsConfirm(r: Registry, i: Instance) {
    (i.key.kind in r && r[i.key.kind].confirm) || i.confirm
  }

  /** What should be open under the key, given whether it is open now. */
  function Wanted(r: Registry, f: Facts, key: Key, isOpen: bool): Option<Instance> {
    var raw := Raw(r, f, key);
    if raw.Some? && NeedsConfirm(r, raw.value) && !isOpen && key !in f.open && key !in f.confirmed then None else raw
  }

  // ---- What becomes of one key ---------------------------------------------------

  function FactAt(i: Instance, f: Facts): int { if i.factAt.None? then f.now else i.factAt.value }

  predicate SameContent(a: Content, b: Content) {
    a.severity == b.severity && a.detail == b.detail && a.evidence == b.evidence
    && Texts.Join(a.segments, '\0') == Texts.Join(b.segments, '\0')
  }

  function ChangeOp(want: Content, have: Content): Option<Op> {
    if Rank(want.severity) > Rank(have.severity) then Some(Escalate)
    else if Rank(want.severity) < Rank(have.severity) then Some(Downgrade)
    else if !SameContent(want, have) then Some(Update)
    else None
  }

  function Change(f: Facts, spec: KindSpec, have: Finding, want: Instance): Option<Transition> {
    var op := ChangeOp(want.content, have.content);
    if op.None? || (op != Some(Escalate) && !InstanceComplete(f, spec, have.key)) then None
    else Some(Transition(have.key, op.value, "EVAL", f.now, Some(FactAt(want, f)), spec.version, want))
  }

  function CloseFactAt(f: Facts, key: Key): (t: int)
    ensures t <= f.now
  {
    var k := SignalKey(key.kind, key.subject);
    if k in f.signals && f.signals[k].successSeq > 0 && f.signals[k].successSeq > f.signals[k].failureSeq
       && f.signals[k].successFactAt.Some? && f.signals[k].successFactAt.value <= f.now
    then f.signals[k].successFactAt.value else f.now
  }

  function CloseOf(f: Facts, spec: KindSpec, have: Finding, reason: string): Transition {
    Transition(have.key, Close, reason, f.now, Some(CloseFactAt(f, have.key)), spec.version,
               Instance(have.key, have.content, None, false))
  }

  function ConfigClose(f: Facts, spec: KindSpec, have: Finding): Transition {
    var t := CloseOf(f, spec, have, "CONFIG");
    var note := " \U{2014} object storage no longer configured (" + f.objectConfigAudit + "; at " + f.nowText + ")";
    t.(instance := t.instance.(content := t.instance.content.(detail := Texts.TrimSpace(have.content.detail + note))))
  }

  /** The clear rule lets a finding that is no longer derived go. */
  predicate Cleared(f: Facts, spec: KindSpec, key: Key) {
    && (spec.clear.holds.Some? ==> spec.clear.holds.value(f, key))
    && (spec.clear.holdDown > 0 ==> key in f.absentSince && f.now - f.absentSince[key] >= spec.clear.holdDown)
  }

  function ClearReason(f: Facts, spec: KindSpec, key: Key): string {
    if spec.clear.reason.Some? && spec.clear.reason.value(f, key) != "" then spec.clear.reason.value(f, key) else "EVAL"
  }

  function Retire(r: Registry, f: Facts, spec: KindSpec, have: Finding): Option<Transition> {
    var key := have.key;
    if f.noObjectStorage && ConfigScoped(key) then Some(ConfigClose(f, spec, have))
    else if !InstanceComplete(f, spec, key) then None
    else if WaivedKey(r, f, key) then Some(CloseOf(f, spec, have, "WAIVED"))
    else if Cleared(f, spec, key) then Some(CloseOf(f, spec, have, ClearReason(f, spec, key)))
    else None
  }

  function OpenOf(r: Registry, f: Facts, key: Key, want: Instance): Transition {
    Transition(key, Open, "EVAL", f.now, Some(FactAt(want, f)), if key.kind in r then r[key.kind].version else 0, want)
  }

  /** The one transition of a key, from the finding open under it. */
  function Decide(r: Registry, f: Facts, key: Key, have: Option<Finding>): Option<Transition> {
    if key.task != f.task || key.kind !in r || !r[key.kind].managed then None
    else
      var want := Wanted(r, f, key, have.Some?);
      match have
      case None => if want.Some? then Some(OpenOf(r, f, key, want.value)) else None
      case Some(o) => if want.Some? then Change(f, r[key.kind], o, want.value) else Retire(r, f, r[key.kind], o)
  }

  /** The first finding listed under a key. */
  function Held(open: seq<Finding>, key: Key): Option<Finding> {
    if open == [] then None else if open[0].key == key then Some(open[0]) else Held(open[1..], key)
  }

  ghost predicate IsPlan(r: Registry, f: Facts, open: seq<Finding>, ts: seq<Transition>) {
    && Ordered(ts)
    && (forall i :: 0 <= i < |ts| ==> Decide(r, f, ts[i].key, Held(open, ts[i].key)) == Some(ts[i]))
    && (forall key :: Decide(r, f, key, Held(open, key)).Some? ==> Decide(r, f, key, Held(open, key)).value in ts)
  }

  // ---- Facts about decisions -----------------------------------------------------

  lemma {:induction false} BestIsOfKey(f: Facts, spec: KindSpec, list: seq<Instance>, key: Key)
    ensures Best(f, spec, list, key).Some? ==>
              Best(f, spec, list, key).value.key == key && Best(f, spec, list, key).value in list
  {
    if list == [] {
    } else {
      BestIsOfKey(f, spec, list[..|list|-1], key);
    }
  }

  ghost predicate Counts(f: Facts, spec: KindSpec, list: seq<Instance>, key: Key, i: nat) {
    i < |list| && list[i].key == key && !Waived(f, key, list[i].content.evidence, spec)
  }

  /** Nothing is wanted exactly when every instance of the key is waived; else the first of the most severe ones. */
  lemma {:induction false} BestIsMostSevere(f: Facts, spec: KindSpec, list: seq<Instance>, key: Key)
    ensures Best(f, spec, list, key).None? <==> forall i: nat :: !Counts(f, spec, list, key, i)
    ensures Best(f, spec, list, key).Some? ==>
              exists i: nat :: Counts(f, spec, list, key, i) && list[i] == Best(f, spec, list, key).value
                  && IsMostSevere(f, spec, list, key, i)
  {
    hide Waived;
    hide Rank;
    if list == [] {
    } else {
      var n := |list| - 1;
      var rest := list[..n];
      BestIsMostSevere(f, spec, rest, key);
      assert forall i: nat :: i < n ==>
          (Counts(f, spec, rest, key, i) <==> Counts(f, spec, list, key, i)) && rest[i] == list[i];
      if Best(f, spec, rest, key).Some? {
        var i: nat :| Counts(f, spec, rest, key, i) && rest[i] == Best(f, spec, rest, key).value
            && IsMostSevere(f, spec, rest, key, i);
        assert Counts(f, spec, list, key, i);
        if Best(f, spec, list, key) == Best(f, spec, rest, key) {
          assert IsMostSevere(f, spec, list, key, i);
        }
      }
      assert Counts(f, spec, list, key, n) <==> list[n].key == key && !Waived(f, key, list[n].content.evidence, spec);
    }
  }

  ghost predicate IsMostSevere(f: Facts, spec: KindSpec, list: seq<Instance>, key: Key, i: nat)
    requires i < |list|
  {
    forall j: nat :: Counts(f, spec, list, key, j) ==>
      if j < i then Rank(list[j].content.severity) < Rank(list[i].content.severity)
      else Rank(list[j].content.severity) <= Rank(list[i].content.severity)
  }

  /** Nothing outside the evaluated task and the managed, judged kinds is ever wanted. */
  lemma RawIsJudged(r: Registry, f: Facts, key: Key)
    ensures Raw(r, f, key).Some? ==>
              key.task == f.task && key.kind in r && Judged(r[key.kind], f) && Raw(r, f, key).value.key == key
  {
    if key.kind in r {
      BestIsOfKey(f, r[key.kind], Derived(r, f, key.kind), key);
    }
  }

  lemma DecidedKey(r: Registry, f: Facts, key: Key, have: Option<Finding>)
    requires have.Some? ==> have.value.key == key
    ensures Decide(r, f, key, have).Some? ==> Decide(r, f, key, have).value.key == key && key.task == f.task
  {
  }

  /** What an open finding looks like after a transition. */
  ghost predicate Follows(after: Option<Finding>, t: Transition) {
    if t.op == Close then after.None?
    else after.Some? && after.value.key == t.key && after.value.content == t.instance.content
  }

  /** A decision that takes effect leaves nothing to decide: the same facts ask for no second transition. */
  lemma DecisionSettles(r: Registry, f: Facts, key: Key, have: Option<Finding>, after: Option<Finding>)
    requires have.Some? ==> have.value.key == key
    requires Decide(r, f, key, have).Some? && Follows(after, Decide(r, f, key, have).value)
    ensures Decide(r, f, key, after) == None
  {
    hide Raw;
    hide InstanceComplete;
    hide WaivedKey;
    hide Cleared;
    hide Rank;
    hide Texts.Join;
  }

  /** A key of a Confirm kind opens only when the evaluation before derived it too. */
  lemma OpensAfterTwoPasses(r: Registry, before: Facts, f: Facts, key: Key)
    requires key !in f.open
    requires forall k :: k in f.confirmed ==> Candidate(r, before, k)
    requires Decide(r, f, key, None).Some?
    ensures var t := Decide(r, f, key, None).value;
            t.op == Open && t.instance.key == key && (NeedsConfirm(r, t.instance) ==> Raw(r, before, key).Some?)
  {
    hide Best;
    RawIsJudged(r, f, key);
  }

  predicate Candidate(r: Registry, f: Facts, key: Key) {
    Raw(r, f, key).Some? && NeedsConfirm(r, Raw(r, f, key).value)
  }

  // ---- The evaluation loop -------------------------------------------------------

  method IsWaived(f: Facts, key: Key, evidence: string, spec: KindSpec) returns (waived: bool)
    ensures waived == Waived(f, key, evidence, spec)
  {
    hide CanonicalRanges.Canon;
    if !spec.waivable || evidence == "" {
      return false;
    }
    var text := CanonicalLoops.CanonicalGTIDRanges(evidence);
    if text.None? {
      return false;
    }
    for i := 0 to |f.waivers|
      invariant forall j :: 0 <= j < i ==> !WaivedBy(f.waivers[j], key, evidence)
    {
      var w := f.waivers[i];
      if w.key == key {
        var named := CanonicalLoops.CanonicalGTIDRanges(w.evidence);
        if named.Some? && named.value == text.value {
          return true;
        }
      }
    }
    return false;
  }

  ghost predicate Looks(m: map<Key, Instance>, key: Key, i: Option<Instance>) {
    if key in m then i == Some(m[key]) else i == None
  }

  /** The instances of one kind, over the maps filled so far. */
  method DeriveKind(r: Registry, f: Facts, kind: string, raw: map<Key, Instance>, waived: set<Key>)
    returns (out: map<Key, Instance>, gone: set<Key>)
    requires kind in r
    requires forall key :: key in raw || key in waived ==> key.kind != kind
    ensures forall key: Key :: key.kind == kind ==>
              Looks(out, key, Raw(r, f, key)) && (key in gone <==> WaivedKey(r, f, key))
    ensures forall key: Key :: key.kind != kind ==> (key in out <==> key in raw) && (key in gone <==> key in waived)
    ensures forall key: Key :: key.kind != kind && key in raw ==> out[key] == raw[key]
  {
    hide Waived;
    hide Rank;
    hide Best;
    hide WaivesOne;
    out, gone := raw, waived;
    var spec := r[kind];
    ghost var all := Derived(r, f, kind);
    NothingListed(f, spec);
    if !spec.managed || spec.derive.None? || spec.scopes == [] || spec.scopes[0] !in f.complete {
      return;
    }
    var list := spec.derive.value(f);
    assert |all| == |list|;
    for i := 0 to |list|
      invariant forall key: Key :: key.kind == kind ==> Looks(out, key, Best(f, spec, all[..i], key))
      invariant forall key: Key :: key.kind == kind ==> (key in gone <==> WaivesOne(f, spec, all[..i], key))
      invariant forall key: Key :: key.kind != kind ==> (key in out <==> key in raw) && (key in gone <==> key in waived)
      invariant forall key: Key :: key.kind != kind && key in raw ==> out[key] == raw[key]
    {
      var in' := Stamp(f, kind, spec, list[i]);
      assert all[..i+1] == all[..i] + [in'];
      WaivesPush(f, spec, all[..i], in');
      BestPush(f, spec, all[..i], in');
      var w := IsWaived(f, in'.key, in'.content.evidence, spec);
      if w {
        gone := gone + {in'.key};
      } else if !(in'.key in out && Rank(out[in'.key].content.severity) >= Rank(in'.content.severity)) {
        out := out[in'.key := in'];
      }
    }
    assert all[..|list|] == all;
  }

  lemma NothingListed(f: Facts, spec: KindSpec)
    ensures forall key :: Best(f, spec, [], key) == None && !WaivesOne(f, spec, [], key)
  {
  }

  lemma WaivesPush(f: Facts, spec: KindSpec, list: seq<Instance>, x: Instance)
    ensures forall key :: WaivesOne(f, spec, list + [x], key) <==>
              WaivesOne(f, spec, list, key) || (x.key == key && Waived(f, key, x.content.evidence, spec))
  {
    hide Waived;
    var l := list + [x];
    forall key
      ensures WaivesOne(f, spec, l, key) <==>
                WaivesOne(f, spec, list, key) || (x.key == key && Waived(f, key, x.content.evidence, spec))
    {
      assert l[|list|] == x;
      assert forall i :: 0 <= i < |list| ==> l[i] == list[i];
    }
  }

  lemma BestPush(f: Facts, spec: KindSpec, list: seq<Instance>, x: Instance)
    ensures forall key :: Best(f, spec, list + [x], key) ==
              var best := Best(f, spec, list, key);
              if x.key != key || Waived(f, key, x.content.evidence, spec) then best
              else if best.Some? && Rank(best.value.content.severity) >= Rank(x.content.severity) then best
              else Some(x)
  {
    hide Waived;
    hide Rank;
    assert (list + [x])[..|list|] == list;
  }

  method DeriveRaw(r: Registry, f: Facts) returns (raw: map<Key, Instance>, waived: set<Key>)
    ensures forall key :: Looks(raw, key, Raw(r, f, key)) && (key in waived <==> WaivedKey(r, f, key))
  {
    hide Raw;
    hide WaivedKey;
    raw, waived := map[], {};
    var todo := r.Keys;
    while todo != {}
      invariant todo <= r.Keys
      invariant forall key :: key in raw || key in waived ==> key.kind !in todo
      invariant forall key: Key :: key.kind in r && key.kind !in todo ==>
        Looks(raw, key, Raw(r, f, key)) && (key in waived <==> WaivedKey(r, f, key))
      invariant forall key :: key in raw || key in waived ==> key.kind in r
      decreases todo
    {
      var kind :| kind in todo;
      todo := todo - {kind};
      raw, waived := DeriveKind(r, f, kind, raw, waived);
    }
    forall key: Key | key.kind !in r ensures Raw(r, f, key).None? && !WaivedKey(r, f, key) {
      NoKind(r, f, key);
    }
  }

  lemma NoKind(r: Registry, f: Facts, key: Key)
    requires key.kind !in r
    ensures Raw(r, f, key).None? && !WaivedKey(r, f, key)
  {
  }

  /** What becomes of one open finding of the task. */
  method Judge(r: Registry, f: Facts, o: Finding, desired: map<Key, Instance>, waived: set<Key>)
      returns (t: Option<Transition>)
    requires o.key.task == f.task && o.key.kind in r && r[o.key.kind].managed
    requires Looks(desired, o.key, Wanted(r, f, o.key, true)) && (o.key in waived <==> WaivedKey(r, f, o.key))
    ensures t == Decide(r, f, o.key, Some(o))
  {
    hide Wanted;
    hide WaivedKey;
    hide InstanceComplete;
    hide ConfigScoped;
    hide Rank;
    hide Texts.Join;
    hide Texts.TrimSpace;
    var key, spec := o.key, r[o.key.kind];
    if key in desired {
      var want := desired[key];
      var op := None;
      if Rank(want.content.severity) > Rank(o.content.severity) {
        op := Some(Escalate);
      } else if Rank(want.content.severity) < Rank(o.content.severity) {
        op := Some(Downgrade);
      } else if want.content.severity != o.content.severity || want.content.detail != o.content.detail
             || want.content.evidence != o.content.evidence
             || Texts.Join(want.content.segments, '\0') != Texts.Join(o.content.segments, '\0') {
        op := Some(Update);
      }
      if (op == Some(Update) || op == Some(Downgrade)) && !InstanceComplete(f, spec, key) {
        op := None;
      }
      return if op.Some? then Some(Transition(key, op.value, "EVAL", f.now, Some(FactAt(want, f)), spec.version, want))
          else None;
    }
    if f.noObjectStorage && ConfigScoped(key) {
      return Some(ConfigClose(f, spec, o));
    }
    if !InstanceComplete(f, spec, key) {
      return None;
    }
    if key in waived {
      return Some(CloseOf(f, spec, o, "WAIVED"));
    }
    if spec.clear.holds.Some? && !spec.clear.holds.value(f, key) {
      return None;
    }
    if spec.clear.holdDown > 0 && (key !in f.absentSince || f.now - f.absentSince[key] < spec.clear.holdDown) {
      return None;
    }
    var reason := "EVAL";
    if spec.clear.reason.Some? {
      var named := spec.clear.reason.value(f, key);
      if named != "" {
        reason := named;
      }
    }
    return Some(CloseOf(f, spec, o, reason));
  }

  lemma {:induction false} HeldFirst(open: seq<Finding>, i: nat)
    requires i < |open| && forall j :: 0 <= j < i ==> open[j].key != open[i].key
    ensures Held(open, open[i].key) == Some(open[i])
  {
    if i > 0 {
      HeldFirst(open[1..], i - 1);
    }
  }

  lemma {:induction false} HeldIffListed(open: seq<Finding>, key: Key)
    ensures Held(open, key).Some? <==> exists i :: 0 <= i < |open| && open[i].key == key
    ensures Held(open, key).Some? ==> Held(open, key).value.key == key && Held(open, key).value in open
  {
    if open == [] {
    } else {
      HeldIffListed(open[1..], key);
      assert open == [open[0]] + open[1..];
    }
  }

  /** The finding is one this evaluation may change. */
  predicate Ours(r: Registry, f: Facts, o: Finding) {
    o.key.task == f.task && o.key.kind in r && r[o.key.kind].managed
  }

  ghost predicate Decided(r: Registry, f: Facts, open: seq<Finding>, t: Transition) {
    Decide(r, f, t.key, Held(open, t.key)) == Some(t)
  }

  method Walk(r: Registry, f: Facts, open: seq<Finding>, desired: map<Key, Instance>, waived: set<Key>)
    returns (out: seq<Transition>, seen: set<Key>)
    requires forall key :: Looks(desired, key, Wanted(r, f, key, Held(open, key).Some?))
              && (key in waived <==> WaivedKey(r, f, key))
    ensures DistinctKeys(out) && forall i :: 0 <= i < |out| ==> out[i].key in seen && Decided(r, f, open, out[i])
    ensures forall key :: key in seen <==> exists i :: 0 <= i < |open| && open[i].key == key && Ours(r, f, open[i])
    ensures forall key :: key in seen && Decide(r, f, key, Held(open, key)).Some? ==>
              Decide(r, f, key, Held(open, key)).value in out
  {
    hide Decide;
    hide Wanted;
    hide WaivedKey;
    hide Held;
    out, seen := [], {};
    for i := 0 to |open|
      invariant DistinctKeys(out) && forall j :: 0 <= j < |out| ==> out[j].key in seen && Decided(r, f, open, out[j])
      invariant forall key :: key in seen <==> exists j :: 0 <= j < i && open[j].key == key && Ours(r, f, open[j])
      invariant forall key :: key in seen && Decide(r, f, key, Held(open, key)).Some? ==>
                Decide(r, f, key, Held(open, key)).value in out
    {
      var o := open[i];
      if Ours(r, f, o) && o.key !in seen {
        assert forall j :: 0 <= j < i && open[j].key == o.key ==> Ours(r, f, open[j]);
        HeldFirst(open, i);
        seen := seen + {o.key};
        var t := Judge(r, f, o, desired, waived);
        DecidedKey(r, f, o.key, Some(o));
        if t.Some? {
          out := out + [t.value];
        }
      }
    }
  }

  /** The findings that should be open and are not. */
  method Missing(r: Registry, f: Facts, open: seq<Finding>, desired: map<Key, Instance>, seen: set<Key>)
      returns (out: seq<Transition>)
    requires forall key :: key in desired && key !in seen ==>
              Decide(r, f, key, Held(open, key)) == Some(OpenOf(r, f, key, desired[key]))
    ensures DistinctKeys(out) && forall i :: 0 <= i < |out| ==> out[i].key !in seen && Decided(r, f, open, out[i])
    ensures forall key :: key in desired && key !in seen ==> OpenOf(r, f, key, desired[key]) in out
  {
    hide Decide;
    hide Held;
    out := [];
    var todo := desired.Keys;
    while todo != {}
      invariant todo <= desired.Keys
      invariant DistinctKeys(out)
      invariant forall i :: 0 <= i < |out| ==>
                out[i].key !in seen && out[i].key in desired.Keys - todo && Decided(r, f, open, out[i])
      invariant forall key :: key in desired.Keys - todo && key !in seen ==> OpenOf(r, f, key, desired[key]) in out
      decreases todo
    {
      var key :| key in todo;
      todo := todo - {key};
      if key !in seen {
        out := out + [OpenOf(r, f, key, desired[key])];
      }
    }
  }

  /** The transitions of one evaluation: every decision, in key order, and nothing else. */
  method Reconcile(r: Registry, open: seq<Finding>, f: Facts) returns (ts: seq<Transition>, desired: map<Key, Instance>)
    ensures IsPlan(r, f, open, ts)
    ensures forall key :: Looks(desired, key, Wanted(r, f, key, Held(open, key).Some?))
  {
    hide Raw;
    hide WaivedKey;
    hide Held;
    hide NeedsConfirm;
    var openKeys := {};
    for i := 0 to |open|
      invariant forall key :: key in openKeys <==> exists j :: 0 <= j < i && open[j].key == key && key.task == f.task
    {
      if open[i].key.task == f.task {
        openKeys := openKeys + {open[i].key};
      }
    }
    var raw, waived := DeriveRaw(r, f);
    desired := map key | key in raw
                         && !(NeedsConfirm(r, raw[key]) && key !in openKeys && key !in f.open
                               && key !in f.confirmed) :: raw[key];
    forall key ensures Looks(desired, key, Wanted(r, f, key, Held(open, key).Some?)) {
      RawIsJudged(r, f, key);
      HeldIffListed(open, key);
    }
    var changed, seen := Walk(r, f, open, desired, waived);
    forall key
      ensures key !in seen ==>
                Decide(r, f, key, Held(open, key)) == if key in desired then Some(OpenOf(r, f, key, desired[key]))
                    else None
    {
      if key !in seen {
        Unseen(r, f, open, key);
      }
    }
    var missing := Missing(r, f, open, desired, seen);
    var all := changed + missing;
    SortedByKey(all);
    ts := SortByKey(all);
    AllDecided(r, f, open, all, ts);
  }

  lemma Unseen(r: Registry, f: Facts, open: seq<Finding>, key: Key)
    requires !exists i :: 0 <= i < |open| && open[i].key == key && Ours(r, f, open[i])
    ensures var want := Wanted(r, f, key, Held(open, key).Some?);
            Decide(r, f, key, Held(open, key)) == if want.Some? then Some(OpenOf(r, f, key, want.value)) else None
  {
    hide Raw;
    HeldIffListed(open, key);
    RawIsJudged(r, f, key);
  }

  lemma AllDecided(r: Registry, f: Facts, open: seq<Finding>, all: seq<Transition>, ts: seq<Transition>)
    requires Ordered(ts) && forall x :: x in ts <==> x in all
    requires forall i :: 0 <= i < |all| ==> Decided(r, f, open, all[i])
    requires forall key :: Decide(r, f, key, Held(open, key)).Some? ==> Decide(r, f, key, Held(open, key)).value in all
    ensures IsPlan(r, f, open, ts)
  {
    hide Decide;
    hide Held;
    forall i | 0 <= i < |ts| ensures Decide(r, f, ts[i].key, Held(open, ts[i].key)) == Some(ts[i]) {
      assert ts[i] in all;
    }
  }
}
