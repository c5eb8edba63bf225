/**
 What a decision of `Reconciles` means, said on the facts themselves: the
 scopes a kind lists, the instances it derives, the waivers, the signals and
 the clear rule.
 */
module FindingLaws {
  import opened Wrappers
  import opened Findings
  import opened Reconciles
  import Texts
  import CanonicalRanges

  // ---- Scopes --------------------------------------------------------------------

  ghost predicate ObjectOf(subject: string, segment: string) { subject == segment + "#object" }

  ghost predicate IsObject(subject: string) { exists segment :: ObjectOf(subject, segment) }

  /** A scope the kind is judged from; a missing local segment does not need the object listing. */
  ghost predicate Needs(spec: KindSpec, scope: string) {
    scope in spec.scopes && !(spec.kind == "SEGMENT_MISSING" && scope == "chain.objects")
  }

  /** Everything the instance is judged from was read completely. */
  ghost predicate ScopesMet(f: Facts, spec: KindSpec, key: Key) {
    if IsObject(key.subject) then
      "chain.objects" in f.complete && exists segment :: ObjectOf(key.subject, segment) && segment in f.objectSegments
    else (exists scope :: Needs(spec, scope)) && forall scope :: Needs(spec, scope) ==> scope in f.complete
  }

  lemma ObjectSegmentIs(subject: string)
    ensures ObjectSegment(subject).Some? <==> IsObject(subject)
    ensures forall segment :: ObjectOf(subject, segment) <==> ObjectSegment(subject) == Some(segment)
  {
    forall segment ensures ObjectOf(subject, segment) <==> ObjectSegment(subject) == Some(segment) {
      if ObjectOf(subject, segment) {
        assert subject[..|segment|] == segment && subject[|segment|..] == "#object";
      }
      if ObjectSegment(subject) == Some(segment) {
        assert subject == subject[..|subject| - 7] + subject[|subject| - 7..];
      }
    }
    if ObjectSegment(subject).Some? {
      assert ObjectOf(subject, ObjectSegment(subject).value);
    }
  }

  lemma {:induction false} WithoutObjectsIs(scopes: seq<string>)
    ensures forall s :: s in WithoutObjects(scopes) <==> s in scopes && s != "chain.objects"
  {
    if scopes == [] {
    } else {
      WithoutObjectsIs(scopes[1..]);
      assert scopes == [scopes[0]] + scopes[1..];
    }
  }

  lemma AllCompleteIs(f: Facts, scopes: seq<string>)
    ensures AllComplete(f, scopes) <==> (exists s :: s in scopes) && forall s :: s in scopes ==> s in f.complete
  {
    if scopes != [] {
      assert scopes[0] in scopes;
    }
    assert forall i :: 0 <= i < |scopes| ==> scopes[i] in scopes;
  }

  lemma CompleteIff(f: Facts, spec: KindSpec, key: Key)
    ensures InstanceComplete(f, spec, key) <==> ScopesMet(f, spec, key)
  {
    hide AllComplete;
    hide ObjectOf;
    ObjectSegmentIs(key.subject);
    WithoutObjectsIs(spec.scopes);
    AllCompleteIs(f, spec.scopes);
    AllCompleteIs(f, WithoutObjects(spec.scopes));
    var scopes := if spec.kind == "SEGMENT_MISSING" then WithoutObjects(spec.scopes) else spec.scopes;
    assert forall s :: Needs(spec, s) <==> s in scopes;
  }

  // ---- Severity ------------------------------------------------------------------

  /** CRITICAL is graver than WARNING, WARNING than INFO, and INFO than anything else. */
  ghost predicate Graver(a: Severity, b: Severity) {
    || (a == "CRITICAL" && b != "CRITICAL")
    || (a == "WARNING" && b != "CRITICAL" && b != "WARNING")
    || (a == "INFO" && b != "CRITICAL" && b != "WARNING" && b != "INFO")
  }

  lemma RankIs(a: Severity, b: Severity)
    ensures Rank(a) > Rank(b) <==> Graver(a, b)
  {
  }

  /** Findings are ordered by task, then by kind, then by subject. */
  lemma KeyOrder(a: Key, b: Key)
    ensures LessKey(a, b) <==>
              || Texts.Less(a.task, b.task)
              || (a.task == b.task && Texts.Less(a.kind, b.kind))
              || (a.task == b.task && a.kind == b.kind && Texts.Less(a.subject, b.subject))
  {
    Texts.LessTotal(a.task, b.task);
    Texts.LessTotal(a.kind, b.kind);
  }

  /** Of several findings listed under one key the first counts. */
  lemma {:induction false} HeldIs(open: seq<Finding>, key: Key)
    ensures Held(open, key).None? <==> forall i :: 0 <= i < |open| ==> open[i].key != key
    ensures forall i :: 0 <= i < |open| && open[i].key == key && (forall j :: 0 <= j < i ==> open[j].key != key) ==>
              Held(open, key) == Some(open[i])
  {
    if open == [] {
    } else {
      HeldIs(open[1..], key);
      assert forall i :: 0 < i < |open| ==> open[i] == open[1..][i-1];
      assert forall i :: 0 <= i < |open[1..]| ==> open[1..][i] == open[i+1];
    }
  }

  // ---- What the kind derives -----------------------------------------------------

  /** What the kind of the key derives: nothing, unless it is managed and its first scope was read completely. */
  ghost function Listing(r: Registry, f: Facts, key: Key): seq<Instance> {
    if key.task == f.task && key.kind in r && r[key.kind].managed && r[key.kind].derive.Some?
       && r[key.kind].scopes != [] && r[key.kind].scopes[0] in f.complete
    then r[key.kind].derive.value(f) else []
  }

  /** A waiver of the key names exactly the transactions of the evidence. */
  ghost predicate Exempt(f: Facts, spec: KindSpec, key: Key, evidence: string) {
    spec.waivable && evidence != "" && exists i :: 0 <= i < |f.waivers| && NamesTheSet(f.waivers[i], key, evidence)
  }

  ghost predicate About(r: Registry, f: Facts, key: Key, n: nat) {
    n < |Listing(r, f, key)| && Listing(r, f, key)[n].key.subject == key.subject
  }

  ghost predicate Derives(r: Registry, f: Facts, key: Key, n: nat) {
    About(r, f, key, n) && !Exempt(f, r[key.kind], key, Listing(r, f, key)[n].content.evidence)
  }

  ghost function SeverityOf(spec: KindSpec, i: Instance): Severity {
    if i.content.severity == "" then spec.severity else i.content.severity
  }

  /** Instance `n` is the one wanted: the first of the gravest that no waiver exempts. */
  ghost predicate Gravest(r: Registry, f: Facts, key: Key, n: nat) {
    && Derives(r, f, key, n)
    && forall m: nat :: Derives(r, f, key, m) ==>
         var a, b := SeverityOf(r[key.kind], Listing(r, f, key)[m]), SeverityOf(r[key.kind], Listing(r, f, key)[n]);
         !Graver(a, b) && (m < n ==> Graver(b, a))
  }

  /** What is wanted is that instance, under this key and with the severity of its kind where it names none. */
  ghost predicate Carries(r: Registry, f: Facts, key: Key, n: nat, want: Instance)
    requires About(r, f, key, n)
  {
    var i := Listing(r, f, key)[n];
    && want.key == key && want.content.severity == SeverityOf(r[key.kind], i)
    && want.content.detail == i.content.detail && want.content.evidence == i.content.evidence
    && want.content.segments == i.content.segments && want.factAt == i.factAt && want.confirm == i.confirm
  }

  lemma WaivedIs(f: Facts, key: Key, evidence: string, spec: KindSpec)
    ensures Waived(f, key, evidence, spec) <==> Exempt(f, spec, key, evidence)
  {
    hide CanonicalRanges.Canon;
    hide NamesTheSet;
    hide WaivedBy;
    if spec.waivable && evidence != "" {
      WaivedIffSameTransactions(f, key, evidence, spec);
    }
  }

  lemma DerivedIs(r: Registry, f: Facts, key: Key, n: nat)
    requires key.kind in r
    ensures var list := Derived(r, f, key.kind);
            && (About(r, f, key, n) <==> n < |list| && list[n].key == key)
            && (About(r, f, key, n) ==> Carries(r, f, key, n, list[n]))
            && (Derives(r, f, key, n) <==> Counts(f, r[key.kind], list, key, n))
  {
    hide Waived;
    hide Exempt;
    var list := Derived(r, f, key.kind);
    if n < |list| {
      WaivedIs(f, key, list[n].content.evidence, r[key.kind]);
    }
  }

  /** Nothing is wanted exactly when no instance counts; else the gravest one. */
  lemma RawIs(r: Registry, f: Facts, key: Key)
    ensures Raw(r, f, key).None? <==> forall n: nat :: !Derives(r, f, key, n)
    ensures Raw(r, f, key).Some? ==>
              exists n: nat :: Gravest(r, f, key, n) && Carries(r, f, key, n, Raw(r, f, key).value)
  {
    hide Waived;
    hide Exempt;
    hide Derived;
    hide Best;
    if key.kind in r {
      var list := Derived(r, f, key.kind);
      BestIsMostSevere(f, r[key.kind], list, key);
      forall n: nat ensures Derives(r, f, key, n) <==> Counts(f, r[key.kind], list, key, n) {
        DerivedIs(r, f, key, n);
      }
      if Raw(r, f, key).Some? {
        var n: nat :| Counts(f, r[key.kind], list, key, n) && list[n] == Raw(r, f, key).value
                      && IsMostSevere(f, r[key.kind], list, key, n);
        DerivedIs(r, f, key, n);
        IsGravest(r, f, key, n);
      }
    }
  }

  lemma IsGravest(r: Registry, f: Facts, key: Key, n: nat)
    requires key.kind in r
    requires var list := Derived(r, f, key.kind);
             Counts(f, r[key.kind], list, key, n) && IsMostSevere(f, r[key.kind], list, key, n)
    ensures Gravest(r, f, key, n)
  {
    hide Waived;
    hide Exempt;
    hide Derived;
    hide Rank;
    hide Graver;
    var list := Derived(r, f, key.kind);
    DerivedIs(r, f, key, n);
    forall m: nat | Derives(r, f, key, m)
      ensures var l, spec := Listing(r, f, key), r[key.kind];
              var a, b := SeverityOf(spec, l[m]), SeverityOf(spec, l[n]);
              !Graver(a, b) && (m < n ==> Graver(b, a))
    {
      DerivedIs(r, f, key, m);
      RankIs(list[m].content.severity, list[n].content.severity);
      RankIs(list[n].content.severity, list[m].content.severity);
    }
  }

  // ---- What is decided -----------------------------------------------------------

  /** The decision takes up the wanted instance, with this operation. */
  ghost predicate TakesUp(r: Registry, f: Facts, key: Key, op: Op, want: Instance, t: Option<Transition>) {
    && t.Some? && t.value.key == key && t.value.op == op && t.value.reason == "EVAL" && t.value.at == f.now
    && t.value.instance == want && key.kind in r && t.value.version == r[key.kind].version
    && t.value.factAt == Some(if want.factAt.Some? then want.factAt.value else f.now)
  }

  /** When a close happened: when the signal of the key answered again, if that is known and not later than now. */
  ghost predicate ClosesAt(f: Facts, key: Key, t: int) {
    var k := SignalKey(key.kind, key.subject);
    if k in f.signals && f.signals[k].successSeq > 0 && f.signals[k].failureSeq < f.signals[k].successSeq
       && f.signals[k].successFactAt.Some? && f.signals[k].successFactAt.value <= f.now
    then f.signals[k].successFactAt == Some(t)
    else t == f.now
  }

  /** The decision closes the finding, for this reason. */
  ghost predicate Closes(r: Registry, f: Facts, have: Finding, reason: string, t: Option<Transition>) {
    && t.Some? && t.value.key == have.key && t.value.op == Close && t.value.reason == reason && t.value.at == f.now
    && have.key.kind in r && t.value.version == r[have.key.kind].version
    && t.value.factAt.Some? && ClosesAt(f, have.key, t.value.factAt.value)
    && t.value.instance.key == have.key && t.value.instance.factAt.None? && !t.value.instance.confirm
    && t.value.instance.content.severity == have.content.severity
    && t.value.instance.content.evidence == have.content.evidence
    && t.value.instance.content.segments == have.content.segments
    && (reason != "CONFIG" ==> t.value.instance.content.detail == have.content.detail)
  }

  /** The finding exists only because the task has object storage. */
  ghost predicate NeedsObjectStorage(key: Key) {
    IsObject(key.subject) || key.kind == "UPLOAD_LATE" || key.kind == "ORPHAN_ROW"
  }

  /** Some instance of the key is exempt. */
  ghost predicate SomeExempt(r: Registry, f: Facts, key: Key) {
    exists n: nat :: About(r, f, key, n) && Exempt(f, r[key.kind], key, Listing(r, f, key)[n].content.evidence)
  }

  lemma WaivedKeyIs(r: Registry, f: Facts, key: Key)
    ensures WaivedKey(r, f, key) <==> SomeExempt(r, f, key)
  {
    hide Waived;
    hide Exempt;
    hide Derived;
    if key.kind in r {
      var list := Derived(r, f, key.kind);
      forall n: nat ensures About(r, f, key, n) <==> n < |list| && list[n].key == key { DerivedIs(r, f, key, n); }
      forall n: nat | About(r, f, key, n)
        ensures Listing(r, f, key)[n].content.evidence == list[n].content.evidence
        ensures Waived(f, key, list[n].content.evidence, r[key.kind]) <==>
                  Exempt(f, r[key.kind], key, list[n].content.evidence)
      {
        DerivedIs(r, f, key, n);
        WaivedIs(f, key, list[n].content.evidence, r[key.kind]);
      }
    }
  }

  /** The clear rule holds, and has long enough. */
  ghost predicate MayClear(f: Facts, spec: KindSpec, key: Key) {
    && (spec.clear.holds.None? || spec.clear.holds.value(f, key))
    && (spec.clear.holdDown <= 0 || (key in f.absentSince && f.absentSince[key] + spec.clear.holdDown <= f.now))
  }

  /** The two are told apart: by severity, detail, evidence or the joined segments. */
  ghost predicate Differs(a: Content, b: Content) {
    || a.severity != b.severity || a.detail != b.detail || a.evidence != b.evidence
    || Texts.Join(a.segments, '\0') != Texts.Join(b.segments, '\0')
  }

  /** A kind that this evaluation decides about. */
  ghost predicate Decides(r: Registry, f: Facts, key: Key) {
    key.task == f.task && key.kind in r && r[key.kind].managed
  }

  lemma OutsideIsLeft(r: Registry, f: Facts, key: Key, have: Option<Finding>)
    requires !Decides(r, f, key)
    ensures Decide(r, f, key, have) == None
  {
  }

  /** A finding opens exactly when it is derived and, if its kind asks for it, confirmed. */
  lemma OpensIff(r: Registry, f: Facts, key: Key)
    requires Decides(r, f, key)
    ensures var raw, t := Raw(r, f, key), Decide(r, f, key, None);
            if raw.Some? && ((r[key.kind].confirm || raw.value.confirm) ==> key in f.open || key in f.confirmed)
            then TakesUp(r, f, key, Open, raw.value, t) else t == None
  {
    hide Best;
    RawIsJudged(r, f, key);
  }

  /**
   An open finding that is still derived is raised whenever it got graver, and
   lowered or rewritten only when every scope it needs was read completely.
   */
  lemma ChangesIff(r: Registry, f: Facts, have: Finding)
    requires Decides(r, f, have.key) && Raw(r, f, have.key).Some?
    ensures var want, t, spec := Raw(r, f, have.key).value, Decide(r, f, have.key, Some(have)), r[have.key.kind];
            if Graver(want.content.severity, have.content.severity) then TakesUp(r, f, have.key, Escalate, want, t)
            else if !ScopesMet(f, spec, have.key) then t == None
            else if Graver(have.content.severity, want.content.severity) then
              TakesUp(r, f, have.key, Downgrade, want, t)
            else if Differs(want.content, have.content) then TakesUp(r, f, have.key, Update, want, t)
            else t == None
  {
    hide Raw;
    hide Rank;
    hide Graver;
    hide Texts.Join;
    hide InstanceComplete;
    hide ScopesMet;
    var want := Raw(r, f, have.key).value;
    CompleteIff(f, r[have.key.kind], have.key);
    RankIs(want.content.severity, have.content.severity);
    RankIs(have.content.severity, want.content.severity);
  }

  /**
   An open finding that is no longer derived closes because object storage was
   removed, or, once every scope it needs was read completely, because it was
   waived or its clear rule holds; otherwise it stays.
   */
  lemma ClosesIff(r: Registry, f: Facts, have: Finding)
    requires Decides(r, f, have.key) && Raw(r, f, have.key).None?
    ensures var t, spec := Decide(r, f, have.key, Some(have)), r[have.key.kind];
            if f.noObjectStorage && NeedsObjectStorage(have.key) then Closes(r, f, have, "CONFIG", t)
            else if !ScopesMet(f, spec, have.key) then t == None
            else if SomeExempt(r, f, have.key) then Closes(r, f, have, "WAIVED", t)
            else if MayClear(f, spec, have.key) then
              var reason := if spec.clear.reason.Some? then spec.clear.reason.value(f, have.key) else "";
              Closes(r, f, have, if reason == "" then "EVAL" else reason, t)
            else t == None
  {
    hide Raw;
    hide WaivedKey;
    hide SomeExempt;
    hide InstanceComplete;
    hide ScopesMet;
    hide ObjectOf;
    CompleteIff(f, r[have.key.kind], have.key);
    WaivedKeyIs(r, f, have.key);
    ObjectSegmentIs(have.key.subject);
  }

  /** A removed object storage is said in the detail, behind what it said before. */
  lemma ConfigCloseSays(f: Facts, spec: KindSpec, have: Finding)
    ensures var note :=
              " \U{2014} object storage no longer configured (" + f.objectConfigAudit + "; at " + f.nowText + ")";
            ConfigClose(f, spec, have).instance.content.detail == Texts.TrimSpace(have.content.detail + note)
  {
  }

  // ---- The laws ------------------------------------------------------------------

  /**
   An evaluation that missed a scope the finding needs never closes, lowers or
   rewrites it, except a close because object storage was removed.
   */
  lemma IncompleteScopeOnlyRaises(r: Registry, f: Facts, have: Finding, scope: string)
    requires have.key.kind in r && !IsObject(have.key.subject)
    requires Needs(r[have.key.kind], scope) && scope !in f.complete
    ensures var t := Decide(r, f, have.key, Some(have));
            || t == None
            || (t.value.op == Escalate && Graver(t.value.instance.content.severity, have.content.severity))
            || (t.value.op == Close && t.value.reason == "CONFIG" && f.noObjectStorage && NeedsObjectStorage(have.key))
  {
    hide Raw;
    hide Decide;
    hide SomeExempt;
    OnlyRaises(r, f, have);
  }

  /** Nor does one that did not list the objects of the segment of an object finding. */
  lemma UnlistedObjectOnlyRaises(r: Registry, f: Facts, have: Finding, segment: string)
    requires have.key.kind in r && ObjectOf(have.key.subject, segment)
    requires "chain.objects" !in f.complete || segment !in f.objectSegments
    ensures var t := Decide(r, f, have.key, Some(have));
            || t == None
            || (t.value.op == Escalate && Graver(t.value.instance.content.severity, have.content.severity))
            || (t.value.op == Close && t.value.reason == "CONFIG" && f.noObjectStorage)
  {
    hide Raw;
    hide Decide;
    hide SomeExempt;
    hide ObjectOf;
    ObjectSegmentIs(have.key.subject);
    OnlyRaises(r, f, have);
  }

  lemma OnlyRaises(r: Registry, f: Facts, have: Finding)
    requires have.key.kind in r && !ScopesMet(f, r[have.key.kind], have.key)
    ensures var t := Decide(r, f, have.key, Some(have));
            || t == None
            || (t.value.op == Escalate && Graver(t.value.instance.content.severity, have.content.severity))
            || (t.value.op == Close && t.value.reason == "CONFIG" && f.noObjectStorage && NeedsObjectStorage(have.key))
  {
    hide Raw;
    hide Decide;
    hide SomeExempt;
    hide ScopesMet;
    hide Graver;
    if !Decides(r, f, have.key) {
      OutsideIsLeft(r, f, have.key, Some(have));
    } else if Raw(r, f, have.key).Some? {
      ChangesIff(r, f, have);
    } else {
      ClosesIff(r, f, have);
    }
  }

  /** With every scope complete, no instance derived and the clear rule holding, an open finding closes. */
  lemma UnderivedCloses(r: Registry, f: Facts, have: Finding)
    requires Decides(r, f, have.key) && ScopesMet(f, r[have.key.kind], have.key)
    requires forall n: nat :: !About(r, f, have.key, n)
    requires MayClear(f, r[have.key.kind], have.key)
    ensures var t := Decide(r, f, have.key, Some(have)); t.Some? && t.value.op == Close
  {
    hide Raw;
    hide Decide;
    hide Exempt;
    hide ScopesMet;
    hide MayClear;
    RawIs(r, f, have.key);
    ClosesIff(r, f, have);
  }

  /** A finding closes only when every instance of it is exempt or gone, and then only for one of these reasons. */
  lemma ClosesOnlyUnderived(r: Registry, f: Facts, have: Finding)
    requires var t := Decide(r, f, have.key, Some(have)); t.Some? && t.value.op == Close
    ensures forall n: nat :: !Derives(r, f, have.key, n)
    ensures Decides(r, f, have.key)
    ensures || (f.noObjectStorage && NeedsObjectStorage(have.key))
            || (ScopesMet(f, r[have.key.kind], have.key)
                && (SomeExempt(r, f, have.key) || MayClear(f, r[have.key.kind], have.key)))
  {
    hide Raw;
    hide Decide;
    hide Exempt;
    hide ScopesMet;
    hide MayClear;
    hide Graver;
    if !Decides(r, f, have.key) {
      OutsideIsLeft(r, f, have.key, Some(have));
    }
    if Raw(r, f, have.key).Some? {
      ChangesIff(r, f, have);
    }
    RawIs(r, f, have.key);
    ClosesIff(r, f, have);
  }
}
