/** The recovery sets reported for a task directory with a damaged segment. */
module Recovery {
  import opened Wrappers
  import opened Intervals
  import opened GtidSets

  /** What a readable segment stores: its transactions and its previous-GTIDs header, when that parses. */
  datatype Contents = Contents(gtids: Sets, previous: Option<Sets>)

  /** A segment in binlog order: its file index, its contents when it can be read, and the damage signature. */
  datatype Segment = Segment(name: string, index: nat, contents: Option<Contents>, damaged: bool)

  predicate GoodSegment(g: Segment) {
    g.contents.Some? ==>
      Good(g.contents.value.gtids) && (g.contents.value.previous.Some? ==> Good(g.contents.value.previous.value))
  }

  predicate GoodSegments(segs: seq<Segment>) { forall i :: 0 <= i < |segs| ==> GoodSegment(segs[i]) }

  predicate GoodOption(s: Option<Sets>) { s.Some? ==> Good(s.value) }

  ghost predicate MemOption(s: Option<Sets>, k: string, x: int) { s.Some? && Mem(s.value, k, x) }

  /** Some readable segment of the list stores the transaction. */
  ghost predicate StoredIn(segs: seq<Segment>, k: string, x: int) {
    exists i :: 0 <= i < |segs| && segs[i].contents.Some? && Mem(segs[i].contents.value.gtids, k, x)
  }

  /** The transactions before the directory: the start set and the first segment's header. */
  ghost predicate InBase(segs: seq<Segment>, start: Option<Sets>, k: string, x: int) {
    || MemOption(start, k, x)
    || (segs != [] && segs[0].contents.Some? && MemOption(segs[0].contents.value.previous, k, x))
  }

  datatype Problem = Problem(segment: string, valid: seq<string>, missing: Sets, restart: Option<Sets>)

  /** The segments before index `n` that are older than the damaged one. */
  function Older(segs: seq<Segment>, n: nat, index: nat): seq<Segment>
    requires n <= |segs|
  {
    if n == 0 then [] else Older(segs, n - 1, index) + (if segs[n-1].index < index then [segs[n-1]] else [])
  }

  lemma {:induction false} OlderAreStored(segs: seq<Segment>, n: nat, index: nat, i: nat)
    requires n <= |segs| && i < |Older(segs, n, index)|
    ensures Older(segs, n, index)[i] in segs && Older(segs, n, index)[i].index < index
  {
    if n > 0 && i < |Older(segs, n - 1, index)| {
      OlderAreStored(segs, n - 1, index, i);
    }
  }

  /** All segments before `n` with a smaller file index, and no others. */
  lemma {:induction false} OlderIs(segs: seq<Segment>, n: nat, index: nat)
    requires n <= |segs|
    ensures forall s :: s in Older(segs, n, index) <==> exists j :: 0 <= j < n && segs[j] == s && s.index < index
  {
    if n == 0 {
    } else {
      OlderIs(segs, n - 1, index);
    }
  }

  /** What the older segments store, and their names, said on the directory itself. */
  lemma OlderStore(segs: seq<Segment>, n: nat, index: nat)
    requires n <= |segs|
    ensures forall k, x :: StoredIn(Older(segs, n, index), k, x) <==>
              exists j :: 0 <= j < n && segs[j].index < index && segs[j].contents.Some?
                          && Mem(segs[j].contents.value.gtids, k, x)
    ensures forall name :: name in Names(Older(segs, n, index)) <==>
              exists j :: 0 <= j < n && segs[j].index < index && segs[j].name == name
  {
    var older := Older(segs, n, index);
    OlderIs(segs, n, index);
    assert forall i :: 0 <= i < |older| ==> older[i] in older;
    forall j | 0 <= j < n && segs[j].index < index ensures exists i :: 0 <= i < |older| && older[i] == segs[j] {
      assert segs[j] in older;
    }
    forall k, x | StoredIn(older, k, x)
      ensures exists j :: 0 <= j < n && segs[j].index < index && segs[j].contents.Some?
                          && Mem(segs[j].contents.value.gtids, k, x)
    {
      var i :| 0 <= i < |older| && older[i].contents.Some? && Mem(older[i].contents.value.gtids, k, x);
      assert older[i] in older;
    }
    assert forall i :: 0 <= i < |older| ==> Names(older)[i] == older[i].name;
  }

  /** The base set and every stored transaction of the directory. */
  method Gather(all: seq<Segment>, start: Option<Sets>) returns (base: Sets, stored: Sets)
    requires GoodSegments(all) && GoodOption(start)
    ensures Good(base) && Good(stored)
    ensures forall k, x :: Mem(stored, k, x) <==> StoredIn(all, k, x)
    ensures forall k, x :: Mem(base, k, x) <==> InBase(all, start, k, x)
  {
    var b := new GtidSet();
    if start.Some? {
      b.AddAll(start.value);
    }
    var g := new GtidSet();
    for i := 0 to |all|
      invariant Good(b.m) && Good(g.m) && fresh(b) && fresh(g) && b != g
      invariant forall k, x :: Mem(g.m, k, x) <==> StoredIn(all[..i], k, x)
      invariant forall k, x :: Mem(b.m, k, x) <==> InBase(all[..i], start, k, x)
    {
      StoredInNext(all, i);
      assert GoodSegment(all[i]) && (i > 0 ==> all[..i][0] == all[0]) && all[..i+1][0] == all[0];
      if all[i].contents.None? {
        continue;
      }
      var c := all[i].contents.value;
      g.AddAll(c.gtids);
      if i == 0 && c.previous.Some? {
        b.AddAll(c.previous.value);
      }
    }
    assert all[..|all|] == all;
    base, stored := b.m, g.m;
  }

  method AddStored(base: Sets, valid: seq<Segment>) returns (r: Sets)
    requires Good(base) && GoodSegments(valid)
    ensures Good(r) && forall k, x :: Mem(r, k, x) <==> Mem(base, k, x) || StoredIn(valid, k, x)
  {
    var again := new GtidSet();
    again.AddAll(base);
    for i := 0 to |valid|
      invariant Good(again.m) && fresh(again)
      invariant forall k, x :: Mem(again.m, k, x) <==> Mem(base, k, x) || StoredIn(valid[..i], k, x)
    {
      StoredInNext(valid, i);
      assert GoodSegment(valid[i]);
      if valid[i].contents.Some? {
        again.AddAll(valid[i].contents.value.gtids);
      }
    }
    assert valid[..|valid|] == valid;
    r := again.m;
  }

  method RecoverySets(all: seq<Segment>, valid: seq<Segment>, checkpoint: Option<Sets>, start: Option<Sets>)
    returns (missing: Sets, restart: Option<Sets>)
    requires GoodSegments(all) && GoodSegments(valid) && GoodOption(checkpoint) && GoodOption(start)
    ensures Good(missing) && GoodOption(restart)
    ensures forall k, x :: Mem(missing, k, x) <==>
              MemOption(checkpoint, k, x) && !InBase(all, start, k, x) && !StoredIn(all, k, x)
    ensures restart.None? <==> forall k, x :: !InBase(all, start, k, x)
    ensures restart.Some? ==> forall k, x :: Mem(restart.value, k, x) <==>
              InBase(all, start, k, x) || StoredIn(valid, k, x)
  {
    var base, stored := Gather(all, start);
    hide InBase;
    hide StoredIn;
    hide Good;
    missing := map[];
    assert Good(missing) by { EmptyIsGood(); }
    if checkpoint.Some? {
      missing := Minus(checkpoint.value, base);
      missing := Minus(missing, stored);
    }
    EmptyIff(base);
    if base == map[] {
      return missing, None;
    }
    var again := AddStored(base, valid);
    restart := Some(again);
  }

  lemma EmptyIsGood()
    ensures Good(map[])
  {
  }

  lemma StoredInNext(segs: seq<Segment>, i: nat)
    requires i < |segs|
    ensures forall k, x :: StoredIn(segs[..i+1], k, x) <==>
              StoredIn(segs[..i], k, x) || (segs[i].contents.Some? && Mem(segs[i].contents.value.gtids, k, x))
  {
    forall k, x ensures StoredIn(segs[..i+1], k, x) <==>
      StoredIn(segs[..i], k, x) || (segs[i].contents.Some? && Mem(segs[i].contents.value.gtids, k, x))
    {
      assert segs[..i+1][i] == segs[i];
      assert forall j :: 0 <= j < i ==> segs[..i+1][j] == segs[..i][j];
    }
  }

  /**
   The first damaged segment in binlog order, if any. What it reports missing
   is disjoint from the restart set and, with the base and the stored
   transactions, covers the checkpoint; so a dump that starts from the restart
   set sends every missing transaction again.
   */
  method Damage(segs: seq<Segment>, checkpoint: Option<Sets>, start: Option<Sets>) returns (r: Option<Problem>)
    requires GoodSegments(segs) && GoodOption(checkpoint) && GoodOption(start)
    ensures r.Some? <==> exists i :: 0 <= i < |segs| && segs[i].damaged
    ensures r.Some? ==> exists i :: FirstDamaged(segs, i) && Reports(segs, i, start, r.value)
    ensures r.Some? ==> forall k, x :: Mem(r.value.missing, k, x) ==>
              MemOption(checkpoint, k, x) && !MemOption(r.value.restart, k, x)
    ensures r.Some? ==> forall k, x :: MemOption(checkpoint, k, x) ==>
              Mem(r.value.missing, k, x) || InBase(segs, start, k, x) || StoredIn(segs, k, x)
  {
    for i := 0 to |segs|
      invariant forall j :: 0 <= j < i ==> !segs[j].damaged
    {
      if !segs[i].damaged {
        continue;
      }
      var valid := OlderSegments(segs, i);
      var missing, restart := RecoverySets(segs, valid, checkpoint, start);
      r := Some(Problem(segs[i].name, Names(valid), missing, restart));
      assert FirstDamaged(segs, i) && Reports(segs, i, start, r.value);
      return;
    }
    return None;
  }

  function Names(segs: seq<Segment>): seq<string> {
    seq(|segs|, i requires 0 <= i < |segs| => segs[i].name)
  }

  ghost predicate FirstDamaged(segs: seq<Segment>, i: nat) {
    i < |segs| && segs[i].damaged && forall j :: 0 <= j < i ==> !segs[j].damaged
  }

  /** The problem names segment `i`, the older segments before it, and restarts after them when the base is known. */
  ghost predicate Reports(segs: seq<Segment>, i: nat, start: Option<Sets>, p: Problem)
    requires i < |segs|
  {
    var older := Older(segs, i, segs[i].index);
    && p.segment == segs[i].name && p.valid == Names(older)
    && (p.restart.None? <==> forall k, x :: !InBase(segs, start, k, x))
    && (p.restart.Some? ==> forall k, x :: Mem(p.restart.value, k, x) <==>
          InBase(segs, start, k, x) || StoredIn(older, k, x))
  }

  method OlderSegments(segs: seq<Segment>, i: nat) returns (valid: seq<Segment>)
    requires i < |segs| && GoodSegments(segs)
    ensures valid == Older(segs, i, segs[i].index) && GoodSegments(valid)
    ensures forall k, x :: StoredIn(valid, k, x) ==> StoredIn(segs, k, x)
  {
    valid := [];
    for j := 0 to i
      invariant valid == Older(segs, j, segs[i].index)
    {
      if segs[j].index < segs[i].index {
        valid := valid + [segs[j]];
      }
    }
    forall v | 0 <= v < |valid| ensures valid[v] in segs && GoodSegment(valid[v]) {
      OlderAreStored(segs, i, segs[i].index, v);
    }
    forall k, x | StoredIn(valid, k, x) ensures StoredIn(segs, k, x) {
      var v :| 0 <= v < |valid| && valid[v].contents.Some? && Mem(valid[v].contents.value.gtids, k, x);
      var w :| 0 <= w < |segs| && segs[w] == valid[v];
    }
  }
}
