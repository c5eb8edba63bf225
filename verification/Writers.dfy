/**
 The segment writer: events reach the file first, and a checkpoint is
 committed only after a sync. The outcome of each write and sync is a
 parameter; a crash keeps at least the synced bytes of what was written.
 */
module Writers {
  import opened Wrappers
  import opened Segments

  datatype Checkpoint = Checkpoint(file: string, pos: nat, gtidSet: string, updatedAt: int)

  /** The file (what was written, how much of it was synced) and the writer's fields. */
  datatype State = State(bytes: seq<byte>, synced: nat, current: Checkpoint, pending: Checkpoint, hasPending: bool)

  function Appended(s: State, event: seq<byte>, next: Checkpoint): State {
    s.(bytes := s.bytes + event, pending := next, hasPending := true)
  }

  /** A failed write leaves the first `kept` bytes of the event. */
  function FailedAppend(s: State, event: seq<byte>, kept: nat): State
    requires kept <= |event|
  {
    s.(bytes := s.bytes + event[..kept])
  }

  function Flushed(s: State, now: int): State {
    if s.hasPending then s.(synced := |s.bytes|, current := s.pending.(updatedAt := now), hasPending := false)
    else s.(synced := |s.bytes|)
  }

  class Writer {
    var bytes: seq<byte>
    var synced: nat
    var current: Checkpoint
    var pending: Checkpoint
    var hasPending: bool

    function View(): State
      reads this
    {
      State(bytes, synced, current, pending, hasPending)
    }

    method Append(event: seq<byte>, next: Checkpoint, kept: nat, ok: bool)
      requires kept <= |event|
      modifies this
      ensures View() == if ok then Appended(old(View()), event, next) else FailedAppend(old(View()), event, kept)
      ensures bytes == old(bytes) + (if ok then event else event[..kept]) && synced == old(synced)
      ensures current == old(current) && pending == (if ok then next else old(pending))
      ensures hasPending == (ok || old(hasPending))
    {
      if !ok {
        bytes := bytes + event[..kept];
        return;
      }
      bytes := bytes + event;
      pending := next;
      hasPending := true;
    }

    method FlushAndCheckpoint(now: int, ok: bool)
      modifies this
      ensures View() == if ok then Flushed(old(View()), now) else old(View())
      ensures bytes == old(bytes) && pending == old(pending) && synced == (if ok then |bytes| else old(synced))
      ensures current == if ok && old(hasPending) then old(pending).(updatedAt := now) else old(current)
      ensures hasPending == (!ok && old(hasPending))
    {
      if !ok {
        return;
      }
      synced := |bytes|;
      if hasPending {
        current := pending.(updatedAt := now);
        hasPending := false;
      }
    }
  }

  // ---- Runs ----------------------------------------------------------------------

  datatype Op =
    | Append(event: seq<byte>, next: Checkpoint)
    | FailAppend(event: seq<byte>, kept: nat)
    | Flush(now: int)
    | FailFlush

  function LastPos(f: seq<byte>): nat {
    if CursorOf(f).Some? then CursorOf(f).value.pos else 0
  }

  /** Positions do not go backwards from what the file already holds. */
  predicate InOrder(s: State, event: seq<byte>) {
    WholeEvent(event) && (U32(event, 13) == 0 || LastPos(s.bytes) <= U32(event, 13))
  }

  /** The staged checkpoint is the event's end, or for an artificial event nothing newer than the file. */
  predicate Staged(s: State, event: seq<byte>, next: Checkpoint) {
    InOrder(s, event) && if U32(event, 13) == 0 then next.pos <= LastPos(s.bytes) else next.pos == U32(event, 13)
  }

  /** The file ends at an event: nothing of an unfinished one is behind the last. */
  predicate NoTornTail(s: State) { WalkEnd(s.bytes, 4) == |s.bytes| }

  /** What the caller does: whole events in order, written only behind whole events. */
  predicate Allowed(s: State, op: Op) {
    match op
    case Append(event, next) => NoTornTail(s) && Staged(s, event, next)
    case FailAppend(event, kept) => NoTornTail(s) && InOrder(s, event) && kept <= |event|
    case _ => true
  }

  function Next(s: State, op: Op): State {
    match op
    case Append(event, next) => Appended(s, event, next)
    case FailAppend(event, kept) => if kept <= |event| then FailedAppend(s, event, kept) else s
    case Flush(now) => Flushed(s, now)
    case FailFlush => s
  }

  function Run(s0: State, ops: seq<Op>): State {
    if ops == [] then s0 else Next(Run(s0, ops[..|ops|-1]), ops[|ops|-1])
  }

  lemma RunSnoc(s0: State, ops: seq<Op>, k: nat)
    requires k < |ops|
    ensures Run(s0, ops[..k+1]) == Next(Run(s0, ops[..k]), ops[k])
  {
    assert ops[..k+1][..k] == ops[..k];
  }

  predicate Obeys(s0: State, ops: seq<Op>) {
    ops == [] || (var before := ops[..|ops|-1];
                  Obeys(s0, before) && Allowed(Run(s0, before), ops[|ops|-1]))
  }

  /** A file opened for append: whole events after the magic, nothing pending. */
  predicate Opened(s: State) {
    HasMagic(s.bytes) && WalkEnd(s.bytes, 4) == |s.bytes| && s.synced <= |s.bytes| && !s.hasPending
  }

  /** Every crash file is at or past the committed checkpoint. */
  ghost predicate Covered(s: State) {
    forall n :: s.synced <= n <= |s.bytes| ==> s.current.pos <= LastPos(s.bytes[..n])
  }

  // ---- Proof ---------------------------------------------------------------------

  /** What a file shows after a whole event, or part of one, was put at its end. */
  lemma TailPos(f: seq<byte>, event: seq<byte>, kept: nat)
    requires HasMagic(f) && WalkEnd(f, 4) == |f| && WholeEvent(event) && kept <= |event|
    ensures var g := f + event[..kept];
            && HasMagic(g)
            && LastPos(g) == (if kept == |event| && U32(event, 13) != 0 then U32(event, 13) else LastPos(f))
            && (kept == |event| ==> WalkEnd(g, 4) == |g|)
  {
    hide LittleEndian;
    var g := f + event[..kept];
    assert g[..4] == f[..4];
    WalkOfExtension(f, g, 4);
    if kept == |event| {
      assert event[..kept] == event;
      WholeTail(f, event);
      LastRealOfConcat(Walk(f, 4), [Event(|f|, U32(event, 13), event)]);
      WalkEndOfExtension(f, g, 4);
    } else {
      PartTail(f, event, kept);
      assert Walk(f, 4) + [] == Walk(f, 4);
    }
  }

  lemma WholeTail(f: seq<byte>, event: seq<byte>)
    requires WholeEvent(event)
    ensures Walk(f + event, |f|) == [Event(|f|, U32(event, 13), event)] && WalkEnd(f + event, |f|) == |f + event|
  {
    hide U32;
    WalkOfWhole(f, [event]);
    assert Join([event]) == event by { assert [event][1..] == [] && event + [] == event; }
    assert [event][1..] == [];
  }

  lemma PartIncomplete(f: seq<byte>, event: seq<byte>, kept: nat)
    requires WholeEvent(event) && kept < |event|
    ensures !CompleteAt(f + event[..kept], |f|)
  {
    hide U32;
    if kept >= HEADER {
      SameField(f, event, kept);
    }
  }

  lemma SameField(f: seq<byte>, event: seq<byte>, kept: nat)
    requires HEADER <= kept <= |event|
    ensures U32(f + event[..kept], |f| + 9) == U32(event, 9)
  {
    hide LittleEndian;
    var g := f + event[..kept];
    assert g[|f|+9..|f|+13] == event[9..13];
  }

  lemma PartTail(f: seq<byte>, event: seq<byte>, kept: nat)
    requires WholeEvent(event) && kept < |event|
    ensures Walk(f + event[..kept], |f|) == []
  {
    hide Walk;
    hide WalkEnd;
    PartIncomplete(f, event, kept);
    WalkFirst(f + event[..kept], |f|);
  }

  lemma {:induction false} WalkEndOfExtension(f: seq<byte>, g: seq<byte>, off: nat)
    requires f <= g
    ensures WalkEnd(g, off) == WalkEnd(g, WalkEnd(f, off))
    decreases |f| - off
  {
    hide U32;
    hide Walk;
    hide WalkEnd;
    hide CompleteAt;
    hide EventAt;
    SameHeader(f, g, off);
    WalkFirst(f, off);
    WalkFirst(g, off);
    if CompleteAt(f, off) {
      WalkEndOfExtension(f, g, off + |EventAt(f, off).raw|);
    }
  }

  ghost predicate Inv(s0: State, s: State) {
    && HasMagic(s.bytes) && s.synced <= |s.bytes|
    && (s.hasPending ==> s.pending.pos <= LastPos(s.bytes))
    && (Covered(s0) || s.current != s0.current ==> Covered(s))
  }

  /** Growing the file by (part of) an event in order keeps every crash file covered. */
  lemma GrowthKeepsCover(s: State, event: seq<byte>, kept: nat, t: State)
    requires HasMagic(s.bytes) && WalkEnd(s.bytes, 4) == |s.bytes| && s.synced <= |s.bytes|
    requires InOrder(s, event) && kept <= |event|
    requires t.bytes == s.bytes + event[..kept] && t.synced == s.synced && t.current == s.current
    requires Covered(s)
    ensures Covered(t)
  {
    hide LastPos;
    assert s.current.pos <= LastPos(s.bytes) by { assert s.bytes[..|s.bytes|] == s.bytes; }
    forall n | t.synced <= n <= |t.bytes|
      ensures t.current.pos <= LastPos(t.bytes[..n])
    {
      if n <= |s.bytes| {
        assert t.bytes[..n] == s.bytes[..n];
      } else {
        var k := n - |s.bytes|;
        assert t.bytes[..n] == s.bytes + event[..k];
        TailPos(s.bytes, event, k);
      }
    }
  }

  lemma InvStep(s0: State, s: State, op: Op)
    requires Inv(s0, s) && Allowed(s, op)
    ensures Inv(s0, Next(s, op))
  {
    hide LastPos;
    match op
    case Append(event, next) =>
      assert event[..|event|] == event;
      TailPos(s.bytes, event, |event|);
      if Covered(s) {
        GrowthKeepsCover(s, event, |event|, Next(s, op));
      }
    case FailAppend(event, kept) =>
      TailPos(s.bytes, event, kept);
      if Covered(s) {
        GrowthKeepsCover(s, event, kept, Next(s, op));
      }
    case Flush(now) =>
      var t := Next(s, op);
      assert s.bytes[..|s.bytes|] == s.bytes;
    case FailFlush =>
  }

  lemma {:induction false} RunInv(s0: State, ops: seq<Op>)
    requires Opened(s0) && Obeys(s0, ops)
    ensures Inv(s0, Run(s0, ops))
  {
    hide Covered;
    hide Allowed;
    hide Next;
    if ops == [] {
    } else {
      var before, op := ops[..|ops|-1], ops[|ops|-1];
      RunInv(s0, before);
      InvStep(s0, Run(s0, before), op);
    }
  }

  /**
   After any run the caller allows, a crash that keeps `n` bytes, at least the
   synced ones, leaves a file that resumes at or past the committed checkpoint.
   The initial checkpoint counts when the opened file covered it.
   */
  lemma CrashKeepsCheckpoint(s0: State, ops: seq<Op>, n: nat)
    requires Opened(s0) && Obeys(s0, ops)
    requires Run(s0, ops).synced <= n <= |Run(s0, ops).bytes|
    ensures var s := Run(s0, ops);
            (Covered(s0) || s.current != s0.current) && 0 < s.current.pos ==>
              CursorOf(s.bytes[..n]).Some? && s.current.pos <= CursorOf(s.bytes[..n]).value.pos
  {
    RunInv(s0, ops);
  }

  // ---- Exactly when an append is safe --------------------------------------------

  const MAX_POS: nat := 0xffff_ffff

  /** The end of the last whole event, where a torn tail begins. */
  function TailStart(f: seq<byte>): nat { WalkEnd(f, 4) }

  /** No position in the file, its torn tail included, is the largest there is. */
  predicate BelowMax(f: seq<byte>) {
    LastPos(f) < MAX_POS && (TailStart(f) + 17 <= |f| ==> U32(f, TailStart(f) + 13) < MAX_POS)
  }

  /** Whatever event is appended and synced next, its checkpoint is not ahead of the file. */
  ghost predicate SafeToAppend(s: State) {
    forall event, next, now :: Staged(s, event, next) ==> Covered(Flushed(Appended(s, event, next), now))
  }

  /** The 19 bytes of an event that ends at the largest position. */
  const FARTHEST: seq<byte> := [0, 0, 0, 0, 0, 0, 0, 0, 0, 19, 0, 0, 0, 255, 255, 255, 255, 0, 0]

  lemma FarthestIs()
    ensures WholeEvent(FARTHEST) && U32(FARTHEST, 13) == MAX_POS
  {
    LowByte(19);
    var m: seq<byte> := [255, 255, 255, 255];
    assert FARTHEST[9..13] == [19, 0, 0, 0] && FARTHEST[13..17] == m;
    FourBytes(m);
  }

  lemma FourBytes(b: seq<byte>)
    requires |b| == 4
    ensures LittleEndian(b) == b[0] as int + 0x100 * (b[1] as int + 0x100 * (b[2] as int + 0x100 * b[3] as int))
  {
    assert b[1..][1..] == b[2..] && b[2..][1..] == b[3..] && b[3..][1..] == [];
    assert LittleEndian(b[3..]) == b[3];
    assert LittleEndian(b[2..]) == b[2] as int + 0x100 * b[3] as int;
    assert LittleEndian(b[1..]) == b[1] as int + 0x100 * (b[2] as int + 0x100 * b[3] as int);
  }

  lemma NotAllOnes(f: seq<byte>, i: nat, j: nat)
    requires i + 4 <= |f| && i <= j < i + 4 && f[j] < 255
    ensures U32(f, i) < MAX_POS
  {
    FourBytes(f[i..i+4]);
    assert f[j] == f[i..i+4][j - i];
  }

  /** Behind a torn tail the new event is not read at its place: its position appears nowhere. */
  lemma TornHidesFarthest(f: seq<byte>)
    requires HasMagic(f) && TailStart(f) < |f| && BelowMax(f)
    ensures LastPos(f + FARTHEST) < MAX_POS
  {
    hide U32;
    hide Walk;
    hide WalkEnd;
    var g, off := f + FARTHEST, TailStart(f);
    assert g[..4] == f[..4];
    WalkOfExtension(f, g, 4);
    AtMostOne(f, off);
    LastRealOfConcat(Walk(f, 4), Walk(g, off));
    if Walk(g, off) != [] {
      var e := Walk(g, off)[0];
      assert Walk(g, off) == [e];
      assert [e][1..] == [];
    } else {
      assert Walk(f, 4) + [] == Walk(f, 4);
    }
  }

  lemma TailIncomplete(f: seq<byte>)
    ensures 4 <= |f| ==> 4 <= TailStart(f) <= |f| && !CompleteAt(f, TailStart(f))
  {
    StopsIncomplete(f, 4);
  }

  lemma {:induction false} StopsIncomplete(f: seq<byte>, off: nat)
    ensures off <= WalkEnd(f, off) && !CompleteAt(f, WalkEnd(f, off)) && (off <= |f| ==> WalkEnd(f, off) <= |f|)
    decreases |f| - off
  {
    hide U32;
    if CompleteAt(f, off) {
      StopsIncomplete(f, off + U32(f, off + 9));
    }
  }

  /** The torn tail and the event behind it read as at most one event, not at the largest position. */
  lemma AtMostOne(f: seq<byte>, off: nat)
    requires HasMagic(f) && off == TailStart(f) < |f| && BelowMax(f)
    ensures var w := Walk(f + FARTHEST, off); |w| <= 1 && forall i :: 0 <= i < |w| ==> w[i].logPos < MAX_POS
  {
    hide LittleEndian;
    TailIncomplete(f);
    var g := f + FARTHEST;
    if CompleteAt(g, off) {
      var size := U32(g, off + 9);
      if off + HEADER <= |f| {
        assert g[off+9..off+13] == f[off+9..off+13];
      }
      assert off + size > |f|;
      TailPosition(f, off);
    }
  }

  lemma TailPosition(f: seq<byte>, off: nat)
    requires off == TailStart(f) < |f| && BelowMax(f)
    ensures off + 17 <= |f + FARTHEST| && U32(f + FARTHEST, off + 13) < MAX_POS
  {
    hide LittleEndian;
    hide WalkEnd;
    var g, k := f + FARTHEST, |f| - off;
    assert forall j :: 0 <= j < 19 ==> g[|f| + j] == FARTHEST[j];
    if k >= 17 {
      assert g[off+13..off+17] == f[off+13..off+17];
    } else if k <= 13 {
      assert g[off + 13] == FARTHEST[13 - k];
      NotAllOnes(g, off + 13, off + 13);
    } else {
      assert g[|f|] == FARTHEST[0];
      NotAllOnes(g, off + 13, |f|);
    }
  }

  /**
   An append is safe in every way exactly when the file has no torn tail. Behind
   one, the event at the largest position and its checkpoint outrun the file.
   */
  lemma SafeIffNoTornTail(s: State)
    requires HasMagic(s.bytes) && BelowMax(s.bytes)
    ensures NoTornTail(s) <==> SafeToAppend(s)
  {
    hide LastPos;
    hide WholeEvent;
    TailIncomplete(s.bytes);
    if NoTornTail(s) {
      forall event, next, now | Staged(s, event, next) ensures Covered(Flushed(Appended(s, event, next), now)) {
        var t := Flushed(Appended(s, event, next), now);
        assert event[..|event|] == event && t.bytes[..|t.bytes|] == t.bytes;
        TailPos(s.bytes, event, |event|);
      }
    } else {
      var next := Checkpoint("", MAX_POS, "", 0);
      FarthestIs();
      TornHidesFarthest(s.bytes);
      assert Staged(s, FARTHEST, next);
      var t := Flushed(Appended(s, FARTHEST, next), 0);
      assert t.bytes[..|t.bytes|] == t.bytes;
      assert !Covered(t);
    }
  }

  /** The writer itself does not refuse an append after a failed one, and then the checkpoint can outrun the file. */
  lemma AppendAfterFailedWrite(cp: Checkpoint, next: Checkpoint)
    requires next.pos == 200
    ensures var s := Run(State(MAGIC, 4, cp, cp, false), [FailAppend(Bare(100), 1), Append(Bare(200), next), Flush(0)]);
            s.current.pos == 200 && s.synced == |s.bytes| && CursorOf(s.bytes).None?
  {
    var s0, ops := State(MAGIC, 4, cp, cp, false), [FailAppend(Bare(100), 1), Append(Bare(200), next), Flush(0)];
    RunSnoc(s0, ops, 0);
    RunSnoc(s0, ops, 1);
    RunSnoc(s0, ops, 2);
    assert ops[..0] == [] && ops[..3] == ops;
    var s := Run(s0, ops);
    assert Bare(100)[..1] == [0];
    assert Run(s0, ops[..1]).bytes == MAGIC + [0];
    assert Run(s0, ops[..2]).bytes == MAGIC + [0] + Bare(200);
    assert s.bytes == MAGIC + [0] + Bare(200) && s.bytes[..4] == MAGIC;
    assert s.bytes[13..17] == [0, 19, 0, 0];
    assert LittleEndian([0, 19, 0, 0]) >= 0x100 by {
      assert [0, 19, 0, 0][1..] == [19, 0, 0];
      assert LittleEndian([19, 0, 0]) >= 19;
    }
    assert U32(s.bytes, 4 + 9) == LittleEndian([0, 19, 0, 0]);
    assert !CompleteAt(s.bytes, 4);
  }
}
