/**
 Binlog segment files as byte strings, and the walkers that read their event
 headers: 19 bytes, the event size at 9..13 and the end log_pos at 13..17,
 both little-endian.
 */
module Segments {
  import opened Wrappers

  type byte = b: int | 0 <= b < 256

  const HEADER: nat := 19

  const MAGIC: seq<byte> := [0xfe, 0x62, 0x69, 0x6e]

  /** The unsigned value of bytes, least significant first. */
  function LittleEndian(bytes: seq<byte>): nat {
    if bytes == [] then 0 else bytes[0] as int + 0x100 * LittleEndian(bytes[1..])
  }

  function U32(s: seq<byte>, i: nat): nat
    requires i + 4 <= |s|
  {
    LittleEndian(s[i..i+4])
  }

  predicate HasMagic(f: seq<byte>) { |f| >= 4 && f[..4] == MAGIC }

  /** A whole event starts at `off`: its header is there and its size stays inside the file. */
  predicate CompleteAt(f: seq<byte>, off: nat) {
    off + HEADER <= |f| && HEADER <= U32(f, off + 9) && off + U32(f, off + 9) <= |f|
  }

  /** One event: where it starts in the file, its end log_pos, and its bytes, header included. */
  datatype Event = Event(off: nat, logPos: nat, raw: seq<byte>) {
    function End(): nat { off + |raw| }
  }

  function EventAt(f: seq<byte>, off: nat): Event
    requires CompleteAt(f, off)
  {
    Event(off, U32(f, off + 13), f[off..off + U32(f, off + 9)])
  }

  /** The complete events from `off` on, in file order. */
  function Walk(f: seq<byte>, off: nat): (evs: seq<Event>)
    ensures forall i :: 0 <= i < |evs| ==> HEADER <= |evs[i].raw| && off <= evs[i].off && evs[i].End() <= |f|
    decreases |f| - off
  {
    if CompleteAt(f, off) then [EventAt(f, off)] + Walk(f, off + U32(f, off + 9)) else []
  }

  /** The complete events of a segment file. */
  function Events(f: seq<byte>): seq<Event> {
    if HasMagic(f) then Walk(f, 4) else []
  }

  // ---- The layout of an event ----------------------------------------------------

  /** Four bytes at `i`, least significant first. */
  ghost function FourBytes(f: seq<byte>, i: nat): int
    requires i + 4 <= |f|
  {
    f[i] as int + 0x100 * f[i+1] as int + 0x1_0000 * f[i+2] as int + 0x100_0000 * f[i+3] as int
  }

  lemma U32Is(f: seq<byte>, i: nat)
    requires i + 4 <= |f|
    ensures U32(f, i) == FourBytes(f, i)
  {
    var s := f[i..i+4];
    assert s[1..][1..] == s[2..] && s[2..][1..] == s[3..] && s[3..][1..] == [];
    assert LittleEndian(s[3..]) == s[3] as int;
    assert LittleEndian(s[2..]) == s[2] as int + 0x100 * LittleEndian(s[3..]);
    assert LittleEndian(s[1..]) == s[1] as int + 0x100 * LittleEndian(s[2..]);
  }

  /** An event is the bytes its header counts at 9, from where it starts; its end position is at 13. */
  ghost predicate IsEvent(f: seq<byte>, e: Event) {
    && e.off + 19 <= |f| && |e.raw| == FourBytes(f, e.off + 9) && 19 <= |e.raw| && e.off + |e.raw| <= |f|
    && e.raw == f[e.off..e.off + |e.raw|] && e.logPos == FourBytes(f, e.off + 13)
  }

  lemma EventAtIs(f: seq<byte>, off: nat)
    ensures CompleteAt(f, off) <==> off + 19 <= |f| && 19 <= FourBytes(f, off + 9) <= |f| - off
    ensures CompleteAt(f, off) ==> IsEvent(f, EventAt(f, off)) && EventAt(f, off).off == off
  {
    hide U32;
    hide FourBytes;
    if off + 19 <= |f| {
      U32Is(f, off + 9);
      U32Is(f, off + 13);
    }
  }

  lemma {:induction false} WalkReadsEvents(f: seq<byte>, off: nat)
    ensures forall k :: 0 <= k < |Walk(f, off)| ==> IsEvent(f, Walk(f, off)[k])
    decreases |f| - off
  {
    hide U32;
    hide IsEvent;
    if CompleteAt(f, off) {
      EventAtIs(f, off);
      WalkReadsEvents(f, off + U32(f, off + 9));
    }
  }

  lemma {:induction false} WalkEndIs(f: seq<byte>, off: nat)
    ensures var evs := Walk(f, off); WalkEnd(f, off) == if evs == [] then off else evs[|evs|-1].End()
    ensures !CompleteAt(f, WalkEnd(f, off))
    decreases |f| - off
  {
    hide U32;
    if CompleteAt(f, off) {
      WalkEndIs(f, off + U32(f, off + 9));
    }
  }

  /** The walk reads events one behind the other, and stops only where no whole event is left. */
  lemma WalkIs(f: seq<byte>, off: nat)
    ensures var evs := Walk(f, off);
            && (forall k :: 0 <= k < |evs| ==> IsEvent(f, evs[k]))
            && (forall k :: 0 <= k < |evs| ==> evs[k].off == if k == 0 then off else evs[k-1].off + |evs[k-1].raw|)
            && var end := if evs == [] then off else evs[|evs|-1].off + |evs[|evs|-1].raw|;
               end + 19 <= |f| ==> FourBytes(f, end + 9) < 19 || |f| < end + FourBytes(f, end + 9)
  {
    hide Walk;
    hide WalkEnd;
    hide CompleteAt;
    hide IsEvent;
    hide FourBytes;
    WalkReadsEvents(f, off);
    forall k | 0 <= k < |Walk(f, off)|
      ensures Walk(f, off)[k].off == if k == 0 then off else Walk(f, off)[k-1].End()
    {
      WalkIsContiguous(f, off, k);
    }
    WalkEndIs(f, off);
    EventAtIs(f, WalkEnd(f, off));
  }

  // ---- How the walk behaves on cut and extended files ----------------------------

  lemma SameHeader(f: seq<byte>, g: seq<byte>, off: nat)
    requires f <= g
    ensures off + HEADER <= |f| ==> U32(f, off + 9) == U32(g, off + 9) && U32(f, off + 13) == U32(g, off + 13)
    ensures CompleteAt(f, off) ==> CompleteAt(g, off) && EventAt(f, off) == EventAt(g, off)
  {
    if off + HEADER <= |f| {
      assert f[off+9..off+13] == g[off+9..off+13] && f[off+13..off+17] == g[off+13..off+17];
      assert CompleteAt(f, off) ==> EventAt(f, off).raw == EventAt(g, off).raw;
    }
  }

  /** A cut keeps exactly the events that end inside it. */
  lemma {:induction false} WalkOfPrefix(f: seq<byte>, off: nat, n: nat)
    requires n <= |f|
    ensures Walk(f[..n], off) <= Walk(f, off)
    ensures forall i :: |Walk(f[..n], off)| <= i < |Walk(f, off)| ==> n < Walk(f, off)[i].End()
    decreases |f| - off
  {
    hide U32;
    SameHeader(f[..n], f, off);
    if CompleteAt(f, off) {
      var size := U32(f, off + 9);
      if off + size <= n {
        WalkOfPrefix(f, off + size, n);
      } else {
        EndsGrow(f, off);
      }
    }
  }

  lemma {:induction false} EndsGrow(f: seq<byte>, off: nat)
    requires CompleteAt(f, off)
    ensures forall i :: 0 <= i < |Walk(f, off)| ==> off + U32(f, off + 9) <= Walk(f, off)[i].End()
    decreases |f| - off
  {
    hide U32;
    if CompleteAt(f, off + U32(f, off + 9)) {
      EndsGrow(f, off + U32(f, off + 9));
    }
  }

  /** Where the complete events from `off` stop. */
  function WalkEnd(f: seq<byte>, off: nat): (end: nat)
    ensures off <= end && (off <= |f| ==> end <= |f|)
    decreases |f| - off
  {
    if CompleteAt(f, off) then WalkEnd(f, off + U32(f, off + 9)) else off
  }

  /** One step of the walk. */
  lemma WalkFirst(f: seq<byte>, off: nat)
    ensures CompleteAt(f, off) ==>
              && HEADER <= |EventAt(f, off).raw| && off + |EventAt(f, off).raw| <= |f|
              && Walk(f, off) == [EventAt(f, off)] + Walk(f, off + |EventAt(f, off).raw|)
              && WalkEnd(f, off) == WalkEnd(f, off + |EventAt(f, off).raw|)
    ensures !CompleteAt(f, off) ==> Walk(f, off) == [] && WalkEnd(f, off) == off
  {
    hide U32;
  }

  /** Bytes after the last complete event do not change the events before. */
  lemma {:induction false} WalkOfExtension(f: seq<byte>, g: seq<byte>, off: nat)
    requires f <= g
    ensures Walk(g, off) == Walk(f, off) + Walk(g, WalkEnd(f, off))
    decreases |f| - off
  {
    hide U32;
    hide Walk;
    hide WalkEnd;
    hide CompleteAt;
    hide EventAt;
    SameHeader(f, g, off);
    WalkFirst(f, off);
    WalkFirst(g, off);
    if CompleteAt(f, off) {
      var e := EventAt(f, off);
      WalkOfExtension(f, g, off + |e.raw|);
      var a, b := Walk(f, off + |e.raw|), Walk(g, WalkEnd(f, off));
      assert [e] + (a + b) == ([e] + a) + b;
    } else {
      assert [] + Walk(g, off) == Walk(g, off);
    }
  }

  lemma {:induction false} WalkIsContiguous(f: seq<byte>, off: nat, k: nat)
    requires k < |Walk(f, off)|
    ensures Walk(f, off)[k].off == if k == 0 then off else Walk(f, off)[k-1].End()
    decreases |f| - off
  {
    hide U32;
    if k > 0 {
      WalkIsContiguous(f, off + U32(f, off + 9), k - 1);
    }
  }

  lemma WalkBound(f: seq<byte>, off: nat, k: nat)
    requires k < |Walk(f, off)|
    ensures off <= Walk(f, off)[k].off <= |f| && HEADER <= |Walk(f, off)[k].raw|
  {
  }

  lemma FirstOfPrefix(f: seq<byte>, off: nat, n: nat)
    requires CompleteAt(f, off) && off + U32(f, off + 9) <= n <= |f|
    ensures Walk(f[..n], off) == [EventAt(f, off)] + Walk(f[..n], off + U32(f, off + 9))
    ensures WalkEnd(f[..n], off) == WalkEnd(f[..n], off + U32(f, off + 9))
  {
    hide U32;
    SameHeader(f[..n], f, off);
  }

  /** A file cut where its event `k` starts holds exactly the events before it, and nothing more. */
  lemma {:induction false} CutAtEvent(f: seq<byte>, off: nat, k: nat, n: nat)
    requires k < |Walk(f, off)| && n == Walk(f, off)[k].off && n <= |f|
    ensures Walk(f[..n], off) == Walk(f, off)[..k] && WalkEnd(f[..n], off) == n
    decreases |f| - off
  {
    hide U32;
    if k > 0 {
      var size := U32(f, off + 9);
      var rest := Walk(f, off + size);
      assert Walk(f, off)[k] == rest[k-1] && Walk(f, off)[..k] == [EventAt(f, off)] + rest[..k-1];
      WalkBound(f, off + size, k - 1);
      CutAtEvent(f, off + size, k - 1, n);
      hide CompleteAt;
      FirstOfPrefix(f, off, n);
    }
  }

  // ---- Whole events put after a file ---------------------------------------------

  predicate WholeEvent(raw: seq<byte>) { HEADER <= |raw| && U32(raw, 9) == |raw| }

  function Join(raws: seq<seq<byte>>): seq<byte> {
    if raws == [] then [] else raws[0] + Join(raws[1..])
  }

  /** The events `raws` as they stand in a file from `off` on. */
  function Placed(raws: seq<seq<byte>>, off: nat): seq<Event>
    requires forall i :: 0 <= i < |raws| ==> WholeEvent(raws[i])
  {
    if raws == [] then []
    else
      assert WholeEvent(raws[0]);
      [Event(off, U32(raws[0], 13), raws[0])] + Placed(raws[1..], off + |raws[0]|)
  }

  /** A whole event at the front of what is left is the next step of the walk. */
  lemma WalkStep(f: seq<byte>, e: seq<byte>, after: seq<byte>)
    requires WholeEvent(e)
    ensures |e| >= HEADER
    ensures Walk(f + e + after, |f|) == [Event(|f|, U32(e, 13), e)] + Walk(f + e + after, |f + e|)
    ensures WalkEnd(f + e + after, |f|) == WalkEnd(f + e + after, |f + e|)
  {
    hide LittleEndian;
    var all := f + e + after;
    assert all[|f|+9..|f|+13] == e[9..13] && all[|f|+13..|f|+17] == e[13..17];
    assert all[|f|..|f|+|e|] == e;
  }

  lemma WalkAtEnd(f: seq<byte>)
    ensures Walk(f, |f|) == [] && WalkEnd(f, |f|) == |f|
  {
    hide U32;
  }

  lemma {:induction false} WalkOfWhole(f: seq<byte>, raws: seq<seq<byte>>)
    requires forall i :: 0 <= i < |raws| ==> WholeEvent(raws[i])
    ensures Walk(f + Join(raws), |f|) == Placed(raws, |f|)
    ensures WalkEnd(f + Join(raws), |f|) == |f + Join(raws)|
    decreases |raws|
  {
    hide U32;
    hide WholeEvent;
    hide Walk;
    hide WalkEnd;
    if raws == [] {
      assert f + [] == f;
      WalkAtEnd(f);
    } else {
      var e := raws[0];
      assert f + Join(raws) == (f + e) + Join(raws[1..]);
      WalkStep(f, e, Join(raws[1..]));
      WalkOfWhole(f + e, raws[1..]);
    }
  }

  /** Whole events appended to a file without a torn tail are read after the events before them. */
  lemma AppendWhole(f: seq<byte>, off: nat, raws: seq<seq<byte>>)
    requires WalkEnd(f, off) == |f|
    requires forall i :: 0 <= i < |raws| ==> WholeEvent(raws[i])
    ensures Walk(f + Join(raws), off) == Walk(f, off) + Placed(raws, |f|)
  {
    hide U32;
    WalkOfExtension(f, f + Join(raws), off);
    WalkOfWhole(f, raws);
  }

  // ---- The resume cursor ---------------------------------------------------------

  datatype Cursor = Cursor(pos: nat, end: nat)

  /** The last event whose end log_pos is not 0. */
  function LastReal(evs: seq<Event>): Option<Event> {
    if evs == [] then None
    else
      var later := LastReal(evs[1..]);
      if later.Some? then later else if evs[0].logPos != 0 then Some(evs[0]) else None
  }

  function AtEnd(e: Option<Event>): Option<Cursor> {
    if e.None? then None else Some(Cursor(e.value.logPos, e.value.End()))
  }

  /** The cursor after the events `evs`, when it was `before` them. */
  function Newest(evs: seq<Event>, before: Option<Cursor>): Option<Cursor> {
    if LastReal(evs).Some? then AtEnd(LastReal(evs)) else before
  }

  function CursorOf(f: seq<byte>): Option<Cursor> {
    AtEnd(LastReal(Events(f)))
  }

  lemma {:induction false} LastRealIsLast(evs: seq<Event>)
    ensures LastReal(evs).None? <==> forall i :: 0 <= i < |evs| ==> evs[i].logPos == 0
    ensures LastReal(evs).Some? ==>
      exists i :: 0 <= i < |evs| && evs[i] == LastReal(evs).value && evs[i].logPos != 0
          && forall j :: i < j < |evs| ==> evs[j].logPos == 0
  {
    if evs == [] {
    } else {
      var tail := evs[1..];
      LastRealIsLast(tail);
      assert forall k :: 0 < k < |evs| ==> evs[k] == tail[k-1];
      if LastReal(tail).Some? {
        var i :| 0 <= i < |tail| && tail[i] == LastReal(tail).value && tail[i].logPos != 0
                 && forall j :: i < j < |tail| ==> tail[j].logPos == 0;
        assert evs[i+1] == LastReal(evs).value;
      }
    }
  }

  lemma {:induction false} LastRealOfConcat(a: seq<Event>, b: seq<Event>)
    ensures LastReal(a + b) == if LastReal(b).Some? then LastReal(b) else LastReal(a)
  {
    if a == [] {
      assert a + b == b;
    } else {
      assert (a + b)[1..] == a[1..] + b;
      LastRealOfConcat(a[1..], b);
    }
  }

  method DurableCursor(f: seq<byte>) returns (r: Option<Cursor>)
    ensures r == CursorOf(f)
  {
    hide LittleEndian;
    if |f| < 4 || f[..4] != MAGIC {
      return None;
    }
    var offset := 4;
    var lastPos: nat, lastEnd: nat, found := 0, 0, false;
    while offset + HEADER <= |f|
      invariant 4 <= offset <= |f|
      invariant CursorOf(f) == Newest(Walk(f, offset), if found then Some(Cursor(lastPos, lastEnd)) else None)
    {
      var eventSize := U32(f, offset + 9);
      var logPos := U32(f, offset + 13);
      if eventSize < HEADER || offset + eventSize > |f| {
        break;
      }
      assert Walk(f, offset)[1..] == Walk(f, offset + eventSize);
      offset := offset + eventSize;
      if logPos == 0 {
        continue;
      }
      lastPos, lastEnd, found := logPos, offset, true;
    }
    r := if found then Some(Cursor(lastPos, lastEnd)) else None;
  }

  // ---- The event span ------------------------------------------------------------

  datatype Span = Span(start: nat, end: nat)

  /** How one event changes the running chain; an event that ends before its own size is ignored. */
  function Chain(acc: Option<Span>, size: nat, logPos: nat): Option<Span> {
    if logPos == 0 || logPos < size then acc
    else
      var evStart := logPos - size;
      if acc.None? || evStart > acc.value.end then Some(Span(evStart, logPos))
      else Some(Span(if evStart < acc.value.start then evStart else acc.value.start,
                     if logPos > acc.value.end then logPos else acc.value.end))
  }

  function SpanFrom(f: seq<byte>, off: nat, acc: Option<Span>): Option<Span>
    decreases |f| - off
  {
    if CompleteAt(f, off) then SpanFrom(f, off + U32(f, off + 9), Chain(acc, U32(f, off + 9), U32(f, off + 13)))
        else acc
  }

  function SpanOf(f: seq<byte>): Option<Span> {
    if HasMagic(f) then SpanFrom(f, 4, None) else None
  }

  method EventSpan(f: seq<byte>) returns (r: Option<Span>)
    ensures r == SpanOf(f)
  {
    if |f| < 4 || f[..4] != MAGIC {
      return None;
    }
    var offset := 4;
    var chainStart: nat, chainEnd: nat, found := 0, 0, false;
    while offset + HEADER <= |f|
      invariant 4 <= offset <= |f|
      invariant SpanOf(f) == SpanFrom(f, offset, if found then Some(Span(chainStart, chainEnd)) else None)
    {
      var eventSize := U32(f, offset + 9);
      var logPos := U32(f, offset + 13);
      if eventSize < HEADER || offset + eventSize > |f| {
        break;
      }
      offset := offset + eventSize;
      if logPos == 0 || logPos < eventSize {
        continue;
      }
      var evStart := logPos - eventSize;
      if !found || evStart > chainEnd {
        chainStart, chainEnd, found := evStart, logPos, true;
        continue;
      }
      if evStart < chainStart {
        chainStart := evStart;
      }
      if logPos > chainEnd {
        chainEnd := logPos;
      }
    }
    r := if found then Some(Span(chainStart, chainEnd)) else None;
  }

  // ---- The two ends of a segment -------------------------------------------------

  /** Real events are no larger than their end position, and end positions do not go backwards. */
  ghost predicate Forward(evs: seq<Event>)
  {
    && (forall i :: 0 <= i < |evs| && evs[i].logPos != 0 ==> |evs[i].raw| <= evs[i].logPos)
    && (forall i, j :: 0 <= i < j < |evs| && evs[i].logPos != 0 && evs[j].logPos != 0 ==>
          evs[i].logPos <= evs[j].logPos)
  }

  function ChainAll(evs: seq<Event>, acc: Option<Span>): Option<Span> {
    if evs == [] then acc else ChainAll(evs[1..], Chain(acc, |evs[0].raw|, evs[0].logPos))
  }

  lemma {:induction false} SpanFromIsFold(f: seq<byte>, off: nat, acc: Option<Span>)
    ensures SpanFrom(f, off, acc) == ChainAll(Walk(f, off), acc)
    decreases |f| - off
  {
    hide U32;
    if CompleteAt(f, off) {
      var size := U32(f, off + 9);
      assert Walk(f, off)[1..] == Walk(f, off + size);
      SpanFromIsFold(f, off + size, Chain(acc, size, U32(f, off + 13)));
    }
  }

  lemma {:induction false} ChainEndsAtLast(evs: seq<Event>, acc: Option<Span>)
    requires Forward(evs)
    requires acc.Some? ==> forall k :: 0 <= k < |evs| && evs[k].logPos != 0 ==> acc.value.end <= evs[k].logPos
    ensures LastReal(evs).None? ==> ChainAll(evs, acc) == acc
    ensures LastReal(evs).Some? ==>
              ChainAll(evs, acc).Some? && ChainAll(evs, acc).value.end == LastReal(evs).value.logPos
  {
    if evs == [] {
    } else {
      var rest := evs[1..];
      assert forall k :: 0 <= k < |rest| ==> rest[k] == evs[k+1];
      ChainEndsAtLast(rest, Chain(acc, |evs[0].raw|, evs[0].logPos));
    }
  }

  /** On a file whose positions go forward the span ends where the resume cursor is. */
  lemma SpanEndsAtCursor(f: seq<byte>)
    requires Forward(Events(f))
    ensures SpanOf(f).Some? <==> CursorOf(f).Some?
    ensures SpanOf(f).Some? ==> SpanOf(f).value.end == CursorOf(f).value.pos
  {
    if HasMagic(f) {
      SpanFromIsFold(f, 4, None);
      ChainEndsAtLast(Walk(f, 4), None);
    }
  }

  /** The positions of a segment: its span, or only its end when it has no span. */
  function PositionsOf(f: seq<byte>): Option<Span> {
    if CursorOf(f).None? || CursorOf(f).value.pos == 0 then None
    else if SpanOf(f).Some? && SpanOf(f).value.end != 0 then SpanOf(f)
    else Some(Span(0, CursorOf(f).value.pos))
  }

  method SegmentPositions(f: seq<byte>) returns (r: Option<Span>)
    ensures r == PositionsOf(f)
    ensures r.Some? <==> CursorOf(f).Some?
  {
    CursorIsReal(f);
    var cursor := DurableCursor(f);
    if cursor.None? || cursor.value.pos == 0 {
      return None;
    }
    var span := EventSpan(f);
    if span.Some? && span.value.end != 0 {
      return span;
    }
    return Some(Span(0, cursor.value.pos));
  }

  lemma CursorIsReal(f: seq<byte>)
    ensures CursorOf(f).Some? ==> CursorOf(f).value.pos != 0
  {
    LastRealIsLast(Events(f));
  }

  /** The chain before the last real event of a file, and that event. */
  ghost predicate LastLink(f: seq<byte>, k: nat) {
    k < |Events(f)| && Events(f)[k].logPos != 0 && forall j :: k < j < |Events(f)| ==> Events(f)[j].logPos == 0
  }

  lemma {:induction false} ChainConcat(a: seq<Event>, b: seq<Event>, acc: Option<Span>)
    ensures ChainAll(a + b, acc) == ChainAll(b, ChainAll(a, acc))
  {
    if a == [] {
      assert a + b == b;
    } else {
      assert (a + b)[1..] == a[1..] + b;
      ChainConcat(a[1..], b, Chain(acc, |a[0].raw|, a[0].logPos));
    }
  }

  lemma {:induction false} ChainOfArtificial(evs: seq<Event>, acc: Option<Span>)
    requires forall j :: 0 <= j < |evs| ==> evs[j].logPos == 0
    ensures ChainAll(evs, acc) == acc && LastReal(evs).None?
  {
    if evs == [] {
    } else {
      ChainOfArtificial(evs[1..], acc);
    }
  }

  lemma {:induction false} ChainEndIsReal(evs: seq<Event>, acc: Option<Span>)
    requires acc.Some? ==> acc.value.end != 0
    ensures ChainAll(evs, acc).Some? ==> ChainAll(evs, acc).value.end != 0
  {
    if evs == [] {
    } else {
      ChainEndIsReal(evs[1..], Chain(acc, |evs[0].raw|, evs[0].logPos));
    }
  }

  /**
   The end of the positions is documented to be the resume cursor's. It is,
   exactly when the chain before the last real event does not end after it,
   and ends at it already if that event is larger than its own end position.
   */
  lemma PositionsEndAtCursorIff(f: seq<byte>, k: nat)
    requires LastLink(f, k)
    ensures CursorOf(f).Some? && PositionsOf(f).Some?
    ensures var last, before := Events(f)[k], ChainAll(Events(f)[..k], None);
            PositionsOf(f).value.end == CursorOf(f).value.pos <==>
              before.None? || before.value.end == last.logPos
                  || (before.value.end < last.logPos && |last.raw| <= last.logPos)
  {
    hide ChainAll;
    hide LastReal;
    hide Walk;
    hide SpanFrom;
    SpanFromIsFold(f, 4, None);
    LastLinkDecides(Events(f), k);
    ChainEndIsReal(Events(f)[..k], None);
  }

  /** The events after the last real one change neither the chain nor the cursor. */
  lemma LastLinkDecides(evs: seq<Event>, k: nat)
    requires k < |evs| && evs[k].logPos != 0 && forall j :: k < j < |evs| ==> evs[j].logPos == 0
    ensures LastReal(evs) == Some(evs[k])
    ensures ChainAll(evs, None) == Chain(ChainAll(evs[..k], None), |evs[k].raw|, evs[k].logPos)
  {
    var head, last, tail := evs[..k], evs[k], evs[k+1..];
    assert evs == head + ([last] + tail);
    ChainConcat(head, [last] + tail, None);
    LastRealOfConcat(head, [last] + tail);
    assert ([last] + tail)[1..] == tail;
    ChainOfArtificial(tail, Chain(ChainAll(head, None), |last.raw|, last.logPos));
  }

  /** The 19 bytes of an event without a body that ends at `pos` < 256. */
  function Bare(pos: byte): seq<byte> {
    [0, 0, 0, 0, 0, 0, 0, 0, 0, 19, 0, 0, 0, pos, 0, 0, 0, 0, 0]
  }

  lemma BareIs(pos: byte)
    ensures WholeEvent(Bare(pos)) && U32(Bare(pos), 13) == pos
  {
    hide LittleEndian;
    LowByte(19);
    LowByte(pos);
    var b, low, high := Bare(pos), [19, 0, 0, 0], [pos, 0, 0, 0];
    assert b[9..13] == low by { assert b[9] == 19 && b[10] == 0 && b[11] == 0 && b[12] == 0; }
    assert b[13..17] == high by { assert b[13] == pos && b[14] == 0 && b[15] == 0 && b[16] == 0; }
  }

  lemma LowByte(b: byte)
    ensures LittleEndian([b, 0, 0, 0]) == b
  {
    assert [b, 0, 0, 0][1..] == [0, 0, 0] && [0, 0, 0][1..] == [0, 0] && [0, 0][1..] == [0] && [0][1..] == [];
    assert LittleEndian([]) == 0;
    assert LittleEndian([0]) == 0;
    assert LittleEndian([0, 0]) == 0;
    assert LittleEndian([0, 0, 0]) == 0;
  }

  /** A file whose positions go back: its positions end at 100, a resume continues at 50. */
  lemma PositionsCanDisagree()
    ensures var f := MAGIC + Join([Bare(100), Bare(50)]);
            PositionsOf(f) == Some(Span(31, 100)) && CursorOf(f).Some? && CursorOf(f).value.pos == 50
  {
    hide U32;
    hide WholeEvent;
    hide Walk;
    var raws := [Bare(100), Bare(50)];
    var f := MAGIC + Join(raws);
    BareIs(100);
    BareIs(50);
    WalkOfWhole(MAGIC, raws);
    var tail: seq<seq<byte>> := [Bare(50)];
    assert raws[1..] == tail && tail[1..] == [];
    var a, b := Event(4, 100, Bare(100)), Event(23, 50, Bare(50));
    assert Placed(tail, 23) == [b];
    assert Placed(raws, 4) == [a, b];
    assert f[..4] == MAGIC;
    SpanFromIsFold(f, 4, None);
    assert [a, b][1..] == [b] && [b][1..] == [];
    assert ChainAll([b], Some(Span(81, 100))) == Some(Span(31, 100));
    assert LastReal([b]) == Some(b);
  }
}
