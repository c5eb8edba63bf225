/** EventSpan computed from the bytes of a segment as they stream past in chunks. */
module SpanTrackers {
  import opened Wrappers
  import opened Segments

  function Min(a: int, b: int): int { if a < b then a else b }

  /** The chunks put together again. */
  function Flatten(chunks: seq<seq<byte>>): seq<byte> {
    if chunks == [] then [] else Flatten(chunks[..|chunks|-1]) + chunks[|chunks|-1]
  }

  /** Every file of `size` bytes that begins with `seen` has the span found by going on from `next` with `acc`. */
  ghost predicate Pending(size: nat, seen: seq<byte>, next: nat, acc: Option<Span>) {
    forall file :: |file| == size && seen <= file ==> SpanOf(file) == SpanFrom(file, next, acc)
  }

  /** Every such file has the span `acc`, whatever follows. */
  ghost predicate Settled(size: nat, seen: seq<byte>, acc: Option<Span>) {
    forall file :: |file| == size && seen <= file ==> SpanOf(file) == acc
  }

  lemma Grows(size: nat, seen: seq<byte>, more: seq<byte>, next: nat, acc: Option<Span>)
    ensures Pending(size, seen, next, acc) ==> Pending(size, seen + more, next, acc)
    ensures Settled(size, seen, acc) ==> Settled(size, seen + more, acc)
  {
    assert forall file: seq<byte> {:trigger SpanOf(file)} :: seen + more <= file ==> seen <= file;
  }

  lemma MagicSeen(size: nat, seen: seq<byte>)
    requires |seen| == 4
    ensures seen == MAGIC && 4 <= size ==> Pending(size, seen, 4, None)
    ensures seen != MAGIC || size < 4 ==> Settled(size, seen, None)
  {
    forall file: seq<byte> | |file| == size && seen <= file
      ensures HasMagic(file) <==> seen == MAGIC
    {
      assert file[..4] == seen;
    }
  }

  /** No header fits between `next` and the end of the file. */
  lemma NoRoom(size: nat, seen: seq<byte>, next: nat, acc: Option<Span>)
    requires Pending(size, seen, next, acc) && next + HEADER > size
    ensures Settled(size, seen, acc)
  {
  }

  lemma HeaderSeen(size: nat, seen: seq<byte>, next: nat, acc: Option<Span>)
    requires Pending(size, seen, next, acc) && |seen| == next + HEADER
    ensures var n, p := U32(seen, next + 9), U32(seen, next + 13);
            if n < HEADER || next + n > size then Settled(size, seen, acc)
                else Pending(size, seen, next + n, Chain(acc, n, p))
  {
    hide LittleEndian;
    var n, p := U32(seen, next + 9), U32(seen, next + 13);
    forall file: seq<byte> | |file| == size && seen <= file
      ensures SpanOf(file) == if n < HEADER || next + n > size then acc else SpanFrom(file, next + n, Chain(acc, n, p))
    {
      SameHeader(seen, file, next);
    }
  }

  class SpanTracker {
    const size: nat
    var off: nat
    var magic: seq<byte>
    var next: nat
    var hdr: seq<byte>
    var done: bool
    var start: nat
    var end: nat
    var found: bool
    /** Every byte written so far. */
    ghost var seen: seq<byte>

    function Acc(): Option<Span>
      reads this
    {
      if found then Some(Span(start, end)) else None
    }

    ghost predicate Valid()
      reads this
    {
      if done then Settled(size, seen, Acc())
      else
        && off == |seen|
        && if off < 4 then magic == seen && hdr == [] && !found
           else
             && Pending(size, seen, next, Acc()) && 4 <= next <= size
             && |hdr| < HEADER && hdr == if next < off then seen[next..] else []
    }

    constructor (size: nat)
      ensures Valid() && this.size == size && seen == []
    {
      this.size := size;
      off, magic, next, hdr, done := 0, [], 0, [], false;
      start, end, found := 0, 0, false;
      seen := [];
    }

    /** The header is complete: the event joins the chain, or the walk stops here. */
    method Event()
      requires !done && 4 <= next <= size && |seen| == next + HEADER && off == |seen|
      requires hdr == seen[next..] && Pending(size, seen, next, Acc())
      modifies this
      ensures Valid() && seen == old(seen)
    {
      hide LittleEndian;
      hide Pending;
      hide Settled;
      HeaderSeen(size, seen, next, Acc());
      assert hdr[9..13] == seen[next+9..next+13] && hdr[13..17] == seen[next+13..next+17];
      var eventSize := U32(hdr, 9);
      var logPos := U32(hdr, 13);
      hdr := [];
      if eventSize < HEADER || next + eventSize > size {
        done := true;
        return;
      }
      next := next + eventSize;
      if logPos == 0 || logPos < eventSize {
        return;
      }
      var evStart := logPos - eventSize;
      if !found || evStart > end {
        start, end, found := evStart, logPos, true;
        return;
      }
      if evStart < start {
        start := evStart;
      }
      if logPos > end {
        end := logPos;
      }
    }

    method ReadMagic(p: seq<byte>) returns (rest: seq<byte>)
      requires Valid() && !done && off < 4 && |p| > 0
      modifies this
      ensures Valid() && |rest| < |p| && seen + rest == old(seen) + p
    {
      hide Pending;
      hide Settled;
      var k := Min(4 - off, |p|);
      magic := magic + p[..k];
      off := off + k;
      seen := seen + p[..k];
      rest := p[k..];
      if off == 4 {
        MagicSeen(size, seen);
        if size < 4 || magic != MAGIC {
          done := true;
        }
        next := 4;
      }
    }

    method Skip(p: seq<byte>) returns (rest: seq<byte>)
      requires Valid() && !done && 4 <= off < next && |p| > 0
      modifies this
      ensures Valid() && |rest| < |p| && seen + rest == old(seen) + p
    {
      hide Pending;
      hide Settled;
      var k := Min(next - off, |p|);
      off := off + k;
      Grows(size, seen, p[..k], next, Acc());
      seen := seen + p[..k];
      rest := p[k..];
    }

    method ReadHeader(p: seq<byte>) returns (rest: seq<byte>)
      requires Valid() && !done && 4 <= off && next <= off && |p| > 0
      modifies this
      ensures Valid() && |rest| < |p| && seen + rest == old(seen) + p
    {
      hide Pending;
      hide Settled;
      var k := Min(HEADER - |hdr|, |p|);
      hdr := hdr + p[..k];
      off := off + k;
      Grows(size, seen, p[..k], next, Acc());
      assert (seen + p[..k])[next..] == seen[next..] + p[..k];
      seen := seen + p[..k];
      rest := p[k..];
      if |hdr| == HEADER {
        Event();
      }
    }

    method Write(chunk: seq<byte>)
      requires Valid()
      modifies this
      ensures Valid() && seen == old(seen) + chunk
    {
      hide Pending;
      hide Settled;
      var p := chunk;
      while |p| > 0 && !done
        invariant Valid() && seen + p == old(seen) + chunk
        decreases |p|
      {
        if off < 4 {
          p := ReadMagic(p);
        } else if off < next {
          p := Skip(p);
        } else if |hdr| == 0 && next + HEADER > size {
          NoRoom(size, seen, next, Acc());
          done := true;
          break;
        } else {
          p := ReadHeader(p);
        }
      }
      Grows(size, seen, p, next, Acc());
      seen := seen + p;
    }

    method Result() returns (r: Option<Span>)
      requires Valid()
      ensures |seen| == size ==> r == SpanOf(seen)
    {
      r := if found then Some(Span(start, end)) else None;
    }
  }

  /** However a file is cut into chunks, the tracker finds its event span. */
  method StreamSpan(chunks: seq<seq<byte>>, size: nat) returns (r: Option<Span>)
    requires size == |Flatten(chunks)|
    ensures r == SpanOf(Flatten(chunks))
  {
    var t := new SpanTracker(size);
    var i := 0;
    while i < |chunks|
      invariant 0 <= i <= |chunks|
      invariant t.Valid() && t.size == size && t.seen == Flatten(chunks[..i]) && fresh(t)
    {
      assert chunks[..i+1][..i] == chunks[..i];
      t.Write(chunks[i]);
      i := i + 1;
    }
    assert chunks[..i] == chunks;
    r := t.Result();
  }
}
