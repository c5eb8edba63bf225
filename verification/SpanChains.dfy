/** What the span of a segment is, without the loop: the hull of the last run of events that touch. */
module SpanChains {
  import opened Wrappers
  import opened Segments

  /** An event that counts for the span: real, and no larger than its end position. */
  predicate Counts(e: Event) { e.logPos != 0 && |e.raw| <= e.logPos }

  function Start(e: Event): int { e.logPos - |e.raw| }

  function Counted(evs: seq<Event>): (r: seq<Event>)
    ensures forall i :: 0 <= i < |r| ==> Counts(r[i])
  {
    if evs == [] then [] else Counted(evs[..|evs|-1]) + if Counts(evs[|evs|-1]) then [evs[|evs|-1]] else []
  }

  predicate AllCount(evs: seq<Event>) { forall i :: 0 <= i < |evs| ==> Counts(evs[i]) }

  /** The least start and the greatest end. */
  function Hull(evs: seq<Event>): Span
    requires evs != [] && AllCount(evs)
  {
    var n := |evs| - 1;
    var s, e := Start(evs[n]), evs[n].logPos;
    if n == 0 then Span(s, e)
    else
      var h := Hull(evs[..n]);
      Span(if s < h.start then s else h.start, if e > h.end then e else h.end)
  }

  lemma {:induction false} HullBounds(evs: seq<Event>)
    requires evs != [] && AllCount(evs)
    ensures forall i :: 0 <= i < |evs| ==> Hull(evs).start <= Start(evs[i]) && evs[i].logPos <= Hull(evs).end
    ensures exists i :: 0 <= i < |evs| && Start(evs[i]) == Hull(evs).start
    ensures exists i :: 0 <= i < |evs| && evs[i].logPos == Hull(evs).end
  {
    var n := |evs| - 1;
    if n > 0 {
      var rest := evs[..n];
      HullBounds(rest);
      var a :| 0 <= a < n && Start(rest[a]) == Hull(rest).start;
      var b :| 0 <= b < n && rest[b].logPos == Hull(rest).end;
      assert rest[a] == evs[a] && rest[b] == evs[b];
      assert forall i :: 0 <= i < n ==> rest[i] == evs[i];
    }
  }

  /** Every event after `m` starts at or before the end of some event since `m`. */
  ghost predicate Touching(evs: seq<Event>, m: nat) {
    forall j :: m < j < |evs| ==> Reached(evs, m, j)
  }

  ghost predicate Reached(evs: seq<Event>, m: nat, j: nat)
    requires j < |evs|
  {
    exists i :: m <= i < j && Start(evs[j]) <= evs[i].logPos
  }

  /** A chain runs from `m` to the last event: it touches throughout, and starts after all of the chain before it. */
  ghost predicate LastChain(evs: seq<Event>, m: nat)
    requires AllCount(evs)
    decreases |evs|
  {
    && m < |evs| && Touching(evs, m)
    && (m == 0 || exists k: nat :: k < m && LastChain(evs[..m], k) && Hull(evs[k..m]).end < Start(evs[m]))
  }

  lemma {:induction false} CountedChain(evs: seq<Event>, acc: Option<Span>)
    ensures ChainAll(evs, acc) == ChainAll(Counted(evs), acc)
  {
    if evs == [] {
    } else {
      var n := |evs| - 1;
      var head, e := evs[..n], evs[n];
      CountedChain(head, acc);
      assert evs == head + [e];
      ChainConcat(head, [e], acc);
      ChainConcat(Counted(head), if Counts(e) then [e] else [], acc);
      OneMore(ChainAll(head, acc), e);
    }
  }

  lemma OneMore(acc: Option<Span>, e: Event)
    ensures ChainAll([e], acc) == Chain(acc, |e.raw|, e.logPos) && ChainAll([], acc) == acc
    ensures !Counts(e) ==> ChainAll([e], acc) == acc
  {
    assert [e][1..] == [];
  }

  /** An event that starts after the last chain starts a chain of its own. */
  lemma ChainStarts(head: seq<Event>, e: Event, k: nat)
    requires head != [] && AllCount(head) && Counts(e) && LastChain(head, k) && Start(e) > Hull(head[k..]).end
    ensures LastChain(head + [e], |head|) && Hull((head + [e])[|head|..]) == Span(Start(e), e.logPos)
  {
    var evs, n := head + [e], |head|;
    assert evs[..n] == head && evs[k..n] == head[k..] && evs[n..] == [e];
    assert Touching(evs, n);
  }

  /** Any other event goes on with the last chain. */
  lemma ChainGoesOn(head: seq<Event>, e: Event, k: nat)
    requires head != [] && AllCount(head) && Counts(e) && LastChain(head, k) && Start(e) <= Hull(head[k..]).end
    ensures LastChain(head + [e], k)
    ensures var h := Hull(head[k..]);
            Hull((head + [e])[k..]) ==
              Span(if Start(e) < h.start then Start(e) else h.start, if e.logPos > h.end then e.logPos else h.end)
  {
    hide LastChain;
    hide Hull;
    var evs, n := head + [e], |head|;
    assert k < n && Touching(head, k) by { ChainTouches(head, k); }
    HullBounds(head[k..]);
    var b :| 0 <= b < n - k && head[k..][b].logPos == Hull(head[k..]).end;
    assert evs[k + b] == head[k..][b] && evs[n] == e;
    assert Reached(evs, k, n);
    assert evs[..n] == head;
    StillTouching(evs, k);
    SameBreak(head, evs, k);
    HullGrows(head[k..], e);
    assert evs[k..] == head[k..] + [e];
  }

  lemma ChainTouches(evs: seq<Event>, m: nat)
    requires AllCount(evs) && LastChain(evs, m)
    ensures m < |evs| && Touching(evs, m)
  {
  }

  lemma HullGrows(evs: seq<Event>, e: Event)
    requires evs != [] && AllCount(evs) && Counts(e)
    ensures var h := Hull(evs);
            Hull(evs + [e]) ==
              Span(if Start(e) < h.start then Start(e) else h.start, if e.logPos > h.end then e.logPos else h.end)
  {
    assert (evs + [e])[..|evs|] == evs;
  }

  lemma FirstChain(e: Event)
    requires Counts(e)
    ensures LastChain([e], 0) && Hull([e][0..]) == Span(Start(e), e.logPos)
  {
    assert [e][0..] == [e];
  }

  lemma {:induction false} ChainIsHull(evs: seq<Event>) returns (m: nat)
    requires evs != [] && AllCount(evs)
    ensures LastChain(evs, m) && m < |evs| && ChainAll(evs, None) == Some(Hull(evs[m..]))
  {
    hide LastChain;
    hide Hull;
    hide ChainAll;
    var n := |evs| - 1;
    var head, e := evs[..n], evs[n];
    assert evs == head + [e];
    ChainConcat(head, [e], None);
    OneMore(ChainAll(head, None), e);
    if n == 0 {
      m := 0;
      assert evs == [e];
      assert ChainAll(head, None) == None by { OneMore(None, e); }
      FirstChain(e);
    } else {
      var k := ChainIsHull(head);
      if Start(e) > Hull(head[k..]).end {
        m := n;
        ChainStarts(head, e, k);
      } else {
        m := k;
        ChainGoesOn(head, e, k);
      }
    }
  }

  lemma StillTouching(evs: seq<Event>, k: nat)
    requires 1 < |evs| && k < |evs| - 1 && Touching(evs[..|evs|-1], k) && Reached(evs, k, |evs| - 1)
    ensures Touching(evs, k)
  {
    var head := evs[..|evs|-1];
    forall j | k < j < |evs| ensures Reached(evs, k, j) {
      if j < |evs| - 1 {
        assert Reached(head, k, j);
        var i :| k <= i < j && Start(head[j]) <= head[i].logPos;
        assert Start(evs[j]) <= evs[i].logPos;
      }
    }
  }

  /** Where a chain starts does not depend on what follows its first event. */
  lemma SameBreak(a: seq<Event>, b: seq<Event>, m: nat)
    requires AllCount(a) && AllCount(b) && m < |a| && m < |b| && a[..m+1] == b[..m+1]
    requires LastChain(a, m) && Touching(b, m)
    ensures LastChain(b, m)
  {
    hide Hull;
    hide Touching;
    assert a[m] == a[..m+1][m] && b[m] == b[..m+1][m];
    if m > 0 {
      var k: nat :| k < m && LastChain(a[..m], k) && Hull(a[k..m]).end < Start(a[m]);
      assert a[..m] == a[..m+1][..m] && b[..m] == b[..m+1][..m];
      assert a[k..m] == a[..m][k..] && b[k..m] == b[..m][k..];
    }
  }

  lemma TouchingBefore(evs: seq<Event>, m: nat, n: nat)
    requires m < n <= |evs| && Touching(evs, m)
    ensures Touching(evs[..n], m)
  {
    forall j | m < j < n ensures Reached(evs[..n], m, j) {
      assert Reached(evs, m, j);
      var i :| m <= i < j && Start(evs[j]) <= evs[i].logPos;
      assert Start(evs[..n][j]) <= evs[..n][i].logPos;
    }
  }

  /** There is only one last chain. */
  lemma {:induction false} LastChainIsOne(evs: seq<Event>, a: nat, b: nat)
    requires AllCount(evs) && LastChain(evs, a) && LastChain(evs, b) && a <= b
    ensures a == b
    decreases |evs|
  {
    hide Hull;
    if a < b {
      var k: nat :| k < b && LastChain(evs[..b], k) && Hull(evs[k..b]).end < Start(evs[b]);
      TouchingBefore(evs, a, b);
      assert evs[..a+1] == evs[..b][..a+1];
      SameBreak(evs, evs[..b], a);
      if a <= k {
        LastChainIsOne(evs[..b], a, k);
      } else {
        LastChainIsOne(evs[..b], k, a);
      }
      ReachedWithin(evs, a, b);
    }
  }

  lemma ReachedWithin(evs: seq<Event>, a: nat, b: nat)
    requires AllCount(evs) && a < b < |evs| && Reached(evs, a, b)
    ensures Start(evs[b]) <= Hull(evs[a..b]).end
  {
    var i :| a <= i < b && Start(evs[b]) <= evs[i].logPos;
    HullBounds(evs[a..b]);
    assert evs[a..b][i - a] == evs[i];
  }

  /**
   The span of a file: none exactly when no event counts; else from the least
   start to the greatest end of the one last chain of its counted events.
   */
  lemma SpanIsLastChain(f: seq<byte>)
    ensures var evs := Counted(Events(f));
            && (SpanOf(f).None? <==> evs == [])
            && (evs != [] ==> exists m: nat :: LastChain(evs, m))
            && (forall m: nat :: LastChain(evs, m) ==> SpanOf(f) == Some(Hull(evs[m..])))
  {
    var evs := Counted(Events(f));
    if HasMagic(f) {
      SpanFromIsFold(f, 4, None);
    }
    CountedChain(Events(f), None);
    if evs != [] {
      var m := ChainIsHull(evs);
      forall k: nat | LastChain(evs, k) ensures k == m {
        LastChainIsOne(evs, if k <= m then k else m, if k <= m then m else k);
      }
    }
  }
}
