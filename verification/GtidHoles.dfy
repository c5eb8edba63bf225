/**
 The GTID hole judgements: inside one segment, between neighbouring source
 files, and across a change of the source server. Loops over maps meet the
 keys in any order.
 */
module GtidHoles {
  import opened Wrappers
  import opened Intervals
  import opened GtidSets
  import Texts

  datatype GtidEvent = GtidEvent(uuid: string, seqNo: int)

  /** The previous-GTIDs event of a file: absent, not a GTID set, or the set. */
  datatype Header = NoHeader | BadHeader | Header(set_: Sets)

  datatype Log = Log(header: Header, events: seq<GtidEvent>)

  function HeaderSet(h: Header): Sets { if h.Header? then h.set_ else map[] }

  // ---- Highest and lowest sequence of a source -----------------------------------

  /** The highest sequence of the source, if one is positive. */
  ghost predicate Top(events: seq<GtidEvent>, u: string, x: int) {
    x > 0 && GtidEvent(u, x) in events && forall e :: e in events && e.uuid == u ==> e.seqNo <= x
  }

  ghost predicate Lowest(events: seq<GtidEvent>, u: string, x: int) {
    GtidEvent(u, x) in events && forall e :: e in events && e.uuid == u ==> x <= e.seqNo
  }

  method Tops(events: seq<GtidEvent>) returns (m: map<string, int>)
    ensures forall u, x :: (u in m && m[u] == x) <==> Top(events, u, x)
  {
    m := map[];
    for i := 0 to |events|
      invariant forall u :: u in m ==> Top(events[..i], u, m[u])
      invariant forall e :: e in events[..i] && e.uuid !in m ==> e.seqNo <= 0
    {
      var e := events[i];
      assert events[..i+1] == events[..i] + [e];
      if e.seqNo > (if e.uuid in m then m[e.uuid] else 0) {
        m := m[e.uuid := e.seqNo];
      }
    }
    assert events[..|events|] == events;
  }

  method Lows(events: seq<GtidEvent>) returns (m: map<string, int>)
    ensures forall u, x :: (u in m && m[u] == x) <==> Lowest(events, u, x)
  {
    m := map[];
    for i := 0 to |events|
      invariant forall u :: u in m ==> Lowest(events[..i], u, m[u])
      invariant forall e :: e in events[..i] ==> e.uuid in m
    {
      var e := events[i];
      assert events[..i+1] == events[..i] + [e];
      if e.uuid !in m || e.seqNo < m[e.uuid] {
        m := m[e.uuid := e.seqNo];
      }
    }
    assert events[..|events|] == events;
  }

  // ---- Between neighbouring files --------------------------------------------------

  ghost predicate AllIn(s: Sets, events: seq<GtidEvent>) {
    forall e :: e in events ==> Mem(s, Texts.Lower(e.uuid), e.seqNo)
  }

  /** The set has the sequence after the highest one of some source. */
  ghost predicate Beyond(s: Sets, events: seq<GtidEvent>) {
    exists u, x :: Top(events, u, x) && Mem(s, Texts.Lower(u), Inc(x))
  }

  /** A source goes on in the next file later than where it stopped. */
  ghost predicate SeqHole(prev: seq<GtidEvent>, next: seq<GtidEvent>) {
    exists u, x, y :: Top(prev, u, x) && Lowest(next, u, y) && y > Inc(x)
  }

  method EventsContained(s: Sets, events: seq<GtidEvent>) returns (r: bool)
    requires Good(s)
    ensures r <==> AllIn(s, events)
  {
    for i := 0 to |events|
      invariant AllIn(s, events[..i])
    {
      assert events[i] in events && events[..i+1] == events[..i] + [events[i]];
      var has := Has(s, Texts.Lower(events[i].uuid), events[i].seqNo);
      if !has {
        return false;
      }
    }
    assert events[..|events|] == events;
    return true;
  }

  method PreviousContainsBeyond(s: Sets, events: seq<GtidEvent>) returns (r: bool)
    requires Good(s)
    ensures r <==> Beyond(s, events)
  {
    var tops := Tops(events);
    var keys := tops.Keys;
    while keys != {}
      invariant keys <= tops.Keys
      invariant forall u :: u in tops && u !in keys ==> !Mem(s, Texts.Lower(u), Inc(tops[u]))
      decreases keys
    {
      var u :| u in keys;
      var has := Has(s, Texts.Lower(u), Inc(tops[u]));
      if has {
        assert Top(events, u, tops[u]);
        return true;
      }
      keys := keys - {u};
    }
    return false;
  }

  method EventSeqHole(prev: seq<GtidEvent>, next: seq<GtidEvent>) returns (r: bool)
    ensures r <==> SeqHole(prev, next)
  {
    if |prev| == 0 || |next| == 0 {
      return false;
    }
    var tops := Tops(prev);
    var lows := Lows(next);
    var keys := tops.Keys;
    while keys != {}
      invariant keys <= tops.Keys
      invariant forall u :: u in tops && u !in keys && u in lows ==> lows[u] <= Inc(tops[u])
      decreases keys
    {
      var u :| u in keys;
      if u in lows && lows[u] > Inc(tops[u]) {
        assert Top(prev, u, tops[u]) && Lowest(next, u, lows[u]);
        return true;
      }
      keys := keys - {u};
    }
    return false;
  }

  ghost predicate HoleBetween(prev: Log, next: Log) {
    match next.header
    case NoHeader => SeqHole(prev.events, next.events)
    case BadHeader => false
    case Header(s) => !AllIn(s, prev.events) || Beyond(s, prev.events)
  }

  method GtidHole(prev: Log, next: Log) returns (r: bool)
    requires next.header.Header? ==> Good(next.header.set_)
    ensures r <==> HoleBetween(prev, next)
  {
    if prev.header == NoHeader && |prev.events| == 0 && next.header == NoHeader && |next.events| == 0 {
      return false;
    }
    if next.header != NoHeader {
      if next.header == BadHeader {
        return false;
      }
      var contained := EventsContained(next.header.set_, prev.events);
      if !contained {
        return true;
      }
      r := PreviousContainsBeyond(next.header.set_, prev.events);
      return;
    }
    r := EventSeqHole(prev.events, next.events);
  }

  /** The new server had a transaction before its first file that `stored` lacks. */
  ghost predicate HoleAtSwitch(stored: Sets, before: seq<GtidEvent>, next: Log) {
    match next.header
    case NoHeader => SeqHole(before, next.events)
    case BadHeader => false
    case Header(s) => exists k, x :: Mem(s, k, x) && !Mem(stored, k, x)
  }

  method SwitchHole(stored: Sets, before: seq<GtidEvent>, next: Log) returns (r: bool)
    requires Good(stored) && (next.header.Header? ==> Good(next.header.set_))
    ensures r <==> HoleAtSwitch(stored, before, next)
  {
    if next.header == NoHeader {
      r := EventSeqHole(before, next.events);
      return;
    }
    if next.header == BadHeader {
      return false;
    }
    var all := Contains(stored, next.header.set_);
    r := !all;
  }

  // ---- What the judgement between files finds, and what it does not --------------

  ghost predicate SourceOf(events: seq<GtidEvent>, k: string) {
    exists e :: e in events && Texts.Lower(e.uuid) == k && e.seqNo > 0
  }

  /** Later than every stored event of its source. */
  ghost predicate After(events: seq<GtidEvent>, k: string, y: int) {
    forall e :: e in events && Texts.Lower(e.uuid) == k ==> e.seqNo < y
  }

  /**
   The header of the next file has a transaction that came after what `prev`
   stores: after the last event of its source, or, of a source `prev` stores
   nothing of, one its own header has not.
   */
  ghost predicate LostAfter(prev: Log, s: Sets) {
    exists k, y :: Missed(prev, s, k, y)
  }

  ghost predicate Missed(prev: Log, s: Sets, k: string, y: int) {
    Mem(s, k, y) && After(prev.events, k, y) && (SourceOf(prev.events, k) || !Mem(HeaderSet(prev.header), k, y))
  }

  /** A transaction of a source that `prev` stores nothing of, and that is not in the header of `prev`. */
  ghost predicate NewSource(prev: Log, s: Sets) {
    exists k, y :: Mem(s, k, y) && !SourceOf(prev.events, k) && !Mem(HeaderSet(prev.header), k, y)
  }

  /** The header goes on behind the last event of a source, and leaves out the very next sequence. */
  ghost predicate Leaps(s: Sets, events: seq<GtidEvent>) {
    exists u, x, y :: Top(events, u, x) && x < y && Mem(s, Texts.Lower(u), y) && !Mem(s, Texts.Lower(u), x + 1)
  }

  /** The uuid of an event is in lower case. */
  ghost predicate InLower(events: seq<GtidEvent>) {
    forall e :: e in events ==> Texts.Lower(e.uuid) == e.uuid
  }

  lemma TopExists(events: seq<GtidEvent>, u: string) returns (x: int)
    requires exists e :: e in events && e.uuid == u && e.seqNo > 0
    ensures Top(events, u, x)
  {
    var e :| e in events && e.uuid == u && e.seqNo > 0;
    var i :| 0 <= i < |events| && events[i] == e;
    var j := i;
    for n := 0 to |events|
      invariant 0 <= j < |events| && events[j].uuid == u && events[j].seqNo >= e.seqNo
      invariant forall a :: 0 <= a < n && events[a].uuid == u ==> events[a].seqNo <= events[j].seqNo
    {
      if events[n].uuid == u && events[n].seqNo > events[j].seqNo {
        j := n;
      }
    }
    x := events[j].seqNo;
    assert events[j] == GtidEvent(u, x);
  }

  /** Exactly what the test of the very next sequence finds of the losses, and what escapes it. */
  lemma LostIffSeen(prev: Log, s: Sets)
    requires Good(s) && InLower(prev.events)
    ensures LostAfter(prev, s) <==> Beyond(s, prev.events) || NewSource(prev, s) || Leaps(s, prev.events)
  {
    if LostAfter(prev, s) {
      var k, y :| Missed(prev, s, k, y);
      LostIsSeen(prev, s, k, y);
    }
    if Beyond(s, prev.events) {
      var u, x :| Top(prev.events, u, x) && Mem(s, Texts.Lower(u), Inc(x));
      MemIsPositive(s, Texts.Lower(u), Inc(x));
      LostAfterTop(prev, s, u, x, x + 1);
    }
    if NewSource(prev, s) {
      var k, y :| Mem(s, k, y) && !SourceOf(prev.events, k) && !Mem(HeaderSet(prev.header), k, y);
      MemIsPositive(s, k, y);
      assert Missed(prev, s, k, y);
    }
    if Leaps(s, prev.events) {
      var u, x, y :| Top(prev.events, u, x) && x < y && Mem(s, Texts.Lower(u), y) && !Mem(s, Texts.Lower(u), x + 1);
      LostAfterTop(prev, s, u, x, y);
    }
  }

  lemma MemIsPositive(s: Sets, k: string, y: int)
    requires Good(s) && Mem(s, k, y)
    ensures 0 < y < MAX64
  {
    var i :| 0 <= i < |s[k]| && s[k][i].lo <= y <= s[k][i].hi;
    GoodBounds(s, k, i);
  }

  lemma LostAfterTop(prev: Log, s: Sets, u: string, x: int, y: int)
    requires InLower(prev.events) && Top(prev.events, u, x) && x < y && Mem(s, Texts.Lower(u), y)
    ensures LostAfter(prev, s)
  {
    var e := GtidEvent(u, x);
    assert e in prev.events && Texts.Lower(e.uuid) == u;
    assert SourceOf(prev.events, u);
    assert Missed(prev, s, u, y);
  }

  lemma LostIsSeen(prev: Log, s: Sets, k: string, y: int)
    requires Good(s) && InLower(prev.events) && Missed(prev, s, k, y)
    ensures Beyond(s, prev.events) || NewSource(prev, s) || Leaps(s, prev.events)
  {
    if SourceOf(prev.events, k) {
      var e :| e in prev.events && Texts.Lower(e.uuid) == k && e.seqNo > 0;
      var x := TopExists(prev.events, k);
      MemIsPositive(s, k, y);
      assert GtidEvent(k, x) in prev.events && Texts.Lower(k) == k;
      assert Inc(x) == x + 1;
      if !Mem(s, k, x + 1) {
        assert Leaps(s, prev.events);
      }
    }
  }

  function TwoSources(): Sets { map["a" := [Range(1, 1)], "b" := [Range(1, 1)]] }

  lemma TwoSourcesHold()
    ensures Good(TwoSources())
    ensures forall k, x :: Mem(TwoSources(), k, x) <==> (k == "a" || k == "b") && x == 1
  {
    var s := TwoSources();
    assert s["a"] == [Range(1, 1)] && s["b"] == [Range(1, 1)];
    assert s["a"][0] == Range(1, 1) && s["b"][0] == Range(1, 1);
  }

  /** A transaction of a source the previous file stores nothing of goes missing unseen. */
  lemma NewSourceIsMissed()
    ensures var prev := Log(Header(map[]), [GtidEvent("a", 1)]);
            LostAfter(prev, TwoSources()) && !HoleBetween(prev, Log(Header(TwoSources()), []))
  {
    hide TwoSources;
    hide Good;
    var prev, s := Log(Header(map[]), [GtidEvent("a", 1)]), TwoSources();
    TwoSourcesHold();
    assert Texts.Lower("a") == "a";
    assert Missed(prev, s, "b", 1);
    assert AllIn(s, prev.events) && !Beyond(s, prev.events);
  }

  // ---- Inside one segment ----------------------------------------------------------

  /** A sequence between two of its source that the segment does not hold. */
  ghost predicate Gap(events: seq<GtidEvent>, u: string, x: int) {
    u != "" && GtidEvent(u, x) !in events
    && (exists a :: 0 < a < x && GtidEvent(u, a) in events) && (exists b :: x < b && GtidEvent(u, b) in events)
  }

  /** A number between two of the list that the list does not have. */
  ghost predicate Skipped(l: seq<int>, x: int) {
    x !in l && (exists a :: a in l && a < x) && (exists b :: b in l && x < b)
  }

  predicate Ascending(l: seq<int>) { forall i, j :: 0 <= i < j < |l| ==> l[i] <= l[j] }

  function Insert(l: seq<int>, x: int): seq<int> {
    if l == [] || x <= l[0] then [x] + l else [l[0]] + Insert(l[1..], x)
  }

  function Sort(l: seq<int>): seq<int> {
    if l == [] then [] else Insert(Sort(l[1..]), l[0])
  }

  lemma {:induction false} InsertAscends(l: seq<int>, x: int)
    requires Ascending(l)
    ensures Ascending(Insert(l, x)) && forall y :: y in Insert(l, x) <==> y in l || y == x
  {
    if l == [] || x <= l[0] {
      return;
    }
    InsertAscends(l[1..], x);
    var r := Insert(l[1..], x);
    assert forall i :: 0 <= i < |r| ==> r[i] in r;
    assert forall y :: y in l[1..] ==> y in l && l[0] <= y;
    assert l == [l[0]] + l[1..];
  }

  lemma {:induction false} SortAscends(l: seq<int>)
    ensures Ascending(Sort(l)) && forall y :: y in Sort(l) <==> y in l
  {
    if l == [] {
      return;
    }
    SortAscends(l[1..]);
    InsertAscends(Sort(l[1..]), l[0]);
    assert l == [l[0]] + l[1..];
  }

  /** The least skipped number of an ascending list. */
  method FirstSkipped(l: seq<int>) returns (r: Option<int>)
    requires Ascending(l) && forall x :: x in l ==> x < MAX64
    ensures r.None? <==> forall x :: !Skipped(l, x)
    ensures r.Some? ==> Skipped(l, r.value) && forall x :: Skipped(l, x) ==> r.value <= x
  {
    var i := 1;
    while i < |l|
      invariant 1 <= i && (i <= |l| || l == [])
      invariant l != [] ==> forall x :: l[0] <= x <= l[i-1] ==> x in l[..i]
    {
      assert l[..i+1] == l[..i] + [l[i]] && l[i-1] in l && l[i] in l;
      if l[i] <= Inc(l[i-1]) {
        i := i + 1;
        continue;
      }
      SkippedFrom(l, i);
      return Some(Inc(l[i-1]));
    }
    assert i == |l| ==> l[..i] == l;
    return None;
  }

  lemma SkippedFrom(l: seq<int>, i: nat)
    requires Ascending(l) && 1 <= i < |l| && l[i] > l[i-1] + 1
    requires forall x :: l[0] <= x <= l[i-1] ==> x in l[..i]
    ensures Skipped(l, l[i-1] + 1) && forall x :: Skipped(l, x) ==> l[i-1] + 1 <= x
  {
    assert l[i-1] in l && l[i] in l;
    assert forall x :: x in l[..i] ==> x in l;
    assert forall k :: 0 <= k < |l| ==> l[k] <= l[i-1] || l[i] <= l[k];
    assert forall x :: x in l ==> l[0] <= x;
  }

  method SeqsOf(events: seq<GtidEvent>) returns (m: map<string, seq<int>>)
    ensures forall u, x :: u in m && x in m[u] <==> u != "" && x > 0 && GtidEvent(u, x) in events
  {
    m := map[];
    for i := 0 to |events|
      invariant forall u, x :: u in m && x in m[u] <==> u != "" && x > 0 && GtidEvent(u, x) in events[..i]
    {
      var e := events[i];
      assert events[..i+1] == events[..i] + [e];
      if e.uuid == "" || e.seqNo <= 0 {
        continue;
      }
      m := m[e.uuid := (if e.uuid in m then m[e.uuid] else []) + [e.seqNo]];
    }
    assert events[..|events|] == events;
  }

  /** `a` is reported rather than `b`: a lower sequence, or the same of a lower source. */
  predicate Sooner(a: (string, int), b: (string, int)) {
    a.1 < b.1 || (a.1 == b.1 && (a.0 == b.0 || Texts.Less(a.0, b.0)))
  }

  lemma SoonerIsTotal(a: (string, int), b: (string, int))
    ensures Sooner(a, b) || Sooner(b, a)
  {
    Texts.LessTotal(a.0, b.0);
  }

  lemma SoonerTransitive(a: (string, int), b: (string, int), c: (string, int))
    requires Sooner(a, b) && Sooner(b, c)
    ensures Sooner(a, c)
  {
    if Texts.Less(a.0, b.0) && Texts.Less(b.0, c.0) {
      Texts.LessTransitive(a.0, b.0, c.0);
    }
  }

  /** The least missing sequence of all sources; of equals that of the least source. */
  method IntraSegmentHole(events: seq<GtidEvent>) returns (r: Option<(string, int)>)
    requires forall e :: e in events ==> e.seqNo < MAX64
    ensures r.None? <==> forall u, x :: !Gap(events, u, x)
    ensures r.Some? ==> Gap(events, r.value.0, r.value.1)
    ensures r.Some? ==> forall u, x :: Gap(events, u, x) ==> Sooner(r.value, (u, x))
  {
    hide *;
    var m := SeqsOf(events);
    r := None;
    var keys := m.Keys;
    forall u, x | Gap(events, u, x) ensures u in keys { GapIsSkipped(events, m, u, x); }
    while keys != {}
      invariant keys <= m.Keys
      invariant r.Some? ==> Gap(events, r.value.0, r.value.1)
      invariant forall u, x :: Gap(events, u, x) && u !in keys ==> r.Some? && Sooner(r.value, (u, x))
      decreases keys
    {
      var u :| u in keys;
      var first := SourceHole(events, m, u);
      keys := keys - {u};
      if first.Some? {
        var found := (u, first.value);
        ghost var was := r;
        if r.None? || found.1 < r.value.1 || (found.1 == r.value.1 && Texts.Less(u, r.value.0)) {
          r := Some(found);
        }
        SoonestOfTwo(events, keys, was, found, r.value);
      }
    }
  }

  /** The least missing sequence of one source. */
  method SourceHole(events: seq<GtidEvent>, m: map<string, seq<int>>, u: string) returns (r: Option<int>)
    requires forall e :: e in events ==> e.seqNo < MAX64
    requires u in m && forall u, x :: u in m && x in m[u] <==> u != "" && x > 0 && GtidEvent(u, x) in events
    ensures r.None? ==> forall x :: !Gap(events, u, x)
    ensures r.Some? ==> Gap(events, u, r.value) && forall x :: Gap(events, u, x) ==> Sooner((u, r.value), (u, x))
  {
    hide Gap;
    var seqs := Sort(m[u]);
    SortAscends(m[u]);
    assert forall x :: Skipped(seqs, x) <==> Skipped(m[u], x);
    assert forall x :: x in seqs ==> GtidEvent(u, x) in events;
    r := FirstSkipped(seqs);
    forall x ensures Gap(events, u, x) <==> Skipped(m[u], x) { GapIsSkipped(events, m, u, x); }
  }

  lemma GapIsSkipped(events: seq<GtidEvent>, m: map<string, seq<int>>, u: string, x: int)
    requires forall u, x :: u in m && x in m[u] <==> u != "" && x > 0 && GtidEvent(u, x) in events
    ensures Gap(events, u, x) <==> u in m && Skipped(m[u], x)
  {
    if Gap(events, u, x) {
      var a :| 0 < a < x && GtidEvent(u, a) in events;
      var b :| x < b && GtidEvent(u, b) in events;
      assert a in m[u] && b in m[u];
    }
    if u in m && Skipped(m[u], x) {
      var a :| a in m[u] && a < x;
      var b :| b in m[u] && x < b;
      assert GtidEvent(u, a) in events && GtidEvent(u, b) in events;
    }
  }

  /** The sooner of the best so far and what one more source gives is the best of both. */
  lemma SoonestOfTwo(events: seq<GtidEvent>, keys: set<string>, was: Option<(string, int)>, found: (string, int),
      r: (string, int))
    requires forall u, x :: Gap(events, u, x) && u !in keys && u != found.0 ==> was.Some? && Sooner(was.value, (u, x))
    requires forall x :: Gap(events, found.0, x) ==> Sooner(found, (found.0, x))
    requires r == (if was.None? || found.1 < was.value.1 || (found.1 == was.value.1 && Texts.Less(found.0, was.value.0))
                   then found else was.value)
    ensures forall u, x :: Gap(events, u, x) && u !in keys ==> Sooner(r, (u, x))
  {
    if was.Some? {
      SoonerIsTotal(was.value, found);
      Texts.LessTotal(was.value.0, found.0);
    }
    forall u, x | Gap(events, u, x) && u !in keys ensures Sooner(r, (u, x)) {
      if u == found.0 {
        assert Sooner(r, found);
        SoonerTransitive(r, found, (u, x));
      } else {
        assert Sooner(r, was.value);
        SoonerTransitive(r, was.value, (u, x));
      }
    }
  }
}
