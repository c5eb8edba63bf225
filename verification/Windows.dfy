/**
 The recoverable window of a chain of segments: continuous when no break is
 found. `start` is the set a restore applies first.
 */
module Windows {
  import opened Wrappers
  import opened Intervals
  import opened GtidSets
  import opened GtidHoles
  import Texts

  /** A chosen segment; `place` is the (prefix, index) its file name classifies to, if it does. */
  datatype Segment = Segment(place: Option<Place>, open: bool, mismatch: bool, uploadState: string,
                             readable: bool, header: Header, events: seq<GtidEvent>)

  datatype Place = Place(prefix: string, index: nat)

  datatype Part = Part(place: Place, segs: seq<Segment>)

  datatype Break = Checksum | NotDurable | Unreadable | IntraHole | MissingIndex | GtidHole | InteriorHole

  datatype Window = Failed | Window(continuous: bool, breaks: seq<Break>)

  // ---- Grouping ------------------------------------------------------------------

  /** The parts after one more segment: it joins the last part of its place or starts one. */
  function Grouped(parts: seq<Part>, s: Segment): seq<Part> {
    if s.place.None? then parts
    else if parts != [] && parts[|parts|-1].place == s.place.value then
      parts[|parts|-1 := Part(s.place.value, parts[|parts|-1].segs + [s])]
    else parts + [Part(s.place.value, [s])]
  }

  function Group(segs: seq<Segment>): seq<Part> {
    if segs == [] then [] else Grouped(Group(segs[..|segs|-1]), segs[|segs|-1])
  }

  method GroupWindow(segs: seq<Segment>) returns (parts: seq<Part>)
    ensures parts == Group(segs)
  {
    parts := [];
    for i := 0 to |segs|
      invariant parts == Group(segs[..i])
    {
      assert segs[..i+1][..i] == segs[..i];
      var s := segs[i];
      if s.place.None? {
        continue;
      }
      ghost var before := parts;
      if |parts| == 0 || parts[|parts|-1].place != s.place.value {
        parts := parts + [Part(s.place.value, [])];
      }
      var last := parts[|parts|-1];
      parts := parts[|parts|-1 := Part(last.place, last.segs + [s])];
      assert [] + [s] == [s] && parts == Grouped(before, s);
    }
    assert segs[..|segs|] == segs;
  }

  // ---- What a continuous window means --------------------------------------------

  /** The upload state, in any case and between blanks, says that the object store has no copy. */
  predicate Lost(uploadState: string) {
    var state := Texts.Upper(Texts.TrimSpace(uploadState));
    state == "UPLOAD_FAILED" || state == "LOCAL_ONLY"
  }

  /** The text says the words, in any case. */
  ghost predicate Says(text: string, words: string) {
    |text| == |words| && forall i :: 0 <= i < |words| ==>
      text[i] == words[i] || ('A' <= words[i] <= 'Z' && text[i] as int == words[i] as int + 32)
  }

  lemma LostIs(uploadState: string)
    ensures Lost(uploadState) <==>
              var text := Texts.TrimSpace(uploadState); Says(text, "UPLOAD_FAILED") || Says(text, "LOCAL_ONLY")
  {
    UpperSays(Texts.TrimSpace(uploadState), "UPLOAD_FAILED");
    UpperSays(Texts.TrimSpace(uploadState), "LOCAL_ONLY");
  }

  lemma UpperSays(text: string, words: string)
    requires forall i :: 0 <= i < |words| ==> words[i] == '_' || 'A' <= words[i] <= 'Z'
    ensures Texts.Upper(text) == words <==> Says(text, words)
  {
    var upper := Texts.Upper(text);
    assert |upper| == |text| && forall i :: 0 <= i < |text| ==> upper[i] == Texts.UpperChar(text[i]);
  }

  /** A sealed segment that is whole here but, with object storage, says that its upload failed or never happened. */
  lemma DurableIs(s: Segment, objectStorage: bool)
    ensures Durable(s, objectStorage) <==>
              var text := Texts.TrimSpace(s.uploadState);
              !objectStorage || s.open || s.mismatch || !(Says(text, "UPLOAD_FAILED") || Says(text, "LOCAL_ONLY"))
  {
    hide Lost;
    LostIs(s.uploadState);
  }

  predicate Durable(s: Segment, objectStorage: bool) {
    !(objectStorage && !s.open && !s.mismatch && Lost(s.uploadState))
  }

  ghost predicate SegmentClean(s: Segment, mysql: bool, objectStorage: bool) {
    && s.readable && (s.open || !s.mismatch) && Durable(s, objectStorage)
    && (mysql ==> forall u, x :: !Gap(s.events, u, x))
  }

  /** No index of one server is left out from a place to the next. */
  ghost predicate NoneSkipped(a: Place, b: Place) { a.prefix == b.prefix ==> b.index <= a.index + 1 }

  predicate Skips(a: Place, b: Place) { a.prefix == b.prefix && b.index > a.index + 1 }

  ghost predicate PairClean(segs: seq<Segment>, parts: seq<Part>, i: nat, mysql: bool, start: Sets)
    requires i + 1 < |parts|
  {
    && (parts[i].place.prefix == parts[i+1].place.prefix ==> parts[i+1].place.index <= parts[i].place.index + 1)
    && (mysql ==> !PairHole(segs, parts, i, start))
  }

  ghost predicate PartsClean(segs: seq<Segment>, parts: seq<Part>, n: nat, mysql: bool, objectStorage: bool,
      start: Sets)
    requires n <= |parts|
  {
    && (forall i, j :: 0 <= i < n && 0 <= j < |parts[i].segs| ==> SegmentClean(parts[i].segs[j], mysql, objectStorage))
    && (forall i: nat :: i < n && i + 1 < |parts| ==> PairClean(segs, parts, i, mysql, start))
  }

  /** The first header among readable segments. */
  function FirstHeader(segs: seq<Segment>): Header {
    if segs == [] then NoHeader
    else if segs[0].readable && segs[0].header != NoHeader then segs[0].header
    else FirstHeader(segs[1..])
  }

  /** The events of the readable segments, in order. */
  function EventsOf(segs: seq<Segment>): seq<GtidEvent> {
    if segs == [] then []
    else EventsOf(segs[..|segs|-1]) + if segs[|segs|-1].readable then segs[|segs|-1].events else []
  }

  /** The log of the source file that a part is. */
  function Merged(part: Part): Log { Log(FirstHeader(part.segs), EventsOf(part.segs)) }

  /** The events of the first `n` parts. */
  function Earlier(parts: seq<Part>, n: nat): seq<GtidEvent>
    requires n <= |parts|
  {
    if n == 0 then [] else Earlier(parts, n - 1) + EventsOf(parts[n-1].segs)
  }

  /** The transaction is older than the chain, in the start set, or stored. */
  ghost predicate Had(segs: seq<Segment>, start: Sets, k: string, x: int) {
    Mem(HeaderSet(FirstHeader(segs)), k, x) || Mem(start, k, x) || StoredBy(segs, k, x)
  }

  /** A hole between a part and the next: within one server, or where another server takes over. */
  ghost predicate PairHole(segs: seq<Segment>, parts: seq<Part>, i: nat, start: Sets)
    requires i + 1 < |parts|
  {
    var next := Merged(parts[i+1]);
    if parts[i].place.prefix == parts[i+1].place.prefix then HoleBetween(Merged(parts[i]), next)
    else
      match next.header
      case NoHeader => SeqHole(Earlier(parts, i + 1), next.events)
      case BadHeader => false
      case Header(s) => exists k, x :: Mem(s, k, x) && !Had(segs, start, k, x)
  }

  ghost predicate Holds(events: seq<GtidEvent>, k: string, x: int) {
    exists j :: 0 <= j < |events| && Is(events[j], k, x)
  }

  lemma PartsCleanNext(segs: seq<Segment>, parts: seq<Part>, n: nat, mysql: bool, objectStorage: bool, start: Sets)
    requires n < |parts|
    ensures PartsClean(segs, parts, n + 1, mysql, objectStorage, start) <==>
              && PartsClean(segs, parts, n, mysql, objectStorage, start)
              && (forall j :: 0 <= j < |parts[n].segs| ==> SegmentClean(parts[n].segs[j], mysql, objectStorage))
              && (n + 1 < |parts| ==> PairClean(segs, parts, n, mysql, start))
  {
    hide PairClean;
    hide SegmentClean;
  }

  /** A readable segment stores the transaction. */
  ghost predicate StoredBy(segs: seq<Segment>, k: string, x: int) {
    exists i :: 0 <= i < |segs| && segs[i].readable && Holds(segs[i].events, k, x)
  }

  ghost predicate Is(e: GtidEvent, k: string, x: int) { Texts.Lower(e.uuid) == k != "" && e.seqNo == x > 0 }

  /** A sequence between two stored ones of its source that neither a segment nor the start set has. */
  ghost predicate Hole(segs: seq<Segment>, start: Sets, k: string, x: int) {
    && !StoredBy(segs, k, x) && !Mem(start, k, x)
    && (exists a :: a < x && StoredBy(segs, k, a)) && (exists b :: x < b && StoredBy(segs, k, b))
  }

  /** No sequence is the 64-bit maximum. */
  predicate Bounded(segs: seq<Segment>) {
    forall s :: s in segs ==> (forall e :: e in s.events ==> e.seqNo < MAX64) && Good(HeaderSet(s.header))
  }

  // ---- The derivation ------------------------------------------------------------

  method SegmentBreaks(s: Segment, mysql: bool, objectStorage: bool) returns (r: seq<Break>)
    requires forall e :: e in s.events ==> e.seqNo < MAX64
    ensures r == [] <==> SegmentClean(s, mysql, objectStorage)
  {
    hide Gap;
    r := [];
    var sealed := !s.open;
    var mismatch := sealed && s.mismatch;
    if mismatch {
      r := r + [Checksum];
    }
    if objectStorage && sealed && !mismatch {
      var state := Texts.Upper(Texts.TrimSpace(s.uploadState));
      if state == "UPLOAD_FAILED" || state == "LOCAL_ONLY" {
        r := r + [NotDurable];
      }
    }
    if !s.readable {
      r := r + [Unreadable];
      return;
    }
    if mysql {
      var hole := IntraSegmentHole(s.events);
      if hole.Some? {
        r := r + [IntraHole];
      }
    }
  }

  method PartBreaks(part: Part, mysql: bool, objectStorage: bool) returns (r: seq<Break>)
    requires Bounded(part.segs)
    ensures r == [] <==> forall j :: 0 <= j < |part.segs| ==> SegmentClean(part.segs[j], mysql, objectStorage)
  {
    hide SegmentClean;
    r := [];
    for j := 0 to |part.segs|
      invariant r == [] <==> forall k :: 0 <= k < j ==> SegmentClean(part.segs[k], mysql, objectStorage)
    {
      assert part.segs[j] in part.segs;
      var found := SegmentBreaks(part.segs[j], mysql, objectStorage);
      r := r + found;
    }
  }

  method Stored(segs: seq<Segment>) returns (r: Sets)
    requires Bounded(segs)
    ensures Good(r) && forall k, x :: Mem(r, k, x) <==> StoredBy(segs, k, x)
  {
    var out := new GtidSet();
    for i := 0 to |segs|
      invariant Good(out.m) && fresh(out)
      invariant forall k, x :: Mem(out.m, k, x) <==> StoredBy(segs[..i], k, x)
    {
      var one := SegmentSet(segs[i].events);
      StoredByNext(segs, i);
      if segs[i].readable {
        out.AddAll(one);
      }
    }
    assert segs[..|segs|] == segs;
    r := out.m;
  }

  method SegmentSet(events: seq<GtidEvent>) returns (r: Sets)
    requires forall e :: e in events ==> e.seqNo < MAX64
    ensures Good(r) && forall k, x :: Mem(r, k, x) <==> Holds(events, k, x)
  {
    var out := new GtidSet();
    for j := 0 to |events|
      invariant Good(out.m) && fresh(out)
      invariant forall k, x :: Mem(out.m, k, x) <==> Holds(events[..j], k, x)
    {
      assert events[..j+1][j] == events[j] && forall a :: 0 <= a < j ==> events[..j+1][a] == events[..j][a];
      assert forall k, x :: Holds(events[..j+1], k, x) <==> Holds(events[..j], k, x) || Is(events[j], k, x);
      var e := events[j];
      if e.uuid == "" || e.seqNo <= 0 {
        continue;
      }
      assert e in events;
      out.Add(Texts.Lower(e.uuid), e.seqNo, e.seqNo);
    }
    assert events[..|events|] == events;
    r := out.m;
  }

  lemma StoredByNext(segs: seq<Segment>, i: nat)
    requires i < |segs|
    ensures forall k, x :: StoredBy(segs[..i+1], k, x) <==>
              StoredBy(segs[..i], k, x) || (segs[i].readable && Holds(segs[i].events, k, x))
  {
    forall k, x ensures StoredBy(segs[..i+1], k, x) <==>
      StoredBy(segs[..i], k, x) || (segs[i].readable && Holds(segs[i].events, k, x))
    {
      assert segs[..i+1][i] == segs[i];
      assert forall a :: 0 <= a < i ==> segs[..i+1][a] == segs[..i][a];
    }
  }

  /** Whether the stored set has a hole the start set does not cover. */
  method HasInteriorHole(segs: seq<Segment>, start: Sets) returns (r: bool)
    requires Bounded(segs) && Good(start)
    ensures r <==> exists k, x :: Hole(segs, start, k, x)
  {
    var stored := Stored(segs);
    var gaps := StoredHoles(stored, start);
    EmptyIff(gaps);
    r := gaps != map[];
    forall k, x ensures Mem(gaps, k, x) <==> Hole(segs, start, k, x) { HoleIsGap(segs, start, stored, k, x); }
  }

  lemma HoleIsGap(segs: seq<Segment>, start: Sets, stored: Sets, k: string, x: int)
    requires forall k', x' :: Mem(stored, k', x') <==> StoredBy(segs, k', x')
    ensures Hole(segs, start, k, x) <==> k in stored && Between(stored[k], x) && !Mem(start, k, x)
  {
    if Hole(segs, start, k, x) {
      var a :| a < x && StoredBy(segs, k, a);
      var b :| x < b && StoredBy(segs, k, b);
      assert Mem(stored, k, a) && Mem(stored, k, b) && !Mem(stored, k, x);
    }
    if k in stored && Between(stored[k], x) && !Mem(start, k, x) {
      var a :| a < x && In(stored[k], a);
      var b :| x < b && In(stored[k], b);
      assert Mem(stored, k, a) && Mem(stored, k, b) && !Mem(stored, k, x);
    }
  }

  method MergeLogs(part: Part) returns (r: Log)
    ensures r == Merged(part)
  {
    var header, events := NoHeader, [];
    for i := 0 to |part.segs|
      invariant events == EventsOf(part.segs[..i])
      invariant FirstHeader(part.segs) == if header != NoHeader then header else FirstHeader(part.segs[i..])
    {
      var s := part.segs[i];
      assert part.segs[..i+1][..i] == part.segs[..i];
      assert part.segs[i..][0] == s && part.segs[i..][1..] == part.segs[i+1..];
      if !s.readable {
        assert events + [] == events;
        continue;
      }
      if header == NoHeader && s.header != NoHeader {
        header := s.header;
      }
      events := events + s.events;
    }
    assert part.segs[..|part.segs|] == part.segs;
    r := Log(header, events);
  }

  /** What a restore has before and along the chain. */
  method WindowStoredSet(segs: seq<Segment>, start: Sets) returns (r: Sets)
    requires Bounded(segs) && Good(start)
    ensures Good(r) && forall k, x :: Mem(r, k, x) <==> Had(segs, start, k, x)
  {
    FirstHeaderGood(segs);
    var out := new GtidSet();
    out.AddAll(HeaderSet(FirstHeader(segs)));
    out.AddAll(start);
    var stored := Stored(segs);
    out.AddAll(stored);
    r := out.m;
  }

  lemma {:induction false} FirstHeaderGood(segs: seq<Segment>)
    requires Bounded(segs)
    ensures Good(HeaderSet(FirstHeader(segs)))
  {
    if segs == [] {
      return;
    }
    assert segs[0] in segs && forall s :: s in segs[1..] ==> s in segs;
    FirstHeaderGood(segs[1..]);
  }

  /** A part holds segments of the chain only. */
  lemma {:induction false} GroupedFrom(segs: seq<Segment>)
    ensures forall p, s :: 0 <= p < |Group(segs)| && s in Group(segs)[p].segs ==> s in segs
  {
    if segs == [] {
      return;
    }
    GroupedFrom(segs[..|segs|-1]);
    assert segs == segs[..|segs|-1] + [segs[|segs|-1]];
  }

  lemma PartsBounded(segs: seq<Segment>)
    requires Bounded(segs)
    ensures forall p :: 0 <= p < |Group(segs)| ==> Bounded(Group(segs)[p].segs)
  {
    GroupedFrom(segs);
  }

  /** An unparseable header where the derivation reads one is an error, not a window. */
  predicate HeadersParse(segs: seq<Segment>, parts: seq<Part>) {
    FirstHeader(segs) != BadHeader && forall i :: 0 < i < |parts| ==> FirstHeader(parts[i].segs) != BadHeader
  }

  function SeedSet(seed: Option<Sets>): Sets { if seed.Some? then seed.value else map[] }

  /** Whether the place between a part and the next is a hole. */
  method HoleAt(segs: seq<Segment>, parts: seq<Part>, i: nat, before: seq<GtidEvent>, start: Sets) returns (r: bool)
    requires Bounded(segs) && Good(start) && parts == Group(segs) && i + 1 < |parts| && before == Earlier(parts, i + 1)
    ensures r <==> PairHole(segs, parts, i, start)
  {
    hide HoleBetween;
    hide SeqHole;
    PartsBounded(segs);
    FirstHeaderGood(parts[i+1].segs);
    var next := MergeLogs(parts[i+1]);
    if parts[i].place.prefix != parts[i+1].place.prefix {
      var stored := WindowStoredSet(segs, start);
      r := SwitchHole(stored, before, next);
    } else {
      var prev := MergeLogs(parts[i]);
      r := GtidHoles.GtidHole(prev, next);
    }
  }

  /** The breaks between a part and the next; `bad` when the header there does not parse. */
  method PairBreaks(segs: seq<Segment>, parts: seq<Part>, i: nat, before: seq<GtidEvent>, mysql: bool, start: Sets)
      returns (r: seq<Break>, bad: bool)
    requires Bounded(segs) && Good(start) && parts == Group(segs) && i + 1 < |parts| && before == Earlier(parts, i + 1)
    ensures bad <==> mysql && FirstHeader(parts[i+1].segs) == BadHeader
    ensures !bad ==> (r == [] <==> PairClean(segs, parts, i, mysql, start))
  {
    hide PairHole;
    hide Group;
    r, bad := [], false;
    if Skips(parts[i].place, parts[i+1].place) {
      r := r + [MissingIndex];
    }
    if mysql {
      if FirstHeader(parts[i+1].segs) == BadHeader {
        return r, true;
      }
      var hole := HoleAt(segs, parts, i, before, start);
      if hole {
        r := r + [GtidHole];
      }
    }
  }

  /** `seed` is the parsed start set; an unparseable one covers nothing. */
  method WindowOf(segs: seq<Segment>, mysql: bool, objectStorage: bool, seed: Option<Sets>) returns (w: Window)
    requires Bounded(segs) && (seed.Some? ==> Good(seed.value))
    ensures w.Failed? <==> mysql && !HeadersParse(segs, Group(segs))
    ensures w.Window? ==> (w.continuous <==> w.breaks == [])
    ensures w.Window? ==>
      (w.continuous <==> PartsClean(segs, Group(segs), |Group(segs)|, mysql, objectStorage, SeedSet(seed))
                         && (mysql ==> forall k, x :: !Hole(segs, SeedSet(seed), k, x)))
    ensures w.Window? && w.continuous && (forall i :: 0 <= i < |segs| ==> segs[i].place.Some?) ==>
              && (forall i :: 0 <= i < |segs| ==> segs[i].readable && SegmentClean(segs[i], mysql, objectStorage))
              && (forall i :: 0 <= i < |segs| - 1 ==> NoneSkipped(segs[i].place.value, segs[i+1].place.value))
  {
    hide Group;
    hide SegmentClean;
    hide PairHole;
    hide Hole;
    hide Bounded;
    hide PairClean;
    hide FirstHeader;
    hide EventsOf;
    PartsBounded(segs);
    var start := SeedSet(seed);
    var breaks: seq<Break> := [];
    var parts := GroupWindow(segs);
    if mysql && FirstHeader(segs) == BadHeader {
      return Failed;
    }
    var before: seq<GtidEvent> := [];
    for i := 0 to |parts|
      invariant breaks == [] <==> PartsClean(segs, parts, i, mysql, objectStorage, start)
      invariant mysql ==> forall p :: 0 < p <= i && p < |parts| ==> FirstHeader(parts[p].segs) != BadHeader
      invariant before == Earlier(parts, i)
    {
      var found := PartBreaks(parts[i], mysql, objectStorage);
      breaks := breaks + found;
      var log := MergeLogs(parts[i]);
      before := before + log.events;
      if i < |parts| - 1 {
        var between, bad := PairBreaks(segs, parts, i, before, mysql, start);
        if bad {
          return Failed;
        }
        breaks := breaks + between;
      }
      PartsCleanNext(segs, parts, i, mysql, objectStorage, start);
    }
    if mysql && GtidHole !in breaks && IntraHole !in breaks && Unreadable !in breaks {
      var hole := HasInteriorHole(segs, start);
      if hole {
        breaks := breaks + [InteriorHole];
      }
    }
    w := Window(|breaks| == 0, breaks);
    if |breaks| == 0 && forall i :: 0 <= i < |segs| ==> segs[i].place.Some? {
      ContinuousChain(segs, mysql, objectStorage, start);
    }
  }

  // ---- Reading the result off the segments themselves ----------------------------

  /** The last classified segment sits at the end of the last part. */
  lemma {:induction false} LastGrouped(segs: seq<Segment>)
    requires segs != [] && segs[|segs|-1].place.Some?
    ensures var parts, s := Group(segs), segs[|segs|-1];
            parts != [] && parts[|parts|-1].place == s.place.value && parts[|parts|-1].segs != []
            && parts[|parts|-1].segs[|parts[|parts|-1].segs|-1] == s
  {
  }

  /** Later segments only extend the last part of a prefix of the chain and add parts after it. */
  lemma {:induction false} GroupGrows(segs: seq<Segment>, n: nat)
    requires n <= |segs|
    ensures var a, b := Group(segs[..n]), Group(segs);
            && |a| <= |b| && (forall i :: 0 <= i < |a| ==> a[i].place == b[i].place && a[i].segs <= b[i].segs)
    decreases |segs|
  {
    if n == |segs| {
      assert segs[..n] == segs;
    } else {
      assert segs[..|segs|-1][..n] == segs[..n];
      GroupGrows(segs[..|segs|-1], n);
    }
  }

  lemma InSomePart(segs: seq<Segment>, n: nat) returns (p: nat, j: nat)
    requires n < |segs| && segs[n].place.Some?
    ensures p < |Group(segs)| && j < |Group(segs)[p].segs| && Group(segs)[p].segs[j] == segs[n]
    ensures Group(segs)[p].place == segs[n].place.value && p == |Group(segs[..n+1])| - 1
  {
    LastGrouped(segs[..n+1]);
    GroupGrows(segs, n + 1);
    p := |Group(segs[..n+1])| - 1;
    j := |Group(segs[..n+1])[p].segs| - 1;
  }

  lemma NoSkip(segs: seq<Segment>, i: nat, mysql: bool, objectStorage: bool, start: Sets)
    requires i < |segs| - 1 && forall k :: 0 <= k < |segs| ==> segs[k].place.Some?
    requires PartsClean(segs, Group(segs), |Group(segs)|, mysql, objectStorage, start)
    ensures NoneSkipped(segs[i].place.value, segs[i+1].place.value)
  {
    hide Group;
    var parts := Group(segs);
    var p, j := InSomePart(segs, i);
    var q, l := InSomePart(segs, i + 1);
    assert q == p || q == p + 1 by { PartsStep(segs, i); }
    assert q == p + 1 ==> PairClean(segs, parts, p, mysql, start);
  }

  /** One more segment starts at most one part. */
  lemma PartsStep(segs: seq<Segment>, i: nat)
    requires i + 1 < |segs| && segs[i].place.Some?
    ensures |Group(segs[..i+1])| <= |Group(segs[..i+2])| <= |Group(segs[..i+1])| + 1
  {
    assert segs[..i+2][..i+1] == segs[..i+1];
  }

  /**
   On a chain whose names all classify, a clean grouping says: every segment is
   readable, and no index is skipped forward from one segment to the next.
   */
  lemma ContinuousChain(segs: seq<Segment>, mysql: bool, objectStorage: bool, start: Sets)
    requires forall i :: 0 <= i < |segs| ==> segs[i].place.Some?
    requires PartsClean(segs, Group(segs), |Group(segs)|, mysql, objectStorage, start)
    ensures forall i :: 0 <= i < |segs| ==> segs[i].readable && SegmentClean(segs[i], mysql, objectStorage)
    ensures forall i :: 0 <= i < |segs| - 1 ==> NoneSkipped(segs[i].place.value, segs[i+1].place.value)
  {
    var parts := Group(segs);
    forall i | 0 <= i < |segs| ensures segs[i].readable && SegmentClean(segs[i], mysql, objectStorage) {
      var p, j := InSomePart(segs, i);
    }
    forall i: nat | i < |segs| - 1 ensures NoneSkipped(segs[i].place.value, segs[i+1].place.value) {
      NoSkip(segs, i, mysql, objectStorage, start);
    }
  }

  function Classified(segs: seq<Segment>): seq<Segment> {
    if segs == [] then []
    else Classified(segs[..|segs|-1]) + if segs[|segs|-1].place.Some? then [segs[|segs|-1]] else []
  }

  /**
   A name that does not classify is grouped nowhere: the parts are those of the
   other segments, whatever its state.
   */
  lemma {:induction false} UnclassifiedIsSkipped(segs: seq<Segment>)
    ensures Group(segs) == Group(Classified(segs))
  {
    if segs == [] {
    } else {
      var n := |segs| - 1;
      UnclassifiedIsSkipped(segs[..n]);
      var c := Classified(segs[..n]);
      if segs[n].place.Some? {
        assert (c + [segs[n]])[..|c|] == c;
      } else {
        assert c + [] == c;
      }
    }
  }

  ghost function Flat(parts: seq<Part>): seq<Segment> {
    if parts == [] then [] else Flat(parts[..|parts|-1]) + parts[|parts|-1].segs
  }

  /** Every segment of a part is of its place, and there is one; neighbours are of two places. */
  ghost predicate OnePlace(part: Part) {
    part.segs != [] && forall s :: s in part.segs ==> s.place == Some(part.place)
  }

  ghost predicate Grouping(parts: seq<Part>) {
    && (forall p :: 0 <= p < |parts| ==> OnePlace(parts[p]))
    && (forall p :: 0 <= p < |parts| - 1 ==> parts[p].place != parts[p+1].place)
  }

  lemma GroupedKeeps(parts: seq<Part>, s: Segment)
    requires Grouping(parts)
    ensures Grouping(Grouped(parts, s))
  {
    hide OnePlace;
    var after := Grouped(parts, s);
    if s.place.Some? {
      PartGrows(if |after| == |parts| then parts[|parts|-1] else Part(s.place.value, []), s);
      assert OnePlace(after[|after|-1]);
    }
  }

  lemma PartGrows(part: Part, s: Segment)
    requires s.place == Some(part.place) && (part.segs == [] || OnePlace(part))
    ensures OnePlace(Part(part.place, part.segs + [s])) && [] + [s] == [s]
  {
  }

  lemma FlatGrows(parts: seq<Part>, s: Segment)
    ensures Flat(Grouped(parts, s)) == Flat(parts) + if s.place.Some? then [s] else []
  {
    var after := Grouped(parts, s);
    if s.place.Some? {
      if |after| == |parts| {
        var n := |parts| - 1;
        assert after[..n] == parts[..n];
        assert Flat(after) == Flat(parts[..n]) + (parts[n].segs + [s]);
      } else {
        assert after[..|parts|] == parts;
      }
    }
  }

  /**
   The grouping, without the loop: the parts hold the classified segments in
   order, each part those of one place, and two neighbours are of two places.
   */
  lemma {:induction false} GroupIs(segs: seq<Segment>)
    ensures Grouping(Group(segs)) && Flat(Group(segs)) == Classified(segs)
  {
    hide Grouped;
    if segs == [] {
    } else {
      GroupIs(segs[..|segs|-1]);
      GroupedKeeps(Group(segs[..|segs|-1]), segs[|segs|-1]);
      FlatGrows(Group(segs[..|segs|-1]), segs[|segs|-1]);
    }
  }

  /** The header of a file is that of its first readable segment that has one. */
  lemma {:induction false} FirstHeaderIs(segs: seq<Segment>)
    ensures FirstHeader(segs) == NoHeader <==>
              forall i :: 0 <= i < |segs| && segs[i].readable ==> segs[i].header == NoHeader
    ensures forall i :: 0 <= i < |segs| && segs[i].readable && segs[i].header != NoHeader
                        && (forall j :: 0 <= j < i && segs[j].readable ==> segs[j].header == NoHeader) ==>
              FirstHeader(segs) == segs[i].header
  {
    if segs == [] {
    } else {
      FirstHeaderIs(segs[1..]);
      assert forall i :: 0 < i < |segs| ==> segs[i] == segs[1..][i-1];
      assert forall i :: 0 <= i < |segs[1..]| ==> segs[1..][i] == segs[i+1];
    }
  }

  /** The events before a part are those of all parts before it. */
  lemma {:induction false} EarlierIs(parts: seq<Part>, n: nat)
    requires n <= |parts|
    ensures forall e :: e in Earlier(parts, n) <==> exists p :: 0 <= p < n && e in EventsOf(parts[p].segs)
  {
    if n == 0 {
    } else {
      EarlierIs(parts, n - 1);
    }
  }

  // ---- The headers of a continuous window ------------------------------------------

  /** Older than the first stored sequence of its source: a capture may start in the middle of a file. */
  ghost predicate Older(segs: seq<Segment>, k: string, y: int) {
    (exists x :: StoredBy(segs, k, x)) && forall x :: StoredBy(segs, k, x) ==> y < x
  }

  /** What `HoleBetween` cannot see of the losses between two files of one server. */
  ghost predicate Escapes(prev: Log, next: Log) {
    NewSource(prev, HeaderSet(next.header)) || Leaps(HeaderSet(next.header), prev.events)
  }

  ghost predicate Unescaped(parts: seq<Part>) {
    forall i :: 0 < i < |parts| && parts[i-1].place.prefix == parts[i].place.prefix ==>
        !Escapes(Merged(parts[i-1]), Merged(parts[i]))
  }

  /** Nothing the server had before the file is missing. */
  ghost predicate HeaderHeld(segs: seq<Segment>, part: Part, start: Sets) {
    forall k, y :: Mem(HeaderSet(FirstHeader(part.segs)), k, y) ==> Had(segs, start, k, y) || Older(segs, k, y)
  }

  /** The uuids of all events are in lower case, as the scan of a segment gives them. */
  ghost predicate LowerCase(segs: seq<Segment>) { forall s :: s in segs ==> InLower(s.events) }

  lemma {:induction false} EventsFrom(segs: seq<Segment>)
    ensures forall e :: e in EventsOf(segs) <==> exists s :: s in segs && s.readable && e in s.events
  {
    if segs == [] {
      return;
    }
    var rest, s := segs[..|segs|-1], segs[|segs|-1];
    EventsFrom(rest);
    assert segs == rest + [s];
    forall e | e in EventsOf(segs) ensures exists s :: s in segs && s.readable && e in s.events {
      if e in EventsOf(rest) {
        var r :| r in rest && r.readable && e in r.events;
        assert r in segs;
      } else {
        assert s in segs;
      }
    }
  }

  /** The events of a part are stored by the chain, and in lower case with it. */
  lemma PartIsStored(segs: seq<Segment>, p: nat)
    requires p < |Group(segs)| && LowerCase(segs)
    ensures InLower(Merged(Group(segs)[p]).events)
    ensures forall e :: e in Merged(Group(segs)[p]).events && e.uuid != "" && e.seqNo > 0 ==>
              StoredBy(segs, Texts.Lower(e.uuid), e.seqNo)
  {
    hide Group;
    var part := Group(segs)[p];
    GroupedFrom(segs);
    EventsFrom(part.segs);
    forall e | e in Merged(part).events
      ensures Texts.Lower(e.uuid) == e.uuid
                && (e.uuid != "" && e.seqNo > 0 ==> StoredBy(segs, Texts.Lower(e.uuid), e.seqNo))
    {
      var s :| s in part.segs && s.readable && e in s.events;
      if e.uuid != "" && e.seqNo > 0 {
        EventIsStored(segs, s, e);
      }
    }
  }

  lemma EventIsStored(segs: seq<Segment>, s: Segment, e: GtidEvent)
    requires s in segs && s.readable && e in s.events && e.uuid != "" && e.seqNo > 0
    ensures StoredBy(segs, Texts.Lower(e.uuid), e.seqNo)
  {
    var j :| 0 <= j < |s.events| && s.events[j] == e;
    assert Is(s.events[j], Texts.Lower(e.uuid), e.seqNo);
  }

  /** The first part is a prefix of a chain whose names classify. */
  lemma {:induction false} FirstPart(segs: seq<Segment>)
    requires segs != [] && forall i :: 0 <= i < |segs| ==> segs[i].place.Some?
    ensures var parts := Group(segs); parts != [] && parts[0].segs <= segs && (|parts| == 1 ==> parts[0].segs == segs)
  {
    var rest, s := segs[..|segs|-1], segs[|segs|-1];
    if rest == [] {
      assert segs == [s];
      return;
    }
    FirstPart(rest);
    assert segs == rest + [s];
  }

  lemma {:induction false} FirstHeaderOfPrefix(a: seq<Segment>, b: seq<Segment>)
    requires a <= b && FirstHeader(a) != NoHeader
    ensures FirstHeader(b) == FirstHeader(a)
  {
    if a[0].readable && a[0].header != NoHeader {
      return;
    }
    FirstHeaderOfPrefix(a[1..], b[1..]);
  }

  /** Between stored sequences of its source nothing is missing. */
  lemma BelowStored(segs: seq<Segment>, start: Sets, k: string, y: int, x: int)
    requires !Hole(segs, start, k, y) && StoredBy(segs, k, x) && y <= x
    ensures Had(segs, start, k, y) || Older(segs, k, y)
  {
    if !Older(segs, k, y) {
      var a :| StoredBy(segs, k, a) && a <= y;
    }
  }

  lemma HeldAtFirst(segs: seq<Segment>, start: Sets)
    requires Group(segs) != [] && forall i :: 0 <= i < |segs| ==> segs[i].place.Some?
    ensures HeaderHeld(segs, Group(segs)[0], start)
  {
    FirstPart(segs);
    var part := Group(segs)[0];
    if FirstHeader(part.segs) != NoHeader {
      FirstHeaderOfPrefix(part.segs, segs);
    }
  }

  lemma HeldAtNext(segs: seq<Segment>, start: Sets, p: nat)
    requires Bounded(segs) && LowerCase(segs) && forall k, x :: !Hole(segs, start, k, x)
    requires 0 < p < |Group(segs)| && HeaderHeld(segs, Group(segs)[p-1], start)
    requires var a, b := Merged(Group(segs)[p-1]), Merged(Group(segs)[p]); !HoleBetween(a, b) && !Escapes(a, b)
    ensures HeaderHeld(segs, Group(segs)[p], start)
  {
    hide Group;
    hide Hole;
    hide Had;
    hide Older;
    hide StoredBy;
    var prev, s := Merged(Group(segs)[p-1]), HeaderSet(FirstHeader(Group(segs)[p].segs));
    PartsBounded(segs);
    FirstHeaderGood(Group(segs)[p].segs);
    PartIsStored(segs, p - 1);
    LostIffSeen(prev, s);
    forall k, y | Mem(s, k, y) ensures Had(segs, start, k, y) || Older(segs, k, y) {
      assert !Missed(prev, s, k, y);
      MemIsPositive(s, k, y);
      if !After(prev.events, k, y) {
        var e :| e in prev.events && Texts.Lower(e.uuid) == k && e.seqNo >= y;
        assert e.uuid != "";
        BelowStored(segs, start, k, y, e.seqNo);
      }
    }
  }

  /**
   In a continuous window where no loss escapes the judgement between files,
   every transaction of every file header is older than the chain, in the start
   set, stored, or older than the first stored one of its source.
   */
  lemma {:induction false} ContinuousHeaders(segs: seq<Segment>, objectStorage: bool, start: Sets, p: nat)
    requires Bounded(segs) && Good(start) && LowerCase(segs) && forall i :: 0 <= i < |segs| ==> segs[i].place.Some?
    requires PartsClean(segs, Group(segs), |Group(segs)|, true, objectStorage, start)
    requires forall k, x :: !Hole(segs, start, k, x)
    requires p < |Group(segs)| && Unescaped(Group(segs))
    ensures HeaderHeld(segs, Group(segs)[p], start)
  {
    hide Group;
    hide SegmentClean;
    var parts := Group(segs);
    if p == 0 {
      HeldAtFirst(segs, start);
      return;
    }
    ContinuousHeaders(segs, objectStorage, start, p - 1);
    assert PairClean(segs, parts, p - 1, true, start);
    if parts[p-1].place.prefix == parts[p].place.prefix {
      HeldAtNext(segs, start, p);
    }
  }

  /** Two files of one server: the second header has a transaction of a source of which nothing is stored. */
  ghost function MissingSource(): seq<Segment> {
    [Segment(Some(Place("m", 1)), false, false, "", true, Header(map[]), [GtidEvent("a", 1)]),
     Segment(Some(Place("m", 2)), false, false, "", true, Header(TwoSources()), [])]
  }

  lemma MissingSourceStores()
    ensures forall k, x :: StoredBy(MissingSource(), k, x) <==> k == "a" && x == 1
  {
    var segs := MissingSource();
    assert Texts.Lower("a") == "a";
    assert Is(segs[0].events[0], "a", 1);
    assert Holds(segs[0].events, "a", 1);
  }

  lemma MissingSourceParts()
    ensures var segs := MissingSource(); Group(segs) == [Part(Place("m", 1), [segs[0]]), Part(Place("m", 2), [segs[1]])]
  {
    var segs := MissingSource();
    assert segs[..1] == [segs[0]] && [segs[0]][..0] == [];
  }

  lemma MissingSourceLogs()
    ensures var segs := MissingSource();
            && Merged(Part(Place("m", 1), [segs[0]])) == Log(segs[0].header, segs[0].events)
            && Merged(Part(Place("m", 2), [segs[1]])) == Log(segs[1].header, [])
            && FirstHeader(segs) == segs[0].header
  {
    var segs := MissingSource();
    assert [segs[0]][..0] == [] && [segs[1]][..0] == [];
    assert EventsOf([]) + segs[0].events == segs[0].events;
  }

  lemma MissingSourceIsBounded()
    ensures Bounded(MissingSource()) && LowerCase(MissingSource())
  {
    hide TwoSources;
    TwoSourcesHold();
    assert Texts.Lower("a") == "a";
  }

  lemma MissingSourceIsClean()
    ensures var segs := MissingSource(); PartsClean(segs, Group(segs), |Group(segs)|, true, false, map[])
  {
    hide Group;
    hide Merged;
    hide HoleBetween;
    hide SegmentClean;
    hide TwoSources;
    var segs, parts := MissingSource(), Group(MissingSource());
    MissingSourceParts();
    MissingSourceLogs();
    NewSourceIsMissed();
    assert !PairHole(segs, parts, 0, map[]);
    MissingSourceSegments();
  }

  lemma MissingSourceSegments()
    ensures forall s :: s in MissingSource() ==> SegmentClean(s, true, false)
  {
    hide Lost;
    hide TwoSources;
    var segs := MissingSource();
    forall s, u, x | s in segs ensures !Gap(s.events, u, x) {
      assert |s.events| <= 1;
    }
  }

  /** That window is continuous, and a restore through it never has the transaction. */
  lemma ContinuousMissesASource()
    ensures var segs := MissingSource();
            && Bounded(segs) && LowerCase(segs) && PartsClean(segs, Group(segs), |Group(segs)|, true, false, map[])
            && (forall k, x :: !Hole(segs, map[], k, x))
            && |Group(segs)| == 2 && !HeaderHeld(segs, Group(segs)[1], map[])
  {
    hide *;
    MissingSourceIsBounded();
    MissingSourceIsClean();
    MissingSourceLost();
  }

  lemma MissingSourceLost()
    ensures var segs := MissingSource();
            (forall k, x :: !Hole(segs, map[], k, x)) && |Group(segs)| == 2 && !HeaderHeld(segs, Group(segs)[1], map[])
  {
    hide Group;
    hide StoredBy;
    hide EventsOf;
    hide TwoSources;
    var segs, parts := MissingSource(), Group(MissingSource());
    MissingSourceStores();
    MissingSourceParts();
    MissingSourceLogs();
    TwoSourcesHold();
    assert Mem(TwoSources(), "b", 1) && !Had(segs, map[], "b", 1) && !Older(segs, "b", 1);
    assert FirstHeader(parts[1].segs) == segs[1].header;
  }
}
