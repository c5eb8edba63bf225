/** The computation of canonical GTID ranges: ranges by source, sorted, merged with a running interval, printed. */
module CanonicalLoops {
  import opened Wrappers
  import opened Texts
  import opened Intervals
  import opened CanonicalRanges

  predicate AllGood(l: seq<Range>) { forall i :: 0 <= i < |l| ==> GoodRange(l[i]) }

  lemma {:induction false} SortByLoIsSorted(l: seq<Range>)
    requires AllGood(l)
    ensures SortedByLo(SortByLo(l)) && AllGood(SortByLo(l)) && |SortByLo(l)| == |l|
    ensures forall x :: In(SortByLo(l), x) <==> In(l, x)
  {
    if l == [] {
    } else {
      var before, r := l[..|l|-1], l[|l|-1];
      SortByLoIsSorted(before);
      InsertByLoIsSorted(SortByLo(before), r);
      InsertGood(SortByLo(before), r);
      assert before + [r] == l;
      forall x ensures In(SortByLo(l), x) <==> In(l, x) {
        InInsert(SortByLo(before), r, x);
        InPush(before, r, x);
      }
    }
  }

  lemma {:induction false} InsertGood(l: seq<Range>, r: Range)
    requires AllGood(l) && GoodRange(r)
    ensures AllGood(InsertByLo(l, r))
  {
    if l != [] && l[0].lo < r.lo {
      InsertGood(l[1..], r);
    }
  }

  /** Sorts and merges with a running interval; one that reaches the largest number takes in all that follow. */
  method MergeRanges(rs: seq<Range>) returns (out: seq<Range>)
    requires AllGood(rs) && rs != []
    ensures Apart(out) && forall x :: In(out, x) <==> In(rs, x)
  {
    hide Running;
    hide In;
    var sorted := SortByLo(rs);
    SortByLoIsSorted(rs);
    out := [];
    var cur := sorted[0];
    assert sorted[..1] == [cur];
    RunningStart(cur);
    for i := 1 to |sorted|
      invariant Apart(out) && GoodRange(cur) && (out != [] ==> Last(out).hi + 1 < cur.lo) && cur.lo <= sorted[i-1].lo
      invariant Running(out, cur, sorted[..i])
    {
      var r := sorted[i];
      assert GoodRange(r) && sorted[..i+1] == sorted[..i] + [r];
      RunningNext(out, cur, sorted[..i], r);
      if cur.hi == MAX_U64 || r.lo <= cur.hi + 1 {
        if r.hi > cur.hi {
          cur := Range(cur.lo, r.hi);
        }
        continue;
      }
      PushApart(out, cur);
      out := out + [cur];
      cur := r;
    }
    PushApart(out, cur);
    assert sorted[..|sorted|] == sorted;
    RunningEnd(out, cur, sorted);
    out := out + [cur];
  }

  /** The flushed intervals and the running one hold exactly the numbers of `l`. */
  ghost predicate Running(out: seq<Range>, cur: Range, l: seq<Range>) {
    forall x :: In(l, x) <==> In(out, x) || cur.lo <= x <= cur.hi
  }

  lemma RunningStart(cur: Range)
    ensures Running([], cur, [cur])
  {
    forall x ensures In([cur], x) <==> In([], x) || cur.lo <= x <= cur.hi {
      InPush([], cur, x);
      assert [] + [cur] == [cur];
    }
  }

  lemma RunningEnd(out: seq<Range>, cur: Range, l: seq<Range>)
    requires Running(out, cur, l)
    ensures forall x :: In(out + [cur], x) <==> In(l, x)
  {
    forall x ensures In(out + [cur], x) <==> In(l, x) { InPush(out, cur, x); }
  }

  lemma RunningNext(out: seq<Range>, cur: Range, l: seq<Range>, r: Range)
    requires Running(out, cur, l) && cur.lo <= r.lo && r.lo <= r.hi
    ensures Running(out + [cur], r, l + [r])
    ensures r.lo <= cur.hi + 1 && r.hi > cur.hi ==> Running(out, Range(cur.lo, r.hi), l + [r])
    ensures r.hi <= cur.hi ==> Running(out, cur, l + [r])
  {
    forall x ensures In(l + [r], x) <==> In(l, x) || r.lo <= x <= r.hi { InPush(l, r, x); }
    forall x ensures In(out + [cur], x) <==> In(out, x) || cur.lo <= x <= cur.hi { InPush(out, cur, x); }
  }

  lemma PushApart(l: seq<Range>, r: Range)
    requires Apart(l) && 1 <= r.lo <= r.hi && (l != [] ==> Last(l).hi + 1 < r.lo)
    ensures Apart(l + [r])
  {
    assert forall i :: 0 <= i < |l| - 1 ==> l[i].hi + 1 < l[|l|-1].lo;
  }

  /** The ranges listed for one source, in the order of the text. */
  function Of(entries: seq<Entry>, src: Src): seq<Range> {
    if entries == [] then []
    else
      var e, before := entries[|entries|-1], Of(entries[..|entries|-1], src);
      if e.src == src then before + [e.range] else before
  }

  lemma {:induction false} OfDenotes(entries: seq<Entry>, src: Src)
    requires GoodEntries(entries)
    ensures AllGood(Of(entries, src)) && (Of(entries, src) != [] <==> HasSrc(entries, src))
    ensures forall x :: In(Of(entries, src), x) <==> Denotes(entries, src, x)
  {
    if entries == [] {
    } else {
      var before, e := entries[..|entries|-1], entries[|entries|-1];
      OfDenotes(before, src);
      assert before + [e] == entries;
      forall x ensures In(Of(entries, src), x) <==> Denotes(entries, src, x) {
        DenotesPush(before, e, src, x);
        InPush(Of(before, src), e.range, x);
      }
      assert HasSrc(entries, src) <==> HasSrc(before, src) || e.src == src by {
        assert forall i :: 0 <= i < |before| ==> before[i] == entries[i];
      }
    }
  }

  /** The map filled while the parts are read. */
  ghost predicate Filled(bySrc: map<Src, seq<Range>>, entries: seq<Entry>) {
    forall src :: (src in bySrc <==> HasSrc(entries, src)) && (src in bySrc ==> bySrc[src] == Of(entries, src))
  }

  method Fill(bySrc: map<Src, seq<Range>>, ghost entries: seq<Entry>, part: seq<Entry>)
      returns (r: map<Src, seq<Range>>)
    requires Filled(bySrc, entries)
    ensures Filled(r, entries + part)
  {
    hide Filled;
    r := bySrc;
    assert entries + part[..0] == entries;
    for i := 0 to |part|
      invariant Filled(r, entries + part[..i])
    {
      ghost var before := entries + part[..i];
      var e := part[i];
      assert entries + part[..i+1] == before + [e];
      FilledOne(r, before, e);
      r := r[e.src := (if e.src in r then r[e.src] else []) + [e.range]];
    }
    assert part[..|part|] == part;
  }

  lemma FilledOne(bySrc: map<Src, seq<Range>>, before: seq<Entry>, e: Entry)
    requires Filled(bySrc, before)
    ensures Filled(bySrc[e.src := (if e.src in bySrc then bySrc[e.src] else []) + [e.range]], before + [e])
  {
    assert (before + [e])[..|before|] == before;
    forall src ensures HasSrc(before + [e], src) <==> HasSrc(before, src) || e.src == src {
      assert (before + [e])[|before|] == e && forall k :: 0 <= k < |before| ==> (before + [e])[k] == before[k];
    }
    OfNone(before, e.src);
  }

  lemma {:induction false} OfNone(entries: seq<Entry>, src: Src)
    ensures !HasSrc(entries, src) ==> Of(entries, src) == []
  {
    if entries == [] {
    } else {
      OfNone(entries[..|entries|-1], src);
      assert forall i :: 0 <= i < |entries| - 1 ==> entries[..|entries|-1][i] == entries[i];
    }
  }

  /** `entries` came from the first `i` parts; the rest of the text adds to them or refuses the whole. */
  ghost predicate ReadSoFar(parts: seq<string>, i: nat, entries: seq<Entry>)
    requires i <= |parts|
  {
    var rest := ParseParts(parts[i..]);
    ParseParts(parts) == if rest.None? then None else Some(entries + rest.value)
  }

  lemma ParseStep(parts: seq<string>, i: nat)
    requires i < |parts|
    ensures var p, rest := TrimSpace(parts[i]), ParseParts(parts[i+1..]);
            var first := if p == "" then Some([]) else ParsePart(p);
            ParseParts(parts[i..]) == if first.None? || rest.None? then None else Some(first.value + rest.value)
  {
    hide ParsePart;
    hide TrimSpace;
    assert parts[i..][1..] == parts[i+1..] && parts[i..][0] == parts[i];
  }

  lemma ReadNext(parts: seq<string>, i: nat, entries: seq<Entry>, part: Option<seq<Entry>>)
    requires i < |parts| && ReadSoFar(parts, i, entries)
    requires part == if TrimSpace(parts[i]) == "" then Some([]) else ParsePart(TrimSpace(parts[i]))
    ensures part.None? ==> ParseParts(parts).None?
    ensures part.Some? ==> ReadSoFar(parts, i + 1, entries + part.value)
  {
    hide ParseParts;
    ParseStep(parts, i);
    if part.Some? && ParseParts(parts[i+1..]).Some? {
      var rest := ParseParts(parts[i+1..]).value;
      assert entries + (part.value + rest) == (entries + part.value) + rest;
    }
  }

  predicate AllOf(entries: seq<Entry>, mysql: bool) {
    forall i :: 0 <= i < |entries| ==> entries[i].src.MySql? == mysql
  }

  lemma {:induction false} FieldsAreMySql(uuid: string, tag: string, pendingTag: bool, fields: seq<string>)
    ensures var r := ParseFields(uuid, tag, pendingTag, fields);
            r.Some? ==> AllOf(r.value, true) && (fields != [] || pendingTag ==> r.value != [])
    decreases fields
  {
    hide ParseRange;
    if fields == [] {
    } else {
      var f := TrimSpace(fields[0]);
      if f != "" && !IsDigit(f[0]) {
        FieldsAreMySql(uuid, Lower(f), true, fields[1..]);
      } else {
        FieldsAreMySql(uuid, tag, false, fields[1..]);
      }
    }
  }

  lemma PartIsOneFlavor(part: string)
    ensures ParsePart(part).Some? ==>
              ParsePart(part).value != [] && AllOf(ParsePart(part).value, ParsePart(part).value[0].src.MySql?)
  {
    hide ParseRange;
    hide ParseUint;
    var fields := Split(part, ':');
    FieldsAreMySql(Lower(TrimSpace(fields[0])), "", false, fields[1..]);
  }

  /** A mix found in the entries read so far refuses the text whatever follows. */
  lemma MixRefuses(parts: seq<string>, i: nat, a: seq<Entry>, b: seq<Entry>, mysql: bool)
    requires i <= |parts| && ReadSoFar(parts, i, a + b)
    requires a != [] && b != [] && AllOf(a, mysql) && AllOf(b, !mysql)
    ensures ParseParts(parts).Some? ==> !OneFlavor(ParseParts(parts).value)
  {
    if ParseParts(parts).Some? {
      var all := ParseParts(parts).value;
      assert all[0] == a[0] && all[|a|] == b[0];
    }
  }

  /** Reads every part; `bySrc` collects the ranges of each source, and one flavor only. */
  method ReadParts(parts: seq<string>) returns (bySrc: map<Src, seq<Range>>, ghost entries: seq<Entry>, ok: bool)
    ensures ok <==> ParseParts(parts).Some? && OneFlavor(ParseParts(parts).value)
    ensures ok ==> entries == ParseParts(parts).value && Filled(bySrc, entries)
  {
    hide ParsePart;
    hide Filled;
    bySrc, entries, ok := map[], [], true;
    var flavor: Option<bool> := None;
    assert Filled(bySrc, entries) by { NothingFilled(); }
    assert parts[0..] == parts;
    assert ParseParts(parts).Some? ==> [] + ParseParts(parts).value == ParseParts(parts).value;
    for i := 0 to |parts|
      invariant ok && Filled(bySrc, entries) && ReadSoFar(parts, i, entries)
      invariant flavor.None? <==> entries == []
      invariant flavor.Some? ==> AllOf(entries, flavor.value)
    {
      var p := TrimSpace(parts[i]);
      if p == "" {
        ReadNext(parts, i, entries, Some([]));
        assert entries + [] == entries;
        continue;
      }
      var part := ParsePart(p);
      ReadNext(parts, i, entries, part);
      if part.None? {
        ok := false;
        return;
      }
      PartIsOneFlavor(p);
      var mysql := part.value[0].src.MySql?;
      if flavor.Some? && flavor.value != mysql {
        MixRefuses(parts, i + 1, entries, part.value, flavor.value);
        ok := false;
        return;
      }
      flavor := Some(mysql);
      bySrc := Fill(bySrc, entries, part.value);
      entries := entries + part.value;
    }
    assert parts[|parts|..] == [] && entries + [] == entries;
  }

  lemma NothingFilled()
    ensures Filled(map[], [])
  {
  }

  method CanonicalGTIDRanges(s: string) returns (r: Option<string>)
    ensures r == Canon(s)
  {
    hide ParsePart;
    hide Render;
    var bySrc, entries, ok := ReadParts(Split(s, ','));
    if !ok {
      return None;
    }
    ParsedIsGood(s);
    KeysAreSources(entries);
    var keys: seq<Src> := [];
    var left := bySrc.Keys;
    while left != {}
      invariant Sorted(keys) && left <= bySrc.Keys
      invariant forall k :: k in keys <==> k in bySrc && k !in left
      decreases left
    {
      var k :| k in left;
      AddKeySorted(keys, k);
      keys := AddKey(keys, k);
      left := left - {k};
    }
    SortedIsUnique(keys, Keys(entries));
    var out := Rows(bySrc, entries, keys);
    r := Some(Join(out, ','));
  }

  /** The merged ranges of a source are its canonical ones. */
  method Row(bySrc: map<Src, seq<Range>>, ghost entries: seq<Entry>, k: Src) returns (out: seq<string>)
    requires GoodEntries(entries) && Filled(bySrc, entries) && k in bySrc
    ensures out == RenderAll(Listed(k, Ranges(entries, k)))
  {
    hide Render;
    OfDenotes(entries, k);
    RangesDenote(entries, k);
    var merged := MergeRanges(bySrc[k]);
    ApartIsUnique(merged, Ranges(entries, k));
    out := [];
    for j := 0 to |merged|
      invariant out == RenderAll(Listed(k, merged))[..j]
    {
      out := out + [Render(Entry(k, merged[j]))];
    }
  }

  lemma RenderConcat(a: seq<Entry>, b: seq<Entry>)
    ensures RenderAll(a + b) == RenderAll(a) + RenderAll(b)
  {
    hide Render;
  }

  method Rows(bySrc: map<Src, seq<Range>>, ghost entries: seq<Entry>, keys: seq<Src>) returns (out: seq<string>)
    requires GoodEntries(entries) && Filled(bySrc, entries) && forall k :: k in keys ==> k in bySrc
    ensures out == RenderAll(Table(entries, keys))
  {
    hide RenderAll;
    hide Filled;
    hide GoodEntries;
    hide Listed;
    hide Ranges;
    out := [];
    assert keys[0..] == keys && [] + RenderAll(Table(entries, keys)) == RenderAll(Table(entries, keys));
    for i := 0 to |keys|
      invariant RenderAll(Table(entries, keys)) == out + RenderAll(Table(entries, keys[i..]))
    {
      var row := Row(bySrc, entries, keys[i]);
      assert keys[i..][1..] == keys[i+1..];
      RenderConcat(Listed(keys[i], Ranges(entries, keys[i])), Table(entries, keys[i+1..]));
      out := out + row;
    }
    assert keys[|keys|..] == [] && RenderAll([]) == [] by { NoRows(); }
    assert out + [] == out;
  }

  lemma NoRows()
    ensures RenderAll([]) == []
  {
  }
}
