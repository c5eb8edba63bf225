/**
 What a list of GTID ranges says, on its text: which fields are tags and which
 are intervals, which tag holds for which interval, what the numbers are, and
 exactly which texts are refused. And how the canonical text looks.
 */
module RangeTexts {
  import opened Wrappers
  import opened Texts
  import opened Intervals
  import opened CanonicalRanges
  import opened CanonicalLoops

  // ---- Numbers and intervals -----------------------------------------------------

  /** A decimal number no larger than `max`. */
  ghost predicate Number(s: string, max: nat, n: int) {
    s != "" && (forall i :: 0 <= i < |s| ==> '0' <= s[i] <= '9') && Value(s) == n <= max
  }

  /** One positive number, or two with a dash between them, the second not smaller. */
  ghost predicate Bounds(t: string, lo: int, hi: int) {
    && 0 < lo <= hi
    && ((Number(t, 0xffff_ffff_ffff_ffff, lo) && lo == hi) || (exists a, b :: DashedBounds(t, a, b, lo, hi)))
  }

  ghost predicate DashedBounds(t: string, a: string, b: string, lo: int, hi: int) {
    Dashed(t, a, b) && Number(a, 0xffff_ffff_ffff_ffff, lo) && Number(b, 0xffff_ffff_ffff_ffff, hi)
  }

  ghost predicate Dashed(t: string, a: string, b: string) { t == a + "-" + b }

  lemma NumberIs(s: string, max: nat, n: int)
    ensures Number(s, max, n) <==> ParseUint(s, max).Some? && ParseUint(s, max).value == n
    ensures Number(s, max, n) ==> '-' !in s
  {
  }

  lemma RangeIs(span: string, lo: int, hi: int)
    ensures ParseRange(span) == Some(Range(lo, hi)) <==> Bounds(TrimSpace(span), lo, hi)
  {
    hide ParseUint;
    hide Number;
    hide TrimSpace;
    hide CutAt;
    var t := TrimSpace(span);
    CutIs(t, '-');
    NumberIs(t, MAX_U64, lo);
    NumberIs(t, MAX_U64, hi);
    if CutAt(t, '-').Some? {
      var a, b := CutAt(t, '-').value.0, CutAt(t, '-').value.1;
      NumberIs(a, MAX_U64, lo);
      NumberIs(b, MAX_U64, hi);
      assert DashedBounds(t, a, b, lo, hi) <==> Number(a, MAX_U64, lo) && Number(b, MAX_U64, hi);
      forall c, d | DashedBounds(t, c, d, lo, hi) ensures c == a && d == b {
        NumberIs(c, MAX_U64, lo);
        CutFirst(c, d, '-');
      }
    } else {
      forall c, d ensures !DashedBounds(t, c, d, lo, hi) {
        assert (c + "-" + d)[|c|] == '-';
      }
    }
  }

  lemma RangeReads(span: string)
    ensures ParseRange(span).Some? <==> exists lo, hi :: Bounds(TrimSpace(span), lo, hi)
  {
    hide ParseRange;
    hide Bounds;
    if ParseRange(span).Some? {
      var r := ParseRange(span).value;
      RangeIs(span, r.lo, r.hi);
    }
    if lo, hi :| Bounds(TrimSpace(span), lo, hi) {
      RangeIs(span, lo, hi);
    }
  }

  // ---- The fields of a MySQL part ------------------------------------------------

  /** A field that is not empty and does not begin with a digit is a tag. */
  ghost predicate TagField(f: string) {
    var t := TrimSpace(f);
    t != "" && !('0' <= t[0] <= '9')
  }

  /** At most 32 letters, digits and underscores, the first no digit. */
  ghost predicate TagText(t: string) {
    && 1 <= |t| <= 32
    && forall i :: 0 <= i < |t| ==>
         t[i] == '_' || 'a' <= t[i] <= 'z' || 'A' <= t[i] <= 'Z' || (i > 0 && '0' <= t[i] <= '9')
  }

  ghost predicate IntervalText(f: string) { exists lo, hi :: Bounds(TrimSpace(f), lo, hi) }

  /** Every tag is one and has an interval right behind it, and every other field is an interval. */
  ghost predicate Accepted(fields: seq<string>) {
    forall i :: 0 <= i < |fields| ==> FieldOk(fields, i)
  }

  ghost predicate FieldOk(fields: seq<string>, i: nat)
    requires i < |fields|
  {
    if TagField(fields[i]) then TagText(TrimSpace(fields[i])) && i + 1 < |fields| && !TagField(fields[i+1])
    else IntervalText(fields[i])
  }

  /** The number of interval fields. */
  ghost function IntervalCount(fields: seq<string>): nat {
    if fields == [] then 0 else (if TagField(fields[0]) then 0 else 1) + IntervalCount(fields[1..])
  }

  /** The tag of field `i`: the nearest tag field before it, in lower case, or `tag` when there is none. */
  ghost predicate TagOf(fields: seq<string>, i: nat, tag: string, x: string)
    requires i <= |fields|
  {
    || ((forall j :: 0 <= j < i ==> !TagField(fields[j])) && x == tag)
    || exists j :: 0 <= j < i && NearestTag(fields, i, j) && x == Lower(TrimSpace(fields[j]))
  }

  ghost predicate NearestTag(fields: seq<string>, i: nat, j: nat)
    requires j < i <= |fields|
  {
    TagField(fields[j]) && forall k :: j < k < i ==> !TagField(fields[k])
  }

  /** The k-th interval field is the k-th entry, under its tag and with its bounds. */
  ghost predicate ReadsFields(uuid: string, tag: string, fields: seq<string>, entries: seq<Entry>) {
    && |entries| == IntervalCount(fields)
    && forall i :: 0 <= i < |fields| && !TagField(fields[i]) ==> ReadsField(uuid, tag, fields, entries, i)
  }

  ghost predicate ReadsField(uuid: string, tag: string, fields: seq<string>, entries: seq<Entry>, i: nat)
    requires i < |fields|
  {
    var k := IntervalCount(fields[..i]);
    && k < |entries| && entries[k].src.MySql? && entries[k].src.uuid == uuid
    && TagOf(fields, i, tag, entries[k].src.tag)
    && Bounds(TrimSpace(fields[i]), entries[k].range.lo, entries[k].range.hi)
  }

  lemma TagIs(t: string)
    ensures IsTag(t) <==> TagText(t)
  {
    assert forall i :: 0 <= i < |t| ==>
        (TagChar(t[i], i == 0) <==>
         (t[i] == '_' || 'a' <= t[i] <= 'z' || 'A' <= t[i] <= 'Z' || (i > 0 && '0' <= t[i] <= '9')));
  }

  lemma TrimTwice(s: string)
    ensures TrimSpace(TrimSpace(s)) == TrimSpace(s)
  {
    var t := TrimSpace(s);
    var a, b := TrimIs(s);
    if t != "" {
      assert TrimLeft(t) == t && TrimRight(t) == t;
    }
  }

  /** What one more field in front does to the law. */
  lemma FrontAccepted(fields: seq<string>)
    requires fields != []
    ensures Accepted(fields) <==>
              && Accepted(fields[1..])
              && (if TagField(fields[0]) then
                    TagText(TrimSpace(fields[0])) && fields[1..] != [] && !TagField(fields[1..][0])
                  else IntervalText(fields[0]))
  {
    hide TagField;
    hide TagText;
    hide IntervalText;
    var rest := fields[1..];
    forall i | 0 <= i < |rest| ensures FieldOk(fields, i + 1) <==> FieldOk(rest, i) {
      assert rest[i] == fields[i+1] && (i + 1 < |rest| ==> rest[i+1] == fields[i+2]);
    }
    assert Accepted(fields) ==> FieldOk(fields, 0);
    forall i | 0 < i < |fields| ensures FieldOk(fields, i) <==> FieldOk(rest, i - 1) {
      assert rest[i-1] == fields[i];
    }
  }

  lemma TagOfFront(fields: seq<string>, i: nat, tag: string, x: string)
    requires 0 < i <= |fields|
    requires TagOf(fields[1..], i - 1, if TagField(fields[0]) then Lower(TrimSpace(fields[0])) else tag, x)
    ensures TagOf(fields, i, tag, x)
  {
    hide TagField;
    var rest := fields[1..];
    assert forall j :: 0 <= j < |rest| ==> rest[j] == fields[j+1];
    if j :| 0 <= j < i - 1 && NearestTag(rest, i - 1, j) && x == Lower(TrimSpace(rest[j])) {
      assert NearestTag(fields, i, j + 1);
    } else if TagField(fields[0]) {
      assert NearestTag(fields, i, 0);
    }
  }

  lemma ReadsFront(uuid: string, tag: string, fields: seq<string>, rest: seq<Entry>, first: seq<Entry>)
    requires fields != []
    requires ReadsFields(uuid, if TagField(fields[0]) then Lower(TrimSpace(fields[0])) else tag, fields[1..], rest)
    requires if TagField(fields[0]) then first == []
             else |first| == 1 && first[0].src == MySql(uuid, tag)
                  && Bounds(TrimSpace(fields[0]), first[0].range.lo, first[0].range.hi)
    ensures ReadsFields(uuid, tag, fields, first + rest)
  {
    hide TagField;
    hide Bounds;
    hide TagOf;
    forall i | 0 <= i < |fields| && !TagField(fields[i]) ensures ReadsField(uuid, tag, fields, first + rest, i) {
      if i == 0 {
        assert fields[..0] == [];
        NoTagBefore(fields, tag);
      } else {
        var inner := if TagField(fields[0]) then Lower(TrimSpace(fields[0])) else tag;
        assert fields[1..][i-1] == fields[i];
        assert ReadsField(uuid, inner, fields[1..], rest, i - 1);
        ReadsLater(uuid, tag, fields, rest, first, i);
      }
    }
  }

  lemma NoTagBefore(fields: seq<string>, tag: string)
    ensures TagOf(fields, 0, tag, tag)
  {
  }

  lemma ReadsLater(uuid: string, tag: string, fields: seq<string>, rest: seq<Entry>, first: seq<Entry>, i: nat)
    requires 0 < i < |fields| && |first| == if TagField(fields[0]) then 0 else 1
    requires var inner := if TagField(fields[0]) then Lower(TrimSpace(fields[0])) else tag;
             ReadsField(uuid, inner, fields[1..], rest, i - 1)
    ensures ReadsField(uuid, tag, fields, first + rest, i)
  {
    hide TagField;
    hide TagOf;
    hide Bounds;
    var tail := fields[1..];
    var k := IntervalCount(tail[..i-1]);
    assert fields[..i][1..] == tail[..i-1] && fields[..i][0] == fields[0] && tail[i-1] == fields[i];
    assert (first + rest)[IntervalCount(fields[..i])] == rest[k];
    TagOfFront(fields, i, tag, rest[k].src.tag);
  }

  /** The reader of the fields, on their text. */
  lemma {:induction false} FieldsAre(uuid: string, tag: string, pendingTag: bool, fields: seq<string>)
    ensures ParseFields(uuid, tag, pendingTag, fields).Some? <==>
              Accepted(fields) && (pendingTag ==> fields != [] && !TagField(fields[0]))
    ensures ParseFields(uuid, tag, pendingTag, fields).Some? ==>
              ReadsFields(uuid, tag, fields, ParseFields(uuid, tag, pendingTag, fields).value)
    decreases fields
  {
    hide IsTag;
    hide TagText;
    hide Accepted;
    hide ReadsFields;
    hide ParseRange;
    hide Bounds;
    if fields == [] {
      NoFields(uuid, tag);
    } else {
      var t := TrimSpace(fields[0]);
      FrontAccepted(fields);
      TagIs(t);
      TrimTwice(fields[0]);
      RangeReads(t);
      if TagField(fields[0]) {
        FieldsAre(uuid, Lower(t), true, fields[1..]);
        if ParseFields(uuid, tag, pendingTag, fields).Some? {
          var rest := ParseFields(uuid, Lower(t), true, fields[1..]).value;
          ReadsFront(uuid, tag, fields, rest, []);
          assert [] + rest == rest;
        }
      } else {
        FieldsAre(uuid, tag, false, fields[1..]);
        if ParseFields(uuid, tag, pendingTag, fields).Some? {
          var r := ParseRange(t).value;
          RangeIs(t, r.lo, r.hi);
          ReadsFront(uuid, tag, fields, ParseFields(uuid, tag, false, fields[1..]).value, [Entry(MySql(uuid, tag), r)]);
        }
      }
    }
  }

  lemma NoFields(uuid: string, tag: string)
    ensures Accepted([]) && ReadsFields(uuid, tag, [], [])
  {
  }

  // ---- A part --------------------------------------------------------------------

  /** A MariaDB domain and server with the interval text of their sequences. */
  ghost predicate MariaEntry(domain: string, server: string, span: string, entries: seq<Entry>) {
    && |entries| == 1 && entries[0].src.Maria?
    && Number(domain, 0xffff_ffff, entries[0].src.domain) && Number(server, 0xffff_ffff, entries[0].src.server)
    && Bounds(TrimSpace(span), entries[0].range.lo, entries[0].range.hi)
  }

  /** uuid:field:field.. */
  ghost predicate MySqlPart(part: string, fields: seq<string>, entries: seq<Entry>) {
    && fields == Split(part, ':') && |fields| >= 2 && UuidText(TrimSpace(fields[0])) && Accepted(fields[1..])
    && ReadsFields(Lower(TrimSpace(fields[0])), "", fields[1..], entries)
  }

  /** domain-server-sequence */
  ghost predicate MariaPoint(part: string, entries: seq<Entry>) {
    && ':' !in part
    && exists d, s, q :: Split(TrimSpace(part), '-') == [d, s, q] && MariaEntry(d, s, q, entries)
  }

  /** domain-server:interval */
  ghost predicate MariaRange(part: string, entries: seq<Entry>) {
    exists head, span, d, s ::
      Split(part, ':') == [head, span] && Split(TrimSpace(head), '-') == [d, s] && MariaEntry(d, s, span, entries)
  }

  ghost predicate PartReads(part: string, entries: seq<Entry>) {
    MySqlPart(part, Split(part, ':'), entries) || MariaPoint(part, entries) || MariaRange(part, entries)
  }

  lemma UuidDashes(s: string)
    requires UuidText(s)
    ensures |Split(s, '-')| == 5
  {
    var a, b, c, d, e := s[..8], s[9..13], s[14..18], s[19..23], s[24..];
    assert s == a + ['-'] + (b + ['-'] + (c + ['-'] + (d + ['-'] + e)));
    SplitFirst(a, b + ['-'] + (c + ['-'] + (d + ['-'] + e)), '-');
    SplitFirst(b, c + ['-'] + (d + ['-'] + e), '-');
    SplitFirst(c, d + ['-'] + e, '-');
    SplitFirst(d, e, '-');
    SplitWhole(e, '-');
  }

  lemma MariaIs(domain: string, server: string, span: string, entries: seq<Entry>)
    ensures ParseMaria(domain, server, span) == Some(entries) <==> MariaEntry(domain, server, span, entries)
  {
    hide ParseUint;
    hide ParseRange;
    hide Number;
    hide Bounds;
    if |entries| == 1 && entries[0].src.Maria? {
      NumberIs(domain, MAX_U32, entries[0].src.domain);
      NumberIs(server, MAX_U32, entries[0].src.server);
      RangeIs(span, entries[0].range.lo, entries[0].range.hi);
      assert entries == [entries[0]];
      assert entries[0] == Entry(Maria(entries[0].src.domain, entries[0].src.server), entries[0].range);
    }
  }

  /** The texts of a MySQL part, and of any part. */
  ghost predicate MySqlText(part: string) {
    var fields := Split(part, ':');
    |fields| >= 2 && UuidText(TrimSpace(fields[0])) && Accepted(fields[1..])
  }

  ghost predicate PartText(part: string) {
    MySqlText(part) || (exists e :: MariaPoint(part, e)) || (exists e :: MariaRange(part, e))
  }

  lemma OneFieldIs(part: string)
    ensures |Split(part, ':')| == 1 <==> ':' !in part
    ensures ':' !in part ==> Split(part, ':') == [part]
  {
    JoinSplit(part, ':');
    if ':' !in part {
      SplitWhole(part, ':');
    }
  }

  lemma MariaPointIs(part: string, entries: seq<Entry>)
    ensures MariaPoint(part, entries) <==>
              var fields := Split(part, ':');
              var dash := Split(TrimSpace(fields[0]), '-');
              |fields| == 1 && |dash| == 3 && ParseMaria(dash[0], dash[1], dash[2]) == Some(entries)
  {
    hide MariaEntry;
    hide ParseMaria;
    hide Split;
    hide TrimSpace;
    OneFieldIs(part);
    var dash := Split(TrimSpace(part), '-');
    if |dash| == 3 {
      assert dash == [dash[0], dash[1], dash[2]];
      MariaIs(dash[0], dash[1], dash[2], entries);
    }
  }

  lemma MariaRangeIs(part: string, entries: seq<Entry>)
    ensures MariaRange(part, entries) <==>
              var fields := Split(part, ':');
              var dash := Split(TrimSpace(fields[0]), '-');
              |fields| == 2 && |dash| == 2 && ParseMaria(dash[0], dash[1], fields[1]) == Some(entries)
  {
    hide MariaEntry;
    hide ParseMaria;
    hide Split;
    hide TrimSpace;
    var fields := Split(part, ':');
    var dash := Split(TrimSpace(fields[0]), '-');
    if |fields| == 2 && |dash| == 2 {
      assert fields == [fields[0], fields[1]] && dash == [dash[0], dash[1]];
      MariaIs(dash[0], dash[1], fields[1], entries);
    }
  }

  /** Exactly which parts are accepted, and what an accepted one reads as. */
  lemma PartIs(part: string)
    ensures ParsePart(part).Some? <==> PartText(part)
    ensures ParsePart(part).Some? ==> PartReads(part, ParsePart(part).value)
  {
    hide Accepted;
    hide ReadsFields;
    hide MariaPoint;
    hide MariaRange;
    hide ParseMaria;
    hide ParseFields;
    hide IsUuid;
    hide UuidText;
    hide Split;
    hide TrimSpace;
    var fields := Split(part, ':');
    var head := TrimSpace(fields[0]);
    UuidIs(head);
    if UuidText(head) {
      UuidDashes(head);
    }
    FieldsAre(Lower(head), "", false, fields[1..]);
    forall e ensures MariaPoint(part, e) <==>
        |fields| == 1 && |Split(head, '-')| == 3
        && ParseMaria(Split(head, '-')[0], Split(head, '-')[1], Split(head, '-')[2]) == Some(e) {
      MariaPointIs(part, e);
    }
    forall e ensures MariaRange(part, e) <==>
        |fields| == 2 && |Split(head, '-')| == 2
        && ParseMaria(Split(head, '-')[0], Split(head, '-')[1], fields[1]) == Some(e) {
      MariaRangeIs(part, e);
    }
  }

  lemma PartFlavor(part: string)
    requires ParsePart(part).Some?
    ensures ParsePart(part).value != [] && AllOf(ParsePart(part).value, MySqlText(part))
  {
    hide Accepted;
    hide ReadsFields;
    hide ParseRange;
    hide ParseUint;
    hide IsUuid;
    hide UuidText;
    hide Split;
    hide TrimSpace;
    var fields := Split(part, ':');
    var head := TrimSpace(fields[0]);
    PartIsOneFlavor(part);
    UuidIs(head);
    if UuidText(head) {
      UuidDashes(head);
    }
    FieldsAre(Lower(head), "", false, fields[1..]);
    FieldsAreMySql(Lower(head), "", false, fields[1..]);
  }

  // ---- The whole text ------------------------------------------------------------

  ghost predicate Blank(part: string) { TrimSpace(part) == "" }

  /** Part after part, blank ones left out. */
  ghost predicate PartsRead(parts: seq<string>, entries: seq<Entry>) {
    if parts == [] then entries == []
    else if Blank(parts[0]) then PartsRead(parts[1..], entries)
    else
      exists n: nat ::
        n <= |entries| && PartReads(TrimSpace(parts[0]), entries[..n]) && PartsRead(parts[1..], entries[n..])
  }

  lemma {:induction false} PartsAre(parts: seq<string>)
    ensures ParseParts(parts).Some? <==>
              forall i :: 0 <= i < |parts| && !Blank(parts[i]) ==> PartText(TrimSpace(parts[i]))
    ensures ParseParts(parts).Some? ==> PartsRead(parts, ParseParts(parts).value)
  {
    hide PartText;
    hide PartReads;
    hide ParsePart;
    hide TrimSpace;
    if parts == [] {
    } else {
      var p, rest := TrimSpace(parts[0]), parts[1..];
      PartsAre(rest);
      PartIs(p);
      assert forall i :: 0 < i < |parts| ==> parts[i] == rest[i-1];
      assert forall i :: 0 <= i < |rest| ==> rest[i] == parts[i+1];
      if ParseParts(parts).Some? {
        var all, tail := ParseParts(parts).value, ParseParts(rest).value;
        if p == "" {
          assert [] + tail == tail;
        } else {
          var first := ParsePart(p).value;
          assert all[..|first|] == first && all[|first|..] == tail;
        }
      }
    }
  }

  /** Some part that is not blank is a MySQL one, or some is not. */
  ghost predicate HasPart(parts: seq<string>, mysql: bool) { exists i :: 0 <= i < |parts| && PartOf(parts[i], mysql) }

  ghost predicate PartOf(part: string, mysql: bool) { !Blank(part) && MySqlText(TrimSpace(part)) == mysql }

  ghost predicate HasEntry(entries: seq<Entry>, mysql: bool) {
    exists i :: 0 <= i < |entries| && entries[i].src.MySql? == mysql
  }

  lemma HasPartFront(parts: seq<string>, mysql: bool)
    requires parts != []
    ensures HasPart(parts, mysql) <==> PartOf(parts[0], mysql) || HasPart(parts[1..], mysql)
  {
    hide PartOf;
    var rest := parts[1..];
    if i :| 0 <= i < |rest| && PartOf(rest[i], mysql) {
      assert parts[i+1] == rest[i];
    }
    if i :| 0 <= i < |parts| && PartOf(parts[i], mysql) {
      assert i > 0 ==> rest[i-1] == parts[i];
    }
  }

  lemma HasEntryConcat(a: seq<Entry>, b: seq<Entry>, mysql: bool)
    ensures HasEntry(a + b, mysql) <==> HasEntry(a, mysql) || HasEntry(b, mysql)
  {
    var l := a + b;
    if i :| 0 <= i < |a| && a[i].src.MySql? == mysql {
      assert l[i] == a[i];
    }
    if i :| 0 <= i < |b| && b[i].src.MySql? == mysql {
      assert l[|a| + i] == b[i];
    }
    if i :| 0 <= i < |l| && l[i].src.MySql? == mysql {
      assert if i < |a| then l[i] == a[i] else l[i] == b[i - |a|];
    }
  }

  lemma {:induction false} FlavorsAre(parts: seq<string>, mysql: bool)
    requires ParseParts(parts).Some?
    ensures HasEntry(ParseParts(parts).value, mysql) <==> HasPart(parts, mysql)
  {
    hide MySqlText;
    hide ParsePart;
    hide TrimSpace;
    hide HasEntry;
    hide HasPart;
    if parts == [] {
      NoneHas(mysql);
    } else {
      var p := TrimSpace(parts[0]);
      FlavorsAre(parts[1..], mysql);
      HasPartFront(parts, mysql);
      var first := if p == "" then [] else ParsePart(p).value;
      HasEntryConcat(first, ParseParts(parts[1..]).value, mysql);
      if p == "" {
        NoneHas(mysql);
      } else {
        PartFlavor(p);
        FlavorOfAll(first, MySqlText(p), mysql);
      }
    }
  }

  lemma NoneHas(mysql: bool)
    ensures !HasEntry([], mysql) && !HasPart([], mysql)
  {
  }

  lemma FlavorOfAll(entries: seq<Entry>, all: bool, mysql: bool)
    requires entries != [] && AllOf(entries, all)
    ensures HasEntry(entries, mysql) <==> all == mysql
  {
    assert entries[0].src.MySql? == all;
  }

  lemma OneFlavorIs(entries: seq<Entry>)
    ensures OneFlavor(entries) <==> !(HasEntry(entries, true) && HasEntry(entries, false))
  {
    if i, j :| 0 <= i < |entries| && 0 <= j < |entries| && entries[i].src.MySql? && !entries[j].src.MySql? {
      assert i < j || j < i;
    }
  }

  /** Every part that is not blank is of one of the three forms, and MySQL and MariaDB forms are not mixed. */
  ghost predicate TextAccepted(parts: seq<string>) {
    && (forall i :: 0 <= i < |parts| && !Blank(parts[i]) ==> PartText(TrimSpace(parts[i])))
    && !(HasPart(parts, true) && HasPart(parts, false))
  }

  /** Exactly which texts are accepted, and what an accepted one lists. */
  lemma TextIs(s: string)
    ensures Parse(s).Some? <==> TextAccepted(Split(s, ','))
    ensures Parse(s).Some? ==> PartsRead(Split(s, ','), Parse(s).value)
  {
    hide PartText;
    hide HasPart;
    hide HasEntry;
    hide OneFlavor;
    hide PartsRead;
    hide ParseParts;
    hide Split;
    hide Blank;
    var parts := Split(s, ',');
    PartsAre(parts);
    if ParseParts(parts).Some? {
      FlavorsAre(parts, true);
      FlavorsAre(parts, false);
      OneFlavorIs(ParseParts(parts).value);
    }
  }

  // ---- How the canonical text looks ----------------------------------------------

  /** uuid:a-b, uuid:tag:a-b or domain-server:a-b; a single number is written twice. */
  ghost function Piece(e: Entry): string
    requires 0 <= e.range.lo && 0 <= e.range.hi
  {
    (match e.src
     case MySql(uuid, tag) => if tag == "" then uuid else uuid + ":" + tag
     case Maria(domain, server) => Dec(domain) + "-" + Dec(server))
    + ":" + Dec(e.range.lo) + "-" + Dec(e.range.hi)
  }

  /**
   By uuid and tag, untagged first, or by domain and server as numbers; the
   ranges of one source ascend and do not touch.
   */
  ghost predicate Precedes(a: Entry, b: Entry) {
    || (a.src == b.src && a.range.hi + 1 < b.range.lo)
    || (a.src.MySql? && b.src.MySql?
        && (Less(a.src.uuid, b.src.uuid) || (a.src.uuid == b.src.uuid && Less(a.src.tag, b.src.tag))))
    || (a.src.Maria? && b.src.Maria?
        && (a.src.domain < b.src.domain || (a.src.domain == b.src.domain && a.src.server < b.src.server)))
  }

  ghost predicate Ascending(entries: seq<Entry>) {
    forall i, j :: 0 <= i < j < |entries| ==> Precedes(entries[i], entries[j])
  }

  ghost predicate Looks(entries: seq<Entry>, text: string) {
    exists pieces: seq<string> :: |pieces| == |entries| && text == Join(pieces, ',')
      && forall i :: 0 <= i < |entries| ==>
           0 <= entries[i].range.lo && 0 <= entries[i].range.hi && pieces[i] == Piece(entries[i])
  }

  lemma {:induction false} TableAscends(entries: seq<Entry>, keys: seq<Src>)
    requires GoodEntries(entries) && Sorted(keys)
    requires forall i, j :: 0 <= i < j < |keys| ==> (keys[i].MySql? <==> keys[j].MySql?)
    ensures Ascending(Table(entries, keys))
    ensures forall e :: e in Table(entries, keys) ==> e.src in keys
    decreases keys
  {
    hide Ranges;
    if keys == [] {
    } else {
      TableAscends(entries, keys[1..]);
      RangesDenote(entries, keys[0]);
      var first, rest := Listed(keys[0], Ranges(entries, keys[0])), Table(entries, keys[1..]);
      assert forall k :: k in keys[1..] ==> LessSrc(keys[0], k) && (k.MySql? <==> keys[0].MySql?);
      forall i, j | 0 <= i < |first| && 0 <= j < |rest| ensures Precedes(first[i], rest[j]) {
        assert rest[j] in rest;
      }
      forall i, j | 0 <= i < j < |first| ensures Precedes(first[i], first[j]) {
      }
    }
  }

  /**
   The canonical text lists the transactions of the input as separate ranges in
   ascending order, each written in full.
   */
  lemma CanonForm(s: string)
    requires Canon(s).Some?
    ensures exists entries :: Ascending(entries) && Looks(entries, Canon(s).value)
                              && SameTransactions(entries, Parse(s).value)
  {
    hide Parse;
    hide Normal;
    var all := Parse(s).value;
    ParsedIsGood(s);
    NormalAscends(all);
    NormalIsGood(all);
    NormalDenotes(all);
    NormalLooks(Normal(all));
    CanonIsText(s);
  }

  lemma NormalAscends(all: seq<Entry>)
    requires GoodEntries(all) && OneFlavor(all)
    ensures Ascending(Normal(all))
  {
    KeysAreSources(all);
    var keys := Keys(all);
    forall i, j | 0 <= i < j < |keys| ensures keys[i].MySql? <==> keys[j].MySql? {
      assert HasSrc(all, keys[i]) && HasSrc(all, keys[j]);
      var a :| 0 <= a < |all| && all[a].src == keys[i];
      var b :| 0 <= b < |all| && all[b].src == keys[j];
      assert a < b || a == b || b < a;
    }
    TableAscends(all, keys);
  }

  lemma NormalLooks(entries: seq<Entry>)
    requires GoodEntries(entries)
    ensures Looks(entries, Join(RenderAll(entries), ','))
  {
    var pieces := RenderAll(entries);
    forall i | 0 <= i < |entries|
      ensures 0 <= entries[i].range.lo && 0 <= entries[i].range.hi && pieces[i] == Piece(entries[i])
    {
      PieceIs(entries[i]);
    }
  }

  lemma PieceIs(e: Entry)
    requires GoodRange(e.range)
    ensures Render(e) == Piece(e)
  {
    hide Dec;
  }
}
