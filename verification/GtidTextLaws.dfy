/**
 What the lenient reader reads and the printer prints, on the text itself:
 which fields are tags and which are intervals, whose they are, what the
 numbers are, which texts are refused, and how a printed set looks.
 */
module GtidTextLaws {
  import opened Wrappers
  import opened Texts
  import opened Intervals
  import opened GtidSets
  import opened GtidTexts

  // ---- Numbers and intervals -----------------------------------------------------

  ghost predicate Digits(s: string, n: int) {
    s != "" && (forall i :: 0 <= i < |s| ==> '0' <= s[i] <= '9') && Value(s) == n
  }

  /** A decimal number of 64 bits, with or without a sign. */
  ghost predicate Signed(s: string, n: int) {
    || (Digits(s, n) && n <= 0x7fff_ffff_ffff_ffff)
    || (s != "" && s[0] == '+' && Digits(s[1..], n) && n <= 0x7fff_ffff_ffff_ffff)
    || (s != "" && s[0] == '-' && Digits(s[1..], -n) && -n <= 0x8000_0000_0000_0000)
  }

  /** One positive number, or two around the first dash, the second not smaller. */
  ghost predicate Bounds(f: string, lo: int, hi: int) {
    && 0 < lo <= hi
    && ((Signed(f, lo) && '-' !in f && lo == hi) || (exists a, b :: AroundDash(f, a, b, lo, hi)))
  }

  ghost predicate AroundDash(f: string, a: string, b: string, lo: int, hi: int) {
    f == a + "-" + b && '-' !in a && Signed(a, lo) && Signed(b, hi)
  }

  lemma SignedIs(s: string, n: int)
    ensures ParseInt(s) == Some(n) <==> Signed(s, n)
  {
  }

  lemma RangeIs(f: string, lo: int, hi: int)
    ensures ReadRange(f) == Some(Range(lo, hi)) <==> Bounds(f, lo, hi)
  {
    hide ParseInt;
    hide Signed;
    hide CutAt;
    CutIs(f, '-');
    SignedIs(f, lo);
    SignedIs(f, hi);
    if CutAt(f, '-').Some? {
      var a, b := CutAt(f, '-').value.0, CutAt(f, '-').value.1;
      SignedIs(a, lo);
      SignedIs(b, hi);
      assert AroundDash(f, a, b, lo, hi) <==> Signed(a, lo) && Signed(b, hi);
      forall c, d | AroundDash(f, c, d, lo, hi) ensures c == a && d == b { CutFirst(c, d, '-'); }
    } else {
      forall c, d ensures !AroundDash(f, c, d, lo, hi) {
        assert (c + "-" + d)[|c|] == '-';
      }
    }
  }

  lemma RangeReads(f: string)
    ensures ReadRange(f).Some? <==> exists lo, hi :: Bounds(f, lo, hi)
  {
    hide ReadRange;
    hide Bounds;
    if ReadRange(f).Some? {
      var r := ReadRange(f).value;
      RangeIs(f, r.lo, r.hi);
    }
    if lo, hi :| Bounds(f, lo, hi) {
      RangeIs(f, lo, hi);
    }
  }

  // ---- The fields of a part ------------------------------------------------------

  /** A field that begins with a digit is an interval, any other that is not empty a tag. */
  ghost predicate IntervalField(f: string) { f != "" && '0' <= f[0] <= '9' }

  ghost predicate TagField(f: string) { f != "" && !('0' <= f[0] <= '9') }

  ghost predicate Readable(f: string) { exists lo, hi :: Bounds(f, lo, hi) }

  ghost function IntervalCount(fields: seq<string>): nat {
    if fields == [] then 0 else (if IntervalField(fields[0]) then 1 else 0) + IntervalCount(fields[1..])
  }

  ghost predicate NearestTag(fields: seq<string>, i: nat, j: nat)
    requires j < i <= |fields|
  {
    TagField(fields[j]) && forall k :: j < k < i ==> !TagField(fields[k])
  }

  /** The key of field `i`: the uuid with the nearest tag before it, in lower case, or `key` when there is none. */
  ghost predicate KeyOf(uuid: string, key: string, fields: seq<string>, i: nat, x: string)
    requires i <= |fields|
  {
    || ((forall j :: 0 <= j < i ==> !TagField(fields[j])) && x == key)
    || exists j :: 0 <= j < i && NearestTag(fields, i, j) && x == uuid + ":" + Lower(fields[j])
  }

  ghost predicate ReadsField(uuid: string, key: string, fields: seq<string>, items: seq<Item>, i: nat)
    requires i < |fields|
  {
    var k := IntervalCount(fields[..i]);
    && k < |items| && KeyOf(uuid, key, fields, i, items[k].key)
    && Bounds(fields[i], items[k].range.lo, items[k].range.hi)
  }

  /** The k-th interval field is the k-th item, under its key and with its bounds. */
  ghost predicate ReadsFields(uuid: string, key: string, fields: seq<string>, items: seq<Item>) {
    && |items| == IntervalCount(fields)
    && forall i :: 0 <= i < |fields| && IntervalField(fields[i]) ==> ReadsField(uuid, key, fields, items, i)
  }

  ghost predicate AllReadable(fields: seq<string>) {
    forall i :: 0 <= i < |fields| && IntervalField(fields[i]) ==> Readable(fields[i])
  }

  ghost function InnerKey(uuid: string, key: string, f: string): string {
    if TagField(f) then uuid + ":" + Lower(f) else key
  }

  lemma KeyOfFront(uuid: string, key: string, fields: seq<string>, i: nat, x: string)
    requires 0 < i <= |fields| && KeyOf(uuid, InnerKey(uuid, key, fields[0]), fields[1..], i - 1, x)
    ensures KeyOf(uuid, key, fields, i, x)
  {
    hide TagField;
    var rest := fields[1..];
    assert forall j :: 0 <= j < |rest| ==> rest[j] == fields[j+1];
    if j :| 0 <= j < i - 1 && NearestTag(rest, i - 1, j) && x == uuid + ":" + Lower(rest[j]) {
      assert NearestTag(fields, i, j + 1);
    } else if TagField(fields[0]) {
      assert NearestTag(fields, i, 0);
    }
  }

  lemma ReadsLater(uuid: string, key: string, fields: seq<string>, rest: seq<Item>, first: seq<Item>, i: nat)
    requires 0 < i < |fields| && |first| == if IntervalField(fields[0]) then 1 else 0
    requires ReadsField(uuid, InnerKey(uuid, key, fields[0]), fields[1..], rest, i - 1)
    ensures ReadsField(uuid, key, fields, first + rest, i)
  {
    hide TagField;
    hide IntervalField;
    hide KeyOf;
    hide Bounds;
    var tail := fields[1..];
    var k := IntervalCount(tail[..i-1]);
    assert fields[..i][1..] == tail[..i-1] && fields[..i][0] == fields[0] && tail[i-1] == fields[i];
    assert (first + rest)[IntervalCount(fields[..i])] == rest[k];
    KeyOfFront(uuid, key, fields, i, rest[k].key);
  }

  lemma ReadsFront(uuid: string, key: string, fields: seq<string>, rest: seq<Item>, first: seq<Item>)
    requires fields != [] && ReadsFields(uuid, InnerKey(uuid, key, fields[0]), fields[1..], rest)
    requires if IntervalField(fields[0]) then
               |first| == 1 && first[0].key == key && Bounds(fields[0], first[0].range.lo, first[0].range.hi)
             else first == []
    ensures ReadsFields(uuid, key, fields, first + rest)
  {
    hide TagField;
    hide IntervalField;
    hide Bounds;
    hide KeyOf;
    forall i | 0 <= i < |fields| && IntervalField(fields[i]) ensures ReadsField(uuid, key, fields, first + rest, i) {
      if i == 0 {
        assert fields[..0] == [];
        NoTagBefore(uuid, key, fields);
      } else {
        assert fields[1..][i-1] == fields[i];
        assert ReadsField(uuid, InnerKey(uuid, key, fields[0]), fields[1..], rest, i - 1);
        ReadsLater(uuid, key, fields, rest, first, i);
      }
    }
  }

  lemma NoTagBefore(uuid: string, key: string, fields: seq<string>)
    ensures KeyOf(uuid, key, fields, 0, key)
  {
  }

  lemma FrontReadable(fields: seq<string>)
    requires fields != []
    ensures AllReadable(fields) <==>
              AllReadable(fields[1..]) && (IntervalField(fields[0]) ==> Readable(fields[0]))
  {
    hide IntervalField;
    hide Readable;
    var rest := fields[1..];
    assert forall i :: 0 <= i < |rest| ==> rest[i] == fields[i+1];
    assert forall i :: 0 < i < |fields| ==> fields[i] == rest[i-1];
  }

  /** The reader of the fields, on their text. */
  lemma {:induction false} FieldsAre(uuid: string, key: string, fields: seq<string>)
    ensures ReadFields(uuid, key, fields).Some? <==> AllReadable(fields)
    ensures ReadFields(uuid, key, fields).Some? ==>
              ReadsFields(uuid, key, fields, ReadFields(uuid, key, fields).value)
    decreases fields
  {
    hide AllReadable;
    hide ReadsFields;
    hide ReadRange;
    hide Bounds;
    if fields == [] {
      NoFields(uuid, key);
    } else {
      var f := fields[0];
      FrontReadable(fields);
      RangeReads(f);
      FieldsAre(uuid, InnerKey(uuid, key, f), fields[1..]);
      if ReadFields(uuid, key, fields).Some? {
        var rest := ReadFields(uuid, InnerKey(uuid, key, f), fields[1..]).value;
        if IntervalField(f) {
          var r := ReadRange(f).value;
          RangeIs(f, r.lo, r.hi);
          ReadsFront(uuid, key, fields, rest, [Item(key, r)]);
        } else {
          ReadsFront(uuid, key, fields, rest, []);
          assert [] + rest == rest;
        }
      }
    }
  }

  lemma NoFields(uuid: string, key: string)
    ensures AllReadable([]) && ReadsFields(uuid, key, [], [])
  {
  }

  // ---- The whole text ------------------------------------------------------------

  ghost predicate PartOk(part: string) {
    var fields := Split(part, ':');
    part == "" || (|fields| >= 2 && UuidText(fields[0]) && AllReadable(fields[1..]))
  }

  ghost predicate PartReads(part: string, items: seq<Item>) {
    var fields := Split(part, ':');
    if part == "" then items == []
    else var uuid := Lower(fields[0]); ReadsFields(uuid, uuid, fields[1..], items)
  }

  lemma PartIs(part: string)
    ensures ReadPart(part).Some? <==> PartOk(part)
    ensures ReadPart(part).Some? ==> PartReads(part, ReadPart(part).value)
  {
    hide AllReadable;
    hide ReadsFields;
    var fields := Split(part, ':');
    UuidIs(fields[0]);
    FieldsAre(Lower(fields[0]), Lower(fields[0]), fields[1..]);
  }

  /** The parts, one behind the other. */
  ghost predicate PartsRead(parts: seq<string>, items: seq<Item>) {
    if parts == [] then items == []
    else exists n: nat :: n <= |items| && PartReads(parts[0], items[..n]) && PartsRead(parts[1..], items[n..])
  }

  lemma {:induction false} PartsAre(parts: seq<string>)
    ensures ReadParts(parts).Some? <==> forall i :: 0 <= i < |parts| ==> PartOk(parts[i])
    ensures ReadParts(parts).Some? ==> PartsRead(parts, ReadParts(parts).value)
  {
    hide PartOk;
    hide PartReads;
    hide ReadPart;
    if parts == [] {
    } else {
      var rest := parts[1..];
      PartsAre(rest);
      PartIs(parts[0]);
      assert forall i :: 0 < i < |parts| ==> parts[i] == rest[i-1];
      assert forall i :: 0 <= i < |rest| ==> rest[i] == parts[i+1];
      if ReadParts(parts).Some? {
        var first, tail := ReadPart(parts[0]).value, ReadParts(rest).value;
        var all := ReadParts(parts).value;
        assert all == first + tail;
        assert all[..|first|] == first && all[|first|..] == tail;
      }
    }
  }

  /** A blank is taken out wherever it stands, and, by `Texts.NoBlanks`, nothing else. */
  lemma {:induction false} BlanksGo(a: string, c: char, b: string)
    requires IsSpace(c)
    ensures RemoveBlanks(a + [c] + b) == RemoveBlanks(a + b)
    decreases |a|
  {
    hide IsSpace;
    if a == [] {
      assert a + [c] + b == [c] + b && a + b == b;
      assert ([c] + b)[1..] == b && [] + RemoveBlanks(b) == RemoveBlanks(b);
    } else {
      BlanksGo(a[1..], c, b);
      assert (a + [c] + b)[1..] == a[1..] + [c] + b;
      assert (a + b)[1..] == a[1..] + b;
    }
  }

  /**
   Exactly which texts are read: without blanks, every part between commas is
   empty or a uuid with fields, and some interval is listed. And what they list.
   */
  lemma TextIs(text: string)
    ensures var parts := Split(RemoveBlanks(text), ',');
            && (Read(text).Some? ==> PartsRead(parts, Read(text).value) && Read(text).value != [])
            && (Read(text).Some? ==> forall i :: 0 <= i < |parts| ==> PartOk(parts[i]))
            && (Read(text).None? ==> (exists i :: 0 <= i < |parts| && !PartOk(parts[i])) || PartsRead(parts, []))
  {
    hide PartOk;
    hide ReadParts;
    hide PartsRead;
    hide PartReads;
    hide RemoveBlanks;
    var t := RemoveBlanks(text);
    PartsAre(Split(t, ','));
    if t == "" {
      NothingListed();
    }
  }

  lemma NothingListed()
    ensures PartsRead(Split("", ','), [])
  {
    assert Split("", ',') == [""] && [""][1..] == [];
    assert PartReads("", []) && PartsRead([], []);
    var none: seq<Item> := [];
    assert none[..0] == [] && none[0..] == [];
  }

  // ---- How a printed set looks ---------------------------------------------------

  /** An interval behind a colon: one number, or two with a dash between them. */
  ghost function Shown(r: Range): string
    requires 0 <= r.lo && 0 <= r.hi
  {
    ":" + if r.lo == r.hi then Dec(r.lo) else Dec(r.lo) + "-" + Dec(r.hi)
  }

  ghost predicate Shows(key: string, list: seq<Range>, text: string) {
    if list == [] then text == key
    else
      var n := |list| - 1;
      && 0 <= list[n].lo && 0 <= list[n].hi
      && exists before :: Shows(key, list[..n], before) && text == before + Shown(list[n])
  }

  lemma {:induction false} ColonsPush(texts: seq<string>, t: string)
    ensures Colons(texts + [t]) == Colons(texts) + ":" + t
  {
    if texts == [] {
      assert [t][1..] == [];
    } else {
      assert (texts + [t])[1..] == texts[1..] + [t];
      ColonsPush(texts[1..], t);
    }
  }

  /** A key shows its intervals in order behind it. */
  lemma {:induction false} PartShows(key: string, list: seq<Range>)
    requires Canonical(list)
    ensures Shows(key, list, PartText(key, list))
    decreases |list|
  {
    hide Dec;
    if list == [] {
      assert IntervalTexts(list) == [];
    } else {
      var n := |list| - 1;
      PartShows(key, list[..n]);
      assert IntervalTexts(list) == IntervalTexts(list[..n]) + [IntervalText(list[n])];
      ColonsPush(IntervalTexts(list[..n]), IntervalText(list[n]));
      assert PartText(key, list) == PartText(key, list[..n]) + Shown(list[n]);
    }
  }
}
