/** The text of a GTID set, and the lenient reader that undoes it. */
module GtidTexts {
  import opened Wrappers
  import opened Texts
  import opened Intervals
  import opened GtidSets

  /** One interval read under one key. */
  datatype Item = Item(key: string, range: Range)

  // ---- Reading -------------------------------------------------------------------

  /** A 64-bit decimal number, with an optional sign. */
  function ParseInt(s: string): Option<int> {
    if s != [] && s[0] == '-' then
      var v := ParseUint(s[1..], MAX64 + 1);
      if v.None? then None else var n: int := v.value; Some(-n)
    else
      var v := ParseUint(if s != [] && s[0] == '+' then s[1..] else s, MAX64);
      if v.None? then None else Some(v.value)
  }

  function ReadRange(f: string): Option<Range> {
    var cut := CutAt(f, '-');
    var lo := ParseInt(if cut.Some? then cut.value.0 else f);
    var hi := ParseInt(if cut.Some? then cut.value.1 else f);
    if lo.None? || hi.None? || lo.value <= 0 || hi.value < lo.value then None else Some(Range(lo.value, hi.value))
  }

  function Prepend(a: seq<Item>, b: Option<seq<Item>>): Option<seq<Item>> {
    if b.None? then None else Some(a + b.value)
  }

  lemma PrependTwice(a: seq<Item>, b: seq<Item>, c: Option<seq<Item>>)
    ensures Prepend(a, Prepend(b, c)) == Prepend(a + b, c) && Prepend([], c) == c
  {
    if c.Some? {
      assert a + (b + c.value) == a + b + c.value && [] + c.value == c.value;
    }
  }

  /** The fields after the uuid: intervals, and tags that rename the intervals after them. */
  function ReadFields(uuid: string, key: string, fields: seq<string>): Option<seq<Item>>
    decreases fields
  {
    if fields == [] then Some([])
    else
      var f := fields[0];
      if f == "" then ReadFields(uuid, key, fields[1..])
      else if !IsDigit(f[0]) then ReadFields(uuid, uuid + ":" + Lower(f), fields[1..])
      else if ReadRange(f).None? then None
      else Prepend([Item(key, ReadRange(f).value)], ReadFields(uuid, key, fields[1..]))
  }

  function ReadPart(part: string): Option<seq<Item>> {
    if part == "" then Some([])
    else
      var fields := Split(part, ':');
      if |fields| < 2 || !IsUuid(fields[0]) then None else ReadFields(Lower(fields[0]), Lower(fields[0]), fields[1..])
  }

  function ReadParts(parts: seq<string>): Option<seq<Item>> {
    if parts == [] then Some([])
    else if ReadPart(parts[0]).None? then None
    else Prepend(ReadPart(parts[0]).value, ReadParts(parts[1..]))
  }

  /** The intervals of an accepted text; a text with none is not accepted. */
  function Read(text: string): Option<seq<Item>> {
    var t := RemoveBlanks(text);
    if t == "" then None
    else
      var items := ReadParts(Split(t, ','));
      if items == Some([]) then None else items
  }

  ghost predicate Denotes(items: seq<Item>, key: string, x: int) {
    exists i :: 0 <= i < |items| && items[i].key == key && items[i].range.lo <= x <= items[i].range.hi
  }

  /** No interval of the text reaches the largest 64-bit number. */
  ghost predicate Bounded(text: string) {
    forall p :: p in Split(RemoveBlanks(text), ',') ==> FieldsBounded(Split(p, ':')[1..])
  }

  /** Of the fields the reader takes for intervals, those that begin with a digit, none reaches it. */
  ghost predicate FieldsBounded(fields: seq<string>) {
    forall f :: f in fields && f != "" && IsDigit(f[0]) && ReadRange(f).Some? ==> ReadRange(f).value.hi < MAX64
  }

  lemma DenotesConcat(a: seq<Item>, b: seq<Item>, key: string, x: int)
    ensures Denotes(a + b, key, x) <==> Denotes(a, key, x) || Denotes(b, key, x)
  {
    var l := a + b;
    assert forall i :: 0 <= i < |a| ==> l[i] == a[i];
    assert forall i :: 0 <= i < |b| ==> l[|a| + i] == b[i];
    if Denotes(l, key, x) {
      var i :| 0 <= i < |l| && l[i].key == key && l[i].range.lo <= x <= l[i].range.hi;
      assert i < |a| || l[i] == b[i - |a|];
    }
  }

  /** A set holds exactly what the items denote, in whatever form. */
  ghost predicate Means(m: Sets, items: seq<Item>) {
    Fair(m) && forall k, x :: Mem(m, k, x) <==> Denotes(items, k, x)
  }

  /** And in canonical form. */
  ghost predicate Holds(m: Sets, items: seq<Item>) {
    Good(m) && Means(m, items)
  }

  lemma MeansMore(before: Sets, after: Sets, items: seq<Item>, key: string, r: Range)
    requires Means(before, items) && Fair(after)
    requires forall k, x :: Mem(after, k, x) <==> Mem(before, k, x) || (k == key && r.lo <= x <= r.hi)
    ensures Means(after, items + [Item(key, r)])
  {
    forall k, x ensures Mem(after, k, x) <==> Denotes(items + [Item(key, r)], k, x) {
      DenotesConcat(items, [Item(key, r)], k, x);
      assert Denotes([Item(key, r)], k, x) <==> k == key && r.lo <= x <= r.hi by {
        assert [Item(key, r)][0] == Item(key, r);
      }
    }
  }

  /** The fields of one part, added in order. */
  method AddFields(out: GtidSet, uuid: string, fields: seq<string>, ghost items: seq<Item>)
      returns (ok: bool, ghost all: seq<Item>)
    requires Means(out.m, items) && uuid != ""
    modifies out
    ensures ok <==> ReadFields(uuid, uuid, fields).Some?
    ensures ok ==> Some(all) == Prepend(items, ReadFields(uuid, uuid, fields)) && Means(out.m, all)
    ensures ok && Good(old(out.m)) && FieldsBounded(fields) ==> Good(out.m)
  {
    hide ReadRange;
    hide Means;
    hide Good;
    var key := uuid;
    all := items;
    assert fields[0..] == fields;
    for i := 0 to |fields|
      invariant Means(out.m, all) && key != ""
      invariant Good(old(out.m)) && FieldsBounded(fields) ==> Good(out.m)
      invariant Prepend(items, ReadFields(uuid, uuid, fields)) == Prepend(all, ReadFields(uuid, key, fields[i..]))
    {
      var f := fields[i];
      assert fields[i..][1..] == fields[i+1..] && fields[i..][0] == f;
      if f != "" {
        if !IsDigit(f[0]) {
          key := uuid + ":" + Lower(f);
        } else {
          var r := ReadRange(f);
          if r.None? {
            return false, all;
          }
          RangeIsPositive(f);
          PrependTwice(all, [Item(key, r.value)], ReadFields(uuid, key, fields[i+1..]));
          all := AddOne(out, key, r.value, all);
        }
      }
    }
    assert fields[|fields|..] == [] && all + [] == all;
    return true, all;
  }

  lemma RangeIsPositive(f: string)
    requires ReadRange(f).Some?
    ensures 0 < ReadRange(f).value.lo <= ReadRange(f).value.hi <= MAX64
  {
    hide CutAt;
  }

  method AddOne(out: GtidSet, key: string, r: Range, ghost items: seq<Item>) returns (ghost all: seq<Item>)
    requires Means(out.m, items) && key != "" && 0 < r.lo <= r.hi <= MAX64
    modifies out
    ensures all == items + [Item(key, r)] && Means(out.m, all)
    ensures Good(old(out.m)) && r.hi < MAX64 ==> Good(out.m)
  {
    ghost var before := out.m;
    out.Add(key, r.lo, r.hi);
    all := items + [Item(key, r)];
    MeansMore(before, out.m, items, key, r);
  }

  lemma NothingHeld()
    ensures Means(map[], []) && Good(map[])
  {
  }

  method ParseLenient(text: string) returns (r: Option<Sets>)
    ensures r.Some? <==> Read(text).Some?
    ensures r.Some? ==> Means(r.value, Read(text).value)
    ensures r.Some? && Bounded(text) ==> Holds(r.value, Read(text).value)
  {
    hide Means;
    hide Good;
    hide FieldsBounded;
    hide ReadRange;
    hide ReadFields;
    var t := RemoveBlanks(text);
    if t == "" {
      return None;
    }
    var out := new GtidSet();
    NothingHeld();
    var parts := Split(t, ',');
    ghost var items: seq<Item> := [];
    assert parts[0..] == parts;
    PrependTwice([], [], ReadParts(parts));
    for i := 0 to |parts|
      invariant fresh(out) && Means(out.m, items)
      invariant Bounded(text) ==> Good(out.m)
      invariant ReadParts(parts) == Prepend(items, ReadParts(parts[i..]))
    {
      var part := parts[i];
      assert parts[i..][1..] == parts[i+1..] && parts[i..][0] == part && part in parts;
      if part != "" {
        var fields := Split(part, ':');
        if |fields| < 2 || !IsUuid(fields[0]) {
          return None;
        }
        var ok: bool;
        ghost var all;
        ok, all := AddFields(out, Lower(fields[0]), fields[1..], items);
        if !ok {
          return None;
        }
        PrependTwice(items, ReadPart(part).value, ReadParts(parts[i+1..]));
        items := all;
      } else {
        PrependTwice(items, [], ReadParts(parts[i+1..]));
        assert items + [] == items;
      }
    }
    assert parts[|parts|..] == [] && items + [] == items;
    EmptyIffNoItem(out.m, items, parts);
    if out.m == map[] {
      return None;
    }
    return Some(out.m);
  }

  lemma EmptyIffNoItem(m: Sets, items: seq<Item>, parts: seq<string>)
    requires Means(m, items) && ReadParts(parts) == Some(items)
    ensures m == map[] <==> items == []
  {
    hide ReadParts;
    hide ReadRange;
    ReadPartsPositive(parts);
    EmptyIff(m);
    if items != [] {
      assert Denotes(items, items[0].key, items[0].range.lo);
    }
  }

  predicate NonEmpty(items: seq<Item>) {
    forall i :: 0 <= i < |items| ==> items[i].range.lo <= items[i].range.hi
  }

  lemma {:induction false} ReadFieldsPositive(uuid: string, key: string, fields: seq<string>)
    ensures ReadFields(uuid, key, fields).Some? ==> NonEmpty(ReadFields(uuid, key, fields).value)
    decreases fields
  {
    hide ReadRange;
    if fields == [] {
    } else {
      var f := fields[0];
      ReadFieldsPositive(uuid, if f == "" || IsDigit(f[0]) then key else uuid + ":" + Lower(f), fields[1..]);
      if f != "" && IsDigit(f[0]) && ReadRange(f).Some? {
        RangeIsPositive(f);
      }
    }
  }

  lemma {:induction false} ReadPartsPositive(parts: seq<string>)
    ensures ReadParts(parts).Some? ==> NonEmpty(ReadParts(parts).value)
  {
    hide ReadFields;
    hide Split;
    hide IsUuid;
    if parts == [] {
    } else {
      ReadPartsPositive(parts[1..]);
      var fields := Split(parts[0], ':');
      if |fields| >= 2 {
        ReadFieldsPositive(Lower(fields[0]), Lower(fields[0]), fields[1..]);
      }
    }
  }

  // ---- Printing ------------------------------------------------------------------

  function IntervalText(r: Range): string
    requires 0 <= r.lo && 0 <= r.hi
  {
    if r.lo == r.hi then Dec(r.lo) else Dec(r.lo) + "-" + Dec(r.hi)
  }

  function IntervalTexts(list: seq<Range>): seq<string>
    requires Canonical(list)
  {
    seq(|list|, i requires 0 <= i < |list| => IntervalText(list[i]))
  }

  /** Each text with a colon before it. */
  function Colons(texts: seq<string>): string {
    if texts == [] then "" else ":" + texts[0] + Colons(texts[1..])
  }

  function PartText(key: string, list: seq<Range>): string
    requires Canonical(list)
  {
    key + Colons(IntervalTexts(list))
  }

  function PartTexts(s: Sets, keys: seq<string>): seq<string>
    requires Good(s) && forall i :: 0 <= i < |keys| ==> keys[i] in s
  {
    seq(|keys|, i requires 0 <= i < |keys| => PartText(keys[i], s[keys[i]]))
  }

  ghost predicate InOrder(keys: seq<string>) {
    forall i, j :: 0 <= i < j < |keys| ==> Less(keys[i], keys[j])
  }

  ghost predicate KeysOf(s: Sets, keys: seq<string>) {
    InOrder(keys) && forall k :: k in keys <==> k in s
  }

  ghost predicate IsText(s: Sets, text: string)
    requires Good(s)
  {
    exists keys: seq<string> :: KeysOf(s, keys) && text == Join(PartTexts(s, keys), ',')
  }

  function InsertKey(keys: seq<string>, k: string): seq<string> {
    if keys == [] || Less(k, keys[0]) then [k] + keys else [keys[0]] + InsertKey(keys[1..], k)
  }

  lemma {:induction false} InsertKeyInOrder(keys: seq<string>, k: string)
    requires InOrder(keys) && k !in keys
    ensures InOrder(InsertKey(keys, k)) && forall x :: x in InsertKey(keys, k) <==> x == k || x in keys
  {
    hide Less;
    if keys == [] {
    } else if Less(k, keys[0]) {
      forall j | 0 <= j < |keys| ensures Less(k, keys[j]) {
        if j > 0 {
          LessTransitive(k, keys[0], keys[j]);
        }
      }
    } else {
      InsertKeyInOrder(keys[1..], k);
      LessTotal(k, keys[0]);
      var rest := InsertKey(keys[1..], k);
      assert keys == [keys[0]] + keys[1..];
      forall j | 0 <= j < |rest| ensures Less(keys[0], rest[j]) {
        assert rest[j] in rest;
      }
    }
  }

  method SortedKeys(s: Sets) returns (keys: seq<string>)
    ensures KeysOf(s, keys)
  {
    hide Less;
    hide InsertKey;
    keys := [];
    var todo := s.Keys;
    while todo != {}
      invariant todo <= s.Keys && InOrder(keys)
      invariant forall k :: k in keys <==> k in s.Keys - todo
      decreases todo
    {
      var k :| k in todo;
      todo := todo - {k};
      InsertKeyInOrder(keys, k);
      keys := InsertKey(keys, k);
    }
  }

  method Part(key: string, list: seq<Range>) returns (b: string)
    requires Canonical(list)
    ensures b == PartText(key, list)
  {
    hide Dec;
    b := key;
    var texts := IntervalTexts(list);
    assert texts[0..] == texts;
    for i := 0 to |list|
      invariant PartText(key, list) == b + Colons(texts[i..])
    {
      assert texts[i..][1..] == texts[i+1..] && texts[i..][0] == IntervalText(list[i]);
      b := b + ":" + Dec(list[i].lo);
      if list[i].hi != list[i].lo {
        b := b + "-" + Dec(list[i].hi);
      }
    }
    assert texts[|list|..] == [];
  }

  method Text(s: Sets) returns (text: string)
    requires Good(s)
    ensures IsText(s, text)
  {
    hide Less;
    hide Join;
    var keys := SortedKeys(s);
    assert forall i :: 0 <= i < |keys| ==> keys[i] in keys;
    var parts := Parts(s, keys);
    text := Join(parts, ',');
  }

  method Parts(s: Sets, keys: seq<string>) returns (parts: seq<string>)
    requires Good(s) && forall i :: 0 <= i < |keys| ==> keys[i] in s
    ensures parts == PartTexts(s, keys)
  {
    hide PartText;
    parts := [];
    for i := 0 to |keys|
      invariant |parts| == i && forall j :: 0 <= j < i ==> parts[j] == PartText(keys[j], s[keys[j]])
    {
      var b := Part(keys[i], s[keys[i]]);
      parts := parts + [b];
    }
  }

  // ---- Reading back --------------------------------------------------------------

  /** A tag that reads back: it cannot be taken for an interval or a separator. */
  predicate GoodTag(tag: string) {
    tag != "" && !IsDigit(tag[0]) && Solid(tag) && ':' !in tag && Lower(tag) == tag
  }

  /** A lowercase uuid, or one with a tag. */
  predicate GoodKey(key: string) {
    |key| >= 36 && IsUuid(key[..36]) && Lower(key[..36]) == key[..36]
    && (|key| == 36 || (key[36] == ':' && GoodTag(key[37..])))
  }

  predicate WellKeyed(s: Sets) { forall k :: k in s ==> GoodKey(k) }

  function Items(key: string, list: seq<Range>): seq<Item> {
    seq(|list|, i requires 0 <= i < |list| => Item(key, list[i]))
  }

  lemma ParsesBack(n: nat)
    requires n <= MAX64
    ensures ParseInt(Dec(n)) == Some(n)
  {
    DecPlain(n);
    DecParses(n, MAX64);
  }

  lemma IntervalReads(r: Range)
    requires 1 <= r.lo <= r.hi <= MAX64
    ensures var t := IntervalText(r);
            ReadRange(t) == Some(r) && t != "" && IsDigit(t[0]) && Solid(t) && ':' !in t
  {
    hide ParseInt;
    hide Dec;
    DecPlain(r.lo);
    DecPlain(r.hi);
    ParsesBack(r.lo);
    ParsesBack(r.hi);
    if r.lo == r.hi {
      CutNone(Dec(r.lo), '-');
    } else {
      CutFirst(Dec(r.lo), Dec(r.hi), '-');
    }
  }

  lemma {:induction false} FieldsRead(uuid: string, key: string, list: seq<Range>)
    requires Canonical(list)
    ensures ReadFields(uuid, key, IntervalTexts(list)) == Some(Items(key, list))
  {
    hide ReadRange;
    hide IntervalText;
    if list == [] {
      assert Items(key, list) == [];
    } else {
      IntervalReads(list[0]);
      FieldsRead(uuid, key, list[1..]);
      assert IntervalTexts(list)[1..] == IntervalTexts(list[1..]);
      assert Items(key, list) == [Item(key, list[0])] + Items(key, list[1..]);
    }
  }

  lemma {:induction false} SplitColons(a: string, texts: seq<string>)
    requires ':' !in a && forall i :: 0 <= i < |texts| ==> ':' !in texts[i]
    ensures Split(a + Colons(texts), ':') == [a] + texts
    decreases texts
  {
    hide Split;
    if texts == [] {
      SplitWhole(a, ':');
      assert a + "" == a && [a] + texts == [a];
    } else {
      SplitColons(texts[0], texts[1..]);
      SplitFirst(a, texts[0] + Colons(texts[1..]), ':');
      assert a + Colons(texts) == a + [':'] + (texts[0] + Colons(texts[1..]));
      assert [a] + ([texts[0]] + texts[1..]) == [a] + texts;
    }
  }

  lemma TextsArePlain(list: seq<Range>)
    requires Canonical(list)
    ensures forall i :: 0 <= i < |list| ==> ':' !in IntervalTexts(list)[i] && Solid(IntervalTexts(list)[i])
  {
    hide IntervalText;
    forall i | 0 <= i < |list| ensures ':' !in IntervalTexts(list)[i] && Solid(IntervalTexts(list)[i]) {
      IntervalReads(list[i]);
    }
  }

  /** The fields of a printed part: its uuid, its tag if it has one, and its intervals. */
  lemma PartSplits(key: string, list: seq<Range>)
    requires GoodKey(key) && Canonical(list)
    ensures Split(PartText(key, list), ':') ==
              [key[..36]] + (if |key| == 36 then [] else [key[37..]]) + IntervalTexts(list)
  {
    hide Split;
    hide IsUuid;
    hide Lower;
    hide IntervalTexts;
    hide Colons;
    var uuid, texts := key[..36], IntervalTexts(list);
    assert |texts| == |list| by { TextCount(list); }
    TextsArePlain(list);
    UuidDashes(uuid);
    if |key| == 36 {
      assert key == uuid && [uuid] + [] + texts == [uuid] + texts;
      SplitColons(uuid, texts);
    } else {
      var tag := key[37..];
      assert key == uuid + ":" + tag;
      SplitColons(tag, texts);
      SplitFirst(uuid, tag + Colons(texts), ':');
      assert PartText(key, list) == uuid + [':'] + (tag + Colons(texts));
      assert [uuid] + ([tag] + texts) == [uuid] + [tag] + texts;
    }
  }

  /** The text of one key reads back as its intervals. */
  lemma PartReads(key: string, list: seq<Range>)
    requires GoodKey(key) && Canonical(list) && list != []
    ensures ReadPart(PartText(key, list)) == Some(Items(key, list))
  {
    hide Split;
    hide IsUuid;
    hide Lower;
    hide IntervalTexts;
    hide PartText;
    var uuid, texts := key[..36], IntervalTexts(list);
    assert |texts| == |list| by { TextCount(list); }
    PartSplits(key, list);
    FieldsRead(uuid, key, list);
    var fields := Split(PartText(key, list), ':');
    assert PartText(key, list) != "" by { PartIsSolid(key, list); }
    if |key| == 36 {
      assert key == uuid && fields[1..] == texts;
    } else {
      var tag := key[37..];
      assert key == uuid + ":" + tag;
      assert fields[1..] == [tag] + texts && ([tag] + texts)[1..] == texts;
      assert ReadFields(uuid, uuid, [tag] + texts) == ReadFields(uuid, key, texts);
    }
  }

  lemma TextCount(list: seq<Range>)
    requires Canonical(list)
    ensures |IntervalTexts(list)| == |list|
  {
  }

  lemma {:induction false} ColonsAreSolid(texts: seq<string>)
    requires forall i :: 0 <= i < |texts| ==> Solid(texts[i])
    ensures Solid(Colons(texts))
  {
    if texts == [] {
    } else {
      assert Solid(texts[0]);
      ColonsAreSolid(texts[1..]);
    }
  }

  lemma KeyIsSolid(key: string)
    requires GoodKey(key)
    ensures Solid(key)
  {
    var uuid := key[..36];
    UuidDashes(uuid);
    forall i | 0 <= i < |key| ensures key[i] != ',' && !IsSpace(key[i]) {
      if i < 36 {
        assert key[i] == uuid[i];
        assert uuid[i] in uuid;
      } else if i > 36 {
        assert key[i] == key[37..][i - 37];
      }
    }
  }

  lemma PartIsSolid(key: string, list: seq<Range>)
    requires GoodKey(key) && Canonical(list)
    ensures Solid(PartText(key, list)) && PartText(key, list) != ""
  {
    hide GoodKey;
    hide IntervalTexts;
    KeyIsSolid(key);
    TextCount(list);
    TextsArePlain(list);
    ColonsAreSolid(IntervalTexts(list));
    assert key != "" by { KeyNotEmpty(key); }
  }

  lemma KeyNotEmpty(key: string)
    requires GoodKey(key)
    ensures key != ""
  {
  }

  ghost predicate NoBlank(s: string) { forall i :: 0 <= i < |s| ==> !IsSpace(s[i]) }

  lemma {:induction false} JoinNoBlank(parts: seq<string>)
    requires forall i :: 0 <= i < |parts| ==> Solid(parts[i])
    ensures NoBlank(Join(parts, ','))
  {
    if parts == [] {
    } else {
      assert Solid(parts[0]);
      JoinNoBlank(parts[1..]);
    }
  }

  function AllItems(s: Sets, keys: seq<string>): seq<Item>
    requires forall i :: 0 <= i < |keys| ==> keys[i] in s
  {
    if keys == [] then [] else Items(keys[0], s[keys[0]]) + AllItems(s, keys[1..])
  }

  lemma {:induction false} PartsRead(s: Sets, keys: seq<string>)
    requires Good(s) && WellKeyed(s) && forall i :: 0 <= i < |keys| ==> keys[i] in s
    ensures ReadParts(PartTexts(s, keys)) == Some(AllItems(s, keys))
  {
    hide ReadPart;
    hide PartText;
    hide GoodKey;
    if keys == [] {
    } else {
      PartReads(keys[0], s[keys[0]]);
      PartsRead(s, keys[1..]);
      assert PartTexts(s, keys)[1..] == PartTexts(s, keys[1..]);
    }
  }

  lemma {:induction false} AllItemsDenote(s: Sets, keys: seq<string>, k: string, x: int)
    requires forall i :: 0 <= i < |keys| ==> keys[i] in s
    ensures Denotes(AllItems(s, keys), k, x) <==> k in keys && Mem(s, k, x)
  {
    if keys == [] {
    } else {
      AllItemsDenote(s, keys[1..], k, x);
      var items := Items(keys[0], s[keys[0]]);
      DenotesConcat(items, AllItems(s, keys[1..]), k, x);
      assert Denotes(items, k, x) <==> k == keys[0] && In(s[k], x) by {
        ItemsDenote(keys[0], s[keys[0]], k, x);
      }
      assert keys == [keys[0]] + keys[1..];
    }
  }

  lemma ItemsDenote(key: string, list: seq<Range>, k: string, x: int)
    ensures Denotes(Items(key, list), k, x) <==> k == key && In(list, x)
  {
    var items := Items(key, list);
    assert forall i :: 0 <= i < |list| ==> items[i] == Item(key, list[i]);
  }

  /** The text of a non-empty well-formed set has no blanks and splits into its parts. */
  lemma TextSplits(s: Sets, keys: seq<string>)
    requires Good(s) && WellKeyed(s) && s != map[] && KeysOf(s, keys)
    ensures forall i :: 0 <= i < |keys| ==> keys[i] in s
    ensures var text := Join(PartTexts(s, keys), ',');
            RemoveBlanks(text) == text != "" && Split(text, ',') == PartTexts(s, keys)
  {
    hide PartText;
    hide GoodKey;
    hide Split;
    hide Less;
    hide Join;
    assert forall i :: 0 <= i < |keys| ==> keys[i] in keys;
    var parts := PartTexts(s, keys);
    var text := Join(parts, ',');
    var k0 :| k0 in s;
    assert k0 in keys;
    forall i | 0 <= i < |parts| ensures Solid(parts[i]) && ',' !in parts[i] && parts[i] != "" {
      assert keys[i] in s;
      PartIsSolid(keys[i], s[keys[i]]);
    }
    JoinNoBlank(parts);
    NoBlanks(text);
    SplitJoin(parts, ',');
    JoinNotEmpty(parts);
  }

  /** The reader accepts the text of a non-empty well-formed set and finds its intervals. */
  lemma TextReads(s: Sets, keys: seq<string>)
    requires Good(s) && WellKeyed(s) && s != map[] && KeysOf(s, keys)
    ensures forall i :: 0 <= i < |keys| ==> keys[i] in s
    ensures Read(Join(PartTexts(s, keys), ',')) == Some(AllItems(s, keys))
  {
    hide ReadParts;
    hide PartText;
    hide GoodKey;
    hide Split;
    hide Less;
    hide Join;
    hide RemoveBlanks;
    TextSplits(s, keys);
    PartsRead(s, keys);
    var k0 :| k0 in s;
    AllItemsDenote(s, keys, k0, s[k0][0].lo);
    assert Mem(s, k0, s[k0][0].lo) by { assert In(s[k0], s[k0][0].lo); }
  }

  lemma JoinNotEmpty(parts: seq<string>)
    requires parts != [] && parts[0] != ""
    ensures Join(parts, ',') != ""
  {
  }

  /** The lenient reader undoes the text: whatever set it builds is the set that was printed. */
  lemma ReadUndoesText(s: Sets, text: string, p: Sets)
    requires Good(s) && WellKeyed(s) && s != map[] && IsText(s, text)
    requires Read(text).Some? ==> Holds(p, Read(text).value)
    ensures Read(text).Some? && p == s
  {
    hide Join;
    hide Less;
    hide Read;
    hide GoodKey;
    hide PartText;
    var keys :| KeysOf(s, keys) && text == Join(PartTexts(s, keys), ',');
    TextReads(s, keys);
    forall k, x ensures Mem(p, k, x) <==> Mem(s, k, x) {
      AllItemsDenote(s, keys, k, x);
      assert k in s ==> k in keys by { KeysListed(s, keys, k); }
    }
    SameMembersSameSet(p, s);
  }

  lemma KeysListed(s: Sets, keys: seq<string>, k: string)
    requires KeysOf(s, keys)
    ensures k in s <==> k in keys
  {
  }

  // ---- The round trip ------------------------------------------------------------

  lemma IntervalsBounded(list: seq<Range>)
    requires Canonical(list) && (list == [] || Last(list).hi < MAX64)
    ensures FieldsBounded(IntervalTexts(list))
  {
    hide ReadRange;
    hide IntervalText;
    forall f | f in IntervalTexts(list) ensures ReadRange(f).Some? && ReadRange(f).value.hi < MAX64 {
      var i :| 0 <= i < |list| && IntervalTexts(list)[i] == f;
      IntervalReads(list[i]);
      assert i < |list| - 1 ==> list[i].hi + 1 < list[|list|-1].lo;
    }
  }

  lemma PartBounded(key: string, list: seq<Range>)
    requires GoodKey(key) && Canonical(list) && (list == [] || Last(list).hi < MAX64)
    ensures FieldsBounded(Split(PartText(key, list), ':')[1..])
  {
    hide Split;
    hide IntervalTexts;
    hide PartText;
    hide ReadRange;
    PartSplits(key, list);
    IntervalsBounded(list);
    var texts := IntervalTexts(list);
    var fields := Split(PartText(key, list), ':')[1..];
    if |key| == 36 {
      assert fields == texts;
    } else {
      assert fields == [key[37..]] + texts;
    }
  }

  /** Nothing a set prints reaches the largest 64-bit number. */
  lemma TextIsBounded(s: Sets, text: string)
    requires Good(s) && WellKeyed(s) && s != map[] && IsText(s, text)
    ensures Bounded(text)
  {
    hide Split;
    hide Join;
    hide Less;
    hide PartText;
    hide GoodKey;
    hide FieldsBounded;
    var keys :| KeysOf(s, keys) && text == Join(PartTexts(s, keys), ',');
    assert forall i :: 0 <= i < |keys| ==> keys[i] in keys;
    var parts := PartTexts(s, keys);
    TextSplits(s, keys);
    forall p | p in Split(RemoveBlanks(text), ',') ensures FieldsBounded(Split(p, ':')[1..]) {
      var i :| 0 <= i < |parts| && parts[i] == p;
      PartBounded(keys[i], s[keys[i]]);
    }
  }

  /** Printing a non-empty well-formed set and reading it back gives the set. */
  method RoundTrip(s: Sets) returns (text: string, p: Option<Sets>)
    requires Good(s) && WellKeyed(s) && s != map[]
    ensures IsText(s, text) && p == Some(s)
  {
    hide IsText;
    hide Bounded;
    hide Holds;
    hide Read;
    hide GoodKey;
    text := Text(s);
    TextIsBounded(s, text);
    p := ParseLenient(text);
    ReadUndoesText(s, text, if p.Some? then p.value else map[]);
  }
}
