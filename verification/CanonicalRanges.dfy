/**
 The canonical text of a GTID range list, by which a waiver names exactly the
 transactions it exempts. Sequence numbers go up to the unsigned 64-bit
 maximum.
 */
module CanonicalRanges {
  import opened Wrappers
  import opened Texts
  import opened Intervals

  const MAX_U64: nat := 0xffff_ffff_ffff_ffff
  const MAX_U32: nat := 0xffff_ffff

  /** A source of transactions: a MySQL uuid with an optional tag, or a MariaDB domain and server. */
  datatype Src = MySql(uuid: string, tag: string) | Maria(domain: nat, server: nat)

  datatype Entry = Entry(src: Src, range: Range)

  // ---- Reading the text ----------------------------------------------------------

  predicate TagChar(c: char, first: bool) {
    c == '_' || 'a' <= LowerChar(c) <= 'z' || (!first && IsDigit(c))
  }

  predicate IsTag(s: string) {
    1 <= |s| <= 32 && forall i :: 0 <= i < |s| ==> TagChar(s[i], i == 0)
  }

  function ParseRange(span: string): Option<Range> {
    var t := TrimSpace(span);
    var cut := CutAt(t, '-');
    var a := ParseUint(if cut.Some? then cut.value.0 else t, MAX_U64);
    var b := ParseUint(if cut.Some? then cut.value.1 else t, MAX_U64);
    if a.None? || b.None? || a.value == 0 || b.value < a.value then None else Some(Range(a.value, b.value))
  }

  /** The fields after a uuid: intervals, and tags that hold for the intervals after them. */
  function ParseFields(uuid: string, tag: string, pendingTag: bool, fields: seq<string>): Option<seq<Entry>>
    decreases fields
  {
    if fields == [] then (if pendingTag then None else Some([]))
    else
      var f := TrimSpace(fields[0]);
      if f != "" && !IsDigit(f[0]) then
        if !IsTag(f) || pendingTag then None else ParseFields(uuid, Lower(f), true, fields[1..])
      else
        var r := ParseRange(f);
        var rest := ParseFields(uuid, tag, false, fields[1..]);
        if r.None? || rest.None? then None else Some([Entry(MySql(uuid, tag), r.value)] + rest.value)
  }

  function ParseMaria(domain: string, server: string, range: string): Option<seq<Entry>> {
    var d, s, r := ParseUint(domain, MAX_U32), ParseUint(server, MAX_U32), ParseRange(range);
    if d.None? || s.None? || r.None? then None else Some([Entry(Maria(d.value, s.value), r.value)])
  }

  function ParsePart(part: string): Option<seq<Entry>> {
    var fields := Split(part, ':');
    var head := TrimSpace(fields[0]);
    var dash := Split(head, '-');
    if |dash| == 5 then
      if |fields| < 2 || !IsUuid(head) then None else ParseFields(Lower(head), "", false, fields[1..])
    else if |fields| == 1 && |dash| == 3 then ParseMaria(dash[0], dash[1], dash[2])
    else if |fields| == 2 && |dash| == 2 then ParseMaria(dash[0], dash[1], fields[1])
    else None
  }

  function ParseParts(parts: seq<string>): Option<seq<Entry>> {
    if parts == [] then Some([])
    else
      var p := TrimSpace(parts[0]);
      var first := if p == "" then Some([]) else ParsePart(p);
      var rest := ParseParts(parts[1..]);
      if first.None? || rest.None? then None else Some(first.value + rest.value)
  }

  predicate OneFlavor(entries: seq<Entry>) {
    forall i, j :: 0 <= i < j < |entries| ==> (entries[i].src.MySql? <==> entries[j].src.MySql?)
  }

  /** The ranges a text lists, or None when it is refused. */
  function Parse(s: string): Option<seq<Entry>> {
    var entries := ParseParts(Split(s, ','));
    if entries.Some? && OneFlavor(entries.value) then entries else None
  }

  // ---- What a text means ---------------------------------------------------------

  ghost predicate Denotes(entries: seq<Entry>, src: Src, x: int) {
    exists i :: 0 <= i < |entries| && entries[i].src == src && entries[i].range.lo <= x <= entries[i].range.hi
  }

  ghost predicate SameTransactions(a: seq<Entry>, b: seq<Entry>) {
    forall src, x :: Denotes(a, src, x) <==> Denotes(b, src, x)
  }

  // ---- The canonical table -------------------------------------------------------

  predicate LessSrc(a: Src, b: Src) {
    match (a, b)
    case (MySql(u, t), MySql(v, w)) => Less(u, v) || (u == v && Less(t, w))
    case (Maria(d, s), Maria(e, r)) => d < e || (d == e && s < r)
    case (MySql(_, _), Maria(_, _)) => true
    case (Maria(_, _), MySql(_, _)) => false
  }

  predicate Sorted(keys: seq<Src>) {
    forall i, j :: 0 <= i < j < |keys| ==> LessSrc(keys[i], keys[j])
  }

  /** One range joined to a list of separate ones. */
  function JoinRange(l: seq<Range>, r: Range): seq<Range> {
    if l == [] then [r]
    else if r.hi + 1 < l[0].lo then [r] + l
    else if l[0].hi + 1 < r.lo then [l[0]] + JoinRange(l[1..], r)
    else JoinRange(l[1..], Hull(l[0], r))
  }

  function AddKey(keys: seq<Src>, src: Src): seq<Src> {
    if keys == [] || LessSrc(src, keys[0]) then [src] + keys
    else if src == keys[0] then keys
    else [keys[0]] + AddKey(keys[1..], src)
  }

  /** The sources of the entries, in order, and the separate ranges of one of them. */
  function Keys(entries: seq<Entry>): seq<Src> {
    if entries == [] then [] else AddKey(Keys(entries[..|entries|-1]), entries[|entries|-1].src)
  }

  function Ranges(entries: seq<Entry>, src: Src): seq<Range> {
    if entries == [] then []
    else
      var e, before := entries[|entries|-1], Ranges(entries[..|entries|-1], src);
      if e.src == src then JoinRange(before, e.range) else before
  }

  function Name(src: Src): string {
    match src
    case MySql(uuid, tag) => if tag == "" then uuid else uuid + ":" + tag
    case Maria(d, s) => Dec(d) + "-" + Dec(s)
  }

  function Item(src: Src, r: Range): string
    requires 0 <= r.lo && 0 <= r.hi
  {
    Name(src) + ":" + RangeText(r)
  }

  /** One entry per separate range of each source, in order. */
  function Listed(src: Src, l: seq<Range>): seq<Entry> {
    seq(|l|, i requires 0 <= i < |l| => Entry(src, l[i]))
  }

  function Table(entries: seq<Entry>, keys: seq<Src>): seq<Entry> {
    if keys == [] then [] else Listed(keys[0], Ranges(entries, keys[0])) + Table(entries, keys[1..])
  }

  function Normal(entries: seq<Entry>): seq<Entry> { Table(entries, Keys(entries)) }

  function Render(e: Entry): string { if 0 <= e.range.lo && 0 <= e.range.hi then Item(e.src, e.range) else "" }

  function RenderAll(entries: seq<Entry>): seq<string> {
    seq(|entries|, i requires 0 <= i < |entries| => Render(entries[i]))
  }

  /** The canonical text of an accepted input. */
  function Canon(s: string): Option<string> {
    var entries := Parse(s);
    if entries.None? then None else Some(Join(RenderAll(Normal(entries.value)), ','))
  }

  // ---- The table denotes what the entries do -------------------------------------

  predicate LowerCase(s: string) { forall i :: 0 <= i < |s| ==> !('A' <= s[i] <= 'Z') }

  predicate GoodSrc(src: Src) {
    match src
    case MySql(uuid, tag) => IsUuid(uuid) && LowerCase(uuid) && (tag == "" || (IsTag(tag) && LowerCase(tag)))
    case Maria(d, s) => d <= MAX_U32 && s <= MAX_U32
  }

  predicate GoodRange(r: Range) { 1 <= r.lo <= r.hi <= MAX_U64 }

  predicate GoodEntries(entries: seq<Entry>) {
    forall i :: 0 <= i < |entries| ==> GoodSrc(entries[i].src) && GoodRange(entries[i].range)
  }

  /** The smallest interval over two that overlap or touch. */
  function Hull(a: Range, b: Range): Range {
    Range(if b.lo < a.lo then b.lo else a.lo, if b.hi < a.hi then a.hi else b.hi)
  }

  lemma {:induction false} JoinRangeIsApart(l: seq<Range>, r: Range)
    requires Apart(l) && 1 <= r.lo <= r.hi
    ensures var j := JoinRange(l, r);
            Apart(j) && j != [] && j[0].lo == if l != [] && l[0].lo < r.lo then l[0].lo else r.lo
    decreases |l|
  {
    if l != [] && r.hi + 1 >= l[0].lo {
      if l[0].hi + 1 < r.lo {
        JoinRangeIsApart(l[1..], r);
        FrontApart(l[0], JoinRange(l[1..], r));
      } else {
        JoinRangeIsApart(l[1..], Hull(l[0], r));
      }
    } else if l != [] {
      FrontApart(r, l);
    }
  }

  lemma {:induction false} JoinRangeIsUnion(l: seq<Range>, r: Range, x: int)
    requires Apart(l) && 1 <= r.lo <= r.hi
    ensures In(JoinRange(l, r), x) <==> In(l, x) || r.lo <= x <= r.hi
    decreases |l|
  {
    if l == [] {
      InFront(r, [], x);
      assert [r] + [] == [r];
    } else if r.hi + 1 < l[0].lo {
      InFront(r, l, x);
    } else {
      InFront(l[0], l[1..], x);
      assert [l[0]] + l[1..] == l;
      if l[0].hi + 1 < r.lo {
        JoinRangeIsUnion(l[1..], r, x);
        InFront(l[0], JoinRange(l[1..], r), x);
      } else {
        JoinRangeIsUnion(l[1..], Hull(l[0], r), x);
      }
    }
  }

  lemma FrontApart(r: Range, l: seq<Range>)
    requires Apart(l) && l != [] && 1 <= r.lo <= r.hi && r.hi + 1 < l[0].lo
    ensures Apart([r] + l)
  {
    assert forall i :: 0 < i < |l| ==> l[0].hi + 1 < l[i].lo;
  }

  lemma {:induction false} RangesDenote(entries: seq<Entry>, src: Src)
    requires GoodEntries(entries)
    ensures Apart(Ranges(entries, src))
    ensures forall x :: In(Ranges(entries, src), x) <==> Denotes(entries, src, x)
  {
    if entries == [] {
    } else {
      var n := |entries| - 1;
      var before, e := entries[..n], entries[n];
      RangesDenote(before, src);
      if e.src == src {
        JoinRangeIsApart(Ranges(before, src), e.range);
        forall x ensures In(Ranges(entries, src), x) <==> In(Ranges(before, src), x) || e.range.lo <= x <= e.range.hi {
          JoinRangeIsUnion(Ranges(before, src), e.range, x);
        }
      }
      forall x
        ensures Denotes(entries, src, x) <==> Denotes(before, src, x) || (e.src == src && e.range.lo <= x <= e.range.hi)
      {
        DenotesPush(before, e, src, x);
        assert before + [e] == entries;
      }
    }
  }

  lemma DenotesPush(a: seq<Entry>, e: Entry, src: Src, x: int)
    ensures Denotes(a + [e], src, x) <==> Denotes(a, src, x) || (e.src == src && e.range.lo <= x <= e.range.hi)
  {
    var b := a + [e];
    assert b[|a|] == e && forall i :: 0 <= i < |a| ==> b[i] == a[i];
  }

  lemma DenotesConcat(a: seq<Entry>, b: seq<Entry>, src: Src, x: int)
    ensures Denotes(a + b, src, x) <==> Denotes(a, src, x) || Denotes(b, src, x)
  {
    var c := a + b;
    assert forall i :: 0 <= i < |a| ==> c[i] == a[i];
    assert forall i :: 0 <= i < |b| ==> c[|a| + i] == b[i];
    if Denotes(c, src, x) {
      var i :| 0 <= i < |c| && c[i].src == src && c[i].range.lo <= x <= c[i].range.hi;
      assert i >= |a| ==> b[i - |a|] == c[i];
    }
  }

  // ---- The order of sources ------------------------------------------------------

  lemma LessSrcTotal(a: Src, b: Src)
    ensures a == b || LessSrc(a, b) || LessSrc(b, a)
    ensures !(LessSrc(a, b) && LessSrc(b, a)) && !LessSrc(a, a)
  {
    if a.MySql? {
      LessTotal(a.uuid, a.uuid);
      LessTotal(a.tag, a.tag);
      if b.MySql? {
        LessTotal(a.uuid, b.uuid);
        LessTotal(a.tag, b.tag);
      }
    }
  }

  lemma LessSrcTransitive(a: Src, b: Src, c: Src)
    requires LessSrc(a, b) && LessSrc(b, c)
    ensures LessSrc(a, c)
  {
    if a.MySql? && b.MySql? && c.MySql? {
      if Less(a.uuid, b.uuid) && Less(b.uuid, c.uuid) {
        LessTransitive(a.uuid, b.uuid, c.uuid);
      }
      if Less(a.tag, b.tag) && Less(b.tag, c.tag) {
        LessTransitive(a.tag, b.tag, c.tag);
      }
    }
  }

  lemma {:induction false} AddKeySorted(keys: seq<Src>, src: Src)
    requires Sorted(keys)
    ensures Sorted(AddKey(keys, src))
    ensures forall k :: k in AddKey(keys, src) <==> k in keys || k == src
  {
    if keys == [] {
    } else if LessSrc(src, keys[0]) {
      forall i | 0 < i < |keys| ensures LessSrc(src, keys[i]) { LessSrcTransitive(src, keys[0], keys[i]); }
    } else if src != keys[0] {
      LessSrcTotal(src, keys[0]);
      AddKeySorted(keys[1..], src);
      assert forall k :: k in keys <==> k == keys[0] || k in keys[1..];
      var rest := AddKey(keys[1..], src);
      forall i | 0 <= i < |rest| ensures LessSrc(keys[0], rest[i]) {
        assert rest[i] in rest;
      }
    }
  }

  ghost predicate HasSrc(entries: seq<Entry>, src: Src) {
    exists i :: 0 <= i < |entries| && entries[i].src == src
  }

  lemma {:induction false} KeysAreSources(entries: seq<Entry>)
    ensures Sorted(Keys(entries))
    ensures forall src :: src in Keys(entries) <==> HasSrc(entries, src)
  {
    if entries == [] {
    } else {
      var n := |entries| - 1;
      KeysAreSources(entries[..n]);
      AddKeySorted(Keys(entries[..n]), entries[n].src);
      assert forall i :: 0 <= i < n ==> entries[..n][i] == entries[i];
      assert forall src :: HasSrc(entries, src) <==> HasSrc(entries[..n], src) || entries[n].src == src;
    }
  }

  lemma {:induction false} SortedIsUnique(a: seq<Src>, b: seq<Src>)
    requires Sorted(a) && Sorted(b) && forall k :: k in a <==> k in b
    ensures a == b
  {
    assert forall i :: 0 <= i < |a| ==> a[i] in b;
    assert forall i :: 0 <= i < |b| ==> b[i] in a;
    if a != [] && b != [] {
      assert a[0] in b && b[0] in a;
      LessSrcTotal(a[0], b[0]);
      assert a[0] == b[0];
      forall k ensures k in a[1..] <==> k in b[1..] {
        LessSrcTotal(k, k);
        assert k in a <==> k == a[0] || k in a[1..];
        assert k in b <==> k == b[0] || k in b[1..];
      }
      SortedIsUnique(a[1..], b[1..]);
      assert a == [a[0]] + a[1..] && b == [b[0]] + b[1..];
    }
  }

  // ---- One meaning, one table ----------------------------------------------------

  lemma SourceDenotes(entries: seq<Entry>, src: Src)
    requires GoodEntries(entries)
    ensures HasSrc(entries, src) <==> exists x :: Denotes(entries, src, x)
  {
    if HasSrc(entries, src) {
      var i :| 0 <= i < |entries| && entries[i].src == src;
      assert Denotes(entries, src, entries[i].range.lo);
    }
  }

  /** Entries with the same transactions have the same table. */
  lemma SameTable(a: seq<Entry>, b: seq<Entry>)
    requires GoodEntries(a) && GoodEntries(b) && SameTransactions(a, b)
    ensures Normal(a) == Normal(b)
  {
    KeysAreSources(a);
    KeysAreSources(b);
    forall src ensures HasSrc(a, src) <==> HasSrc(b, src) {
      SourceDenotes(a, src);
      SourceDenotes(b, src);
      assert forall x :: Denotes(a, src, x) <==> Denotes(b, src, x);
    }
    SortedIsUnique(Keys(a), Keys(b));
    forall src ensures Ranges(a, src) == Ranges(b, src) {
      RangesDenote(a, src);
      RangesDenote(b, src);
      ApartIsUnique(Ranges(a, src), Ranges(b, src));
    }
    SameRangesSameTable(a, b, Keys(a));
  }

  lemma {:induction false} SameRangesSameTable(a: seq<Entry>, b: seq<Entry>, keys: seq<Src>)
    requires forall src :: Ranges(a, src) == Ranges(b, src)
    ensures Table(a, keys) == Table(b, keys)
    decreases keys
  {
    if keys == [] {
    } else {
      SameRangesSameTable(a, b, keys[1..]);
    }
  }

  lemma ListedDenotes(src: Src, l: seq<Range>, k: Src, x: int)
    ensures Denotes(Listed(src, l), k, x) <==> k == src && In(l, x)
  {
    var e := Listed(src, l);
    assert forall i :: 0 <= i < |l| ==> e[i] == Entry(src, l[i]);
    if k == src && In(l, x) {
      var i :| 0 <= i < |l| && l[i].lo <= x <= l[i].hi;
      assert e[i].src == src && e[i].range.lo <= x <= e[i].range.hi;
    }
  }

  lemma {:induction false} TableDenotes(entries: seq<Entry>, keys: seq<Src>, k: Src, x: int)
    requires GoodEntries(entries)
    ensures Denotes(Table(entries, keys), k, x) <==> k in keys && Denotes(entries, k, x)
    decreases keys
  {
    if keys == [] {
    } else {
      TableDenotes(entries, keys[1..], k, x);
      DenotesConcat(Listed(keys[0], Ranges(entries, keys[0])), Table(entries, keys[1..]), k, x);
      ListedDenotes(keys[0], Ranges(entries, keys[0]), k, x);
      RangesDenote(entries, keys[0]);
    }
  }

  lemma NormalDenotes(entries: seq<Entry>)
    requires GoodEntries(entries)
    ensures SameTransactions(Normal(entries), entries)
  {
    forall k, x ensures Denotes(Normal(entries), k, x) <==> Denotes(entries, k, x) {
      TableDenotes(entries, Keys(entries), k, x);
      KeysAreSources(entries);
      SourceDenotes(entries, k);
    }
  }

  lemma {:induction false} TableIsGood(entries: seq<Entry>, keys: seq<Src>)
    requires GoodEntries(entries) && forall k :: k in keys ==> HasSrc(entries, k)
    ensures GoodEntries(Table(entries, keys))
    ensures forall i :: 0 <= i < |Table(entries, keys)| ==> HasSrc(entries, Table(entries, keys)[i].src)
    decreases keys
  {
    if keys == [] {
    } else {
      var src, l := keys[0], Ranges(entries, keys[0]);
      TableIsGood(entries, keys[1..]);
      RangesDenote(entries, src);
      forall i | 0 <= i < |l| ensures GoodRange(l[i]) {
        assert In(l, l[i].hi);
        assert Denotes(entries, src, l[i].hi);
      }
      assert HasSrc(entries, src);
    }
  }

  lemma NormalIsGood(entries: seq<Entry>)
    requires GoodEntries(entries) && OneFlavor(entries)
    ensures GoodEntries(Normal(entries)) && OneFlavor(Normal(entries))
  {
    KeysAreSources(entries);
    TableIsGood(entries, Keys(entries));
    var t := Normal(entries);
    forall i, j | 0 <= i < j < |t| ensures t[i].src.MySql? <==> t[j].src.MySql? {
      var a :| 0 <= a < |entries| && entries[a].src == t[i].src;
      var b :| 0 <= b < |entries| && entries[b].src == t[j].src;
      assert a < b || a == b || b < a;
    }
  }

  // ---- The text of a table reads back --------------------------------------------

  /** No blank and no comma. */
  function RangeText(r: Range): string
    requires 0 <= r.lo && 0 <= r.hi
  {
    Dec(r.lo) + "-" + Dec(r.hi)
  }

  lemma RangeTextParses(r: Range)
    requires GoodRange(r)
    ensures var t := RangeText(r);
            Solid(t) && ':' !in t && t != [] && IsDigit(t[0]) && TrimSpace(t) == t && ParseRange(t) == Some(r)
  {
    DecPlain(r.lo);
    DecPlain(r.hi);
    var t := RangeText(r);
    SolidTrims(t);
    CutFirst(Dec(r.lo), Dec(r.hi), '-');
    DecParses(r.lo, MAX_U64);
    DecParses(r.hi, MAX_U64);
  }

  lemma LowerSame(s: string)
    requires LowerCase(s)
    ensures Lower(s) == s
  {
  }

  lemma TagPlain(tag: string)
    requires IsTag(tag)
    ensures Solid(tag) && ':' !in tag && tag != "" && !IsDigit(tag[0])
  {
    assert TagChar(tag[0], true);
    forall i | 0 <= i < |tag| ensures tag[i] != ',' && tag[i] != ':' && !IsSpace(tag[i]) {
      assert TagChar(tag[i], i == 0);
    }
  }

  lemma UuidPlain(uuid: string)
    requires IsUuid(uuid)
    ensures Solid(uuid) && ':' !in uuid && |Split(uuid, '-')| == 5 && TrimSpace(uuid) == uuid
  {
    UuidDashes(uuid);
    SolidTrims(uuid);
  }

  lemma OneField(uuid: string, tag: string, pendingTag: bool, r: Range)
    requires GoodRange(r)
    ensures ParseFields(uuid, tag, pendingTag, [RangeText(r)]) == Some([Entry(MySql(uuid, tag), r)])
  {
    hide ParseRange;
    hide TrimSpace;
    RangeTextParses(r);
    assert [RangeText(r)][1..] == [] && [Entry(MySql(uuid, tag), r)] + [] == [Entry(MySql(uuid, tag), r)];
  }

  lemma MySqlFields(uuid: string, tag: string, t: string)
    requires IsUuid(uuid) && (tag == "" || IsTag(tag)) && ':' !in t
    ensures Split(Name(MySql(uuid, tag)) + ":" + t, ':') == if tag == "" then [uuid, t] else [uuid, tag, t]
  {
    UuidPlain(uuid);
    SplitWhole(t, ':');
    if tag == "" {
      SplitFirst(uuid, t, ':');
    } else {
      TagPlain(tag);
      assert uuid + ":" + tag + ":" + t == uuid + ":" + (tag + ":" + t);
      SplitFirst(uuid, tag + ":" + t, ':');
      SplitFirst(tag, t, ':');
    }
  }

  lemma MySqlItem(uuid: string, tag: string, r: Range)
    requires GoodSrc(MySql(uuid, tag)) && GoodRange(r)
    ensures ParsePart(Item(MySql(uuid, tag), r)) == Some([Entry(MySql(uuid, tag), r)])
  {
    hide ParseRange;
    hide TrimSpace;
    hide Split;
    hide IsUuid;
    hide IsTag;
    hide Lower;
    var t := RangeText(r);
    RangeTextParses(r);
    UuidPlain(uuid);
    LowerSame(uuid);
    MySqlFields(uuid, tag, t);
    if tag == "" {
      OneField(uuid, tag, false, r);
      assert [uuid, t][1..] == [t];
    } else {
      OneField(uuid, tag, true, r);
      TagPlain(tag);
      SolidTrims(tag);
      LowerSame(tag);
      assert [uuid, tag, t][1..] == [tag, t] && [tag, t][1..] == [t];
    }
  }

  lemma MariaItem(d: nat, s: nat, r: Range)
    requires d <= MAX_U32 && s <= MAX_U32 && GoodRange(r)
    ensures ParsePart(Item(Maria(d, s), r)) == Some([Entry(Maria(d, s), r)])
  {
    hide ParseRange;
    hide ParseUint;
    var name, t := Dec(d) + "-" + Dec(s), RangeText(r);
    RangeTextParses(r);
    DecPlain(d);
    DecPlain(s);
    SolidTrims(name);
    DecParses(d, MAX_U32);
    DecParses(s, MAX_U32);
    SplitWhole(t, ':');
    SplitFirst(name, t, ':');
    SplitWhole(Dec(s), '-');
    SplitFirst(Dec(d), Dec(s), '-');
    hide Split;
    hide TrimSpace;
    hide Dec;
    assert Split(Item(Maria(d, s), r), ':') == [name, t];
  }

  lemma NameIsSolid(src: Src)
    requires GoodSrc(src)
    ensures Solid(Name(src))
  {
    match src
    case MySql(uuid, tag) =>
      UuidPlain(uuid);
      if tag != "" {
        TagPlain(tag);
      }
    case Maria(d, s) =>
      DecPlain(d);
      DecPlain(s);
  }

  /** A rendered entry has no comma and no blank, and reads back as itself. */
  lemma RenderedEntry(e: Entry)
    requires GoodSrc(e.src) && GoodRange(e.range)
    ensures ParsePart(Render(e)) == Some([e]) && ',' !in Render(e) && TrimSpace(Render(e)) == Render(e)
              && Render(e) != ""
  {
    hide ParsePart;
    hide Name;
    RangeTextParses(e.range);
    NameIsSolid(e.src);
    SolidTrims(Render(e));
    match e.src
    case MySql(uuid, tag) => MySqlItem(uuid, tag, e.range);
    case Maria(d, s) => MariaItem(d, s, e.range);
  }

  lemma {:induction false} RenderedParts(entries: seq<Entry>)
    requires GoodEntries(entries)
    ensures ParseParts(RenderAll(entries)) == Some(entries)
    ensures forall i :: 0 <= i < |entries| ==> ',' !in RenderAll(entries)[i]
  {
    hide ParsePart;
    hide Render;
    if entries == [] {
    } else {
      RenderedEntry(entries[0]);
      RenderedParts(entries[1..]);
      assert RenderAll(entries)[1..] == RenderAll(entries[1..]);
      assert [entries[0]] + entries[1..] == entries;
      assert forall i :: 0 < i < |entries| ==> RenderAll(entries)[i] == RenderAll(entries[1..])[i-1];
    }
  }

  lemma ParseRendered(entries: seq<Entry>)
    requires GoodEntries(entries) && OneFlavor(entries)
    ensures Parse(Join(RenderAll(entries), ',')) == Some(entries)
  {
    hide ParsePart;
    hide Render;
    RenderedParts(entries);
    if entries != [] {
      SplitJoin(RenderAll(entries), ',');
    } else {
      assert RenderAll(entries) == [];
      assert Split("", ',') == [""] && [""][1..] == [];
    }
  }

  // ---- What the parser accepts is well formed ------------------------------------

  lemma {:induction false} FieldsAreGood(uuid: string, tag: string, pendingTag: bool, fields: seq<string>)
    requires GoodSrc(MySql(uuid, tag))
    ensures ParseFields(uuid, tag, pendingTag, fields).Some? ==>
              GoodEntries(ParseFields(uuid, tag, pendingTag, fields).value)
    decreases fields
  {
    if fields == [] {
    } else {
      var f := TrimSpace(fields[0]);
      if f != "" && !IsDigit(f[0]) {
        if IsTag(f) {
          LowerTag(f);
          FieldsAreGood(uuid, Lower(f), true, fields[1..]);
        }
      } else {
        FieldsAreGood(uuid, tag, false, fields[1..]);
      }
    }
  }

  lemma LowerTag(s: string)
    requires IsTag(s)
    ensures IsTag(Lower(s)) && LowerCase(Lower(s))
  {
    forall i | 0 <= i < |s| ensures TagChar(Lower(s)[i], i == 0) {
      assert TagChar(s[i], i == 0);
    }
  }

  lemma PartIsGood(part: string)
    ensures ParsePart(part).Some? ==> GoodEntries(ParsePart(part).value)
  {
    var head := TrimSpace(Split(part, ':')[0]);
    if IsUuid(head) {
      LowerUuid(head);
      FieldsAreGood(Lower(head), "", false, Split(part, ':')[1..]);
    }
  }

  lemma {:induction false} PartsAreGood(parts: seq<string>)
    ensures ParseParts(parts).Some? ==> GoodEntries(ParseParts(parts).value)
  {
    hide ParsePart;
    if parts == [] {
    } else {
      PartIsGood(TrimSpace(parts[0]));
      PartsAreGood(parts[1..]);
    }
  }

  lemma ParsedIsGood(s: string)
    requires Parse(s).Some?
    ensures GoodEntries(Parse(s).value) && OneFlavor(Parse(s).value)
  {
    PartsAreGood(Split(s, ','));
  }

  // ---- Theorems ------------------------------------------------------------------

  /** The canonical text of a text reads as its transactions, no more and no fewer. */
  lemma CanonReadsBack(s: string)
    requires Parse(s).Some?
    ensures Parse(Canon(s).value) == Some(Normal(Parse(s).value))
    ensures SameTransactions(Parse(Canon(s).value).value, Parse(s).value)
  {
    hide *;
    ParsedIsGood(s);
    var e := Parse(s).value;
    NormalIsGood(e);
    NormalDenotes(e);
    ParseRendered(Normal(e));
    CanonIsText(s);
  }

  lemma CanonIsText(s: string)
    requires Parse(s).Some?
    ensures Canon(s) == Some(Join(RenderAll(Normal(Parse(s).value)), ','))
  {
  }

  /** Canonical text is its own canonical text. */
  lemma CanonIsIdempotent(s: string)
    requires Canon(s).Some?
    ensures Canon(Canon(s).value) == Canon(s)
  {
    hide Parse;
    var t := Canon(s).value;
    CanonReadsBack(s);
    ParsedIsGood(s);
    ParsedIsGood(t);
    SameTable(Parse(t).value, Parse(s).value);
  }

  lemma CanonIffParse(s: string)
    ensures Canon(s).Some? <==> Parse(s).Some?
  {
    hide Parse;
  }

  /** Two accepted texts have the same canonical text exactly when they list the same transactions. */
  lemma SameTextIffSameTransactions(s: string, t: string)
    requires Canon(s).Some? && Canon(t).Some?
    ensures Canon(s) == Canon(t) <==> SameTransactions(Parse(s).value, Parse(t).value)
  {
    hide Parse;
    ParsedIsGood(s);
    ParsedIsGood(t);
    CanonReadsBack(s);
    CanonReadsBack(t);
    if SameTransactions(Parse(s).value, Parse(t).value) {
      SameTable(Parse(s).value, Parse(t).value);
    }
  }
}
