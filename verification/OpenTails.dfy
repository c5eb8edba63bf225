/**
 The scan of the highest open segment: which transactions it holds whole, and
 where a resume cuts it. Reading a GTID, a header list or a statement out of
 an event body is the decoder's business and is a parameter here.
 */
module OpenTails {
  import opened Wrappers
  import opened Segments
  import Texts

  datatype Decoder = Decoder(
    checksums: seq<byte> -> bool,
    previousGtids: (seq<byte>, bool) -> Option<string>,
    mariaList: seq<byte> -> Option<string>,
    gtid: (byte, seq<byte>) -> Option<string>,
    mariaGtid: (seq<byte>, seq<byte>) -> Option<(string, bool)>,
    statement: seq<byte> -> string)

  const QUERY: byte := 2
  const FORMAT_DESCRIPTION: byte := 15
  const XID: byte := 16
  const GTID: byte := 33
  const ANONYMOUS_GTID: byte := 34
  const PREVIOUS_GTIDS: byte := 35
  const XA_PREPARE: byte := 38
  const TRANSACTION_PAYLOAD: byte := 40
  const GTID_TAGGED: byte := 42
  const MARIADB_GTID: byte := 162
  const MARIADB_GTID_LIST: byte := 163

  // ---- What a statement does to an open transaction ------------------------------

  datatype QueryEffect = Inside | Begins | Commits

  /** The text up to the first blank. */
  function Head(s: string): string {
    if s == [] || s[0] in " \t\r\n" then [] else [s[0]] + Head(s[1..])
  }

  function TransactionQueryEffect(query: string, inTxn: bool): QueryEffect {
    var upper := Texts.Upper(Texts.TrimSpace(query));
    var head := Head(upper);
    if head == "" then Inside
    else if head == "BEGIN" then Begins
    else if head == "START" then if "START TRANSACTION" <= upper then Begins else Inside
    else if head == "COMMIT" then Commits
    else if head == "ROLLBACK" then if "ROLLBACK TO" <= upper then Inside else Commits
    else if head == "XA" then if "XA COMMIT" <= upper || "XA ROLLBACK" <= upper then Commits else Inside
    else if inTxn then Inside else Commits
  }

  /** The letter itself, or the small one of a capital. */
  ghost predicate SameLetter(c: char, capital: char) {
    c == capital || ('A' <= capital <= 'Z' && c as int == capital as int + 32)
  }

  ghost predicate BeginsWith(text: string, words: string) {
    |words| <= |text| && forall i :: 0 <= i < |words| ==> SameLetter(text[i], words[i])
  }

  /** The first word of the text, in any case, up to a space, a tab or a line end. */
  ghost predicate FirstWord(text: string, word: string) {
    && BeginsWith(text, word)
    && (|text| == |word| || text[|word|] == ' ' || text[|word|] == '\t' || text[|word|] == '\r' || text[|word|] == '\n')
  }

  ghost predicate StartsTransaction(text: string) {
    FirstWord(text, "BEGIN") || (FirstWord(text, "START") && BeginsWith(text, "START TRANSACTION"))
  }

  /** COMMIT, a whole ROLLBACK, XA COMMIT, XA ROLLBACK, or any other statement outside BEGIN. */
  ghost predicate EndsTransaction(text: string, inTxn: bool) {
    || FirstWord(text, "COMMIT")
    || (FirstWord(text, "ROLLBACK") && !BeginsWith(text, "ROLLBACK TO"))
    || (FirstWord(text, "XA") && (BeginsWith(text, "XA COMMIT") || BeginsWith(text, "XA ROLLBACK")))
    || (!inTxn && text != "" && !FirstWord(text, "BEGIN") && !FirstWord(text, "START") && !FirstWord(text, "COMMIT")
        && !FirstWord(text, "ROLLBACK") && !FirstWord(text, "XA"))
  }

  ghost predicate Capitals(words: string) { forall i :: 0 <= i < |words| ==> words[i] == ' ' || 'A' <= words[i] <= 'Z' }

  lemma {:induction false} HeadIs(s: string, word: string)
    requires forall i :: 0 <= i < |word| ==> word[i] !in " \t\r\n"
    ensures Head(s) == word <==> word <= s && (|s| == |word| || s[|word|] in " \t\r\n")
  {
    if s == [] || s[0] in " \t\r\n" {
    } else if word == [] {
    } else {
      HeadIs(s[1..], word[1..]);
      assert [s[0]] + s[1..] == s && [word[0]] + word[1..] == word;
    }
  }

  lemma UpperBegins(text: string, words: string)
    requires Capitals(words)
    ensures words <= Texts.Upper(text) <==> BeginsWith(text, words)
  {
    var upper := Texts.Upper(text);
    assert |upper| == |text| && forall i :: 0 <= i < |text| ==> upper[i] == Texts.UpperChar(text[i]);
    if |words| <= |text| {
      forall i | 0 <= i < |words| ensures upper[i] == words[i] <==> SameLetter(text[i], words[i]) {
      }
      assert upper[..|words|] == words <==> forall i :: 0 <= i < |words| ==> upper[i] == words[i];
    }
  }

  lemma UpperHead(text: string, word: string)
    requires Capitals(word) && ' ' !in word
    ensures Head(Texts.Upper(text)) == word <==> FirstWord(text, word)
  {
    var upper := Texts.Upper(text);
    forall i | 0 <= i < |word| ensures word[i] !in " \t\r\n" { assert word[i] in word; }
    HeadIs(upper, word);
    UpperBegins(text, word);
    assert |upper| == |text| && forall i :: 0 <= i < |text| ==> upper[i] == Texts.UpperChar(text[i]);
  }

  lemma Words()
    ensures Capitals("BEGIN") && Capitals("START") && Capitals("COMMIT") && Capitals("ROLLBACK") && Capitals("XA")
    ensures Capitals("START TRANSACTION") && Capitals("ROLLBACK TO")
    ensures Capitals("XA COMMIT") && Capitals("XA ROLLBACK")
  {
  }

  /** What a statement does, by its text. */
  lemma EffectIs(query: string, inTxn: bool)
    ensures TransactionQueryEffect(query, inTxn) == Begins <==> StartsTransaction(Texts.TrimSpace(query))
    ensures TransactionQueryEffect(query, inTxn) == Commits <==> EndsTransaction(Texts.TrimSpace(query), inTxn)
  {
    hide Head;
    hide BeginsWith;
    hide FirstWord;
    hide Texts.Upper;
    hide Texts.TrimSpace;
    hide Capitals;
    Words();
    var text := Texts.TrimSpace(query);
    HeadNotEmpty(query);
    UpperHead(text, "BEGIN");
    UpperHead(text, "START");
    UpperHead(text, "COMMIT");
    UpperHead(text, "ROLLBACK");
    UpperHead(text, "XA");
    UpperBegins(text, "START TRANSACTION");
    UpperBegins(text, "ROLLBACK TO");
    UpperBegins(text, "XA COMMIT");
    UpperBegins(text, "XA ROLLBACK");
  }

  lemma HeadNotEmpty(query: string)
    ensures var text := Texts.TrimSpace(query); Head(Texts.Upper(text)) == "" <==> text == ""
  {
    var text := Texts.TrimSpace(query);
    var a, b := Texts.TrimIs(query);
    if text != "" {
      assert !Texts.IsSpace(text[0]) && Texts.Upper(text)[0] == Texts.UpperChar(text[0]);
    }
  }

  // ---- The scan ------------------------------------------------------------------

  datatype Scan = Scan(crc: bool, gtids: seq<string>, previous: seq<string>,
                       pending: string, pendingOff: nat, pendingStart: nat, inTxn: bool,
                       lastPos: nat, cutOff: nat, cutPos: nat, found: bool)

  const START: Scan := Scan(false, [], [], "", 0, 0, false, 0, 0, 0, false)

  function Type(e: Event): byte { if |e.raw| > 4 then e.raw[4] else 0 }

  function Body(e: Event): seq<byte> { if |e.raw| >= HEADER then e.raw[HEADER..] else [] }

  function Payload(crc: bool, e: Event): seq<byte> {
    var body := Body(e);
    if crc && Type(e) != FORMAT_DESCRIPTION && |body| >= 4 then body[..|body|-4] else body
  }

  function Opened(s: Scan, e: Event, gtid: string, inTxn: bool): Scan {
    s.(pending := gtid, inTxn := inTxn, pendingOff := e.off,
       pendingStart := if e.logPos >= |e.raw| then e.logPos - |e.raw| else 0)
  }

  function Committed(s: Scan): Scan {
    s.(gtids := if s.pending != "" then s.gtids + [s.pending] else s.gtids, pending := "", inTxn := false)
  }

  /** The effect of one event on the transaction being read. */
  function Content(d: Decoder, s: Scan, e: Event): Scan {
    var t, payload := Type(e), Payload(s.crc, e);
    if t == FORMAT_DESCRIPTION then s.(crc := d.checksums(Body(e)))
    else if t == PREVIOUS_GTIDS then
      var text := d.previousGtids(Body(e), s.crc);
      if text.Some? && Texts.TrimSpace(text.value) != "" then s.(previous := s.previous + [text.value]) else s
    else if t == MARIADB_GTID_LIST then
      var text := d.mariaList(payload);
      if text.Some? && text.value != "" then s.(previous := s.previous + [text.value]) else s
    else if t == ANONYMOUS_GTID then s.(pending := "", inTxn := false)
    else if t == GTID || t == GTID_TAGGED then
      var gtid := d.gtid(t, payload);
      if gtid.Some? then Opened(s, e, gtid.value, false) else s.(pending := "", inTxn := false)
    else if t == MARIADB_GTID then
      var gtid := d.mariaGtid(if |e.raw| >= HEADER then e.raw[..HEADER] else e.raw, payload);
      if gtid.None? then s.(pending := "", inTxn := false)
      else if gtid.value.1 then s.(pending := "", inTxn := false, gtids := s.gtids + [gtid.value.0])
      else Opened(s, e, gtid.value.0, true)
    else if t == XID || t == XA_PREPARE || t == TRANSACTION_PAYLOAD then Committed(s)
    else if t == QUERY && s.pending != "" then
      match TransactionQueryEffect(d.statement(payload), s.inTxn) {
        case Begins => s.(inTxn := true)
        case Commits => Committed(s)
        case Inside => s
      }
    else s
  }

  /** The bytes behind the 19 of the header, without the 4 of a checksum where events have one. */
  lemma PayloadIs(crc: bool, e: Event)
    requires |e.raw| >= 19
    ensures Type(e) == e.raw[4]
    ensures crc && e.raw[4] != 15 && |e.raw| >= 23 ==> Payload(crc, e) == e.raw[19..|e.raw| - 4]
    ensures !crc || e.raw[4] == 15 || |e.raw| < 23 ==> Payload(crc, e) == e.raw[19..]
  {
  }

  /** An event that neither opens nor ends a transaction, drops one, or lists earlier GTIDs. */
  ghost predicate Plain(code: byte) { code !in {2, 15, 16, 33, 34, 35, 38, 40, 42, 162, 163} }

  /** What changes of a scan by one event: which fields may differ, and by how much. */
  ghost predicate OnlyPending(s: Scan, t: Scan) {
    t.crc == s.crc && t.gtids == s.gtids && t.previous == s.previous
  }

  /** The transaction of the event is the pending one, from where the event begins. */
  ghost predicate NowPending(t: Scan, e: Event, gtid: string, inTxn: bool) {
    && t.pending == gtid && t.inTxn == inTxn && t.pendingOff == e.off
    && t.pendingStart == (if |e.raw| <= e.logPos then e.logPos - |e.raw| else 0)
  }

  /** A format description declares checksums; headers and lists add to the earlier sets; other events leave both. */
  lemma HeadersAre(d: Decoder, s: Scan, e: Event)
    requires |e.raw| >= 19
    ensures var c, code := Content(d, s, e), e.raw[4];
            && (code != 15 ==> c.crc == s.crc) && (code != 35 && code != 163 ==> c.previous == s.previous)
            && (code == 15 ==> c == s.(crc := d.checksums(e.raw[19..])))
            && (code == 35 ==>
                  var text := d.previousGtids(e.raw[19..], s.crc);
                  c == if text.Some? && Texts.TrimSpace(text.value) != "" then s.(previous := s.previous + [text.value])
                       else s)
            && (code == 163 ==>
                  var text := d.mariaList(Payload(s.crc, e));
                  c == if text.Some? && text.value != "" then s.(previous := s.previous + [text.value]) else s)
            && (Plain(code) ==> c == s)
  {
    hide TransactionQueryEffect;
    hide Payload;
  }

  /** Which events open a transaction, and which drop the pending one unstored. */
  lemma OpeningIs(d: Decoder, s: Scan, e: Event)
    requires |e.raw| >= 19
    ensures var c, code, payload := Content(d, s, e), e.raw[4], Payload(s.crc, e);
            && (code == 34 ==> OnlyPending(s, c) && c.pending == "" && !c.inTxn)
            && (code == 33 || code == 42 ==>
                  && OnlyPending(s, c)
                  && match d.gtid(code, payload)
                     case Some(gtid) => NowPending(c, e, gtid, false)
                     case None => c.pending == "")
            && (code == 162 ==>
                  match d.mariaGtid(e.raw[..19], payload)
                  case Some((gtid, true)) =>
                    c.pending == "" && c.gtids == s.gtids + [gtid] && c.crc == s.crc && c.previous == s.previous
                  case Some((gtid, false)) => OnlyPending(s, c) && NowPending(c, e, gtid, true)
                  case None => OnlyPending(s, c) && c.pending == "")
  {
    hide TransactionQueryEffect;
    hide Payload;
  }

  /** The pending transaction, if there is one, is stored, and none is pending. */
  ghost predicate Stores(s: Scan, t: Scan) {
    && t.pending == "" && !t.inTxn && t.crc == s.crc && t.previous == s.previous
    && t.gtids == if s.pending == "" then s.gtids else s.gtids + [s.pending]
  }

  /** Which events end the pending transaction, and what a statement does to it. */
  lemma EndingIs(d: Decoder, s: Scan, e: Event)
    requires |e.raw| >= 19
    ensures var c, code, text := Content(d, s, e), e.raw[4], Texts.TrimSpace(d.statement(Payload(s.crc, e)));
            && (code == 16 || code == 38 || code == 40 ==> Stores(s, c))
            && (code == 2 && s.pending == "" ==> c == s)
            && (code == 2 && s.pending != "" && EndsTransaction(text, s.inTxn) ==> Stores(s, c))
            && (code == 2 && s.pending != "" && !EndsTransaction(text, s.inTxn) ==>
                  c == s.(inTxn := s.inTxn || StartsTransaction(text)))
  {
    hide TransactionQueryEffect;
    hide StartsTransaction;
    hide EndsTransaction;
    hide Payload;
    EffectIs(d.statement(Payload(s.crc, e)), s.inTxn);
  }

  /** The position bookkeeping after an event; an artificial event (end log_pos 0) moves nothing. */
  function Position(s: Scan, e: Event): Scan {
    if e.logPos == 0 then s
    else
      var moved := s.(lastPos := e.logPos, found := true);
      if s.pending == "" then moved.(cutOff := e.End(), cutPos := e.logPos) else moved
  }

  function Step(d: Decoder, s: Scan, e: Event): Scan { Position(Content(d, s, e), e) }

  function Fold(d: Decoder, s: Scan, evs: seq<Event>): Scan {
    if evs == [] then s else Step(d, Fold(d, s, evs[..|evs|-1]), evs[|evs|-1])
  }

  datatype OpenTail = OpenTail(pos: nat, gtids: seq<string>, previous: seq<string>,
                               truncate: bool, cutOffset: nat, partialGtid: string, partialInTxn: bool)

  predicate Cuts(s: Scan) { s.pending != "" && s.cutPos != 0 && s.cutOff == s.pendingOff && s.cutPos == s.pendingStart }

  function Finish(s: Scan): Option<OpenTail> {
    if !s.found then None
    else Some(OpenTail(if Cuts(s) then s.cutPos else s.lastPos, s.gtids, s.previous,
                       Cuts(s), if Cuts(s) then s.cutOff else 0,
                       s.pending, s.pending != "" && s.inTxn))
  }

  function ScanOf(d: Decoder, f: seq<byte>): Option<OpenTail> {
    if HasMagic(f) then Finish(Fold(d, START, Walk(f, 4))) else None
  }

  /** What the tail reports of the scan. */
  lemma TailIs(d: Decoder, f: seq<byte>)
    requires ScanOf(d, f).Some?
    ensures var s, t := Fold(d, START, Walk(f, 4)), ScanOf(d, f).value;
            && t.gtids == s.gtids && t.previous == s.previous && t.partialGtid == s.pending
            && (t.partialInTxn <==> s.pending != "" && s.inTxn)
            && (t.truncate ==> t.pos == s.cutPos && t.cutOffset == s.cutOff)
            && (!t.truncate ==> t.pos == s.lastPos && t.cutOffset == 0)
  {
    hide Fold;
  }

  lemma {:induction false} FoldConcat(d: Decoder, s: Scan, a: seq<Event>, b: seq<Event>)
    ensures Fold(d, s, a + b) == Fold(d, Fold(d, s, a), b)
    decreases |b|
  {
    hide Step;
    if b == [] {
      assert a + b == a;
    } else {
      assert (a + b)[..|a + b|-1] == a + b[..|b|-1];
      FoldConcat(d, s, a, b[..|b|-1]);
    }
  }

  lemma FoldOne(d: Decoder, s: Scan, e: Event, rest: seq<Event>)
    ensures Fold(d, s, [e] + rest) == Fold(d, Step(d, s, e), rest)
  {
    hide Step;
    FoldConcat(d, s, [e], rest);
    assert [e][..0] == [];
  }

  lemma FoldNothing(d: Decoder, s: Scan)
    ensures Fold(d, s, []) == s
  {
  }

  method ScanOpenTail(d: Decoder, f: seq<byte>) returns (r: Option<OpenTail>)
    ensures r == ScanOf(d, f)
  {
    hide Content;
    hide U32;
    hide Fold;
    if |f| < 4 || f[..4] != MAGIC {
      return None;
    }
    var offset := 4;
    var s := START;
    while offset + HEADER <= |f|
      invariant 4 <= offset <= |f|
      invariant Fold(d, START, Walk(f, 4)) == Fold(d, s, Walk(f, offset))
    {
      var eventSize := U32(f, offset + 9);
      var logPos := U32(f, offset + 13);
      if eventSize < HEADER || offset + eventSize > |f| {
        break;
      }
      var e := Event(offset, logPos, f[offset..offset + eventSize]);
      FoldOne(d, s, e, Walk(f, offset + eventSize));
      offset := offset + eventSize;
      s := Content(d, s, e);
      if logPos == 0 {
        continue;
      }
      s := s.(lastPos := logPos, found := true);
      if s.pending == "" {
        s := s.(cutOff := offset, cutPos := logPos);
      }
    }
    assert Fold(d, s, []) == s by { FoldNothing(d, s); }
    if !s.found {
      return None;
    }
    var out := OpenTail(s.lastPos, s.gtids, s.previous, false, 0, "", false);
    if s.pending != "" {
      out := out.(partialGtid := s.pending, partialInTxn := s.inTxn);
      if s.cutPos != 0 && s.cutOff == s.pendingOff && s.cutPos == s.pendingStart {
        out := out.(truncate := true, cutOffset := s.cutOff, pos := s.cutPos);
      }
    }
    r := Some(out);
  }

  // ---- Without a cut the scan ends at the resume cursor --------------------------

  lemma {:induction false} FoldLastPos(d: Decoder, s: Scan, evs: seq<Event>)
    ensures var last := LastReal(evs);
            Fold(d, s, evs).found == (s.found || last.Some?) &&
            Fold(d, s, evs).lastPos == if last.Some? then last.value.logPos else s.lastPos
    decreases evs
  {
    hide Content;
    if evs == [] {
    } else {
      ContentKeepsPosition(d, s, evs[0]);
      FoldOne(d, s, evs[0], evs[1..]);
      assert [evs[0]] + evs[1..] == evs;
      FoldLastPos(d, Step(d, s, evs[0]), evs[1..]);
    }
  }

  lemma ContentKeepsPosition(d: Decoder, s: Scan, e: Event)
    ensures var c := Content(d, s, e);
            c.lastPos == s.lastPos && c.found == s.found && c.cutOff == s.cutOff && c.cutPos == s.cutPos
  {
    hide TransactionQueryEffect;
    hide Payload;
  }

  /** The scan answers exactly when the cursor does, and without a cut at the cursor's position. */
  lemma UncutTailIsCursor(d: Decoder, f: seq<byte>)
    ensures ScanOf(d, f).Some? <==> CursorOf(f).Some?
    ensures ScanOf(d, f).Some? && !ScanOf(d, f).value.truncate ==> ScanOf(d, f).value.pos == CursorOf(f).value.pos
  {
    hide Fold;
    if HasMagic(f) {
      FoldLastPos(d, START, Walk(f, 4));
    }
  }

  // ---- The cut -------------------------------------------------------------------

  /** Where an event begins in the source file; an end position too small for it gives 0. */
  function StartPos(e: Event): nat { if |e.raw| <= e.logPos then e.logPos - |e.raw| else 0 }

  /** Event `k` opened the transaction still pending after `evs`; nothing was committed or cut since. */
  ghost predicate OpenedBy(d: Decoder, evs: seq<Event>, k: nat) {
    && k < |evs| && Fold(d, START, evs).pendingOff == evs[k].off && Fold(d, START, evs).pendingStart == StartPos(evs[k])
    && var at, s := Fold(d, START, evs[..k]), Fold(d, START, evs);
       at.gtids == s.gtids && at.cutOff == s.cutOff && at.cutPos == s.cutPos
  }

  /** The pending transaction was opened by the event, or is the one pending before it. */
  ghost predicate OpensOrKeeps(s: Scan, e: Event, t: Scan) {
    || (t.pendingOff == e.off && t.pendingStart == StartPos(e))
    || (t.pending == s.pending && t.pendingOff == s.pendingOff && t.pendingStart == s.pendingStart)
  }

  lemma ContentOpensOrKeeps(d: Decoder, s: Scan, e: Event)
    ensures var t := Content(d, s, e);
            t.pending != "" ==>
              t.gtids == s.gtids && OpensOrKeeps(s, e, t)
  {
    hide TransactionQueryEffect;
    hide Payload;
  }

  /** A step opens a transaction here, leaves the pending one untouched, or leaves none pending. */
  lemma StepOpensOrKeeps(d: Decoder, s: Scan, e: Event)
    ensures var t := Step(d, s, e);
            t.pending != "" ==>
              && t.gtids == s.gtids && t.cutOff == s.cutOff && t.cutPos == s.cutPos
              && OpensOrKeeps(s, e, t)
  {
    hide Content;
    ContentOpensOrKeeps(d, s, e);
    ContentKeepsPosition(d, s, e);
  }

  lemma {:induction false} PendingWasOpened(d: Decoder, evs: seq<Event>) returns (k: nat)
    requires Fold(d, START, evs).pending != ""
    ensures OpenedBy(d, evs, k)
  {
    hide Step;
    var n := |evs| - 1;
    var before, e := evs[..n], evs[n];
    StepOpensOrKeeps(d, Fold(d, START, before), e);
    if Fold(d, START, evs).pendingOff == e.off && Fold(d, START, evs).pendingStart == StartPos(e) {
      k := n;
    } else {
      k := PendingWasOpened(d, before);
      assert before[..k] == evs[..k];
    }
  }

  /** A cut position recorded at the end of the last event means that nothing is pending there. */
  lemma {:induction false} CutIsBoundary(d: Decoder, f: seq<byte>, k: nat)
    requires k <= |Walk(f, 4)|
    ensures var s, end := Fold(d, START, Walk(f, 4)[..k]), if k == 0 then 4 else Walk(f, 4)[k-1].End();
            && s.cutOff <= end
            && (s.cutPos != 0 && s.cutOff == end ==> s.pending == "" && s.lastPos == s.cutPos && s.found)
            && (s.cutPos != 0 && s.cutOff == end ==> k > 0 && Walk(f, 4)[k-1].logPos == s.cutPos)
            && (k == 0 ==> s.cutPos == 0)
  {
    hide Walk;
    hide Content;
    if k > 0 {
      var evs := Walk(f, 4);
      CutIsBoundary(d, f, k - 1);
      WalkIsContiguous(f, 4, k - 1);
      WalkBound(f, 4, k - 1);
      assert evs[..k][..k-1] == evs[..k-1];
      ContentKeepsPosition(d, Fold(d, START, evs[..k-1]), evs[k-1]);
    }
  }

  /** A tail that says Truncate was cut at an event boundary where the scan had nothing pending. */
  lemma CutEvent(d: Decoder, f: seq<byte>) returns (k: nat)
    requires ScanOf(d, f).Some? && ScanOf(d, f).value.truncate
    ensures k < |Walk(f, 4)| && Walk(f, 4)[k].off == ScanOf(d, f).value.cutOffset && HasMagic(f)
    ensures var at, t := Fold(d, START, Walk(f, 4)[..k]), ScanOf(d, f).value;
            at.gtids == t.gtids && at.pending == "" && at.lastPos == t.pos && at.found
  {
    hide Walk;
    hide Step;
    var evs := Walk(f, 4);
    k := PendingWasOpened(d, evs);
    CutIsBoundary(d, f, k);
    WalkIsContiguous(f, 4, k);
  }

  /**
   A tail is cut exactly when the unfinished transaction begins right behind an
   event with an end position, where nothing was pending and where the source
   file goes on at that position.
   */
  lemma TruncatesIff(d: Decoder, f: seq<byte>)
    requires ScanOf(d, f).Some?
    ensures ScanOf(d, f).value.truncate <==>
              ScanOf(d, f).value.partialGtid != "" && exists k: nat :: CutBefore(d, Walk(f, 4), k)
  {
    hide Walk;
    hide Step;
    var evs := Walk(f, 4);
    if Fold(d, START, evs).pending != "" {
      var k := PendingWasOpened(d, evs);
      CutIsBoundary(d, f, k);
      WalkIsContiguous(f, 4, k);
      if ScanOf(d, f).value.truncate {
        assert CutBefore(d, evs, k);
      }
      if j: nat :| CutBefore(d, evs, j) {
        CutRecorded(d, evs, j);
        WalkIsContiguous(f, 4, j);
        WalkBound(f, 4, j - 1);
      }
    }
  }

  ghost predicate CutBefore(d: Decoder, evs: seq<Event>, k: nat) {
    && 0 < k < |evs| && OpenedBy(d, evs, k) && Fold(d, START, evs[..k]).pending == ""
    && evs[k-1].logPos != 0 && evs[k-1].logPos == StartPos(evs[k])
  }

  lemma CutRecorded(d: Decoder, evs: seq<Event>, k: nat)
    requires CutBefore(d, evs, k)
    ensures var s := Fold(d, START, evs); s.cutOff == evs[k-1].End() && s.cutPos == evs[k-1].logPos
  {
    hide Content;
    assert evs[..k][..k-1] == evs[..k-1];
  }

  /** Rescanning the bytes before the cut finds the same transactions and position, and none unfinished. */
  lemma RescanAfterCut(d: Decoder, f: seq<byte>)
    requires ScanOf(d, f).Some? && ScanOf(d, f).value.truncate
    ensures var t := ScanOf(d, f).value;
            4 <= t.cutOffset <= |f| && WalkEnd(f[..t.cutOffset], 4) == t.cutOffset && HasMagic(f[..t.cutOffset]) &&
            var again := ScanOf(d, f[..t.cutOffset]);
            again.Some? && again.value.gtids == t.gtids && again.value.pos == t.pos
            && again.value.partialGtid == "" && !again.value.truncate
  {
    hide Walk;
    hide Fold;
    var k := CutEvent(d, f);
    WalkBound(f, 4, k);
    var cut := Walk(f, 4)[k].off;
    CutAtEvent(f, 4, k, cut);
    assert f[..cut][..4] == f[..4];
  }

  // ---- The transaction sent again ------------------------------------------------

  /** The first event of a transaction: it opens `gtid`, inside BEGIN already or not. */
  predicate Opens(d: Decoder, crc: bool, raw: seq<byte>, gtid: string, inTxn: bool) {
    var e := Event(0, 0, raw);
    var t, payload := Type(e), Payload(crc, e);
    && gtid != "" && |raw| >= HEADER
    && if t == MARIADB_GTID then inTxn && d.mariaGtid(raw[..HEADER], payload) == Some((gtid, false))
       else (t == GTID || t == GTID_TAGGED) && !inTxn && d.gtid(t, payload) == Some(gtid)
  }

  /** The trimmed statement of a query event. */
  function Statement(d: Decoder, crc: bool, raw: seq<byte>): string {
    Texts.TrimSpace(d.statement(Payload(crc, Event(0, 0, raw))))
  }

  /** An event inside a transaction: rows, or a statement that does not end it. */
  ghost predicate Continues(d: Decoder, crc: bool, raw: seq<byte>, inTxn: bool) {
    var e := Event(0, 0, raw);
    var t := Type(e);
    && t !in {FORMAT_DESCRIPTION, ANONYMOUS_GTID, GTID, GTID_TAGGED, MARIADB_GTID, XID, XA_PREPARE, TRANSACTION_PAYLOAD}
    && (t == QUERY ==> !EndsTransaction(Statement(d, crc, raw), inTxn))
  }

  ghost predicate Starts(d: Decoder, crc: bool, raw: seq<byte>, inTxn: bool) {
    Type(Event(0, 0, raw)) == QUERY && StartsTransaction(Statement(d, crc, raw))
  }

  ghost predicate Ends(d: Decoder, crc: bool, raw: seq<byte>, inTxn: bool) {
    var e := Event(0, 0, raw);
    || Type(e) in {XID, XA_PREPARE, TRANSACTION_PAYLOAD}
    || (Type(e) == QUERY && EndsTransaction(Statement(d, crc, raw), inTxn))
  }

  /** The rest of a transaction: events that continue it, then the one that ends it. */
  ghost predicate Runs(d: Decoder, crc: bool, raws: seq<seq<byte>>, inTxn: bool) {
    raws != [] &&
    if |raws| == 1 then Ends(d, crc, raws[0], inTxn)
    else Continues(d, crc, raws[0], inTxn) && Runs(d, crc, raws[1..], inTxn || Starts(d, crc, raws[0], inTxn))
  }

  ghost predicate Transaction(d: Decoder, crc: bool, raws: seq<seq<byte>>, gtid: string) {
    && (forall i :: 0 <= i < |raws| ==> WholeEvent(raws[i]))
    && raws != [] && exists inTxn :: Opens(d, crc, raws[0], gtid, inTxn) && Runs(d, crc, raws[1..], inTxn)
  }

  lemma PayloadOfRaw(crc: bool, e: Event)
    ensures Payload(crc, e) == Payload(crc, Event(0, 0, e.raw))
  {
  }

  lemma ContinuesContent(d: Decoder, s: Scan, e: Event)
    requires s.pending != "" && Continues(d, s.crc, e.raw, s.inTxn)
    ensures var t := Content(d, s, e);
            && t.gtids == s.gtids && t.pending == s.pending && t.crc == s.crc
            && t.inTxn == (s.inTxn || Starts(d, s.crc, e.raw, s.inTxn))
  {
    hide TransactionQueryEffect;
    hide StartsTransaction;
    hide EndsTransaction;
    hide Payload;
    hide Texts.TrimSpace;
    PayloadOfRaw(s.crc, e);
    if Type(e) == QUERY {
      EffectIs(d.statement(Payload(s.crc, e)), s.inTxn);
    }
  }

  lemma ContinuesStep(d: Decoder, s: Scan, e: Event)
    requires s.pending != "" && Continues(d, s.crc, e.raw, s.inTxn)
    ensures var t := Step(d, s, e);
            && t.gtids == s.gtids && t.pending == s.pending && t.crc == s.crc
            && t.inTxn == (s.inTxn || Starts(d, s.crc, e.raw, s.inTxn))
  {
    hide Content;
    hide Starts;
    ContinuesContent(d, s, e);
  }

  lemma EndsStep(d: Decoder, s: Scan, e: Event)
    requires s.pending != "" && Ends(d, s.crc, e.raw, s.inTxn)
    ensures var t := Step(d, s, e); t.gtids == s.gtids + [s.pending] && t.pending == "" && t.crc == s.crc
  {
    hide TransactionQueryEffect;
    hide EndsTransaction;
    hide Payload;
    hide Texts.TrimSpace;
    PayloadOfRaw(s.crc, e);
    if Type(e) == QUERY {
      EffectIs(d.statement(Payload(s.crc, e)), s.inTxn);
    }
  }

  lemma {:induction false} RunsFold(d: Decoder, s: Scan, raws: seq<seq<byte>>, off: nat)
    requires forall i :: 0 <= i < |raws| ==> WholeEvent(raws[i])
    requires s.pending != "" && Runs(d, s.crc, raws, s.inTxn)
    ensures var t := Fold(d, s, Placed(raws, off)); t.gtids == s.gtids + [s.pending] && t.pending == ""
    decreases |raws|
  {
    hide Step;
    hide U32;
    hide Continues;
    hide Ends;
    hide Starts;
    var e := Event(off, U32(raws[0], 13), raws[0]);
    FoldOne(d, s, e, Placed(raws[1..], off + |raws[0]|));
    if |raws| == 1 {
      EndsStep(d, s, e);
    } else {
      ContinuesStep(d, s, e);
      RunsFold(d, Step(d, s, e), raws[1..], off + |raws[0]|);
    }
  }

  lemma OpensStep(d: Decoder, s: Scan, e: Event, gtid: string, inTxn: bool)
    requires Opens(d, s.crc, e.raw, gtid, inTxn)
    ensures var t := Step(d, s, e); t.gtids == s.gtids && t.pending == gtid && t.inTxn == inTxn && t.crc == s.crc
  {
    assert Payload(s.crc, e) == Payload(s.crc, Event(0, 0, e.raw));
  }

  /** Reading a whole transaction adds its GTID once and leaves nothing pending. */
  lemma TransactionFold(d: Decoder, s: Scan, raws: seq<seq<byte>>, gtid: string, off: nat)
    requires Transaction(d, s.crc, raws, gtid)
    ensures var t := Fold(d, s, Placed(raws, off)); t.gtids == s.gtids + [gtid] && t.pending == ""
  {
    hide Step;
    hide U32;
    hide Opens;
    hide Runs;
    var inTxn :| Opens(d, s.crc, raws[0], gtid, inTxn) && Runs(d, s.crc, raws[1..], inTxn);
    var e := Event(off, U32(raws[0], 13), raws[0]);
    OpensStep(d, s, e, gtid, inTxn);
    assert gtid != "" by { OpensNames(d, s.crc, raws[0], gtid, inTxn); }
    FoldOne(d, s, e, Placed(raws[1..], off + |raws[0]|));
    RunsFold(d, Step(d, s, e), raws[1..], off + |raws[0]|);
  }

  lemma OpensNames(d: Decoder, crc: bool, raw: seq<byte>, gtid: string, inTxn: bool)
    requires Opens(d, crc, raw, gtid, inTxn)
    ensures gtid != ""
  {
  }

  /** The file after it was cut to `n` bytes. */
  function Kept(f: seq<byte>, n: nat): seq<byte> { if n <= |f| then f[..n] else f }

  /** Checksums as the events of a file declare them. */
  function CrcAfter(d: Decoder, f: seq<byte>): bool { Fold(d, START, Walk(f, 4)).crc }

  /**
   The whole point of the cut: after it, the unfinished transaction sent again
   from the start is stored exactly once, after the same transactions.
   */
  lemma ResentTransactionStoredOnce(d: Decoder, f: seq<byte>, raws: seq<seq<byte>>)
    requires ScanOf(d, f).Some? && ScanOf(d, f).value.truncate
    requires Transaction(d, CrcAfter(d, Kept(f, ScanOf(d, f).value.cutOffset)), raws, ScanOf(d, f).value.partialGtid)
    ensures var t := ScanOf(d, f).value;
            var resumed := ScanOf(d, Kept(f, t.cutOffset) + Join(raws));
            resumed.Some? && resumed.value.gtids == t.gtids + [t.partialGtid] && resumed.value.partialGtid == ""
                && !resumed.value.truncate
  {
    hide Walk;
    hide Fold;
    hide Runs;
    hide Opens;
    RescanAfterCut(d, f);
    var t := ScanOf(d, f).value;
    var g := Kept(f, t.cutOffset);
    var h := g + Join(raws);
    assert h[..4] == g[..4];
    AppendWhole(g, 4, raws);
    FoldConcat(d, START, Walk(g, 4), Placed(raws, |g|));
    TransactionFold(d, Fold(d, START, Walk(g, 4)), raws, t.partialGtid, |g|);
    FoldLastPos(d, Fold(d, START, Walk(g, 4)), Placed(raws, |g|));
  }
}
