/** Strings: order, decimal numbers, splitting and joining. */
module Texts {
  import opened Wrappers

  // ---- Order ---------------------------------------------------------------------

  predicate Less(a: string, b: string) {
    b != [] && (a == [] || a[0] < b[0] || (a[0] == b[0] && Less(a[1..], b[1..])))
  }

  lemma {:induction false} LessTotal(a: string, b: string)
    ensures a == b || Less(a, b) || Less(b, a)
    ensures !(Less(a, b) && Less(b, a)) && !Less(a, a)
  {
    if a != [] && b != [] {
      LessTotal(a[1..], b[1..]);
      assert a == [a[0]] + a[1..] && b == [b[0]] + b[1..];
    }
    if a == [] {
    } else {
      LessTotal(a[1..], a[1..]);
    }
  }

  /** The order is that of dictionaries: `a` is a proper beginning of `b`, or smaller where they first differ. */
  lemma {:induction false} LessIs(a: string, b: string)
    ensures Less(a, b) <==> exists i: nat :: FirstLess(a, b, i)
  {
    if b == [] {
    } else if a == [] {
      assert FirstLess(a, b, 0);
    } else if a[0] != b[0] {
      if a[0] < b[0] {
        assert FirstLess(a, b, 0);
      }
    } else {
      LessIs(a[1..], b[1..]);
      if Less(a, b) {
        var i: nat :| FirstLess(a[1..], b[1..], i);
        assert FirstLess(a, b, i + 1);
      }
      if i: nat :| FirstLess(a, b, i) {
        assert FirstLess(a[1..], b[1..], i - 1);
      }
    }
  }

  ghost predicate FirstLess(a: string, b: string, i: nat) {
    && i <= |a| && i < |b| && (forall k :: 0 <= k < i ==> a[k] == b[k])
    && (i == |a| || a[i] < b[i])
  }

  lemma {:induction false} LessTransitive(a: string, b: string, c: string)
    requires Less(a, b) && Less(b, c)
    ensures Less(a, c)
  {
    if a != [] && a[0] == b[0] == c[0] {
      LessTransitive(a[1..], b[1..], c[1..]);
    }
  }

  // ---- Decimal numbers -----------------------------------------------------------

  predicate IsDigit(c: char) { '0' <= c <= '9' }

  predicate AllDigits(s: string) { forall i :: 0 <= i < |s| ==> IsDigit(s[i]) }

  function Digit(d: nat): char
    requires d < 10
  {
    (48 + d) as char
  }

  function Dec(n: nat): string {
    if n < 10 then [Digit(n)] else Dec(n / 10) + [Digit(n % 10)]
  }

  function Value(s: string): nat
    requires AllDigits(s)
  {
    if s == [] then 0 else 10 * Value(s[..|s|-1]) + (s[|s|-1] as int - 48)
  }

  /** An unsigned decimal number no larger than `max`. */
  function ParseUint(s: string, max: nat): Option<nat> {
    if s != [] && AllDigits(s) && Value(s) <= max then Some(Value(s)) else None
  }

  lemma {:induction false} DecValue(n: nat)
    ensures Dec(n) != [] && AllDigits(Dec(n)) && Value(Dec(n)) == n
  {
    if n >= 10 {
      DecValue(n / 10);
      var a, s := Dec(n / 10), Dec(n);
      assert s[..|s|-1] == a && s[|s|-1] == Digit(n % 10);
    } else {
      var s := Dec(n);
      assert s[..|s|-1] == [];
    }
  }

  lemma DecParses(n: nat, max: nat)
    requires n <= max
    ensures ParseUint(Dec(n), max) == Some(n)
  {
    DecValue(n);
  }

  // ---- Split and join ------------------------------------------------------------

  function Split(s: string, c: char): (parts: seq<string>)
    ensures parts != []
  {
    if s == [] then [[]]
    else
      var rest := Split(s[1..], c);
      if s[0] == c then [[]] + rest else [[s[0]] + rest[0]] + rest[1..]
  }

  function Join(parts: seq<string>, c: char): string {
    if parts == [] then []
    else if |parts| == 1 then parts[0]
    else parts[0] + [c] + Join(parts[1..], c)
  }

  lemma {:induction false} SplitWhole(s: string, c: char)
    requires c !in s
    ensures Split(s, c) == [s]
  {
    if s == [] {
    } else {
      SplitWhole(s[1..], c);
      assert [s[0]] + s[1..] == s;
    }
  }

  lemma {:induction false} SplitFirst(a: string, b: string, c: char)
    requires c !in a
    ensures Split(a + [c] + b, c) == [a] + Split(b, c)
  {
    var s := a + [c] + b;
    if a == [] {
      assert s[1..] == b;
    } else {
      assert s[1..] == a[1..] + [c] + b;
      SplitFirst(a[1..], b, c);
      assert [a[0]] + a[1..] == a;
    }
  }

  lemma {:induction false} SplitJoin(parts: seq<string>, c: char)
    requires parts != [] && forall i :: 0 <= i < |parts| ==> c !in parts[i]
    ensures Split(Join(parts, c), c) == parts
  {
    assert c !in parts[0];
    if |parts| == 1 {
      SplitWhole(parts[0], c);
    } else {
      SplitJoin(parts[1..], c);
      SplitFirst(parts[0], Join(parts[1..], c), c);
      assert [parts[0]] + parts[1..] == parts;
    }
  }

  /** Splitting is undone by joining, and no part holds the separator. */
  lemma {:induction false} JoinSplit(s: string, c: char)
    ensures Split(s, c) != [] && Join(Split(s, c), c) == s
    ensures forall i :: 0 <= i < |Split(s, c)| ==> c !in Split(s, c)[i]
  {
    if s == [] {
    } else {
      var rest := Split(s[1..], c);
      JoinSplit(s[1..], c);
      if s[0] == c {
        assert Join([""] + rest, c) == "" + [c] + Join(rest, c) by { assert ([""] + rest)[1..] == rest; }
      } else {
        var parts := Split(s, c);
        assert parts[1..] == rest[1..] && parts[0] == [s[0]] + rest[0];
        assert [s[0]] + Join(rest, c) == s;
      }
    }
  }

  function Count(s: string, c: char): nat {
    if s == [] then 0 else (if s[0] == c then 1 else 0) + Count(s[1..], c)
  }

  lemma {:induction false} SplitCount(s: string, c: char)
    ensures |Split(s, c)| == 1 + Count(s, c)
  {
    if s == [] {
    } else {
      SplitCount(s[1..], c);
    }
  }

  lemma {:induction false} CountConcat(a: string, b: string, c: char)
    ensures Count(a + b, c) == Count(a, c) + Count(b, c)
  {
    if a == [] {
      assert a + b == b;
    } else {
      assert (a + b)[1..] == a[1..] + b;
      CountConcat(a[1..], b, c);
    }
  }

  lemma {:induction false} CountNone(s: string, c: char)
    requires c !in s
    ensures Count(s, c) == 0
  {
    if s == [] {
    } else {
      CountNone(s[1..], c);
    }
  }

  /** The text before the first `c` and the text after it. */
  function CutAt(s: string, c: char): Option<(string, string)> {
    if s == [] then None
    else if s[0] == c then Some(([], s[1..]))
    else
      var rest := CutAt(s[1..], c);
      if rest.None? then None else Some(([s[0]] + rest.value.0, rest.value.1))
  }

  lemma {:induction false} CutIs(s: string, c: char)
    ensures CutAt(s, c).None? <==> c !in s
    ensures CutAt(s, c).Some? ==> c !in CutAt(s, c).value.0 && s == CutAt(s, c).value.0 + [c] + CutAt(s, c).value.1
  {
    if s == [] {
    } else {
      CutIs(s[1..], c);
      assert s == [s[0]] + s[1..];
    }
  }

  lemma {:induction false} CutFirst(a: string, b: string, c: char)
    requires c !in a
    ensures CutAt(a + [c] + b, c) == Some((a, b))
  {
    var s := a + [c] + b;
    if a == [] {
      assert s[1..] == b;
    } else {
      assert s[1..] == a[1..] + [c] + b;
      CutFirst(a[1..], b, c);
      assert [a[0]] + a[1..] == a;
    }
  }

  lemma {:induction false} CutNone(s: string, c: char)
    requires c !in s
    ensures CutAt(s, c) == None
  {
    if s == [] {
    } else {
      CutNone(s[1..], c);
    }
  }

  // ---- Blanks and case -----------------------------------------------------------

  /** unicode.IsSpace */
  predicate IsSpace(c: char) {
    || c == ' ' || '\t' <= c <= '\r' || c == '\U{0085}' || c == '\U{00A0}' || c == '\U{1680}'
          || '\U{2000}' <= c <= '\U{200a}'
    || c == '\U{2028}' || c == '\U{2029}' || c == '\U{202f}' || c == '\U{205f}' || c == '\U{3000}'
  }

  function TrimLeft(s: string): string {
    if s != [] && IsSpace(s[0]) then TrimLeft(s[1..]) else s
  }

  function TrimRight(s: string): string {
    if s != [] && IsSpace(s[|s|-1]) then TrimRight(s[..|s|-1]) else s
  }

  function TrimSpace(s: string): string { TrimRight(TrimLeft(s)) }

  ghost predicate AllSpace(s: string) { forall i :: 0 <= i < |s| ==> IsSpace(s[i]) }

  /** Trimming takes blanks off both ends, and all of them. */
  lemma TrimIs(s: string) returns (a: string, b: string)
    ensures s == a + TrimSpace(s) + b && AllSpace(a) && AllSpace(b)
    ensures var t := TrimSpace(s); t != "" ==> !IsSpace(t[0]) && !IsSpace(t[|t|-1])
  {
    a := TrimLeftIs(s);
    b := TrimRightIs(TrimLeft(s));
    var t := TrimSpace(s);
    if t != "" {
      assert TrimLeft(s)[0] == t[0];
    }
  }

  lemma {:induction false} TrimLeftIs(s: string) returns (a: string)
    ensures s == a + TrimLeft(s) && AllSpace(a) && (TrimLeft(s) != "" ==> !IsSpace(TrimLeft(s)[0]))
  {
    if s == [] || !IsSpace(s[0]) {
      a := [];
    } else {
      a := TrimLeftIs(s[1..]);
      a := [s[0]] + a;
    }
  }

  lemma {:induction false} TrimRightIs(s: string) returns (b: string)
    ensures s == TrimRight(s) + b && AllSpace(b)
    ensures var t := TrimRight(s); t != "" ==> !IsSpace(t[|t|-1])
  {
    if s == [] || !IsSpace(s[|s|-1]) {
      b := [];
    } else {
      b := TrimRightIs(s[..|s|-1]);
      b := b + [s[|s|-1]];
    }
  }

  function RemoveBlanks(s: string): string {
    if s == [] then [] else (if IsSpace(s[0]) then [] else [s[0]]) + RemoveBlanks(s[1..])
  }

  lemma {:induction false} NoBlanks(s: string)
    requires forall i :: 0 <= i < |s| ==> !IsSpace(s[i])
    ensures RemoveBlanks(s) == s && TrimSpace(s) == s
  {
    if s == [] {
    } else {
      NoBlanks(s[1..]);
      assert [s[0]] + s[1..] == s;
    }
  }

  /** No comma and no blank. */
  predicate Solid(s: string) {
    forall i :: 0 <= i < |s| ==> s[i] != ',' && !IsSpace(s[i])
  }

  lemma SolidTrims(s: string)
    requires Solid(s)
    ensures TrimSpace(s) == s && ',' !in s
  {
    NoBlanks(s);
  }

  lemma DecPlain(n: nat)
    ensures Dec(n) != [] && IsDigit(Dec(n)[0]) && Solid(Dec(n)) && ':' !in Dec(n) && '-' !in Dec(n)
  {
    DecValue(n);
  }

  function LowerChar(c: char): char { if 'A' <= c <= 'Z' then (c as int + 32) as char else c }

  function UpperChar(c: char): char { if 'a' <= c <= 'z' then (c as int - 32) as char else c }

  function Lower(s: string): (r: string)
    ensures |r| == |s| && forall i :: 0 <= i < |s| ==> r[i] == LowerChar(s[i])
  {
    seq(|s|, i requires 0 <= i < |s| => LowerChar(s[i]))
  }

  function Upper(s: string): string {
    seq(|s|, i requires 0 <= i < |s| => UpperChar(s[i]))
  }

  // ---- UUIDs ---------------------------------------------------------------------

  predicate IsHex(c: char) { IsDigit(c) || 'a' <= c <= 'f' || 'A' <= c <= 'F' }

  predicate IsUuid(s: string) {
    |s| == 36 && forall i :: 0 <= i < 36 ==>
        if i == 8 || i == 13 || i == 18 || i == 23 then s[i] == '-' else IsHex(s[i])
  }

  /** 32 hexadecimal digits in groups of 8, 4, 4, 4 and 12. */
  ghost predicate UuidText(s: string) {
    && |s| == 36 && s[8] == '-' && s[13] == '-' && s[18] == '-' && s[23] == '-'
    && forall i :: 0 <= i < 36 && i != 8 && i != 13 && i != 18 && i != 23 ==>
         '0' <= s[i] <= '9' || 'a' <= s[i] <= 'f' || 'A' <= s[i] <= 'F'
  }

  lemma UuidIs(s: string)
    ensures IsUuid(s) <==> UuidText(s)
  {
  }

  lemma LowerUuid(s: string)
    requires IsUuid(s)
    ensures IsUuid(Lower(s)) && Lower(Lower(s)) == Lower(s)
  {
  }

  lemma UuidDashes(s: string)
    requires IsUuid(s)
    ensures |Split(s, '-')| == 5 && ':' !in s && ',' !in s
    ensures forall i :: 0 <= i < |s| ==> !IsSpace(s[i])
  {
    SplitCount(s, '-');
    DashGroup(s, 0, 8);
    DashGroup(s, 9, 13);
    DashGroup(s, 14, 18);
    DashGroup(s, 19, 23);
    CountNone(s[24..], '-');
    assert s[0..] == s;
  }

  lemma DashGroup(s: string, i: nat, j: nat)
    requires i <= j < |s| && s[j] == '-' && '-' !in s[i..j]
    ensures Count(s[i..], '-') == 1 + Count(s[j+1..], '-')
  {
    assert s[i..] == s[i..j] + s[j..];
    CountConcat(s[i..j], s[j..], '-');
    CountNone(s[i..j], '-');
  }
}
