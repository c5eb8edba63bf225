/** Sorted, merged lists of closed intervals of 64-bit sequence numbers. */
module Intervals {
  datatype Range = Range(lo: int, hi: int)

  const MAX64: int := 0x7fff_ffff_ffff_ffff
  const MIN64: int := -0x8000_0000_0000_0000

  /** Adding one in 64 bits: the largest number wraps to the smallest. */
  function Inc(x: int): int { if x == MAX64 then MIN64 else x + 1 }

  ghost predicate In(l: seq<Range>, x: int) {
    exists i :: 0 <= i < |l| && l[i].lo <= x <= l[i].hi
  }

  /** Positive, non-empty intervals in order, with a gap between neighbours. */
  predicate Apart(l: seq<Range>) {
    && (forall i :: 0 <= i < |l| ==> 1 <= l[i].lo <= l[i].hi)
    && (forall i, j :: 0 <= i < j < |l| ==> l[i].hi + 1 < l[j].lo)
  }

  predicate Canonical(l: seq<Range>) {
    Apart(l) && forall i :: 0 <= i < |l| ==> l[i].hi <= MAX64
  }

  function Last(l: seq<Range>): Range
    requires l != []
  {
    l[|l|-1]
  }

  lemma InPush(l: seq<Range>, r: Range, x: int)
    ensures In(l + [r], x) <==> In(l, x) || r.lo <= x <= r.hi
  {
    assert (l + [r])[|l|] == r;
    assert forall i :: 0 <= i < |l| ==> (l + [r])[i] == l[i];
  }

  lemma InTail(l: seq<Range>, x: int)
    requires l != [] && Apart(l)
    ensures In(l[1..], x) <==> In(l, x) && l[0].hi < x
  {
    assert forall i :: 0 < i < |l| ==> l[1..][i-1] == l[i];
    if In(l[1..], x) {
      var i :| 0 <= i < |l[1..]| && l[1..][i].lo <= x <= l[1..][i].hi;
      assert l[i+1].lo <= x <= l[i+1].hi;
    }
    if In(l, x) && l[0].hi < x {
      var i :| 0 <= i < |l| && l[i].lo <= x <= l[i].hi;
      assert l[1..][i-1] == l[i];
    }
  }

  /** A set of numbers has one such list. */
  lemma {:induction false} ApartIsUnique(a: seq<Range>, b: seq<Range>)
    requires Apart(a) && Apart(b)
    requires forall x :: In(a, x) <==> In(b, x)
    ensures a == b
  {
    if a == [] || b == [] {
      assert a != [] ==> In(a, a[0].lo);
      assert b != [] ==> In(b, b[0].lo);
    } else {
      HeadsAgree(a, b);
      HeadsAgree(b, a);
      assert a[0] == b[0];
      forall x ensures In(a[1..], x) <==> In(b[1..], x) {
        InTail(a, x);
        InTail(b, x);
      }
      ApartIsUnique(a[1..], b[1..]);
      assert a == [a[0]] + a[1..] && b == [b[0]] + b[1..];
    }
  }

  lemma HeadsAgree(a: seq<Range>, b: seq<Range>)
    requires Apart(a) && Apart(b) && a != [] && b != []
    requires forall x :: In(a, x) <==> In(b, x)
    ensures b[0].lo <= a[0].lo
    ensures a[0].lo == b[0].lo ==> a[0].hi <= b[0].hi
  {
    assert In(a, a[0].lo);
    var i :| 0 <= i < |b| && b[i].lo <= a[0].lo <= b[i].hi;
    var x := b[0].hi + 1;
    assert a[0].lo <= x <= a[0].hi ==> In(a, x);
  }

  // ---- Adding an interval --------------------------------------------------------

  predicate SortedByLo(l: seq<Range>) {
    forall i, j :: 0 <= i < j < |l| ==> l[i].lo <= l[j].lo
  }

  /** A sorted list with one more interval, sorted again. */
  function InsertByLo(l: seq<Range>, r: Range): seq<Range> {
    if l == [] || r.lo <= l[0].lo then [r] + l else [l[0]] + InsertByLo(l[1..], r)
  }

  function SortByLo(l: seq<Range>): seq<Range> {
    if l == [] then [] else InsertByLo(SortByLo(l[..|l|-1]), l[|l|-1])
  }

  predicate Valid(l: seq<Range>) {
    forall i :: 0 <= i < |l| ==> 1 <= l[i].lo <= l[i].hi <= MAX64
  }

  lemma {:induction false} InsertByLoIsSorted(l: seq<Range>, r: Range)
    requires SortedByLo(l)
    ensures var s := InsertByLo(l, r);
            SortedByLo(s) && |s| == |l| + 1 && s[0].lo == if l != [] && l[0].lo < r.lo then l[0].lo else r.lo
  {
    if l != [] && l[0].lo < r.lo {
      InsertByLoIsSorted(l[1..], r);
    }
  }

  lemma {:induction false} InsertByLoIsValid(l: seq<Range>, r: Range)
    requires Valid(l) && 1 <= r.lo <= r.hi <= MAX64
    ensures Valid(InsertByLo(l, r))
  {
    if l != [] && l[0].lo < r.lo {
      InsertByLoIsValid(l[1..], r);
    }
  }

  lemma {:induction false} SortByLoSorts(l: seq<Range>)
    requires Valid(l)
    ensures SortedByLo(SortByLo(l)) && Valid(SortByLo(l)) && |SortByLo(l)| == |l|
    ensures forall x :: In(SortByLo(l), x) <==> In(l, x)
  {
    if l == [] {
      return;
    }
    var before, r := l[..|l|-1], l[|l|-1];
    SortByLoSorts(before);
    InsertByLoIsSorted(SortByLo(before), r);
    InsertByLoIsValid(SortByLo(before), r);
    assert before + [r] == l;
    forall x ensures In(SortByLo(l), x) <==> In(l, x) {
      InInsert(SortByLo(before), r, x);
      InPush(before, r, x);
    }
  }

  /** Sorting a separated list changes nothing. */
  lemma {:induction false} SortByLoKeeps(l: seq<Range>)
    requires Apart(l)
    ensures SortByLo(l) == l
  {
    if l == [] {
      return;
    }
    var before, r := l[..|l|-1], l[|l|-1];
    SortByLoKeeps(before);
    forall i | 0 <= i < |before| ensures before[i].lo < r.lo {
      assert l[i].hi + 1 < l[|l|-1].lo;
    }
    InsertAtEnd(before, r);
    assert before + [r] == l;
  }

  lemma {:induction false} InsertAtEnd(l: seq<Range>, r: Range)
    requires forall i :: 0 <= i < |l| ==> l[i].lo < r.lo
    ensures InsertByLo(l, r) == l + [r]
  {
    if l == [] {
      return;
    }
    InsertAtEnd(l[1..], r);
    assert l == [l[0]] + l[1..];
  }

  /** An interval inserted before the last one: it decides whether all but the last stay below the maximum. */
  lemma {:induction false} InsertBelow(l: seq<Range>, r: Range)
    requires l != [] && SortedByLo(l) && r.lo < Last(l).lo && Below(l, |l|)
    ensures Below(InsertByLo(l, r), |l|) <==> r.hi < MAX64
  {
    var s := InsertByLo(l, r);
    if l[0].lo < r.lo {
      var rest := InsertByLo(l[1..], r);
      assert Last(l[1..]) == Last(l);
      assert forall i :: 0 <= i < |l| - 1 ==> l[1..][i] == l[i+1];
      InsertBelow(l[1..], r);
      assert s == [l[0]] + rest;
      assert forall i :: 0 <= i < |rest| ==> rest[i] == s[i+1];
    } else {
      assert s[0] == r;
    }
  }

  lemma {:induction false} InInsert(l: seq<Range>, r: Range, x: int)
    ensures In(InsertByLo(l, r), x) <==> In(l, x) || r.lo <= x <= r.hi
  {
    if l == [] || r.lo <= l[0].lo {
      InFront(r, l, x);
    } else {
      InInsert(l[1..], r, x);
      InFront(l[0], InsertByLo(l[1..], r), x);
      InFront(l[0], l[1..], x);
      assert l == [l[0]] + l[1..];
    }
  }

  lemma InFront(r: Range, l: seq<Range>, x: int)
    ensures In([r] + l, x) <==> In(l, x) || r.lo <= x <= r.hi
  {
    assert ([r] + l)[0] == r;
    assert forall i :: 0 <= i < |l| ==> ([r] + l)[i+1] == l[i];
    if In([r] + l, x) && !(r.lo <= x <= r.hi) {
      var i :| 0 <= i < |[r] + l| && ([r] + l)[i].lo <= x <= ([r] + l)[i].hi;
      assert l[i-1].lo <= x <= l[i-1].hi;
    }
  }

  /** No interval before the first `n` reaches the largest number. */
  predicate Below(l: seq<Range>, n: int) {
    forall i :: 0 <= i < n && i < |l| ==> l[i].hi < MAX64
  }

  /** One step of the merge: the next interval joins the last one or follows it; a 64-bit wrap keeps it apart. */
  method MergeNext(merged: seq<Range>, iv: Range) returns (r: seq<Range>)
    requires Valid(merged) && 1 <= iv.lo <= iv.hi <= MAX64 && (merged != [] ==> Last(merged).lo <= iv.lo)
    ensures Valid(r) && r != [] && Last(r).lo <= iv.lo
    ensures forall x :: In(r, x) <==> In(merged, x) || iv.lo <= x <= iv.hi
    ensures Canonical(r) <==> Canonical(merged) && (merged == [] || Last(merged).hi < MAX64)
    ensures Last(r).hi == if merged != [] && iv.hi < Last(merged).hi < MAX64 then Last(merged).hi else iv.hi
  {
    var n := |merged|;
    if n > 0 && iv.lo <= Inc(merged[n-1].hi) {
      WidenLast(merged, iv);
      r := merged;
      if iv.hi > merged[n-1].hi {
        r := merged[n-1 := Range(merged[n-1].lo, iv.hi)];
      }
      return;
    }
    PushCanonical(merged, iv);
    forall x ensures In(merged + [iv], x) <==> In(merged, x) || iv.lo <= x <= iv.hi { InPush(merged, iv, x); }
    r := merged + [iv];
  }

  /** Overlapping and adjacent neighbours of a sorted list become one. */
  method Merge(list: seq<Range>) returns (merged: seq<Range>)
    requires SortedByLo(list) && Valid(list)
    ensures Valid(merged) && forall x :: In(merged, x) <==> In(list, x)
    ensures Canonical(merged) <==> Below(list, |list| - 1)
  {
    hide Canonical;
    hide Below;
    merged := [];
    MergedNothing(list);
    for i := 0 to |list|
      invariant Valid(merged) && (merged == [] <==> i == 0)
      invariant merged != [] ==> Last(merged).lo <= list[i-1].lo
      invariant forall x :: In(merged, x) <==> In(list[..i], x)
      invariant Canonical(merged) <==> Below(list, i - 1)
      invariant merged != [] && Below(list, i - 1) ==> (Last(merged).hi < MAX64 <==> Below(list, i))
    {
      BelowNext(list, i);
      InNext(list, i);
      merged := MergeNext(merged, list[i]);
    }
    assert list[..|list|] == list;
  }

  lemma MergedNothing(list: seq<Range>)
    ensures Canonical([]) && Below(list, -1) && Below(list, 0) && list[..0] == []
  {
  }

  lemma BelowNext(list: seq<Range>, i: nat)
    requires i < |list|
    ensures Below(list, i + 1) <==> Below(list, i) && list[i].hi < MAX64
    ensures Below(list, i) ==> Below(list, i - 1)
  {
  }

  lemma InNext(list: seq<Range>, i: nat)
    requires i < |list|
    ensures forall x :: In(list[..i+1], x) <==> In(list[..i], x) || list[i].lo <= x <= list[i].hi
  {
    assert list[..i+1] == list[..i] + [list[i]];
    forall x ensures In(list[..i+1], x) <==> In(list[..i], x) || list[i].lo <= x <= list[i].hi {
      InPush(list[..i], list[i], x);
    }
  }

  function Wider(l: seq<Range>, iv: Range): seq<Range>
    requires l != []
  {
    if iv.hi > Last(l).hi then l[|l|-1 := Range(Last(l).lo, iv.hi)] else l
  }

  /** Widening the last interval by one that starts inside it or right after it. */
  lemma WidenLast(l: seq<Range>, iv: Range)
    requires l != [] && Last(l).lo <= iv.lo <= Last(l).hi + 1 && iv.hi <= MAX64
    ensures forall x :: In(Wider(l, iv), x) <==> In(l, x) || iv.lo <= x <= iv.hi
    ensures Last(l).lo <= Last(l).hi ==> (Canonical(l) <==> Canonical(Wider(l, iv)))
  {
    var w, n := Wider(l, iv), |l| - 1;
    assert forall i :: 0 <= i < n ==> w[i] == l[i];
    forall x ensures In(w, x) <==> In(l, x) || iv.lo <= x <= iv.hi {
      if In(l, x) {
        var i :| 0 <= i < |l| && l[i].lo <= x <= l[i].hi;
        assert w[i].lo <= x <= w[i].hi;
      }
      if iv.lo <= x <= iv.hi {
        assert w[n].lo <= x <= w[n].hi;
      }
      if In(w, x) {
        var i :| 0 <= i < |w| && w[i].lo <= x <= w[i].hi;
        assert i < n ==> l[i].lo <= x <= l[i].hi;
        assert i == n && x <= l[n].hi ==> l[n].lo <= x <= l[n].hi;
      }
    }
  }

  lemma PushCanonical(l: seq<Range>, iv: Range)
    requires 1 <= iv.lo <= iv.hi <= MAX64
    ensures Canonical(l + [iv]) <==> Canonical(l) && (l == [] || Last(l).hi + 1 < iv.lo)
  {
    var p := l + [iv];
    assert forall i :: 0 <= i < |l| ==> p[i] == l[i];
    assert p[|l|] == iv;
    if Canonical(p) && l != [] {
      assert p[|l|-1].hi + 1 < p[|l|].lo;
    }
  }

  /** Exactly when adding lo..hi to a canonical list leaves a canonical list. */
  predicate NoWrap(list: seq<Range>, lo: int, hi: int) {
    list == [] || (Last(list).hi < MAX64 && (hi < MAX64 || Last(list).lo <= lo))
  }

  /** Any list of positive intervals takes any range; a canonical one stays so unless the increment wraps. */
  method AddRange(list: seq<Range>, lo: int, hi: int) returns (r: seq<Range>)
    requires Valid(list) && 1 <= lo <= hi <= MAX64
    ensures Valid(r) && r != [] && forall x :: In(r, x) <==> In(list, x) || lo <= x <= hi
    ensures Canonical(list) ==> (Canonical(r) <==> NoWrap(list, lo, hi))
  {
    var n, iv := |list|, Range(lo, hi);
    if n == 0 || lo > Inc(list[n-1].hi) {
      r := list + [iv];
      PushCanonical(list, iv);
      forall x ensures In(r, x) <==> In(list, x) || lo <= x <= hi { InPush(list, iv, x); }
      return;
    } else if lo >= list[n-1].lo {
      WidenLast(list, iv);
      r := list;
      if hi > list[n-1].hi {
        r := list[n-1 := Range(list[n-1].lo, hi)];
      }
      return;
    }
    var sorted := SortByLo(list + [iv]);
    Resorted(list, iv);
    if Canonical(list) {
      ResortedBelow(list, iv);
    }
    r := Merge(sorted);
    assert In(r, lo);
  }

  lemma Resorted(list: seq<Range>, iv: Range)
    requires Valid(list) && 1 <= iv.lo <= iv.hi <= MAX64
    ensures var sorted := SortByLo(list + [iv]);
            SortedByLo(sorted) && Valid(sorted) && |sorted| == |list| + 1
            && forall x :: In(sorted, x) <==> In(list, x) || iv.lo <= x <= iv.hi
  {
    hide In;
    hide SortByLo;
    SortByLoSorts(list + [iv]);
    forall x ensures In(SortByLo(list + [iv]), x) <==> In(list, x) || iv.lo <= x <= iv.hi { InPush(list, iv, x); }
  }

  lemma ResortedBelow(list: seq<Range>, iv: Range)
    requires Canonical(list) && list != [] && iv.lo <= Inc(Last(list).hi) && 1 <= iv.lo < Last(list).lo
    ensures Below(SortByLo(list + [iv]), |list|) <==> NoWrap(list, iv.lo, iv.hi)
  {
    SortByLoKeeps(list);
    assert (list + [iv])[..|list|] == list;
    assert forall i :: 0 <= i < |list| - 1 ==> list[i].hi + 1 < list[|list|-1].lo;
    InsertBelow(list, iv);
  }
}
