/**
 MySQL GTID sets: per source key the canonical intervals of its sequence
 numbers. Membership, `Mem`, is what a set means; every operation is stated
 by it. `Good` sets hold sequences below the 64-bit maximum (see
 `Intervals.NoWrap` for what happens at it).
 */
module GtidSets {
  import opened Intervals

  type Sets = map<string, seq<Range>>

  ghost predicate Mem(s: Sets, key: string, x: int) { key in s && In(s[key], x) }

  predicate Good(s: Sets) {
    forall k :: k in s ==> k != "" && s[k] != [] && Canonical(s[k]) && Last(s[k]).hi < MAX64
  }

  /** Positive intervals under named keys, in whatever order. */
  predicate Fair(s: Sets) {
    forall k :: k in s ==> k != "" && s[k] != [] && Valid(s[k])
  }

  /** Every list is in its one canonical form. */
  predicate AllCanonical(s: Sets) {
    forall k :: k in s ==> Canonical(s[k])
  }

  function ListOf(s: Sets, key: string): seq<Range> { if key in s then s[key] else [] }

  ghost predicate SameMembers(a: Sets, b: Sets) {
    forall k, x :: Mem(a, k, x) <==> Mem(b, k, x)
  }

  lemma GoodBounds(s: Sets, key: string, i: nat)
    requires Good(s) && key in s && i < |s[key]|
    ensures 1 <= s[key][i].lo <= s[key][i].hi < MAX64
  {
    assert i < |s[key]| - 1 ==> s[key][i].hi + 1 < s[key][|s[key]|-1].lo;
  }

  /** Equal meaning is equal representation. */
  lemma SameMembersSameSet(a: Sets, b: Sets)
    requires Good(a) && Good(b) && SameMembers(a, b)
    ensures a == b
  {
    forall k ensures k in a <==> k in b {
      assert k in a ==> Mem(a, k, a[k][0].lo);
      assert k in b ==> Mem(b, k, b[k][0].lo);
    }
    forall k | k in a ensures a[k] == b[k] {
      forall x ensures In(a[k], x) <==> In(b[k], x) {
        assert Mem(a, k, x) <==> Mem(b, k, x);
      }
      ApartIsUnique(a[k], b[k]);
    }
  }

  lemma EmptyIff(s: Sets)
    requires Fair(s)
    ensures s == map[] <==> forall k, x :: !Mem(s, k, x)
  {
    if s != map[] {
      var k :| k in s;
      assert Mem(s, k, s[k][0].lo);
    }
  }

  class GtidSet {
    var m: Sets

    constructor ()
      ensures m == map[]
    {
      m := map[];
    }

    method Add(key: string, lo: int, hi: int)
      requires Fair(m) && hi <= MAX64
      modifies this
      ensures Fair(m)
      ensures forall k, x :: Mem(m, k, x) <==> Mem(old(m), k, x) || (k == key != "" && 0 < lo <= x <= hi)
      ensures Good(old(m)) && hi < MAX64 ==> Good(m)
      ensures AllCanonical(old(m)) ==>
                (AllCanonical(m) <==> !(key != "" && 0 < lo <= hi) || NoWrap(ListOf(old(m), key), lo, hi))
    {
      if key == "" || lo <= 0 || hi < lo {
        return;
      }
      var list := ListOf(m, key);
      var added := AddRange(list, lo, hi);
      m := m[key := added];
      assert m[key] == added;
      if Good(old(m)) && hi < MAX64 {
        HighestOfUnion(list, added, lo, hi);
      }
    }

    method AddAll(o: Sets)
      requires Good(m) && Good(o)
      modifies this
      ensures Good(m)
      ensures forall k, x :: Mem(m, k, x) <==> Mem(old(m), k, x) || Mem(o, k, x)
    {
      var keys := o.Keys;
      while keys != {}
        invariant Good(m) && keys <= o.Keys
        invariant forall k, x :: Mem(m, k, x) <==> Mem(old(m), k, x) || (Mem(o, k, x) && k !in keys)
        decreases keys
      {
        var key :| key in keys;
        AddList(key, o[key]);
        keys := keys - {key};
      }
    }

    method AddList(key: string, list: seq<Range>)
      requires Good(m) && key != "" && Canonical(list) && (list == [] || Last(list).hi < MAX64)
      modifies this
      ensures Good(m)
      ensures forall k, x :: Mem(m, k, x) <==> Mem(old(m), k, x) || (k == key && In(list, x))
    {
      for i := 0 to |list|
        invariant Good(m)
        invariant forall k, x :: Mem(m, k, x) <==> Mem(old(m), k, x) || (k == key && In(list[..i], x))
      {
        assert list[..i+1] == list[..i] + [list[i]];
        forall x ensures In(list[..i+1], x) <==> In(list[..i], x) || list[i].lo <= x <= list[i].hi {
          InPush(list[..i], list[i], x);
        }
        assert list[i].hi < MAX64 by { assert i < |list| - 1 ==> list[i].hi + 1 < list[|list|-1].lo; }
        Add(key, list[i].lo, list[i].hi);
      }
      assert list[..|list|] == list;
    }

    /** Adds the part of lo..hi that `cut` does not hold. */
    method AddCut(key: string, iv: Range, cut: seq<Range>)
      requires Good(m) && key != "" && 1 <= iv.lo <= iv.hi < MAX64
      requires Canonical(cut) && (cut == [] || Last(cut).hi < MAX64)
      modifies this
      ensures Good(m)
      ensures forall k, x :: Mem(m, k, x) <==> Mem(old(m), k, x) || (k == key && iv.lo <= x <= iv.hi && !In(cut, x))
    {
      var lo, hi, j := iv.lo, iv.hi, 0;
      while j < |cut|
        invariant 0 <= j <= |cut| && iv.lo <= lo && Good(m)
        invariant forall i :: 0 <= i < j ==> cut[i].hi < lo || hi < cut[i].lo
        invariant forall k, x :: Mem(m, k, x) <==>
                  Mem(old(m), k, x) || (k == key && iv.lo <= x < lo && x <= hi && !In(cut, x))
      {
        var c := cut[j];
        j := j + 1;
        if c.hi < lo || c.lo > hi {
          continue;
        }
        FreeBefore(cut, j - 1, lo, hi);
        if c.lo > lo {
          Add(key, lo, c.lo - 1);
        }
        assert forall x :: c.lo <= x <= c.hi ==> In(cut, x);
        lo := c.hi + 1;
        if lo > hi {
          return;
        }
      }
      FreeBefore(cut, |cut|, lo, hi);
      if lo <= hi {
        Add(key, lo, hi);
      }
    }

    /** Adds the numbers of `list` that `cut` does not hold. */
    method AddLess(key: string, list: seq<Range>, cut: seq<Range>)
      requires Good(m) && key != "" && Canonical(list) && (list == [] || Last(list).hi < MAX64)
      requires Canonical(cut) && (cut == [] || Last(cut).hi < MAX64)
      modifies this
      ensures Good(m)
      ensures forall k, x :: Mem(m, k, x) <==> Mem(old(m), k, x) || (k == key && In(list, x) && !In(cut, x))
    {
      for i := 0 to |list|
        invariant Good(m)
        invariant forall k, x :: Mem(m, k, x) <==> Mem(old(m), k, x) || (k == key && In(list[..i], x) && !In(cut, x))
      {
        InNext(list, i);
        assert list[i].hi < MAX64 by { assert i < |list| - 1 ==> list[i].hi + 1 < list[|list|-1].lo; }
        AddCut(key, list[i], cut);
      }
      assert list[..|list|] == list;
    }

    method IsEmpty() returns (empty: bool)
      requires Fair(m)
      ensures empty <==> forall k, x :: !Mem(m, k, x)
    {
      empty := m == map[];
      EmptyIff(m);
    }
  }

  lemma HighestOfUnion(list: seq<Range>, added: seq<Range>, lo: int, hi: int)
    requires Canonical(list) && (list == [] || Last(list).hi < MAX64) && 1 <= lo <= hi < MAX64
    requires added != [] && Canonical(added) && forall x :: In(added, x) <==> In(list, x) || lo <= x <= hi
    ensures Last(added).hi < MAX64
  {
    assert In(added, Last(added).hi);
    if In(list, Last(added).hi) {
      var i :| 0 <= i < |list| && list[i].lo <= Last(added).hi <= list[i].hi;
      assert i < |list| - 1 ==> list[i].hi + 1 < list[|list|-1].lo;
    }
  }

  /** No interval of `cut` meets lo..hi before its interval `j`. */
  lemma FreeBefore(cut: seq<Range>, j: nat, lo: int, hi: int)
    requires Canonical(cut) && j <= |cut|
    requires forall i :: 0 <= i < j ==> cut[i].hi < lo || hi < cut[i].lo
    ensures forall x :: lo <= x <= hi && (j < |cut| ==> x < cut[j].lo) ==> !In(cut, x)
  {
    assert forall i :: j < i < |cut| ==> cut[j].hi + 1 < cut[i].lo;
  }

  // ---- Searches ------------------------------------------------------------------

  /** Binary search: the first interval that does not end before `seqNo`. */
  method Search(list: seq<Range>, seqNo: int) returns (i: nat)
    requires Canonical(list)
    ensures i <= |list|
    ensures forall k :: 0 <= k < i ==> list[k].hi < seqNo
    ensures forall k :: i <= k < |list| ==> seqNo <= list[k].hi
  {
    i := 0;
    var j := |list|;
    while i < j
      invariant 0 <= i <= j <= |list|
      invariant forall k :: 0 <= k < i ==> list[k].hi < seqNo
      invariant forall k :: j <= k < |list| ==> seqNo <= list[k].hi
    {
      var h := (i + j) / 2;
      assert forall k :: 0 <= k < h ==> list[k].hi + 1 < list[h].lo;
      assert forall k :: h < k < |list| ==> list[h].hi + 1 < list[k].lo;
      if list[h].hi < seqNo {
        i := h + 1;
      } else {
        j := h;
      }
    }
  }

  method Has(s: Sets, key: string, seqNo: int) returns (r: bool)
    requires Good(s)
    ensures r <==> Mem(s, key, seqNo)
  {
    var list := if key in s then s[key] else [];
    var i := Search(list, seqNo);
    r := i < |list| && list[i].lo <= seqNo;
    assert forall k :: i < k < |list| ==> list[i].hi + 1 < list[k].lo;
  }

  /** Whether `have` holds every number of `want`. */
  method Covers(have: seq<Range>, want: seq<Range>) returns (r: bool)
    requires Canonical(have) && Canonical(want)
    ensures r <==> forall x :: In(want, x) ==> In(have, x)
  {
    for j := 0 to |want|
      invariant forall x :: In(want[..j], x) ==> In(have, x)
    {
      var iv := want[j];
      var i := Search(have, iv.lo);
      if i == |have| || have[i].lo > iv.lo || have[i].hi < iv.hi {
        NotCovered(have, iv, i);
        ghost var x :| iv.lo <= x <= iv.hi && !In(have, x);
        assert In(want, x);
        return false;
      }
      assert want[..j+1] == want[..j] + [iv];
      forall x | In(want[..j+1], x) ensures In(have, x) {
        InPush(want[..j], iv, x);
        assert iv.lo <= x <= iv.hi ==> have[i].lo <= x <= have[i].hi;
      }
    }
    assert want[..|want|] == want;
    return true;
  }

  method Contains(s: Sets, o: Sets) returns (r: bool)
    requires Good(s) && Good(o)
    ensures r <==> forall k, x :: Mem(o, k, x) ==> Mem(s, k, x)
  {
    var keys := o.Keys;
    while keys != {}
      invariant keys <= o.Keys
      invariant forall k, x :: Mem(o, k, x) && k !in keys ==> Mem(s, k, x)
      decreases keys
    {
      var k :| k in keys;
      var have := if k in s then s[k] else [];
      var covered := Covers(have, o[k]);
      if !covered {
        ghost var x :| In(o[k], x) && !In(have, x);
        assert Mem(o, k, x) && !Mem(s, k, x);
        return false;
      }
      keys := keys - {k};
    }
    return true;
  }

  lemma NotCovered(have: seq<Range>, iv: Range, i: nat)
    requires Canonical(have) && iv.lo <= iv.hi && i <= |have|
    requires forall k :: 0 <= k < i ==> have[k].hi < iv.lo
    requires i == |have| || have[i].lo > iv.lo || (iv.lo <= have[i].hi && have[i].hi < iv.hi)
    ensures exists x :: iv.lo <= x <= iv.hi && !In(have, x)
  {
    if i == |have| || have[i].lo > iv.lo {
      assert forall k :: i < k < |have| ==> have[i].hi + 1 < have[k].lo;
      assert !In(have, iv.lo);
    } else {
      var x := have[i].hi + 1;
      assert forall k :: i < k < |have| ==> have[i].hi + 1 < have[k].lo;
      assert !In(have, x);
    }
  }

  // ---- Difference and gaps -------------------------------------------------------

  method Minus(s: Sets, o: Sets) returns (r: Sets)
    requires Good(s) && Good(o)
    ensures Good(r)
    ensures forall k, x :: Mem(r, k, x) <==> Mem(s, k, x) && !Mem(o, k, x)
  {
    var out := new GtidSet();
    var keys := s.Keys;
    while keys != {}
      invariant keys <= s.Keys && Good(out.m) && fresh(out)
      invariant forall k, x :: Mem(out.m, k, x) <==> Mem(s, k, x) && !Mem(o, k, x) && k !in keys
      decreases keys
    {
      var key :| key in keys;
      out.AddLess(key, s[key], if key in o then o[key] else []);
      keys := keys - {key};
    }
    r := out.m;
  }

  /** A number absent from `l` with members below and above it. */
  ghost predicate Between(l: seq<Range>, x: int) {
    !In(l, x) && (exists a :: a < x && In(l, a)) && (exists b :: x < b && In(l, b))
  }

  method InteriorGaps(s: Sets) returns (r: Sets)
    requires Good(s)
    ensures Good(r)
    ensures forall k, x :: Mem(r, k, x) <==> k in s && Between(s[k], x)
  {
    var out := new GtidSet();
    var keys := s.Keys;
    while keys != {}
      invariant keys <= s.Keys && Good(out.m) && fresh(out)
      invariant forall k, x :: Mem(out.m, k, x) <==> k in s && k !in keys && Between(s[k], x)
      decreases keys
    {
      var key :| key in keys;
      var list := s[key];
      ghost var before := out.m;
      var i := 1;
      while i < |list|
        invariant 1 <= i <= |list| && Good(out.m) && fresh(out)
        invariant forall k, x :: Mem(out.m, k, x) <==> Mem(before, k, x) || (k == key && InGap(list, i, x))
      {
        GoodBounds(s, key, i);
        out.Add(key, list[i-1].hi + 1, list[i].lo - 1);
        i := i + 1;
      }
      forall x ensures Between(list, x) <==> InGap(list, |list|, x) { GapIsBetween(list, x); }
      keys := keys - {key};
    }
    r := out.m;
  }

  /** `x` lies in a gap before interval `n`. */
  ghost predicate InGap(list: seq<Range>, n: int, x: int) {
    exists i :: 1 <= i < n && i < |list| && list[i-1].hi < x < list[i].lo
  }

  lemma GapIsAbsent(list: seq<Range>, i: nat, x: int)
    requires Canonical(list) && 1 <= i < |list| && list[i-1].hi < x < list[i].lo
    ensures Between(list, x)
  {
    assert In(list, list[i-1].hi) && In(list, list[i].lo);
    assert forall k :: 0 <= k < i - 1 ==> list[k].hi + 1 < list[i-1].lo;
    assert forall k :: i < k < |list| ==> list[i].hi + 1 < list[k].lo;
  }

  lemma GapIsBetween(list: seq<Range>, x: int)
    requires Canonical(list)
    ensures Between(list, x) <==> InGap(list, |list|, x)
  {
    if InGap(list, |list|, x) {
      var i :| 1 <= i < |list| && list[i-1].hi < x < list[i].lo;
      GapIsAbsent(list, i, x);
    }
    if Between(list, x) {
      var a, b :| a < x && In(list, a) && x < b && In(list, b);
      var i :| 0 <= i < |list| && list[i].lo <= a <= list[i].hi;
      var j :| 0 <= j < |list| && list[j].lo <= b <= list[j].hi;
      FindGap(list, i, j, x);
    }
  }

  lemma {:induction false} FindGap(list: seq<Range>, i: nat, j: nat, x: int)
    requires Canonical(list) && i < |list| && j < |list| && list[i].lo <= x <= list[j].hi && !In(list, x)
    ensures InGap(list, |list|, x)
    decreases j
  {
    assert i < j;
    if list[j-1].hi < x {
      assert list[j-1].hi < x < list[j].lo;
    } else {
      FindGap(list, i, j - 1, x);
    }
  }

  /** The sequences missing between the lowest and highest stored one that the start set does not cover. */
  method StoredHoles(stored: Sets, start: Sets) returns (r: Sets)
    requires Good(stored) && Good(start)
    ensures Good(r)
    ensures forall k, x :: Mem(r, k, x) <==> k in stored && Between(stored[k], x) && !Mem(start, k, x)
  {
    var gaps := InteriorGaps(stored);
    r := Minus(gaps, start);
  }

  /** Contains and Minus agree: `s` contains `o` exactly when Minus leaves nothing of `o`. */
  lemma ContainsIffNothingLeft(s: Sets, o: Sets, left: Sets)
    requires Good(left) && forall k, x :: Mem(left, k, x) <==> Mem(o, k, x) && !Mem(s, k, x)
    ensures (forall k, x :: Mem(o, k, x) ==> Mem(s, k, x)) <==> left == map[]
  {
    EmptyIff(left);
  }
}
