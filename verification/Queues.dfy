/** The content work of one verifier pass, and the order it is paid for in. */
module Queues {
  import Texts

  const FORCED: nat := 0
  const RECENT: nat := 1
  const SLOT: nat := 2
  const OVERDUE: nat := 3
  const TAIL: nat := 4
  const UNSCHEDULED: nat := 5

  /**
   One copy of a segment that may be read: its local file or its object.
   `fallback` is the tier of the segment below recent; `digest` says that the
   catalog row has one.
   */
  datatype Copy = Copy(seg: nat, local: bool, size: nat, order: int, name: string, fallback: nat, digest: bool)

  datatype Work = Work(copy: Copy, tier: nat)

  predicate Before(a: Work, b: Work) {
    if a.tier != b.tier then a.tier < b.tier
    else if a.copy.order != b.copy.order then a.copy.order < b.copy.order
    else if a.copy.name != b.copy.name then Texts.Less(a.copy.name, b.copy.name)
    else a.copy.local && !b.copy.local
  }

  /**
   In a sorted queue forced work comes first, then recent, slot, overdue and
   tail; within a tier what was verified longest ago; then by name; and a local
   copy before its object.
   */
  lemma SortedPays(q: seq<Work>, i: nat, j: nat)
    requires Sorted(q) && i < j < |q|
    ensures FORCED < RECENT < SLOT < OVERDUE < TAIL < UNSCHEDULED && q[i].tier <= q[j].tier
    ensures q[i].tier == q[j].tier ==> q[i].copy.order <= q[j].copy.order
    ensures q[i].tier == q[j].tier && q[i].copy.order == q[j].copy.order ==> !Texts.Less(q[j].copy.name, q[i].copy.name)
    ensures q[i].tier == q[j].tier && q[i].copy.order == q[j].copy.order && q[i].copy.name == q[j].copy.name ==>
              q[i].copy.local || !q[j].copy.local
  {
    Texts.LessTotal(q[i].copy.name, q[j].copy.name);
    assert !Before(q[j], q[i]);
  }

  lemma BeforeIsOrder(a: Work, b: Work)
    ensures !(Before(a, b) && Before(b, a)) && !Before(a, a)
    ensures !Before(a, b) && !Before(b, a) ==>
              a.tier == b.tier && a.copy.order == b.copy.order && a.copy.name == b.copy.name
                  && a.copy.local == b.copy.local
  {
    Texts.LessTotal(a.copy.name, b.copy.name);
  }

  lemma AfterIsTransitive(a: Work, b: Work, c: Work)
    requires !Before(b, a) && !Before(c, b)
    ensures !Before(c, a)
  {
    hide Texts.Less;
    Texts.LessTotal(a.copy.name, b.copy.name);
    Texts.LessTotal(b.copy.name, c.copy.name);
    Texts.LessTotal(a.copy.name, c.copy.name);
    if Texts.Less(a.copy.name, b.copy.name) && Texts.Less(b.copy.name, c.copy.name) {
      Texts.LessTransitive(a.copy.name, b.copy.name, c.copy.name);
    }
  }

  ghost predicate Sorted(q: seq<Work>) {
    forall i, j :: 0 <= i < j < |q| ==> !Before(q[j], q[i])
  }

  function Copies(q: seq<Work>): seq<Copy> {
    seq(|q|, i requires 0 <= i < |q| => q[i].copy)
  }

  // ---- Inserting -----------------------------------------------------------------

  /** The queue with one more work, after all that does not come later. */
  function Insert(q: seq<Work>, w: Work): seq<Work> {
    if q == [] || Before(w, q[0]) then [w] + q else [q[0]] + Insert(q[1..], w)
  }

  lemma {:induction false} InsertIs(q: seq<Work>, w: Work)
    ensures multiset(Insert(q, w)) == multiset(q) + multiset{w}
    ensures forall x :: x in Insert(q, w) <==> x == w || x in q
  {
    hide Before;
    if q != [] && !Before(w, q[0]) {
      InsertIs(q[1..], w);
      assert q == [q[0]] + q[1..];
    }
    assert forall x :: x in Insert(q, w) <==> x in multiset(Insert(q, w));
  }

  lemma {:induction false} InsertCopies(q: seq<Work>, w: Work)
    ensures multiset(Copies(Insert(q, w))) == multiset(Copies(q)) + multiset{w.copy}
  {
    hide Before;
    if q == [] || Before(w, q[0]) {
      assert Copies([w] + q) == [w.copy] + Copies(q);
    } else {
      var rest := Insert(q[1..], w);
      InsertCopies(q[1..], w);
      assert Copies(q) == [q[0].copy] + Copies(q[1..]);
      assert Copies([q[0]] + rest) == [q[0].copy] + Copies(rest);
    }
  }

  lemma {:induction false} InsertKeepsSorted(q: seq<Work>, w: Work)
    requires Sorted(q)
    ensures Sorted(Insert(q, w))
  {
    hide Before;
    if q == [] {
    } else if Before(w, q[0]) {
      forall j | 0 <= j < |q| ensures !Before(q[j], w) {
        BeforeIsOrder(w, q[0]);
        if j > 0 {
          AfterIsTransitive(w, q[0], q[j]);
        }
      }
    } else {
      var rest := Insert(q[1..], w);
      InsertKeepsSorted(q[1..], w);
      InsertIs(q[1..], w);
      forall j | 0 <= j < |rest| ensures !Before(rest[j], q[0]) {
        assert rest[j] in rest;
        assert rest[j] == w || rest[j] in q[1..];
      }
    }
  }

  /** The place a search by halves finds is the place of the insertion. */
  lemma {:induction false} InsertAt(q: seq<Work>, w: Work, at: nat)
    requires at <= |q|
    requires forall j :: 0 <= j < at ==> !Before(w, q[j])
    requires at < |q| ==> Before(w, q[at])
    ensures q[..at] + [w] + q[at..] == Insert(q, w)
  {
    hide Before;
    if at == 0 {
      assert q[..0] + [w] + q[0..] == [w] + q;
    } else {
      InsertAt(q[1..], w, at - 1);
      assert q[..at] + [w] + q[at..] == [q[0]] + (q[1..][..at-1] + [w] + q[1..][at-1..]);
    }
  }

  /** The first place of the queue that comes later than `w`. */
  method Search(q: seq<Work>, w: Work) returns (at: nat)
    requires Sorted(q)
    ensures at <= |q|
    ensures forall j :: 0 <= j < at ==> !Before(w, q[j])
    ensures forall j :: at <= j < |q| ==> Before(w, q[j])
  {
    hide Before;
    var lo: nat, hi: nat := 0, |q|;
    while lo < hi
      invariant lo <= hi <= |q|
      invariant forall j :: 0 <= j < lo ==> !Before(w, q[j])
      invariant forall j :: hi <= j < |q| ==> Before(w, q[j])
    {
      var mid := (lo + hi) / 2;
      if !Before(w, q[mid]) {
        forall j | 0 <= j < mid ensures !Before(w, q[j]) {
          AfterIsTransitive(q[j], q[mid], w);
        }
        lo := mid + 1;
      } else {
        forall j | mid <= j < |q| ensures Before(w, q[j]) {
          if !Before(w, q[j]) && j > mid {
            AfterIsTransitive(q[mid], q[j], w);
          }
        }
        hi := mid;
      }
    }
    return lo;
  }

  function StableSort(q: seq<Work>): seq<Work> {
    if q == [] then [] else Insert(StableSort(q[..|q|-1]), q[|q|-1])
  }

  lemma NothingToSort()
    ensures Sorted([])
  {
  }

  lemma {:induction false} StableSortSorts(q: seq<Work>)
    ensures Sorted(StableSort(q)) && multiset(StableSort(q)) == multiset(q)
  {
    hide Sorted;
    hide Insert;
    if q == [] {
      assert Sorted(q) by { NothingToSort(); }
    } else {
      var n := |q| - 1;
      StableSortSorts(q[..n]);
      InsertKeepsSorted(StableSort(q[..n]), q[n]);
      InsertIs(StableSort(q[..n]), q[n]);
      assert q == q[..n] + [q[n]];
    }
  }

  // ---- Sums ----------------------------------------------------------------------

  function Total(q: seq<Work>, weight: Work -> nat): nat {
    if q == [] then 0 else weight(q[0]) + Total(q[1..], weight)
  }

  lemma {:induction false} TotalInsert(q: seq<Work>, w: Work, weight: Work -> nat)
    ensures Total(Insert(q, w), weight) == Total(q, weight) + weight(w)
  {
    hide Before;
    if q == [] || Before(w, q[0]) {
      assert ([w] + q)[1..] == q;
    } else {
      TotalInsert(q[1..], w, weight);
      assert ([q[0]] + Insert(q[1..], w))[1..] == Insert(q[1..], w);
    }
  }

  lemma {:induction false} TotalPush(q: seq<Work>, w: Work, weight: Work -> nat)
    ensures Total(q + [w], weight) == Total(q, weight) + weight(w)
  {
    if q == [] {
      assert q + [w] == [w];
    } else {
      assert (q + [w])[1..] == q[1..] + [w];
      TotalPush(q[1..], w, weight);
    }
  }

  lemma {:induction false} TotalOfOne(q: seq<Work>, i: nat, weight: Work -> nat)
    requires i < |q|
    ensures weight(q[i]) <= Total(q, weight)
  {
    if i > 0 {
      TotalOfOne(q[1..], i - 1, weight);
    }
  }

  /** The bytes of forced work. */
  function ForcedSize(): Work -> nat {
    (w: Work) => if w.tier == FORCED then w.copy.size else 0
  }

  /** The bytes of one segment's other work. */
  function SegSize(seg: nat): Work -> nat {
    (w: Work) => if w.tier != FORCED && w.copy.seg == seg then w.copy.size else 0
  }

  function ForcedCost(q: seq<Work>): nat { Total(q, ForcedSize()) }

  function SegCost(q: seq<Work>, seg: nat): nat { Total(q, SegSize(seg)) }
}
