/**
 * classTopTen: a window of at most `max` records kept in non-increasing
 * order of a key.  A new record is inserted after every record whose key
 * is not smaller than its own, so ties keep the earlier record ahead, and
 * the record pushed past `max` is dropped.
 */
module Ranking {
  import opened Words
  import opened ProcRecords

  const NB_PROC_CPU: nat := 10
  const NB_PROC_MEM: nat := 5

  ghost predicate Descending(s: seq<Proc>, c: Comparator)
  {
    forall i, j :: 0 <= i < j < |s| ==> Key(c, s[i]) >= Key(c, s[j])
  }

  /** Where the scan from the end stops: after the last record whose key is not below x's */
  function Pos(s: seq<Proc>, x: Proc, c: Comparator): (p: nat)
    ensures p <= |s|
  {
    if |s| == 0 then 0
    else if Key(c, s[|s| - 1]) < Key(c, x) then Pos(s[..|s| - 1], x, c)
    else |s|
  }

  /** The scan stops after a record whose key is at least x's, and passes only smaller ones */
  lemma {:induction false} PosStops(s: seq<Proc>, x: Proc, c: Comparator)
    ensures forall k :: Pos(s, x, c) <= k < |s| ==> Key(c, s[k]) < Key(c, x)
    ensures Pos(s, x, c) > 0 ==> Key(c, s[Pos(s, x, c) - 1]) >= Key(c, x)
  {
    if |s| > 0 && Key(c, s[|s| - 1]) < Key(c, x) {
      var init := s[..|s| - 1];
      PosStops(init, x, c);
      assert forall k :: 0 <= k < |init| ==> init[k] == s[k];
    }
  }

  /**
   * classTopTen's insertion as it runs: from the end of the window, each
   * record with a smaller key moves one place down, and x goes into the
   * gap left behind.
   */
  function Inserted(s: seq<Proc>, x: Proc, c: Comparator): (r: seq<Proc>)
    ensures |r| == |s| + 1
  {
    if |s| == 0 || Key(c, s[|s| - 1]) >= Key(c, x) then s + [x]
    else Inserted(s[..|s| - 1], x, c) + [s[|s| - 1]]
  }

  /** The insertion puts x at the scan's stopping point, with the window split around it */
  lemma {:induction false} InsertedSplice(s: seq<Proc>, x: Proc, c: Comparator)
    ensures Inserted(s, x, c) == s[..Pos(s, x, c)] + [x] + s[Pos(s, x, c)..]
  {
    if |s| > 0 && Key(c, s[|s| - 1]) < Key(c, x) {
      var init := s[..|s| - 1];
      var p := Pos(init, x, c);
      InsertedSplice(init, x, c);
      assert s[..p] == init[..p];
      assert s[p..] == init[p..] + [s[|s| - 1]];
    }
  }

  /** The first `m` records, or all of them */
  function Take(s: seq<Proc>, m: nat): (r: seq<Proc>)
    ensures |r| == Min(|s|, m)
  {
    if |s| <= m then s else s[..m]
  }

  /** The window after each record of `xs` went through classTopTen, in order */
  function Rank(xs: seq<Proc>, m: nat, c: Comparator): seq<Proc>
  {
    if |xs| == 0 then []
    else Take(Inserted(Rank(xs[..|xs| - 1], m, c), xs[|xs| - 1], c), m)
  }

  /** The same insertions with no bound: a stable insertion sort, largest key first */
  function SortedDesc(xs: seq<Proc>, c: Comparator): seq<Proc>
  {
    if |xs| == 0 then []
    else Inserted(SortedDesc(xs[..|xs| - 1], c), xs[|xs| - 1], c)
  }

  /** Where each record of the inserted sequence comes from */
  lemma InsertedAt(s: seq<Proc>, x: Proc, c: Comparator)
    ensures |Inserted(s, x, c)| == |s| + 1 && Inserted(s, x, c)[Pos(s, x, c)] == x
    ensures forall k {:trigger Inserted(s, x, c)[k]} :: 0 <= k < Pos(s, x, c) ==> Inserted(s, x, c)[k] == s[k]
    ensures forall k {:trigger Inserted(s, x, c)[k]} ::
      Pos(s, x, c) < k <= |s| ==> Inserted(s, x, c)[k] == s[k - 1]
  {
    InsertedSplice(s, x, c);
  }

  /** In a descending window every record before the stopping point has a key at least x's */
  lemma PosSplits(s: seq<Proc>, x: Proc, c: Comparator)
    requires Descending(s, c)
    ensures forall k :: 0 <= k < Pos(s, x, c) ==> Key(c, s[k]) >= Key(c, x)
  {
    var p := Pos(s, x, c);
    PosStops(s, x, c);
    forall k | 0 <= k < p
      ensures Key(c, s[k]) >= Key(c, x)
    {
      if k < p - 1 {
        assert Key(c, s[k]) >= Key(c, s[p - 1]);
      }
    }
  }

  /** x goes after every record whose key is at least x's and before every smaller one */
  lemma InsertedPlacesX(s: seq<Proc>, x: Proc, c: Comparator)
    requires Descending(s, c)
    ensures forall k :: 0 <= k < Pos(s, x, c) ==> Key(c, Inserted(s, x, c)[k]) >= Key(c, x)
    ensures forall k :: Pos(s, x, c) < k <= |s| ==> Key(c, Inserted(s, x, c)[k]) < Key(c, x)
  {
    PosStops(s, x, c);
    PosSplits(s, x, c);
    InsertedAt(s, x, c);
  }

  /** Inserting into a descending window keeps it descending */
  lemma InsertedSorted(s: seq<Proc>, x: Proc, c: Comparator)
    requires Descending(s, c)
    ensures Descending(Inserted(s, x, c), c)
  {
    var p := Pos(s, x, c);
    var r := Inserted(s, x, c);
    InsertedPlacesX(s, x, c);
    InsertedAt(s, x, c);
    forall i, j | 0 <= i < j < |r|
      ensures Key(c, r[i]) >= Key(c, r[j])
    {
      if j < p {
        assert r[i] == s[i] && r[j] == s[j];
      } else if i > p {
        assert r[i] == s[i - 1] && r[j] == s[j - 1];
      }
    }
  }

  /** Insertion adds exactly x */
  lemma InsertedPermutes(s: seq<Proc>, x: Proc, c: Comparator)
    ensures multiset(Inserted(s, x, c)) == multiset(s) + multiset{x}
  {
    var p := Pos(s, x, c);
    InsertedSplice(s, x, c);
    assert s == s[..p] + s[p..];
  }

  /**
   * The scan's stopping point is determined by the record before it and
   * the records after it: a key at least x's just before, smaller keys
   * from there to the end.
   */
  lemma {:induction false} PosUnique(s: seq<Proc>, x: Proc, c: Comparator, j: nat)
    requires j <= |s|
    requires j > 0 ==> Key(c, s[j - 1]) >= Key(c, x)
    requires forall k :: j <= k < |s| ==> Key(c, s[k]) < Key(c, x)
    ensures Pos(s, x, c) == j
  {
    if |s| > j {
      var init := s[..|s| - 1];
      assert forall k :: j <= k < |init| ==> init[k] == s[k];
      PosUnique(init, x, c, j);
    }
  }

  /**
   * A sequence holding x at the scan's stopping point, the records before
   * it in place and the records after it one slot further on, is the
   * insertion result.
   */
  lemma Spliced(s: seq<Proc>, x: Proc, c: Comparator, r: seq<Proc>)
    requires |r| == |s| + 1 && r[Pos(s, x, c)] == x
    requires forall k {:trigger r[k]} :: 0 <= k < Pos(s, x, c) ==> r[k] == s[k]
    requires forall k {:trigger r[k]} :: Pos(s, x, c) < k < |r| ==> r[k] == s[k - 1]
    ensures r == Inserted(s, x, c)
  {
    InsertedAt(s, x, c);
    forall k | 0 <= k < |r|
      ensures r[k] == Inserted(s, x, c)[k]
    {
    }
  }

  /** Cutting a descending window at m moves the stopping point to min(Pos, m) */
  lemma PosOfPrefix(s: seq<Proc>, x: Proc, c: Comparator, m: nat)
    requires Descending(s, c) && m <= |s|
    ensures Pos(s[..m], x, c) == Min(Pos(s, x, c), m)
  {
    PosStops(s, x, c);
    PosSplits(s, x, c);
    var q := Min(Pos(s, x, c), m);
    assert q > 0 ==> s[..m][q - 1] == s[q - 1];
    PosUnique(s[..m], x, c, q);
  }

  /** Cutting a spliced sequence inside its tail */
  lemma SplicePrefix(a: seq<Proc>, x: Proc, b: seq<Proc>, n: nat)
    requires n <= |b|
    ensures (a + [x] + b)[..|a| + 1 + n] == a + [x] + b[..n]
  {
  }

  /** Truncating before the insertion is harmless when it moves the stopping point no further than m */
  lemma TakeInsertedAt(s: seq<Proc>, x: Proc, c: Comparator, m: nat)
    requires m < |s| && Pos(s[..m], x, c) == Min(Pos(s, x, c), m)
    ensures Inserted(s[..m], x, c)[..m] == Inserted(s, x, c)[..m]
  {
    if Pos(s, x, c) < m {
      TakeInsertedInside(s, x, c, m);
    } else {
      TakeInsertedBeyond(s, x, c, m);
    }
  }

  /** x lands inside the window: both windows are the spliced prefix */
  lemma TakeInsertedInside(s: seq<Proc>, x: Proc, c: Comparator, m: nat)
    requires m < |s| && Pos(s, x, c) < m && Pos(s[..m], x, c) == Pos(s, x, c)
    ensures Inserted(s[..m], x, c)[..m] == Inserted(s, x, c)[..m]
  {
    var p := Pos(s, x, c);
    var t := s[..m];
    InsertedSplice(s, x, c);
    InsertedSplice(t, x, c);
    assert t[..p] == s[..p] && t[p..] == s[p..m];
    SplicePrefix(s[..p], x, s[p..m], m - p - 1);
    SplicePrefix(s[..p], x, s[p..], m - p - 1);
    assert s[p..m][..m - p - 1] == s[p..][..m - p - 1];
  }

  /** x lands beyond the window: both windows are the first m entries */
  lemma TakeInsertedBeyond(s: seq<Proc>, x: Proc, c: Comparator, m: nat)
    requires m < |s| && m <= Pos(s, x, c) && Pos(s[..m], x, c) == m
    ensures Inserted(s[..m], x, c)[..m] == Inserted(s, x, c)[..m]
  {
    var p := Pos(s, x, c);
    var t := s[..m];
    InsertedSplice(s, x, c);
    InsertedSplice(t, x, c);
    assert Inserted(t, x, c)[..m] == t;
    assert (s[..p] + [x] + s[p..])[..m] == t;
  }

  /** Truncating the window before the insertion changes nothing once the result is truncated too */
  lemma TakeInserted(s: seq<Proc>, x: Proc, c: Comparator, m: nat)
    requires Descending(s, c)
    ensures Take(Inserted(Take(s, m), x, c), m) == Take(Inserted(s, x, c), m)
  {
    if |s| > m {
      PosOfPrefix(s, x, c, m);
      TakeInsertedAt(s, x, c, m);
    }
  }

  /** The stable sort is descending and a permutation of its input */
  lemma {:induction false} SortedDescIsSorted(xs: seq<Proc>, c: Comparator)
    ensures Descending(SortedDesc(xs, c), c)
    ensures multiset(SortedDesc(xs, c)) == multiset(xs)
  {
    if |xs| > 0 {
      var init := xs[..|xs| - 1];
      SortedDescIsSorted(init, c);
      InsertedSorted(SortedDesc(init, c), xs[|xs| - 1], c);
      InsertedPermutes(SortedDesc(init, c), xs[|xs| - 1], c);
      assert xs == init + [xs[|xs| - 1]];
    }
  }

  /**
   * The bounded window equals the first `m` records of the stable sort of
   * everything inserted: the top `m` by key, ties in arrival order.
   */
  lemma {:induction false} RankIsTopOfSorted(xs: seq<Proc>, m: nat, c: Comparator)
    ensures Rank(xs, m, c) == Take(SortedDesc(xs, c), m)
  {
    if |xs| > 0 {
      var init := xs[..|xs| - 1];
      RankIsTopOfSorted(init, m, c);
      SortedDescIsSorted(init, c);
      TakeInserted(SortedDesc(init, c), xs[|xs| - 1], c, m);
    }
  }

  /** The window holds min(|xs|, m) records, in descending order */
  lemma RankBounded(xs: seq<Proc>, m: nat, c: Comparator)
    ensures |Rank(xs, m, c)| == Min(|xs|, m)
    ensures Descending(Rank(xs, m, c), c)
  {
    RankIsTopOfSorted(xs, m, c);
    SortedDescIsSorted(xs, c);
    assert |SortedDesc(xs, c)| == |multiset(xs)|;
    var r := Rank(xs, m, c);
    var t := SortedDesc(xs, c);
    assert forall i :: 0 <= i < |r| ==> r[i] == t[i];
  }

  /**
   * classTopTen's loop: from slot nb - 1 down, every record with a key
   * smaller than cur's moves one slot down; the loop stops at the gap
   * where cur belongs, which is the scan's stopping point.
   */
  method MakeRoom(cur: Proc, top: array<Proc>, nb: nat, c: Comparator) returns (gap: nat)
    requires nb < top.Length
    modifies top
    ensures gap == Pos(old(top[..nb]), cur, c)
    ensures forall k {:trigger top[k]} :: 0 <= k < gap ==> top[k] == old(top[k])
    ensures forall k {:trigger top[k]} :: gap < k <= nb ==> top[k] == old(top[k - 1])
    ensures forall k {:trigger top[k]} :: nb < k < top.Length ==> top[k] == old(top[k])
  {
    ghost var s := top[..nb];
    var i: int := nb - 1;
    while i >= 0 && Key(c, top[i]) < Key(c, cur)
      invariant -1 <= i < nb
      invariant forall k {:trigger top[k]} :: 0 <= k <= i ==> top[k] == s[k]
      invariant forall k {:trigger top[k]} :: i + 2 <= k <= nb ==> top[k] == s[k - 1]
      invariant forall k {:trigger top[k]} :: nb + 1 <= k < top.Length ==> top[k] == old(top[k])
      invariant forall k :: i + 1 <= k < nb ==> Key(c, s[k]) < Key(c, cur)
    {
      top[i + 1] := top[i];
      i := i - 1;
    }
    assert i >= 0 ==> top[i] == s[i];
    PosUnique(s, cur, c, i + 1);
    gap := i + 1;
  }

  /**
   * classTopTen on an array of `max + 1` slots whose first `nb` hold the
   * window: records with a smaller key are shifted one slot down, the new
   * record goes into the gap, and the count grows up to `max`.
   */
  method ClassTopTen(cur: Proc, top: array<Proc>, nb: nat, max: nat, c: Comparator) returns (nb': nat)
    requires top.Length == max + 1 && nb <= max
    modifies top
    ensures nb' == Min(nb + 1, max)
    ensures top[..nb + 1] == Inserted(old(top[..nb]), cur, c)
    ensures forall k :: nb + 1 <= k < top.Length ==> top[k] == old(top[k])
  {
    ghost var s := top[..nb];
    var gap := MakeRoom(cur, top, nb, c);
    top[gap] := cur;
    Spliced(s, cur, c, top[..nb + 1]);
    nb' := if nb < max then nb + 1 else nb;
  }
}
