/**
 * The "previous" tables of the per-component groups.  Disks, network
 * interfaces and fibre-channel adapters are matched by name: each live
 * record is compared with the first slot of the same name, or with a
 * zeroed slot appended at `nb`, and the slot then takes the live record.
 * The per-CPU table is positional: slot j belongs to CPU j.
 */
module Tables {
  import opened Words
  import opened Counters
  import opened PerfRecords
  import opened Reports

  /** The two records one report is computed from */
  datatype Pair<T> = Pair(prev: T, curr: T)

  /** The table contents and the pairs a pass over the live records produced */
  datatype Pass<T> = Pass(slots: seq<T>, pairs: seq<Pair<T>>)

  /** The index of the first slot called `name`, or |slots| when there is none */
  function FirstMatch<T>(slots: seq<T>, name: string, nameOf: T -> string): (i: nat)
    ensures i <= |slots|
    ensures i < |slots| ==> nameOf(slots[i]) == name
    ensures forall k :: 0 <= k < i ==> nameOf(slots[k]) != name
  {
    if |slots| == 0 then 0
    else if nameOf(slots[0]) == name then 0
    else 1 + FirstMatch(slots[1..], name, nameOf)
  }

  /** The table after `x` is stored: over its slot, or appended */
  function Stored<T>(slots: seq<T>, x: T, nameOf: T -> string): (r: seq<T>)
    ensures x in r && |slots| <= |r| <= |slots| + 1
    ensures forall i :: 0 <= i < |slots| ==> nameOf(r[i]) == nameOf(slots[i])
    ensures forall i :: 0 <= i < |slots| && r[i] != slots[i] ==>
      r[i] == x && forall k :: 0 <= k < i ==> nameOf(slots[k]) != nameOf(x)
    ensures |r| == |slots| + 1 <==> forall k :: 0 <= k < |slots| ==> nameOf(slots[k]) != nameOf(x)
    ensures |r| == |slots| + 1 ==> r[|slots|] == x
  {
    var i := FirstMatch(slots, nameOf(x), nameOf);
    if i == |slots| then slots + [x]
    else assert slots[i := x][i] == x; slots[i := x]
  }

  /** The record `x` is compared with: its slot, or the zeroed slot appended for it */
  function PairFor<T>(slots: seq<T>, x: T, nameOf: T -> string, zero: T): (r: Pair<T>)
    ensures r.curr == x
    ensures (forall k :: 0 <= k < |slots| ==> nameOf(slots[k]) != nameOf(x)) ==> r.prev == zero
    ensures forall i ::
      (0 <= i < |slots| && nameOf(slots[i]) == nameOf(x) && forall k :: 0 <= k < i ==> nameOf(slots[k]) != nameOf(x))
      ==> r.prev == slots[i]
  {
    var i := FirstMatch(slots, nameOf(x), nameOf);
    Pair(if i == |slots| then zero else slots[i], x)
  }

  /** One collection pass over the live records, the last record last */
  function Reconciled<T>(slots: seq<T>, live: seq<T>, nameOf: T -> string, zero: T, skip: T -> bool): Pass<T>
  {
    if |live| == 0 then Pass(slots, [])
    else
      var p := Reconciled(slots, live[..|live| - 1], nameOf, zero, skip);
      var x := live[|live| - 1];
      if skip(x) then p
      else Pass(Stored(p.slots, x, nameOf), p.pairs + [PairFor(p.slots, x, nameOf, zero)])
  }

  /** One more live record: the pass stores it and pairs it, unless it is skipped */
  lemma ReconciledStep<T>(slots: seq<T>, live: seq<T>, j: nat, nameOf: T -> string, zero: T, skip: T -> bool)
    requires j < |live|
    ensures var p := Reconciled(slots, live[..j], nameOf, zero, skip);
      Reconciled(slots, live[..j + 1], nameOf, zero, skip)
      == if skip(live[j]) then p
         else Pass(Stored(p.slots, live[j], nameOf), p.pairs + [PairFor(p.slots, live[j], nameOf, zero)])
  {
    assert live[..j + 1][..j] == live[..j];
  }

  ghost predicate DistinctNames<T>(s: seq<T>, nameOf: T -> string)
  {
    forall i, k :: 0 <= i < k < |s| ==> nameOf(s[i]) != nameOf(s[k])
  }

  /**
   * The table never shrinks, grows by at most one slot per live record,
   * and every slot it had keeps its position and its name.
   */
  lemma {:induction false} ReconciledGrowth<T>(slots: seq<T>, live: seq<T>, nameOf: T -> string, zero: T, skip: T -> bool)
    ensures var r := Reconciled(slots, live, nameOf, zero, skip);
      && |slots| <= |r.slots| <= |slots| + |live|
      && |r.pairs| <= |live|
      && (forall i :: 0 <= i < |slots| ==> nameOf(r.slots[i]) == nameOf(slots[i]))
  {
    if |live| > 0 {
      ReconciledGrowth(slots, live[..|live| - 1], nameOf, zero, skip);
    }
  }

  /**
   * Every pair compares a live record that is not skipped with either the
   * zeroed slot or a slot of the same name.
   */
  ghost predicate PairsFaithful<T>(pairs: seq<Pair<T>>, live: seq<T>, nameOf: T -> string, zero: T, skip: T -> bool)
  {
    forall k :: 0 <= k < |pairs| ==>
      && pairs[k].curr in live && !skip(pairs[k].curr)
      && (pairs[k].prev == zero || nameOf(pairs[k].prev) == nameOf(pairs[k].curr))
  }

  /**
   * `pair` is the one `PairFor` gives for some live record not skipped,
   * against the table as the pass left it just before that record.
   */
  ghost predicate PairedAtVisit<T>(pair: Pair<T>, slots: seq<T>, live: seq<T>, nameOf: T -> string, zero: T, skip: T -> bool)
  {
    exists j :: 0 <= j < |live| && !skip(live[j]) &&
      pair == PairFor(Reconciled(slots, live[..j], nameOf, zero, skip).slots, live[j], nameOf, zero)
  }

  /** A pair made at a visit stays one when more live records follow */
  lemma PairedAtVisitExtends<T>(pair: Pair<T>, slots: seq<T>, live: seq<T>, nameOf: T -> string, zero: T, skip: T -> bool)
    requires |live| > 0 && PairedAtVisit(pair, slots, live[..|live| - 1], nameOf, zero, skip)
    ensures PairedAtVisit(pair, slots, live, nameOf, zero, skip)
  {
    var init := live[..|live| - 1];
    var j :| 0 <= j < |init| && !skip(init[j]) &&
      pair == PairFor(Reconciled(slots, init[..j], nameOf, zero, skip).slots, init[j], nameOf, zero);
    assert live[j] == init[j] && live[..j] == init[..j];
  }

  /** The pair made for the last live record is made at its visit */
  lemma PairedAtLastVisit<T>(slots: seq<T>, live: seq<T>, nameOf: T -> string, zero: T, skip: T -> bool)
    requires |live| > 0 && !skip(live[|live| - 1])
    ensures var p := Reconciled(slots, live[..|live| - 1], nameOf, zero, skip);
      PairedAtVisit(PairFor(p.slots, live[|live| - 1], nameOf, zero), slots, live, nameOf, zero, skip)
  {
  }

  /** Pair k of the pass is made at the visit of its live record */
  lemma {:induction false} ReconciledPairedAt<T>(slots: seq<T>, live: seq<T>, nameOf: T -> string, zero: T, skip: T -> bool, k: nat)
    requires k < |Reconciled(slots, live, nameOf, zero, skip).pairs|
    ensures PairedAtVisit(Reconciled(slots, live, nameOf, zero, skip).pairs[k], slots, live, nameOf, zero, skip)
  {
    var init := live[..|live| - 1];
    var p := Reconciled(slots, init, nameOf, zero, skip);
    if k < |p.pairs| {
      ReconciledPairedAt(slots, init, nameOf, zero, skip, k);
      assert Reconciled(slots, live, nameOf, zero, skip).pairs[k] == p.pairs[k];
      PairedAtVisitExtends(p.pairs[k], slots, live, nameOf, zero, skip);
    } else {
      PairedAtLastVisit(slots, live, nameOf, zero, skip);
    }
  }

  /** Every pair of the pass is made at the visit of its live record */
  lemma ReconciledPairedAtVisit<T>(slots: seq<T>, live: seq<T>, nameOf: T -> string, zero: T, skip: T -> bool)
    ensures var r := Reconciled(slots, live, nameOf, zero, skip);
      forall k :: 0 <= k < |r.pairs| ==> PairedAtVisit(r.pairs[k], slots, live, nameOf, zero, skip)
  {
    forall k | 0 <= k < |Reconciled(slots, live, nameOf, zero, skip).pairs|
      ensures PairedAtVisit(Reconciled(slots, live, nameOf, zero, skip).pairs[k], slots, live, nameOf, zero, skip)
    {
      ReconciledPairedAt(slots, live, nameOf, zero, skip, k);
    }
  }

  /**
   * Every pair compares a live record that is not skipped with the first
   * slot of the same name in the table as it stood when that record was
   * visited, or with the zeroed slot when the table had no such name
   * (the contract of `PairFor`).
   */
  lemma {:induction false} ReconciledPairs<T>(slots: seq<T>, live: seq<T>, nameOf: T -> string, zero: T, skip: T -> bool)
    ensures PairsFaithful(Reconciled(slots, live, nameOf, zero, skip).pairs, live, nameOf, zero, skip)
    ensures var r := Reconciled(slots, live, nameOf, zero, skip);
      forall k :: 0 <= k < |r.pairs| ==> PairedAtVisit(r.pairs[k], slots, live, nameOf, zero, skip)
  {
    ReconciledPairedAtVisit(slots, live, nameOf, zero, skip);
    if |live| > 0 {
      var init := live[..|live| - 1];
      ReconciledPairs(slots, init, nameOf, zero, skip);
      var r := Reconciled(slots, live, nameOf, zero, skip);
      var p := Reconciled(slots, init, nameOf, zero, skip);
      forall k | 0 <= k < |r.pairs|
        ensures r.pairs[k].curr in live && !skip(r.pairs[k].curr)
        ensures r.pairs[k].prev == zero || nameOf(r.pairs[k].prev) == nameOf(r.pairs[k].curr)
      {
        if k < |p.pairs| {
          assert r.pairs[k] == p.pairs[k];
          assert p.pairs[k].curr in init;
          var j :| 0 <= j < |init| && init[j] == p.pairs[k].curr;
          assert live[j] == init[j];
        } else {
          assert r.pairs[k].curr == live[|live| - 1];
        }
      }
    }
  }

  /** With nothing skipped, pair j compares live record j */
  lemma {:induction false} ReconciledVisitsAll<T>(slots: seq<T>, live: seq<T>, nameOf: T -> string, zero: T, skip: T -> bool)
    requires forall j :: 0 <= j < |live| ==> !skip(live[j])
    ensures var r := Reconciled(slots, live, nameOf, zero, skip);
      |r.pairs| == |live| && forall j :: 0 <= j < |live| ==> r.pairs[j].curr == live[j]
  {
    if |live| > 0 {
      var n := |live| - 1;
      var init := live[..n];
      ReconciledVisitsAll(slots, init, nameOf, zero, skip);
      var p := Reconciled(slots, init, nameOf, zero, skip);
      var r := Reconciled(slots, live, nameOf, zero, skip);
      assert !skip(live[n]);
      assert r.pairs == p.pairs + [PairFor(p.slots, live[n], nameOf, zero)];
      forall j | 0 <= j < |live|
        ensures r.pairs[j].curr == live[j]
      {
        if j < n {
          assert r.pairs[j] == p.pairs[j] && live[j] == init[j];
        }
      }
    }
  }

  /** Storing a record whose name is new, or already unique, keeps the names distinct */
  lemma StoredKeepsDistinct<T>(slots: seq<T>, x: T, nameOf: T -> string)
    requires DistinctNames(slots, nameOf)
    ensures DistinctNames(Stored(slots, x, nameOf), nameOf)
  {
    var r := Stored(slots, x, nameOf);
    var i := FirstMatch(slots, nameOf(x), nameOf);
    forall a, b | 0 <= a < b < |r|
      ensures nameOf(r[a]) != nameOf(r[b])
    {
      if i == |slots| {
        if b == |slots| {
          assert nameOf(r[a]) == nameOf(slots[a]);
        }
      } else {
        assert nameOf(r[a]) == nameOf(slots[a]) && nameOf(r[b]) == nameOf(slots[b]);
      }
    }
  }

  /** In a table of distinct names, a record stored there is the one the search finds */
  lemma FindsStored<T>(slots: seq<T>, x: T, nameOf: T -> string)
    requires DistinctNames(slots, nameOf) && x in slots
    ensures var i := FirstMatch(slots, nameOf(x), nameOf); i < |slots| && slots[i] == x
  {
    var k :| 0 <= k < |slots| && slots[k] == x;
    var i := FirstMatch(slots, nameOf(x), nameOf);
    assert i <= k;
  }

  /**
   * With distinct names in the table and among the live records, the pass
   * keeps the names distinct and leaves every live record not skipped in
   * the table.
   */
  lemma {:induction false} ReconciledStoresLive<T>(slots: seq<T>, live: seq<T>, nameOf: T -> string, zero: T, skip: T -> bool)
    requires DistinctNames(slots, nameOf) && DistinctNames(live, nameOf)
    ensures var r := Reconciled(slots, live, nameOf, zero, skip);
      && DistinctNames(r.slots, nameOf)
      && forall j :: 0 <= j < |live| && !skip(live[j]) ==> live[j] in r.slots
  {
    if |live| > 0 {
      var init := live[..|live| - 1];
      var x := live[|live| - 1];
      assert DistinctNames(init, nameOf);
      ReconciledStoresLive(slots, init, nameOf, zero, skip);
      var p := Reconciled(slots, init, nameOf, zero, skip);
      var r := Reconciled(slots, live, nameOf, zero, skip);
      if !skip(x) {
        StoredKeepsDistinct(p.slots, x, nameOf);
        var i := FirstMatch(p.slots, nameOf(x), nameOf);
        forall j | 0 <= j < |live| && !skip(live[j])
          ensures live[j] in r.slots
        {
          if j < |live| - 1 {
            assert live[j] == init[j];
            var k :| 0 <= k < |p.slots| && p.slots[k] == live[j];
            assert nameOf(live[j]) != nameOf(x);
            assert k != i;
            assert r.slots[k] == live[j];
          } else if i == |p.slots| {
            assert r.slots[|p.slots|] == x;
          } else {
            assert r.slots[i] == x;
          }
        }
      } else {
        forall j | 0 <= j < |live| && !skip(live[j])
          ensures live[j] in r.slots
        {
          assert j < |live| - 1 && live[j] == init[j];
        }
      }
    }
  }

  /**
   * Passing over records that are all in a table of distinct names changes
   * nothing and compares each record with itself.
   */
  lemma {:induction false} ReconciledStable<T>(slots: seq<T>, live: seq<T>, nameOf: T -> string, zero: T, skip: T -> bool)
    requires DistinctNames(slots, nameOf)
    requires forall j :: 0 <= j < |live| && !skip(live[j]) ==> live[j] in slots
    ensures var r := Reconciled(slots, live, nameOf, zero, skip);
      r.slots == slots && forall k :: 0 <= k < |r.pairs| ==> r.pairs[k].prev == r.pairs[k].curr
  {
    if |live| > 0 {
      var init := live[..|live| - 1];
      var x := live[|live| - 1];
      ReconciledStable(slots, init, nameOf, zero, skip);
      if !skip(x) {
        FindsStored(slots, x, nameOf);
      }
    }
  }

  /**
   * Two passes over the same live records with distinct names: the second
   * leaves the table as the first left it and compares every record with
   * itself, so all its deltas are zero.
   */
  lemma SecondPassIdle<T>(slots: seq<T>, live: seq<T>, nameOf: T -> string, zero: T, skip: T -> bool)
    requires DistinctNames(slots, nameOf) && DistinctNames(live, nameOf)
    ensures var r1 := Reconciled(slots, live, nameOf, zero, skip);
      var r2 := Reconciled(r1.slots, live, nameOf, zero, skip);
      r2.slots == r1.slots && forall k :: 0 <= k < |r2.pairs| ==> r2.pairs[k].prev == r2.pairs[k].curr
  {
    ReconciledStoresLive(slots, live, nameOf, zero, skip);
    var r1 := Reconciled(slots, live, nameOf, zero, skip);
    ReconciledStable(r1.slots, live, nameOf, zero, skip);
  }

  /** The allocation the source's realloc rule leaves: grown to the live count only when `nb` is below it */
  function RegrownAsWritten(nb: nat, capacity: nat, live: nat): nat
  {
    if nb < live then live else capacity
  }

  /** An allocation with room for every append the pass can make */
  function Regrown(nb: nat, capacity: nat, live: nat): (r: nat)
    ensures r >= capacity && r >= nb + live
  {
    if capacity < nb + live then nb + live else capacity
  }

  /** With the corrected rule every append lands inside the allocation */
  lemma RegrownSuffices<T>(slots: seq<T>, capacity: nat, live: seq<T>, nameOf: T -> string, zero: T, skip: T -> bool)
    ensures |Reconciled(slots, live, nameOf, zero, skip).slots| <= Regrown(|slots|, capacity, |live|)
  {
    ReconciledGrowth(slots, live, nameOf, zero, skip);
  }

  function DiskName(d: Disk): string { d.name }

  /**
   * The source's rule overflows: a table holding `sda` in an allocation of
   * one slot, and one live disk `sdb`, is not regrown, yet `sdb` is
   * appended as a second slot.
   */
  lemma RegrownAsWrittenOverflows()
    ensures var slots := [ZeroDisk.(name := "sda")];
      var live := [ZeroDisk.(name := "sdb")];
      |Reconciled(slots, live, DiskName, ZeroDisk, d => false).slots| == 2
      && RegrownAsWritten(|slots|, 1, |live|) == 1
  {
    var slots := [ZeroDisk.(name := "sda")];
    var live := [ZeroDisk.(name := "sdb")];
    assert live[..0] == [];
    assert FirstMatch(slots, "sdb", DiskName) == 1 by {
      assert DiskName(slots[0]) == "sda" != "sdb";
      assert slots[1..] == [];
    }
  }

  /** A previous table matched by name; `previous.Length` is its allocation */
  class NameTable<T(0)> {
    var previous: array<T>
    var nb: nat

    ghost predicate Valid()
      reads this
    {
      nb <= previous.Length
    }

    /** The net interfaces' init: an empty table */
    constructor InitEmpty()
      ensures Valid() && nb == 0 && fresh(previous)
    {
      previous := new T[0];
      nb := 0;
    }

    /**
     * The disk and adapter inits: `nb` is 0 when the probe finds nothing,
     * otherwise the table is allocated for the probed count and holds the
     * records the fill returned.
     */
    constructor InitFromReading(probe: int, filled: seq<T>)
      requires probe >= 1 ==> |filled| <= probe
      ensures Valid() && fresh(previous)
      ensures probe < 1 ==> nb == 0
      ensures probe >= 1 ==> previous.Length == probe && previous[..nb] == filled
    {
      if probe < 1 {
        previous := new T[0];
        nb := 0;
      } else {
        var a := new T[probe];
        forall i | 0 <= i < |filled| {
          a[i] := filled[i];
        }
        previous := a;
        nb := |filled|;
      }
    }

    /** The linear search by name */
    method Find(name: string, nameOf: T -> string) returns (idx: nat)
      requires Valid()
      ensures idx == FirstMatch(previous[..nb], name, nameOf)
    {
      idx := 0;
      while idx < nb && nameOf(previous[idx]) != name
        invariant idx <= nb
        invariant forall k :: 0 <= k < idx ==> nameOf(previous[k]) != name
      {
        idx := idx + 1;
      }
      assert forall k :: 0 <= k < idx ==> nameOf(previous[..nb][k]) != name;
      assert idx < nb ==> nameOf(previous[..nb][idx]) == name;
    }

    /** One live record: search, memset a new slot at `nb` if needed, compare, memcpy */
    method Place(x: T, nameOf: T -> string, zero: T) returns (pair: Pair<T>)
      requires Valid() && nb < previous.Length
      modifies this, previous
      ensures Valid() && previous == old(previous)
      ensures previous[..nb] == Stored(old(previous[..nb]), x, nameOf)
      ensures pair == PairFor(old(previous[..nb]), x, nameOf, zero)
    {
      ghost var slots := previous[..nb];
      var idx := Find(nameOf(x), nameOf);
      if idx == nb {
        previous[nb] := zero;
        nb := nb + 1;
      }
      pair := Pair(previous[idx], x);
      previous[idx] := x;
      assert previous[..nb] == Stored(slots, x, nameOf);
    }

    /** Replaces the allocation by one of `n` slots holding the same first `nb` slots */
    method Regrow(n: nat)
      requires Valid() && n >= nb
      modifies this
      ensures Valid() && fresh(previous) && previous.Length == n
      ensures nb == old(nb) && previous[..nb] == old(previous[..nb])
    {
      var a := new T[n];
      forall i | 0 <= i < nb {
        a[i] := previous[i];
      }
      previous := a;
    }

    /**
     * One collection pass: -1 when the probe finds nothing, otherwise the
     * allocation is grown by the corrected rule and every live record that
     * is not skipped is placed.
     */
    method Reconcile(probe: int, live: seq<T>, nameOf: T -> string, zero: T, skip: T -> bool)
      returns (rc: int, pairs: seq<Pair<T>>)
      requires Valid()
      modifies this, previous
      ensures Valid()
      ensures probe < 1 ==> rc == -1 && pairs == [] && nb == old(nb) && previous == old(previous)
      ensures probe < 1 ==> previous[..] == old(previous[..])
      ensures probe >= 1 ==> rc == 0 && previous.Length == Regrown(old(nb), old(previous.Length), |live|)
      ensures probe >= 1 ==> Pass(previous[..nb], pairs) == Reconciled(old(previous[..nb]), live, nameOf, zero, skip)
    {
      if probe < 1 {
        return -1, [];
      }
      if previous.Length < nb + |live| {
        Regrow(nb + |live|);
      }
      pairs := PlaceAll(live, nameOf, zero, skip);
      rc := 0;
    }

    /** The loop over the live records, in an allocation with room for one new slot per record */
    method PlaceAll(live: seq<T>, nameOf: T -> string, zero: T, skip: T -> bool) returns (pairs: seq<Pair<T>>)
      requires Valid() && previous.Length >= nb + |live|
      modifies this, previous
      ensures Valid() && previous == old(previous)
      ensures Pass(previous[..nb], pairs) == Reconciled(old(previous[..nb]), live, nameOf, zero, skip)
    {
      ghost var start := previous[..nb];
      ghost var nb0 := nb;
      pairs := [];
      var j := 0;
      while j < |live|
        invariant j <= |live| && Valid()
        invariant previous == old(previous)
        invariant nb <= nb0 + j
        invariant Pass(previous[..nb], pairs) == Reconciled(start, live[..j], nameOf, zero, skip)
      {
        ReconciledStep(start, live, j, nameOf, zero, skip);
        if !skip(live[j]) {
          var pair := Place(live[j], nameOf, zero);
          pairs := pairs + [pair];
        }
        j := j + 1;
      }
      assert live[..|live|] == live;
    }
  }

  /** call_disk: one report per live disk, each against its slot or a zeroed one */
  method CallDisk(table: NameTable<Disk>, probe: int, live: seq<Disk>, shift: nat)
    returns (rc: int, reports: seq<DiskReport>)
    requires table.Valid()
    modifies table, table.previous
    ensures table.Valid()
    ensures probe < 1 ==> rc == -1 && reports == [] && table.nb == old(table.nb)
    ensures probe < 1 ==> table.previous == old(table.previous) && table.previous[..] == old(table.previous[..])
    ensures probe >= 1 ==>
      var p := Reconciled(old(table.previous[..table.nb]), live, DiskName, ZeroDisk, d => false);
      && rc == 0 && table.previous[..table.nb] == p.slots
      && |reports| == |live| && |p.pairs| == |live|
      && forall k :: 0 <= k < |live| ==> reports[k] == DiskValues(live[k], p.pairs[k].prev, shift)
  {
    var pairs;
    rc, pairs := table.Reconcile(probe, live, DiskName, ZeroDisk, d => false);
    if rc == 0 {
      ReconciledVisitsAll(old(table.previous[..table.nb]), live, DiskName, ZeroDisk, d => false);
    }
    reports := seq(|pairs|, k requires 0 <= k < |pairs| => DiskValues(pairs[k].curr, pairs[k].prev, shift));
  }

  function InterfaceName(n: NetInterface): string { n.name }

  /** The loopback test of call_netinterface: a three-character name starting with "lo" */
  predicate IsLoopback(name: string)
  {
    |name| == 3 && name[0] == 'l' && name[1] == 'o'
  }

  function LoopbackInterface(n: NetInterface): bool { IsLoopback(n.name) }

  /** The rule skips an AIX-style `lo0` but not the Linux loopback `lo` nor `lo10` */
  lemma LoopbackRule()
    ensures IsLoopback("lo0") && !IsLoopback("lo") && !IsLoopback("lo10") && !IsLoopback("eth")
  {
  }

  /** call_netinterface: loopback interfaces take no slot and produce no report */
  method CallNetInterface(table: NameTable<NetInterface>, probe: int, live: seq<NetInterface>, shift: nat)
    returns (rc: int, reports: seq<NetReport>)
    requires table.Valid()
    modifies table, table.previous
    ensures table.Valid()
    ensures probe < 1 ==> rc == -1 && reports == [] && table.nb == old(table.nb)
    ensures probe < 1 ==> table.previous == old(table.previous) && table.previous[..] == old(table.previous[..])
    ensures probe >= 1 ==>
      var p := Reconciled(old(table.previous[..table.nb]), live, InterfaceName, ZeroNetInterface, LoopbackInterface);
      && rc == 0 && table.previous[..table.nb] == p.slots
      && |reports| == |p.pairs|
      && forall k :: 0 <= k < |reports| ==>
           reports[k] == NetValues(p.pairs[k].curr, p.pairs[k].prev, shift) && !IsLoopback(reports[k].name)
  {
    var pairs;
    rc, pairs := table.Reconcile(probe, live, InterfaceName, ZeroNetInterface, LoopbackInterface);
    if rc == 0 {
      ReconciledPairs(old(table.previous[..table.nb]), live, InterfaceName, ZeroNetInterface, LoopbackInterface);
    }
    reports := seq(|pairs|, k requires 0 <= k < |pairs| => NetValues(pairs[k].curr, pairs[k].prev, shift));
  }

  function AdapterName(f: FcStat): string { f.name }

  /** call_fcstat */
  method CallFcStat(table: NameTable<FcStat>, probe: int, live: seq<FcStat>, shift: nat)
    returns (rc: int, reports: seq<FcReport>)
    requires table.Valid()
    modifies table, table.previous
    ensures table.Valid()
    ensures probe < 1 ==> rc == -1 && reports == [] && table.nb == old(table.nb)
    ensures probe < 1 ==> table.previous == old(table.previous) && table.previous[..] == old(table.previous[..])
    ensures probe >= 1 ==>
      var p := Reconciled(old(table.previous[..table.nb]), live, AdapterName, ZeroFcStat, f => false);
      && rc == 0 && table.previous[..table.nb] == p.slots
      && |reports| == |live| && |p.pairs| == |live|
      && forall k :: 0 <= k < |live| ==> reports[k] == FcValues(live[k], p.pairs[k].prev, shift)
  {
    var pairs;
    rc, pairs := table.Reconcile(probe, live, AdapterName, ZeroFcStat, f => false);
    if rc == 0 {
      ReconciledVisitsAll(old(table.previous[..table.nb]), live, AdapterName, ZeroFcStat, f => false);
    }
    reports := seq(|pairs|, k requires 0 <= k < |pairs| => FcValues(pairs[k].curr, pairs[k].prev, shift));
  }

  /** The per-CPU table after a pass: slot j holds CPU j's reading, slots beyond the live count are kept */
  function PositionalStored(slots: seq<Cpu>, live: seq<Cpu>): seq<Cpu>
  {
    if |live| >= |slots| then live else live + slots[|live|..]
  }

  /** CPU j is compared with slot j, or with a zeroed slot when the table had no slot j */
  function PositionalPairs(slots: seq<Cpu>, live: seq<Cpu>): (ps: seq<Pair<Cpu>>)
    ensures |ps| == |live|
    ensures forall j :: 0 <= j < |live| ==> ps[j].curr == live[j]
    ensures forall j :: 0 <= j < |live| ==> ps[j].prev == (if j < |slots| then slots[j] else ZeroCpu)
  {
    seq(|live|, j requires 0 <= j < |live| => Pair(if j < |slots| then slots[j] else ZeroCpu, live[j]))
  }

  /** The same CPUs read twice: the second pass keeps the table and compares each CPU with itself */
  lemma PositionalSecondPassIdle(slots: seq<Cpu>, live: seq<Cpu>)
    ensures var s1 := PositionalStored(slots, live);
      && PositionalStored(s1, live) == s1
      && forall j :: 0 <= j < |live| ==> PositionalPairs(s1, live)[j].prev == live[j]
  {
    var s1 := PositionalStored(slots, live);
    assert s1[..|live|] == live;
    if |live| < |slots| {
      assert s1[|live|..] == slots[|live|..];
    }
  }

  /** The positional table's realloc rule leaves room for every slot it writes */
  lemma PositionalRegrowSuffices(nb: nat, capacity: nat, live: nat)
    requires nb <= capacity
    ensures (if live > nb then live else nb) <= RegrownAsWritten(nb, capacity, live)
  {
  }

  /** The per-CPU previous table */
  class CpuTable {
    var previous: array<Cpu>
    var nb: nat

    ghost predicate Valid()
      reads this
    {
      nb <= previous.Length
    }

    /** init_cpu: `nb` is 0 when the probe finds no CPU, otherwise the first reading fills the table */
    constructor Init(probe: int, filled: seq<Cpu>)
      requires probe >= 1 ==> |filled| <= probe
      ensures Valid() && fresh(previous)
      ensures probe < 1 ==> nb == 0
      ensures probe >= 1 ==> previous.Length == probe && previous[..nb] == filled
    {
      if probe < 1 {
        previous := new Cpu[0];
        nb := 0;
      } else {
        var a := new Cpu[probe];
        forall i | 0 <= i < |filled| {
          a[i] := filled[i];
        }
        previous := a;
        nb := |filled|;
      }
    }

    method Regrow(n: nat)
      requires Valid() && n >= nb
      modifies this
      ensures Valid() && fresh(previous) && previous.Length == n
      ensures nb == old(nb) && previous[..nb] == old(previous[..nb])
    {
      var a := new Cpu[n];
      forall i | 0 <= i < nb {
        a[i] := previous[i];
      }
      previous := a;
    }

    /**
     * call_cpu's bookkeeping: grown to the live count when `nb` is below
     * it; slot j is zeroed when j reaches `nb`, compared, then overwritten.
     */
    method Call(probe: int, live: seq<Cpu>) returns (rc: int, pairs: seq<Pair<Cpu>>)
      requires Valid()
      modifies this, previous
      ensures Valid()
      ensures probe < 1 ==> rc == -1 && pairs == [] && nb == old(nb) && previous == old(previous)
      ensures probe < 1 ==> previous[..] == old(previous[..])
      ensures probe >= 1 ==> rc == 0 && previous.Length == RegrownAsWritten(old(nb), old(previous.Length), |live|)
      ensures probe >= 1 ==> nb == (if |live| > old(nb) then |live| else old(nb))
      ensures probe >= 1 ==> previous[..nb] == PositionalStored(old(previous[..nb]), live)
      ensures probe >= 1 ==> pairs == PositionalPairs(old(previous[..nb]), live)
    {
      if probe < 1 {
        return -1, [];
      }
      if nb < |live| {
        Regrow(|live|);
      }
      pairs := Sweep(live);
      rc := 0;
    }

    /** The loop over the live CPUs, in an allocation that holds them all */
    method Sweep(live: seq<Cpu>) returns (pairs: seq<Pair<Cpu>>)
      requires Valid() && previous.Length >= |live|
      modifies this, previous
      ensures Valid() && previous == old(previous)
      ensures nb == (if |live| > old(nb) then |live| else old(nb))
      ensures previous[..nb] == PositionalStored(old(previous[..nb]), live)
      ensures pairs == PositionalPairs(old(previous[..nb]), live)
    {
      ghost var start := previous[..nb];
      ghost var nb0 := nb;
      pairs := [];
      var j := 0;
      while j < |live|
        invariant j <= |live| && Valid()
        invariant previous == old(previous)
        invariant nb == (if j > nb0 then j else nb0)
        invariant previous[..nb] == PositionalStored(start, live[..j])
        invariant pairs == PositionalPairs(start, live[..j])
      {
        var pair := Visit(j, live, start);
        pairs := pairs + [pair];
        j := j + 1;
      }
      assert live[..|live|] == live;
    }

    /** Slot j for CPU j: zeroed and counted when j reaches `nb`, compared, then overwritten */
    method Visit(j: nat, live: seq<Cpu>, ghost start: seq<Cpu>) returns (pair: Pair<Cpu>)
      requires Valid() && j < |live| && j < previous.Length
      requires nb == (if j > |start| then j else |start|)
      requires previous[..nb] == PositionalStored(start, live[..j])
      modifies this, previous
      ensures Valid() && previous == old(previous)
      ensures nb == (if j + 1 > |start| then j + 1 else |start|)
      ensures previous[..nb] == PositionalStored(start, live[..j + 1])
      ensures PositionalPairs(start, live[..j + 1]) == PositionalPairs(start, live[..j]) + [pair]
    {
      PositionalStep(start, live, j);
      if j == nb {
        previous[j] := ZeroCpu;
        nb := nb + 1;
      }
      pair := Pair(previous[j], live[j]);
      previous[j] := live[j];
    }
  }

  /** How one more CPU extends the positional table and the pairs */
  lemma PositionalStep(start: seq<Cpu>, live: seq<Cpu>, j: nat)
    requires j < |live|
    ensures var s := PositionalStored(start, live[..j]);
      && |s| == (if j > |start| then j else |start|)
      && (j < |start| ==> s[j] == start[j])
      && PositionalStored(start, live[..j + 1]) == (if j < |s| then s[j := live[j]] else s + [live[j]])
    ensures PositionalPairs(start, live[..j + 1])
         == PositionalPairs(start, live[..j]) + [Pair(if j < |start| then start[j] else ZeroCpu, live[j])]
  {
    assert live[..j + 1] == live[..j] + [live[j]];
  }

  /** call_cpu: each CPU's guarded tick total against its slot */
  method CallCpu(table: CpuTable, probe: int, live: seq<Cpu>) returns (rc: int, totals: seq<U64>)
    requires table.Valid()
    modifies table, table.previous
    ensures table.Valid()
    ensures probe < 1 ==> rc == -1 && totals == []
    ensures probe < 1 ==> table.nb == old(table.nb) && table.previous == old(table.previous)
    ensures probe < 1 ==> table.previous[..] == old(table.previous[..])
    ensures probe >= 1 ==> rc == 0 && |totals| == |live|
    ensures probe >= 1 ==> table.nb == (if |live| > old(table.nb) then |live| else old(table.nb))
    ensures probe >= 1 ==> table.previous[..table.nb] == PositionalStored(old(table.previous[..table.nb]), live)
    ensures probe >= 1 ==> forall j :: 0 <= j < |live| ==>
      totals[j] == CpuTicksTotal(live[j], if j < old(table.nb) then old(table.previous[..table.nb])[j] else ZeroCpu)
      && totals[j] >= 1
  {
    var pairs;
    rc, pairs := table.Call(probe, live);
    totals := seq(|pairs|, j requires 0 <= j < |pairs| => CpuTicksTotal(pairs[j].curr, pairs[j].prev));
  }
}
