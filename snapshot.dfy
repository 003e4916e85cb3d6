/**
 * The total groups (cpu_total, memory, nfsv3, nfsv4) keep two snapshots of
 * one record and the addresses of current and previous.  Each call first swaps the
 * two addresses, then reads into the new current snapshot; a failed read
 * leaves that snapshot as it was, which is the reading two calls back.
 */
module Snapshots {
  import opened Words
  import opened Counters
  import opened PerfRecords
  import opened Reports
  import opened Scheduler

  /** What `current_snapshot` and `previous_snapshot` point at */
  datatype Readings<T> = Readings(current: T, previous: T)

  /** SWAPTOTAL followed by the read into the new current snapshot */
  function Advance<T>(r: Readings<T>, reading: Option<T>): Readings<T>
  {
    Readings(if reading.Some? then reading.value else r.previous, r.current)
  }

  /** The readings after a series of calls, the last call last */
  function Replay<T>(r: Readings<T>, rs: seq<Option<T>>): Readings<T>
  {
    if |rs| == 0 then r else Advance(Replay(r, rs[..|rs| - 1]), rs[|rs| - 1])
  }

  /** `k` calls whose read fails */
  function Failures<T>(k: nat): (rs: seq<Option<T>>)
    ensures |rs| == k && forall i :: 0 <= i < k ==> rs[i].None?
  {
    seq(k, i => None)
  }

  /** When the last two reads succeeded, the group compares exactly those two readings */
  lemma {:induction false} LastTwoReadings<T>(r: Readings<T>, rs: seq<Option<T>>)
    requires |rs| >= 2 && rs[|rs| - 1].Some? && rs[|rs| - 2].Some?
    ensures Replay(r, rs) == Readings(rs[|rs| - 1].value, rs[|rs| - 2].value)
  {
    var n := |rs|;
    assert rs[..n - 1][..n - 2] == rs[..n - 2];
    assert rs[..n - 1][n - 2] == rs[n - 2];
  }

  /** A run of failed reads only swaps the two snapshots back and forth */
  lemma {:induction false} FailuresAlternate<T>(r: Readings<T>, k: nat)
    ensures Replay(r, Failures(k)) == if k % 2 == 0 then r else Readings(r.previous, r.current)
  {
    if k > 0 {
      assert Failures<T>(k)[..k - 1] == Failures<T>(k - 1);
      FailuresAlternate(r, k - 1);
    }
  }

  /**
   * After one failed read the next successful reading is compared with the
   * snapshot the failed call would have replaced: the reading two calls back.
   */
  lemma ReadAfterFailure<T>(x: T, y: T, c: T)
    ensures Replay(Readings(x, y), [None, Some(c)]) == Readings(c, y)
  {
    var rs: seq<Option<T>> := [None, Some(c)];
    assert rs[..1] == [None];
    assert Replay(Readings(x, y), rs[..1]) == Readings(y, x);
  }

  /** The two snapshots of one total group and the index of the current one */
  class SnapshotPair<T(0)> {
    var data: array<T>
    var current: nat

    ghost predicate Valid()
      reads this
    {
      data.Length == 2 && current < 2
    }

    function State(): Readings<T>
      reads this, data
      requires Valid()
    {
      Readings(data[current], data[1 - current])
    }

    /**
     * INITTOTALBEGIN: current is data[0], previous data[1], and the first
     * reading goes into data[0]; `stale` is what the uninitialised
     * snapshots hold.
     */
    constructor Init(reading: Option<T>, stale: Readings<T>)
      ensures Valid() && fresh(data) && current == 0
      ensures State() == Advance(Readings(stale.previous, stale.current), reading)
    {
      data := new T[2];
      current := 0;
      new;
      data[0] := if reading.Some? then reading.value else stale.current;
      data[1] := stale.previous;
    }

    /** SWAPTOTAL then CALLTOTAL: false when the read fails */
    method Collect(reading: Option<T>) returns (ok: bool)
      requires Valid()
      modifies this, data
      ensures Valid() && data == old(data)
      ensures State() == Advance(old(State()), reading)
      ensures State().previous == old(State().current)
      ensures ok <==> reading.Some?
    {
      current := 1 - current;
      if reading.Some? {
        data[current] := reading.value;
        ok := true;
      } else {
        ok := false;
      }
    }
  }

  /**
   * call_cpu_total: -1 when the read fails, otherwise the integer fields
   * computed from the new reading against the one of the previous call.
   */
  method CallCpuTotal(pair: SnapshotPair<CpuTotal>, reading: Option<CpuTotal>)
    returns (rc: int, report: Option<CpuTotalReport>)
    requires pair.Valid()
    modifies pair, pair.data
    ensures pair.Valid() && pair.data == old(pair.data)
    ensures pair.State() == Advance(old(pair.State()), reading)
    ensures rc == (if reading.Some? then 0 else -1)
    ensures report.Some? <==> rc == 0
    ensures report.Some? ==> report.value == CpuTotalValues(reading.value, old(pair.State().current))
  {
    var ok := pair.Collect(reading);
    if !ok {
      return -1, None;
    }
    var s := pair.State();
    rc, report := 0, Some(CpuTotalValues(s.current, s.previous));
  }

  /** init_cpu_total: the first reading, and the processor frequency in MHz taken from it */
  method InitCpuTotal(reading: Option<CpuTotal>, stale: Readings<CpuTotal>)
    returns (pair: SnapshotPair<CpuTotal>, rc: int, processorMHZ: Option<U64>)
    ensures fresh(pair) && fresh(pair.data) && pair.Valid()
    ensures pair.State() == Advance(Readings(stale.previous, stale.current), reading)
    ensures rc == (if reading.Some? then 0 else -1)
    ensures processorMHZ == (if reading.Some? then Some(ProcessorMHz(reading.value)) else None)
  {
    pair := new SnapshotPair.Init(reading, stale);
    if reading.None? {
      return pair, -1, None;
    }
    rc, processorMHZ := 0, Some(ProcessorMHz(reading.value));
  }

  /** call_memory_total, with the memory group's shift */
  method CallMemoryTotal(pair: SnapshotPair<MemoryTotal>, reading: Option<MemoryTotal>, shift: nat)
    returns (rc: int, report: Option<MemoryReport>)
    requires pair.Valid()
    modifies pair, pair.data
    ensures pair.Valid() && pair.data == old(pair.data)
    ensures pair.State() == Advance(old(pair.State()), reading)
    ensures rc == (if reading.Some? then 0 else -1)
    ensures report.Some? <==> rc == 0
    ensures report.Some? ==> report.value == MemoryValues(reading.value, old(pair.State().current), shift)
  {
    var ok := pair.Collect(reading);
    if !ok {
      return -1, None;
    }
    var s := pair.State();
    rc, report := 0, Some(MemoryValues(s.current, s.previous, shift));
  }

  /** What one NFS version's call produces */
  datatype NfsOutcome =
    | ReadFailed
    | Idle
    | Counted(calls_s: U64, divisor: U64)

  /** call_nfsv3 / call_nfsv4 on the call counts of both readings */
  function NfsOutcomeOf(curr: Option<U64>, prev: U64, shift: nat): (o: NfsOutcome)
    ensures o.ReadFailed? <==> curr.None?
    ensures o.Idle? <==> curr.Some? && curr.value == 0 && prev == 0
    ensures o.Counted? ==> o.divisor >= 1 && o.calls_s <= Delta(curr.value, prev)
  {
    if curr.None? then ReadFailed
    else if curr.value == 0 && prev == 0 then Idle
    else
      var total := Delta(curr.value, prev);
      Counted(Rate(total, shift), NonZero(total))
  }

  /** The function's return value: 0 only when it printed counted values */
  function ReturnCode(o: NfsOutcome): (r: int)
    ensures r == 0 || r == -1
    ensures r == 0 <==> o.Counted?
  {
    if o.Counted? then 0 else -1
  }

  /**
   * A counter that did not go down and is not zero now gives counted values
   * whose divisor is the exact change; this includes the move from an idle
   * reading of 0.
   */
  lemma NfsCountsChange(curr: U64, prev: U64, shift: nat)
    requires prev <= curr && curr != 0
    ensures NfsOutcomeOf(Some(curr), prev, shift) == Counted(Rate(curr - prev, shift), NonZero(curr - prev))
    ensures curr == prev ==> NfsOutcomeOf(Some(curr), prev, shift) == Counted(0, 1)
  {
  }

  /** A decimal rendering of an unsigned value, as `%llu` prints it */
  function Decimal(n: nat): (s: string)
    ensures |s| >= 1
    ensures forall i :: 0 <= i < |s| ==> '0' <= s[i] <= '9'
    decreases n
  {
    if n < 10 then [('0' as int + n) as char]
    else Decimal(n / 10) + [('0' as int + n % 10) as char]
  }

  /** SECOPEN(name) body SECCLOSE, followed by FMTSEP when `sep` */
  function Section(name: string, body: string, sep: bool): (s: string)
    ensures |s| >= 1
    ensures s[|s| - 1] == (if sep then ',' else '}')
    ensures s[0] == '"'
  {
    "\"" + name + "\":{" + body + "}" + (if sep then "," else "")
  }

  /** The idle nfsv3 fragment as the source writes it: no FMTSEP after SECCLOSE */
  const NFSV3_IDLE_AS_WRITTEN: string := Section("nfsv3", "\"calls_s\":0", false)
  /** The idle nfsv3 fragment with its separator, as every other section has */
  const NFSV3_IDLE: string := Section("nfsv3", "\"calls_s\":0", true)
  const NFSV4_IDLE: string := Section("nfsv4", "\"calls_s\":0", true)

  /**
   * The text one NFS version appends; `percentages` stands for the
   * rendered floating-point fields.
   */
  function NfsFragment(name: string, o: NfsOutcome, idle: string, percentages: string): string
  {
    match o
    case ReadFailed => ""
    case Idle => idle
    case Counted(calls_s, _) => Section(name, "\"calls_s\":" + Decimal(calls_s) + "," + percentages, true)
  }

  function Nfs3Fragment(o: NfsOutcome, percentages: string): string
  {
    NfsFragment("nfsv3", o, NFSV3_IDLE, percentages)
  }

  function Nfs3FragmentAsWritten(o: NfsOutcome, percentages: string): string
  {
    NfsFragment("nfsv3", o, NFSV3_IDLE_AS_WRITTEN, percentages)
  }

  function Nfs4Fragment(o: NfsOutcome, percentages: string): string
  {
    NfsFragment("nfsv4", o, NFSV4_IDLE, percentages)
  }

  /** Every fragment either is empty or ends with the member separator, so what follows it stays valid JSON */
  lemma NfsFragmentsSeparated(o: NfsOutcome, percentages: string)
    ensures var f := Nfs3Fragment(o, percentages); f == [] || f[|f| - 1] == ','
    ensures var f := Nfs4Fragment(o, percentages); f == [] || f[|f| - 1] == ','
  {
  }

  /**
   * The source's idle nfsv3 fragment runs into whatever follows: with
   * both versions idle, `standard` emits `}` directly followed by `"`.
   */
  lemma Nfs3IdleRunsOn()
    ensures var out := Nfs3FragmentAsWritten(Idle, "") + Nfs4Fragment(Idle, "");
      out[|NFSV3_IDLE_AS_WRITTEN| - 1] == '}' && out[|NFSV3_IDLE_AS_WRITTEN|] == '"'
  {
    var out := Nfs3FragmentAsWritten(Idle, "") + Nfs4Fragment(Idle, "");
    assert out[|NFSV3_IDLE_AS_WRITTEN|] == NFSV4_IDLE[0];
  }

  /** call_nfsv3 */
  method CallNfsv3(pair: SnapshotPair<Nfs3Client>, reading: Option<Nfs3Client>, shift: nat)
    returns (rc: int, o: NfsOutcome)
    requires pair.Valid()
    modifies pair, pair.data
    ensures pair.Valid() && pair.data == old(pair.data)
    ensures pair.State() == Advance(old(pair.State()), reading)
    ensures o == NfsOutcomeOf(if reading.Some? then Some(reading.value.calls) else None,
                              old(pair.State().current).calls, shift)
    ensures rc == ReturnCode(o)
  {
    var ok := pair.Collect(reading);
    if !ok {
      return -1, ReadFailed;
    }
    var s := pair.State();
    if s.current.calls == 0 && s.previous.calls == 0 {
      return -1, Idle;
    }
    var total := Delta(s.current.calls, s.previous.calls);
    rc, o := 0, Counted(Rate(total, shift), NonZero(total));
  }

  /** call_nfsv4 */
  method CallNfsv4(pair: SnapshotPair<Nfs4Client>, reading: Option<Nfs4Client>, shift: nat)
    returns (rc: int, o: NfsOutcome)
    requires pair.Valid()
    modifies pair, pair.data
    ensures pair.Valid() && pair.data == old(pair.data)
    ensures pair.State() == Advance(old(pair.State()), reading)
    ensures o == NfsOutcomeOf(if reading.Some? then Some(reading.value.operations) else None,
                              old(pair.State().current).operations, shift)
    ensures rc == ReturnCode(o)
  {
    var ok := pair.Collect(reading);
    if !ok {
      return -1, ReadFailed;
    }
    var s := pair.State();
    if s.current.operations == 0 && s.previous.operations == 0 {
      return -1, Idle;
    }
    var total := Delta(s.current.operations, s.previous.operations);
    rc, o := 0, Counted(Rate(total, shift), NonZero(total));
  }

  /** `v3 && v4` on the two return codes */
  function NfsResult(rc3: int, rc4: int): (r: int)
    ensures r == 0 || r == 1
    ensures r == 0 <==> rc3 == 0 || rc4 == 0
  {
    if rc3 != 0 && rc4 != 0 then 1 else 0
  }

  /** call_nfs: both versions are collected; it fails only when neither printed counted values */
  method CallNfs(v3: SnapshotPair<Nfs3Client>, v4: SnapshotPair<Nfs4Client>,
                 r3: Option<Nfs3Client>, r4: Option<Nfs4Client>, shift: nat)
    returns (rc: int, o3: NfsOutcome, o4: NfsOutcome)
    requires v3.Valid() && v4.Valid()
    modifies v3, v3.data, v4, v4.data
    ensures v3.Valid() && v4.Valid()
    ensures v3.State() == Advance(old(v3.State()), r3)
    ensures v4.State() == Advance(old(v4.State()), r4)
    ensures rc == NfsResult(ReturnCode(o3), ReturnCode(o4))
    ensures rc != 0 <==> !o3.Counted? && !o4.Counted?
  {
    var rc3, rc4;
    rc3, o3 := CallNfsv3(v3, r3, shift);
    rc4, o4 := CallNfsv4(v4, r4, shift);
    rc := NfsResult(rc3, rc4);
  }

  /** group()'s result for a standalone group: -1 only for NFS when call_nfs failed */
  function GroupResult(grp: nat, nfsResult: int): (r: int)
    ensures r == 0 || r == -1
  {
    if grp == NFS_GROUP && nfsResult != 0 then -1 else 0
  }

  /** A standalone group's document is dropped exactly when it is NFS and neither version counted */
  lemma GroupDropsOnlyIdleNfs(grp: nat, o3: NfsOutcome, o4: NfsOutcome)
    ensures GroupResult(grp, NfsResult(ReturnCode(o3), ReturnCode(o4))) == -1
        <==> grp == NFS_GROUP && !o3.Counted? && !o4.Counted?
  {
  }
}
