/**
 * The integer values each metric group derives from a current and a
 * previous reading: deltas, rates over the group's period (`>> shift`),
 * averages over guarded divisors and the paging used-percentage.  The
 * floating-point percentages and the JSON layout are not modelled.
 */
module Reports {
  import opened Words
  import opened Counters
  import opened PerfRecords

  /** MEM_DECAL on Linux: sizes in KB are printed in MB */
  const MEM_DECAL: nat := 10

  /** ptotal: the four processor tick deltas, summed on uint64_t and guarded */
  function PTotal(curr: CpuTotal, prev: CpuTotal): (r: U64)
    ensures r >= 1
  {
    NonZero(Sum4(Delta(curr.puser, prev.puser), Delta(curr.psys, prev.psys),
                 Delta(curr.pidle, prev.pidle), Delta(curr.pwait, prev.pwait)))
  }

  /** The per-CPU total: the same guarded sum over one processor's ticks */
  function CpuTicksTotal(curr: Cpu, prev: Cpu): (r: U64)
    ensures r >= 1
  {
    NonZero(Sum4(Delta(curr.user, prev.user), Delta(curr.sys, prev.sys),
                 Delta(curr.idle, prev.idle), Delta(curr.wait, prev.wait)))
  }

  /** processorMHZ, computed once from the first reading */
  function ProcessorMHz(first: CpuTotal): U64
  {
    first.processorHZ / 1000000
  }

  /** The integer fields of the cpu_total section */
  datatype CpuTotalReport = CpuTotalReport(
    active: int, run_queue_s: U64, context_switch_s: U64, ptotal: U64)

  function CpuTotalValues(curr: CpuTotal, prev: CpuTotal): CpuTotalReport
  {
    CpuTotalReport(curr.ncpus, Delta(curr.runque, prev.runque),
                   Delta(curr.pswitch, prev.pswitch), PTotal(curr, prev))
  }

  /** `100 - (pgsp_free*100) / NONZERO(pgsp_total)`, all on uint64_t */
  function PagingUsedPct(total: U64, free: U64): U64
  {
    SubU64(100, DivU64(MulU64(free, 100), NonZero(total)))
  }

  /** The integer fields of the memory section */
  datatype MemoryReport = MemoryReport(
    virt_total: U64, real_total: U64, real_free: U64, virt_active_pg: U64,
    pgins_s: U64, pgouts_s: U64, pgspins_s: U64, pgspouts_s: U64,
    huge_size_kb: U64, huge_total: U64, huge_free: U64,
    paging_total: U64, paging_used_pct: U64, faults_s: U64)

  function MemoryValues(curr: MemoryTotal, prev: MemoryTotal, shift: nat): MemoryReport
  {
    MemoryReport(
      Shr(curr.virt_total, MEM_DECAL), Shr(curr.real_total, MEM_DECAL),
      Shr(curr.real_free, MEM_DECAL), curr.virt_active,
      Rate(Delta(curr.pgins, prev.pgins), shift),
      Rate(Delta(curr.pgouts, prev.pgouts), shift),
      Rate(Delta(curr.pgspins, prev.pgspins), shift),
      Rate(Delta(curr.pgspouts, prev.pgspouts), shift),
      curr.huge_size, curr.huge_total, curr.huge_free,
      curr.pgsp_total, PagingUsedPct(curr.pgsp_total, curr.pgsp_free),
      Rate(Delta(curr.pgexct, prev.pgexct), shift))
  }

  /** The integer fields of one disk's section */
  datatype DiskReport = DiskReport(
    name: string, busy_pct: U64,
    read_blocks_s: U64, read_time_avg_us: U64,
    write_blocks_s: U64, write_time_avg_us: U64,
    queue_time_avg_us: U64, write_len_avg: U64, read_len_avg: U64, wq_depth: U64)

  function DiskValues(curr: Disk, prev: Disk, shift: nat): DiskReport
  {
    DiskReport(
      curr.name,
      Rate(Delta(curr.time, prev.time), shift),
      Rate(Delta(curr.rblks, prev.rblks), shift),
      DivU64(Delta(curr.rserv, prev.rserv), NonZero(Delta(curr.rfers, prev.rfers))),
      Rate(Delta(curr.wblks, prev.wblks), shift),
      DivU64(Delta(curr.wserv, prev.wserv), NonZero(Delta(curr.wfers, prev.wfers))),
      DivU64(Delta(curr.wq_time, prev.wq_time),
             NonZero(AddU64(Delta(curr.wfers, prev.wfers), Delta(curr.rfers, prev.rfers)))),
      Rate(Delta(curr.wq_sampled, prev.wq_sampled), shift),
      Rate(Delta(curr.q_sampled, prev.q_sampled), shift),
      curr.wq_depth)
  }

  /** The integer fields of one network interface's section */
  datatype NetReport = NetReport(
    name: string, in_packets_s: U64, in_errors: U64, in_bytes_s: U64,
    out_packets_s: U64, out_errors: U64, out_bytes_s: U64,
    collisions: U64, drops: U64)

  function NetValues(curr: NetInterface, prev: NetInterface, shift: nat): NetReport
  {
    NetReport(
      curr.name,
      Rate(Delta(curr.ipackets, prev.ipackets), shift), curr.ierrors,
      Rate(Delta(curr.ibytes, prev.ibytes), shift),
      Rate(Delta(curr.opackets, prev.opackets), shift), curr.oerrors,
      Rate(Delta(curr.obytes, prev.obytes), shift),
      curr.collisions, AddU64(curr.xmitdrops, curr.if_iqdrops))
  }

  /** The integer fields of one fibre-channel adapter's section */
  datatype FcReport = FcReport(
    name: string, rx_kb_s: U64, tx_kb_s: U64,
    err_frm_s: U64, err_frm_tot: U64, lost_frm_s: U64, lost_frm_tot: U64,
    link_fail_s: U64, link_fail_tot: U64)

  function FcValues(curr: FcStat, prev: FcStat, shift: nat): FcReport
  {
    FcReport(
      curr.name,
      Rate(Delta(curr.RxWords, prev.RxWords), shift),
      Rate(Delta(curr.TxWords, prev.TxWords), shift),
      Rate(Delta(curr.ErrorFrames, prev.ErrorFrames), shift), curr.ErrorFrames,
      Rate(Delta(curr.DumpedFrames, prev.DumpedFrames), shift), curr.DumpedFrames,
      Rate(Delta(curr.LinkFailureCount, prev.LinkFailureCount), shift), curr.LinkFailureCount)
  }

  /** The processor deltas of the two readings of the worked example sum to 280 */
  lemma PTotalExample()
    ensures PTotal(CpuTotal(1, 0, 0, 0, 150, 70, 1000, 60),
                   CpuTotal(1, 0, 0, 0, 100, 50, 800, 50)) == 280
  {
  }

  /** With no tick elapsed the guarded totals are 1, so nothing divides by zero */
  lemma IdleCpuTotals(t: CpuTotal, c: Cpu)
    ensures CpuTotalValues(t, t) == CpuTotalReport(t.ncpus, 0, 0, 1)
    ensures CpuTicksTotal(c, c) == 1
  {
  }

  /** Without overflow the CPU totals are the plain sums of the deltas */
  lemma CpuTicksTotalExact(curr: Cpu, prev: Cpu)
    requires curr.user >= prev.user && curr.sys >= prev.sys
    requires curr.idle >= prev.idle && curr.wait >= prev.wait
    requires curr.user + curr.sys + curr.idle + curr.wait > prev.user + prev.sys + prev.idle + prev.wait
    requires curr.user + curr.sys + curr.idle + curr.wait < U64_LIMIT
    ensures CpuTicksTotal(curr, prev)
         == (curr.user + curr.sys + curr.idle + curr.wait) - (prev.user + prev.sys + prev.idle + prev.wait)
  {
  }

  /** Without overflow `ptotal` is the growth of puser+psys+pidle+pwait */
  lemma PTotalExact(curr: CpuTotal, prev: CpuTotal)
    requires curr.puser >= prev.puser && curr.psys >= prev.psys
    requires curr.pidle >= prev.pidle && curr.pwait >= prev.pwait
    requires curr.puser + curr.psys + curr.pidle + curr.pwait > prev.puser + prev.psys + prev.pidle + prev.pwait
    requires curr.puser + curr.psys + curr.pidle + curr.pwait < U64_LIMIT
    ensures PTotal(curr, prev)
         == (curr.puser + curr.psys + curr.pidle + curr.pwait) - (prev.puser + prev.psys + prev.pidle + prev.pwait)
  {
  }

  /** With no paging space configured the used percentage is 100 */
  lemma PagingWithoutSwap()
    ensures PagingUsedPct(0, 0) == 100
  {
  }

  /** For a consistent reading the used percentage is 100 minus the rounded-down free percentage */
  lemma PagingUsedPctRange(total: U64, free: U64)
    requires 0 < total && free <= total && free * 100 < U64_LIMIT
    ensures PagingUsedPct(total, free) == 100 - (free * 100) / total
    ensures 0 <= PagingUsedPct(total, free) <= 100
  {
    var q := (free * 100) / total;
    assert q * total <= free * 100;
    MulCancel(total, q, 101);
  }

  /** Two identical memory readings give zero paging and fault rates */
  lemma IdleMemory(m: MemoryTotal, shift: nat)
    ensures var r := MemoryValues(m, m, shift);
      r.pgins_s == 0 && r.pgouts_s == 0 && r.pgspins_s == 0 && r.pgspouts_s == 0 && r.faults_s == 0
  {
  }

  /** Two identical disk readings give zero rates and zero averages */
  lemma IdleDisk(d: Disk, shift: nat)
    ensures DiskValues(d, d, shift) == DiskReport(d.name, 0, 0, 0, 0, 0, 0, 0, 0, d.wq_depth)
  {
  }

  /** A disk seen for the first time is measured against a zeroed slot: its rates are its raw counters */
  lemma FirstDiskReading(d: Disk)
    ensures var r := DiskValues(d, ZeroDisk, 0);
      r.busy_pct == d.time && r.read_blocks_s == d.rblks && r.write_blocks_s == d.wblks
      && r.write_len_avg == d.wq_sampled && r.read_len_avg == d.q_sampled
  {
  }

  /** Two identical interface readings give zero traffic rates */
  lemma IdleNet(n: NetInterface, shift: nat)
    ensures NetValues(n, n, shift)
         == NetReport(n.name, 0, n.ierrors, 0, 0, n.oerrors, 0, n.collisions, AddU64(n.xmitdrops, n.if_iqdrops))
  {
  }

  /** Two identical adapter readings give zero rates, and the totals are the raw counters */
  lemma IdleFc(f: FcStat, shift: nat)
    ensures FcValues(f, f, shift)
         == FcReport(f.name, 0, 0, 0, f.ErrorFrames, 0, f.DumpedFrames, 0, f.LinkFailureCount)
  {
  }
}
