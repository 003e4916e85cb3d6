/**
 * The process records: what the process reader returns for one process
 * (procentry64) and the node the monitor keeps per live pid (process_t),
 * with the three ways the node is filled.
 */
module ProcRecords {
  import opened Words
  import opened Counters

  /** The zombie state letter and the kernel-process flag mask of the Linux reader */
  const SZOMB: char := 'Z'
  const SKPROC: nat := 0
  /** Sizes are pages of 1 KB printed in MB */
  const MEM_SHIFT: nat := 10

  /** struct procentry64 */
  datatype ProcEntry = ProcEntry(
    pid: U32, state: char, flags: U64, size: int, comm: string, utime: U64, stime: U64)

  /** process_t without its `next` link: the list order is the order of a sequence */
  datatype Proc = Proc(pid: U64, cpu_ms: U64, mem: U64, cpu_pml: U64, name: string, odd: Byte)

  /** The entries the cycle looks at: neither zombies nor kernel processes */
  predicate Kept(e: ProcEntry)
  {
    e.state != SZOMB && BitAnd(e.flags, SKPROC) == 0
  }

  /** TIMED(utime) + TIMED(stime), on uint64_t */
  function CpuMs(e: ProcEntry): U64
  {
    AddU64(e.utime, e.stime)
  }

  /** `((TYPE_ULL)pi_size) MEM_DECAL`: the signed size converted to 64 bits, then shifted */
  function MemOf(e: ProcEntry): (m: U64)
    ensures e.size >= 0 && e.size < U64_LIMIT ==> m == Shr(e.size, MEM_SHIFT)
  {
    Shr(e.size % U64_LIMIT, MEM_SHIFT)
  }

  /** store_procentry_init */
  function StoreInit(e: ProcEntry, odd: Byte): Proc
  {
    Proc(e.pid, CpuMs(e), MemOf(e), 0, e.comm, odd)
  }

  /** store_procentry_new: a process seen for the first time is charged its whole CPU time */
  function StoreNew(e: ProcEntry, odd: Byte): Proc
  {
    StoreInit(e, odd).(cpu_pml := CpuMs(e))
  }

  /** store_procentry_delta: the CPU time since the previous cycle; the name is not re-read */
  function StoreDelta(p: Proc, e: ProcEntry, odd: Byte): Proc
  {
    var t := CpuMs(e);
    p.(cpu_pml := Delta(t, p.cpu_ms), cpu_ms := t, mem := MemOf(e), odd := odd)
  }

  /** The two comparison functions classTopTen is given */
  datatype Comparator = CompareCpu | CompareMem

  /** The field a comparator orders by: `compare(a, b)` is `Key(a) < Key(b)` */
  function Key(c: Comparator, p: Proc): U64
  {
    match c
    case CompareCpu => p.cpu_pml
    case CompareMem => p.mem
  }

  /** Every Linux entry except a zombie is kept: the kernel-process mask is empty */
  lemma KeptIffNotZombie(e: ProcEntry)
    ensures Kept(e) <==> e.state != SZOMB
  {
  }

  /**
   * A new record is charged its whole CPU time; an updated one the time
   * since the previous cycle, keeping its pid and name.
   */
  lemma StoredCharges(p: Proc, e: ProcEntry, odd: Byte)
    requires e.utime + e.stime < U64_LIMIT && p.cpu_ms <= e.utime + e.stime
    ensures StoreNew(e, odd).cpu_pml == e.utime + e.stime && StoreNew(e, odd).pid == e.pid
    ensures var q := StoreDelta(p, e, odd);
      q.cpu_pml == e.utime + e.stime - p.cpu_ms && q.cpu_ms == e.utime + e.stime
      && q.pid == p.pid && q.name == p.name && q.odd == odd
  {
  }
}
