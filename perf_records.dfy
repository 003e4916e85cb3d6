/**
 * The raw samples the collectors hand to the core: one datatype per reader
 * structure, with the integer fields the core uses.  Names are the C
 * strings stored in the records' `name[ID_LENGTH]` members.
 */
module PerfRecords {
  import opened Words

  const ID_LENGTH: nat := 64

  /** perfunix_cpu_total_t, without the floating-point load averages */
  datatype CpuTotal = CpuTotal(
    ncpus: int, processorHZ: U64, pswitch: U64, runque: U64,
    puser: U64, psys: U64, pidle: U64, pwait: U64)

  /** perfunix_cpu_t: the ticks of one processor */
  datatype Cpu = Cpu(user: U64, sys: U64, idle: U64, wait: U64)

  /** perfunix_memory_total_t */
  datatype MemoryTotal = MemoryTotal(
    virt_total: U64, real_total: U64, real_free: U64,
    huge_total: U64, huge_free: U64, huge_size: U64,
    pgexct: U64, pgins: U64, pgouts: U64, pgspins: U64, pgspouts: U64,
    pgsp_total: U64, pgsp_free: U64, virt_active: U64)

  /** perfunix_disk_t */
  datatype Disk = Disk(
    name: string, time: U64, rblks: U64, rserv: U64, rfers: U64,
    wfers: U64, wblks: U64, wserv: U64, wq_time: U64,
    wq_sampled: U64, q_sampled: U64, wq_depth: U64)

  /** perfunix_netinterface_t */
  datatype NetInterface = NetInterface(
    name: string, ipackets: U64, ibytes: U64, ierrors: U64,
    opackets: U64, obytes: U64, oerrors: U64,
    collisions: U64, xmitdrops: U64, if_iqdrops: U64)

  /** perfunix_fcstat_t */
  datatype FcStat = FcStat(
    name: string, TxWords: U64, RxWords: U64, ErrorFrames: U64,
    DumpedFrames: U64, LinkFailureCount: U64)

  /** perfunix_protocol_t as the NFS v3 collector reads it: `u.nfsv3.client` */
  datatype Nfs3Client = Nfs3Client(
    calls: U64, nulls: U64, getattr: U64, setattr: U64,
    lookup: U64, access: U64, read: U64, write: U64)

  /** perfunix_protocol_t as the NFS v4 collector reads it: `u.nfsv4.client` */
  datatype Nfs4Client = Nfs4Client(
    operations: U64, nulls: U64, read: U64, write: U64, setattr: U64,
    lock: U64, unlock: U64, access: U64, getattr: U64, lookup: U64)

  /** The slots the name-matched tables append, zeroed by memset */
  const ZeroCpu: Cpu := Cpu(0, 0, 0, 0)
  const ZeroDisk: Disk := Disk("", 0, 0, 0, 0, 0, 0, 0, 0, 0, 0, 0)
  const ZeroNetInterface: NetInterface := NetInterface("", 0, 0, 0, 0, 0, 0, 0, 0, 0)
  const ZeroFcStat: FcStat := FcStat("", 0, 0, 0, 0, 0)
}
