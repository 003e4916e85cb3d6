/**
 * stats_allocate: which per-group state is prepared (a first reading, an
 * empty table) before the sampling loop starts, given the group types the
 * command line left in freq_data.  Each call_* routine reads the state of
 * its own init routine, so every group that can fire must have had it
 * prepared.
 */
module Setup {
  import opened Scheduler

  /** The init routines stats_allocate may call */
  datatype Init =
    | CpuTotalInit | CpuInit | MemoryTotalInit | PagingSpaceInit | DiskInit | FilesystemsInit
    | NfsInit | NetInterfaceInit | FcStatInit | ProcessesInit

  /** The state each group's call routines read, whether it fires embedded or standalone */
  function Needed(g: nat): set<Init>
  {
    if g == CPU_TOTAL_GROUP then {CpuTotalInit}
    else if g == CPUS_GROUP then {CpuInit}
    else if g == MEMORY_GROUP then {MemoryTotalInit, PagingSpaceInit}
    else if g == DISKS_GROUP then {DiskInit, FilesystemsInit}
    else if g == NFS_GROUP then {NfsInit}
    else if g == ADAPTERS_GROUP then {NetInterfaceInit, FcStatInit}
    else if g == PROCESSES_GROUP then {ProcessesInit}
    else {}
  }

  /** The group whose call routines read the state an init routine prepares */
  function Owner(x: Init): (g: nat)
    ensures g < GROUP_MAX && x in Needed(g)
    ensures forall h :: x in Needed(h) ==> h == g
  {
    match x
    case CpuTotalInit => CPU_TOTAL_GROUP
    case CpuInit => CPUS_GROUP
    case MemoryTotalInit | PagingSpaceInit => MEMORY_GROUP
    case DiskInit | FilesystemsInit => DISKS_GROUP
    case NfsInit => NFS_GROUP
    case NetInterfaceInit | FcStatInit => ADAPTERS_GROUP
    case ProcessesInit => PROCESSES_GROUP
  }

  /** A group fires at some tick exactly when its type is non-zero (embedded if positive, standalone if negative) */
  predicate Active(types: seq<int>, g: nat)
    requires |types| == GROUP_MAX
  {
    g < GROUP_MAX && types[g] != 0
  }

  /** stats_allocate as written: the NFS readings are prepared under the DISKS group */
  function AllocatedAsWritten(types: seq<int>): set<Init>
    requires |types| == GROUP_MAX
  {
    (if types[CPU_TOTAL_GROUP] != 0 then {CpuTotalInit} else {})
    + (if types[CPUS_GROUP] != 0 then {CpuInit} else {})
    + (if types[MEMORY_GROUP] != 0 then {MemoryTotalInit, PagingSpaceInit} else {})
    + (if types[DISKS_GROUP] != 0 then {DiskInit, FilesystemsInit, NfsInit} else {})
    + (if types[ADAPTERS_GROUP] != 0 then {NetInterfaceInit, FcStatInit} else {})
    + (if types[PROCESSES_GROUP] != 0 then {ProcessesInit} else {})
  }

  /** stats_allocate with the NFS readings prepared under their own group: the init routines of every active group */
  function Allocated(types: seq<int>): (r: set<Init>)
    requires |types| == GROUP_MAX
    ensures forall g :: 0 <= g < GROUP_MAX && Active(types, g) ==> Needed(g) <= r
    ensures forall x :: x in r ==> exists g :: 0 <= g < GROUP_MAX && Active(types, g) && x in Needed(g)
  {
    PreparedBelow(types, GROUP_MAX)
  }

  /** The init routines of the active groups below n */
  function PreparedBelow(types: seq<int>, n: nat): (r: set<Init>)
    requires |types| == GROUP_MAX && n <= GROUP_MAX
    ensures forall g :: 0 <= g < n && Active(types, g) ==> Needed(g) <= r
    ensures forall x :: x in r ==> exists g :: 0 <= g < n && Active(types, g) && x in Needed(g)
  {
    if n == 0 then {}
    else PreparedBelow(types, n - 1) + (if types[n - 1] != 0 then Needed(n - 1) else {})
  }

  /** The corrected allocation prepares an init routine exactly when its owning group is active */
  lemma AllocatedMembers(types: seq<int>)
    requires |types| == GROUP_MAX
    ensures forall x :: x in Allocated(types) <==> types[Owner(x)] != 0
  {
    forall x
      ensures x in Allocated(types) <==> types[Owner(x)] != 0
    {
      if x in Allocated(types) {
        var g :| 0 <= g < GROUP_MAX && Active(types, g) && x in Needed(g);
      } else {
        assert !(Needed(Owner(x)) <= Allocated(types));
      }
    }
  }

  /** As written, the NFS readings follow the DISKS group; every other init routine follows its owner */
  lemma AsWrittenMembers(types: seq<int>)
    requires |types| == GROUP_MAX
    ensures forall x :: x in AllocatedAsWritten(types) <==>
      types[if x == NfsInit then DISKS_GROUP else Owner(x)] != 0
  {
    forall x
      ensures x in AllocatedAsWritten(types) <==> types[if x == NfsInit then DISKS_GROUP else Owner(x)] != 0
    {
      match x
      case CpuTotalInit =>
      case CpuInit =>
      case MemoryTotalInit =>
      case PagingSpaceInit =>
      case DiskInit =>
      case FilesystemsInit =>
      case NfsInit =>
      case NetInterfaceInit =>
      case FcStatInit =>
      case ProcessesInit =>
    }
  }

  /** The two agree whenever the DISKS and NFS groups are switched on together or both off */
  lemma AllocationsAgree(types: seq<int>)
    requires |types| == GROUP_MAX
    requires (types[DISKS_GROUP] != 0) == (types[NFS_GROUP] != 0)
    ensures AllocatedAsWritten(types) == Allocated(types)
  {
    AllocatedMembers(types);
    AsWrittenMembers(types);
    assert forall x :: x in AllocatedAsWritten(types) <==> x in Allocated(types);
  }

  /** With only the NFS group on (option -n), the NFS group fires but its readings were never prepared */
  lemma NfsUnpreparedAsWritten()
    ensures var types := [0, 0, 0, 0, 1, 0, 0];
      Active(types, NFS_GROUP) && !(Needed(NFS_GROUP) <= AllocatedAsWritten(types))
  {
    var types := [0, 0, 0, 0, 1, 0, 0];
    assert NfsInit in Needed(NFS_GROUP);
    assert NfsInit !in AllocatedAsWritten(types);
  }
}
