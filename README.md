# jsonperfmon sampling core, in Dafny

jsonperfmon wakes once a second and decides which metric groups are due. The
groups are CPU total, per-CPU, memory, disks, NFS, adapters and processes.
It reads each due group's raw counters and prints one JSON document with the
per-interval values derived from them. This project models the part of the
program that holds state and does integer arithmetic:

- the counter arithmetic: the wrap-around difference `DELTATYPE`, the divisor
  guard `NONZERO`, the rates `delta >> shift` and the integer totals
  (`counters.dfy`, `reports.dfy`);
- the frequency scheduler: the `freq_data` table, `set_global_freq`,
  `set_group_freq`, the firing rules of `standard`, `group` and the main loop,
  and the command-line mapping (`scheduler.dfy`);
- the two-slot snapshot pair of the total groups, which `SWAPTOTAL` swaps
  before every read, and the NFS idle rule (`snapshot.dfy`);
- the tables of previous readings: the positional per-CPU table and the
  name-matched disk, network-interface and FC-adapter tables, with their
  capacity made explicit (`tables.dfy`);
- the process list sorted by pid, one `call_processes` cycle, and the bounded
  top-N ranking `classTopTen` (`proc_records.dfy`, `ranking.dfy`,
  `processes.dfy`);
- which init routines `stats_allocate` runs (`setup.dfy`);
- the `GString` output buffer of `glib_compat.c` (`gstring.dfy`).

The raw readings come in as parameters, for example a sequence of disk records
or of process entries. A failed read is `None`. A failed `malloc` is a boolean
parameter. Machine words are subset types of `int` (`U64`, `U32`, `Byte`).
Every wrap-around is written out: `AddU64`, `SubU64` and `Delta` as written.

Facts about the code that a reader might not expect:

- For CPU-total readings where `puser` goes 100→150, `psys` 50→70, `pidle`
  800→1000 and `pwait` 50→60, `ptotal` is 50+20+200+10 = 280
  (src/jsonperf.c:236-237, `Reports.PTotalExample`).
- A component group whose capacity probe returns less than 1, zero
  included, returns -1 (src/jsonperf.c:112-113). The table methods model
  that.
- When the second, filling process read returns no entries, the cycle sees
  no live entries, and the sweep then unlinks every record in the list
  (src/jsonperf.c:1178-1191). This is modelled as an empty entry sequence.
- A name-matched table is regrown to the live count only when `nb` is below
  that count (src/jsonperf.c:537-538). That is not always enough room: see
  the findings.

## Model

| member | source | states |
|---|---|---|
| Words.Shr | src/jsonperf.c:427-430 | `x >> s` is the floor of x / 2^s and never exceeds x |
| Words.AndLowMask | src/jsonperf.c:1386 | `t & (2^w - 1)` is t mod 2^w |
| Words.BitAnd | src/jsonperf.c:1386 | `a & b` bit by bit; it never exceeds either operand |
| Words.AndLowMaskZero | src/jsonperf.c:1386-1423 | `t & (2^w - 1)` is zero exactly when 2^w divides t |
| Words.LowMaskOrder | src/jsonperf.c:1587 | a tick that clears a larger low mask clears every smaller low mask |
| Counters.Delta | src/jsonperf.c:89-94 | without wrap the delta is curr - prev; after a wrap it is one less than the true modular difference |
| Counters.NonZero | src/jsonperf.c:96 | the guarded divisor is its argument when that is non-zero and 1 when it is zero |
| Counters.AddU64 | src/jsonperf.c:236 | unsigned 64-bit addition: the sum, or the sum minus 2^64 when it overflows |
| Counters.MulU64 | src/jsonperf.c:442 | unsigned 64-bit product, exact when it does not overflow |
| Counters.SubU64 | src/jsonperf.c:442 | unsigned 64-bit subtraction: the difference, or the difference plus 2^64 when it goes below zero |
| Counters.DivU64 | src/jsonperf.c:442 | unsigned division is the floor of a / b |
| Counters.Rate | src/jsonperf.c:427-430 | the per-second rate is the floor of delta / 2^shift and never exceeds the delta |
| Counters.Sum4 | src/jsonperf.c:236 | the sum of four deltas is exact when it does not overflow |
| Counters.DeltaOfEqual | src/jsonperf.c:89-94 | an unchanged counter has delta 0 |
| Counters.DeltaZeroIff | src/jsonperf.c:89-94 | the delta is 0 exactly when the counter did not move, or when it went from UINTMAX_MAX to 0 |
| Counters.DeltaVersusModular | src/jsonperf.c:89-94 | the delta equals (curr - prev) mod 2^64 without wrap and is one less with wrap |
| Counters.DeltaFromZero | src/jsonperf.c:342-346 | against a zeroed slot the delta is the reading itself |
| Counters.RateOfZero | src/jsonperf.c:427-430 | an idle counter has rate 0 at every period |
| Counters.RateOfShiftZero | src/jsonperf.c:427-430 | at a one-second period the rate is the delta |
| Reports.PTotal | src/jsonperf.c:236-237 | the CPU-total divisor `ptotal` is at least 1 |
| Reports.ProcessorMHz | src/jsonperf.c:219 | `processorMHZ` is the first reading's `processorHZ` divided by 10^6, rounded down (definition) |
| Reports.CpuTotalValues | src/jsonperf.c:223-237 | the integer fields of the cpu_total section: run-queue and context-switch deltas and `ptotal` (definition; properties in Reports.IdleCpuTotals) |
| Reports.CpuTicksTotal | src/jsonperf.c:346-347 | the per-CPU divisor is at least 1 |
| Reports.PTotalExample | src/jsonperf.c:236-237 | the code's `ptotal` for the end-to-end example is 280 |
| Reports.PTotalExact | src/jsonperf.c:236-237 | when no counter wraps and some tick elapsed, `ptotal` is the growth of puser+psys+pidle+pwait |
| Reports.IdleCpuTotals | src/jsonperf.c:236-237 | two identical readings give zero deltas and a guarded total of 1, for the CPU total and for one CPU |
| Reports.CpuTicksTotalExact | src/jsonperf.c:346-347 | when no counter wraps, the per-CPU total is the growth of user+sys+idle+wait |
| Reports.PagingWithoutSwap | src/jsonperf.c:442 | with no paging space the used percentage prints as 100 |
| Reports.PagingUsedPctRange | src/jsonperf.c:442 | with free <= total the used percentage is 100 - floor(100·free/total), within 0..100 |
| Reports.PagingUsedPct | src/jsonperf.c:442 | `100 - (free*100)/NONZERO(total)` on unsigned 64-bit words (definition; properties in Reports.PagingWithoutSwap and Reports.PagingUsedPctRange) |
| Reports.MemoryValues | src/jsonperf.c:382-442 | the integer fields of the memory section: sizes shifted by MEM_DECAL, paging rates as delta >> shift (definition; properties in Reports.IdleMemory) |
| Reports.IdleMemory | src/jsonperf.c:427-430 | an unchanged memory reading gives zero paging and fault rates |
| Reports.DiskValues | src/jsonperf.c:591-628 | the integer fields of one disk: rates as delta >> shift, service times divided by the guarded transfer deltas (definition; properties in Reports.IdleDisk and Reports.FirstDiskReading) |
| Reports.IdleDisk | src/jsonperf.c:591-628 | an unchanged disk gives all-zero rates and keeps its name and queue depth |
| Reports.FirstDiskReading | src/jsonperf.c:591-626 | against a zeroed slot at a one-second period the disk values are the raw counters |
| Reports.NetValues | src/jsonperf.c:930-941 | the integer fields of one interface: packet and byte rates, absolute error counts, drops summed (definition; properties in Reports.IdleNet) |
| Reports.IdleNet | src/jsonperf.c:930-941 | an unchanged interface gives zero packet and byte rates; the error and drop counts are absolute |
| Reports.FcValues | src/jsonperf.c:1013-1024 | the integer fields of one adapter: word and frame rates and the absolute error counts (definition; properties in Reports.IdleFc) |
| Reports.IdleFc | src/jsonperf.c:1013-1024 | an unchanged adapter gives zero rates; the absolute error counts pass through |
| GlibCompat.ScanNul | src/glib_compat.c:16-20 | the scan stops at the first NUL at or after i, or at MAX_LEN |
| GlibCompat.SafeStrlen | src/glib_compat.c:14-21 | the length is the index of the first NUL within MAX_LEN bytes, or MAX_LEN if there is none |
| GlibCompat.SafeStrlenOfTerminated | src/glib_compat.c:14-21 | a NUL-terminated text shorter than MAX_LEN has its own length |
| GlibCompat.GrownLen | src/glib_compat.c:60-62 | the growth rule never shrinks the allocation, leaves room for the text, and grows only when the text does not fit |
| GlibCompat.GString.SizedNew | src/glib_compat.c:30-42 | a new buffer is empty with allocated_len dfl_size + 1 |
| GlibCompat.NewGString | src/glib_compat.c:30-42 | the result is null exactly when malloc fails, otherwise an empty valid buffer |
| GlibCompat.GString.Regrow | src/glib_compat.c:63-69 | the new allocation keeps the old text and its NUL |
| GlibCompat.GString.CopyIn | src/glib_compat.c:107 | memcpy writes exactly the copied range |
| GlibCompat.GString.PutAt | src/glib_compat.c:113-114 | the text is placed at the offset and len moves past it |
| GlibCompat.GString.Append | src/glib_compat.c:90-119 | the content becomes old content + val, len grows by safe_strlen(val), growth follows the +512 rule; a failed malloc changes nothing |
| GlibCompat.GString.Assign | src/glib_compat.c:121-146 | the content becomes val; the allocation becomes required + 512 only when val does not fit; a failed malloc changes nothing |
| GlibCompat.GString.RenderAt | src/glib_compat.c:56-58 | vsnprintf writes as much of the text as fits, NUL-terminated, after the content |
| GlibCompat.GString.AppendPrintf | src/glib_compat.c:51-88 | the rendered text is appended with the growth rule; a failed malloc keeps content, len and allocation |
| Scheduler.GroupMask | src/jsonperf.c:1360-1369 | a per-group mask is always 2^s - 1 for some s |
| Scheduler.GlobalMask | src/jsonperf.c:1326-1331 | the global mask, evaluated without overflow, is always 2^s - 1 for some s |
| Scheduler.GlobalMaskAsWritten | src/jsonperf.c:1326 | the int shift `1<<shift` is defined exactly for shift <= 30 |
| Scheduler.ClampShift | src/jsonperf.c:1327-1331 | shifts above 31 become 31; others are kept |
| Scheduler.GroupSetting | src/jsonperf.c:1357-1369 | a group option stores its type, marks the group set, clamps the shift to 31, and stores mask 2^shift - 1, or UINTMAX_MAX beyond 31 |
| Scheduler.GlobalSetting | src/jsonperf.c:1326-1340 | the global option stores its type, leaves the group unset, clamps the shift to 31, and stores mask 2^shift - 1, or UINT32_MAX beyond 31 |
| Scheduler.MinMask | src/jsonperf.c:1371-1379 | `mask_freq` is at most every group's mask, at most UINT32_MAX, and is one of them unless it is UINT32_MAX |
| Scheduler.MinMaskStd | src/jsonperf.c:1371-1379 | `mask_freq_std` is the same minimum taken over the embedded groups only |
| Scheduler.EmbeddedDue | src/jsonperf.c:1386-1423 | a group is collected in the main document at t when its type is positive and t & mask is 0 (definition; properties in Scheduler.DueEmbedded and Scheduler.DueAtMultiples) |
| Scheduler.StandaloneDue | src/jsonperf.c:1598 | a group is collected on its own at t when its type is negative and t & mask is 0 (definition; properties in Scheduler.DueStandalone) |
| Scheduler.GatePasses | src/jsonperf.c:1587 | the main loop's outer test `(t & mask_freq_std) == 0` (definition; properties in Scheduler.GateAdmitsEmbedded) |
| Scheduler.TickAt | src/jsonperf.c:1587-1607 | what one second does: whether `standard` runs, the embedded groups it collects, and the standalone groups (definition; properties in Scheduler.TickCollectsAllDue and Scheduler.EmbeddedStandaloneDisjoint) |
| Scheduler.StandardPrints | src/jsonperf.c:1384-1425 | `standard` returns toprint, set when at least one embedded group was collected (definition; properties in Scheduler.TickCollectsAllDue) |
| Scheduler.DueEmbedded | src/jsonperf.c:1386-1423 | `standard` collects exactly the groups with type > 0 whose mask the tick clears, in group order |
| Scheduler.DueStandalone | src/jsonperf.c:1596-1607 | the main loop runs `group` exactly for the groups with type < 0 whose mask the tick clears, in group order |
| Scheduler.MinMaskStdIsLow | src/jsonperf.c:1371-1379 | the minimum of low masks is itself a low mask |
| Scheduler.GateAdmitsEmbedded | src/jsonperf.c:1587 | every tick at which an embedded group is due passes the outer gate on `mask_freq_std` |
| Scheduler.TickCollectsAllDue | src/jsonperf.c:1587-1595 | under the gate, `standard` runs the due embedded groups, and a document is printed exactly when at least one is due |
| Scheduler.EmbeddedStandaloneDisjoint | src/jsonperf.c:1598 | no group fires both embedded and standalone at the same tick |
| Scheduler.DueAtMultiples | src/jsonperf.c:1386 | a group with mask 2^w - 1 is due exactly at the multiples of 2^w |
| Scheduler.OptionType | src/jsonperf.c:1529 | the type is the sign of the option value |
| Scheduler.OptionShift | src/jsonperf.c:1530 | the shift is abs(n) - 1, which wraps to UINT32_MAX for 0 |
| Scheduler.GroupOptionPeriod | src/jsonperf.c:1528-1530 | a group option n fires every 2^(abs(n)-1) seconds, and only at tick 0 when abs(n) > 32 |
| Scheduler.GroupOfOption | src/jsonperf.c:1550-1551 | the loop finds the index of the option letter in "tumsnip", or GROUP_MAX when it is absent |
| Scheduler.LettersNameGroups | src/jsonperf.c:1523 | the letters t u m s n i p name the seven groups in order and are distinct |
| Scheduler.GlobalOptionShiftUndefined | src/jsonperf.c:1533 | `-A 0`, `-A 32` and `-A -32` reach the undefined shift |
| Scheduler.GlobalMaskAgrees | src/jsonperf.c:1326-1331 | where the written shift is defined, it gives the same mask as the corrected one |
| Scheduler.GlobalUpdate | src/jsonperf.c:1333-1341 | the global setting replaces exactly the groups whose `setted` flag is 0 |
| Scheduler.SettingKeepsWellFormed | src/jsonperf.c:1360-1369 | storing a low mask with a shift of at most 31 keeps every mask low |
| Scheduler.GlobalUpdateKeepsWellFormed | src/jsonperf.c:1333-1341 | the global update keeps every mask low and every shift at most 31 |
| Scheduler.FreqTable.Initialize | src/jsonperf.c:1278-1287 | every group starts unset, disabled, with shift 31 and mask UINT32_MAX; both minima are UINT32_MAX |
| Scheduler.FreqTable.Minima | src/jsonperf.c:1371-1376 | the loop computes both minima of the table |
| Scheduler.FreqTable.SetGroupFreq | src/jsonperf.c:1351-1380 | a group already set is left alone; otherwise it becomes set with the clamped mask, and the minima are recomputed |
| Scheduler.FreqTable.ApplyGlobal | src/jsonperf.c:1333-1341 | the loop performs the global update in place |
| Scheduler.FreqTable.SetGlobalFreq | src/jsonperf.c:1323-1349 | unset groups take the clamped global setting, `setted` never changes, and the minima are recomputed |
| Snapshots.LastTwoReadings | src/jsonperf.c:156-166 | after two successful reads, current and previous are those two readings |
| Snapshots.Advance | src/jsonperf.c:156-166 | one call: the old current becomes previous, and the read fills the new current, which keeps the older reading when the read fails (definition; properties in Snapshots.LastTwoReadings) |
| Snapshots.Replay | src/jsonperf.c:156-166 | the pair after a series of calls (definition; properties in Snapshots.FailuresAlternate and Snapshots.ReadAfterFailure) |
| Snapshots.FailuresAlternate | src/jsonperf.c:156-166 | a failed read still swaps the pair, so an odd run of failures leaves it swapped |
| Snapshots.ReadAfterFailure | src/jsonperf.c:156-166 | after a failure, the next delta is taken against the reading from two calls back |
| Snapshots.SnapshotPair.Init | src/jsonperf.c:169-178 | the first reading lands in data[0] as current |
| Snapshots.SnapshotPair.Collect | src/jsonperf.c:156-166 | the old current becomes previous and the read fills the new current; success exactly when the read succeeds |
| Snapshots.InitCpuTotal | src/jsonperf.c:218-221 | the first CPU-total reading is stored and gives the processor MHz |
| Snapshots.CallCpuTotal | src/jsonperf.c:223-237 | on success the CPU-total values use the reading and the one before it; a failed read returns -1 |
| Snapshots.CallMemoryTotal | src/jsonperf.c:382-442 | on success the memory values use the reading and the one before it; a failed read returns -1 |
| Snapshots.NfsOutcomeOf | src/jsonperf.c:797-807 | NFS is idle exactly when both readings have zero calls; otherwise the divisor is at least 1 |
| Snapshots.NfsCountsChange | src/jsonperf.c:806-807 | for a counter that did not go down and is not zero now, the move from an idle 0 reading included, the call rate is the delta >> shift and the divisor the guarded delta |
| Snapshots.ReturnCode | src/jsonperf.c:797-827 | an NFS call returns 0 exactly when it printed counted values, and -1 otherwise |
| Snapshots.Section | src/jsonperf.c:799-801 | a section opens with a quoted name and ends with `}`, or with `,` when FMTSEP follows |
| Snapshots.Nfs3Fragment | src/jsonperf.c:797-825 | the nfsv3 fragment with the idle section corrected to end with FMTSEP (definition; properties in Snapshots.NfsFragmentsSeparated) |
| Snapshots.Nfs3FragmentAsWritten | src/jsonperf.c:797-804 | the nfsv3 fragment as written, its idle section closed without FMTSEP (definition; properties in Snapshots.Nfs3IdleRunsOn) |
| Snapshots.Nfs4Fragment | src/jsonperf.c:837-867 | the nfsv4 fragment; its idle section ends with FMTSEP (definition; properties in Snapshots.NfsFragmentsSeparated) |
| Snapshots.NfsFragmentsSeparated | src/jsonperf.c:837-844 | the corrected idle and counted NFS sections all end with the separator |
| Snapshots.Nfs3IdleRunsOn | src/jsonperf.c:797-804 | as written, the idle nfsv3 section runs into the next section without a comma |
| Snapshots.CallNfsv3 | src/jsonperf.c:789-827 | the nfsv3 outcome and return code follow the idle rule on the swapped pair |
| Snapshots.CallNfsv4 | src/jsonperf.c:829-868 | the nfsv4 outcome and return code follow the idle rule on the swapped pair |
| Snapshots.NfsResult | src/jsonperf.c:873 | `v3 && v4` is 1 exactly when both protocol calls returned non-zero, and 0 otherwise |
| Snapshots.CallNfs | src/jsonperf.c:870-874 | `call_nfs` fails exactly when neither protocol produced counted values |
| Snapshots.GroupResult | src/jsonperf.c:1447-1449 | `group` returns 0 or -1 |
| Snapshots.GroupDropsOnlyIdleNfs | src/jsonperf.c:1447-1449 | a standalone document is dropped exactly for the NFS group when neither protocol counted |
| Tables.FirstMatch | src/jsonperf.c:541-544 | the search returns the first slot with the name, or nb |
| Tables.Stored | src/jsonperf.c:541-551 | storing a record overwrites only the first slot of its name; it appends one slot, holding the record, exactly when no slot has its name; every slot keeps its name and the record is in the table |
| Tables.PairFor | src/jsonperf.c:541-551 | a record is compared with the first slot of its name, or with the zeroed slot when no slot has its name |
| Tables.Reconciled | src/jsonperf.c:537-551 | one collection pass over the live records, storing and pairing each one not skipped (definition; properties in the Reconciled* lemmas) |
| Tables.ReconciledGrowth | src/jsonperf.c:546-550 | the table never shrinks, gains at most one slot per live record, and keeps every slot's name in place |
| Tables.ReconciledPairs | src/jsonperf.c:541-551 | each emitted pair holds a live record that is not skipped, compared with the first slot of its name in the table as it stood when the record was visited, or with a zeroed slot exactly when the table had no such name |
| Tables.ReconciledPairedAtVisit | src/jsonperf.c:541-551 | every pair of the pass is the one made at the visit of its live record, against the table as it stood then |
| Tables.ReconciledVisitsAll | src/jsonperf.c:537-551 | without skipped records, every live record is emitted once, in order |
| Tables.StoredKeepsDistinct | src/jsonperf.c:630 | storing a record keeps the slot names distinct |
| Tables.ReconciledStoresLive | src/jsonperf.c:630 | after the pass, every visited live record is stored in the table |
| Tables.ReconciledStable | src/jsonperf.c:541-551 | when every live record is already stored, the table is unchanged and every delta is zero |
| Tables.SecondPassIdle | src/jsonperf.c:541-551 | a second pass over the same live records finds every slot and sees no change |
| Tables.Regrown | src/jsonperf.c:537-538 | the corrected growth leaves room for every slot the pass can append |
| Tables.RegrownAsWritten | src/jsonperf.c:537-538 | the allocation as written: the live count when nb is below it, else unchanged (definition; its overflow is Tables.RegrownAsWrittenOverflows) |
| Tables.RegrownSuffices | src/jsonperf.c:537-551 | the reconciled table always fits the corrected allocation |
| Tables.RegrownAsWrittenOverflows | src/jsonperf.c:537-551 | with `sda` in a one-slot table and `sdb` live, the code does not grow the table but appends a second slot |
| Tables.NameTable.InitEmpty | src/jsonperf.c:880-884 | the network-interface table starts empty |
| Tables.NameTable.InitFromReading | src/jsonperf.c:513-529 | the disk and FC tables start with the first reading, or empty when the probe finds nothing |
| Tables.NameTable.Find | src/jsonperf.c:541-544 | the search loop returns the first match |
| Tables.NameTable.Place | src/jsonperf.c:546-551 | one live record: a match is overwritten, otherwise a zeroed slot is appended at nb |
| Tables.NameTable.Regrow | src/jsonperf.c:537-538 | realloc keeps the stored slots |
| Tables.NameTable.PlaceAll | src/jsonperf.c:540-551 | the loop performs the reconciliation pass in place |
| Tables.NameTable.Reconcile | src/jsonperf.c:531-551 | a probe below 1 returns -1 and changes nothing; otherwise the table grows as corrected and becomes the reconciled one |
| Tables.CallDisk | src/jsonperf.c:531-636 | a probe below 1 returns -1 and leaves the table unchanged; otherwise each live disk is reported against its previous reading or zero, and the table stores the live disks |
| Tables.LoopbackRule | src/jsonperf.c:898 | the loopback test skips `lo0`, but not `lo`, `lo10` or `eth` |
| Tables.CallNetInterface | src/jsonperf.c:886-950 | a probe below 1 returns -1 and leaves the table unchanged; otherwise loopback interfaces are skipped and every other interface is reported against its previous reading or zero |
| Tables.CallFcStat | src/jsonperf.c:972-1030 | a probe below 1 returns -1 and leaves the table unchanged; otherwise each adapter is reported against its previous reading or zero, and the table stores the live adapters |
| Tables.PositionalPairs | src/jsonperf.c:339-346 | CPU j is compared with slot j, or with zero when the slot is new |
| Tables.PositionalStored | src/jsonperf.c:339-346 | after a per-CPU pass slot j holds CPU j's reading and slots beyond the live count are kept (definition; properties in Tables.PositionalSecondPassIdle and Tables.CpuTable.Sweep) |
| Tables.PositionalSecondPassIdle | src/jsonperf.c:364 | after one pass, every slot holds its CPU's reading, so a second pass sees no change |
| Tables.PositionalRegrowSuffices | src/jsonperf.c:334-335 | for the positional table the written growth rule always suffices |
| Tables.CpuTable.Init | src/jsonperf.c:310-325 | the CPU table starts with the first reading, or empty when the probe finds nothing |
| Tables.CpuTable.Regrow | src/jsonperf.c:334-335 | realloc keeps the stored slots |
| Tables.CpuTable.Visit | src/jsonperf.c:339-346 | one CPU: a new slot is zeroed and counted; the slot then holds the reading |
| Tables.CpuTable.Sweep | src/jsonperf.c:337-365 | the loop stores every CPU in its slot and emits the positional pairs |
| Tables.CpuTable.Call | src/jsonperf.c:327-367 | a probe below 1 returns -1; otherwise nb becomes max(nb, live count) and each slot holds its CPU |
| Tables.CallCpu | src/jsonperf.c:327-367 | a probe below 1 returns -1 and leaves the table unchanged; otherwise nb becomes max(nb, live count), each slot holds its CPU's reading, and each CPU's guarded total, at least 1, is taken against its previous slot or zero |
| ProcRecords.MemOf | src/jsonperf.c:1070 | a process's memory is its size shifted right by 10 |
| ProcRecords.Kept | src/jsonperf.c:1113 | a process is looked at when it is not a zombie and not a kernel process (definition; properties in ProcRecords.KeptIffNotZombie) |
| ProcRecords.CpuMs | src/jsonperf.c:1071 | a process's CPU time is utime + stime on uint64_t (definition) |
| ProcRecords.StoreInit | src/jsonperf.c:1067-1075 | `store_procentry_init` builds a record with the entry's pid, memory, CPU time and name, no CPU charge and the given generation (definition) |
| ProcRecords.StoreNew | src/jsonperf.c:1077-1081 | a new record is charged its whole CPU time (definition; properties in ProcRecords.StoredCharges) |
| ProcRecords.StoreDelta | src/jsonperf.c:1085-1090 | an updated record is charged the CPU time since the last cycle and restamped (definition; properties in ProcRecords.StoredCharges) |
| ProcRecords.KeptIffNotZombie | src/jsonperf.c:1113 | with SKPROC 0, a process is looked at exactly when it is not a zombie |
| ProcRecords.StoredCharges | src/jsonperf.c:1077-1094 | a new pid is charged its whole cpu time; a known pid is charged the growth since the last cycle, and its name is kept |
| Ranking.PosStops | src/jsonperf.c:1051-1054 | the shifting loop stops below every entry with a key at least the new key, after all strictly smaller ones |
| Ranking.Pos | src/jsonperf.c:1051-1054 | where the shifting scan from the end stops, never past the end of the window (properties in Ranking.PosStops and Ranking.PosSplits) |
| Ranking.InsertedSplice | src/jsonperf.c:1051-1055 | the insert places the entry at the stop position and shifts the rest down one |
| Ranking.InsertedAt | src/jsonperf.c:1051-1055 | entries before the position stay, the new entry is at it, later entries move down one |
| Ranking.Inserted | src/jsonperf.c:1051-1055 | the insert lengthens the window by one (properties in Ranking.InsertedSplice and the Inserted* lemmas) |
| Ranking.PosSplits | src/jsonperf.c:1051-1054 | in a descending ranking everything before the position has a key at least the new key |
| Ranking.InsertedPlacesX | src/jsonperf.c:1051-1055 | ties keep the earlier entry ahead; only smaller keys follow the new entry |
| Ranking.InsertedSorted | src/jsonperf.c:1048-1058 | inserting into a descending ranking keeps it descending |
| Ranking.InsertedPermutes | src/jsonperf.c:1048-1058 | the insert adds the entry and loses none |
| Ranking.TakeInserted | src/jsonperf.c:1048-1058 | inserting into the kept top m and truncating gives the same top m as inserting into the whole ranking |
| Ranking.SortedDescIsSorted | src/jsonperf.c:1048-1058 | repeated insertion sorts descending and is a permutation |
| Ranking.RankIsTopOfSorted | src/jsonperf.c:1132-1135 | the bounded ranking is the first m of the full descending sort |
| Ranking.Rank | src/jsonperf.c:1081-1082 | the window after each touched record went through classTopTen in order (definition; properties in Ranking.RankIsTopOfSorted and Ranking.RankBounded) |
| Ranking.RankBounded | src/jsonperf.c:1056-1057 | the ranking holds min(count, m) entries, in descending order |
| Ranking.MakeRoom | src/jsonperf.c:1051-1054 | the loop shifts the entries below the insertion point down one slot and leaves the others |
| Ranking.ClassTopTen | src/jsonperf.c:1048-1058 | the counted prefix becomes the old one with the entry inserted, the count is min(nb+1, max), and writes stay inside max+1 slots |
| Processes.FindPos | src/jsonperf.c:1121-1122 | the walk stops at the first record whose pid is not below the new pid |
| Processes.Insert | src/jsonperf.c:1124-1125 | the new record is spliced in where the walk stopped (definition; properties in Processes.InsertAdds and Processes.InsertSorted) |
| Processes.FlipChanges | src/jsonperf.c:1139 | the generation flip always changes the byte, undoes itself, and swaps 0 and 1 |
| Processes.Flip | src/jsonperf.c:1139 | the next generation byte, `1 - odd` stored in an unsigned char (definition; properties in Processes.FlipChanges) |
| Processes.InsertAdds | src/jsonperf.c:1124-1125 | splicing in a record adds exactly that record |
| Processes.InsertSorted | src/jsonperf.c:1121-1125 | the sorted insert keeps the list sorted by pid, and strictly sorted for a new pid |
| Processes.InitRunSorted | src/jsonperf.c:1096-1129 | `init_processes` leaves the list sorted by pid |
| Processes.InitRunStopsAtFailure | src/jsonperf.c:1115-1117 | after a malloc failure no further entry is inserted |
| Processes.InitRunStampsZero | src/jsonperf.c:1119 | every record built by `init_processes` has generation 0 |
| Processes.InitRun | src/jsonperf.c:1111-1128 | `init_processes` over the entries: each kept entry is stored with generation 0 and spliced in; the first failed malloc stops the loop (definition; properties in the InitRun* lemmas) |
| Processes.InitRunStrictlySorted | src/jsonperf.c:1111-1128 | when the kept entries have distinct pids not yet listed, a strictly ascending list stays strictly ascending, and it lists only the old pids and the kept entries' pids |
| Processes.UpdateSorted | src/jsonperf.c:1161-1163 | updating a record in place keeps the list strictly sorted |
| Processes.CycleStrictlySorted | src/jsonperf.c:1154-1176 | the update-or-insert loop keeps the list strictly ascending by pid |
| Processes.CycleStep | src/jsonperf.c:1156-1174 | one entry of the cycle: update the record with its pid, or splice in a new one when malloc succeeds (definition; properties in Processes.StepPids and Processes.StepKeepsListed) |
| Processes.Cycle | src/jsonperf.c:1154-1176 | the update-and-insert loop over all entries (definition; properties in the Cycle* lemmas) |
| Processes.StepKeepsListed | src/jsonperf.c:1156-1174 | one entry keeps a sorted list sorted and unlinks no pid |
| Processes.CycleKeepsListed | src/jsonperf.c:1154-1176 | the update-and-insert loop keeps a sorted list sorted and unlinks no pid |
| Processes.FindsListed | src/jsonperf.c:1158-1161 | on a sorted list the walk stops at the record of a listed pid, so it is found |
| Processes.SweepKeeps | src/jsonperf.c:1178-1191 | the sweep keeps exactly the records stamped with this cycle's generation |
| Processes.SweepStrictlySorted | src/jsonperf.c:1178-1191 | the sweep keeps the list strictly ascending |
| Processes.Sweep | src/jsonperf.c:1178-1191 | the records stamped with the current generation, in list order (definition; properties in Processes.SweepKeeps and Processes.SweepStrictlySorted) |
| Processes.CycleStampsTouched | src/jsonperf.c:1161-1173 | when no record already carries the new stamp, the stamped pids are exactly the touched ones |
| Processes.CycleTouchesLive | src/jsonperf.c:1154-1176 | every touched record is a kept live pid; every kept live pid whose malloc would succeed is touched; and on a sorted list every kept entry whose pid is already listed is touched whatever its malloc flag |
| Processes.SurvivorsAreTouched | src/jsonperf.c:1139-1191 | when the generation starts consistent, the pids left after the cycle are exactly the pids updated or inserted in it |
| Processes.StaleRecordSurvives | src/jsonperf.c:1139 | when the uninitialised generation byte is 1, a record left from `init_processes` with no live process survives the sweep |
| Processes.RankInto | src/jsonperf.c:1081-1082 | ranking one more record keeps both top-N arrays equal to the ranking of every record touched so far |
| Processes.ProcessTable.AsAllocated | src/jsonperf.c:1268-1276 | as written, the generation byte starts as whatever the allocation held |
| Processes.ProcessTable.constructor | src/jsonperf.c:1268-1276 | with the correction, the list starts empty with generation 0 |
| Processes.ProcessTable.Locate | src/jsonperf.c:1158-1159 | the walk loop finds the insertion point for the pid |
| Processes.ProcessTable.InitProcesses | src/jsonperf.c:1096-1129 | builds the list of kept entries, sorted, and strictly sorted when their pids are distinct and new; returns -1 exactly on the first malloc failure |
| Processes.ProcessTable.LinkAll | src/jsonperf.c:1111-1128 | the loop links in every kept entry by pid until a malloc fails, leaving exactly the list `InitRun` describes and -1 on the failure |
| Processes.ProcessTable.Visit | src/jsonperf.c:1156-1174 | one entry: update a known pid, insert a new one if malloc succeeds, and rank the touched record |
| Processes.ProcessTable.Unlink | src/jsonperf.c:1178-1191 | the unlink loop removes exactly the records not stamped with this cycle's generation |
| Processes.ProcessTable.CallProcesses | src/jsonperf.c:1131-1191 | one cycle flips the generation, keeps the list strictly sorted, leaves exactly the touched pids, and fills both top-N arrays with the ranking of the touched records |
| Setup.Allocated | src/jsonperf.c:1244-1265 | the corrected allocation prepares the state of every active group and nothing else |
| Setup.AllocatedMembers | src/jsonperf.c:1244-1265 | with the correction an init routine runs exactly when the group that reads its state is active |
| Setup.AsWrittenMembers | src/jsonperf.c:1244-1265 | as written the NFS readings follow the DISKS group, and every other init routine follows its own group |
| Setup.AllocatedAsWritten | src/jsonperf.c:1244-1265 | the init routines `stats_allocate` runs as written, with `init_nfs` under the DISKS group (definition; properties in Setup.AsWrittenMembers and Setup.NfsUnpreparedAsWritten) |
| Setup.AllocationsAgree | src/jsonperf.c:1253-1258 | the two allocations agree when DISKS and NFS are switched on together or both off |
| Setup.NfsUnpreparedAsWritten | src/jsonperf.c:1253-1258 | with only `-n` given, the NFS group fires but its readings were never prepared |

## Left out

- Floating-point outputs: the CPU and NFS percentages, the load average,
  `cpu_pct/10.0` and the paging-space percentage. Only their integer
  divisors are modelled.
- JSON rendering: the format macros and the format strings. The NFS sections
  are the one exception, rendered by `Snapshots.Section` only as far as the
  separator finding needs.
- The platform readers (`/proc`, `/sys`, `getprocs64`): each reading is a
  parameter.
- `init_processes` and `call_processes` read the process table twice, first
  to size it and then to fill it. The model sees the filled entries as one
  sequence, and a failed filling read as no entries.
- A failed sizing read of the process table: the count -1 goes straight into
  `alloca(nb_processes * sizeof(struct procentry64))` (src/jsonperf.c:1105-1106
  and 1148-1149), which is undefined behaviour. The cycle is never reached
  then, so the model has no case for it.
- The timing loop, `gettimeofday`, `nanosleep`, signals, `syslog`, `getopt`
  and `gethostname`: these are I/O. The tick is a parameter.
- AIX-only branches: the `HWTICS2USECS` conversions, the extra disk fields
  and `mntctl`. They are not compiled on the platform modelled.
- The filesystems section and its mount-point name rewrite, because it is
  `getmntent`/`statvfs` I/O.
- The paging-space group (`call_pagingspace`): it only reads and prints
  absolute values.
- `atoi` on the option text: the option value arrives as an int.
  `Scheduler.OptionShift` requires n > INT_MIN, because `abs(INT_MIN)` is
  undefined in C.
- Raw memory management. The rankings hold copies of the records rather than
  addresses of list nodes. A failed `realloc` of a table and a negative fill
  count from a reader are not modelled. `free`, `strdup` and `stats_free` are
  not modelled.
- Counters.MulU64: states the product only when it does not overflow. The
  only use multiplies a percentage by 100.
- Counters.Sum4: states the sum only when it does not overflow. The wrapped
  case follows from `Counters.AddU64`.
- Reports.CpuTotalValues, Reports.MemoryValues, Reports.DiskValues,
  Reports.NetValues and Reports.FcValues compute the integer fields of each
  section. Their properties are the `Idle*` and `FirstDiskReading` lemmas.
- The `fprintf(stderr, ...)` traces of `glib_compat.c` (lines 59, 71, 85-86,
  94, 106 and 116) are I/O, and `#define fprintf(...)` at line 7 compiles
  them out.
- GlibCompat.GString.AppendPrintf: the formatted text is a parameter. No
  `vsnprintf` formatting is modelled.

## Findings

| source | as written | input that shows it | evidently intended | confidence | as-written member | corrected member |
|---|---|---|---|---|---|---|
| src/jsonperf.c:1326 | `set_global_freq` computes the int `1<<shift` before clamping the shift, which is undefined for shift >= 31 | `-A 0` (shift UINT32_MAX), `-A 32` or `-A -32` | clamp first, giving mask UINT32_MAX for shifts above 31 | not executed | Scheduler.GlobalMaskAsWritten, Scheduler.GlobalOptionShiftUndefined | Scheduler.GlobalMask, Scheduler.GlobalMaskAgrees |
| src/jsonperf.c:537-538 | a name-matched table is regrown only when nb < live count, so a new name can be appended past the allocation when stale slots are kept | table holding `sda` in one slot, live disks `[sdb]` | grow to nb + live count whenever that exceeds the allocation | not executed | Tables.RegrownAsWritten, Tables.RegrownAsWrittenOverflows | Tables.Regrown, Tables.RegrownSuffices |
| src/jsonperf.c:1253-1258 | `init_nfs` runs only when the DISKS group is enabled, but the NFS group reads the NFS snapshot pairs | options `-n 1` alone | prepare the NFS readings when the NFS group is enabled | not executed | Setup.AllocatedAsWritten, Setup.NfsUnpreparedAsWritten | Setup.Allocated, Setup.AllocatedMembers |
| src/jsonperf.c:797-804 | the idle nfsv3 section ends without a separator, unlike the idle nfsv4 section | both NFS protocols idle in the same document | end the idle nfsv3 section with `,` as the nfsv4 one does | not executed | Snapshots.Nfs3FragmentAsWritten, Snapshots.Nfs3IdleRunsOn | Snapshots.Nfs3Fragment, Snapshots.NfsFragmentsSeparated |
| src/jsonperf.c:1268-1276 | `stats_initialize` never sets `processes.odd`, so the first cycle's stamp depends on heap garbage | garbage byte 1: the first cycle stamps 0, the same as `init_processes`, so records of dead processes survive | initialise `odd` to 0 | not executed | Processes.ProcessTable.AsAllocated, Processes.StaleRecordSurvives | Processes.ProcessTable.constructor, Processes.SurvivorsAreTouched |
