/**
 * The frequency scheduler: one `freq_data` record per metric group, the
 * two setters that the command line drives, the combined masks they
 * recompute, and the rules that decide, at second t, which groups are
 * collected inside the main document (embedded, type > 0) and which on
 * their own (standalone, type < 0).
 */
module Scheduler {
  import opened Words

  const GROUP_MAX: nat := 7
  const CPU_TOTAL_GROUP: nat := 0
  const CPUS_GROUP: nat := 1
  const MEMORY_GROUP: nat := 2
  const DISKS_GROUP: nat := 3
  const NFS_GROUP: nat := 4
  const ADAPTERS_GROUP: nat := 5
  const PROCESSES_GROUP: nat := 6

  /** The option letters, in group order */
  const GROUP_LETTERS: string := "tumsnip"

  /** One `freq_data` entry: type (sign of the option), shift, mask, and whether a group option set it */
  datatype FreqData = FreqData(typ: int, shift: nat, mask: U64, setted: bool)

  /** The entry every group starts with: disabled, shift 31, mask UINT32_MAX */
  const INITIAL_FREQ: FreqData := FreqData(0, 31, UINT32_MAX, false)

  /** The mask set_group_freq stores: 2^shift - 1, or UINTMAX_MAX beyond 31 */
  function GroupMask(shift: U32): (m: U64)
    ensures IsLowMask(m)
  {
    if shift > 31 then
      Pow2Values();
      assert UINTMAX_MAX + 1 == Pow2(64);
      UINTMAX_MAX
    else
      Pow2Monotone(shift, 64);
      Pow2Values();
      assert Pow2(shift) - 1 + 1 == Pow2(shift);
      Pow2(shift) - 1
  }

  /**
   * The mask set_global_freq is meant to store: 2^shift - 1, or UINT32_MAX
   * beyond 31 (computed on 64 bits, see GlobalMaskAsWritten).
   */
  function GlobalMask(shift: U32): (m: U64)
    ensures IsLowMask(m)
  {
    if shift > 31 then
      Pow2Values();
      assert UINT32_MAX + 1 == Pow2(32);
      UINT32_MAX
    else
      Pow2Monotone(shift, 64);
      Pow2Values();
      assert Pow2(shift) - 1 + 1 == Pow2(shift);
      Pow2(shift) - 1
  }

  /**
   * The mask exactly as set_global_freq computes it, `(1 << shift) - 1` on a
   * 32-bit int, before the clamp: None where that shift is undefined
   * behaviour (the result overflows int, or the count reaches the width).
   */
  function GlobalMaskAsWritten(shift: U32): (m: Option<U64>)
    ensures m.Some? <==> shift <= 30
  {
    if shift <= 30 then
      Pow2Monotone(shift, 30);
      Pow2Values();
      Some(Pow2(shift) - 1)
    else
      None
  }

  function ClampShift(shift: U32): (s: nat)
    ensures s <= 31
    ensures shift <= 31 ==> s == shift
  {
    if shift > 31 then 31 else shift
  }

  /** The entry set_group_freq writes into a group not yet set */
  function GroupSetting(typ: int, shift: U32): (fd: FreqData)
    ensures fd.typ == typ && fd.setted && fd.shift <= 31 && IsLowMask(fd.mask)
    ensures shift <= 31 ==> fd.shift == shift && fd.mask + 1 == Pow2(shift)
    ensures shift > 31 ==> fd.mask == UINTMAX_MAX
  {
    FreqData(typ, ClampShift(shift), GroupMask(shift), true)
  }

  /** The entry set_global_freq writes into every group not set by a group option */
  function GlobalSetting(typ: int, shift: U32): (fd: FreqData)
    ensures fd.typ == typ && !fd.setted && fd.shift <= 31 && IsLowMask(fd.mask)
    ensures shift <= 31 ==> fd.shift == shift && fd.mask + 1 == Pow2(shift)
    ensures shift > 31 ==> fd.mask == UINT32_MAX
  {
    FreqData(typ, ClampShift(shift), GlobalMask(shift), false)
  }

  /** The running minimum of the setters' loop: `freq_min`, starting at UINT_MAX */
  function MinMask(fds: seq<FreqData>): (r: U64)
    ensures r <= UINT32_MAX
    ensures forall i :: 0 <= i < |fds| ==> r <= fds[i].mask
    ensures r == UINT32_MAX || exists i :: 0 <= i < |fds| && r == fds[i].mask
  {
    if |fds| == 0 then UINT32_MAX
    else
      var m := MinMask(fds[..|fds| - 1]);
      if m > fds[|fds| - 1].mask then fds[|fds| - 1].mask else m
  }

  /** `freq_min_std`: the same minimum over the embedded groups only */
  function MinMaskStd(fds: seq<FreqData>): (r: U64)
    ensures r <= UINT32_MAX
    ensures forall i :: 0 <= i < |fds| && fds[i].typ > 0 ==> r <= fds[i].mask
    ensures r == UINT32_MAX || exists i :: 0 <= i < |fds| && fds[i].typ > 0 && r == fds[i].mask
  {
    if |fds| == 0 then UINT32_MAX
    else
      var m := MinMaskStd(fds[..|fds| - 1]);
      var last := fds[|fds| - 1];
      if last.typ > 0 && m > last.mask then last.mask else m
  }

  ghost predicate AllLowMasks(fds: seq<FreqData>)
  {
    forall i :: 0 <= i < |fds| ==> IsLowMask(fds[i].mask)
  }

  /** What both setters keep: every mask is 2^w - 1 and every shift is clamped to 31 */
  ghost predicate WellFormed(fds: seq<FreqData>)
  {
    && AllLowMasks(fds)
    && forall i :: 0 <= i < |fds| ==> fds[i].shift <= 31
  }

  /** A group is collected in the main document at t */
  predicate EmbeddedDue(fd: FreqData, t: U64)
  {
    fd.typ > 0 && BitAnd(t, fd.mask) == 0
  }

  /** A group is collected on its own at t */
  predicate StandaloneDue(fd: FreqData, t: U64)
  {
    fd.typ < 0 && BitAnd(t, fd.mask) == 0
  }

  /** The main loop's outer test: `(t & mask_freq_std) == 0` */
  predicate GatePasses(maskStd: U64, t: U64)
  {
    BitAnd(t, maskStd) == 0
  }

  /** The groups `standard` collects at t, in group order */
  function DueEmbedded(fds: seq<FreqData>, t: U64): (gs: seq<nat>)
    ensures forall i :: 0 <= i < |gs| ==> gs[i] < |fds|
    ensures forall g: nat :: g in gs <==> (g < |fds| && EmbeddedDue(fds[g], t))
    ensures forall i, j :: 0 <= i < j < |gs| ==> gs[i] < gs[j]
  {
    if |fds| == 0 then []
    else
      var rest := DueEmbedded(fds[..|fds| - 1], t);
      if EmbeddedDue(fds[|fds| - 1], t) then rest + [|fds| - 1] else rest
  }

  /** The groups the main loop collects on their own at t, in group order */
  function DueStandalone(fds: seq<FreqData>, t: U64): (gs: seq<nat>)
    ensures forall i :: 0 <= i < |gs| ==> gs[i] < |fds|
    ensures forall g: nat :: g in gs <==> (g < |fds| && StandaloneDue(fds[g], t))
    ensures forall i, j :: 0 <= i < j < |gs| ==> gs[i] < gs[j]
  {
    if |fds| == 0 then []
    else
      var rest := DueStandalone(fds[..|fds| - 1], t);
      if StandaloneDue(fds[|fds| - 1], t) then rest + [|fds| - 1] else rest
  }

  /**
   * One second of the main loop: whether `standard` runs, the groups it
   * collects, and the standalone groups collected after it.
   */
  datatype Tick = Tick(standardRuns: bool, embedded: seq<nat>, standalone: seq<nat>)

  function TickAt(fds: seq<FreqData>, maskStd: U64, t: U64): Tick
  {
    var runs := GatePasses(maskStd, t);
    Tick(runs, if runs then DueEmbedded(fds, t) else [], DueStandalone(fds, t))
  }

  /** `standard` returns toprint: whether it collected at least one group */
  function StandardPrints(fds: seq<FreqData>, t: U64): bool
  {
    |DueEmbedded(fds, t)| > 0
  }

  /** The combined standard mask is itself of the form 2^w - 1 */
  lemma MinMaskStdIsLow(fds: seq<FreqData>)
    requires AllLowMasks(fds)
    ensures IsLowMask(MinMaskStd(fds))
  {
    var r := MinMaskStd(fds);
    if r == UINT32_MAX {
      Pow2Values();
      assert r + 1 == Pow2(32);
    } else {
      var i :| 0 <= i < |fds| && fds[i].typ > 0 && r == fds[i].mask;
      assert IsLowMask(fds[i].mask);
    }
  }

  /**
   * The gate lemma: at any second where an embedded group is due, the main
   * loop's test on the combined standard mask passes as well.
   */
  lemma GateAdmitsEmbedded(fds: seq<FreqData>, g: nat, t: U64)
    requires AllLowMasks(fds) && g < |fds|
    requires EmbeddedDue(fds[g], t)
    ensures GatePasses(MinMaskStd(fds), t)
  {
    MinMaskStdIsLow(fds);
    assert IsLowMask(fds[g].mask);
    LowMaskOrder(t, MinMaskStd(fds), fds[g].mask);
  }

  /**
   * So the gate never hides a due group: the groups collected in the main
   * document are exactly the embedded groups due at t, and the document is
   * logged exactly when there is one.
   */
  lemma TickCollectsAllDue(fds: seq<FreqData>, t: U64)
    requires AllLowMasks(fds)
    ensures TickAt(fds, MinMaskStd(fds), t).embedded == DueEmbedded(fds, t)
    ensures (TickAt(fds, MinMaskStd(fds), t).standardRuns && StandardPrints(fds, t))
        <==> exists g :: 0 <= g < |fds| && EmbeddedDue(fds[g], t)
  {
    var gs := DueEmbedded(fds, t);
    if |gs| > 0 {
      assert gs[0] in gs;
      GateAdmitsEmbedded(fds, gs[0], t);
    }
  }

  /** A group is embedded and standalone at no second */
  lemma EmbeddedStandaloneDisjoint(fds: seq<FreqData>, t: U64)
    ensures forall g :: g in DueEmbedded(fds, t) ==> g !in DueStandalone(fds, t)
  {
  }

  /** A group whose mask is 2^w - 1 is due exactly at the multiples of 2^w */
  lemma DueAtMultiples(fd: FreqData, w: nat, t: U64)
    requires fd.mask + 1 == Pow2(w)
    ensures EmbeddedDue(fd, t) <==> fd.typ > 0 && t % Pow2(w) == 0
    ensures StandaloneDue(fd, t) <==> fd.typ < 0 && t % Pow2(w) == 0
  {
    AndLowMaskZero(t, w);
  }

  /** The sign of the option value: 1 embedded, -1 standalone, 0 disabled */
  function OptionType(n: int): (typ: int)
    ensures typ == 0 <==> n == 0
    ensures typ > 0 <==> n > 0
    ensures typ in {-1, 0, 1}
  {
    if n < 0 then -1 else if n > 0 then 1 else 0
  }

  /** `(unsigned int)(abs(n) - 1)`; n == INT_MIN is excluded, abs overflows there */
  function OptionShift(n: int): (shift: U32)
    requires INT_MIN < n <= INT_MAX
    ensures n != 0 ==> shift + 1 == (if n < 0 then -n else n)
    ensures n == 0 ==> shift == UINT32_MAX
  {
    var v := (if n < 0 then -n else n) - 1;
    if v < 0 then v + UINT32_MAX + 1 else v
  }

  /**
   * A group option n with 1 <= |n| <= 32 makes the group due every
   * 2^(|n|-1) seconds; a larger |n| makes it due only at second 0.
   */
  lemma GroupOptionPeriod(n: int, t: U64)
    requires INT_MIN < n <= INT_MAX && n != 0
    ensures var fd := GroupSetting(OptionType(n), OptionShift(n));
      var a := if n < 0 then -n else n;
      && (a <= 32 ==> (BitAnd(t, fd.mask) == 0 <==> t % Pow2(a - 1) == 0))
      && (a > 32 ==> (BitAnd(t, fd.mask) == 0 <==> t == 0))
  {
    var s := OptionShift(n);
    var fd := GroupSetting(OptionType(n), s);
    if s <= 31 {
      assert fd.mask == Pow2(s) - 1;
      AndLowMaskZero(t, s);
    } else {
      Pow2Values();
      assert fd.mask == Pow2(64) - 1;
      AndLowMaskZero(t, 64);
      ModUnique(t, Pow2(64), 0, t);
    }
  }

  /**
   * The main loop's search for the option letter in "tumsnip": the index
   * of the first match, or GROUP_MAX.
   */
  method GroupOfOption(opt: char) returns (grp: nat)
    ensures grp <= GROUP_MAX
    ensures grp < GROUP_MAX ==> GROUP_LETTERS[grp] == opt
    ensures forall k :: 0 <= k < grp ==> GROUP_LETTERS[k] != opt
    ensures opt in GROUP_LETTERS <==> grp < GROUP_MAX
  {
    grp := 0;
    while grp < GROUP_MAX && opt != GROUP_LETTERS[grp]
      invariant grp <= GROUP_MAX
      invariant forall k :: 0 <= k < grp ==> GROUP_LETTERS[k] != opt
    {
      grp := grp + 1;
    }
  }

  /** The letters name the groups in enumeration order, each letter once */
  lemma LettersNameGroups()
    ensures |GROUP_LETTERS| == GROUP_MAX
    ensures GROUP_LETTERS[CPU_TOTAL_GROUP] == 't' && GROUP_LETTERS[CPUS_GROUP] == 'u'
    ensures GROUP_LETTERS[MEMORY_GROUP] == 'm' && GROUP_LETTERS[DISKS_GROUP] == 's'
    ensures GROUP_LETTERS[NFS_GROUP] == 'n' && GROUP_LETTERS[ADAPTERS_GROUP] == 'i'
    ensures GROUP_LETTERS[PROCESSES_GROUP] == 'p'
    ensures forall i, j :: 0 <= i < j < |GROUP_LETTERS| ==> GROUP_LETTERS[i] != GROUP_LETTERS[j]
  {
  }

  /** `-A 0` and `-A 32` reach the undefined shift; every |n| up to 31 gets its mask */
  lemma GlobalOptionShiftUndefined()
    ensures GlobalMaskAsWritten(OptionShift(0)).None?
    ensures GlobalMaskAsWritten(OptionShift(32)).None?
    ensures GlobalMaskAsWritten(OptionShift(-32)).None?
  {
  }

  /** Where the written shift is defined, it agrees with the corrected mask */
  lemma GlobalMaskAgrees(shift: U32)
    requires shift <= 30
    ensures GlobalMaskAsWritten(shift) == Some(GlobalMask(shift))
  {
  }

  /** What set_global_freq's loop leaves in each group: the global setting unless a group option set it */
  function GlobalUpdate(fds: seq<FreqData>, setting: FreqData): (r: seq<FreqData>)
    ensures |r| == |fds|
    ensures forall i :: 0 <= i < |fds| ==> r[i] == (if fds[i].setted then fds[i] else setting)
  {
    if |fds| == 0 then []
    else GlobalUpdate(fds[..|fds| - 1], setting)
         + [if fds[|fds| - 1].setted then fds[|fds| - 1] else setting]
  }

  lemma SettingKeepsWellFormed(fds: seq<FreqData>, g: nat, x: FreqData)
    requires WellFormed(fds) && g < |fds| && IsLowMask(x.mask) && x.shift <= 31
    ensures WellFormed(fds[g := x])
  {
    var r := fds[g := x];
    forall i | 0 <= i < |r|
      ensures IsLowMask(r[i].mask) && r[i].shift <= 31
    {
      if i != g {
        assert r[i] == fds[i];
      }
    }
  }

  lemma GlobalUpdateKeepsWellFormed(fds: seq<FreqData>, setting: FreqData)
    requires WellFormed(fds) && IsLowMask(setting.mask) && setting.shift <= 31
    ensures WellFormed(GlobalUpdate(fds, setting))
  {
    var r := GlobalUpdate(fds, setting);
    forall i | 0 <= i < |fds|
      ensures IsLowMask(r[i].mask) && r[i].shift <= 31
    {
      if fds[i].setted {
        assert r[i] == fds[i];
      }
    }
  }

  /** The frequency part of the monitor's state: `freq_data`, `mask_freq` and `mask_freq_std` */
  class FreqTable {
    var freq_data: array<FreqData>
    var mask_freq: U64
    var mask_freq_std: U64

    ghost predicate Valid()
      reads this, freq_data
    {
      && freq_data.Length == GROUP_MAX
      && WellFormed(freq_data[..])
      && mask_freq == MinMask(freq_data[..])
      && mask_freq_std == MinMaskStd(freq_data[..])
    }

    /** The frequency part of stats_initialize */
    constructor Initialize()
      ensures Valid() && fresh(freq_data)
      ensures forall i :: 0 <= i < GROUP_MAX ==> freq_data[i] == INITIAL_FREQ
      ensures mask_freq == UINT32_MAX && mask_freq_std == UINT32_MAX
    {
      var fds := new FreqData[GROUP_MAX];
      var i := 0;
      while i < GROUP_MAX
        invariant 0 <= i <= GROUP_MAX
        invariant forall k :: 0 <= k < i ==> fds[k] == INITIAL_FREQ
      {
        fds[i] := INITIAL_FREQ;
        i := i + 1;
      }
      freq_data := fds;
      mask_freq := UINT32_MAX;
      mask_freq_std := UINT32_MAX;
      Pow2Values();
      assert IsLowMask(UINT32_MAX) by {
        assert UINT32_MAX + 1 == Pow2(32);
      }
      assert MinMask(fds[..]) == UINT32_MAX;
      assert MinMaskStd(fds[..]) == UINT32_MAX;
    }

    /**
     * The loop both setters end with: `freq_min` and `freq_min_std` over
     * every group, starting from UINT_MAX.
     */
    method Minima() returns (freq_min: U64, freq_min_std: U64)
      requires freq_data.Length == GROUP_MAX
      ensures freq_min == MinMask(freq_data[..])
      ensures freq_min_std == MinMaskStd(freq_data[..])
    {
      freq_min := UINT32_MAX;
      freq_min_std := UINT32_MAX;
      var i := 0;
      while i < GROUP_MAX
        invariant 0 <= i <= GROUP_MAX
        invariant freq_min == MinMask(freq_data[..i])
        invariant freq_min_std == MinMaskStd(freq_data[..i])
      {
        var fd := freq_data[i];
        freq_min := if freq_min > fd.mask then fd.mask else freq_min;
        freq_min_std := if fd.typ > 0 && freq_min_std > fd.mask then fd.mask else freq_min_std;
        assert freq_data[..i + 1][..i] == freq_data[..i];
        i := i + 1;
      }
      assert freq_data[..GROUP_MAX] == freq_data[..];
    }

    /**
     * set_group_freq: nothing when a group option already set the group;
     * otherwise the group is set, locked, and both combined masks recomputed.
     */
    method SetGroupFreq(group: nat, typ: int, shift: U32)
      requires Valid() && group < GROUP_MAX
      modifies this, freq_data
      ensures Valid() && freq_data == old(freq_data)
      ensures old(freq_data[group].setted) ==>
        freq_data[..] == old(freq_data[..]) && mask_freq == old(mask_freq) && mask_freq_std == old(mask_freq_std)
      ensures !old(freq_data[group].setted) ==>
        freq_data[..] == old(freq_data[..])[group := GroupSetting(typ, shift)]
    {
      if freq_data[group].setted {
        return;
      }
      ghost var before := freq_data[..];
      freq_data[group] := GroupSetting(typ, shift);
      assert freq_data[..] == before[group := GroupSetting(typ, shift)];
      SettingKeepsWellFormed(before, group, GroupSetting(typ, shift));
      mask_freq, mask_freq_std := Minima();
    }

    /** The loop of set_global_freq: every group not set by a group option takes `setting` */
    method ApplyGlobal(setting: FreqData)
      requires freq_data.Length == GROUP_MAX
      modifies freq_data
      ensures freq_data[..] == GlobalUpdate(old(freq_data[..]), setting)
    {
      var i := 0;
      while i < GROUP_MAX
        invariant 0 <= i <= GROUP_MAX
        invariant forall j :: 0 <= j < i ==>
          freq_data[j] == if old(freq_data[j]).setted then old(freq_data[j]) else setting
        invariant forall j :: i <= j < GROUP_MAX ==> freq_data[j] == old(freq_data[j])
      {
        if !freq_data[i].setted {
          freq_data[i] := setting;
        }
        i := i + 1;
      }
      assert freq_data[..] == GlobalUpdate(old(freq_data[..]), setting);
    }

    /**
     * set_global_freq with the mask computed on 64 bits: every group no
     * group option has set takes the global type, shift and mask, no group
     * becomes locked, and both combined masks are recomputed.
     */
    method SetGlobalFreq(typ: int, shift: U32)
      requires Valid()
      modifies this, freq_data
      ensures Valid() && freq_data == old(freq_data)
      ensures freq_data[..] == GlobalUpdate(old(freq_data[..]), GlobalSetting(typ, shift))
    {
      var setting := GlobalSetting(typ, shift);
      ghost var before := freq_data[..];
      ApplyGlobal(setting);
      GlobalUpdateKeepsWellFormed(before, setting);
      mask_freq, mask_freq_std := Minima();
    }
  }
}
