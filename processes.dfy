/**
 * The process table: a list of records ordered by pid, built once by
 * init_processes and refreshed by each call_processes cycle.  A cycle
 * flips the generation byte, updates or inserts a record for every kept
 * entry (stamping it with the new generation and ranking it by CPU and by
 * memory), then unlinks every record still carrying another generation.
 *
 * The linked list is the sequence `procs`; allocation outcomes of malloc
 * are an input sequence `alloc`, one flag per reader entry.
 */
module Processes {
  import opened Words
  import opened Counters
  import opened ProcRecords
  import opened Ranking

  /** A null slot of the top-N arrays after memset */
  const NoProc: Proc := Proc(0, 0, 0, 0, "", 0)

  /** Pids never decrease along the list */
  ghost predicate Sorted(procs: seq<Proc>)
  {
    forall i, j :: 0 <= i < j < |procs| ==> procs[i].pid <= procs[j].pid
  }

  /** Pids increase along the list: no pid is listed twice */
  ghost predicate StrictlySorted(procs: seq<Proc>)
  {
    forall i, j :: 0 <= i < j < |procs| ==> procs[i].pid < procs[j].pid
  }

  /** Where the walk along the list stops: the first record whose pid is not below `pid` */
  function FindPos(procs: seq<Proc>, pid: int): (k: nat)
    ensures k <= |procs|
    ensures forall i :: 0 <= i < k ==> procs[i].pid < pid
    ensures k < |procs| ==> procs[k].pid >= pid
  {
    if |procs| == 0 || procs[0].pid >= pid then 0
    else 1 + FindPos(procs[1..], pid)
  }

  /** Linking a new record in where the walk stopped */
  function Insert(procs: seq<Proc>, r: Proc): seq<Proc>
  {
    var k := FindPos(procs, r.pid);
    procs[..k] + [r] + procs[k..]
  }

  /** The generation byte of the next cycle: `1 - odd` stored in an unsigned char */
  function Flip(odd: Byte): Byte
  {
    (1 - odd) % 256
  }

  /** init_processes over the entries seen so far: the list, and whether a malloc failed */
  function InitRun(procs: seq<Proc>, entries: seq<ProcEntry>, alloc: seq<bool>): (seq<Proc>, bool)
    requires |alloc| == |entries|
  {
    if |entries| == 0 then (procs, false)
    else
      var n := |entries| - 1;
      var (list, failed) := InitRun(procs, entries[..n], alloc[..n]);
      if failed || !Kept(entries[n]) then (list, failed)
      else if !alloc[n] then (list, true)
      else (Insert(list, StoreInit(entries[n], 0)), false)
  }

  /** The list during a cycle, and the records ranked so far, in ranking order */
  datatype Pass = Pass(procs: seq<Proc>, touched: seq<Proc>)

  /** One entry of the cycle: update the record with its pid, or link a new one in if malloc succeeds */
  function CycleStep(p: Pass, e: ProcEntry, ok: bool, ts: Byte): Pass
  {
    if !Kept(e) then p
    else
      var k := FindPos(p.procs, e.pid);
      if k < |p.procs| && p.procs[k].pid == e.pid then
        var r := StoreDelta(p.procs[k], e, ts);
        Pass(p.procs[k := r], p.touched + [r])
      else if ok then
        var r := StoreNew(e, ts);
        Pass(Insert(p.procs, r), p.touched + [r])
      else p
  }

  /** The update-and-insert loop of a cycle over the entries seen so far */
  function Cycle(procs: seq<Proc>, entries: seq<ProcEntry>, alloc: seq<bool>, ts: Byte): Pass
    requires |alloc| == |entries|
  {
    if |entries| == 0 then Pass(procs, [])
    else
      var n := |entries| - 1;
      CycleStep(Cycle(procs, entries[..n], alloc[..n], ts), entries[n], alloc[n], ts)
  }

  /** The sweep: the records stamped with the current generation, in list order */
  function Sweep(procs: seq<Proc>, ts: Byte): seq<Proc>
  {
    if |procs| == 0 then []
    else
      var n := |procs| - 1;
      Sweep(procs[..n], ts) + (if procs[n].odd == ts then [procs[n]] else [])
  }

  /** The pids of the records stamped with generation ts */
  ghost function PidsWith(procs: seq<Proc>, ts: Byte): set<int>
  {
    set x | x in procs && x.odd == ts :: x.pid
  }

  ghost function Pids(procs: seq<Proc>): set<int>
  {
    set x | x in procs :: x.pid
  }

  /** The generation byte always changes, and flipping twice restores it */
  lemma FlipChanges(odd: Byte)
    ensures Flip(odd) != odd && Flip(Flip(odd)) == odd
    ensures Flip(0) == 1 && Flip(1) == 0
  {
    if odd > 1 {
      assert Flip(odd) == 257 - odd;
    }
  }

  /** Linking in keeps the list's records and adds r */
  lemma InsertAdds(procs: seq<Proc>, r: Proc)
    ensures multiset(Insert(procs, r)) == multiset(procs) + multiset{r}
    ensures |Insert(procs, r)| == |procs| + 1
  {
    var k := FindPos(procs, r.pid);
    assert procs == procs[..k] + procs[k..];
  }

  /** The records of the list after linking in: the old ones and r */
  lemma InsertMembers(procs: seq<Proc>, r: Proc)
    ensures forall x :: x in Insert(procs, r) <==> x in procs || x == r
  {
    InsertAdds(procs, r);
    forall x
      ensures x in Insert(procs, r) <==> x in procs || x == r
    {
      assert x in Insert(procs, r) <==> x in multiset(Insert(procs, r));
      assert x in procs <==> x in multiset(procs);
    }
  }

  /** Where the new record lands, and where every old record moves */
  lemma InsertAt(procs: seq<Proc>, r: Proc)
    ensures var k := FindPos(procs, r.pid);
      |Insert(procs, r)| == |procs| + 1 && Insert(procs, r)[k] == r
      && (forall i {:trigger Insert(procs, r)[i]} :: 0 <= i < k ==> Insert(procs, r)[i] == procs[i])
      && (forall i {:trigger Insert(procs, r)[i]} :: k < i <= |procs| ==> Insert(procs, r)[i] == procs[i - 1])
  {
  }

  /** Linking in keeps the list sorted by pid, and strictly so when r's pid is new */
  lemma InsertSorted(procs: seq<Proc>, r: Proc)
    requires Sorted(procs)
    ensures Sorted(Insert(procs, r))
    ensures StrictlySorted(procs) && (forall x :: x in procs ==> x.pid != r.pid) ==>
      StrictlySorted(Insert(procs, r))
  {
    var k := FindPos(procs, r.pid);
    var s := Insert(procs, r);
    InsertAt(procs, r);
    var newPid := forall x :: x in procs ==> x.pid != r.pid;
    var strict := StrictlySorted(procs) && newPid;
    assert newPid && k < |procs| ==> procs[k].pid > r.pid by {
      if newPid && k < |procs| {
        assert procs[k] in procs;
      }
    }
    forall i, j | 0 <= i < j < |s|
      ensures s[i].pid <= s[j].pid
      ensures strict ==> s[i].pid < s[j].pid
    {
      if j < k {
        assert s[i] == procs[i] && s[j] == procs[j];
      } else if j == k {
        assert s[i] == procs[i];
      } else if i < k {
        assert s[i] == procs[i] && s[j] == procs[j - 1];
        assert procs[k].pid >= r.pid;
      } else if i == k {
        assert s[j] == procs[j - 1];
        assert procs[k].pid >= r.pid;
      } else {
        assert s[i] == procs[i - 1] && s[j] == procs[j - 1];
      }
    }
  }

  /** init_processes keeps the list sorted by pid, whatever the entries */
  lemma {:induction false} InitRunSorted(procs: seq<Proc>, entries: seq<ProcEntry>, alloc: seq<bool>)
    requires |alloc| == |entries| && Sorted(procs)
    ensures Sorted(InitRun(procs, entries, alloc).0)
  {
    if |entries| > 0 {
      var n := |entries| - 1;
      InitRunSorted(procs, entries[..n], alloc[..n]);
      InsertSorted(InitRun(procs, entries[..n], alloc[..n]).0, StoreInit(entries[n], 0));
    }
  }

  /** The pids of the kept entries */
  ghost function KeptPids(entries: seq<ProcEntry>): set<int>
  {
    set i | 0 <= i < |entries| && Kept(entries[i]) :: entries[i].pid
  }

  /** The kept entries have pairwise distinct pids, none of them already listed */
  ghost predicate FreshKeptPids(procs: seq<Proc>, entries: seq<ProcEntry>)
  {
    && (forall i, j :: 0 <= i < j < |entries| && Kept(entries[i]) && Kept(entries[j]) ==> entries[i].pid != entries[j].pid)
    && (forall i :: 0 <= i < |entries| && Kept(entries[i]) ==> entries[i].pid !in Pids(procs))
  }

  /**
   * init_processes keeps a strictly ascending list strictly ascending when
   * the kept entries bring pids of their own, and lists no pid other than
   * the old ones and the kept entries' ones.
   */
  lemma {:induction false} InitRunStrictlySorted(procs: seq<Proc>, entries: seq<ProcEntry>, alloc: seq<bool>)
    requires |alloc| == |entries| && StrictlySorted(procs) && FreshKeptPids(procs, entries)
    ensures StrictlySorted(InitRun(procs, entries, alloc).0)
    ensures Pids(InitRun(procs, entries, alloc).0) <= Pids(procs) + KeptPids(entries)
  {
    if |entries| > 0 {
      var n := |entries| - 1;
      var e := entries[n];
      assert forall i :: 0 <= i < n ==> entries[..n][i] == entries[i];
      InitRunStrictlySorted(procs, entries[..n], alloc[..n]);
      var list := InitRun(procs, entries[..n], alloc[..n]).0;
      assert KeptPids(entries[..n]) <= KeptPids(entries);
      if !InitRun(procs, entries[..n], alloc[..n]).1 && Kept(e) && alloc[n] {
        var r := StoreInit(e, 0);
        forall x | x in list
          ensures x.pid != r.pid
        {
          assert x.pid in Pids(list);
          if x.pid in KeptPids(entries[..n]) {
            var i :| 0 <= i < n && Kept(entries[..n][i]) && entries[..n][i].pid == x.pid;
          }
        }
        InsertSorted(list, r);
        InsertMembers(list, r);
        assert e.pid in KeptPids(entries);
      }
    }
  }

  /** Once a malloc has failed, later entries change nothing */
  lemma {:induction false} InitRunStopsAtFailure(procs: seq<Proc>, entries: seq<ProcEntry>, alloc: seq<bool>, i: nat)
    requires |alloc| == |entries| && i <= |entries|
    requires InitRun(procs, entries[..i], alloc[..i]).1
    ensures InitRun(procs, entries, alloc) == InitRun(procs, entries[..i], alloc[..i])
  {
    if i < |entries| {
      var n := |entries| - 1;
      assert entries[..n][..i] == entries[..i] && alloc[..n][..i] == alloc[..i];
      InitRunStopsAtFailure(procs, entries[..n], alloc[..n], i);
    } else {
      assert entries[..i] == entries && alloc[..i] == alloc;
    }
  }

  /** Every init record carries generation 0 */
  lemma {:induction false} InitRunStampsZero(procs: seq<Proc>, entries: seq<ProcEntry>, alloc: seq<bool>)
    requires |alloc| == |entries| && forall x :: x in procs ==> x.odd == 0
    ensures forall x :: x in InitRun(procs, entries, alloc).0 ==> x.odd == 0
  {
    if |entries| > 0 {
      var n := |entries| - 1;
      var list := InitRun(procs, entries[..n], alloc[..n]).0;
      InitRunStampsZero(procs, entries[..n], alloc[..n]);
      InsertMembers(list, StoreInit(entries[n], 0));
    }
  }

  /** Replacing a record by one with the same pid keeps the order */
  lemma UpdateSorted(procs: seq<Proc>, k: nat, r: Proc)
    requires k < |procs| && procs[k].pid == r.pid && StrictlySorted(procs)
    ensures StrictlySorted(procs[k := r])
  {
  }

  /** A cycle keeps the list strictly ascending by pid */
  lemma {:induction false} CycleStrictlySorted(procs: seq<Proc>, entries: seq<ProcEntry>, alloc: seq<bool>, ts: Byte)
    requires |alloc| == |entries| && StrictlySorted(procs)
    ensures StrictlySorted(Cycle(procs, entries, alloc, ts).procs)
  {
    if |entries| > 0 {
      var n := |entries| - 1;
      var p := Cycle(procs, entries[..n], alloc[..n], ts);
      var e := entries[n];
      CycleStrictlySorted(procs, entries[..n], alloc[..n], ts);
      if Kept(e) {
        var k := FindPos(p.procs, e.pid);
        if k < |p.procs| && p.procs[k].pid == e.pid {
          UpdateSorted(p.procs, k, StoreDelta(p.procs[k], e, ts));
        } else if alloc[n] {
          var r := StoreNew(e, ts);
          forall x | x in p.procs
            ensures x.pid != r.pid
          {
            var j :| 0 <= j < |p.procs| && p.procs[j] == x;
            assert j < k || j == k || j > k;
            if j > k {
              assert p.procs[k].pid < x.pid;
            }
          }
          InsertSorted(p.procs, r);
        }
      }
    }
  }

  /** The sweep keeps exactly the records of the current generation */
  lemma {:induction false} SweepKeeps(procs: seq<Proc>, ts: Byte)
    ensures forall x :: x in Sweep(procs, ts) <==> x in procs && x.odd == ts
  {
    if |procs| > 0 {
      var n := |procs| - 1;
      SweepKeeps(procs[..n], ts);
      assert procs == procs[..n] + [procs[n]];
    }
  }

  /** The sweep keeps the list order */
  lemma {:induction false} SweepStrictlySorted(procs: seq<Proc>, ts: Byte)
    requires StrictlySorted(procs)
    ensures StrictlySorted(Sweep(procs, ts))
  {
    if |procs| > 0 {
      var n := |procs| - 1;
      SweepStrictlySorted(procs[..n], ts);
      SweepKeeps(procs[..n], ts);
      var front := Sweep(procs[..n], ts);
      forall i | 0 <= i < |front|
        ensures front[i].pid < procs[n].pid
      {
        assert front[i] in procs[..n];
      }
    }
  }

  /** Restamping a listed record adds its pid to the current generation */
  lemma UpdatePids(procs: seq<Proc>, k: nat, r: Proc, ts: Byte)
    requires k < |procs| && procs[k].pid == r.pid && r.odd == ts
    ensures PidsWith(procs[k := r], ts) == PidsWith(procs, ts) + {r.pid}
  {
    var q := procs[k := r];
    forall x | x in q
      ensures x in procs || x == r
    {
      var j :| 0 <= j < |q| && q[j] == x;
    }
    forall x | x in procs && x.odd == ts
      ensures x.pid in PidsWith(q, ts)
    {
      var j :| 0 <= j < |procs| && procs[j] == x;
      if j == k {
        assert q[k] == r;
      } else {
        assert q[j] == x;
      }
    }
    assert q[k] == r;
  }

  /** Linking in a stamped record adds its pid to the current generation */
  lemma InsertPids(procs: seq<Proc>, r: Proc, ts: Byte)
    requires r.odd == ts
    ensures PidsWith(Insert(procs, r), ts) == PidsWith(procs, ts) + {r.pid}
  {
    InsertMembers(procs, r);
  }

  lemma PidsAppend(xs: seq<Proc>, r: Proc)
    ensures Pids(xs + [r]) == Pids(xs) + {r.pid}
  {
    assert forall x :: x in xs + [r] <==> x in xs || x == r;
  }

  /** One entry either changes nothing or touches exactly its own pid, stamped with ts */
  lemma StepPids(p: Pass, e: ProcEntry, ok: bool, ts: Byte)
    ensures var q := CycleStep(p, e, ok, ts);
      q == p || (Kept(e) && |q.touched| == |p.touched| + 1
        && q.touched == p.touched + [q.touched[|p.touched|]]
        && q.touched[|p.touched|].pid == e.pid
        && Pids(q.touched) == Pids(p.touched) + {e.pid}
        && PidsWith(q.procs, ts) == PidsWith(p.procs, ts) + {e.pid})
  {
    if Kept(e) {
      var k := FindPos(p.procs, e.pid);
      if k < |p.procs| && p.procs[k].pid == e.pid {
        var r := StoreDelta(p.procs[k], e, ts);
        UpdatePids(p.procs, k, r, ts);
        PidsAppend(p.touched, r);
      } else if ok {
        var r := StoreNew(e, ts);
        InsertPids(p.procs, r, ts);
        PidsAppend(p.touched, r);
      }
    }
  }

  /**
   * When no record carries the new generation before the cycle, the
   * records carrying it afterwards are exactly the records the cycle
   * touched (and ranked).
   */
  lemma {:induction false} CycleStampsTouched(procs: seq<Proc>, entries: seq<ProcEntry>, alloc: seq<bool>, ts: Byte)
    requires |alloc| == |entries| && forall x :: x in procs ==> x.odd != ts
    ensures PidsWith(Cycle(procs, entries, alloc, ts).procs, ts) == Pids(Cycle(procs, entries, alloc, ts).touched)
  {
    if |entries| == 0 {
      assert PidsWith(procs, ts) == {};
    } else {
      var n := |entries| - 1;
      CycleStampsTouched(procs, entries[..n], alloc[..n], ts);
      StepPids(Cycle(procs, entries[..n], alloc[..n], ts), entries[n], alloc[n], ts);
    }
  }

  /** On a sorted list the walk stops at the record of a listed pid */
  lemma FindsListed(procs: seq<Proc>, pid: int)
    requires Sorted(procs) && pid in Pids(procs)
    ensures FindPos(procs, pid) < |procs| && procs[FindPos(procs, pid)].pid == pid
  {
    var x :| x in procs && x.pid == pid;
    var j :| 0 <= j < |procs| && procs[j] == x;
    assert FindPos(procs, pid) <= j;
  }

  /** One entry keeps a sorted list sorted and unlinks nothing */
  lemma StepKeepsListed(p: Pass, e: ProcEntry, ok: bool, ts: Byte)
    requires Sorted(p.procs)
    ensures Sorted(CycleStep(p, e, ok, ts).procs)
    ensures Pids(p.procs) <= Pids(CycleStep(p, e, ok, ts).procs)
  {
    if Kept(e) {
      var k := FindPos(p.procs, e.pid);
      if k < |p.procs| && p.procs[k].pid == e.pid {
        var q := p.procs[k := StoreDelta(p.procs[k], e, ts)];
        forall x | x in p.procs
          ensures x.pid in Pids(q)
        {
          var j :| 0 <= j < |p.procs| && p.procs[j] == x;
          assert q[j].pid == x.pid && q[j] in q;
        }
      } else if ok {
        InsertSorted(p.procs, StoreNew(e, ts));
        InsertMembers(p.procs, StoreNew(e, ts));
      }
    }
  }

  /** The update-and-insert loop keeps a sorted list sorted and unlinks nothing */
  lemma {:induction false} CycleKeepsListed(procs: seq<Proc>, entries: seq<ProcEntry>, alloc: seq<bool>, ts: Byte)
    requires |alloc| == |entries| && Sorted(procs)
    ensures Sorted(Cycle(procs, entries, alloc, ts).procs)
    ensures Pids(procs) <= Pids(Cycle(procs, entries, alloc, ts).procs)
  {
    if |entries| > 0 {
      var n := |entries| - 1;
      CycleKeepsListed(procs, entries[..n], alloc[..n], ts);
      StepKeepsListed(Cycle(procs, entries[..n], alloc[..n], ts), entries[n], alloc[n], ts);
    }
  }

  /**
   * Every touched record belongs to a kept entry; every kept entry whose
   * malloc would succeed is touched; and on a sorted list every kept entry
   * whose pid is already listed is touched whatever its malloc flag, since
   * it is updated in place.
   */
  lemma {:induction false} CycleTouchesLive(procs: seq<Proc>, entries: seq<ProcEntry>, alloc: seq<bool>, ts: Byte)
    requires |alloc| == |entries|
    ensures forall t :: t in Cycle(procs, entries, alloc, ts).touched ==>
      exists i :: 0 <= i < |entries| && Kept(entries[i]) && entries[i].pid == t.pid
    ensures forall i :: 0 <= i < |entries| && Kept(entries[i]) && alloc[i] ==>
      entries[i].pid in Pids(Cycle(procs, entries, alloc, ts).touched)
    ensures Sorted(procs) ==> forall i :: 0 <= i < |entries| && Kept(entries[i]) && entries[i].pid in Pids(procs) ==>
      entries[i].pid in Pids(Cycle(procs, entries, alloc, ts).touched)
  {
    if |entries| > 0 {
      var n := |entries| - 1;
      var p := Cycle(procs, entries[..n], alloc[..n], ts);
      var q := Cycle(procs, entries, alloc, ts);
      CycleTouchesLive(procs, entries[..n], alloc[..n], ts);
      StepPids(p, entries[n], alloc[n], ts);
      forall t | t in q.touched
        ensures exists i :: 0 <= i < |entries| && Kept(entries[i]) && entries[i].pid == t.pid
      {
        if t in p.touched {
          var i :| 0 <= i < n && Kept(entries[..n][i]) && entries[..n][i].pid == t.pid;
          assert entries[i] == entries[..n][i];
        } else {
          assert t == q.touched[|p.touched|];
        }
      }
      forall i | 0 <= i < |entries| && Kept(entries[i]) && alloc[i]
        ensures entries[i].pid in Pids(q.touched)
      {
        if i < n {
          assert entries[..n][i] == entries[i] && alloc[..n][i] == alloc[i];
        } else {
          assert q != p;
        }
      }
      if Sorted(procs) {
        CycleKeepsListed(procs, entries[..n], alloc[..n], ts);
        forall i | 0 <= i < |entries| && Kept(entries[i]) && entries[i].pid in Pids(procs)
          ensures entries[i].pid in Pids(q.touched)
        {
          if i < n {
            assert entries[..n][i] == entries[i];
          } else {
            FindsListed(p.procs, entries[n].pid);
            assert |q.touched| == |p.touched| + 1;
          }
        }
      }
    }
  }

  /** Once every record carries the previous generation, the records left after the sweep are exactly the touched ones */
  lemma SurvivorsAreTouched(procs: seq<Proc>, odd: Byte, entries: seq<ProcEntry>, alloc: seq<bool>)
    requires |alloc| == |entries| && forall x :: x in procs ==> x.odd == odd
    ensures var pass := Cycle(procs, entries, alloc, Flip(odd));
      Pids(Sweep(pass.procs, Flip(odd))) == Pids(pass.touched)
  {
    var ts := Flip(odd);
    FlipChanges(odd);
    var pass := Cycle(procs, entries, alloc, ts);
    CycleStampsTouched(procs, entries, alloc, ts);
    SweepKeeps(pass.procs, ts);
    assert Pids(Sweep(pass.procs, ts)) == PidsWith(pass.procs, ts);
  }

  /**
   * The generation byte as written: never initialised.  When it happens
   * to hold 1, the first cycle runs with ts = 0, the stamp of every init
   * record, so a process that exited since init outlives the sweep.
   */
  lemma StaleRecordSurvives()
    ensures var stale := StoreInit(ProcEntry(7, 'S', 0, 4096, "sh", 0, 0), 0);
      var pass := Cycle([stale], [], [], Flip(1));
      pass.touched == [] && Sweep(pass.procs, Flip(1)) == [stale]
  {
    var stale := StoreInit(ProcEntry(7, 'S', 0, 4096, "sh", 0, 0), 0);
    assert Flip(1) == 0;
    assert [stale][..0] == [];
  }

  /** The rankings of one cycle: the top-N window of each key over the touched records */
  ghost predicate Ranked(touched: seq<Proc>, top: array<Proc>, nb: nat, m: nat, c: Comparator)
    reads top
  {
    top.Length == m + 1 && nb == Min(|touched|, m) && top[..nb] == Rank(touched, m, c)
  }

  /** One more ranked record: the window after classTopTen is the bounded insert */
  lemma RankStep(xs: seq<Proc>, r: Proc, m: nat, c: Comparator, after: seq<Proc>, nb: nat)
    requires nb == Min(|xs|, m) && |after| == nb + 1
    requires after == Inserted(Rank(xs, m, c), r, c)
    ensures after[..Min(|xs| + 1, m)] == Rank(xs + [r], m, c)
  {
    assert (xs + [r])[..|xs|] == xs;
    if nb + 1 <= m {
      assert after[..nb + 1] == after;
    }
  }

  /** classTopTen on one ranking, kept equal to the bounded ranking of the records so far */
  method RankInto(r: Proc, ghost touched: seq<Proc>, top: array<Proc>, nb: nat, m: nat, c: Comparator)
    returns (nb': nat)
    requires Ranked(touched, top, nb, m, c)
    modifies top
    ensures Ranked(touched + [r], top, nb', m, c)
  {
    nb' := ClassTopTen(r, top, nb, m, c);
    RankStep(touched, r, m, c, top[..nb + 1], nb);
    assert top[..nb + 1][..nb'] == top[..nb'];
  }

  class ProcessTable {
    var procs: seq<Proc>
    var odd: Byte

    /** Every record carries the table's generation */
    ghost predicate Synced()
      reads this
    {
      forall x :: x in procs ==> x.odd == odd
    }

    /**
     * The table as stats_initialize leaves it: an empty list, and a
     * generation byte holding whatever the allocation contained.
     */
    constructor AsAllocated(garbage: Byte)
      ensures procs == [] && odd == garbage
    {
      procs := [];
      odd := garbage;
    }

    /** The table with its generation byte cleared along with the list head */
    constructor ()
      ensures procs == [] && odd == 0
    {
      procs := [];
      odd := 0;
    }

    /** The walk along the list: the first record whose pid is not below `pid` */
    method Locate(pid: int) returns (k: nat)
      ensures k == FindPos(procs, pid)
    {
      k := 0;
      while k < |procs| && procs[k].pid < pid
        invariant k <= |procs|
        invariant forall i :: 0 <= i < k ==> procs[i].pid < pid
      {
        k := k + 1;
      }
    }

    /**
     * init_processes: every kept entry is stored with generation 0 and
     * linked in before the first record with a pid not below its own; a
     * failed malloc stops the loop with -1, leaving what was linked so far.
     */
    method InitProcesses(entries: seq<ProcEntry>, alloc: seq<bool>) returns (rc: int)
      requires |alloc| == |entries|
      modifies this
      ensures procs == InitRun(old(procs), entries, alloc).0
      ensures rc == (if InitRun(old(procs), entries, alloc).1 then -1 else 0)
      ensures odd == old(odd)
      ensures old(Sorted(procs)) ==> Sorted(procs)
      ensures old(StrictlySorted(procs)) && FreshKeptPids(old(procs), entries) ==> StrictlySorted(procs)
      ensures old(Synced()) && odd == 0 ==> Synced()
    {
      ghost var before := procs;
      rc := LinkAll(entries, alloc);
      if Sorted(before) {
        InitRunSorted(before, entries, alloc);
      }
      if StrictlySorted(before) && FreshKeptPids(before, entries) {
        InitRunStrictlySorted(before, entries, alloc);
      }
      if (forall x :: x in before ==> x.odd == odd) && odd == 0 {
        InitRunStampsZero(before, entries, alloc);
      }
    }

    /** The loop of init_processes: link in every kept entry until a malloc fails */
    method LinkAll(entries: seq<ProcEntry>, alloc: seq<bool>) returns (rc: int)
      requires |alloc| == |entries|
      modifies this
      ensures procs == InitRun(old(procs), entries, alloc).0
      ensures rc == (if InitRun(old(procs), entries, alloc).1 then -1 else 0)
      ensures odd == old(odd)
    {
      var i := 0;
      while i < |entries|
        invariant 0 <= i <= |entries| && odd == old(odd)
        invariant InitRun(old(procs), entries[..i], alloc[..i]) == (procs, false)
      {
        assert entries[..i + 1][..i] == entries[..i] && alloc[..i + 1][..i] == alloc[..i];
        var e := entries[i];
        if Kept(e) {
          if !alloc[i] {
            InitRunStopsAtFailure(old(procs), entries, alloc, i + 1);
            return -1;
          }
          var k := Locate(e.pid);
          procs := procs[..k] + [StoreInit(e, 0)] + procs[k..];
        }
        i := i + 1;
      }
      assert entries[..i] == entries && alloc[..i] == alloc;
      rc := 0;
    }

    /** One entry of the cycle: the update or insert, then both rankings */
    method Visit(e: ProcEntry, ok: bool, ts: Byte, ghost touched: seq<Proc>,
                 topCpu: array<Proc>, nbCpu: nat, topMem: array<Proc>, nbMem: nat)
      returns (ghost touched': seq<Proc>, nbCpu': nat, nbMem': nat)
      requires Ranked(touched, topCpu, nbCpu, NB_PROC_CPU, CompareCpu)
      requires Ranked(touched, topMem, nbMem, NB_PROC_MEM, CompareMem)
      modifies this, topCpu, topMem
      ensures Pass(procs, touched') == CycleStep(Pass(old(procs), touched), e, ok, ts)
      ensures Ranked(touched', topCpu, nbCpu', NB_PROC_CPU, CompareCpu)
      ensures Ranked(touched', topMem, nbMem', NB_PROC_MEM, CompareMem)
      ensures odd == old(odd)
    {
      touched', nbCpu', nbMem' := touched, nbCpu, nbMem;
      if Kept(e) {
        var k := Locate(e.pid);
        var r: Proc;
        if k < |procs| && procs[k].pid == e.pid {
          r := StoreDelta(procs[k], e, ts);
          procs := procs[k := r];
        } else if ok {
          r := StoreNew(e, ts);
          procs := procs[..k] + [r] + procs[k..];
        } else {
          return;
        }
        nbCpu' := RankInto(r, touched, topCpu, nbCpu, NB_PROC_CPU, CompareCpu);
        nbMem' := RankInto(r, touched, topMem, nbMem, NB_PROC_MEM, CompareMem);
        touched' := touched + [r];
      }
    }

    /** The sweep: unlink every record whose generation is not ts */
    method Unlink(ts: Byte)
      modifies this
      ensures procs == Sweep(old(procs), ts) && odd == old(odd)
    {
      var kept: seq<Proc> := [];
      var j := 0;
      while j < |procs|
        invariant j <= |procs|
        invariant kept == Sweep(procs[..j], ts)
      {
        assert procs[..j + 1][..j] == procs[..j];
        if procs[j].odd == ts {
          kept := kept + [procs[j]];
        }
        j := j + 1;
      }
      assert procs[..j] == procs;
      procs := kept;
    }

    /**
     * call_processes: flip the generation, visit every entry, sweep, and
     * return the CPU and memory rankings of the records it touched.
     */
    method CallProcesses(entries: seq<ProcEntry>, alloc: seq<bool>)
      returns (topCpu: array<Proc>, nbCpu: nat, topMem: array<Proc>, nbMem: nat)
      requires |alloc| == |entries|
      modifies this
      ensures odd == Flip(old(odd)) && Synced()
      ensures procs == Sweep(Cycle(old(procs), entries, alloc, odd).procs, odd)
      ensures old(StrictlySorted(procs)) ==> StrictlySorted(procs)
      ensures old(Synced()) ==> Pids(procs) == Pids(Cycle(old(procs), entries, alloc, odd).touched)
      ensures fresh(topCpu) && fresh(topMem)
      ensures Ranked(Cycle(old(procs), entries, alloc, odd).touched, topCpu, nbCpu, NB_PROC_CPU, CompareCpu)
      ensures Ranked(Cycle(old(procs), entries, alloc, odd).touched, topMem, nbMem, NB_PROC_MEM, CompareMem)
    {
      var ts := Flip(odd);
      topCpu := new Proc[NB_PROC_CPU + 1](_ => NoProc);
      topMem := new Proc[NB_PROC_MEM + 1](_ => NoProc);
      nbCpu, nbMem := 0, 0;
      odd := ts;
      ghost var touched: seq<Proc> := [];
      var i := 0;
      while i < |entries|
        invariant 0 <= i <= |entries| && odd == ts
        invariant Cycle(old(procs), entries[..i], alloc[..i], ts) == Pass(procs, touched)
        invariant Ranked(touched, topCpu, nbCpu, NB_PROC_CPU, CompareCpu)
        invariant Ranked(touched, topMem, nbMem, NB_PROC_MEM, CompareMem)
      {
        assert entries[..i + 1][..i] == entries[..i] && alloc[..i + 1][..i] == alloc[..i];
        touched, nbCpu, nbMem := Visit(entries[i], alloc[i], ts, touched, topCpu, nbCpu, topMem, nbMem);
        i := i + 1;
      }
      assert entries[..i] == entries && alloc[..i] == alloc;
      Unlink(ts);
      SweepKeeps(Cycle(old(procs), entries, alloc, ts).procs, ts);
      if old(StrictlySorted(procs)) {
        CycleStrictlySorted(old(procs), entries, alloc, ts);
        SweepStrictlySorted(Cycle(old(procs), entries, alloc, ts).procs, ts);
      }
      if old(Synced()) {
        SurvivorsAreTouched(old(procs), old(odd), entries, alloc);
      }
    }
  }
}
