/** The background job table of src/jobs.c: MaxJobs fixed slots, each
    holding a pid (0 when the slot is free) and the command text. */
module Jobs {
  import opened Wrappers

  /** Number of slots in the table (MAX_JOBS). */
  const MaxJobs: nat := 128

  /** One slot: pid 0 marks a free slot. */
  datatype Slot = Slot(pid: int, cmd: Option<string>)

  const FreeSlot: Slot := Slot(0, None)

  /** One line of the job listing. */
  datatype Job = Job(pid: int, cmd: string)

  /** What add_job reports. */
  datatype AddReport = Ignored | Started(slot: nat) | TableFull

  type Table = seq<Slot>

  /** A table of the right size in which every free slot also has no
      command; init_jobs_table establishes it and every operation keeps it. */
  predicate Valid(t: Table)
  {
    |t| == MaxJobs && forall i :: 0 <= i < |t| ==> (t[i].pid == 0 ==> t[i].cmd.None?)
  }

  predicate Occupied(t: Table, i: int)
  {
    0 <= i < |t| && t[i].pid != 0
  }

  predicate HasPid(t: Table, pid: int)
  {
    exists i :: 0 <= i < |t| && t[i].pid == pid
  }

  /** init_jobs_table: every slot free. */
  function InitJobsTable(): (t: Table)
    ensures Valid(t)
    ensures forall i :: 0 <= i < |t| ==> !Occupied(t, i)
  {
    seq(MaxJobs, _ => FreeSlot)
  }

  /** The first index from i on whose slot holds pid, if any. */
  function FindPid(t: Table, pid: int, i: nat): (r: Option<nat>)
    requires i <= |t|
    ensures r.Some? ==> i <= r.value < |t| && t[r.value].pid == pid
    ensures r.Some? ==> forall k :: i <= k < r.value ==> t[k].pid != pid
    ensures r.None? ==> forall k :: i <= k < |t| ==> t[k].pid != pid
    decreases |t| - i
  {
    if i == |t| then None
    else if t[i].pid == pid then Some(i)
    else FindPid(t, pid, i + 1)
  }

  /** add_job(pid, cmdline): ignored for a non-positive pid; otherwise the
      lowest free slot takes the pid and the command text ("" for a NULL
      command), or the table is full and nothing changes. */
  function AddJob(t: Table, pid: int, cmdline: Option<string>): (r: (Table, AddReport))
    requires Valid(t)
    ensures Valid(r.0)
    ensures pid <= 0 ==> r == (t, Ignored)
    ensures pid > 0 && (forall i :: 0 <= i < |t| ==> Occupied(t, i)) ==> r == (t, TableFull)
    ensures pid > 0 && (exists i :: 0 <= i < |t| && !Occupied(t, i)) ==>
              && r.1.Started?
              && !Occupied(t, r.1.slot)
              && (forall k :: 0 <= k < r.1.slot ==> Occupied(t, k))
              && r.0[r.1.slot] == Slot(pid, Some(cmdline.GetOr("")))
              && (forall k :: 0 <= k < |t| && k != r.1.slot ==> r.0[k] == t[k])
  {
    if pid <= 0 then (t, Ignored)
    else
      match FindPid(t, 0, 0)
      case None => (t, TableFull)
      case Some(i) =>
        assert !Occupied(t, i);
        (t[i := Slot(pid, Some(cmdline.GetOr("")))], Started(i))
  }

  /** remove_job(pid): the first slot holding pid becomes free; nothing
      happens when no slot holds it. */
  function RemoveJob(t: Table, pid: int): (r: Table)
    requires Valid(t)
    ensures Valid(r)
    ensures !HasPid(t, pid) ==> r == t
    ensures HasPid(t, pid) ==>
              exists i :: && 0 <= i < |t| && t[i].pid == pid
                          && (forall k :: 0 <= k < i ==> t[k].pid != pid)
                          && r == t[i := FreeSlot]
  {
    match FindPid(t, pid, 0)
    case None => t
    case Some(i) => t[i := FreeSlot]
  }

  /** The indices of the occupied slots from i on, in increasing order. */
  function OccupiedFrom(t: Table, i: nat): (r: seq<nat>)
    requires i <= |t|
    ensures forall k :: 0 <= k < |r| ==> i <= r[k] < |t| && Occupied(t, r[k])
    ensures forall k, l :: 0 <= k < l < |r| ==> r[k] < r[l]
    ensures forall j :: i <= j < |t| && Occupied(t, j) ==> j in r
    decreases |t| - i
  {
    if i == |t| then []
    else if t[i].pid != 0 then [i] + OccupiedFrom(t, i + 1)
    else OccupiedFrom(t, i + 1)
  }

  /** print_jobs: one line per occupied slot, in slot order; the empty
      listing is printed as "No background jobs.". */
  function ListJobs(t: Table): (r: seq<Job>)
    ensures |r| == |OccupiedFrom(t, 0)|
    ensures forall k :: 0 <= k < |r| ==>
              r[k] == Job(t[OccupiedFrom(t, 0)[k]].pid, t[OccupiedFrom(t, 0)[k]].cmd.GetOr(""))
  {
    var slots := OccupiedFrom(t, 0);
    seq(|slots|, k requires 0 <= k < |slots| => Job(t[slots[k]].pid, t[slots[k]].cmd.GetOr("")))
  }

  /** Number of occupied slots. */
  function CountJobs(t: Table): nat
  {
    |OccupiedFrom(t, 0)|
  }

  /** reap_background_jobs: remove_job for each pid waitpid reports, in order. */
  function ReapJobs(t: Table, reported: seq<int>): (r: Table)
    requires Valid(t)
    ensures Valid(r)
    decreases |reported|
  {
    if |reported| == 0 then t else ReapJobs(RemoveJob(t, reported[0]), reported[1..])
  }

  // ---------------------------------------------------------------------
  // Properties

  /** The listing is empty exactly when no slot is occupied. */
  lemma ListEmpty(t: Table)
    ensures ListJobs(t) == [] <==> forall i :: 0 <= i < |t| ==> !Occupied(t, i)
  {
    var slots := OccupiedFrom(t, 0);
    assert |slots| > 0 ==> Occupied(t, slots[0]);
    if exists i :: 0 <= i < |t| && Occupied(t, i) {
      var i :| 0 <= i < |t| && Occupied(t, i);
      assert i in slots;
    }
  }

  /** A freshly initialised table lists no job. */
  lemma InitListsNothing()
    ensures ListJobs(InitJobsTable()) == []
  {
    ListEmpty(InitJobsTable());
  }

  /** A pid appears in the listing exactly when some slot holds it. */
  lemma ListedIffHeld(t: Table, pid: int)
    requires pid != 0
    ensures (exists k :: 0 <= k < |ListJobs(t)| && ListJobs(t)[k].pid == pid) <==> HasPid(t, pid)
  {
    var slots := OccupiedFrom(t, 0);
    if HasPid(t, pid) {
      var i :| 0 <= i < |t| && t[i].pid == pid;
      assert i in slots;
      var k :| 0 <= k < |slots| && slots[k] == i;
      assert ListJobs(t)[k].pid == pid;
    }
  }

  /** Removing a job just added under a pid no slot held restores the table. */
  lemma RemoveUndoesAdd(t: Table, pid: int, cmdline: Option<string>)
    requires Valid(t) && pid > 0 && !HasPid(t, pid)
    ensures RemoveJob(AddJob(t, pid, cmdline).0, pid) == t
  {
    var (t', rep) := AddJob(t, pid, cmdline);
    if rep.Started? {
      var s := rep.slot;
      assert t'[s].pid == pid;
      assert HasPid(t', pid);
      assert forall k :: 0 <= k < s ==> t'[k].pid != pid;
      assert FindPid(t', pid, 0) == Some(s);
      assert t'[s := FreeSlot] == t;
    }
  }

  /** After a successful add the new job is listed. */
  lemma AddedJobListed(t: Table, pid: int, cmdline: Option<string>)
    requires Valid(t) && pid > 0
    requires exists i :: 0 <= i < |t| && !Occupied(t, i)
    ensures Job(pid, cmdline.GetOr("")) in ListJobs(AddJob(t, pid, cmdline).0)
  {
    var (t', rep) := AddJob(t, pid, cmdline);
    var slots := OccupiedFrom(t', 0);
    assert rep.slot in slots;
    var k :| 0 <= k < |slots| && slots[k] == rep.slot;
    assert ListJobs(t')[k] == Job(pid, cmdline.GetOr(""));
  }

  /** The occupied slots of a table. */
  function OccupiedSet(t: Table): set<nat>
  {
    set i: nat | i < |t| && t[i].pid != 0
  }

  /** A successful add occupies exactly one more slot, the one it reports;
      an ignored or refused add occupies none. */
  lemma AddOccupies(t: Table, pid: int, cmdline: Option<string>)
    requires Valid(t)
    ensures var (t', rep) := AddJob(t, pid, cmdline);
            && (rep.Started? ==> rep.slot !in OccupiedSet(t) && OccupiedSet(t') == OccupiedSet(t) + {rep.slot})
            && (!rep.Started? ==> t' == t)
  {
  }

  /** A pid already in the table is not refused: a second slot takes it. */
  lemma DuplicatePidAccepted(t: Table, pid: int, cmdline: Option<string>)
    requires Valid(t) && pid > 0 && HasPid(t, pid)
    requires exists i :: 0 <= i < |t| && !Occupied(t, i)
    ensures AddJob(t, pid, cmdline).1.Started?
    ensures |set i | 0 <= i < MaxJobs && AddJob(t, pid, cmdline).0[i].pid == pid| >= 2
  {
    var (t', rep) := AddJob(t, pid, cmdline);
    var j :| 0 <= j < |t| && t[j].pid == pid;
    assert j != rep.slot;
    assert t'[j].pid == pid;
    var both := {j, rep.slot};
    assert both <= set i | 0 <= i < MaxJobs && t'[i].pid == pid;
    assert |both| == 2;
    SubsetCard(both, set i | 0 <= i < MaxJobs && t'[i].pid == pid);
  }

  lemma SubsetCard<T>(a: set<T>, b: set<T>)
    requires a <= b
    ensures |a| <= |b|
  {
    assert b == a + (b - a);
  }

  /** A table occupied in every slot refuses any further job, whatever its pid. */
  lemma FullTableRefuses(t: Table, pid: int, cmdline: Option<string>)
    requires Valid(t) && pid > 0 && CountJobs(t) == MaxJobs
    ensures AddJob(t, pid, cmdline) == (t, TableFull)
  {
    OccupiedAll(t);
  }

  /** MaxJobs increasing slot indices below MaxJobs are all of them. */
  lemma OccupiedAll(t: Table)
    requires |t| == MaxJobs && CountJobs(t) == MaxJobs
    ensures forall i :: 0 <= i < |t| ==> Occupied(t, i)
  {
    var slots := OccupiedFrom(t, 0);
    IncreasingCovers(slots, MaxJobs);
    forall i | 0 <= i < |t|
      ensures Occupied(t, i)
    {
      assert slots[i] == i;
    }
  }

  /** A strictly increasing sequence of n indices below n is 0, 1, ..., n-1. */
  lemma {:induction false} IncreasingCovers(s: seq<nat>, n: nat)
    requires |s| == n
    requires forall k :: 0 <= k < |s| ==> s[k] < n
    requires forall k, l :: 0 <= k < l < |s| ==> s[k] < s[l]
    ensures forall k :: 0 <= k < |s| ==> s[k] == k
    decreases n
  {
    if n > 0 {
      var init := s[..n - 1];
      assert forall k :: 0 <= k < n - 1 ==> init[k] < s[n - 1];
      IncreasingBelowLast(s, n);
      IncreasingCovers(init, n - 1);
      assert forall k :: 0 <= k < n - 1 ==> s[k] == init[k];
    }
  }

  lemma IncreasingBelowLast(s: seq<nat>, n: nat)
    requires |s| == n > 0
    requires forall k :: 0 <= k < |s| ==> s[k] < n
    requires forall k, l :: 0 <= k < l < |s| ==> s[k] < s[l]
    ensures s[n - 1] == n - 1
    ensures forall k :: 0 <= k < n - 1 ==> s[k] < n - 1
  {
    IncreasingLowerBound(s);
  }

  /** The k-th element of a strictly increasing sequence of naturals is at least k. */
  lemma {:induction false} IncreasingLowerBound(s: seq<nat>)
    requires forall k, l :: 0 <= k < l < |s| ==> s[k] < s[l]
    ensures forall k :: 0 <= k < |s| ==> s[k] >= k
    decreases |s|
  {
    if |s| > 0 {
      var init := s[..|s| - 1];
      IncreasingLowerBound(init);
      assert forall k :: 0 <= k < |s| - 1 ==> s[k] == init[k];
      if |s| > 1 {
        assert s[|s| - 1] > s[|s| - 2];
      }
    }
  }

  /** Reaping leaves every slot whose pid was not reported as it was. */
  lemma {:induction false} ReapUntouched(t: Table, reported: seq<int>)
    requires Valid(t)
    ensures forall i :: 0 <= i < |t| && t[i].pid !in reported ==> ReapJobs(t, reported)[i] == t[i]
    decreases |reported|
  {
    if |reported| > 0 {
      var t' := RemoveJob(t, reported[0]);
      ReapUntouched(t', reported[1..]);
      forall i | 0 <= i < |t| && t[i].pid !in reported
        ensures ReapJobs(t, reported)[i] == t[i]
      {
        assert t[i].pid != reported[0];
        assert t'[i] == t[i];
        assert t'[i].pid !in reported[1..];
      }
    }
  }

  /** Each reported pid frees one slot only: when two slots hold the same
      pid, reaping it once leaves the later slot as it was, so the pid is
      still in the table. */
  lemma ReapDuplicateStays(t: Table, p: int, i: nat, j: nat)
    requires Valid(t) && i < j < |t| && t[i].pid == p && t[j].pid == p
    ensures ReapJobs(t, [p])[j] == t[j]
    ensures HasPid(ReapJobs(t, [p]), p)
  {
    assert [p][1..] == [];
    assert ReapJobs(t, [p]) == RemoveJob(t, p);
    assert HasPid(t, p);
    var f :| 0 <= f < |t| && t[f].pid == p && (forall k :: 0 <= k < f ==> t[k].pid != p) && RemoveJob(t, p) == t[f := FreeSlot];
    assert f <= i;
  }

  /** When no pid is held by two slots, reaping leaves no reported pid in
      the table, keeps the pids unique and leaves every slot whose pid was
      not reported as it was. */
  lemma {:induction false} ReapClears(t: Table, reported: seq<int>)
    requires Valid(t) && UniquePids(t)
    ensures UniquePids(ReapJobs(t, reported))
    ensures forall i :: 0 <= i < |t| && t[i].pid !in reported ==> ReapJobs(t, reported)[i] == t[i]
    ensures forall p :: p in reported && p != 0 ==> !HasPid(ReapJobs(t, reported), p)
    decreases |reported|
  {
    ReapUntouched(t, reported);
    if |reported| > 0 {
      var t' := RemoveJob(t, reported[0]);
      RemoveKeepsUnique(t, reported[0]);
      ReapClears(t', reported[1..]);
      if reported[0] != 0 {
        ReapNeverAdds(t', reported[1..], reported[0]);
      }
    }
  }

  /** No pid other than 0 is held by two slots. */
  predicate UniquePids(t: Table)
  {
    forall i, j :: 0 <= i < j < |t| && t[i].pid != 0 ==> t[i].pid != t[j].pid
  }

  lemma RemoveKeepsUnique(t: Table, pid: int)
    requires Valid(t) && UniquePids(t)
    ensures UniquePids(RemoveJob(t, pid))
    ensures pid != 0 ==> !HasPid(RemoveJob(t, pid), pid)
  {
    var r := RemoveJob(t, pid);
    if pid != 0 && HasPid(t, pid) {
      var i :| 0 <= i < |t| && t[i].pid == pid && (forall k :: 0 <= k < i ==> t[k].pid != pid) && r == t[i := FreeSlot];
      forall j | 0 <= j < |r|
        ensures r[j].pid != pid
      {
        if j < i {
          assert t[j].pid != pid;
        } else if j > i {
          assert t[i].pid != t[j].pid;
        }
      }
    }
  }

  /** Removals never bring a pid back into the table. */
  lemma {:induction false} ReapNeverAdds(t: Table, reported: seq<int>, p: int)
    requires Valid(t) && p != 0 && !HasPid(t, p)
    ensures !HasPid(ReapJobs(t, reported), p)
    decreases |reported|
  {
    if |reported| > 0 {
      var t' := RemoveJob(t, reported[0]);
      forall j | 0 <= j < |t'|
        ensures t'[j].pid != p
      {
      }
      ReapNeverAdds(t', reported[1..], p);
    }
  }
}
