/** The shell's job table: sixteen slots, a slot with pid 0 being free. */
module JobTable {

  const MAXJOBS := 16

  datatype JobState = Undef | Fg | Bg | St

  datatype Job = Job(pid: int, jid: int, state: JobState, cmdline: string)

  const CLEAR := Job(0, 0, Undef, "")

  datatype Table = Table(jobs: seq<Job>, nextjid: int)

  /** The first slot with this pid from i on, or the number of slots. */
  function Slot(jobs: seq<Job>, pid: int, i: nat): (r: nat)
    requires i <= |jobs|
    ensures i <= r <= |jobs|
    ensures forall j :: i <= j < r ==> jobs[j].pid != pid
    ensures r < |jobs| ==> jobs[r].pid == pid
    decreases |jobs| - i
  {
    if i == |jobs| || jobs[i].pid == pid then i else Slot(jobs, pid, i + 1)
  }

  function MaxJid(jobs: seq<Job>): (m: int)
    ensures m >= 0 && forall i :: 0 <= i < |jobs| ==> jobs[i].jid <= m
    ensures m == 0 || exists i :: 0 <= i < |jobs| && jobs[i].jid == m
  {
    if jobs == [] then 0
    else
      var m := MaxJid(jobs[..|jobs| - 1]);
      if jobs[|jobs| - 1].jid > m then jobs[|jobs| - 1].jid else m
  }

  function Add(t: Table, pid: int, state: JobState, cmdline: string): (Table, bool) {
    var i := Slot(t.jobs, 0, 0);
    if pid < 1 || i == |t.jobs| then (t, false)
    else
      var next := if t.nextjid + 1 > MAXJOBS then 1 else t.nextjid + 1;
      (Table(t.jobs[i := Job(pid, t.nextjid, state, cmdline)], next), true)
  }

  function Delete(t: Table, pid: int): (Table, bool) {
    var i := Slot(t.jobs, pid, 0);
    if pid < 1 || i == |t.jobs| then (t, false)
    else
      var jobs := t.jobs[i := CLEAR];
      (Table(jobs, MaxJid(jobs) + 1), true)
  }

  // ---------- what happens to the slots ----------

  /** Slot i is the first one with this pid. */
  ghost predicate FirstWith(jobs: seq<Job>, pid: int, i: int) {
    0 <= i < |jobs| && jobs[i].pid == pid && forall j :: 0 <= j < i ==> jobs[j].pid != pid
  }

  /** The first free slot holds the new job under the next id, which then counts on or
      starts at 1 again; without a free slot, or for no pid, nothing changes. */
  ghost predicate Entered(t: Table, t': Table, ok: bool, pid: int, state: JobState, cmdline: string) {
    && (ok <==> pid >= 1 && exists i :: 0 <= i < |t.jobs| && t.jobs[i].pid == 0)
    && (!ok ==> t' == t)
    && (forall i {:trigger FirstWith(t.jobs, 0, i)} :: ok && FirstWith(t.jobs, 0, i) ==>
          t'.jobs == t.jobs[i := Job(pid, t.nextjid, state, cmdline)])
    && (ok ==> t'.nextjid == if t.nextjid < 16 then t.nextjid + 1 else 1)
  }

  /** The first slot with the pid is clear, and the next id is one more than the largest. */
  ghost predicate Removed(t: Table, t': Table, ok: bool, pid: int) {
    && (ok <==> pid >= 1 && exists i :: 0 <= i < |t.jobs| && t.jobs[i].pid == pid)
    && (!ok ==> t' == t)
    && (forall i {:trigger FirstWith(t.jobs, pid, i)} :: ok && FirstWith(t.jobs, pid, i) ==>
          t'.jobs == t.jobs[i := Job(0, 0, Undef, "")])
    && (ok ==> t'.nextjid - 1 >= 0 && forall i :: 0 <= i < |t'.jobs| ==> t'.jobs[i].jid <= t'.nextjid - 1)
    && (ok ==> t'.nextjid == 1 || exists i :: 0 <= i < |t'.jobs| && t'.jobs[i].jid == t'.nextjid - 1)
  }

  lemma {:induction false} AddEnters(t: Table, pid: int, state: JobState, cmdline: string)
    ensures Entered(t, Add(t, pid, state, cmdline).0, Add(t, pid, state, cmdline).1, pid, state, cmdline)
  {
    var i := Slot(t.jobs, 0, 0);
    FirstIsSlot(t.jobs, 0);
  }

  lemma {:induction false} FirstIsSlot(jobs: seq<Job>, pid: int)
    ensures forall i :: FirstWith(jobs, pid, i) ==> i == Slot(jobs, pid, 0)
    ensures Slot(jobs, pid, 0) < |jobs| ==> FirstWith(jobs, pid, Slot(jobs, pid, 0))
  {
  }

  lemma {:induction false} DeleteRemoves(t: Table, pid: int)
    ensures Removed(t, Delete(t, pid).0, Delete(t, pid).1, pid)
  {
    FirstIsSlot(t.jobs, pid);
  }

  // ---------- job ids ----------

  /** As long as every id in the table is smaller than the next one, a new job gets an id
      of its own. Adding keeps that exactly until the next id starts at 1 again. */
  lemma {:induction false} NewIdIsNew(t: Table, t': Table, i: int, pid: int, state: JobState, cmdline: string)
    requires Entered(t, t', true, pid, state, cmdline) && FirstWith(t.jobs, 0, i)
    requires forall j :: 0 <= j < |t.jobs| ==> t.jobs[j].jid < t.nextjid
    ensures forall j :: 0 <= j < |t'.jobs| && t'.jobs[j].jid == t'.jobs[i].jid ==> j == i
    ensures (forall j :: 0 <= j < |t'.jobs| ==> t'.jobs[j].jid < t'.nextjid) <==> t.nextjid < 16
  {
    assert t'.jobs[i].jid == t.nextjid;
  }

  /** Deleting restores it, whatever the next id was. */
  lemma {:induction false} DeleteRestoresIds(t: Table, t': Table, pid: int)
    requires Removed(t, t', true, pid)
    ensures forall j :: 0 <= j < |t'.jobs| ==> t'.jobs[j].jid < t'.nextjid
  {
  }

  /** With ids 1 and 16 in the table, two more jobs get 17, which is out of range, and 1,
      which is taken. */
  lemma {:induction false} IdTaken(a: Job, b: Job)
    requires a.pid == 1 && a.jid == 1 && b.pid == 2 && b.jid == 16
    ensures var t := Table([a, b, CLEAR, CLEAR], 17);
            var u := Add(t, 3, Bg, "").0;
            var v := Add(u, 4, Bg, "").0;
            |v.jobs| == 4 && v.jobs[2].jid == 17 && v.jobs[3].jid == 1 == v.jobs[0].jid
  {
    var t := Table([a, b, CLEAR, CLEAR], 17);
    AddEnters(t, 3, Bg, "");
    assert FirstWith(t.jobs, 0, 2);
    var u := Add(t, 3, Bg, "").0;
    assert t.jobs[2].pid == 0;
    AddEnters(u, 4, Bg, "");
    assert u.jobs[3].pid == 0 && FirstWith(u.jobs, 0, 3);
  }

  // ---------- the pids in the table ----------

  /** Every nonzero pid is in one slot only. */
  ghost predicate Once(jobs: seq<Job>) {
    forall i, j :: 0 <= i < j < |jobs| && jobs[i].pid == jobs[j].pid ==> jobs[i].pid == 0
  }

  function Pids(jobs: seq<Job>): set<int> {
    set i | 0 <= i < |jobs| && jobs[i].pid != 0 :: jobs[i].pid
  }

  lemma {:induction false} SlotOf(jobs: seq<Job>, pid: int)
    requires pid != 0
    ensures pid in Pids(jobs) <==> Slot(jobs, pid, 0) < |jobs|
  {
  }

  /** addjob enters a new pid exactly when a slot is free, and otherwise nothing. */
  lemma {:induction false} AddPids(t: Table, pid: int, state: JobState, cmdline: string)
    requires Once(t.jobs) && pid >= 1 && pid !in Pids(t.jobs)
    ensures var (t', ok) := Add(t, pid, state, cmdline);
            && |t'.jobs| == |t.jobs| && Once(t'.jobs)
            && Pids(t'.jobs) == (if ok then Pids(t.jobs) + {pid} else Pids(t.jobs))
            && (ok <==> exists i :: 0 <= i < |t.jobs| && t.jobs[i].pid == 0)
  {
    var (t', ok) := Add(t, pid, state, cmdline);
    var i := Slot(t.jobs, 0, 0);
    if ok {
      assert t'.jobs[i].pid == pid;
      forall p | p in Pids(t.jobs)
        ensures p in Pids(t'.jobs)
      {
        var j :| 0 <= j < |t.jobs| && t.jobs[j].pid == p;
        assert t'.jobs[j].pid == p;
      }
    }
  }

  /** deletejob removes exactly this pid. */
  lemma {:induction false} DeletePids(t: Table, pid: int)
    requires Once(t.jobs) && pid >= 1
    ensures var (t', ok) := Delete(t, pid);
            && |t'.jobs| == |t.jobs| && Once(t'.jobs)
            && Pids(t'.jobs) == Pids(t.jobs) - {pid}
            && (ok <==> pid in Pids(t.jobs))
  {
    var (t', ok) := Delete(t, pid);
    var i := Slot(t.jobs, pid, 0);
    SlotOf(t.jobs, pid);
    if ok {
      forall p | p in Pids(t.jobs) && p != pid
        ensures p in Pids(t'.jobs)
      {
        var j :| 0 <= j < |t.jobs| && t.jobs[j].pid == p;
        assert t'.jobs[j].pid == p;
      }
    }
  }

  lemma {:induction false} PidsSnoc(rest: seq<Job>, last: Job)
    ensures Pids(rest + [last]) == Pids(rest) + (if last.pid == 0 then {} else {last.pid})
  {
    var jobs := rest + [last];
    assert jobs[|rest|].pid == last.pid;
    forall p | p in Pids(rest)
      ensures p in Pids(jobs)
    {
      var i :| 0 <= i < |rest| && rest[i].pid == p;
      assert jobs[i].pid == p;
    }
  }

  /** Without a free slot there are as many pids as slots. */
  lemma {:induction false} FullTable(jobs: seq<Job>)
    requires Once(jobs) && forall i :: 0 <= i < |jobs| ==> jobs[i].pid != 0
    ensures |Pids(jobs)| == |jobs|
  {
    if jobs != [] {
      var rest, last := jobs[..|jobs| - 1], jobs[|jobs| - 1];
      FullTable(rest);
      assert last.pid !in Pids(rest);
      assert jobs == rest + [last];
      PidsSnoc(rest, last);
    }
  }

  // ---------- the array ----------

  class JobList {
    const jobs: array<Job>
    var nextjid: int

    ghost function Contents(): Table
      reads this, jobs
    {
      Table(jobs[..], nextjid)
    }

    /** initjobs */
    constructor ()
      ensures jobs.Length == MAXJOBS && fresh(jobs)
      ensures Contents() == Table(seq(MAXJOBS, _ => CLEAR), 1)
    {
      jobs := new Job[MAXJOBS](_ => CLEAR);
      nextjid := 1;
    }

    method ClearJob(i: nat)
      requires i < jobs.Length
      modifies jobs
      ensures jobs[..] == old(jobs[..])[i := CLEAR]
    {
      jobs[i] := CLEAR;
    }

    method MaxJobId() returns (max: int)
      ensures max == MaxJid(jobs[..])
    {
      max := 0;
      for i := 0 to jobs.Length
        invariant max == MaxJid(jobs[..i])
      {
        assert jobs[..i + 1][..i] == jobs[..i];
        if jobs[i].jid > max {
          max := jobs[i].jid;
        }
      }
      assert jobs[..jobs.Length] == jobs[..];
    }

    method AddJob(pid: int, state: JobState, cmdline: string) returns (ok: bool)
      modifies this, jobs
      ensures (Contents(), ok) == Add(old(Contents()), pid, state, cmdline)
      ensures Entered(old(Contents()), Contents(), ok, pid, state, cmdline)
    {
      hide Entered;
      AddEnters(Contents(), pid, state, cmdline);
      if pid < 1 {
        return false;
      }
      for i := 0 to jobs.Length
        invariant Contents() == old(Contents())
        invariant Slot(jobs[..], 0, 0) == Slot(jobs[..], 0, i)
      {
        if jobs[i].pid == 0 {
          jobs[i] := Job(pid, nextjid, state, cmdline);
          nextjid := nextjid + 1;
          if nextjid > MAXJOBS {
            nextjid := 1;
          }
          return true;
        }
      }
      return false;
    }

    method DeleteJob(pid: int) returns (ok: bool)
      modifies this, jobs
      ensures (Contents(), ok) == Delete(old(Contents()), pid)
      ensures Removed(old(Contents()), Contents(), ok, pid)
    {
      hide MaxJid, Removed;
      DeleteRemoves(Contents(), pid);
      if pid < 1 {
        return false;
      }
      for i := 0 to jobs.Length
        invariant Contents() == old(Contents())
        invariant Slot(jobs[..], pid, 0) == Slot(jobs[..], pid, i)
      {
        if jobs[i].pid == pid {
          ClearJob(i);
          var m := MaxJobId();
          nextjid := m + 1;
          return true;
        }
      }
      return false;
    }

    /** getjobpid: the slot, or -1 for a null pointer. */
    method GetJobPid(pid: int) returns (r: int)
      ensures r == if pid < 1 || Slot(jobs[..], pid, 0) == jobs.Length then -1 else Slot(jobs[..], pid, 0)
    {
      if pid < 1 {
        return -1;
      }
      for i := 0 to jobs.Length
        invariant Slot(jobs[..], pid, 0) == Slot(jobs[..], pid, i)
      {
        if jobs[i].pid == pid {
          return i;
        }
      }
      return -1;
    }
  }
}
