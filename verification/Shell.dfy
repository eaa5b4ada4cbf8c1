/** The shell's read-eval loop interleaved with its SIGCHLD handler: eval forks and
    enters a job while the signal is blocked; the handler reaps children and deletes
    their jobs whenever the signal is not. */
module Shell {
  import opened JobTable

  /** Where eval is: outside, after blocking the signal, after fork, after addjob. */
  datatype MainPc = Ready | Masked | Forked(pid: int) | Entered

  datatype Status = Exited | Signaled | Stopped

  /** Where the handler is: not running, about to call waitpid, or holding the child
      that waitpid has returned. */
  datatype HandlerPc = Off | Polling | Holding(pid: int, status: Status)

  /** `children` are forked and not yet reaped; `lost` those for which addjob found no
      slot. `crashed`: the handler has followed a null job pointer. */
  datatype State = State(table: Table, children: set<int>, lost: set<int>, main: MainPc, handler: HandlerPc,
      crashed: bool)

  /** SIGCHLD is blocked from the first sigprocmask of eval to the last. */
  predicate Blocked(s: State) {
    !s.main.Ready?
  }

  datatype Event =
    | Mask
    | Fork(pid: int)
    | Enter(state: JobState, cmdline: string)
    | Unmask
    | SetState(i: nat, state: JobState)
    | Deliver
    | Wait(pid: int, status: Status)
    | Update
    | Finish

  const START := State(Table(seq(MAXJOBS, _ => CLEAR), 1), {}, {}, Ready, Off, false)

  /** The main flow moves only while the handler is not running, and the handler starts
      only while the signal is not blocked. The kernel chooses unused pids for fork and
      any child for waitpid. */
  predicate Enabled(s: State, e: Event) {
    match e
    case Mask => s.handler.Off? && s.main.Ready?
    case Fork(pid) => s.handler.Off? && s.main.Masked? && pid >= 1 && pid !in s.children
    case Enter(_, _) => s.handler.Off? && s.main.Forked?
    case Unmask => s.handler.Off? && s.main.Entered?
    case SetState(i, _) => s.handler.Off? && s.main.Ready? && i < |s.table.jobs|
    case Deliver => s.handler.Off? && !Blocked(s)
    case Wait(pid, _) => s.handler.Polling? && pid in s.children
    case Update => s.handler.Holding?
    case Finish => s.handler.Polling?
  }

  /** The handler's work on the child that it holds: a job that has ended is deleted, a
      stopped one is marked; the message for a signalled or stopped one reads its id. */
  function HandlerUpdate(s: State): State
    requires s.handler.Holding?
  {
    var pid := s.handler.pid;
    var i := Slot(s.table.jobs, pid, 0);
    var found := pid >= 1 && i < |s.table.jobs|;
    var next := s.(handler := Polling);
    match s.handler.status
    case Exited => next.(table := Delete(s.table, pid).0)
    case Signaled => if found then next.(table := Delete(s.table, pid).0) else next.(crashed := true)
    case Stopped =>
      if found then next.(table := s.table.(jobs := s.table.jobs[i := s.table.jobs[i].(state := St)]))
      else next.(crashed := true)
  }

  function Apply(s: State, e: Event): State
    requires Enabled(s, e)
  {
    match e
    case Mask => s.(main := Masked)
    case Fork(pid) => s.(main := Forked(pid), children := s.children + {pid})
    case Enter(state, cmdline) =>
      var (t, ok) := Add(s.table, s.main.pid, state, cmdline);
      s.(main := Entered, table := t, lost := if ok then s.lost else s.lost + {s.main.pid})
    case Unmask => s.(main := Ready)
    case SetState(i, state) =>
      s.(table := s.table.(jobs := s.table.jobs[i := s.table.jobs[i].(state := state)]))
    case Deliver => s.(handler := Polling)
    case Wait(pid, status) =>
      s.(handler := Holding(pid, status),
         children := if status.Stopped? then s.children else s.children - {pid})
    case Update =>
      var t := HandlerUpdate(s);
      if s.handler.status.Stopped? then t else t.(lost := s.lost - {s.handler.pid})
    case Finish => s.(handler := Off)
  }

  /** Children that eval has forked and not yet entered. */
  function Pending(s: State): set<int> {
    if s.main.Forked? then {s.main.pid} else {}
  }

  /** The child that has been reaped and whose job the handler is about to delete. */
  function Reaped(s: State): set<int> {
    if s.handler.Holding? && !s.handler.status.Stopped? then {s.handler.pid} else {}
  }

  ghost predicate Inv(s: State) {
    && |s.table.jobs| == MAXJOBS && Once(s.table.jobs)
    && (forall p :: p in s.children ==> p >= 1)
    && (!s.handler.Off? ==> s.main.Ready?)
    && (s.handler.Holding? ==> s.handler.pid >= 1 && (s.handler.pid in s.children <==> s.handler.status.Stopped?))
    && Pending(s) <= s.children
    && s.lost <= s.children + Reaped(s) - Pending(s)
    && Pids(s.table.jobs) == s.children + Reaped(s) - Pending(s) - s.lost
  }

  lemma {:induction false} StartInv()
    ensures Inv(START)
  {
  }

  lemma {:induction false} StateFieldKeeps(jobs: seq<Job>, i: nat, state: JobState)
    requires i < |jobs| && Once(jobs)
    ensures var r := jobs[i := jobs[i].(state := state)]; Once(r) && Pids(r) == Pids(jobs)
  {
    var r := jobs[i := jobs[i].(state := state)];
    assert forall j :: 0 <= j < |jobs| ==> r[j].pid == jobs[j].pid;
  }

  lemma {:induction false} StepInv(s: State, e: Event)
    requires Inv(s) && Enabled(s, e)
    ensures Inv(Apply(s, e))
  {
    match e {
      case Enter(state, cmdline) => AddPids(s.table, s.main.pid, state, cmdline);
      case SetState(i, state) => StateFieldKeeps(s.table.jobs, i, state);
      case Update =>
        DeletePids(s.table, s.handler.pid);
        SlotOf(s.table.jobs, s.handler.pid);
        var i := Slot(s.table.jobs, s.handler.pid, 0);
        if i < |s.table.jobs| {
          StateFieldKeeps(s.table.jobs, i, St);
        }
      case _ =>
    }
  }

  // ---------- whole runs ----------

  /** Any interleaving of the main flow, the handler and the kernel's choices. */
  function Run(s: State, es: seq<Event>): State
    decreases |es|
  {
    if es == [] then s
    else if Enabled(s, es[0]) then Run(Apply(s, es[0]), es[1..])
    else Run(s, es[1..])
  }

  lemma {:induction false} RunInv(s: State, es: seq<Event>)
    requires Inv(s)
    ensures Inv(Run(s, es))
    decreases |es|
  {
    if es != [] {
      if Enabled(s, es[0]) {
        StepInv(s, es[0]);
        RunInv(Apply(s, es[0]), es[1..]);
      } else {
        RunInv(s, es[1..]);
      }
    }
  }

  /** Whenever the signal is not blocked and the handler is not running, the pids in the
      table, each in one slot, are the children that are not yet reaped, except those
      for which there was no slot. */
  lemma {:induction false} TableShowsChildren(es: seq<Event>)
    ensures var s := Run(START, es);
            && Once(s.table.jobs)
            && (!Blocked(s) && s.handler.Off? ==> Pids(s.table.jobs) == s.children - s.lost)
  {
    StartInv();
    RunInv(START, es);
  }

  /** No child is deleted before it was added: when the handler holds a reaped child,
      its job is in the table, unless there had been no slot for it. */
  lemma {:induction false} ReapedChildHasJob(es: seq<Event>)
    ensures var s := Run(START, es);
            s.handler.Holding? && s.handler.pid !in s.lost ==>
              && s.handler.pid in Pids(s.table.jobs)
              && Delete(s.table, s.handler.pid).1
  {
    StartInv();
    RunInv(START, es);
    var s := Run(START, es);
    if s.handler.Holding? {
      DeletePids(s.table, s.handler.pid);
    }
  }

  /** A child is lost exactly when addjob meets sixteen jobs. */
  lemma {:induction false} LostExactlyWhenFull(s: State, state: JobState, cmdline: string)
    requires Inv(s) && Enabled(s, Enter(state, cmdline))
    ensures Apply(s, Enter(state, cmdline)).lost != s.lost <==> |s.children - s.lost| > MAXJOBS
  {
    hide Pids, Once, Add;
    var jobs := s.table.jobs;
    AddPids(s.table, s.main.pid, state, cmdline);
    assert Pids(jobs) == s.children - s.lost - {s.main.pid};
    assert |s.children - s.lost| == |Pids(jobs)| + 1;
    if forall i :: 0 <= i < |jobs| ==> jobs[i].pid != 0 {
      FullTable(jobs);
    } else {
      var i :| 0 <= i < |jobs| && jobs[i].pid == 0;
      PidsBelow(jobs, i);
    }
  }

  /** With a free slot there are fewer pids than slots. */
  lemma {:induction false} PidsBelow(jobs: seq<Job>, i: nat)
    requires i < |jobs| && jobs[i].pid == 0
    ensures |Pids(jobs)| < |jobs|
  {
    var others := jobs[..i] + jobs[i + 1..];
    forall p | p in Pids(jobs)
      ensures p in Pids(others)
    {
      var j :| 0 <= j < |jobs| && jobs[j].pid == p;
      assert others[if j < i then j else j - 1].pid == p;
    }
    AtMostSlots(others);
    SubsetSize(Pids(jobs), Pids(others));
  }

  lemma {:induction false} AtMostSlots(jobs: seq<Job>)
    ensures |Pids(jobs)| <= |jobs|
  {
    if jobs != [] {
      var rest, last := jobs[..|jobs| - 1], jobs[|jobs| - 1];
      AtMostSlots(rest);
      assert jobs == rest + [last];
      PidsSnoc(rest, last);
    }
  }

  lemma {:induction false} SubsetSize(a: set<int>, b: set<int>)
    requires a <= b
    ensures |a| <= |b|
  {
    assert b == a + (b - a);
  }

  /** The events of a run never fork while there are sixteen unreaped children. */
  predicate Bounded(s: State, es: seq<Event>)
    decreases |es|
  {
    es == [] ||
    if Enabled(s, es[0])
    then (es[0].Fork? ==> |s.children| < MAXJOBS) && Bounded(Apply(s, es[0]), es[1..])
    else Bounded(s, es[1..])
  }

  lemma {:induction false} BoundedStep(s: State, e: Event)
    requires Inv(s) && Enabled(s, e) && (e.Fork? ==> |s.children| < MAXJOBS)
    requires s.lost == {} && !s.crashed && |s.children| <= MAXJOBS
    ensures var t := Apply(s, e); t.lost == {} && !t.crashed && |t.children| <= MAXJOBS
  {
    hide Pids, Once, Add, Delete, Slot;
    match e {
      case Enter(state, cmdline) =>
        LostExactlyWhenFull(s, state, cmdline);
        assert s.children - s.lost == s.children;
      case Update => CrashesExactly(s);
      case Wait(pid, status) => SubsetSize(Apply(s, e).children, s.children);
      case _ =>
    }
  }

  lemma {:induction false} BoundedRun(s: State, es: seq<Event>)
    requires Inv(s) && Bounded(s, es) && s.lost == {} && !s.crashed && |s.children| <= MAXJOBS
    ensures var t := Run(s, es); Inv(t) && t.lost == {} && !t.crashed
    decreases |es|
  {
    hide Inv, Apply;
    if es != [] {
      if Enabled(s, es[0]) {
        StepInv(s, es[0]);
        BoundedStep(s, es[0]);
        BoundedRun(Apply(s, es[0]), es[1..]);
      } else {
        BoundedRun(s, es[1..]);
      }
    }
  }

  /** With at most sixteen unreaped children, in every interleaving: outside the masked
      window and the handler the table is exactly the set of unreaped children, and the
      handler never follows a null job pointer. */
  lemma {:induction false} TableIsExact(es: seq<Event>)
    requires Bounded(START, es)
    ensures var s := Run(START, es);
            && Once(s.table.jobs) && !s.crashed
            && (!Blocked(s) && s.handler.Off? ==> Pids(s.table.jobs) == s.children)
  {
    StartInv();
    BoundedRun(START, es);
  }

  /** The handler follows a null job pointer exactly when it holds a child for which there
      was no slot and prints a message about it. */
  lemma {:induction false} CrashesExactly(s: State)
    requires Inv(s) && Enabled(s, Update) && !s.crashed
    ensures Apply(s, Update).crashed <==> s.handler.pid in s.lost && !s.handler.status.Exited?
  {
    hide Pids, Once;
    assert s.handler.pid in s.children + Reaped(s) - Pending(s);
    SlotOf(s.table.jobs, s.handler.pid);
  }

  // ---------- seventeen children ----------

  /** eval of one command line that starts a background job. */
  function Round(pid: int): seq<Event> {
    [Mask, Fork(pid), Enter(Bg, "job &"), Unmask]
  }

  function Rounds(n: nat): seq<Event> {
    if n == 0 then [] else Rounds(n - 1) + Round(n)
  }

  lemma {:induction false} RunAppend(s: State, es: seq<Event>, fs: seq<Event>)
    ensures Run(s, es + fs) == Run(Run(s, es), fs)
    decreases |es|
  {
    hide Apply, Enabled;
    if es == [] {
      assert es + fs == fs;
    } else {
      assert (es + fs)[1..] == es[1..] + fs;
      RunAppend(if Enabled(s, es[0]) then Apply(s, es[0]) else s, es[1..], fs);
    }
  }

  lemma {:induction false} RunOne(s: State, e: Event, es: seq<Event>)
    requires Enabled(s, e)
    ensures Run(s, [e] + es) == Run(Apply(s, e), es)
  {
    assert ([e] + es)[1..] == es;
  }

  /** The four steps of a round, one after the other. */
  lemma {:induction false} RoundRuns(s: State, pid: int)
    requires s.main.Ready? && s.handler.Off? && pid >= 1 && pid !in s.children
    ensures var s2 := s.(main := Forked(pid), children := s.children + {pid});
            && Enabled(s2, Enter(Bg, "job &"))
            && Run(s, Round(pid)) == Apply(s2, Enter(Bg, "job &")).(main := Ready)
  {
    hide Run;
    var s1 := s.(main := Masked);
    var s2 := s1.(main := Forked(pid), children := s.children + {pid});
    var s3 := Apply(s2, Enter(Bg, "job &"));
    assert Round(pid) == [Mask] + ([Fork(pid)] + ([Enter(Bg, "job &")] + ([Unmask] + [])));
    RunOne(s, Mask, [Fork(pid)] + ([Enter(Bg, "job &")] + ([Unmask] + [])));
    RunOne(s1, Fork(pid), [Enter(Bg, "job &")] + ([Unmask] + []));
    RunOne(s2, Enter(Bg, "job &"), [Unmask] + []);
    RunOne(s3, Unmask, []);
    RunNothing(s3.(main := Ready));
  }

  lemma {:induction false} RunNothing(s: State)
    ensures Run(s, []) == s
  {
  }

  /** A round in a state without lost children: the new one is lost when there are
      sixteen already. */
  lemma {:induction false} OneRound(s: State, pid: int)
    requires Inv(s) && s.main.Ready? && s.handler.Off? && s.lost == {} && pid >= 1 && pid !in s.children
    ensures var t := Run(s, Round(pid));
            && Inv(t) && t.main.Ready? && t.handler.Off? && t.children == s.children + {pid}
            && t.lost == if |s.children| >= MAXJOBS then {pid} else {}
  {
    hide Run, Pids, Once, Add;
    var s2 := s.(main := Forked(pid), children := s.children + {pid});
    var e := Enter(Bg, "job &");
    RoundRuns(s, pid);
    StepInv(s, Mask);
    StepInv(s.(main := Masked), Fork(pid));
    StepInv(s2, e);
    StepInv(Apply(s2, e), Unmask);
    LostExactlyWhenFull(s2, Bg, "job &");
    assert s2.children - s2.lost == s2.children && |s2.children| == |s.children| + 1;
  }

  lemma {:induction false} RoundsFill(n: nat)
    requires n <= MAXJOBS
    ensures var s := Run(START, Rounds(n));
            && Inv(s) && s.main.Ready? && s.handler.Off? && s.lost == {}
            && |s.children| == n && forall p :: p in s.children ==> p <= n
  {
    hide Run, Inv, Round;
    if n == 0 {
      RunNothing(START);
      StartInv();
    } else {
      RoundsFill(n - 1);
      RunAppend(START, Rounds(n - 1), Round(n));
      OneRound(Run(START, Rounds(n - 1)), n);
    }
  }

  /** Seventeen background jobs, none of which ends: the last one is not in the table. */
  lemma {:induction false} SeventeenthChildIsLost()
    ensures var s := Run(START, Rounds(17));
            s.lost == {17} && 17 in s.children && 17 !in Pids(s.table.jobs)
  {
    hide Run, Pids, Once, Round;
    RoundsFill(16);
    RunAppend(START, Rounds(16), Round(17));
    OneRound(Run(START, Rounds(16)), 17);
  }

  // ---------- what single steps show ----------

  /** addjob's step enters the forked child, under its own pid, with the state and the
      command line of its job, in the first free slot. */
  lemma {:induction false} EnterShows(s: State, state: JobState, cmdline: string)
    requires Inv(s) && Enabled(s, Enter(state, cmdline))
    ensures var t := Apply(s, Enter(state, cmdline));
            && t.main == Entered && t.children == s.children && t.handler == s.handler
            && JobTable.Entered(s.table, t.table, t.lost == s.lost, s.main.pid, state, cmdline)
  {
    AddEnters(s.table, s.main.pid, state, cmdline);
    assert s.main.pid !in s.lost;
  }

  /** The slot of a stopped child changes in its state only, and no other slot changes. */
  lemma {:induction false} StopShows(s: State, i: nat)
    requires Inv(s) && s.handler.Holding? && s.handler.status.Stopped?
    requires i < |s.table.jobs| && s.table.jobs[i].pid == s.handler.pid
    ensures var t := Apply(s, Update);
            && t == s.(handler := Polling, table := t.table) && t.table.nextjid == s.table.nextjid
            && t.table.jobs == s.table.jobs[i := s.table.jobs[i].(state := St)]
  {
    FirstIsSlot(s.table.jobs, s.handler.pid);
  }

  /** The slot of a child that has ended is cleared, and no other slot changes. */
  lemma {:induction false} EndShows(s: State)
    requires Inv(s) && s.handler.Holding? && !s.handler.status.Stopped? && s.handler.pid !in s.lost
    ensures var t := Apply(s, Update);
            && t == s.(handler := Polling, table := t.table)
            && Removed(s.table, t.table, true, s.handler.pid)
  {
    DeleteRemoves(s.table, s.handler.pid);
    assert s.handler.pid in Pids(s.table.jobs);
    SlotOf(s.table.jobs, s.handler.pid);
    assert s.lost - {s.handler.pid} == s.lost;
  }

  /** do_bgfg's assignment: job i gets the state, and nothing else changes. It can happen
      whenever eval and the handler are not at work. */
  lemma {:induction false} StateShows(s: State, i: nat, state: JobState)
    requires Inv(s) && s.main.Ready? && s.handler.Off? && i < |s.table.jobs|
    ensures Enabled(s, SetState(i, state))
    ensures var t := Apply(s, SetState(i, state));
            && t == s.(table := t.table) && t.table.nextjid == s.table.nextjid && |t.table.jobs| == |s.table.jobs|
            && t.table.jobs[i].state == state
            && t.table.jobs[i].pid == s.table.jobs[i].pid && t.table.jobs[i].jid == s.table.jobs[i].jid
            && t.table.jobs[i].cmdline == s.table.jobs[i].cmdline
            && forall j :: 0 <= j < |s.table.jobs| && j != i ==> t.table.jobs[j] == s.table.jobs[j]
  {
  }

  /** Outside eval's masked window the handler can reap any child that has ended: then it is
      neither among the children nor in the table. */
  lemma {:induction false} ReapRuns(s: State, pid: int)
    requires Inv(s) && s.main.Ready? && s.handler.Off? && pid in s.children && pid !in s.lost
    ensures var t := Run(s, [Deliver, Wait(pid, Exited), Update, Finish]);
            && t == s.(children := s.children - {pid}, table := t.table)
            && Removed(s.table, t.table, true, pid) && Pids(t.table.jobs) == Pids(s.table.jobs) - {pid}
  {
    hide Run, Pids, Once, Removed;
    var s1 := s.(handler := Polling);
    var s2 := s.(handler := Holding(pid, Exited), children := s.children - {pid});
    StepInv(s, Deliver);
    StepInv(s1, Wait(pid, Exited));
    EndShows(s2);
    var s3 := Apply(s2, Update);
    DeletePids(s.table, pid);
    assert [Deliver, Wait(pid, Exited), Update, Finish] ==
        [Deliver] + ([Wait(pid, Exited)] + ([Update] + ([Finish] + [])));
    RunOne(s, Deliver, [Wait(pid, Exited)] + ([Update] + ([Finish] + [])));
    RunOne(s1, Wait(pid, Exited), [Update] + ([Finish] + []));
    RunOne(s2, Update, [Finish] + []);
    RunOne(s3, Finish, []);
    RunNothing(s3.(handler := Off));
  }
}
