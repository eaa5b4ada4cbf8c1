/** The first-readers/writer lock of the proxy cache, as the steps of its threads. A
    cache hit takes the reader's path through doit(), write_cache the writer's. */
module CacheLock {
  import opened Counting

  /** Outside; the reader's path up to reading, and out again; the writer's section.
      Raised and Lowered are the places between changing readcnt and testing it. */
  datatype Pc =
    | Idle
    | Entering | Raised | Joined | Reading | Leaving | Lowered | Left
    | Writing

  datatype State = State(mutex: nat, writer: nat, readcnt: int, threads: seq<Pc>)

  /** cache_init with n threads outside. */
  function Init(n: nat): State {
    State(1, 1, 0, seq(n, _ => Idle))
  }

  /** A thread outside chooses a path: a hit reads, a miss ends in a write. */
  datatype Path = Hit | Miss

  /** Thread i is not blocked in P. */
  predicate Enabled(s: State, i: nat, path: Path)
    requires i < |s.threads|
  {
    match s.threads[i]
    case Idle => if path.Hit? then s.mutex > 0 else s.writer > 0
    case Raised => s.readcnt == 1 ==> s.writer > 0
    case Reading => s.mutex > 0
    case _ => true
  }

  function Goto(s: State, i: nat, pc: Pc): State
    requires i < |s.threads|
  {
    s.(threads := s.threads[i := pc])
  }

  function Step(s: State, i: nat, path: Path): (t: State)
    requires i < |s.threads| && Enabled(s, i, path)
    ensures |t.threads| == |s.threads|
  {
    match s.threads[i]
    case Idle =>
      if path.Hit? then Goto(s, i, Entering).(mutex := s.mutex - 1)
      else Goto(s, i, Writing).(writer := s.writer - 1)
    case Entering => Goto(s, i, Raised).(readcnt := s.readcnt + 1)
    case Raised =>
      if s.readcnt == 1 then Goto(s, i, Joined).(writer := s.writer - 1) else Goto(s, i, Joined)
    case Joined => Goto(s, i, Reading).(mutex := s.mutex + 1)
    case Reading => Goto(s, i, Leaving).(mutex := s.mutex - 1)
    case Leaving => Goto(s, i, Lowered).(readcnt := s.readcnt - 1)
    case Lowered =>
      if s.readcnt == 0 then Goto(s, i, Left).(writer := s.writer + 1) else Goto(s, i, Left)
    case Left => Goto(s, i, Idle).(mutex := s.mutex + 1)
    case Writing => Goto(s, i, Idle).(writer := s.writer + 1)
  }

  // ---------- places ----------

  predicate HoldsMutex(t: Pc) {
    t == Entering || t == Raised || t == Joined || t == Leaving || t == Lowered || t == Left
  }
  predicate IsCounted(t: Pc) { t == Raised || t == Joined || t == Reading || t == Leaving }
  predicate IsRaised(t: Pc) { t == Raised }
  predicate HoldsElsewhere(t: Pc) { t == Entering || t == Joined || t == Leaving || t == Left }
  predicate IsReading(t: Pc) { t == Reading }
  predicate CountedElsewhere(t: Pc) { t == Joined || t == Leaving }
  predicate IsLowered(t: Pc) { t == Lowered }
  predicate IsWriting(t: Pc) { t == Writing }

  /** Threads between the increment and the decrement of readcnt. */
  function Counted(s: State): nat { Count(s.threads, IsCounted) }
  function Writers(s: State): nat { Count(s.threads, IsWriting) }

  /** The readers as a group hold `writer`: from the first one's P to the last one's V. */
  predicate ReadersHold(s: State) {
    !(s.readcnt == 0 && Count(s.threads, IsLowered) == 0)
    && !(s.readcnt == 1 && Count(s.threads, IsRaised) == 1)
  }

  ghost predicate Inv(s: State) {
    && s.mutex + Count(s.threads, HoldsMutex) == 1
    && s.readcnt == Counted(s)
    && s.writer + Writers(s) + One(ReadersHold(s)) == 1
    && Count(s.threads, IsRaised) + Count(s.threads, IsLowered) + Count(s.threads, HoldsElsewhere) ==
        Count(s.threads, HoldsMutex)
    && Count(s.threads, IsRaised) + Count(s.threads, IsReading) + Count(s.threads, CountedElsewhere) == Counted(s)
  }

  lemma {:induction false} CountsUpdate(ts: seq<Pc>, i: nat, t: Pc)
    requires i < |ts|
    ensures Count(ts[i := t], HoldsMutex) == Count(ts, HoldsMutex) - One(HoldsMutex(ts[i])) + One(HoldsMutex(t))
    ensures Count(ts[i := t], IsCounted) == Count(ts, IsCounted) - One(IsCounted(ts[i])) + One(IsCounted(t))
    ensures Count(ts[i := t], IsRaised) == Count(ts, IsRaised) - One(IsRaised(ts[i])) + One(IsRaised(t))
    ensures Count(ts[i := t], IsReading) == Count(ts, IsReading) - One(IsReading(ts[i])) + One(IsReading(t))
    ensures Count(ts[i := t], IsLowered) == Count(ts, IsLowered) - One(IsLowered(ts[i])) + One(IsLowered(t))
    ensures Count(ts[i := t], IsWriting) == Count(ts, IsWriting) - One(IsWriting(ts[i])) + One(IsWriting(t))
    ensures Count(ts[i := t], HoldsElsewhere) ==
              Count(ts, HoldsElsewhere) - One(HoldsElsewhere(ts[i])) + One(HoldsElsewhere(t))
    ensures Count(ts[i := t], CountedElsewhere) ==
              Count(ts, CountedElsewhere) - One(CountedElsewhere(ts[i])) + One(CountedElsewhere(t))
    ensures Count(ts, HoldsElsewhere) >= One(HoldsElsewhere(ts[i]))
              && Count(ts, CountedElsewhere) >= One(CountedElsewhere(ts[i]))
    ensures Count(ts, HoldsMutex) >= One(HoldsMutex(ts[i])) && Count(ts, IsCounted) >= One(IsCounted(ts[i]))
    ensures Count(ts, IsRaised) >= One(IsRaised(ts[i])) && Count(ts, IsLowered) >= One(IsLowered(ts[i]))
    ensures Count(ts, IsWriting) >= One(IsWriting(ts[i])) && Count(ts, IsReading) >= One(IsReading(ts[i]))
  {
    CountUpdate(ts, i, t, HoldsMutex);
    CountUpdate(ts, i, t, HoldsElsewhere);
    CountUpdate(ts, i, t, IsCounted);
    CountUpdate(ts, i, t, CountedElsewhere);
    CountUpdate(ts, i, t, IsRaised);
    CountUpdate(ts, i, t, IsReading);
    CountUpdate(ts, i, t, IsLowered);
    CountUpdate(ts, i, t, IsWriting);
  }

  lemma {:induction false} InitInv(n: nat)
    ensures Inv(Init(n))
  {
    var ts := Init(n).threads;
    CountZero(ts, HoldsMutex);
    CountZero(ts, HoldsElsewhere);
    CountZero(ts, IsCounted);
    CountZero(ts, CountedElsewhere);
    CountZero(ts, IsRaised);
    CountZero(ts, IsReading);
    CountZero(ts, IsLowered);
    CountZero(ts, IsWriting);
  }

  lemma {:induction false} StepInv(s: State, i: nat, path: Path)
    requires Inv(s) && i < |s.threads| && Enabled(s, i, path)
    ensures Inv(Step(s, i, path))
  {
    hide Count;
    CountsUpdate(s.threads, i, Step(s, i, path).threads[i]);
  }

  // ---------- whole runs ----------

  datatype Choice = Choice(i: nat, path: Path)

  /** Any interleaving; a thread blocked in P stays where it is. */
  function Run(s: State, cs: seq<Choice>): State
    decreases |cs|
  {
    if cs == [] then s
    else if cs[0].i < |s.threads| && Enabled(s, cs[0].i, cs[0].path)
    then Run(Step(s, cs[0].i, cs[0].path), cs[1..])
    else Run(s, cs[1..])
  }

  lemma {:induction false} RunInv(s: State, cs: seq<Choice>)
    requires Inv(s)
    ensures Inv(Run(s, cs))
    decreases |cs|
  {
    if cs != [] {
      if cs[0].i < |s.threads| && Enabled(s, cs[0].i, cs[0].path) {
        StepInv(s, cs[0].i, cs[0].path);
        RunInv(Step(s, cs[0].i, cs[0].path), cs[1..]);
      } else {
        RunInv(s, cs[1..]);
      }
    }
  }

  /** In every interleaving of any number of threads: one writer at most, no reader
      beside a writer, and readcnt is the number of threads between its increment and
      its decrement. */
  lemma {:induction false} MutualExclusion(n: nat, cs: seq<Choice>)
    ensures var s := Run(Init(n), cs);
            && Writers(s) <= 1
            && (Count(s.threads, IsReading) > 0 ==> Writers(s) == 0)
            && s.readcnt == Counted(s)
            && Inv(s)
  {
    InitInv(n);
    RunInv(Init(n), cs);
  }

  /** A reader blocked on `writer` while it holds `mutex` is the only one counted, and
      waits for a thread that is writing. */
  lemma {:induction false} BlockedReaderWaitsForWriter(s: State, i: nat)
    requires Inv(s) && i < |s.threads| && s.threads[i] == Raised && !Enabled(s, i, Hit)
    ensures s.readcnt == 1 && s.mutex == 0 && Writers(s) == 1
  {
    CountPositive(s.threads, IsRaised, i);
    CountPositive(s.threads, HoldsMutex, i);
  }

  /** Some thread can always take a step, whichever path the threads outside choose. */
  lemma {:induction false} NoDeadlock(s: State, paths: seq<Path>) returns (i: nat)
    requires Inv(s) && |s.threads| > 0 && |paths| == |s.threads|
    ensures i < |s.threads| && Enabled(s, i, paths[i])
  {
    if Writers(s) > 0 {
      i := CountWitness(s.threads, IsWriting);
    } else if s.mutex == 0 {
      i := CountWitness(s.threads, HoldsMutex);
      if s.threads[i] == Raised {
        CountPositive(s.threads, IsRaised, i);
      }
    } else if Count(s.threads, IsReading) > 0 {
      i := CountWitness(s.threads, IsReading);
    } else {
      i := 0;
      NobodyInside(s);
    }
  }

  /** With `mutex` free, nobody reading and nobody writing, both semaphores are free. */
  lemma {:induction false} NobodyInside(s: State)
    requires Inv(s) && s.mutex == 1 && Writers(s) == 0 && Count(s.threads, IsReading) == 0
    ensures s.writer == 1 && s.readcnt == 0
    ensures forall i :: 0 <= i < |s.threads| ==> s.threads[i] == Idle
  {
    forall i | 0 <= i < |s.threads|
      ensures s.threads[i] == Idle
    {
      if HoldsMutex(s.threads[i]) {
        CountPositive(s.threads, HoldsMutex, i);
      } else if IsReading(s.threads[i]) {
        CountPositive(s.threads, IsReading, i);
      } else if IsWriting(s.threads[i]) {
        CountPositive(s.threads, IsWriting, i);
      }
    }
    CountZero(s.threads, IsCounted);
  }

  // ---------- who waits, and for whom ----------

  /** A thread is blocked exactly at a P whose semaphore others hold: at P(mutex) by a
      thread inside one of the short sections, at the writer's P(writer) by a writer or by
      the readers as a group, at the first reader's by a writer. Readers do not wait for
      readers that are reading. */
  lemma {:induction false} BlockedExactly(s: State, i: nat, path: Path)
    requires Inv(s) && i < |s.threads|
    ensures !Enabled(s, i, path) <==>
              match s.threads[i]
              case Idle =>
                if path.Hit? then Count(s.threads, HoldsMutex) > 0 else Writers(s) > 0 || ReadersHold(s)
              case Reading => Count(s.threads, HoldsMutex) > 0
              case Raised => s.readcnt == 1 && Writers(s) > 0
              case _ => false
  {
    if s.threads[i] == Raised {
      CountPositive(s.threads, IsRaised, i);
      CountPositive(s.threads, HoldsMutex, i);
    }
  }

  /** P(mutex), readcnt++, the test with P(writer), V(mutex). */
  function EnterPath(i: nat): seq<Choice> {
    [Choice(i, Hit), Choice(i, Hit), Choice(i, Hit), Choice(i, Hit)]
  }

  lemma {:induction false} RunOne(s: State, c: Choice, cs: seq<Choice>)
    requires c.i < |s.threads| && Enabled(s, c.i, c.path)
    ensures Run(s, [c] + cs) == Run(Step(s, c.i, c.path), cs)
  {
    assert ([c] + cs)[1..] == cs;
  }

  lemma {:induction false} RunFour(s: State, i: nat)
    requires i < |s.threads| && Enabled(s, i, Hit)
    requires var s1 := Step(s, i, Hit);
             && Enabled(s1, i, Hit)
             && var s2 := Step(s1, i, Hit);
                && Enabled(s2, i, Hit)
                && var s3 := Step(s2, i, Hit);
                   Enabled(s3, i, Hit)
    ensures Run(s, EnterPath(i)) == Step(Step(Step(Step(s, i, Hit), i, Hit), i, Hit), i, Hit)
  {
    hide Step, Enabled;
    var c := Choice(i, Hit);
    var s1 := Step(s, i, Hit);
    var s2 := Step(s1, i, Hit);
    var s3 := Step(s2, i, Hit);
    assert EnterPath(i) == [c] + ([c] + ([c] + ([c] + [])));
    RunOne(s, c, [c] + ([c] + ([c] + [])));
    RunOne(s1, c, [c] + ([c] + []));
    RunOne(s2, c, [c] + []);
    RunOne(s3, c, []);
  }

  /** With `mutex` free and no writer inside, a hit gets through to reading, whoever else is
      reading. */
  lemma {:induction false} HitEnters(s: State, i: nat)
    requires Inv(s) && s.mutex == 1 && Writers(s) == 0 && i < |s.threads| && s.threads[i] == Idle
    ensures var t := Run(s, EnterPath(i));
            && t == State(1, 0, s.readcnt + 1, s.threads[i := Reading])
            && Count(t.threads, IsReading) == Count(s.threads, IsReading) + 1
  {
    hide Count;
    NoneBetween(s);
    var ts := s.threads;
    assert ts[i := Entering][i := Raised][i := Joined][i := Reading] == ts[i := Reading];
    RunFour(s, i);
    CountsUpdate(ts, i, Reading);
  }

  /** With `mutex` free nobody is between changing readcnt and testing it. */
  lemma {:induction false} NoneBetween(s: State)
    requires Inv(s) && s.mutex == 1
    ensures Count(s.threads, IsRaised) == Count(s.threads, IsLowered) == 0
    ensures ReadersHold(s) <==> s.readcnt > 0
  {
  }

  /** And a reader gets out again: the last one gives `writer` back. */
  lemma {:induction false} ReaderLeaves(s: State, i: nat)
    requires Inv(s) && s.mutex == 1 && i < |s.threads| && s.threads[i] == Reading
    ensures Run(s, EnterPath(i)) == State(1, if s.readcnt == 1 then 1 else 0, s.readcnt - 1, s.threads[i := Idle])
  {
    CountPositive(s.threads, IsReading, i);
    hide Count;
    NoneBetween(s);
    var ts := s.threads;
    assert ts[i := Leaving][i := Lowered][i := Left][i := Idle] == ts[i := Idle];
    RunFour(s, i);
  }

  /** A miss writes when nobody is inside, and gives `writer` back. */
  lemma {:induction false} MissWrites(s: State, i: nat)
    requires Inv(s) && Writers(s) == 0 && !ReadersHold(s) && i < |s.threads| && s.threads[i] == Idle
    ensures Enabled(s, i, Miss) && Step(s, i, Miss) == s.(writer := 0, threads := s.threads[i := Writing])
    ensures Run(s, [Choice(i, Miss), Choice(i, Miss)]) == s
  {
    hide Count;
    var c, t := Choice(i, Miss), Step(s, i, Miss);
    assert [c, c] == [c] + ([c] + []);
    RunOne(s, c, [c] + []);
    RunOne(t, c, []);
    assert s.threads[i := Writing][i := Idle] == s.threads;
  }

  /** Two hits at the same time: both read. */
  lemma {:induction false} TwoRead()
    ensures var s := Run(Run(Init(2), EnterPath(0)), EnterPath(1));
            s.threads == [Reading, Reading] && Count(s.threads, IsReading) == 2
  {
    hide Run, Inv, Count, EnterPath;
    var s := Init(2);
    assert s == State(1, 1, 0, [Idle, Idle]);
    InitInv(2);
    CountZero(s.threads, IsWriting);
    CountZero(s.threads, IsReading);
    HitEnters(s, 0);
    var t := Run(s, EnterPath(0));
    assert t == State(1, 0, 1, [Reading, Idle]);
    InitRun(s, EnterPath(0));
    CountZero(t.threads, IsWriting);
    HitEnters(t, 1);
    assert [Reading, Idle][1 := Reading] == [Reading, Reading];
  }

  lemma {:induction false} InitRun(s: State, cs: seq<Choice>)
    requires Inv(s)
    ensures Inv(Run(s, cs))
  {
    RunInv(s, cs);
  }
}
