/** The bounded buffer of the proxy, as the steps of its producer and consumer threads:
    each P, V, counter increment and memory access is a step of its own, and any thread
    may take the next step. */
module ConnectionBuffer {
  import opened Counting

  const BUFFER_SIZE := 32

  /** Where a thread is inside produce() or consume(): before it, past the first P, past
      P(mutex), past the increment of tail or front, past the access to data, past
      V(mutex). */
  datatype Pc = Idle | Admitted | Locked | Advanced | Accessed | Unlocked

  datatype Thread = Thread(producer: bool, pc: Pc, item: int)

  /** `inserted` and `removed` record the items in the order of the accesses. */
  datatype State = State(data: seq<int>, front: int, tail: int, mutex: nat, slots: nat, items: nat,
                         threads: seq<Thread>, inserted: seq<int>, removed: seq<int>)

  /** init_buffer; any threads, all outside. */
  function Init(kinds: seq<bool>): State {
    State(seq(BUFFER_SIZE, _ => 0), 0, 0, 1, BUFFER_SIZE, 0,
          seq(|kinds|, i requires 0 <= i < |kinds| => Thread(kinds[i], Idle, 0)), [], [])
  }

  /** The thread is not blocked in P. */
  predicate Enabled(s: State, i: nat)
    requires i < |s.threads|
  {
    var t := s.threads[i];
    (t.pc == Idle ==> if t.producer then s.slots > 0 else s.items > 0) && (t.pc == Admitted ==> s.mutex > 0)
  }

  function Goto(s: State, i: nat, pc: Pc): State
    requires i < |s.threads|
  {
    s.(threads := s.threads[i := s.threads[i].(pc := pc)])
  }

  /** One step of thread i. A producer enters with `item`. */
  function Step(s: State, i: nat, item: int): (t: State)
    requires i < |s.threads| && Enabled(s, i) && |s.data| == BUFFER_SIZE
    ensures |t.threads| == |s.threads| && |t.data| == BUFFER_SIZE
  {
    var t := s.threads[i];
    match t.pc
    case Idle =>
      if t.producer
      then s.(slots := s.slots - 1, threads := s.threads[i := Thread(true, Admitted, item)])
      else Goto(s, i, Admitted).(items := s.items - 1)
    case Admitted => Goto(s, i, Locked).(mutex := s.mutex - 1)
    case Locked =>
      if t.producer then Goto(s, i, Advanced).(tail := s.tail + 1)
      else Goto(s, i, Advanced).(front := s.front + 1)
    case Advanced =>
      if t.producer
      then Goto(s, i, Accessed).(data := s.data[s.tail % BUFFER_SIZE := t.item], inserted := s.inserted + [t.item])
      else
        var x := s.data[s.front % BUFFER_SIZE];
        s.(threads := s.threads[i := Thread(false, Accessed, x)], removed := s.removed + [x])
    case Accessed => Goto(s, i, Unlocked).(mutex := s.mutex + 1)
    case Unlocked =>
      if t.producer then Goto(s, i, Idle).(items := s.items + 1)
      else Goto(s, i, Idle).(slots := s.slots + 1)
  }

  // ---------- places ----------

  predicate ProducerAdmitted(t: Thread) { t.producer && (t.pc == Admitted || t.pc == Locked) }
  predicate ProducerAdvanced(t: Thread) { t.producer && (t.pc == Advanced || t.pc == Accessed || t.pc == Unlocked) }
  predicate ConsumerAdmitted(t: Thread) { !t.producer && (t.pc == Admitted || t.pc == Locked) }
  predicate ConsumerAdvanced(t: Thread) { !t.producer && (t.pc == Advanced || t.pc == Accessed || t.pc == Unlocked) }
  predicate Critical(t: Thread) { t.pc == Locked || t.pc == Advanced || t.pc == Accessed }
  predicate Writing(t: Thread) { t.producer && t.pc == Advanced }
  predicate Reading(t: Thread) { !t.producer && t.pc == Advanced }

  datatype Places = Places(pa: nat, pv: nat, ca: nat, cv: nat, critical: nat, writing: nat, reading: nat)

  function Tally(ts: seq<Thread>): Places {
    Places(Count(ts, ProducerAdmitted), Count(ts, ProducerAdvanced), Count(ts, ConsumerAdmitted),
           Count(ts, ConsumerAdvanced), Count(ts, Critical), Count(ts, Writing), Count(ts, Reading))
  }

  ghost predicate Accounted(s: State, n: Places) {
    && s.slots + s.items + n.pa + n.pv + n.ca + n.cv == BUFFER_SIZE
    && s.tail - s.front == s.items + n.ca + n.pv
    && s.mutex + n.critical == 1
    && n.writing + n.reading <= n.critical
    && |s.inserted| == s.tail - n.writing
    && |s.removed| == s.front - n.reading
  }

  /** Item number k, counting from 1, is in its slot. */
  ghost predicate InSlot(s: State, k: nat)
    requires |s.data| == BUFFER_SIZE && 0 < k <= |s.inserted|
  {
    s.data[k % BUFFER_SIZE] == s.inserted[k - 1]
  }

  ghost predicate Inv(s: State) {
    && |s.data| == BUFFER_SIZE && 0 <= s.front && 0 <= s.tail
    && Accounted(s, Tally(s.threads))
    && s.removed <= s.inserted
    && (forall k {:trigger InSlot(s, k)} :: |s.removed| < k <= |s.inserted| ==> InSlot(s, k))
  }

  lemma {:induction false} TallyUpdate(ts: seq<Thread>, i: nat, t: Thread)
    requires i < |ts|
    ensures var n, n' := Tally(ts), Tally(ts[i := t]);
            && n'.pa == n.pa - One(ProducerAdmitted(ts[i])) + One(ProducerAdmitted(t))
            && n'.pv == n.pv - One(ProducerAdvanced(ts[i])) + One(ProducerAdvanced(t))
            && n'.ca == n.ca - One(ConsumerAdmitted(ts[i])) + One(ConsumerAdmitted(t))
            && n'.cv == n.cv - One(ConsumerAdvanced(ts[i])) + One(ConsumerAdvanced(t))
            && n'.critical == n.critical - One(Critical(ts[i])) + One(Critical(t))
            && n'.writing == n.writing - One(Writing(ts[i])) + One(Writing(t))
            && n'.reading == n.reading - One(Reading(ts[i])) + One(Reading(t))
            && n'.writing + n'.reading <= n'.critical
            && n.critical >= One(Critical(ts[i])) && n.writing >= One(Writing(ts[i]))
                && n.reading >= One(Reading(ts[i]))
  {
    CountUpdate(ts, i, t, ProducerAdmitted);
    CountUpdate(ts, i, t, ProducerAdvanced);
    CountUpdate(ts, i, t, ConsumerAdmitted);
    CountUpdate(ts, i, t, ConsumerAdvanced);
    CountUpdate(ts, i, t, Critical);
    CountUpdate(ts, i, t, Writing);
    CountUpdate(ts, i, t, Reading);
    CountCovers(ts[i := t], Critical, Writing, Reading);
  }

  lemma {:induction false} InitInv(kinds: seq<bool>)
    ensures Inv(Init(kinds))
  {
    var ts := Init(kinds).threads;
    CountZero(ts, ProducerAdmitted);
    CountZero(ts, ProducerAdvanced);
    CountZero(ts, ConsumerAdmitted);
    CountZero(ts, ConsumerAdvanced);
    CountZero(ts, Critical);
    CountZero(ts, Writing);
    CountZero(ts, Reading);
  }

  /** When a producer is about to store, nobody is about to load, and the item that the
      slot held 32 positions ago has been removed: no slot is overwritten unread. */
  lemma {:induction false} NoOverwrite(s: State, i: nat)
    requires Inv(s) && i < |s.threads| && Writing(s.threads[i])
    ensures |s.inserted| == s.tail - 1 && s.tail - BUFFER_SIZE <= |s.removed|
  {
    CountPositive(s.threads, Writing, i);
  }

  /** When a consumer is about to load, the item it is due has been stored. */
  lemma {:induction false} NoUnderrun(s: State, i: nat)
    requires Inv(s) && i < |s.threads| && Reading(s.threads[i])
    ensures |s.removed| == s.front - 1 && s.front <= |s.inserted|
  {
    CountPositive(s.threads, Reading, i);
  }

  lemma {:induction false} DifferentSlots(j: nat, k: nat)
    requires j < k < j + BUFFER_SIZE
    ensures j % BUFFER_SIZE != k % BUFFER_SIZE
  {
  }

  lemma {:induction false} StepCounts(s: State, i: nat, item: int)
    requires Inv(s) && i < |s.threads| && Enabled(s, i)
    ensures var s' := Step(s, i, item); Accounted(s', Tally(s'.threads))
  {
    hide Tally, InSlot;
    TallyUpdate(s.threads, i, Step(s, i, item).threads[i]);
  }

  lemma {:induction false} StepInv(s: State, i: nat, item: int)
    requires Inv(s) && i < |s.threads| && Enabled(s, i)
    ensures Inv(Step(s, i, item))
  {
    hide Accounted;
    var s' := Step(s, i, item);
    StepCounts(s, i, item);
    if Writing(s.threads[i]) {
      NoOverwrite(s, i);
    }
    if Reading(s.threads[i]) {
      NoUnderrun(s, i);
      assert InSlot(s, s.front);
    }
    forall k | |s'.removed| < k <= |s'.inserted|
      ensures InSlot(s', k)
    {
      if k <= |s.inserted| {
        assert InSlot(s, k);
        if Writing(s.threads[i]) {
          DifferentSlots(k, s.tail);
        }
      }
    }
  }

  // ---------- whole runs ----------

  /** The scheduler's choice: which thread goes next, and what it would produce. A
      thread that is blocked in P stays where it is. */
  datatype Choice = Choice(i: nat, item: int)

  function Run(s: State, cs: seq<Choice>): State
    requires |s.data| == BUFFER_SIZE
    decreases |cs|
  {
    if cs == [] then s
    else if cs[0].i < |s.threads| && Enabled(s, cs[0].i) then Run(Step(s, cs[0].i, cs[0].item), cs[1..])
    else Run(s, cs[1..])
  }

  lemma {:induction false} RunInv(s: State, cs: seq<Choice>)
    requires Inv(s)
    ensures Inv(Run(s, cs)) && |Run(s, cs).threads| == |s.threads|
    decreases |cs|
  {
    if cs != [] {
      if cs[0].i < |s.threads| && Enabled(s, cs[0].i) {
        StepInv(s, cs[0].i, cs[0].item);
        RunInv(Step(s, cs[0].i, cs[0].item), cs[1..]);
      } else {
        RunInv(s, cs[1..]);
      }
    }
  }

  /** After any interleaving of any number of producers and consumers: the items removed
      are the first items inserted, in order, and the buffer holds between 0 and 32. */
  lemma {:induction false} FirstInFirstOut(kinds: seq<bool>, cs: seq<Choice>)
    ensures var s := Run(Init(kinds), cs);
            && s.removed <= s.inserted
            && 0 <= s.tail - s.front <= BUFFER_SIZE
            && Inv(s)
  {
    InitInv(kinds);
    RunInv(Init(kinds), cs);
  }

  /** With a producer and a consumer around, some thread can always take a step. */
  lemma {:induction false} NoDeadlock(s: State, p: nat, c: nat) returns (i: nat)
    requires Inv(s) && p < |s.threads| && c < |s.threads|
    requires s.threads[p].producer && !s.threads[c].producer
    ensures i < |s.threads| && Enabled(s, i)
  {
    if s.mutex == 0 {
      i := CountWitness(s.threads, Critical);
    } else if j :| 0 <= j < |s.threads| && s.threads[j].pc != Idle {
      i := j;
    } else {
      CountZero(s.threads, ProducerAdmitted);
      CountZero(s.threads, ProducerAdvanced);
      CountZero(s.threads, ConsumerAdmitted);
      CountZero(s.threads, ConsumerAdvanced);
      i := if s.slots > 0 then p else c;
    }
  }

  // ---------- who waits, and what a call does ----------

  /** A thread is blocked exactly in front of a full buffer, an empty one, or a thread inside
      the short section: a slot counts as taken from a producer's first P to a consumer's
      last V, an item as there from its V to a consumer's first P. */
  lemma {:induction false} BlockedExactly(s: State, i: nat)
    requires Inv(s) && i < |s.threads|
    ensures var t, n := s.threads[i], Tally(s.threads);
            !Enabled(s, i) <==>
              match t.pc
              case Idle =>
                if t.producer then s.items + n.pa + n.pv + n.ca + n.cv == BUFFER_SIZE
                else s.tail - s.front == n.ca + n.pv
              case Admitted => n.critical > 0
              case _ => false
  {
    hide Tally;
  }

  /** The six steps of a call of produce or consume. */
  function Call(i: nat, item: int): seq<Choice> {
    var c := Choice(i, item);
    [c, c, c, c, c, c]
  }

  lemma {:induction false} RunOne(s: State, c: Choice, cs: seq<Choice>)
    requires c.i < |s.threads| && Enabled(s, c.i) && |s.data| == BUFFER_SIZE
    ensures Run(s, [c] + cs) == Run(Step(s, c.i, c.item), cs)
  {
    assert ([c] + cs)[1..] == cs;
  }

  lemma {:induction false} RunSix(s: State, i: nat, x: int, s1: State, s2: State, s3: State, s4: State, s5: State,
      s6: State)
    requires i < |s.threads| && |s.data| == BUFFER_SIZE
    requires Steps(s, i, x, s1) && Steps(s1, i, x, s2) && Steps(s2, i, x, s3)
    requires Steps(s3, i, x, s4) && Steps(s4, i, x, s5) && Steps(s5, i, x, s6)
    ensures Run(s, Call(i, x)) == s6
  {
    hide Step, Enabled, Run;
    var c := Choice(i, x);
    assert Call(i, x) == [c] + ([c] + ([c] + ([c] + ([c] + ([c] + [])))));
    RunOne(s, c, [c] + ([c] + ([c] + ([c] + ([c] + [])))));
    RunOne(s1, c, [c] + ([c] + ([c] + ([c] + []))));
    RunOne(s2, c, [c] + ([c] + ([c] + [])));
    RunOne(s3, c, [c] + ([c] + []));
    RunOne(s4, c, [c] + []);
    RunOne(s5, c, []);
    RunNothing(s6);
  }

  lemma {:induction false} RunNothing(s: State)
    requires |s.data| == BUFFER_SIZE
    ensures Run(s, []) == s
  {
  }

  ghost predicate Steps(s: State, i: nat, x: int, t: State) {
    i < |s.threads| && |s.data| == BUFFER_SIZE && Enabled(s, i) && t == Step(s, i, x)
  }

  /** With nobody inside the short section all counters are settled. */
  lemma {:induction false} Settled(s: State)
    requires Inv(s) && s.mutex == 1
    ensures s.tail == |s.inserted| && s.front == |s.removed|
  {
    hide Tally, InSlot;
  }

  /** A call of produce, alone for its six steps, inserts its item. */
  lemma {:induction false} ProduceInserts(s: State, i: nat, item: int)
    requires Inv(s) && s.mutex == 1 && s.slots > 0 && i < |s.threads|
    requires s.threads[i].producer && s.threads[i].pc == Idle
    ensures var t := Run(s, Call(i, item));
            && t.inserted == s.inserted + [item] && t.removed == s.removed
            && t.slots == s.slots - 1 && t.items == s.items + 1 && t.mutex == 1
            && t.threads == s.threads[i := Thread(true, Idle, item)] && Inv(t)
  {
    hide Inv, InSlot;
    Settled(s);
    DataSize(s);
    RunInv(s, Call(i, item));
    var ts := s.threads;
    var s1 := s.(slots := s.slots - 1, threads := ts[i := Thread(true, Admitted, item)]);
    var s2 := s1.(mutex := 0, threads := ts[i := Thread(true, Locked, item)]);
    var s3 := s2.(tail := s.tail + 1, threads := ts[i := Thread(true, Advanced, item)]);
    var s4 := s3.(data := s.data[(s.tail + 1) % BUFFER_SIZE := item], inserted := s.inserted + [item],
                  threads := ts[i := Thread(true, Accessed, item)]);
    var s5 := s4.(mutex := 1, threads := ts[i := Thread(true, Unlocked, item)]);
    var s6 := s5.(items := s.items + 1, threads := ts[i := Thread(true, Idle, item)]);
    RunSix(s, i, item, s1, s2, s3, s4, s5, s6);
  }

  lemma {:induction false} DataSize(s: State)
    requires Inv(s)
    ensures |s.data| == BUFFER_SIZE && s.tail >= 0 && s.front >= 0
  {
  }

  /** A call of consume, alone for its six steps, returns the oldest item. */
  lemma {:induction false} ConsumeRemoves(s: State, i: nat)
    requires Inv(s) && s.mutex == 1 && s.items > 0 && i < |s.threads|
    requires !s.threads[i].producer && s.threads[i].pc == Idle
    ensures |s.removed| < |s.inserted|
    ensures var t := Run(s, Call(i, 0)); var x := s.inserted[|s.removed|];
            && t.removed == s.removed + [x] && t.inserted == s.inserted
            && t.slots == s.slots + 1 && t.items == s.items - 1 && t.mutex == 1
            && t.threads == s.threads[i := Thread(false, Idle, x)] && Inv(t)
  {
    hide Inv;
    Settled(s);
    DataSize(s);
    NextItem(s);
    RunInv(s, Call(i, 0));
    var ts, x, old_ := s.threads, s.inserted[|s.removed|], s.threads[i].item;
    var s1 := s.(items := s.items - 1, threads := ts[i := Thread(false, Admitted, old_)]);
    var s2 := s1.(mutex := 0, threads := ts[i := Thread(false, Locked, old_)]);
    var s3 := s2.(front := s.front + 1, threads := ts[i := Thread(false, Advanced, old_)]);
    var s4 := s3.(removed := s.removed + [x], threads := ts[i := Thread(false, Accessed, x)]);
    var s5 := s4.(mutex := 1, threads := ts[i := Thread(false, Unlocked, x)]);
    var s6 := s5.(slots := s.slots + 1, threads := ts[i := Thread(false, Idle, x)]);
    RunSix(s, i, 0, s1, s2, s3, s4, s5, s6);
  }

  lemma {:induction false} NextItem(s: State)
    requires Inv(s) && s.mutex == 1 && s.items > 0
    ensures |s.data| == BUFFER_SIZE && s.front == |s.removed| < |s.inserted|
    ensures s.data[(s.front + 1) % BUFFER_SIZE] == s.inserted[|s.removed|]
  {
    Settled(s);
    hide Tally;
    assert InSlot(s, s.front + 1);
  }

  /** Calls of produce for these items, one after the other. */
  function Calls(i: nat, xs: seq<int>): seq<Choice> {
    if xs == [] then [] else Call(i, xs[0]) + Calls(i, xs[1..])
  }

  lemma {:induction false} RunAppend(s: State, cs: seq<Choice>, ds: seq<Choice>)
    requires |s.data| == BUFFER_SIZE
    ensures |Run(s, cs).data| == BUFFER_SIZE && Run(s, cs + ds) == Run(Run(s, cs), ds)
    decreases |cs|
  {
    hide Enabled;
    if cs == [] {
      assert cs + ds == ds;
    } else {
      assert (cs + ds)[1..] == cs[1..] + ds;
      if cs[0].i < |s.threads| && Enabled(s, cs[0].i) {
        RunAppend(Step(s, cs[0].i, cs[0].item), cs[1..], ds);
      } else {
        RunAppend(s, cs[1..], ds);
      }
    }
  }

  /** As many items as there are free slots fit the buffer without a consumer: from the
      start, all 32. */
  lemma {:induction false} FillsUp(s: State, i: nat, xs: seq<int>)
    requires Inv(s) && s.mutex == 1 && |xs| <= s.slots && i < |s.threads|
    requires s.threads[i].producer && s.threads[i].pc == Idle
    ensures |s.data| == BUFFER_SIZE
    ensures var t := Run(s, Calls(i, xs));
            t.inserted == s.inserted + xs && t.removed == s.removed && t.slots == s.slots - |xs|
    decreases |xs|
  {
    hide Inv, Run, Call;
    DataSize(s);
    if xs == [] {
      RunNothing(s);
    } else {
      ProduceInserts(s, i, xs[0]);
      var t := Run(s, Call(i, xs[0]));
      FillsUp(t, i, xs[1..]);
      RunAppend(s, Call(i, xs[0]), Calls(i, xs[1..]));
      assert s.inserted + [xs[0]] + xs[1..] == s.inserted + xs;
    }
  }

  lemma {:induction false} ThirtyTwoFit(xs: seq<int>)
    requires |xs| == 32
    ensures var t := Run(Init([true]), Calls(0, xs)); t.inserted == xs && t.removed == [] && t.slots == 0
  {
    hide Run, Calls, Inv, Call;
    InitInv([true]);
    FillsUp(Init([true]), 0, xs);
  }
}
