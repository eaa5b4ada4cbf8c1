/** The validity run of mdriver.c: a sequence of requests, each result checked for
    alignment, for lying in the heap, for overlap with every other live payload and,
    after a resize, for its old contents. The first three checks never fail; the last one
    fails exactly when it reads its bytes as negative numbers. */
module Driver {
  import opened Basics
  import opened HeapState
  import opened Words
  import opened HeapMemory
  import opened HeapSteps
  import opened Allocator
  import Spec = AllocatorSpec

  datatype Request =
    | Alloc(id: nat, size: Word)
    | Realloc(id: nat, size: Word)
    | Free(id: nat)

  /** A payload in byte addresses, both ends included. */
  datatype Range = Range(lo: int, hi: int)

  /** The run passed, a check failed, the process exited in expand_heap, or the run
      stopped after a resize that has grown the last block and passed the checks. Undefined is the verdict of
      a trace that uses an id which is not live. */
  datatype Verdict = Passed | Failed | Exited | GrowsLastBlock | Undefined

  /** A trace uses each id as a program uses a pointer, and asks for at least a byte. */
  predicate WellFormed(ops: seq<Request>, live: set<nat>)
    decreases |ops|
  {
    ops == [] ||
    match ops[0]
    case Alloc(id, size) => id !in live && 0 < size && Roundable(size) && WellFormed(ops[1..], live + {id})
    case Realloc(id, size) => id in live && 0 < size && Representable(size) && WellFormed(ops[1..], live)
    case Free(id) => id in live && WellFormed(ops[1..], live - {id})
  }

  predicate Overlaps(r: Range, lo: int, hi: int) {
    (lo >= r.lo && lo <= r.hi) || (hi >= r.lo && hi <= r.hi)
  }

  /** The payload of n bytes at p holds byte b throughout. */
  ghost predicate Filled(m: seq<Word>, p: int, n: nat, b: int) {
    && 0 <= p && p + WordsOf(n) <= |m|
    && forall k {:trigger PayloadByte(m, p, k)} :: 0 <= k < n ==> PayloadByte(m, p, k) == b
  }

  lemma {:induction false} FilledMoves(m: seq<Word>, p: int, m': seq<Word>, q: int, n: nat, b: int)
    requires Filled(m, p, n, b) && SameBytes(m, p, m', q, n)
    ensures Filled(m', q, n, b)
  {
    forall k | 0 <= k < n
      ensures PayloadByte(m', q, k) == b
    {
      assert PayloadByte(m, p, k) == b;
    }
  }

  /** Request `id` is live at blocks[id], and its payload is filled with its byte. */
  ghost predicate Served(m: seq<Word>, s: State, blocks: map<nat, int>, sizes: map<nat, Word>, id: nat) {
    && id in blocks && id in sizes && blocks[id] - HEADER in s.live
    && 0 < sizes[id] == s.live[blocks[id] - HEADER]
    && Filled(m, blocks[id], sizes[id], id % 256)
  }

  function RangeOf(p: int, size: Word): Range {
    Range(4 * p, 4 * p + size - 1)
  }

  ghost predicate Elsewhere(blocks: map<nat, int>, ids: seq<nat>, i: nat, j: nat)
    requires i < |ids| && j < |ids| && ids[i] in blocks && ids[j] in blocks
  {
    i == j || (ids[i] != ids[j] && blocks[ids[i]] != blocks[ids[j]])
  }

  /** The driver's books agree with the heap: ids[i] is served, at a place of its own,
      and ranges[i] is its payload. */
  ghost predicate Booked(m: seq<Word>, s: State, blocks: map<nat, int>, sizes: map<nat, Word>, ranges: seq<Range>,
      ids: seq<nat>) {
    && |ranges| == |ids|
    && (forall i :: 0 <= i < |ids| ==> Served(m, s, blocks, sizes, ids[i]))
    && (forall i :: 0 <= i < |ids| ==> ranges[i] == RangeOf(blocks[ids[i]], sizes[ids[i]]))
    && (forall i, j {:trigger Elsewhere(blocks, ids, i, j)} :: 0 <= i < |ids| && 0 <= j < |ids| ==>
        Elsewhere(blocks, ids, i, j))
  }

  function Drop<T>(s: seq<T>, k: nat): seq<T>
    requires k < |s|
  {
    s[..k] + s[k + 1..]
  }

  lemma {:induction false} DropBooked(m: seq<Word>, s: State, blocks: map<nat, int>, sizes: map<nat, Word>,
      ranges: seq<Range>, ids: seq<nat>, k: nat)
    requires Booked(m, s, blocks, sizes, ranges, ids) && k < |ids|
    ensures Booked(m, s, blocks, sizes, Drop(ranges, k), Drop(ids, k))
    ensures forall i :: 0 <= i < |Drop(ids, k)| ==>
              blocks[Drop(ids, k)[i]] != blocks[ids[k]] && Drop(ids, k)[i] != ids[k]
  {
    var r := Drop(ids, k);
    forall i, j | 0 <= i < |r| && 0 <= j < |r|
      ensures Elsewhere(blocks, r, i, j)
    {
      assert Elsewhere(blocks, ids, if i < k then i else i + 1, if j < k then j else j + 1);
    }
    forall i | 0 <= i < |r|
      ensures blocks[r[i]] != blocks[ids[k]] && r[i] != ids[k]
    {
      assert Elsewhere(blocks, ids, if i < k then i else i + 1, k);
    }
  }

  /** A call that leaves all live blocks but `a` alone keeps the books of the others. */
  lemma {:induction false} KeptBooked(m: seq<Word>, m': seq<Word>, s: State, s': State, a: int,
                   blocks: map<nat, int>, sizes: map<nat, Word>, ranges: seq<Range>, ids: seq<nat>)
    requires Inv(s, NULL) && Repr(m, s) && Spec.KeepsOthers(s, s', a) && Untouched(m, m', s.blocks - {a})
    requires Booked(m, s, blocks, sizes, ranges, ids)
    requires forall i :: 0 <= i < |ids| ==> blocks[ids[i]] - HEADER != a
    ensures Booked(m', s', blocks, sizes, ranges, ids)
  {
    forall i | 0 <= i < |ids|
      ensures Served(m', s', blocks, sizes, ids[i])
    {
      var id := ids[i];
      var b := blocks[id] - HEADER;
      PayloadRoom(m, s, b);
      assert Spec.Kept(s, s', b);
      assert IsAlloc(s.blocks - {a}, b);
      SameRangeBytes(m, m', blocks[id], sizes[id]);
      FilledMoves(m, blocks[id], m', blocks[id], sizes[id], id % 256);
    }
  }

  /** A payload that is live and not in the books passes add_range's tests. */
  lemma {:induction false} NewRangePasses(m: seq<Word>, s: State, start: int, brk: int, p: int, size: Word,
                       blocks: map<nat, int>, sizes: map<nat, Word>, ranges: seq<Range>, ids: seq<nat>)
    requires Shape(s) && s.brk == s.epi + 1 && Repr(m, s) && s.brk == brk && start <= s.lo
    requires p - HEADER in s.live && s.live[p - HEADER] == size > 0
    requires Booked(m, s, blocks, sizes, ranges, ids)
    requires forall i :: 0 <= i < |ids| ==> blocks[ids[i]] != p
    ensures p > 0 && 4 * start <= 4 * p && 4 * p + size - 1 <= 4 * brk - 1
    ensures forall i :: 0 <= i < |ranges| ==> !Overlaps(ranges[i], 4 * p, 4 * p + size - 1)
  {
    ShapeRoom(m, s, p - HEADER);
    assert InBounds(s.blocks, s.lo, s.epi, p - HEADER);
    forall i | 0 <= i < |ranges|
      ensures !Overlaps(ranges[i], 4 * p, 4 * p + size - 1)
    {
      var b := blocks[ids[i]] - HEADER;
      assert Served(m, s, blocks, sizes, ids[i]);
      ShapeRoom(m, s, b);
      assert Apart(s.blocks, p - HEADER, b);
    }
  }

  /** The books after request `id` has been put at p and filled. */
  lemma {:induction false} KeepsItself(s: State, a: int)
    requires Inv(s, NULL)
    ensures Spec.KeepsOthers(s, s, a)
  {
    forall b | b in s.live && b != a
      ensures Spec.Kept(s, s, b)
    {
      LiveBlock(s, NULL, b);
    }
  }

  lemma {:induction false} EnterBooked(m: seq<Word>, m': seq<Word>, s: State, id: nat, p: int, size: Word,
                    blocks: map<nat, int>, sizes: map<nat, Word>, ranges: seq<Range>, ids: seq<nat>)
    requires Inv(s, NULL) && Repr(m, s) && Untouched(m, m', s.blocks - {p - HEADER})
    requires Booked(m, s, blocks, sizes, ranges, ids)
    requires p - HEADER in s.live && s.live[p - HEADER] == size > 0 && Filled(m', p, size, id % 256)
    requires forall i :: 0 <= i < |ids| ==> blocks[ids[i]] != p && ids[i] != id
    ensures Booked(m', s, blocks[id := p], sizes[id := size], [RangeOf(p, size)] + ranges, [id] + ids)
  {
    hide Inv, Repr, Untouched, Filled, Spec.KeepsOthers;
    KeepsItself(s, p - HEADER);
    KeptBooked(m, m', s, s, p - HEADER, blocks, sizes, ranges, ids);
    var bs, zs, ids' := blocks[id := p], sizes[id := size], [id] + ids;
    forall i | 0 <= i < |ids'|
      ensures Served(m', s, bs, zs, ids'[i])
    {
      assert i > 0 ==> Served(m', s, blocks, sizes, ids[i - 1]);
    }
    forall i, j | 0 <= i < |ids'| && 0 <= j < |ids'|
      ensures Elsewhere(bs, ids', i, j)
    {
      assert i > 0 && j > 0 ==> Elsewhere(blocks, ids, i - 1, j - 1);
    }
  }

  // ---------- the check of the old contents ----------

  /** A byte read through a pointer to char, which is signed. */
  function SignedByte(x: int): int {
    if x >= 128 then x - 256 else x
  }

  /** The driver compares the byte it reads with the low byte of the id, which is never
      negative. */
  ghost predicate ReadsBack(m: seq<Word>, p: int, n: nat, b: int)
    requires 0 <= p && p + WordsOf(n) <= |m|
  {
    forall k {:trigger PayloadByte(m, p, k)} :: 0 <= k < n ==> SignedByte(PayloadByte(m, p, k)) == b
  }

  /** A payload that holds byte b throughout reads back as b exactly when b is below 128. */
  lemma {:induction false} FilledReadsBack(m: seq<Word>, p: int, n: nat, b: int)
    requires Filled(m, p, n, b) && n > 0 && IsByte(b)
    ensures ReadsBack(m, p, n, b) <==> b < 128
  {
    assert PayloadByte(m, p, 0) == b;
  }

  /** The driver's check of this request fails although the contents are there. */
  predicate MisreadsBytes(op: Request) {
    op.Realloc? && op.id % 256 >= 128
  }

  // ---------- the run that the driver should see ----------

  /** What one request does to the heap and to the places of the requests, or why the
      run stops there. */
  datatype Step = Go(s: State, places: map<nat, int>) | Stop(v: Verdict)

  ghost predicate Placed(s: State, places: map<nat, int>, id: nat) {
    && Spec.Ready(s) && id in places && places[id] != NULL
    && places[id] - HEADER in s.live && places[id] - HEADER in s.blocks
  }

  ghost function Next(s: State, places: map<nat, int>, op: Request, max: int): Step {
    match op
    case Alloc(id, size) =>
      if !Spec.Ready(s) then Stop(Undefined)
      else
        (match Spec.Malloc(s, size, max)
         case Exit(_) => Stop(Exited)
         case Done(t, p) => Go(t, places[id := p]))
    case Realloc(id, size) =>
      if !Placed(s, places, id) then Stop(Undefined)
      else if Spec.GrowsLast(s, places[id], size, max) then Stop(GrowsLastBlock)
      else
        (match Spec.Realloc(s, places[id], size, max)
         case Exit(_) => Stop(Exited)
         case Done(t, p) => Go(t, places[id := p]))
    case Free(id) =>
      if Placed(s, places, id) then Go(Spec.Free(s, places[id]), places) else Stop(Undefined)
  }

  /** How far the allocator takes a trace. */
  ghost function RunOf(s: State, places: map<nat, int>, ops: seq<Request>, max: int): Verdict
    decreases |ops|
  {
    if ops == [] then Passed
    else
      match Next(s, places, ops[0], max)
      case Stop(v) => v
      case Go(t, q) => RunOf(t, q, ops[1..], max)
  }

  /** The driver's verdict: at every request that returns, it also checks. */
  ghost function VerdictOf(s: State, places: map<nat, int>, ops: seq<Request>, max: int): Verdict
    decreases |ops|
  {
    if ops == [] then Passed
    else
      match Next(s, places, ops[0], max)
      case Stop(v) => if v.GrowsLastBlock? && MisreadsBytes(ops[0]) then Failed else v
      case Go(t, q) => if MisreadsBytes(ops[0]) then Failed else VerdictOf(t, q, ops[1..], max)
  }

  /** The allocator serves the requests up to number i, of which only that one may grow the
      last block, and the driver misreads it. */
  ghost predicate FailsAt(s: State, places: map<nat, int>, ops: seq<Request>, max: int, i: nat)
    requires i < |ops|
  {
    && MisreadsBytes(ops[i]) && RunOf(s, places, ops[..i], max) == Passed
    && RunOf(s, places, ops[..i + 1], max) in {Passed, GrowsLastBlock}
  }

  /** The run fails exactly when the allocator gets through a resize of an id whose low
      byte is 128 or more; otherwise its verdict is how far the allocator takes it. */
  lemma {:induction false} FailsExactly(s: State, places: map<nat, int>, ops: seq<Request>, max: int)
    ensures VerdictOf(s, places, ops, max) == Failed <==> exists i :: 0 <= i < |ops| && FailsAt(s, places, ops, max, i)
    ensures VerdictOf(s, places, ops, max) != Failed ==> VerdictOf(s, places, ops, max) == RunOf(s, places, ops, max)
    decreases |ops|
  {
    hide Next;
    if ops != [] {
      match Next(s, places, ops[0], max) {
        case Stop(v) =>
          NextStops(s, places, ops[0], max);
          RunEnds(s, places, max);
          assert ops[..0] == [];
          forall i | 0 <= i < |ops|
            ensures FailsAt(s, places, ops, max, i) <==> i == 0 && MisreadsBytes(ops[0]) && v == GrowsLastBlock
          {
            assert ops[..i + 1][0] == ops[0];
            assert i > 0 ==> ops[..i] != [] && ops[..i][0] == ops[0];
          }
          assert FailsAt(s, places, ops, max, 0) <==> MisreadsBytes(ops[0]) && v == GrowsLastBlock;
        case Go(t, q) =>
          RunOfFirst(s, places, ops, max, 0);
          assert ops[..0] == [];
          if MisreadsBytes(ops[0]) {
            assert FailsAt(s, places, ops, max, 0);
          } else {
            FailsExactly(t, q, ops[1..], max);
            forall i | 1 <= i < |ops|
              ensures FailsAt(s, places, ops, max, i) <==> FailsAt(t, q, ops[1..], max, i - 1)
            {
              RunOfFirst(s, places, ops, max, i);
              RunOfFirst(s, places, ops, max, i - 1);
            }
            if j: nat :| j < |ops[1..]| && FailsAt(t, q, ops[1..], max, j) {
              assert FailsAt(s, places, ops, max, j + 1);
            }
          }
      }
    }
  }

  lemma {:induction false} NextStops(s: State, places: map<nat, int>, op: Request, max: int)
    ensures Next(s, places, op, max) != Stop(Failed) && Next(s, places, op, max) != Stop(Passed)
  {
    hide Spec.Malloc, Spec.Realloc, Spec.Free, Spec.GrowsLast, Spec.Ready;
  }

  lemma {:induction false} RunOfFirst(s: State, places: map<nat, int>, ops: seq<Request>, max: int, i: nat)
    requires i < |ops| && Next(s, places, ops[0], max).Go?
    ensures var n := Next(s, places, ops[0], max);
            RunOf(s, places, ops[..i + 1], max) == RunOf(n.s, n.places, ops[1..][..i], max)
  {
    hide Next;
    assert ops[..i + 1][0] == ops[0] && ops[..i + 1][1..] == ops[1..][..i];
    var n := Next(s, places, ops[0], max);
    assert i == 0 ==> RunOf(n.s, n.places, ops[1..][..i], max) == Passed;
  }

  /** A request has done what Next says, and has passed the driver's check. */
  ghost predicate Follows(s: State, places: map<nat, int>, op: Request, max: int, v: Verdict, s': State,
      places': map<nat, int>) {
    match Next(s, places, op, max)
    case Stop(w) => if w.GrowsLastBlock? && MisreadsBytes(op) then v == Failed else v == w != Passed
    case Go(t, q) => if MisreadsBytes(op) then v == Failed else v == Passed && s' == t && places' == q
  }

  lemma {:induction false} RunEnds(s: State, places: map<nat, int>, max: int)
    ensures VerdictOf(s, places, [], max) == RunOf(s, places, [], max) == Passed
  {
  }

  lemma {:induction false} NothingBooked(m: seq<Word>, s: State, blocks: map<nat, int>, sizes: map<nat, Word>)
    ensures Booked(m, s, blocks, sizes, [], []) && (s.live == map[] ==> NoOthers(s, blocks, []))
  {
  }

  lemma {:induction false} BookedPlaces(m: seq<Word>, s: State, blocks: map<nat, int>, sizes: map<nat, Word>,
      ranges: seq<Range>, ids: seq<nat>, id: nat)
    requires Spec.Ready(s) && Booked(m, s, blocks, sizes, ranges, ids) && id in ids
    ensures Placed(s, blocks, id)
  {
    assert Served(m, s, blocks, sizes, id);
    LiveBlock(s, NULL, blocks[id] - HEADER);
  }

  lemma {:induction false} ResizedLive(s: State, p: int, size: Word, max: int)
    requires Spec.Ready(s) && Representable(size) && p != NULL && p - HEADER in s.live && p - HEADER in s.blocks
    requires size != 0 && s.brk <= max && 4 * max < TWO31
    ensures var o := Spec.Realloc(s, p, size, max);
            o.Done? && !Spec.GrowsLast(s, p, size, max) ==>
              o.s.live == (s.live - {p - HEADER})[o.p - HEADER := size]
  {
    hide Spec.GrowsLast, Spec.Realloc, Spec.KeepsOthers, Spec.ReallocExits;
    if !Spec.GrowsLast(s, p, size, max) {
      Spec.ReallocResizes(s, p, size, max);
    }
  }

  lemma {:induction false} GrowthReturns(s: State, p: int, size: Word, max: int)
    requires Spec.Ready(s) && Representable(size) && p != NULL && p - HEADER in s.live && p - HEADER in s.blocks
    requires s.brk <= max && 4 * max < TWO31
    ensures Spec.GrowsLast(s, p, size, max) ==> Spec.Realloc(s, p, size, max).Done?
  {
    hide Spec.GrowsLast, Spec.Realloc, Shape, Spec.KeepsOthers;
    if Spec.GrowsLast(s, p, size, max) {
      Spec.GrownLastShape(s, p, size, max);
    }
  }

  lemma {:induction false} RunFollows(s: State, places: map<nat, int>, ops: seq<Request>, i: nat, max: int,
      v: Verdict, s': State, places': map<nat, int>)
    requires i < |ops| && Follows(s, places, ops[i], max, v, s', places')
    ensures VerdictOf(s, places, ops[i..], max) == if v == Passed then VerdictOf(s', places', ops[i + 1..], max) else v
  {
    hide Next;
    assert ops[i..][1..] == ops[i + 1..];
  }

  // ---------- two traces ----------

  /** The heap after the first request on a new heap, for a block of w words. */
  lemma {:induction false} FirstRequest(b: int, id: nat, size: Word, max: int)
    requires HEAD + HEADER <= b && Roundable(size) && Spec.WordsFor(size) <= Spec.EXPAND_BYTES / 4 - 1
    ensures var s, w := Spec.Initial(b), Spec.WordsFor(size); var a := b + 2;
            && s.ring == [HEAD, a] && a in s.blocks && Spec.Ready(s)
            && Next(s, map[], Alloc(id, size), max) == Go(Spec.Place(s, 1, w, size), map[id := a + HEADER])
            && Spec.Ready(Spec.Place(s, 1, w, size)) && Spec.Place(s, 1, w, size).live == map[a := size]
  {
    Spec.InitialReady(b);
    Spec.WordsForHasRoom(size);
    var s, w := Spec.Initial(b), Spec.WordsFor(size);
    assert Spec.FirstFit(s, w, 1) == 1;
    Spec.MallocInv(s, size, max);
  }

  /** A resize to the same size: the block of 1023 words serves a request for 1022, so the
      process exits, whatever room the arena has. */
  lemma {:induction false} SameSizeExits(b: int, max: int)
    requires HEAD + HEADER <= b && b + 2 + 1024 <= max && 4 * max < TWO31
    ensures RunOf(Spec.Initial(b), map[], [Alloc(0, 4072), Realloc(0, 4072)], max) == Exited
  {
    hide Next, Spec.Ready;
    FirstRequest(b, 0, 4072, max);
    var t, p := Spec.Place(Spec.Initial(b), 1, 1022, 4072), b + 2 + HEADER;
    assert t.blocks[b + 2] == Block(1023, false, 4092) && t.epi == b + 2 + 1023;
    Spec.ReallocExitsExactly(t, p, 4072, max);
    SecondRequest(t, p, 0, 4072, max);
    var ops := [Alloc(0, 4072), Realloc(0, 4072)];
    assert ops[1..][1..] == [];
  }

  lemma {:induction false} ResizeInPlace(b: int, max: int)
    requires HEAD + HEADER <= b && b + 2 + 1024 <= max && 4 * max < TWO31
    ensures var s, p := Spec.Initial(b), b + 2 + HEADER;
            && s.ring == [HEAD, b + 2] && b + 2 in s.blocks
            && var t := Spec.Place(s, 1, 5, 1);
               && Spec.Ready(t) && p - HEADER in t.live && p - HEADER in t.blocks
               && !Spec.GrowsLast(t, p, 1, max) && Spec.Realloc(t, p, 1, max).Done?
  {
    hide Spec.Ready, Spec.Realloc;
    FirstRequest(b, 128, 1, max);
    var t, p := Spec.Place(Spec.Initial(b), 1, 5, 1), b + 2 + HEADER;
    assert t.blocks[b + 2] == Block(5, false, 20) && t.blocks[b + 7] == Block(1018, true, 4 * 1018);
    Spec.ReallocExitsExactly(t, p, 1, max);
  }

  /** The contents of block 128 are kept, and the driver says that they are not. */
  lemma {:induction false} MisreadTraceFails(b: int, max: int)
    requires HEAD + HEADER <= b && b + 2 + 1024 <= max && 4 * max < TWO31
    ensures var ops := [Alloc(128, 1), Realloc(128, 1)];
            && RunOf(Spec.Initial(b), map[], ops, max) == Passed
            && VerdictOf(Spec.Initial(b), map[], ops, max) == Failed
  {
    hide Next, Spec.Ready, Spec.Place, Spec.Initial, Spec.GrowsLast;
    FirstRequest(b, 128, 1, max);
    var t, p := Spec.Place(Spec.Initial(b), 1, 5, 1), b + 2 + HEADER;
    ResizeInPlace(b, max);
    SecondRequest(t, p, 128, 1, max);
    var ops := [Alloc(128, 1), Realloc(128, 1)];
    assert ops[1..][1..] == [];
  }

  /** The heap after Alloc(2, 4072) on a new heap at b: the request has the whole chunk. */
  function ChunkHeap(b: int): State {
    State(map[b + 2 := Block(1023, false, 4092)], [HEAD], map[b + 2 := 4072], b + 2, b + 1025, b + 1026)
  }

  /** And after Realloc(2, 8000), which grows it by 981 words. */
  function GrownHeap(b: int): State {
    State(map[b + 2 := Block(2004, false, 4 * 981)], [HEAD], map[b + 2 := 8000], b + 2, b + 2006, b + 2007)
  }

  /** And after Alloc(3, 16), which is cut off a new chunk. With only the head on the list,
      expand_heap's sweep does nothing. */
  function GrownTrace(b: int): State {
    Spec.Place(Spec.Append(GrownHeap(b), 1024), 1, 8, 16)
  }

  /** The first two requests lead to GrownHeap. */
  lemma {:induction false} GrownTraceGrows(b: int, max: int)
    requires HEAD + HEADER <= b && b + 2 + 1024 + 981 <= max && 4 * max < TWO31
    ensures var p, t := b + 2 + HEADER, ChunkHeap(b);
            && Next(Spec.Initial(b), map[], Alloc(2, 4072), max) == Go(t, map[2 := p])
            && Spec.Ready(t) && Spec.GrowsLast(t, p, 8000, max)
            && Spec.Realloc(t, p, 8000, max) == Spec.Done(GrownHeap(b), p)
  {
    hide Spec.Ready, Spec.Initial, Spec.Place, Spec.Realloc, Spec.GrowsLast, Next, GrownHeap, ChunkHeap;
    FirstRequest(b, 2, 4072, max);
    WholeChunk(b);
    ChunkGrows(b, max);
  }

  lemma {:induction false} ChunkGrows(b: int, max: int)
    requires HEAD + HEADER <= b && b + 2 + 1024 + 981 <= max && 4 * max < TWO31 && Spec.Ready(ChunkHeap(b))
    ensures var p, t := b + 2 + HEADER, ChunkHeap(b);
            Spec.GrowsLast(t, p, 8000, max) && Spec.Realloc(t, p, 8000, max) == Spec.Done(GrownHeap(b), p)
  {
    hide Spec.Ready, Spec.Expand, Spec.Append, Spec.ExtendLast, GrownHeap;
    OneBlockExpands(ChunkHeap(b), 981, max);
    ChunkExtended(b);
  }

  lemma {:induction false} ChunkExtended(b: int)
    ensures var u := Spec.Append(ChunkHeap(b), 981);
            && b + 1025 in u.blocks && |u.ring| > 1
            && Spec.ExtendLast(u, b + 2, b + 1025, 2004, 8000) == GrownHeap(b)
  {
    var u := Spec.Append(ChunkHeap(b), 981);
    assert u.ring == [HEAD, b + 1025];
    var v := Spec.ExtendLast(u, b + 2, b + 1025, 2004, 8000);
    assert v.ring == [HEAD] && v.blocks == map[b + 2 := Block(2004, false, 4 * 981)];
  }

  lemma {:induction false} WholeChunk(b: int)
    requires HEAD + HEADER <= b
    ensures var s := Spec.Initial(b);
            && s.ring == [HEAD, b + 2] && b + 2 in s.blocks
            && Spec.Place(s, 1, 1022, 4072) == ChunkHeap(b) && Spec.WordsFor(4072) == 1022
  {
  }

  lemma {:induction false} OneBlockExpands(t: State, n: int, max: int)
    requires Spec.Ready(t) && t.ring == [HEAD] && t.brk + n <= max
    ensures Spec.Expand(t, n, max) == Spec.Done(Spec.Append(t, n), t.epi)
  {
  }

  /** Free(3) then takes a word inside the live payload of request 2 for the header of a
      free block: the driver has filled it with the byte 2. */
  lemma {:induction false} GrownTraceMisleads(b: int, m: seq<Word>)
    requires HEAD + HEADER <= b && Repr(m, GrownTrace(b)) && Filled(m, b + 2 + HEADER, 8000, 2)
    ensures var a, e := b + 2, b + 2 + 2004; var q := e - 981;
            && 0 < e <= |m| && e - m[e - 1] / 4 == q && 0 <= q < |m| && PrevFreeTest(m, e)
            && a + HEADER <= q && 4 * q < 4 * (a + HEADER) + 8000
  {
    var t, a, e := GrownTrace(b), b + 2, b + 2006;
    GrownTraceBlocks(b);
    hide GrownTrace, Filled, Linked, Tags;
    TagOf(m, t, a);
    var q := e - 981;
    WordOfTwos(m, a + HEADER, 8000, q);
    TagOf(m, t, e);
  }

  lemma {:induction false} TagOf(m: seq<Word>, s: State, a: int)
    requires Repr(m, s) && a in s.blocks
    ensures TagAt(m, s.blocks, a)
  {
  }

  lemma {:induction false} GrownTraceBlocks(b: int)
    requires HEAD + HEADER <= b
    ensures var bs := GrownTrace(b).blocks;
            && b + 2 in bs && bs[b + 2] == Block(2004, false, 4 * 981)
            && b + 2006 in bs && bs[b + 2006] == Block(8, false, 32)
  {
  }

  lemma {:induction false} WordOfTwos(m: seq<Word>, p: int, n: nat, q: int)
    requires Filled(m, p, n, 2) && p <= q && 4 * (q - p) + 4 <= n
    ensures q < |m| && m[q] == FromBytes(2, 2, 2, 2)
  {
    hide FromBytes, Byte;
    var k := 4 * (q - p);
    assert PayloadByte(m, p, k) == 2 && PayloadByte(m, p, k + 1) == 2;
    assert PayloadByte(m, p, k + 2) == 2 && PayloadByte(m, p, k + 3) == 2;
    Reassemble(m[q]);
  }

  lemma {:induction false} SecondRequest(t: State, p: int, id: nat, size: Word, max: int)
    requires Spec.Ready(t) && p != NULL && p - HEADER in t.live && p - HEADER in t.blocks
    requires size != 0 && Representable(size) && !Spec.GrowsLast(t, p, size, max)
    ensures var o := Spec.Realloc(t, p, size, max);
            Next(t, map[id := p], Realloc(id, size), max) ==
              match o { case Exit(_) => Stop(Exited) case Done(u, q) => Go(u, map[id := q]) }
  {
    hide Spec.Realloc, Spec.GrowsLast;
    assert map[id := p][id] == p;
    assert forall q :: map[id := p][id := q] == map[id := q];
  }

  // ---------- what a run leaves ----------

  /** Nothing but the booked requests is live. */
  ghost predicate NoOthers(s: State, blocks: map<nat, int>, ids: seq<nat>) {
    forall a {:trigger a in s.live} :: a in s.live ==> Owned(blocks, ids, a)
  }

  ghost predicate Owned(blocks: map<nat, int>, ids: seq<nat>, a: int) {
    exists id :: id in ids && id in blocks && blocks[id] == a + HEADER
  }

  lemma {:induction false} NoOthersAfter(s: State, s': State, blocks: map<nat, int>, ids: seq<nat>, ids': seq<nat>,
                          id: nat, gone: int, p: int, size: nat)
    requires NoOthers(s, blocks, ids) && s'.live == (s.live - {gone})[p - HEADER := size]
    requires id in ids ==> id in blocks && blocks[id] == gone + HEADER
    requires id !in ids ==> gone !in s.live
    requires forall j :: j in ids' <==> j == id || j in ids
    ensures NoOthers(s', blocks[id := p], ids')
  {
    forall a | a in s'.live
      ensures Owned(blocks[id := p], ids', a)
    {
      if a == p - HEADER {
        assert id in ids' && blocks[id := p][id] == a + HEADER;
      } else {
        assert a in s.live && a != gone;
        var j :| j in ids && j in blocks && blocks[j] == a + HEADER;
        assert j in ids' && j != id;
      }
    }
  }

  lemma {:induction false} NoOthersFreed(s: State, s': State, blocks: map<nat, int>, ids: seq<nat>, ids': seq<nat>,
      id: nat)
    requires NoOthers(s, blocks, ids) && id in blocks && s'.live == s.live - {blocks[id] - HEADER}
    requires forall j :: j in ids' <==> j in ids && j != id
    ensures NoOthers(s', blocks, ids')
  {
    forall a | a in s'.live
      ensures Owned(blocks, ids', a)
    {
      var j :| j in ids && j in blocks && blocks[j] == a + HEADER;
      assert j in ids';
    }
  }

  /** The last request of a trace that names this id, or -1. */
  function LastOf(ops: seq<Request>, id: nat): (k: int)
    ensures -1 <= k < |ops|
    ensures k >= 0 ==> ops[k].id == id
    ensures forall j :: k < j < |ops| ==> ops[j].id != id
  {
    if ops == [] then -1
    else if ops[|ops| - 1].id == id then |ops| - 1
    else LastOf(ops[..|ops| - 1], id)
  }

  /** The ids in use and the sizes of their payloads are those of their last requests. */
  ghost predicate Follow(ops: seq<Request>, ids: seq<nat>, sizes: map<nat, Word>) {
    forall id {:trigger LastOf(ops, id)} ::
      var k := LastOf(ops, id);
      && (id in ids <==> k >= 0 && !ops[k].Free?)
      && (id in ids ==> id in sizes && sizes[id] == ops[k].size)
  }

  lemma {:induction false} FollowNone(sizes: map<nat, Word>)
    ensures Follow([], [], sizes)
  {
  }

  lemma {:induction false} FollowNext(ops: seq<Request>, i: nat, ids: seq<nat>, ids': seq<nat>, sizes: map<nat,
      Word>, sizes': map<nat, Word>)
    requires i < |ops| && Follow(ops[..i], ids, sizes)
    requires forall j :: j in ids' <==> (j == ops[i].id && !ops[i].Free?) || (j != ops[i].id && j in ids)
    requires sizes' == if ops[i].Free? then sizes else sizes[ops[i].id := ops[i].size]
    ensures Follow(ops[..i + 1], ids', sizes')
  {
    forall id
      ensures var k := LastOf(ops[..i + 1], id);
              && (id in ids' <==> k >= 0 && !ops[..i + 1][k].Free?)
              && (id in ids' ==> id in sizes' && sizes'[id] == ops[..i + 1][k].size)
    {
      assert ops[..i + 1][..i] == ops[..i];
      assert LastOf(ops[..i + 1], id) == if ops[i].id == id then i else LastOf(ops[..i], id);
    }
  }

  class Driver {
    const heap: Heap
    /** blocks[id] and block_sizes[id] of the trace. */
    var blocks: map<nat, int>
    var sizes: map<nat, Word>
    var ranges: seq<Range>
    /** The id whose payload ranges[i] records. */
    ghost var ids: seq<nat>

    ghost predicate Valid()
      reads this, heap, heap.mem
    {
      && heap.Valid() && heap.start <= heap.s.lo
      && Booked(heap.mem[..], heap.s, blocks, sizes, ranges, ids)
      && NoOthers(heap.s, blocks, ids)
    }

    constructor (heap: Heap)
      ensures this.heap == heap && ranges == [] && ids == []
    {
      this.heap := heap;
      blocks, sizes, ranges, ids := map[], map[], [], [];
    }

    method AddRange(lo: int, size: Word) returns (ok: bool)
      requires size > 0
      modifies `ranges
      ensures ok <==>
                && lo % 4 == 0
                && 4 * heap.start <= lo && lo + size - 1 <= 4 * heap.brk - 1
                && forall i :: 0 <= i < |old(ranges)| ==> !Overlaps(old(ranges)[i], lo, lo + size - 1)
      ensures ranges == if ok then [Range(lo, lo + size - 1)] + old(ranges) else old(ranges)
    {
      var hi := lo + size - 1;
      if lo % 4 != 0 {
        return false;
      }
      var heapLo, heapHi := 4 * heap.start, 4 * heap.brk - 1;
      if lo < heapLo || lo > heapHi || hi < heapLo || hi > heapHi {
        return false;
      }
      for i := 0 to |ranges|
        invariant forall j :: 0 <= j < i ==> !Overlaps(ranges[j], lo, hi)
      {
        if Overlaps(ranges[i], lo, hi) {
          return false;
        }
      }
      ranges := [Range(lo, hi)] + ranges;
      return true;
    }

    /** Removes the first range that starts at lo. */
    method RemoveRange(lo: int)
      modifies `ranges
      ensures forall k :: 0 <= k < |old(ranges)| && old(ranges)[k].lo == lo
                          && (forall j :: 0 <= j < k ==> old(ranges)[j].lo != lo)
                ==> ranges == Drop(old(ranges), k)
      ensures (forall j :: 0 <= j < |old(ranges)| ==> old(ranges)[j].lo != lo) ==> ranges == old(ranges)
    {
      for i := 0 to |ranges|
        invariant ranges == old(ranges)
        invariant forall j :: 0 <= j < i ==> ranges[j].lo != lo
      {
        if ranges[i].lo == lo {
          ranges := Drop(ranges, i);
          return;
        }
      }
    }

    /** memset of a live payload. */
    method Fill(p: int, size: Word, b: int)
      requires heap.Valid() && p - HEADER in heap.s.live && heap.s.live[p - HEADER] == size && IsByte(b)
      modifies heap.mem
      ensures heap.Valid()
      ensures Untouched(old(heap.mem[..]), heap.mem[..], heap.s.blocks - {p - HEADER})
      ensures Filled(heap.mem[..], p, size, b)
    {
      hide Inv, Repr, Untouched, Filled, FromBytes, Splice;
      ghost var m := heap.mem[..];
      PayloadRoom(m, heap.s, p - HEADER);
      FromBytesInRange(b);
      var w: Word := FromBytes(b, b, b, b);
      for i := 0 to size / 4
        invariant forall j :: 0 <= j < heap.mem.Length && !(p <= j < p + i) ==> heap.mem[j] == m[j]
        invariant forall j :: p <= j < p + i ==> heap.mem[j] == w
      {
        heap.mem[p + i] := w;
      }
      var full, r := size / 4, size % 4;
      if r != 0 {
        heap.mem[p + full] := Splice(w, heap.mem[p + full], r);
      }
      SetBytes(m, heap.mem[..], p, size, b);
      InsideRepr(m, heap.mem[..], heap.s, p - HEADER);
    }

    /** add_range for a payload that a call has just returned. */
    method NewRange(id: nat, p: int, size: Word) returns (ok: bool)
      requires heap.Shaped() && heap.start <= heap.s.lo
      requires Booked(heap.mem[..], heap.s, blocks, sizes, ranges, ids)
      requires p - HEADER in heap.s.live && heap.s.live[p - HEADER] == size > 0
      requires forall i :: 0 <= i < |ids| ==> blocks[ids[i]] != p
      modifies `ranges
      ensures ok && ranges == [RangeOf(p, size)] + old(ranges)
    {
      hide Shape, Repr, Untouched, Booked, Filled;
      BookedIds(heap.mem[..], heap.s, blocks, sizes, ranges, ids);
      NewRangePasses(heap.mem[..], heap.s, heap.start, heap.brk, p, size, blocks, sizes, ranges, ids);
      ok := AddRange(4 * p, size);
    }

    /** Fills the payload and remembers the region. */
    method Remember(id: nat, p: int, size: Word, ghost ranges0: seq<Range>)
      requires heap.Valid() && heap.start <= heap.s.lo
      requires Booked(heap.mem[..], heap.s, blocks, sizes, ranges0, ids)
      requires p - HEADER in heap.s.live && heap.s.live[p - HEADER] == size > 0
      requires forall i :: 0 <= i < |ids| ==> blocks[ids[i]] != p && ids[i] != id
      requires ranges == [RangeOf(p, size)] + ranges0
      modifies `blocks, `sizes, `ids, heap.mem
      ensures heap.Valid() && Booked(heap.mem[..], heap.s, blocks, sizes, ranges, ids)
      ensures ids == [id] + old(ids) && blocks == old(blocks)[id := p] && sizes == old(sizes)[id := size]
    {
      hide Inv, Repr, Untouched, Booked, Filled;
      ghost var m := heap.mem[..];
      Fill(p, size, id % 256);
      EnterBooked(m, heap.mem[..], heap.s, id, p, size, blocks, sizes, ranges0, ids);
      blocks, sizes, ids := blocks[id := p], sizes[id := size], [id] + ids;
    }

    /** Do the first n bytes at p all read as b? */
    method CheckBytes(p: int, n: nat, b: int) returns (ok: bool)
      requires 0 <= p && p + WordsOf(n) <= heap.mem.Length
      ensures ok <==> ReadsBack(heap.mem[..], p, n, b)
    {
      for j := 0 to n
        invariant forall k {:trigger PayloadByte(heap.mem[..], p, k)} :: 0 <= k < j ==>
                    SignedByte(PayloadByte(heap.mem[..], p, k)) == b
      {
        if SignedByte(PayloadByte(heap.mem[..], p, j)) != b {
          return false;
        }
      }
      return true;
    }

    method ServeAlloc(id: nat, size: Word) returns (v: Verdict)
      requires Valid() && id !in ids && 0 < size && Roundable(size)
      modifies this, heap, heap.mem
      ensures v == Passed || v == Exited
      ensures v == Passed ==> Valid() && ids == [id] + old(ids) && sizes == old(sizes)[id := size]
      ensures Follows(old(heap.s), old(blocks), Alloc(id, size), heap.mem.Length, v, heap.s, blocks)
    {
      hide Inv, Repr, Untouched, Booked, Filled, NoOthers, Spec.Malloc;
      ghost var m, s0, ranges0 := heap.mem[..], heap.s, ranges;
      Spec.MallocInv(s0, size, heap.mem.Length);
      var ok, p := heap.MmMalloc(size);
      if !ok {
        return Exited;
      }
      ghost var m1, s1 := heap.mem[..], heap.s;
      PayloadRoom(m1, s1, p - HEADER);
      UntouchedLess(m, m1, s0.blocks, p - HEADER);
      BookedIds(m, s0, blocks, sizes, ranges, ids);
      Spec.KeepsOthersLess(s0, s1, p - HEADER);
      KeptBooked(m, m1, s0, s1, p - HEADER, blocks, sizes, ranges, ids);
      if p == NULL {
        assert false;
      }
      InvIsShape(heap.s);
      ok := NewRange(id, p, size);
      if !ok {
        assert false;
      }
      ghost var blocks0, ids0 := blocks, ids;
      Remember(id, p, size, ranges0);
      NoOthersAfter(s0, s1, blocks0, ids0, ids, id, p - HEADER, p, size);
      return Passed;
    }

    method ServeFree(id: nat)
      requires Valid() && id in ids
      modifies this, heap, heap.mem
      ensures Valid() && sizes == old(sizes) && forall j :: j in ids <==> j in old(ids) && j != id
      ensures Follows(old(heap.s), old(blocks), Free(id), heap.mem.Length, Passed, heap.s, blocks)
    {
      hide Inv, Repr, Untouched, Filled, NoOthers, Booked, Spec.Free, Spec.KeepsOthers;
      ghost var m, s0 := heap.mem[..], heap.s;
      BookedPlaces(m, s0, blocks, sizes, ranges, ids, id);
      ghost var ids0 := ids;
      ghost var k := Forget(id, m, s0);
      var p := blocks[id];
      Spec.FreeInv(s0, p);
      heap.MmFree(p);
      KeptBooked(m, heap.mem[..], s0, heap.s, p - HEADER, blocks, sizes, ranges, ids);
      NoOthersFreed(s0, heap.s, blocks, ids0, ids, id);
    }

    /** remove_range for a live request: the others stay in the books. */
    method Forget(id: nat, ghost m: seq<Word>, ghost s0: State) returns (ghost k: nat)
      requires Booked(m, s0, blocks, sizes, ranges, ids) && id in ids
      modifies `ranges, `ids
      ensures Booked(m, s0, blocks, sizes, ranges, ids)
      ensures Served(m, s0, blocks, sizes, id)
      ensures forall i :: 0 <= i < |ids| ==> blocks[ids[i]] != blocks[id] && ids[i] != id
      ensures forall j :: j in ids <==> j in old(ids) && j != id
    {
      hide Inv, Repr, Filled;
      k :| 0 <= k < |ids| && ids[k] == id;
      DropBooked(m, s0, blocks, sizes, ranges, ids, k);
      forall j | 0 <= j < k
        ensures ranges[j].lo != 4 * blocks[id]
      {
        assert Elsewhere(blocks, ids, j, k);
      }
      RemoveRange(4 * blocks[id]);
      DropMembers(ids, k);
      ids := Drop(ids, k);
    }

    /** Will mm_realloc grow the physically last block? The run stops after that. */
    method WouldGrowLast(p: int, size: Word) returns (b: bool)
      requires heap.Valid() && p - HEADER in heap.s.live && Representable(size) && size != 0
      ensures p - HEADER in heap.s.blocks && b == Spec.GrowsLast(heap.s, p, size, heap.mem.Length)
    {
      var block := p - HEADER;
      LiveHeader(heap.mem[..], heap.s, block);
      PayloadRoom(heap.mem[..], heap.s, block);
      Spec.WordsForHasRoom(size);
      var words, w := BlockSize(heap.mem[block]) / 4, GetBlockSize(size) / 4;
      b := block + words == heap.brk - 1 && w > words + OVERHEAD && heap.brk + (w - words) <= heap.mem.Length;
    }

    /** The driver's checks after a resize that has returned newp. Only the comparison of
        the contents can fail. */
    method CheckResized(id: nat, newp: int, size: Word, ghost m: seq<Word>, ghost s0: State)
      returns (ok: bool, ghost ranges0: seq<Range>)
      requires heap.Shaped() && heap.start <= heap.s.lo
      requires Inv(s0, NULL) && Repr(m, s0) && Booked(m, s0, blocks, sizes, ranges, ids) && id in ids && id in blocks
      requires Spec.KeepsOthers(s0, heap.s, blocks[id] - HEADER)
      requires Untouched(m, heap.mem[..], s0.blocks - {blocks[id] - HEADER})
      requires newp - HEADER in heap.s.live && heap.s.live[newp - HEADER] == size > 0
      requires newp == blocks[id] || newp - HEADER !in s0.live
      requires id in sizes && SameBytes(m, blocks[id], heap.mem[..], newp, if sizes[id] < size then sizes[id] else size)
      modifies `ranges, `ids
      ensures ok <==> id % 256 < 128
      ensures Booked(heap.mem[..], heap.s, blocks, sizes, ranges0, ids) && ranges == [RangeOf(newp, size)] + ranges0
      ensures forall i :: 0 <= i < |ids| ==> ids[i] in blocks && blocks[ids[i]] != newp && ids[i] != id
      ensures forall j :: j in ids <==> j in old(ids) && j != id
    {
      hide Inv, Shape, Repr, Untouched, Booked, Filled, SameBytes, ReadsBack, Spec.KeepsOthers;
      ghost var m1, oldp := heap.mem[..], blocks[id];
      ShapeRoom(m1, heap.s, newp - HEADER);
      ghost var k := Forget(id, m, s0);
      BookedIds(m, s0, blocks, sizes, ranges, ids);
      KeptBooked(m, m1, s0, heap.s, oldp - HEADER, blocks, sizes, ranges, ids);
      ranges0 := ranges;
      ok := NewRange(id, newp, size);
      if !ok {
        assert false;
      }
      var n := if size < sizes[id] then size else sizes[id];
      ResizedFilled(m, oldp, m1, newp, sizes[id], n, id % 256);
      FilledReadsBack(m1, newp, n, id % 256);
      ok := CheckBytes(newp, n, id % 256);
    }

    method ServeRealloc(id: nat, size: Word, beyond: int -> Word) returns (v: Verdict)
      requires Valid() && id in ids && 0 < size && Representable(size)
      modifies this, heap, heap.mem
      ensures v != Undefined && (v != Exited ==> heap.Shaped() && heap.start <= heap.s.lo)
      ensures v == Passed ==>
                Valid() && sizes == old(sizes)[id := size] && forall j :: j in ids <==> j in old(ids)
      ensures Follows(old(heap.s), old(blocks), Realloc(id, size), heap.mem.Length, v, heap.s, blocks)
    {
      hide Inv, Shape, Repr, Untouched, Booked, Filled, NoOthers, SameBytes, Spec.Realloc, Spec.GrowsLast,
          Spec.KeepsOthers, Spec.ReallocExits;
      ghost var m, s0 := heap.mem[..], heap.s;
      BookedPlaces(m, s0, blocks, sizes, ranges, ids, id);
      BookedIds(m, s0, blocks, sizes, ranges, ids);
      BookedServes(m, s0, blocks, sizes, ranges, ids, id);
      var oldp := blocks[id];
      PayloadRoom(m, s0, oldp - HEADER);
      var grows := WouldGrowLast(oldp, size);
      BrkInArena(m, s0);
      Spec.ReallocServes(s0, oldp, size, heap.mem.Length);
      Spec.ReallocShape(s0, oldp, size, heap.mem.Length);
      ResizedLive(s0, oldp, size, heap.mem.Length);
      var ok, newp := heap.MmRealloc(oldp, size, beyond);
      if !ok {
        GrowthReturns(s0, oldp, size, heap.mem.Length);
        return Exited;
      }
      ghost var ranges0;
      ok, ranges0 := CheckResized(id, newp, size, m, s0);
      if !ok {
        return Failed;
      }
      if grows {
        return GrowsLastBlock;
      }
      ghost var s1, blocks0, idsBefore := heap.s, blocks, old(ids);
      Remember(id, newp, size, ranges0);
      InvIsShape(heap.s);
      NoOthersAfter(s0, s1, blocks0, idsBefore, ids, id, oldp - HEADER, newp, size);
      return Passed;
    }

    /** eval_mm_valid: for every well-formed trace the checks for alignment, bounds and
        overlap pass at every request. The trace passes unless a request ends the process,
        the last block has been grown, or the driver misreads the contents of a block whose
        id has a low byte of 128 or more. Without resizes it passes or exits. Unless the
        process has exited, the next trace can be run. */
    method EvalMmValid(ops: seq<Request>, beyond: int -> Word) returns (v: Verdict)
      requires heap.Walkable() && heap.start + 2 <= heap.mem.Length
      requires WellFormed(ops, {})
      modifies this, heap, heap.mem
      ensures v != Undefined && (v != Exited ==> heap.Walkable())
      ensures (forall i :: 0 <= i < |ops| ==> !ops[i].Realloc?) ==> v == Passed || v == Exited
      ensures v == Passed ==> Valid() && Follow(ops, ids, sizes)
      ensures var fits, s, max := heap.start + 2 + 1024 <= heap.mem.Length, Spec.Initial(heap.start), heap.mem.Length;
              && (v == Failed <==> fits && exists i :: 0 <= i < |ops| && FailsAt(s, old(blocks), ops, max, i))
              && (v != Failed ==> v == if fits then RunOf(s, old(blocks), ops, max) else Exited)
    {
      hide Follows, Next, VerdictOf, RunOf, FailsAt, Booked, NoOthers, Follow;
      heap.MemResetBrk();
      ranges, ids := [], [];
      var ok := heap.MmInit();
      if !ok {
        return Exited;
      }
      FailsExactly(Spec.Initial(heap.start), blocks, ops, heap.mem.Length);
      NothingBooked(heap.mem[..], heap.s, blocks, sizes);
      FollowNone(sizes);
      ghost var live: set<nat> := {};
      assert ops[0..] == ops;
      for i := 0 to |ops|
        invariant Valid() && WellFormed(ops[i..], live)
        invariant forall j :: j in ids <==> j in live
        invariant Follow(ops[..i], ids, sizes)
        invariant VerdictOf(Spec.Initial(heap.start), old(blocks), ops, heap.mem.Length)
               == VerdictOf(heap.s, blocks, ops[i..], heap.mem.Length)
      {
        assert ops[i..][1..] == ops[i + 1..];
        ghost var s0, places0, ids0, sizes0 := heap.s, blocks, ids, sizes;
        match ops[i] {
          case Alloc(id, size) =>
            v := ServeAlloc(id, size);
            live := live + {id};
          case Realloc(id, size) =>
            v := ServeRealloc(id, size, beyond);
          case Free(id) =>
            ServeFree(id);
            v := Passed;
            live := live - {id};
        }
        RunFollows(s0, places0, ops, i, heap.mem.Length, v, heap.s, blocks);
        if v != Passed {
          return;
        }
        FollowNext(ops, i, ids0, ids, sizes0, sizes);
      }
      assert ops[..|ops|] == ops;
      RunEnds(heap.s, blocks, heap.mem.Length);
      assert ops[|ops|..] == [];
      return Passed;
    }
  }

  lemma {:induction false} BookedServes(m: seq<Word>, s: State, blocks: map<nat, int>, sizes: map<nat, Word>,
      ranges: seq<Range>, ids: seq<nat>, id: nat)
    requires Booked(m, s, blocks, sizes, ranges, ids) && id in ids
    ensures Served(m, s, blocks, sizes, id)
  {
  }

  lemma {:induction false} ResizedFilled(m: seq<Word>, p: int, m': seq<Word>, q: int, size: nat, n: nat, b: int)
    requires Filled(m, p, size, b) && n <= size && SameBytes(m, p, m', q, n)
    ensures Filled(m', q, n, b)
  {
    FilledMoves(m, p, m', q, n, b);
  }

  lemma {:induction false} FromBytesInRange(b: int)
    requires IsByte(b)
    ensures 0 <= FromBytes(b, b, b, b) < TWO32
  {
  }

  /** Whole words of byte b and a partial last word make a filled payload. */
  lemma {:induction false} SetBytes(m: seq<Word>, m': seq<Word>, p: int, size: Word, b: int)
    requires IsByte(b) && 0 <= p && p + WordsOf(size) <= |m| == |m'|
    requires 0 <= FromBytes(b, b, b, b) < TWO32
    requires forall j :: p <= j < p + size / 4 ==> m'[j] == FromBytes(b, b, b, b)
    requires size % 4 != 0 ==> m'[p + size / 4] == Splice(FromBytes(b, b, b, b), m[p + size / 4], size % 4)
    ensures Filled(m', p, size, b)
  {
    hide FromBytes, Splice;
    forall k | 0 <= k < size
      ensures PayloadByte(m', p, k) == b
    {
      WordAndByte(k, size);
      SetByte(FromBytes(b, b, b, b), m[p + k / 4], m'[p + k / 4], size % 4, k % 4, b);
    }
  }

  /** Byte k of n lies in a full word, or in the last one below its remainder. */
  lemma {:induction false} WordAndByte(k: nat, n: nat)
    requires k < n
    ensures k / 4 < WordsOf(n)
    ensures k / 4 < n / 4 || (k / 4 == n / 4 && k % 4 < n % 4)
  {
  }

  lemma {:induction false} SetByte(w: Word, was: Word, now: Word, r: nat, i: nat, b: int)
    requires IsByte(b) && w == FromBytes(b, b, b, b) && r < 4 && i < 4
    requires now == w || (i < r && now == Splice(w, was, r))
    ensures Byte(now, i) == b
  {
    BytesOf(w, b, b, b, b);
    if now != w {
      hide Byte, FromBytes, Splice;
      SpliceBytes(w, was, r, i);
    }
  }

  lemma {:induction false} DropMembers(ids: seq<nat>, k: nat)
    requires k < |ids| && forall i :: 0 <= i < |Drop(ids, k)| ==> Drop(ids, k)[i] != ids[k]
    ensures forall j :: j in Drop(ids, k) <==> j in ids && j != ids[k]
  {
    var r := Drop(ids, k);
    forall j | j in ids && j != ids[k]
      ensures j in r
    {
      var i :| 0 <= i < |ids| && ids[i] == j;
      assert r[if i < k then i else i - 1] == j;
    }
  }

  lemma {:induction false} BookedIds(m: seq<Word>, s: State, blocks: map<nat, int>, sizes: map<nat, Word>,
      ranges: seq<Range>, ids: seq<nat>)
    requires Booked(m, s, blocks, sizes, ranges, ids)
    ensures |ranges| == |ids|
    ensures forall i :: 0 <= i < |ids| ==> ids[i] in blocks && blocks[ids[i]] - HEADER in s.live
  {
    forall i | 0 <= i < |ids|
      ensures ids[i] in blocks && blocks[ids[i]] - HEADER in s.live
    {
      assert Served(m, s, blocks, sizes, ids[i]);
    }
  }
}
