/** What the allocator's operations do to the blocks and to the order of the list, told
    from the blocks before and after alone. */
module AllocatorEffects {
  import opened Basics
  import opened HeapState
  import opened Words
  import Spec = AllocatorSpec

  // ---------- the order of the list ----------

  ghost predicate Before(ring: seq<int>, x: int, y: int) {
    x in ring && y in ring && IndexOf(ring, x) < IndexOf(ring, y)
  }

  ghost predicate SameOrder(r: seq<int>, r': seq<int>, x: int, y: int) {
    Before(r, x, y) <==> Before(r', x, y)
  }

  /** What is on both lists is in the same order on both. With the invariant, which says
      what is on a list, this determines the list. */
  ghost predicate KeepsOrder(r: seq<int>, r': seq<int>) {
    forall x, y {:trigger SameOrder(r, r', x, y)} ::
      x in r && x in r' && y in r && y in r' ==> SameOrder(r, r', x, y)
  }

  lemma {:induction false} OrderRefl(r: seq<int>)
    ensures KeepsOrder(r, r)
  {
  }

  lemma {:induction false} OrderTrans(r: seq<int>, r': seq<int>, r'': seq<int>)
    requires KeepsOrder(r, r') && KeepsOrder(r', r'') && forall x :: x in r && x in r'' ==> x in r'
    ensures KeepsOrder(r, r'')
  {
    forall x, y | x in r && x in r'' && y in r && y in r''
      ensures SameOrder(r, r'', x, y)
    {
      assert SameOrder(r, r', x, y) && SameOrder(r', r'', x, y);
    }
  }

  lemma {:induction false} IndexIs(r: seq<int>, k: nat)
    requires Distinct(r) && k < |r|
    ensures IndexOf(r, r[k]) == k
  {
    assert Differ(r, IndexOf(r, r[k]), k);
  }

  lemma {:induction false} RemoveAtOrder(r: seq<int>, k: nat)
    requires Distinct(r) && k < |r|
    ensures KeepsOrder(r, RemoveAt(r, k))
  {
    var r' := RemoveAt(r, k);
    RemoveAtKeeps(r, k);
    forall x, y | x in r && x in r' && y in r && y in r'
      ensures SameOrder(r, r', x, y)
    {
      RemovedIndex(r, k, x);
      RemovedIndex(r, k, y);
    }
  }

  lemma {:induction false} RemovedIndex(r: seq<int>, k: nat, x: int)
    requires Distinct(r) && k < |r| && x in RemoveAt(r, k)
    ensures x in r && IndexOf(r, x) != k
    ensures IndexOf(RemoveAt(r, k), x) == if IndexOf(r, x) < k then IndexOf(r, x) else IndexOf(r, x) - 1
  {
    RemoveAtKeeps(r, k);
    var j := IndexOf(r, x);
    var r' := RemoveAt(r, k);
    assert r'[if j < k then j else j - 1] == x;
    IndexIs(r', if j < k then j else j - 1);
  }

  lemma {:induction false} WithoutOrder(r: seq<int>, x: int)
    requires Distinct(r)
    ensures KeepsOrder(r, Without(r, x))
  {
    if x in r {
      RemoveAtOrder(r, IndexOf(r, x));
    } else {
      OrderRefl(r);
    }
  }

  lemma {:induction false} InsertAtOrder(r: seq<int>, k: nat, x: int)
    requires Distinct(r) && k <= |r| && x !in r
    ensures KeepsOrder(r, InsertAt(r, k, x))
  {
    var r' := InsertAt(r, k, x);
    InsertAtKeeps(r, k, x);
    forall y, z | y in r && z in r
      ensures SameOrder(r, r', y, z)
    {
      InsertedIndex(r, k, x, y);
      InsertedIndex(r, k, x, z);
    }
  }

  lemma {:induction false} InsertedIndex(r: seq<int>, k: nat, x: int, y: int)
    requires Distinct(r) && k <= |r| && x !in r && y in r
    ensures y in InsertAt(r, k, x)
    ensures IndexOf(InsertAt(r, k, x), y) == if IndexOf(r, y) < k then IndexOf(r, y) else IndexOf(r, y) + 1
  {
    InsertAtKeeps(r, k, x);
    var j := IndexOf(r, y);
    var r' := InsertAt(r, k, x);
    assert r'[if j < k then j else j + 1] == y;
    IndexIs(r', if j < k then j else j + 1);
  }

  // ---------- coalescing and mm_free ----------

  /** Where a merge of the free block a starts: at its physical predecessor if that is free
      and has a footer, else at a. */
  ghost predicate MergeStarts(bs: Blocks, a: int, b: int) {
    if exists c :: IsPred(bs, c, a) && bs[c].free && bs[c].foot != 0
    then IsPred(bs, b, a) && bs[b].free && bs[b].foot != 0
    else b == a
  }

  /** Where it ends: behind the next block if that is free, else behind a. */
  ghost predicate MergeEnds(bs: Blocks, a: int, e: int)
    requires a in bs
  {
    var n := End(bs, a);
    e == if n in bs && bs[n].free then End(bs, n) else n
  }

  /** In bs' the words [b, e) are one free block, with a cleared footer unless it is just
      block a; all blocks outside are as in bs. */
  ghost predicate OneFreeBlock(bs: Blocks, bs': Blocks, a: int, b: int, e: int)
    requires a in bs
  {
    && b in bs' && bs'[b].free && End(bs', b) == e
    && bs'[b].foot == (if b == a && e == End(bs, a) then bs[a].foot else 0)
    && (forall c :: c in bs' && b <= c < e ==> c == b)
    && (forall c {:trigger c in bs} {:trigger c in bs'} ::
          c < b || e <= c ==> (c in bs <==> c in bs') && (c in bs ==> bs'[c] == bs[c]))
  }

  lemma {:induction false} MergedBlocks(bs: Blocks, lo: int, epi: int, x: int, y: int)
    requires Tiled(bs, lo, epi) && IsPred(bs, x, y) && y in bs && bs[x].free
    ensures var r := Merge(bs, x, y); var e := End(bs, y);
            && x in r && r[x] == Block(bs[x].words + bs[y].words, true, 0) && End(r, x) == e
            && (forall c :: c in r && x <= c < e ==> c == x)
            && (forall c {:trigger c in bs} {:trigger c in r} ::
                  c < x || e <= c ==> (c in bs <==> c in r) && (c in bs ==> r[c] == bs[c]))
  {
    var r := Merge(bs, x, y);
    assert InBounds(bs, lo, epi, x) && InBounds(bs, lo, epi, y);
    forall c | c in r && x <= c < End(bs, y)
      ensures c == x
    {
      assert Apart(bs, c, x) && Apart(bs, c, y) && InBounds(bs, lo, epi, c);
    }
  }

  /** A merge with the next block and then into the one before is a merge of all three. */
  lemma {:induction false} CoalesceMerges(s: State, a: int, out: int, b: int, e: int)
    requires Inv(s, out) && a in s.blocks && s.blocks[a].free && (out == NULL || out == a)
    requires MergeStarts(s.blocks, a, b) && MergeEnds(s.blocks, a, e)
    ensures var (t, r) := Spec.Coalesce(s, a);
            && r == b && t == s.(blocks := t.blocks, ring := t.ring)
            && OneFreeBlock(s.blocks, t.blocks, a, b, e) && KeepsOrder(s.ring, t.ring)
  {
    CoalesceBlocks(s, a, out, b, e);
    CoalesceOrder(s, a, out);
  }

  lemma {:induction false} CoalesceBlocks(s: State, a: int, out: int, b: int, e: int)
    requires Inv(s, out) && a in s.blocks && s.blocks[a].free
    requires MergeStarts(s.blocks, a, b) && MergeEnds(s.blocks, a, e)
    ensures var (t, r) := Spec.Coalesce(s, a);
            r == b && t == s.(blocks := t.blocks, ring := t.ring) && OneFreeBlock(s.blocks, t.blocks, a, b, e)
  {
    hide Inv, MergeStarts, Without;
    PredIs(s, a, out, b);
    var n := End(s.blocks, a);
    AloneBlock(s, out, a);
    if Spec.FreeNext(s.blocks, a) {
      JoinNext(s, a, out);
      if b != a {
        JoinPrevious(s, Spec.Absorb(s, a, n), a, b, e);
      }
    } else if b != a {
      EndIs(s, a, out, e);
      JoinPrevious(s, s, a, b, e);
    }
  }

  lemma {:induction false} EndIs(s: State, a: int, out: int, e: int)
    requires Inv(s, out) && a in s.blocks && MergeEnds(s.blocks, a, e)
    ensures a < e && Tiled(s.blocks, s.lo, s.epi)
  {
    BlockBounds(s, out, a);
    if End(s.blocks, a) in s.blocks {
      BlockBounds(s, out, End(s.blocks, a));
    }
  }

  lemma {:induction false} JoinNext(s: State, a: int, out: int)
    requires Inv(s, out) && a in s.blocks && s.blocks[a].free && Spec.FreeNext(s.blocks, a)
    ensures var n := End(s.blocks, a); var s1 := Spec.Absorb(s, a, n);
            && Tiled(s1.blocks, s.lo, s.epi) && OneFreeBlock(s.blocks, s1.blocks, a, a, End(s.blocks, n))
    ensures Tiled(s.blocks, s.lo, s.epi)
  {
    hide Tiled, Spaced, Chained;
    BlockBounds(s, out, a);
    BlockBounds(s, out, End(s.blocks, a));
    MergeTiled(s.blocks, s.lo, s.epi, a, End(s.blocks, a));
    MergedBlocks(s.blocks, s.lo, s.epi, a, End(s.blocks, a));
  }

  /** From bs, where a has perhaps grown to bs1, into the free block in front of it. */
  lemma {:induction false} JoinPrevious(s: State, s1: State, a: int, b: int, e: int)
    requires Tiled(s1.blocks, s.lo, s.epi) && a in s.blocks && IsPred(s.blocks, b, a) && b < a < e && s.blocks[b].free
    requires OneFreeBlock(s.blocks, s1.blocks, a, a, e)
    ensures b in s1.blocks && OneFreeBlock(s.blocks, Spec.Absorb(s1, b, a).blocks, a, b, e)
  {
    hide Tiled;
    assert IsPred(s1.blocks, b, a);
    MergedBlocks(s1.blocks, s.lo, s.epi, b, a);
  }

  lemma {:induction false} CoalesceOrder(s: State, a: int, out: int)
    requires Inv(s, out) && a in s.blocks && s.blocks[a].free
    ensures KeepsOrder(s.ring, Spec.Coalesce(s, a).0.ring)
  {
    hide KeepsOrder, Inv, Without;
    var p, n := Spec.FreePred(s.blocks, a), End(s.blocks, a);
    RingStart(s, out);
    OrderRefl(s.ring);
    var r := if Spec.FreeNext(s.blocks, a) then Without(s.ring, n) else s.ring;
    WithoutKeeps(s.ring, n);
    WithoutOrder(s.ring, n);
    WithoutKeeps(r, a);
    WithoutOrder(r, a);
    OrderTrans(s.ring, r, Without(r, a));
  }

  lemma {:induction false} AloneBlock(s: State, out: int, a: int)
    requires Inv(s, out) && a in s.blocks
    ensures forall c :: c in s.blocks && a <= c < End(s.blocks, a) ==> c == a
  {
    forall c | c in s.blocks && a <= c < End(s.blocks, a)
      ensures c == a
    {
      assert Apart(s.blocks, a, c) && InBounds(s.blocks, s.lo, s.epi, c);
    }
  }

  lemma {:induction false} PredIs(s: State, a: int, out: int, b: int)
    requires Inv(s, out) && a in s.blocks && MergeStarts(s.blocks, a, b)
    ensures if b == a then Spec.FreePred(s.blocks, a) !in s.blocks
            else Spec.FreePred(s.blocks, a) == b && IsPred(s.blocks, b, a) && b < a && s.blocks[b].free
  {
    assert NULL in s.blocks ==> InBounds(s.blocks, s.lo, s.epi, NULL);
    forall c | IsPred(s.blocks, c, a)
      ensures c < a && (b != a ==> c == b)
    {
      assert InBounds(s.blocks, s.lo, s.epi, c);
      if b != a {
        PredUnique(s.blocks, s.lo, s.epi, a, b, c);
      }
    }
  }

  /** mm_free: the block, its free successor, and its free predecessor if that has a
      footer, become one free block. It is first on the list unless it starts at the
      predecessor, which keeps its place. */
  lemma {:induction false} FreeMerges(s: State, p: int, b: int, e: int)
    requires Spec.Ready(s) && p != NULL && p - HEADER in s.live && p - HEADER in s.blocks
    requires MergeStarts(s.blocks, p - HEADER, b) && MergeEnds(s.blocks, p - HEADER, e)
    ensures var t := Spec.Free(s, p);
            && OneFreeBlock(s.blocks, t.blocks, p - HEADER, b, e)
            && (b == p - HEADER ==> |t.ring| > 1 && t.ring[1] == b)
            && KeepsOrder(s.ring, t.ring)
  {
    hide KeepsOrder, Tiled, LiveOK, FootersOK, Spec.Coalesce;
    var a := p - HEADER;
    LiveBlock(s, NULL, a);
    Spec.ReleaseInv(s, a);
    var s1 := Spec.Release(s, a);
    ReleasedAlike(s.blocks, a, b, e);
    CoalesceMerges(s1, a, a, b, e);
    Spec.CoalesceInv(s1, a, a);
    PredIs(s, a, NULL, b);
    EndIs(s, a, NULL, e);
    ReleasedOutside(s.blocks, Spec.Coalesce(s1, a).0.blocks, a, b, e);
    hide OneFreeBlock, MergeStarts, MergeEnds;
    var (t, r) := Spec.Coalesce(s1, a);
    if r == a {
      NotOnRing(t, a, a);
      RingStart(t, a);
      InsertAtOrder(t.ring, 1, a);
      NotOnRing(s, a, NULL);
      InsertAtKeeps(t.ring, 1, a);
      OrderTrans(s.ring, t.ring, InsertAt(t.ring, 1, a));
    }
  }

  lemma {:induction false} ReleasedOutside(bs: Blocks, bs': Blocks, a: int, b: int, e: int)
    requires a in bs && b <= a < e && OneFreeBlock(bs[a := bs[a].(free := true)], bs', a, b, e)
    ensures OneFreeBlock(bs, bs', a, b, e)
  {
  }

  /** Clearing the flag of a does not change where a merge of a starts and ends. */
  lemma {:induction false} ReleasedAlike(bs: Blocks, a: int, b: int, e: int)
    requires a in bs && bs[a].words > 0 && MergeStarts(bs, a, b) && MergeEnds(bs, a, e)
    ensures var r := bs[a := bs[a].(free := true)]; MergeStarts(r, a, b) && MergeEnds(r, a, e)
  {
    var r := bs[a := bs[a].(free := true)];
    forall c
      ensures IsPred(bs, c, a) <==> IsPred(r, c, a)
    {
    }
  }

  // ---------- mm_malloc ----------

  /** In bs' block a of bs is allocated: with w words, followed by a free block of the rest,
      if the rest is more than a header and a footer, and whole otherwise. All other blocks
      are as in bs. */
  ghost predicate HandedOut(bs: Blocks, bs': Blocks, a: int, w: int)
    requires a in bs
  {
    var cut, rest := bs[a].words > w + OVERHEAD, bs[a].words - w;
    && a in bs' && bs'[a] == (if cut then Block(w, false, 4 * w) else bs[a].(free := false))
    && (cut ==> a + w !in bs && a + w in bs' && bs'[a + w] == Block(rest, true, 4 * rest))
    && forall c {:trigger c in bs} {:trigger c in bs'} ::
         c != a && !(cut && c == a + w) ==> (c in bs <==> c in bs') && (c in bs ==> bs'[c] == bs[c])
  }

  /** A request is served by the first block on the list that is large enough; what is cut
      off takes that block's place on the list. */
  lemma {:induction false} MallocFromList(s: State, size: Word, max: int, k: nat)
    requires Spec.Ready(s) && Roundable(size) && 1 <= k < |s.ring| && s.ring[k] in s.blocks
    requires s.blocks[s.ring[k]].words >= GetBlockSize(size) / 4
    requires forall j :: 1 <= j < k ==> s.ring[j] in s.blocks && s.blocks[s.ring[j]].words < GetBlockSize(size) / 4
    ensures var o, a, w := Spec.Malloc(s, size, max), s.ring[k], GetBlockSize(size) / 4;
            && o == Spec.Done(o.s, a + HEADER) && HandedOut(s.blocks, o.s.blocks, a, w)
            && o.s.ring == (if s.blocks[a].words > w + OVERHEAD then s.ring[k := a + w]
                else s.ring[..k] + s.ring[k + 1..])
            && o.s.lo == s.lo && o.s.epi == s.epi && o.s.brk == s.brk
  {
    hide Tiled, Chained, FootersOK, LiveOK;
    Spec.ReadyRing(s);
    Spec.WordsForHasRoom(size);
    assert Spec.FirstFit(s, Spec.WordsFor(size), 1) == k;
    PlaceHandsOut(s, k, Spec.WordsFor(size), size);
  }

  lemma {:induction false} PlaceHandsOut(s: State, k: nat, w: int, size: nat)
    requires Spec.Ready(s) && 1 <= k < |s.ring| && s.ring[k] in s.blocks && OVERHEAD <= w <= s.blocks[s.ring[k]].words
    ensures var t := Spec.Place(s, k, w, size); var a := s.ring[k];
            && HandedOut(s.blocks, t.blocks, a, w)
            && t.ring == (if s.blocks[a].words > w + OVERHEAD then s.ring[k := a + w]
                else s.ring[..k] + s.ring[k + 1..])
            && t.lo == s.lo && t.epi == s.epi && t.brk == s.brk
  {
    hide RingOK, FootersOK, LiveOK;
    var a := s.ring[k];
    if s.blocks[a].words > w + OVERHEAD {
      SplitTiled(s.blocks, s.lo, s.epi, a, w);
    }
  }

  /** With no block large enough, and room in the arena for 4096 bytes or the block if that
      is larger, the request is served where the epilogue was. */
  lemma {:induction false} MallocFromChunk(s: State, size: Word, max: int)
    requires Spec.Ready(s) && Roundable(size)
    requires forall a :: a in s.blocks && s.blocks[a].free ==> s.blocks[a].words < GetBlockSize(size) / 4
    requires s.brk + Max(GetBlockSize(size) / 4, 1024) <= max
    ensures var o, w := Spec.Malloc(s, size, max), GetBlockSize(size) / 4;
            var n, t := Max(w, 1024), o.s;
            && o == Spec.Done(t, s.epi + HEADER) && t.brk == s.brk + n && t.epi == t.brk - 1 && s.epi in t.blocks
            && if n > w + OVERHEAD
               then && t.blocks[s.epi] == Block(w, false, 4 * w) && |t.ring| > 1 && t.ring[1] == s.epi + w
                    && s.epi + w in t.blocks && t.blocks[s.epi + w] == Block(n - w, true, 4 * (n - w))
               else t.blocks[s.epi] == Block(n, false, 4 * n)
  {
    hide Inv, Spec.Expand, Spec.Place;
    var w := Spec.WordsFor(size);
    var n := Max(w, 1024);
    Spec.WordsForHasRoom(size);
    Spec.NoFitOnList(s, w);
    Spec.ExpandInv(s, n, max);
    Spec.ExpandedHeadFits(s, n, max);
    var o := Spec.Expand(s, n, max);
    PlaceHandsOut(o.s, 1, w, size);
    ExpandedBorders(s, n, max);
  }

  lemma {:induction false} ExpandedBorders(s: State, n: int, max: int)
    requires Spec.Ready(s) && n > OVERHEAD && Spec.Expand(s, n, max).Done?
    ensures var t := Spec.Expand(s, n, max).s; t.brk == s.brk + n && t.epi == t.brk - 1
  {
    Spec.SweepInv(s, 1);
  }

  // ---------- mm_realloc ----------

  /** The block that a resize returns is no larger than a fresh one could be. */
  lemma {:induction false} ResizedBlock(s: State, p: int, size: Word, max: int)
    requires Spec.Ready(s) && Representable(size) && p != NULL && p - HEADER in s.live && size != 0
    requires s.brk <= max && 4 * max < TWO31
    ensures var o, w := Spec.Realloc(s, p, size, max), GetBlockSize(size) / 4;
            o.Done? ==> o.p - HEADER in o.s.blocks && w <= o.s.blocks[o.p - HEADER].words <= w + OVERHEAD
  {
    hide Inv, Spec.Move, Spec.Expand, Spec.ExtendLast, Spec.KeepsOthers, Shape;
    LiveBlock(s, NULL, p - HEADER);
    Spec.WordsForHasRoom(size);
    var a, w := p - HEADER, Spec.WordsFor(size);
    if Spec.GrowsLast(s, p, size, max) {
      Spec.GrownLastShape(s, p, size, max);
    } else if s.blocks[a].words <= w + OVERHEAD {
      if Spec.TakesExpandBranch(s, a, w) {
        Spec.ExpandBranchInv(s, p, size, max);
      } else if Spec.FreeNext(s.blocks, a) {
        Spec.AbsorbInv(s, a, End(s.blocks, a), NULL);
        MovedWords(Spec.Absorb(s, a, End(s.blocks, a)), p, size, max);
      } else {
        MovedWords(s, p, size, max);
      }
    }
  }

  lemma {:induction false} MovedWords(s: State, p: int, size: Word, max: int)
    requires Spec.Ready(s) && Representable(size) && p != NULL && p - HEADER in s.live
    ensures var o, w := Spec.Move(s, p, size, max), GetBlockSize(size) / 4;
            o.Done? ==> o.p - HEADER in o.s.blocks && w <= o.s.blocks[o.p - HEADER].words <= w + OVERHEAD
  {
    hide Inv, Spec.Malloc, Spec.Free, Spec.KeepsOthers;
    Spec.MallocInv(s, size, max);
    MallocWords(s, size, max);
    var o := Spec.Malloc(s, size, max);
    if o.Done? {
      StillThere(s, o.s, p - HEADER);
      Spec.FreeInv(o.s, p);
      StillThere(o.s, Spec.Free(o.s, p), o.p - HEADER);
    }
  }

  lemma {:induction false} StillThere(s: State, t: State, b: int)
    requires Spec.Ready(s) && b in s.live
               && (Spec.KeepsOthers(s, t, NULL) || exists a :: a != b && Spec.KeepsOthers(s, t, a))
    ensures b in s.blocks && b in t.blocks && t.blocks[b] == s.blocks[b] && b in t.live
  {
    LiveBlock(s, NULL, b);
    assert Spec.Kept(s, t, b);
  }

  lemma {:induction false} MallocWords(s: State, size: Word, max: int)
    requires Spec.Ready(s) && Roundable(size)
    ensures var o, w := Spec.Malloc(s, size, max), GetBlockSize(size) / 4;
            o.Done? ==> o.p - HEADER in o.s.blocks && w <= o.s.blocks[o.p - HEADER].words <= w + OVERHEAD
  {
    hide Inv, Spec.Malloc;
    var w := Spec.WordsFor(size);
    Spec.WordsForHasRoom(size);
    Spec.NoFitOnList(s, w);
    var k := Spec.FirstFit(s, w, 1);
    if k < |s.ring| {
      MallocFromList(s, size, max, k);
    } else {
      Spec.MallocInv(s, size, max);
      if !Spec.Malloc(s, size, max).Exit? {
        FreeBlocksSmall(s, w);
        MallocFromChunk(s, size, max);
      }
    }
  }

  lemma {:induction false} FreeBlocksSmall(s: State, w: int)
    requires Spec.Ready(s) && Spec.NoFit(s.blocks, w, NULL)
    ensures forall a :: a in s.blocks && s.blocks[a].free ==> s.blocks[a].words < w
  {
    forall a | a in s.blocks && s.blocks[a].free
      ensures s.blocks[a].words < w
    {
      BlockBounds(s, NULL, a);
    }
  }

  /** Block a is cut to w of its `total` words, which are those of its free successor too if
      `joined`. The rest is a free block and the first on the list; all other blocks and
      their order on the list are as before. (The successor may have started where the
      rest does.) */
  ghost predicate CutInPlace(s: State, t: State, a: int, w: int, total: int, joined: bool)
    requires a in s.blocks
  {
    var n := End(s.blocks, a);
    && a in t.blocks && t.blocks[a] == Block(w, false, 4 * w)
    && a + w in t.blocks && t.blocks[a + w] == Block(total - w, true, 4 * (total - w))
    && (forall c {:trigger c in s.blocks} {:trigger c in t.blocks} ::
          c != a && c != a + w && !(joined && c == n) ==>
            (c in s.blocks <==> c in t.blocks) && (c in s.blocks ==> t.blocks[c] == s.blocks[c]))
    && (joined && n != a + w ==> n !in t.blocks)
    && |t.ring| > 1 && t.ring[1] == a + w && KeepsOrder(Without(s.ring, a + w), t.ring)
    && t.lo == s.lo && t.epi == s.epi && t.brk == s.brk
  }

  /** A block with more than a header and a footer to spare stays where it is and is cut. */
  lemma {:induction false} ResizeCuts(s: State, p: int, size: Word, max: int)
    requires Spec.Ready(s) && Representable(size) && p != NULL && p - HEADER in s.live && size != 0
    requires p - HEADER in s.blocks && s.blocks[p - HEADER].words > GetBlockSize(size) / 4 + OVERHEAD
    ensures var o, a := Spec.Realloc(s, p, size, max), p - HEADER;
            o == Spec.Done(o.s, p) && CutInPlace(s, o.s, a, GetBlockSize(size) / 4, s.blocks[a].words, false)
  {
    hide KeepsOrder;
    var a, w := p - HEADER, Spec.WordsFor(size);
    Spec.WordsForHasRoom(size);
    LiveBlock(s, NULL, a);
    ShrinkCuts(s, a, w, size);
  }

  lemma {:induction false} ShrinkCuts(s: State, a: int, w: int, size: Word)
    requires Spec.Ready(s) && a in s.blocks && IsAlloc(s.blocks, a) && OVERHEAD <= w && w + OVERHEAD < s.blocks[a].words
    ensures CutInPlace(s, Spec.Shrink(s, a, w, size), a, w, s.blocks[a].words, false)
  {
    hide KeepsOrder, RingOK, LiveOK, FootersOK;
    SplitTiled(s.blocks, s.lo, s.epi, a, w);
    BlockBounds(s, NULL, a);
    NotOnRing(s, a + w, NULL);
    RingStart(s, NULL);
    InsertAtOrder(s.ring, 1, a + w);
  }

  lemma {:induction false} CutIsInside(s: State, a: int, w: int)
    requires Spec.Ready(s) && a in s.blocks && OVERHEAD <= w && w + OVERHEAD <= s.blocks[a].words
    ensures a + w !in s.blocks && a + w != HEAD
  {
    SplitTiled(s.blocks, s.lo, s.epi, a, w);
    BlockBounds(s, NULL, a);
  }

  /** So is a block that has enough to spare together with its free successor. */
  lemma {:induction false} ResizeJoins(s: State, p: int, size: Word, max: int)
    requires Spec.Ready(s) && Representable(size) && p != NULL && p - HEADER in s.live && size != 0
    requires p - HEADER in s.blocks && s.blocks[p - HEADER].words <= GetBlockSize(size) / 4 + OVERHEAD
    requires var n := End(s.blocks, p - HEADER);
             && n in s.blocks && s.blocks[n].free
             && s.blocks[p - HEADER].words + s.blocks[n].words > GetBlockSize(size) / 4 + OVERHEAD
    ensures var o, a := Spec.Realloc(s, p, size, max), p - HEADER;
            o == Spec.Done(o.s, p)
            && CutInPlace(s, o.s, a, GetBlockSize(size) / 4, s.blocks[a].words + s.blocks[End(s.blocks, a)].words, true)
  {
    hide KeepsOrder, Tiled, RingOK, LiveOK, FootersOK;
    var a, w := p - HEADER, Spec.WordsFor(size);
    var n := End(s.blocks, a);
    Spec.WordsForHasRoom(size);
    LiveBlock(s, NULL, a);
    BlockBounds(s, NULL, n);
    Spec.AbsorbInv(s, a, n, NULL);
    var s1 := Spec.Absorb(s, a, n);
    ShrinkCuts(s1, a, w, size);
    CutIsInside(s1, a, w);
    NotOnRing(s1, a + w, NULL);
    RingStart(s1, NULL);
    JoinedCut(s, Spec.Shrink(s1, a, w, size), a, w);
  }

  lemma {:induction false} JoinedCut(s: State, t: State, a: int, w: int)
    requires Spec.Ready(s) && a in s.blocks && IsAlloc(s.blocks, a) && Spec.FreeNext(s.blocks, a)
    requires var n := End(s.blocks, a); var s1 := Spec.Absorb(s, a, n);
             && a + w !in s1.ring && |s1.ring| >= 1
             && CutInPlace(s1, t, a, w, s1.blocks[a].words, false)
             && t.ring == InsertAt(s1.ring, 1, a + w)
    ensures CutInPlace(s, t, a, w, s.blocks[a].words + s.blocks[End(s.blocks, a)].words, true)
  {
    hide KeepsOrder, Without;
    var n := End(s.blocks, a);
    RingStart(s, NULL);
    JoinedOrder(s.ring, n, a + w);
  }

  /** Taking n off a list and putting x in front keeps the order of the others. */
  lemma {:induction false} JoinedOrder(r: seq<int>, n: int, x: int)
    requires Distinct(r) && x !in Without(r, n) && |Without(r, n)| >= 1
    ensures KeepsOrder(Without(r, x), InsertAt(Without(r, n), 1, x))
  {
    hide KeepsOrder;
    var r1 := Without(r, n);
    WithoutKeeps(r, n);
    WithoutKeeps(r, x);
    InsertAtOrder(r1, 1, x);
    if x != n {
      assert x !in r;
      WithoutOrder(r, n);
      InsertAtKeeps(r1, 1, x);
      OrderTrans(r, r1, InsertAt(r1, 1, x));
    }
  }

  /** Block a, with its successor if that is free, has more words than w, a header and a
      footer. */
  predicate RoomInPlace(s: State, a: int, w: int)
    requires a in s.blocks
  {
    var n := End(s.blocks, a);
    s.blocks[a].words + (if n in s.blocks && s.blocks[n].free then s.blocks[n].words else 0) > w + OVERHEAD
  }

  /** Block a has taken over its successor if that was free, and nothing else has changed. */
  ghost predicate SuccessorTaken(s: State, s1: State, a: int)
    requires a in s.blocks
  {
    var n := End(s.blocks, a);
    && Spec.Ready(s1) && s1 == s.(blocks := s1.blocks, ring := s1.ring) && KeepsOrder(s.ring, s1.ring)
    && s1.blocks == if n in s.blocks && s.blocks[n].free
                    then (s.blocks - {n})[a := Block(s.blocks[a].words + s.blocks[n].words, false, 0)]
                    else s.blocks
  }

  ghost predicate MallocThenFree(s: State, p: int, size: Word, max: int, o: Spec.Outcome)
    requires Spec.Ready(s)
  {
    var m := Spec.Malloc(s, size, max);
    m.Done? && p - HEADER in m.s.blocks && o == Spec.Done(Spec.Free(m.s, p), m.p)
  }

  /** In all other cases that neither exit nor grow the last block, the request moves: the
      block first takes over a free successor, then mm_malloc serves the new size, and
      mm_free gives up the old block. */
  lemma {:induction false} ResizeMoves(s: State, p: int, size: Word, max: int) returns (s1: State)
    requires Spec.Ready(s) && Representable(size) && p != NULL && p - HEADER in s.live && size != 0
    requires s.brk <= max && 4 * max < TWO31 && p - HEADER in s.blocks
    requires !Spec.GrowsLast(s, p, size, max) && Spec.Realloc(s, p, size, max).Done?
    requires !RoomInPlace(s, p - HEADER, GetBlockSize(size) / 4)
    ensures SuccessorTaken(s, s1, p - HEADER)
    ensures MallocThenFree(s1, p, size, max, Spec.Realloc(s, p, size, max))
  {
    hide KeepsOrder, Inv, Spec.Malloc, Spec.Free, Spec.Expand, Spec.KeepsOthers;
    var a, w := p - HEADER, Spec.WordsFor(size);
    Spec.WordsForHasRoom(size);
    LiveBlock(s, NULL, a);
    RingStart(s, NULL);
    OrderRefl(s.ring);
    s1 := s;
    if Spec.FreeNext(s.blocks, a) {
      var n := End(s.blocks, a);
      BlockBounds(s, NULL, n);
      s1 := Spec.Absorb(s, a, n);
      Spec.AbsorbInv(s, a, n, NULL);
      WithoutOrder(s.ring, n);
    }
    if Spec.TakesExpandBranch(s, a, w) {
      Spec.ExpandBranchInv(s, p, size, max);
      assert false;
    }
    Spec.MallocInv(s1, size, max);
    if Spec.Malloc(s1, size, max).Done? {
      StillThere(s1, Spec.Malloc(s1, size, max).s, a);
    }
  }

  // ---------- expand_heap's pass over the list ----------

  /** Free block p has a footer, the block a behind it is free, and x is on the list after a
      and before p: when the pass merges a into p, it goes on behind p and skips x. */
  ghost predicate Skips(s: State, p: int, x: int) {
    && p in s.blocks && s.blocks[p].free && s.blocks[p].foot != 0
    && End(s.blocks, p) in s.blocks && s.blocks[End(s.blocks, p)].free
    && Before(s.ring, End(s.blocks, p), x) && Before(s.ring, x, p)
  }

  ghost predicate Grew(s: State, t: State, x: int) {
    x in s.blocks && x in t.blocks && t.blocks[x].words > s.blocks[x].words
  }

  /** If x still has a free successor it has been merged since s, or was skipped. */
  ghost predicate Settled(s: State, t: State, x: int) {
    x in t.blocks && Spec.FreeNext(t.blocks, x) ==> Grew(s, t, x) || exists p :: Skips(s, p, x)
  }

  /** t comes from s by merges: a free block is as it was or has grown and lost its footer. */
  ghost predicate MergedFrom(s: State, t: State) {
    && KeepsOrder(s.ring, t.ring)
    && forall b {:trigger b in t.blocks} :: b in t.blocks && t.blocks[b].free ==>
         && b in s.blocks && s.blocks[b].free
         && (t.blocks[b] == s.blocks[b] || (Grew(s, t, b) && t.blocks[b].foot == 0))
  }

  ghost function StartOfMerge(bs: Blocks, a: int): (b: int)
    ensures MergeStarts(bs, a, b)
  {
    if c :| IsPred(bs, c, a) && bs[c].free && bs[c].foot != 0 then c else a
  }

  ghost function EndOfMerge(bs: Blocks, a: int): (e: int)
    requires a in bs
    ensures MergeEnds(bs, a, e)
  {
    var n := End(bs, a);
    if n in bs && bs[n].free then End(bs, n) else n
  }

  lemma {:induction false} StepMerges(s0: State, s: State, a: int, b: int, e: int, t: State)
    requires Inv(s, NULL) && Inv(t, NULL) && MergedFrom(s0, s) && a in s.blocks && s.blocks[a].free
    requires MergeStarts(s.blocks, a, b) && MergeEnds(s.blocks, a, e)
    requires OneFreeBlock(s.blocks, t.blocks, a, b, e) && KeepsOrder(s.ring, t.ring)
    ensures MergedFrom(s0, t)
    ensures forall x :: x in t.ring ==> x in s.ring
  {
    hide KeepsOrder, Tiled, FootersOK, LiveOK, MergeEnds;
    PredIs(s, a, NULL, b);
    EndIs(s, a, NULL, e);
    BlockBounds(s, NULL, a);
    forall x | x in t.ring
      ensures x in s.ring
    {
      if x != HEAD {
        assert t.ring[IndexOf(t.ring, x)] in t.blocks;
        assert x in s.blocks && s.blocks[x].free;
      } else {
        assert s.ring[0] in s.ring;
      }
    }
    OrderTrans(s0.ring, s.ring, t.ring);
    SpanGrows(s, a, b, e);
  }

  lemma {:induction false} SpanGrows(s: State, a: int, b: int, e: int)
    requires Inv(s, NULL) && a in s.blocks && MergeStarts(s.blocks, a, b) && MergeEnds(s.blocks, a, e)
    ensures End(s.blocks, a) in s.blocks ==> s.blocks[End(s.blocks, a)].words > 0
    ensures b in s.blocks && ((b == a && e == End(s.blocks, a)) || e - b > s.blocks[b].words)
  {
    BlockBounds(s, NULL, a);
    if End(s.blocks, a) in s.blocks {
      BlockBounds(s, NULL, End(s.blocks, a));
    }
  }

  lemma {:induction false} StepSettles(s0: State, s: State, k: nat, a: int, b: int, e: int, t: State, x: int)
    requires Inv(s0, NULL) && Inv(s, NULL) && Inv(t, NULL) && MergedFrom(s0, s) && MergedFrom(s0, t)
    requires 1 <= k < |s.ring| && a == s.ring[k] && a in s.blocks && s.blocks[a].free
    requires MergeStarts(s.blocks, a, b) && MergeEnds(s.blocks, a, e)
    requires OneFreeBlock(s.blocks, t.blocks, a, b, e) && KeepsOrder(s.ring, t.ring)
    requires forall y :: y in s.ring && 1 <= IndexOf(s.ring, y) < k ==> Settled(s0, s, y)
    requires b in t.ring && x in t.ring && x in s.ring && x != HEAD && IndexOf(t.ring, x) <= IndexOf(t.ring, b)
    ensures Settled(s0, t, x)
  {
    hide KeepsOrder, Inv, MergeStarts, MergedFrom;
    if x == b {
      MergedIsSettled(s0, s, a, b, e, t);
    } else {
      OthersAlike(s, t, a, b, e, x);
      RingStart(s, NULL);
      IndexIs(s.ring, k);
      var j := IndexOf(s.ring, x);
      assert s.ring[j] == x;
      if j < k {
        assert Settled(s0, s, x);
      } else {
        SkippedBehind(s0, s, k, b, t, x);
      }
    }
  }

  lemma {:induction false} MergedIsSettled(s0: State, s: State, a: int, b: int, e: int, t: State)
    requires Inv(s, NULL) && MergedFrom(s0, s) && MergedFrom(s0, t) && a in s.blocks && s.blocks[a].free
    requires MergeStarts(s.blocks, a, b) && MergeEnds(s.blocks, a, e)
    requires OneFreeBlock(s.blocks, t.blocks, a, b, e)
    ensures Settled(s0, t, b)
  {
    hide KeepsOrder, Inv, MergeStarts;
    SpanGrows(s, a, b, e);
    PredIs(s, a, NULL, b);
    if b == a && e == End(s.blocks, a) {
      assert Spec.FreeNext(t.blocks, b) ==> e in s.blocks;
      EndsAlone(s.blocks, a);
    } else {
      assert b in s.blocks && s.blocks[b].free;
      assert t.blocks[b].words > s.blocks[b].words;
      assert Grew(s0, t, b);
    }
  }

  lemma {:induction false} EndsAlone(bs: Blocks, a: int)
    requires a in bs && MergeEnds(bs, a, End(bs, a)) && (End(bs, a) in bs ==> bs[End(bs, a)].words > 0)
    ensures !Spec.FreeNext(bs, a)
  {
  }

  lemma {:induction false} OthersAlike(s: State, t: State, a: int, b: int, e: int, x: int)
    requires Inv(s, NULL) && Inv(t, NULL) && a in s.blocks && s.blocks[a].free
    requires MergeStarts(s.blocks, a, b) && MergeEnds(s.blocks, a, e)
    requires OneFreeBlock(s.blocks, t.blocks, a, b, e) && x != b && x in t.ring && x != HEAD
    ensures x in s.blocks && x in t.blocks && t.blocks[x] == s.blocks[x] && s.blocks[x].free
    ensures x != a && (Spec.FreeNext(t.blocks, x) ==> Spec.FreeNext(s.blocks, x))
    ensures b in s.blocks && s.blocks[b].free && (b == a || (IsPred(s.blocks, b, a) && s.blocks[b].foot != 0))
  {
    hide Tiled, FootersOK, LiveOK, KeepsOrder;
    PredIs(s, a, NULL, b);
    EndIs(s, a, NULL, e);
    assert t.ring[IndexOf(t.ring, x)] in t.blocks;
  }

  /** x comes after a on the list and before the block b that the pass goes on behind. */
  lemma {:induction false} SkippedBehind(s0: State, s: State, k: nat, b: int, t: State, x: int)
    requires Inv(s0, NULL) && Inv(s, NULL) && MergedFrom(s0, s) && KeepsOrder(s.ring, t.ring)
    requires 1 <= k < |s.ring| && s.ring[k] in s.blocks && s.blocks[s.ring[k]].free
    requires x in s.blocks && s.blocks[x].free && b in s.blocks && s.blocks[b].free && x != b && x != s.ring[k]
    requires b == s.ring[k] || (IsPred(s.blocks, b, s.ring[k]) && s.blocks[b].foot != 0)
    requires b in t.ring && x in t.ring && IndexOf(t.ring, x) <= IndexOf(t.ring, b)
    requires x in s.ring && IndexOf(s.ring, x) >= k
    ensures Skips(s0, b, x)
  {
    hide Inv, KeepsOrder, IndexOf;
    var a := s.ring[k];
    RingStart(s, NULL);
    IndexIs(s.ring, k);
    Listed(s, b);
    Listed(s0, a);
    Listed(s0, b);
    Listed(s0, x);
    assert t.ring[IndexOf(t.ring, x)] == x && t.ring[IndexOf(t.ring, b)] == b;
    StillBefore(t.ring, s.ring, x, b);
    assert s.ring[IndexOf(s.ring, x)] == x;
    StillBefore(s.ring, s0.ring, x, b);
    StillBefore(s.ring, s0.ring, a, x);
  }

  lemma {:induction false} Listed(s: State, a: int)
    requires Inv(s, NULL) && a in s.blocks && s.blocks[a].free
    ensures a in s.ring
  {
    Spec.OnRing(s, a, NULL);
  }

  lemma {:induction false} StillBefore(r: seq<int>, r': seq<int>, x: int, y: int)
    requires KeepsOrder(r, r') || KeepsOrder(r', r)
    requires Before(r, x, y) && x in r' && y in r'
    ensures Before(r', x, y)
  {
    assert SameOrder(r, r', x, y) || SameOrder(r', r, x, y);
  }

  /** The pass from position k on, when everything in front of k is settled. */
  lemma {:induction false} SweepSettles(s0: State, s: State, k: nat)
    requires Inv(s0, NULL) && Inv(s, NULL) && MergedFrom(s0, s) && 1 <= k <= |s.ring|
    requires forall y :: y in s.ring && 1 <= IndexOf(s.ring, y) < k ==> Settled(s0, s, y)
    ensures var t := Spec.Sweep(s, k); MergedFrom(s0, t) && forall x :: x in t.ring && x != HEAD ==> Settled(s0, t, x)
    decreases |s.ring|, |s.ring| - k
  {
    hide KeepsOrder, Inv, MergedFrom, Settled, Spec.Coalesce, MergeStarts, MergeEnds, OneFreeBlock;
    RingStart(s, NULL);
    if k == |s.ring| {
      forall x | x in s.ring && x != HEAD
        ensures Settled(s0, s, x)
      {
        assert s.ring[IndexOf(s.ring, x)] == x;
      }
    } else {
      RingElement(s, k);
      var a := s.ring[k];
      var b, e := StartOfMerge(s.blocks, a), EndOfMerge(s.blocks, a);
      var (t, r) := Spec.Coalesce(s, a);
      Spec.CoalesceInv(s, a, NULL);
      CoalesceMerges(s, a, NULL, b, e);
      StepMerges(s0, s, a, b, e, t);
      Spec.OnRing(t, r, NULL);
      IndexIs(s.ring, k);
      forall x | x in t.ring && 1 <= IndexOf(t.ring, x) < IndexOf(t.ring, r) + 1
        ensures Settled(s0, t, x)
      {
        RingStart(t, NULL);
        IndexIs(t.ring, 0);
        StepSettles(s0, s, k, a, b, e, t, x);
      }
      SweepSettles(s0, t, IndexOf(t.ring, r) + 1);
    }
  }

  lemma {:induction false} RingElement(s: State, k: nat)
    requires Inv(s, NULL) && 1 <= k < |s.ring|
    ensures s.ring[k] in s.blocks && s.blocks[s.ring[k]].free && s.ring[k] != NULL
  {
    BlockBounds(s, NULL, s.ring[k]);
  }

  lemma {:induction false} PassLeaves(s: State, x: int)
    requires Inv(s, NULL)
    ensures 1 <= |s.ring|
    ensures var t := Spec.Sweep(s, 1);
            && KeepsOrder(s.ring, t.ring)
            && (x in t.blocks && t.blocks[x].free && Spec.FreeNext(t.blocks, x) ==>
                  Grew(s, t, x) || exists p :: Skips(s, p, x))
  {
    hide Spec.Sweep, KeepsOrder;
    RingStart(s, NULL);
    OrderRefl(s.ring);
    IndexIs(s.ring, 0);
    SweepSettles(s, s, 1);
    Spec.SweepInv(s, 1);
    var t := Spec.Sweep(s, 1);
    if x in t.blocks && t.blocks[x].free {
      Spec.OnRing(t, x, NULL);
      BlockBounds(t, NULL, x);
      assert Settled(s, t, x);
    }
  }

  /** After expand_heap, whether it succeeds or not, an old free block that still has an old
      free successor has itself been merged in the pass, unless it was skipped. When no free
      block with a footer comes behind its free successor on the list, none is skipped. */
  lemma {:induction false} ExpandMerges(s: State, n: int, max: int, x: int)
    requires Spec.Ready(s) && n > OVERHEAD
    ensures var t := Spec.Expand(s, n, max).s;
            && (x != s.epi && x in t.blocks && t.blocks[x].free
                && End(t.blocks, x) != s.epi && End(t.blocks, x) in t.blocks && t.blocks[End(t.blocks, x)].free ==>
                  Grew(s, t, x) || exists p :: Skips(s, p, x))
  {
    hide Spec.Sweep, KeepsOrder, Inv, Skips;
    PassLeaves(s, x);
    Spec.SweepInv(s, 1);
    Spec.AppendInv(Spec.Sweep(s, 1), n);
  }

  /** Freeing NULL does nothing; resizing NULL is mm_malloc, and resizing to nothing is
      mm_free, which returns NULL. */
  lemma {:induction false} NullAndNothing(s: State, p: int, size: Word, max: int)
    requires Spec.Ready(s) && p != NULL && p - HEADER in s.live && p - HEADER in s.blocks
    ensures Spec.Free(s, NULL) == s
    ensures Spec.Realloc(s, NULL, size, max) == Spec.Malloc(s, size, max)
    ensures Spec.Realloc(s, p, 0, max) == Spec.Done(Spec.Free(s, p), NULL)
  {
  }
}
