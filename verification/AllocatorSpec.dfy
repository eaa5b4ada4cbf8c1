/** What each allocator operation does to the blocks, the list and the live
    requests, and the invariant each of them keeps. The methods of class Allocator
    are proved to compute exactly these functions on memory words. */
module AllocatorSpec {
  import opened Basics
  import opened HeapState
  import opened Words

  /** EXPAND_HEAP_SIZE in bytes. */
  const EXPAND_BYTES := 4096

  /** The process goes on with a state and a returned address, or exits because
      mem_sbrk refused to move brk. */
  datatype Outcome = Done(s: State, p: int) | Exit(s: State)

  /** The same blocks are allocated, and they are the same blocks. */
  ghost predicate SameAllocated(bs: Blocks, bs': Blocks) {
    forall a {:trigger IsAlloc(bs, a)} {:trigger IsAlloc(bs', a)} ::
      (IsAlloc(bs, a) <==> IsAlloc(bs', a)) && (IsAlloc(bs, a) ==> bs[a] == bs'[a])
  }

  lemma {:induction false} SameAllocatedRefl(bs: Blocks)
    ensures SameAllocated(bs, bs)
  {
  }

  lemma {:induction false} SameAllocatedTrans(bs: Blocks, bs': Blocks, bs'': Blocks)
    requires SameAllocated(bs, bs') && SameAllocated(bs', bs'')
    ensures SameAllocated(bs, bs'')
  {
    forall a | IsAlloc(bs, a) || IsAlloc(bs'', a)
      ensures IsAlloc(bs, a) && IsAlloc(bs'', a) && bs[a] == bs''[a]
    {
      assert IsAlloc(bs', a) || !IsAlloc(bs', a);
    }
  }

  // ---------- coalescing ----------

  /** The block after a is free. */
  ghost predicate FreeNext(bs: Blocks, a: int)
    requires a in bs
  {
    End(bs, a) in bs && bs[End(bs, a)].free
  }

  /** The free block before a that the footer in front of a reveals, or NULL. */
  ghost function FreePred(bs: Blocks, a: int): int {
    if exists b :: IsPred(bs, b, a) && bs[b].free && bs[b].foot != 0
    then var b :| IsPred(bs, b, a) && bs[b].free && bs[b].foot != 0; b
    else NULL
  }

  /** Block x takes over its neighbour y, which leaves the list. */
  function Absorb(s: State, x: int, y: int): State
    requires x in s.blocks && y in s.blocks
  {
    s.(blocks := Merge(s.blocks, x, y), ring := Without(s.ring, y))
  }

  lemma {:induction false} AbsorbRing(s: State, x: int, y: int, out: int)
    requires Inv(s, out) && IsPred(s.blocks, x, y) && y in s.blocks && s.blocks[y].free
    ensures RingOK(Absorb(s, x, y).blocks, Absorb(s, x, y).ring, if y == out then NULL else out)
  {
    var t := Absorb(s, x, y);
    WithoutKeeps(s.ring, y);
    forall k | 1 <= k < |t.ring|
      ensures t.ring[k] in t.blocks && t.blocks[t.ring[k]].free && t.ring[k] != out
    {
      assert t.ring[k] in t.ring && t.ring[k] != t.ring[0];
      var j := IndexOf(s.ring, t.ring[k]);
      assert s.ring[j] in s.blocks;
    }
  }

  lemma {:induction false} AbsorbInv(s: State, x: int, y: int, out: int)
    requires Inv(s, out) && IsPred(s.blocks, x, y) && y in s.blocks && s.blocks[y].free
    ensures Inv(Absorb(s, x, y), if y == out then NULL else out)
  {
    MergeTiled(s.blocks, s.lo, s.epi, x, y);
    AbsorbRing(s, x, y, out);
    var t := Absorb(s, x, y);
    forall a | IsAlloc(t.blocks, a)
      ensures a in t.live
    {
      assert IsAlloc(s.blocks, a);
    }
  }

  /** coalesce: a takes over a free successor, then is taken over by a free
      predecessor. Returns the block that now holds a's words. */
  ghost function Coalesce(s: State, a: int): (State, int)
    requires a in s.blocks
  {
    var p := FreePred(s.blocks, a);
    var s1 := if FreeNext(s.blocks, a) then Absorb(s, a, End(s.blocks, a)) else s;
    if p in s1.blocks then (Absorb(s1, p, a), p) else (s1, a)
  }

  lemma {:induction false} AbsorbAllocated(s: State, x: int, y: int)
    requires Spaced(s.blocks, s.lo, s.epi) && IsPred(s.blocks, x, y) && y in s.blocks
    requires s.blocks[x].free && s.blocks[y].free
    ensures SameAllocated(s.blocks, Absorb(s, x, y).blocks)
  {
  }

  lemma {:induction false} CoalesceInv(s: State, a: int, out: int)
    requires Inv(s, out) && a in s.blocks && s.blocks[a].free
    requires out == NULL || out == a
    ensures var (t, r) := Coalesce(s, a);
            && Inv(t, if r == a then out else NULL)
            && r in t.blocks && t.blocks[r].free
    ensures SameAllocated(s.blocks, Coalesce(s, a).0.blocks)
    ensures var (t, r) := Coalesce(s, a);
            && t == s.(blocks := t.blocks, ring := t.ring)
            && |t.ring| <= |s.ring|
            && (out == a || (t == s && r == a) || |t.ring| < |s.ring|)
  {
    var p := FreePred(s.blocks, a);
    var n := End(s.blocks, a);
    var s1 := s;
    if FreeNext(s.blocks, a) {
      s1 := Absorb(s, a, n);
      AbsorbInv(s, a, n, out);
      AbsorbAllocated(s, a, n);
    }
    if p in s1.blocks {
      assert IsPred(s1.blocks, p, a);
      AbsorbInv(s1, p, a, out);
      AbsorbAllocated(s1, p, a);
    }
  }

  lemma {:induction false} OnRing(s: State, a: int, out: int)
    requires Inv(s, out) && a in s.blocks && s.blocks[a].free && (out == NULL || a != out)
    ensures a in s.ring && 1 <= IndexOf(s.ring, a) < |s.ring|
  {
    assert s.ring[0] == HEAD;
    assert InBounds(s.blocks, s.lo, s.epi, a);
  }

  // ---------- growing the heap ----------

  /** expand_heap's pass over the list from position k: coalesce there, go on after
      the block that coalesce returned, wherever it is on the list. */
  ghost function Sweep(s: State, k: nat): State
    requires Inv(s, NULL) && 1 <= k <= |s.ring|
    decreases |s.ring|, |s.ring| - k
  {
    if k == |s.ring| then s
    else
      var (t, r) := Coalesce(s, s.ring[k]);
      CoalesceInv(s, s.ring[k], NULL);
      OnRing(t, r, NULL);
      WithoutIsRemoveAt(s.ring, k);
      Sweep(t, IndexOf(t.ring, r) + 1)
  }

  lemma {:induction false} SweepInv(s: State, k: nat)
    requires Inv(s, NULL) && 1 <= k <= |s.ring|
    ensures Inv(Sweep(s, k), NULL)
    ensures SameAllocated(s.blocks, Sweep(s, k).blocks)
    ensures var t := Sweep(s, k); t == s.(blocks := t.blocks, ring := t.ring)
    decreases |s.ring|, |s.ring| - k
  {
    hide Coalesce;
    if k < |s.ring| {
      var (t, r) := Coalesce(s, s.ring[k]);
      CoalesceInv(s, s.ring[k], NULL);
      OnRing(t, r, NULL);
      WithoutIsRemoveAt(s.ring, k);
      SweepInv(t, IndexOf(t.ring, r) + 1);
    }
  }

  /** Add n words at the end of the heap: the epilogue becomes the header of a free
      block at the front of the list, and a new epilogue ends the heap. */
  function Append(s: State, n: int): State
    requires |s.ring| >= 1
  {
    var words := s.brk + n - 1 - s.epi;
    State(s.blocks[s.epi := Block(words, true, 4 * words)], InsertAt(s.ring, 1, s.epi),
          s.live, s.lo, s.brk + n - 1, s.brk + n)
  }

  lemma {:induction false} AppendInv(s: State, n: int)
    requires Inv(s, NULL) && n > OVERHEAD
    ensures Inv(Append(s, n), NULL)
    ensures SameAllocated(s.blocks, Append(s, n).blocks)
    ensures s.epi !in s.blocks
  {
    var t := Append(s, n);
    AppendTiled(s.blocks, s.lo, s.epi, t.blocks[s.epi]);
    NotOnRing(s, s.epi, NULL);
    InsertAtKeeps(s.ring, 1, s.epi);
    forall a | IsAlloc(t.blocks, a)
      ensures a in t.live
    {
      assert IsAlloc(s.blocks, a);
    }
  }

  /** expand_heap with a size of n words and an arena that ends at max. */
  ghost function Expand(s: State, n: int, max: int): Outcome
    requires Inv(s, NULL)
  {
    var t := Sweep(s, 1);
    SweepInv(s, 1);
    if t.brk + n > max then Exit(t) else Done(Append(t, n), t.epi)
  }

  // ---------- placing a request ----------

  /** Position on the list of the first block of at least w words, from k on. */
  function FirstFit(s: State, w: int, k: nat): (r: nat)
    requires forall j :: 1 <= j < |s.ring| ==> s.ring[j] in s.blocks
    requires 1 <= k <= |s.ring|
    ensures k <= r <= |s.ring|
    ensures forall j :: k <= j < r ==> s.blocks[s.ring[j]].words < w
    ensures r < |s.ring| ==> s.blocks[s.ring[r]].words >= w
    decreases |s.ring| - k
  {
    if k == |s.ring| || s.blocks[s.ring[k]].words >= w then k else FirstFit(s, w, k + 1)
  }

  /** What find_fit does at list position k: the block there leaves the list, and
      what it has beyond w words takes its place if that is more than a header and
      a footer. */
  function Take(s: State, k: nat, w: int): State
    requires k < |s.ring| && s.ring[k] in s.blocks
  {
    var a := s.ring[k];
    if s.blocks[a].words > w + OVERHEAD
    then s.(blocks := Split(s.blocks, a, w), ring := s.ring[k := a + w])
    else s.(ring := RemoveAt(s.ring, k))
  }

  lemma {:induction false} TakeRing(s: State, k: nat, w: int)
    requires Inv(s, NULL) && 1 <= k < |s.ring| && OVERHEAD <= w <= s.blocks[s.ring[k]].words
    ensures RingOK(Take(s, k, w).blocks, Take(s, k, w).ring, s.ring[k])
  {
    var a := s.ring[k];
    var t := Take(s, k, w);
    if s.blocks[a].words > w + OVERHEAD {
      SplitTiled(s.blocks, s.lo, s.epi, a, w);
      NotOnRing(s, a + w, NULL);
      forall i, j | 0 <= i < |t.ring| && 0 <= j < |t.ring|
        ensures Differ(t.ring, i, j)
      {
        assert Differ(s.ring, i, j);
        assert s.ring[i] in s.ring && s.ring[j] in s.ring;
      }
      forall i | 1 <= i < |t.ring|
        ensures t.ring[i] in t.blocks && t.blocks[t.ring[i]].free && t.ring[i] != a
      {
        assert Differ(s.ring, i, k);
        assert i != k ==> s.ring[i] in s.blocks;
      }
      forall b | b in t.blocks && t.blocks[b].free && b != a
        ensures b in t.ring
      {
        assert t.ring[if b == a + w then k else IndexOf(s.ring, b)] == b;
      }
    } else {
      RemoveAtKeeps(s.ring, k);
      forall i | 1 <= i < |t.ring|
        ensures t.ring[i] in t.blocks && t.blocks[t.ring[i]].free && t.ring[i] != a
      {
        assert t.ring[i] in t.ring;
      }
    }
  }

  lemma {:induction false} TakeInv(s: State, k: nat, w: int)
    requires Inv(s, NULL) && 1 <= k < |s.ring| && OVERHEAD <= w <= s.blocks[s.ring[k]].words
    ensures Inv(Take(s, k, w), s.ring[k])
    ensures SameAllocated(s.blocks, Take(s, k, w).blocks)
    ensures w <= Take(s, k, w).blocks[s.ring[k]].words <= w + OVERHEAD
  {
    TakeRing(s, k, w);
    if s.blocks[s.ring[k]].words > w + OVERHEAD {
      SplitTiled(s.blocks, s.lo, s.epi, s.ring[k], w);
    }
    var t := Take(s, k, w);
    forall a | IsAlloc(t.blocks, a)
      ensures a in t.live
    {
      assert IsAlloc(s.blocks, a);
    }
  }

  /** The block in hand is handed out for a request of `size` bytes. */
  function Claim(s: State, a: int, size: nat): State
    requires a in s.blocks
  {
    s.(blocks := s.blocks[a := s.blocks[a].(free := false)], live := s.live[a := size])
  }

  lemma {:induction false} ClaimInv(s: State, a: int, size: nat)
    requires a != NULL && Inv(s, a) && size + 4 * OVERHEAD <= 4 * s.blocks[a].words
    ensures Inv(Claim(s, a, size), NULL)
  {
    RetagTiled(s.blocks, s.lo, s.epi, a, s.blocks[a].(free := false));
    var t := Claim(s, a, size);
    forall b | IsAlloc(t.blocks, b)
      ensures b in t.live
    {
      assert b != a ==> IsAlloc(s.blocks, b);
    }
  }

  function Place(s: State, k: nat, w: int, size: nat): State
    requires k < |s.ring| && s.ring[k] in s.blocks
  {
    Claim(Take(s, k, w), s.ring[k], size)
  }

  /** Block b is allocated before and after, for the same request, at the same size. */
  ghost predicate Kept(s: State, t: State, b: int) {
    && b in s.live && b in t.live && t.live[b] == s.live[b]
    && b in s.blocks && b in t.blocks && t.blocks[b] == s.blocks[b]
  }

  /** Every block that was allocated before stays as it is, except possibly a. */
  ghost predicate KeepsOthers(s: State, t: State, a: int) {
    forall b {:trigger Kept(s, t, b)} :: b in s.live && b != a ==> Kept(s, t, b)
  }

  lemma {:induction false} KeepsOthersTrans(s: State, t: State, u: State, a: int)
    requires KeepsOthers(s, t, a) && KeepsOthers(t, u, a)
    ensures KeepsOthers(s, u, a)
  {
    forall b | b in s.live && b != a
      ensures Kept(s, u, b)
    {
      assert Kept(s, t, b) && Kept(t, u, b);
    }
  }

  lemma {:induction false} KeepsOthersLess(s: State, s': State, a: int)
    requires KeepsOthers(s, s', NULL) && Inv(s, NULL)
    ensures KeepsOthers(s, s', a)
  {
    forall b | b in s.live && b != a
      ensures Kept(s, s', b)
    {
      LiveBlock(s, NULL, b);
      assert Kept(s, s', b);
    }
  }

  lemma {:induction false} SameAllocatedKeeps(s: State, t: State)
    requires Inv(s, NULL) && SameAllocated(s.blocks, t.blocks) && t.live == s.live
    ensures KeepsOthers(s, t, NULL)
  {
    forall b | b in s.live
      ensures Kept(s, t, b)
    {
      assert IsAlloc(s.blocks, b);
    }
  }

  lemma {:induction false} PlaceInv(s: State, k: nat, w: int, size: nat)
    requires Inv(s, NULL) && 1 <= k < |s.ring| && OVERHEAD <= w <= s.blocks[s.ring[k]].words
    requires size + 4 * OVERHEAD <= 4 * w
    ensures Inv(Place(s, k, w, size), NULL)
    ensures var a := s.ring[k]; var t := Place(s, k, w, size);
            && a !in s.live && t.live == s.live[a := size]
            && KeepsOthers(s, t, a)
            && t.lo == s.lo && t.epi == s.epi && t.brk == s.brk
  {
    TakeInv(s, k, w);
    ClaimInv(Take(s, k, w), s.ring[k], size);
    var t := Place(s, k, w, size);
    forall b | b in s.live && b != s.ring[k]
      ensures Kept(s, t, b)
    {
      assert IsAlloc(s.blocks, b);
    }
  }

  /** What mm_init leaves when brk was at b: nothing is live, and after the prologue
      there is one free block that expand_heap has added. */
  function Initial(b: int): State {
    var lo := b + 2;
    var words := EXPAND_BYTES / 4 - 1;
    State(map[lo := Block(words, true, 4 * words)], [HEAD, lo], map[], lo, lo + words, lo + words + 1)
  }

  /** The state between placing the prologue and growing the heap. */
  function Bare(lo: int): State {
    State(map[], [HEAD], map[], lo, lo, lo)
  }

  lemma {:induction false} BareInv(lo: int, max: int)
    requires HEAD + HEADER + 2 <= lo
    ensures Inv(Bare(lo), NULL)
    ensures Expand(Bare(lo), EXPAND_BYTES / 4, max) ==
              if lo + EXPAND_BYTES / 4 <= max then Done(Initial(lo - 2), lo) else Exit(Bare(lo))
  {
    assert Sweep(Bare(lo), 1) == Bare(lo);
    assert InsertAt([HEAD], 1, lo) == [HEAD, lo];
  }

  lemma {:induction false} InitialReady(b: int)
    requires HEAD + HEADER <= b
    ensures Ready(Initial(b))
  {
    BareInv(b + 2, b + 2 + EXPAND_BYTES / 4);
    AppendInv(Bare(b + 2), EXPAND_BYTES / 4);
  }

  /** After mm_init: the epilogue is in place. */
  ghost predicate Ready(s: State) {
    Inv(s, NULL) && s.brk == s.epi + 1
  }

  /** Words of the block that serves a request of `size` bytes. */
  function WordsFor(size: Word): int {
    GetBlockSize(size) / 4
  }

  /** Words by which mm_malloc asks expand_heap to grow. */
  function GrowBy(w: int): int {
    if 4 * w > EXPAND_BYTES then w else EXPAND_BYTES / 4
  }

  ghost function Malloc(s: State, size: Word, max: int): Outcome
    requires Ready(s)
  {
    var w := WordsFor(size);
    var k := FirstFit(s, w, 1);
    if k < |s.ring| then Done(Place(s, k, w, size), s.ring[k] + HEADER)
    else
      match Expand(s, GrowBy(w), max)
      case Exit(t) => Exit(t)
      case Done(t, a) => if 1 < |t.ring| && t.ring[1] in t.blocks
                         then Done(Place(t, 1, w, size), a + HEADER)
                         else Done(t, NULL)
  }

  lemma {:induction false} ReadyRing(s: State)
    requires Ready(s)
    ensures |s.ring| >= 1 && forall j :: 1 <= j < |s.ring| ==> s.ring[j] in s.blocks && s.ring[j] != NULL
  {
    forall j | 1 <= j < |s.ring|
      ensures s.ring[j] in s.blocks && s.ring[j] != NULL
    {
      assert InBounds(s.blocks, s.lo, s.epi, s.ring[j]);
    }
  }

  lemma {:induction false} ExpandInv(s: State, n: int, max: int)
    requires Ready(s) && n > OVERHEAD
    ensures var t := Expand(s, n, max).s;
            && Ready(t)
            && t.lo == s.lo && t.live == s.live
            && KeepsOthers(s, t, NULL)
    ensures Expand(s, n, max).Done? <==> s.brk + n <= max
    ensures s.epi !in s.live
  {
    SweepInv(s, 1);
    var t := Sweep(s, 1);
    AppendInv(t, n);
    SameAllocatedKeeps(s, Expand(s, n, max).s);
  }

  /** mm_malloc never returns NULL: the block that expand_heap puts at the front of
      the list is large enough for the second search to stop at it. */
  lemma {:induction false} ExpandedHeadFits(s: State, n: int, max: int)
    requires Ready(s) && n > OVERHEAD && Expand(s, n, max).Done?
    ensures var o := Expand(s, n, max);
            && Ready(o.s)
            && 1 < |o.s.ring|
            && o.s.ring[1] == o.p == s.epi
            && o.p in o.s.blocks && o.s.blocks[o.p] == Block(n, true, 4 * n)
            && End(o.s.blocks, o.p) == o.s.epi
            && FirstFit(o.s, n, 1) == 1
  {
    SweepInv(s, 1);
    AppendInv(Sweep(s, 1), n);
  }

  lemma {:induction false} PlaceAfter(s: State, t: State, w: int, size: nat)
    requires Ready(t) && t.live == s.live && KeepsOthers(s, t, NULL)
    requires 1 < |t.ring| && OVERHEAD <= w <= t.blocks[t.ring[1]].words && size + 4 * OVERHEAD <= 4 * w
    ensures var u := Place(t, 1, w, size);
            && Ready(u) && u.lo == t.lo
            && t.ring[1] !in s.live
            && u.live == s.live[t.ring[1] := size]
            && KeepsOthers(s, u, NULL)
  {
    PlaceInv(t, 1, w, size);
    var u := Place(t, 1, w, size);
    forall b | b in s.live
      ensures Kept(s, u, b)
    {
      assert Kept(s, t, b) && Kept(t, u, b);
    }
  }

  /** The rounded request, in words. */
  lemma {:induction false} WordsForHasRoom(size: Word)
    requires Roundable(size)
    ensures var w := WordsFor(size);
            && GetBlockSize(size) == 4 * w && OVERHEAD <= w && size + 4 * OVERHEAD <= 4 * w < size + 20
            && w <= GrowBy(w) && OVERHEAD < GrowBy(w)
  {
    BlockSizeHasRoom(size);
  }

  lemma {:induction false} MallocAfterExpand(s: State, size: Word, max: int)
    requires Ready(s) && Roundable(size) && FirstFit(s, WordsFor(size), 1) == |s.ring|
    ensures var o := Malloc(s, size, max);
            && Ready(o.s) && o.s.lo == s.lo
            && KeepsOthers(s, o.s, NULL)
            && (o.Exit? ==> o.s.live == s.live)
            && (o.Done? ==> o.p - HEADER !in s.live && o.s.live == s.live[o.p - HEADER := size])
            && (o.Exit? <==> s.brk + Max(WordsFor(size), 1024) > max)
  {
    hide Inv, Expand, Place;
    WordsForHasRoom(size);
    var w := WordsFor(size);
    var o := Expand(s, GrowBy(w), max);
    ExpandInv(s, GrowBy(w), max);
    if o.Done? {
      ExpandedHeadFits(s, GrowBy(w), max);
      PlaceAfter(s, o.s, w, size);
      assert Malloc(s, size, max) == Done(Place(o.s, 1, w, size), o.p + HEADER);
    }
  }

  /** No free block other than `but` has w words. */
  ghost predicate NoFit(bs: Blocks, w: int, but: int) {
    forall a {:trigger a in bs} :: a in bs && bs[a].free && a != but ==> bs[a].words < w
  }

  lemma {:induction false} NoFitOnList(s: State, w: int)
    requires Ready(s)
    ensures |s.ring| >= 1 && forall j :: 1 <= j < |s.ring| ==> s.ring[j] in s.blocks
    ensures FirstFit(s, w, 1) == |s.ring| <==> NoFit(s.blocks, w, NULL)
  {
    var k := FirstFit(s, w, 1);
    if k == |s.ring| {
      forall a | a in s.blocks && s.blocks[a].free && a != NULL
        ensures s.blocks[a].words < w
      {
        OnRing(s, a, NULL);
        assert s.ring[IndexOf(s.ring, a)] == a;
      }
    } else {
      BlockBounds(s, NULL, s.ring[k]);
    }
  }

  lemma {:induction false} MallocInv(s: State, size: Word, max: int)
    requires Ready(s) && Roundable(size)
    ensures var o := Malloc(s, size, max);
            && Ready(o.s) && o.s.lo == s.lo
            && KeepsOthers(s, o.s, NULL)
            && (o.Exit? ==> o.s.live == s.live)
            && (o.Done? ==> o.p - HEADER !in s.live && o.s.live == s.live[o.p - HEADER := size])
            && (o.Exit? <==> NoFit(s.blocks, WordsFor(size), NULL) && s.brk + Max(WordsFor(size), 1024) > max)
  {
    WordsForHasRoom(size);
    var w := WordsFor(size);
    NoFitOnList(s, w);
    var k := FirstFit(s, w, 1);
    if k < |s.ring| {
      PlaceInv(s, k, w, size);
      var t := Place(s, k, w, size);
      forall b | b in s.live
        ensures Kept(s, t, b)
      {
        assert Kept(s, t, b);
      }
    } else {
      MallocAfterExpand(s, size, max);
    }
  }

  // ---------- freeing ----------

  function Release(s: State, a: int): State
    requires a in s.blocks
  {
    s.(blocks := s.blocks[a := s.blocks[a].(free := true)], live := s.live - {a})
  }

  lemma {:induction false} ReleaseInv(s: State, a: int)
    requires Inv(s, NULL) && IsAlloc(s.blocks, a)
    ensures Inv(Release(s, a), a)
  {
    RetagTiled(s.blocks, s.lo, s.epi, a, s.blocks[a].(free := true));
    var t := Release(s, a);
    forall b | IsAlloc(t.blocks, b)
      ensures b in t.live
    {
      assert IsAlloc(s.blocks, b);
    }
    assert InBounds(s.blocks, s.lo, s.epi, a);
    NotOnRing(s, a, NULL);
  }

  /** The block in hand goes to the front of the list. */
  function Enlist(s: State, a: int): State
    requires |s.ring| >= 1
  {
    s.(ring := InsertAt(s.ring, 1, a))
  }

  lemma {:induction false} EnlistInv(s: State, a: int)
    requires a != NULL && Inv(s, a)
    ensures Inv(Enlist(s, a), NULL)
  {
    assert InBounds(s.blocks, s.lo, s.epi, a);
    NotOnRing(s, a, a);
    InsertAtKeeps(s.ring, 1, a);
  }

  /** mm_free of a payload address, or of NULL. */
  ghost function Free(s: State, p: int): State
    requires p != NULL ==> p - HEADER in s.blocks
  {
    if p == NULL then s
    else
      var a := p - HEADER;
      var (t, r) := Coalesce(Release(s, a), a);
      if r == a && |t.ring| >= 1 then Enlist(t, a) else t
  }

  lemma {:induction false} FreeInv(s: State, p: int)
    requires Ready(s) && (p == NULL || p - HEADER in s.live)
    ensures var t := Free(s, p);
            && Ready(t)
            && t == s.(blocks := t.blocks, ring := t.ring, live := t.live)
            && t.live == (if p == NULL then s.live else s.live - {p - HEADER})
            && KeepsOthers(s, t, p - HEADER)
  {
    if p != NULL {
      var a := p - HEADER;
      assert InBounds(s.blocks, s.lo, s.epi, a);
      ReleaseInv(s, a);
      var s1 := Release(s, a);
      CoalesceInv(s1, a, a);
      var (t, r) := Coalesce(s1, a);
      if r == a {
        EnlistInv(t, a);
      }
      forall b | b in s.live && b != a
        ensures Kept(s, Free(s, p), b)
      {
        assert IsAlloc(s1.blocks, b);
      }
    }
  }

  // ---------- resizing ----------

  /** Cut the allocated block a to w words; the rest goes to the front of the list. */
  function Shrink(s: State, a: int, w: int, size: nat): State
    requires a in s.blocks && |s.ring| >= 1
  {
    State(Split(s.blocks, a, w), InsertAt(s.ring, 1, a + w), s.live[a := size], s.lo, s.epi, s.brk)
  }

  lemma {:induction false} ShrinkInv(s: State, a: int, w: int, size: nat)
    requires Inv(s, NULL) && IsAlloc(s.blocks, a) && OVERHEAD <= w && w + OVERHEAD <= s.blocks[a].words
    requires size + 4 * OVERHEAD <= 4 * w
    ensures Inv(Shrink(s, a, w, size), NULL)
    ensures a + w !in s.blocks
  {
    SplitTiled(s.blocks, s.lo, s.epi, a, w);
    assert InBounds(s.blocks, s.lo, s.epi, a);
    NotOnRing(s, a + w, NULL);
    var t := Shrink(s, a, w, size);
    forall b | IsAlloc(t.blocks, b)
      ensures b in t.live
    {
      assert IsAlloc(s.blocks, b);
    }
    InsertAtKeeps(s.ring, 1, a + w);
  }

  /** The number of bytes by which mm_realloc asks expand_heap to extend the last
      block: an unsigned difference, which wraps when the block is the larger. */
  function ExtraBytes(s: State, a: int, w: int): Word
    requires a in s.blocks
  {
    (4 * w - 4 * s.blocks[a].words) % TWO32
  }

  /** The block is last and mm_realloc takes the branch that expands the heap. */
  predicate TakesExpandBranch(s: State, a: int, w: int)
    requires a in s.blocks
  {
    && !(s.blocks[a].words > w + OVERHEAD)
    && End(s.blocks, a) == s.epi
    && ExtraBytes(s, a, w) > 4 * OVERHEAD
  }

  /** The last block a takes over the block that Append has put behind it. Its last
      word keeps the footer of that block. */
  function ExtendLast(t: State, a: int, last: int, w: int, size: nat): State
    requires last in t.blocks && |t.ring| > 1
  {
    t.(blocks := (t.blocks - {last})[a := Block(w, false, t.blocks[last].foot)],
       ring := RemoveAt(t.ring, 1), live := t.live[a := size])
  }

  ghost function Move(s: State, p: int, size: Word, max: int): Outcome
    requires Ready(s)
  {
    match Malloc(s, size, max)
    case Exit(t) => Exit(t)
    case Done(t, q) => if p - HEADER in t.blocks && p != NULL then Done(Free(t, p), q) else Done(t, q)
  }

  ghost function Realloc(s: State, p: int, size: Word, max: int): Outcome
    requires Ready(s) && (p == NULL || p - HEADER in s.live)
  {
    if p == NULL then Malloc(s, size, max)
    else if size == 0 then Done(Free(s, p), NULL)
    else
      var a := p - HEADER;
      var w := WordsFor(size);
      if s.blocks[a].words > w + OVERHEAD then Done(Shrink(s, a, w, size), p)
      else if TakesExpandBranch(s, a, w) then
        match Expand(s, ExtraBytes(s, a, w) / 4, max)
        case Exit(t) => Exit(t)
        case Done(t, last) => if last in t.blocks && |t.ring| > 1
                              then Done(ExtendLast(t, a, last, w, size), p)
                              else Done(t, NULL)
      else if FreeNext(s.blocks, a) then
        var s1 := Absorb(s, a, End(s.blocks, a));
        AbsorbInv(s, a, End(s.blocks, a), NULL);
        if s1.blocks[a].words > w + OVERHEAD
        then Done(Shrink(s1, a, w, size), p)
        else Move(s1, p, size, max)
      else Move(s, p, size, max)
  }

  lemma {:induction false} MoveInv(s: State, p: int, size: Word, max: int)
    requires Ready(s) && Representable(size) && p != NULL && p - HEADER in s.live
    ensures var o := Move(s, p, size, max);
            && Ready(o.s) && o.s.lo == s.lo
            && KeepsOthers(s, o.s, p - HEADER)
            && (o.Exit? ==> o.s.live == s.live)
            && (o.Done? ==>
                && o.p - HEADER !in s.live
                && o.s.live == s.live[o.p - HEADER := size] - {p - HEADER})
  {
    hide Malloc, Free, Tiled, RingOK, FootersOK;
    LiveBlock(s, NULL, p - HEADER);
    MallocInv(s, size, max);
    var o := Malloc(s, size, max);
    KeepsOthersLess(s, o.s, p - HEADER);
    if o.Done? {
      assert Kept(s, o.s, p - HEADER);
      FreeInv(o.s, p);
      KeepsOthersTrans(s, o.s, Free(o.s, p), p - HEADER);
    }
  }

  /** mm_realloc grows the physically last block over newly added heap. */
  predicate GrowsLast(s: State, p: int, size: Word, max: int)
    requires p == NULL || p - HEADER in s.blocks
  {
    && p != NULL && size != 0
    && var a := p - HEADER;
       var w := WordsFor(size);
       End(s.blocks, a) == s.epi && w > s.blocks[a].words + OVERHEAD && s.brk + (w - s.blocks[a].words) <= max
  }

  /** The branch that expands the heap: when it does grow the block, the word that
      becomes the block's last one holds the size of the part added, which is not
      the block's size; otherwise the difference has wrapped, or the arena is full,
      and the process exits. */
  lemma {:induction false} ExpandBranchInv(s: State, p: int, size: Word, max: int)
    requires Ready(s) && Representable(size) && p != NULL && p - HEADER in s.live && size != 0
    requires s.brk <= max && 4 * max < TWO31
    requires TakesExpandBranch(s, p - HEADER, WordsFor(size))
    ensures var o := Realloc(s, p, size, max);
            && (o.Done? <==> GrowsLast(s, p, size, max))
            && (o.Exit? ==> Ready(o.s))
            && (o.Done? ==> !FootersOK(o.s.blocks))
  {
    hide Expand, KeepsOthers, Tiled, RingOK, LiveOK;
    LiveBlock(s, NULL, p - HEADER);
    WordsForHasRoom(size);
    var a, w := p - HEADER, WordsFor(size);
    var n := ExtraBytes(s, a, w) / 4;
    ExpandInv(s, n, max);
    if w > s.blocks[a].words {
      assert n == w - s.blocks[a].words;
      if s.brk + n <= max {
        ExpandedHeadFits(s, n, max);
        var t := Realloc(s, p, size, max).s;
        assert t.blocks[a] == Block(w, false, 4 * n);
      }
    } else {
      assert 4 * n == TWO32 - 4 * (s.blocks[a].words - w);
    }
  }

  /** No sum that mm_realloc computes for this request wraps. A null pointer is left to
      mm_malloc and a size of 0 to mm_free. */
  predicate Resizable(p: int, size: Word) {
    if p == NULL then Roundable(size) else size == 0 || Representable(size)
  }

  /** mm_realloc restores the invariant except when it grows the last block. */
  lemma {:induction false} ReallocInv(s: State, p: int, size: Word, max: int)
    requires Ready(s) && Resizable(p, size) && (p == NULL || p - HEADER in s.live)
    requires s.brk <= max && 4 * max < TWO31
    ensures Ready(Realloc(s, p, size, max).s) <==> !GrowsLast(s, p, size, max)
  {
    WordsForHasRoom(size);
    var w := WordsFor(size);
    if p == NULL {
      MallocInv(s, size, max);
    } else if size == 0 {
      FreeInv(s, p);
    } else {
      var a := p - HEADER;
      assert InBounds(s.blocks, s.lo, s.epi, a);
      if s.blocks[a].words > w + OVERHEAD {
        ShrinkInv(s, a, w, size);
      } else if TakesExpandBranch(s, a, w) {
        ExpandBranchInv(s, p, size, max);
      } else {
        ReallocInPlaceOrMove(s, p, size, max);
      }
    }
  }

  lemma {:induction false} ReallocInPlaceOrMove(s: State, p: int, size: Word, max: int)
    requires Ready(s) && Representable(size) && p != NULL && p - HEADER in s.live && size != 0
    requires s.blocks[p - HEADER].words <= WordsFor(size) + OVERHEAD
    requires !TakesExpandBranch(s, p - HEADER, WordsFor(size))
    ensures !GrowsLast(s, p, size, max)
    ensures Resized(s, Realloc(s, p, size, max), p, size)
  {
    hide Move, KeepsOthers, LiveOK, Tiled, RingOK;
    LiveBlock(s, NULL, p - HEADER);
    WordsForHasRoom(size);
    var a, w := p - HEADER, WordsFor(size);
    if FreeNext(s.blocks, a) {
      var n := End(s.blocks, a);
      AbsorbInv(s, a, n, NULL);
      var s1 := Absorb(s, a, n);
      BlockBounds(s, NULL, n);
      AbsorbKeepsOthers(s, a, n);
      if s1.blocks[a].words > w + OVERHEAD {
        ShrinkResized(s1, p, w, size);
      } else {
        MoveResized(s1, p, size, max);
      }
      KeepsOthersTrans(s, s1, Realloc(s, p, size, max).s, a);
    } else {
      MoveResized(s, p, size, max);
    }
  }

  /** The effect a caller sees of a resize that does not grow the last block: the
      request now has `size` bytes at the returned address, every other request is
      as it was, and the invariant holds. */
  ghost predicate Resized(s: State, o: Outcome, p: int, size: nat) {
    && Ready(o.s) && o.s.lo == s.lo
    && KeepsOthers(s, o.s, p - HEADER)
    && (o.Done? ==>
          && (o.p == p || o.p - HEADER !in s.live)
          && o.s.live == (s.live - {p - HEADER})[o.p - HEADER := size])
  }

  lemma {:induction false} MoveResized(s: State, p: int, size: Word, max: int)
    requires Ready(s) && Representable(size) && p != NULL && p - HEADER in s.live
    ensures Resized(s, Move(s, p, size, max), p, size)
  {
    MoveInv(s, p, size, max);
  }

  lemma {:induction false} AbsorbKeepsOthers(s: State, a: int, n: int)
    requires Ready(s) && IsPred(s.blocks, a, n) && n in s.blocks && s.blocks[n].free
    ensures KeepsOthers(s, Absorb(s, a, n), a)
  {
    forall b | b in s.live && b != a
      ensures Kept(s, Absorb(s, a, n), b)
    {
      assert IsAlloc(s.blocks, b);
    }
  }

  lemma {:induction false} ShrinkResized(s: State, p: int, w: int, size: Word)
    requires Ready(s) && p - HEADER in s.live && OVERHEAD <= w && size + 4 * OVERHEAD <= 4 * w
    requires s.blocks[p - HEADER].words > w + OVERHEAD
    ensures Resized(s, Done(Shrink(s, p - HEADER, w, size), p), p, size)
  {
    var a := p - HEADER;
    ShrinkInv(s, a, w, size);
    forall b | b in s.live && b != a
      ensures Kept(s, Shrink(s, a, w, size), b)
    {
      assert IsAlloc(s.blocks, b);
    }
  }

  /** What mm_realloc of a live block to a nonzero size achieves whenever it does not
      grow the last block. */
  lemma {:induction false} ReallocResizes(s: State, p: int, size: Word, max: int)
    requires Ready(s) && Representable(size) && p != NULL && p - HEADER in s.live && size != 0
    requires s.brk <= max && 4 * max < TWO31
    requires !GrowsLast(s, p, size, max)
    ensures Realloc(s, p, size, max).Done? ==> Resized(s, Realloc(s, p, size, max), p, size)
    ensures p - HEADER in s.blocks && (Realloc(s, p, size, max).Exit? <==> ReallocExits(s, p, size, max))
  {
    hide ReallocExits;
    ReallocExitsExactly(s, p, size, max);
    WordsForHasRoom(size);
    var a, w := p - HEADER, WordsFor(size);
    if s.blocks[a].words > w + OVERHEAD {
      ShrinkResized(s, p, w, size);
    } else if TakesExpandBranch(s, a, w) {
      ExpandBranchInv(s, p, size, max);
    } else {
      ReallocInPlaceOrMove(s, p, size, max);
    }
  }

  // ---------- when mm_realloc exits ----------

  /** mm_realloc of p ends the process: a null pointer needs what mm_malloc needs. A
      block that cannot be cut exits when it is the last one and holds slightly more
      than needed, or is to be extended and the difference does not fit the arena;
      otherwise when it cannot be cut even with a free successor, no other free block is
      large enough, and a new block does not fit. */
  ghost predicate ReallocExits(s: State, p: int, size: Word, max: int)
    requires p == NULL || p - HEADER in s.blocks
  {
    var w := WordsFor(size);
    if p == NULL then NoFit(s.blocks, w, NULL) && s.brk + Max(w, 1024) > max
    else if size == 0 then false
    else
      var a := p - HEADER;
      var words, n := s.blocks[a].words, End(s.blocks, a);
      && words <= w + OVERHEAD
      && if n == s.epi && words > w then true
         else if n == s.epi && w > words + OVERHEAD then s.brk + (w - words) > max
         else
           && !(n in s.blocks && s.blocks[n].free && words + s.blocks[n].words > w + OVERHEAD)
           && NoFit(s.blocks, w, n) && s.brk + Max(w, 1024) > max
  }

  lemma {:induction false} AbsorbedNoFit(s: State, a: int, w: int)
    requires Ready(s) && IsAlloc(s.blocks, a) && FreeNext(s.blocks, a)
    ensures var n := End(s.blocks, a); NoFit(Absorb(s, a, n).blocks, w, NULL) <==> NoFit(s.blocks, w, n)
  {
    var n := End(s.blocks, a);
    var t := Absorb(s, a, n);
    forall b | b in t.blocks && t.blocks[b].free
      ensures b in s.blocks && s.blocks[b] == t.blocks[b] && b != n && b != NULL
    {
      BlockBounds(s, NULL, b);
    }
    forall b | b in s.blocks && s.blocks[b].free && b != n
      ensures b in t.blocks && t.blocks[b] == s.blocks[b] && b != NULL
    {
      BlockBounds(s, NULL, b);
    }
  }

  lemma {:induction false} NoFitNoOther(s: State, w: int, n: int)
    requires Ready(s) && !(n in s.blocks && s.blocks[n].free)
    ensures NoFit(s.blocks, w, NULL) <==> NoFit(s.blocks, w, n)
  {
    forall b | b in s.blocks
      ensures b != NULL
    {
      BlockBounds(s, NULL, b);
    }
  }

  /** The process exits exactly then. */
  lemma {:induction false} ReallocExitsExactly(s: State, p: int, size: Word, max: int)
    requires Ready(s) && Resizable(p, size) && (p == NULL || p - HEADER in s.live)
    requires s.brk <= max && 4 * max < TWO31
    ensures p == NULL || p - HEADER in s.blocks
    ensures Realloc(s, p, size, max).Exit? <==> ReallocExits(s, p, size, max)
  {
    hide KeepsOthers, Tiled, RingOK, LiveOK, NoFit, Malloc, Free, Expand;
    WordsForHasRoom(size);
    var w := WordsFor(size);
    if p == NULL {
      MallocInv(s, size, max);
    } else {
      LiveBlock(s, NULL, p - HEADER);
      if size != 0 && s.blocks[p - HEADER].words <= w + OVERHEAD {
        if TakesExpandBranch(s, p - HEADER, w) {
          ExpandBranchInv(s, p, size, max);
        } else {
          MoveExitsExactly(s, p, size, max);
        }
      }
    }
  }

  lemma {:induction false} MoveExitsExactly(s: State, p: int, size: Word, max: int)
    requires Ready(s) && Representable(size) && p != NULL && p - HEADER in s.live && size != 0
    requires p - HEADER in s.blocks && s.blocks[p - HEADER].words <= WordsFor(size) + OVERHEAD
    requires !TakesExpandBranch(s, p - HEADER, WordsFor(size)) && s.brk <= max && 4 * max < TWO31
    ensures Realloc(s, p, size, max).Exit? <==> ReallocExits(s, p, size, max)
  {
    hide KeepsOthers, Tiled, RingOK, LiveOK, NoFit, Malloc, Free;
    WordsForHasRoom(size);
    var a, w := p - HEADER, WordsFor(size);
    LiveBlock(s, NULL, a);
    var n := End(s.blocks, a);
    if FreeNext(s.blocks, a) {
      AbsorbInv(s, a, n, NULL);
      AbsorbedNoFit(s, a, w);
      MallocInv(Absorb(s, a, n), size, max);
    } else {
      NoFitNoOther(s, w, n);
      MallocInv(s, size, max);
    }
  }

  // ---------- when mm_realloc grows the last block ----------

  /** After the last block has been grown everything holds but its footer: the tiling,
      the list and the live requests are as they should be, and the word that should be
      this block's footer is the only one that is wrong. */
  lemma {:induction false} GrownLastShape(s: State, p: int, size: Word, max: int)
    requires Ready(s) && Resizable(p, size) && p != NULL && p - HEADER in s.live && p - HEADER in s.blocks
    requires s.brk <= max && 4 * max < TWO31
    requires GrowsLast(s, p, size, max)
    ensures var o := Realloc(s, p, size, max); var a := p - HEADER; var t := o.s;
            && o == Done(t, p) && Shape(t) && t.brk == t.epi + 1 && t.lo == s.lo
            && t.live == s.live[a := size] && KeepsOthers(s, t, a)
            && a in t.blocks && t.blocks[a] == Block(WordsFor(size), false, 4 * (WordsFor(size) - s.blocks[a].words))
            && forall b :: b in t.blocks && b != a ==>
                t.blocks[b].foot == 0 || t.blocks[b].foot == 4 * t.blocks[b].words
  {
    hide Expand, Tiled, RingOK, LiveOK, KeepsOthers;
    var a, w := p - HEADER, WordsFor(size);
    WordsForHasRoom(size);
    LiveBlock(s, NULL, a);
    var n := w - s.blocks[a].words;
    assert ExtraBytes(s, a, w) == 4 * n;
    ExpandInv(s, n, max);
    ExpandedHeadFits(s, n, max);
    var t := Expand(s, n, max).s;
    assert Kept(s, t, a) by {
      KeptOf(s, t, NULL, a);
    }
    ExtendLastShape(t, a, s.epi, w, size);
    var u := ExtendLast(t, a, s.epi, w, size);
    ExtendLastKeeps(s, t, a, s.epi, w, size);
  }

  lemma {:induction false} KeptOf(s: State, t: State, a: int, b: int)
    requires KeepsOthers(s, t, a) && b in s.live && b != a
    ensures Kept(s, t, b)
  {
  }

  /** The last block takes over the free block behind it, which is the first on the list. */
  lemma {:induction false} ExtendLastShape(t: State, a: int, last: int, w: int, size: nat)
    requires Ready(t) && IsAlloc(t.blocks, a) && IsPred(t.blocks, a, last)
    requires |t.ring| > 1 && t.ring[1] == last && last in t.blocks && t.blocks[last].free
    requires w == t.blocks[a].words + t.blocks[last].words && size + 4 * OVERHEAD <= 4 * w
    ensures var u := ExtendLast(t, a, last, w, size);
            && Shape(u)
            && forall b :: b in u.blocks && b != a ==>
                u.blocks[b].foot == 0 || u.blocks[b].foot == 4 * u.blocks[b].words
  {
    hide Tiled;
    AbsorbInv(t, a, last, NULL);
    var v := Absorb(t, a, last);
    WithoutIsRemoveAt(t.ring, 1);
    var b := Block(w, false, t.blocks[last].foot);
    RetagTiled(v.blocks, v.lo, v.epi, a, b);
    var u := ExtendLast(t, a, last, w, size);
    assert u.blocks == v.blocks[a := b];
    forall c | IsAlloc(u.blocks, c)
      ensures c in u.live
    {
      assert IsAlloc(v.blocks, c);
    }
  }

  lemma {:induction false} ExtendLastKeeps(s: State, t: State, a: int, last: int, w: int, size: nat)
    requires KeepsOthers(s, t, NULL) && Ready(s) && last in t.blocks && t.blocks[last].free && |t.ring| > 1
    ensures KeepsOthers(s, ExtendLast(t, a, last, w, size), a)
  {
    var u := ExtendLast(t, a, last, w, size);
    forall b | b in s.live && b != a
      ensures Kept(s, u, b)
    {
      LiveBlock(s, NULL, b);
      assert Kept(s, t, b);
    }
  }

  /** Every outcome of mm_realloc, the grown last block included, leaves a heap whose
      tiling, list and live requests are in order. */
  lemma {:induction false} ReallocShape(s: State, p: int, size: Word, max: int)
    requires Ready(s) && Resizable(p, size) && (p == NULL || p - HEADER in s.live)
    requires s.brk <= max && 4 * max < TWO31
    ensures var t := Realloc(s, p, size, max).s; Shape(t) && t.brk == t.epi + 1 && t.lo == s.lo
  {
    hide KeepsOthers, Malloc, Free, Expand, Tiled, RingOK, LiveOK, FootersOK;
    WordsForHasRoom(size);
    var w := WordsFor(size);
    ReallocInv(s, p, size, max);
    if p == NULL {
      MallocInv(s, size, max);
    } else {
      LiveBlock(s, NULL, p - HEADER);
      if GrowsLast(s, p, size, max) {
        GrownLastShape(s, p, size, max);
      } else if size == 0 {
        FreeInv(s, p);
      } else if TakesExpandBranch(s, p - HEADER, w) {
        ExpandInv(s, ExtraBytes(s, p - HEADER, w) / 4, max);
        ExpandBranchInv(s, p, size, max);
      } else {
        ReallocResizes(s, p, size, max);
        ReallocLo(s, p, size, max);
      }
    }
  }

  lemma {:induction false} ReallocLo(s: State, p: int, size: Word, max: int)
    requires Ready(s) && Representable(size) && p != NULL && p - HEADER in s.live && p - HEADER in s.blocks && size != 0
    requires !TakesExpandBranch(s, p - HEADER, WordsFor(size))
    ensures Realloc(s, p, size, max).s.lo == s.lo
  {
    hide KeepsOthers, Malloc, Free, Tiled, RingOK, LiveOK, FootersOK, Move;
    if s.blocks[p - HEADER].words <= WordsFor(size) + OVERHEAD {
      ReallocInPlaceOrMove(s, p, size, max);
    }
  }

  /** What a caller sees of any successful resize, the grown last block included. */
  lemma {:induction false} ReallocServes(s: State, p: int, size: Word, max: int)
    requires Ready(s) && Representable(size) && p != NULL && p - HEADER in s.live && size != 0
    requires s.brk <= max && 4 * max < TWO31
    ensures var o := Realloc(s, p, size, max);
            o.Done? ==>
              && o.p != NULL && o.p - HEADER in o.s.live && o.s.live[o.p - HEADER] == size
              && (o.p == p || o.p - HEADER !in s.live)
              && KeepsOthers(s, o.s, p - HEADER)
  {
    hide Realloc, KeepsOthers, Shape;
    LiveBlock(s, NULL, p - HEADER);
    var o := Realloc(s, p, size, max);
    if GrowsLast(s, p, size, max) {
      GrownLastShape(s, p, size, max);
    } else {
      ReallocResizes(s, p, size, max);
      if o.Done? {
        LiveBlock(o.s, NULL, o.p - HEADER);
      }
    }
  }
}
