/** What the allocator's invariant means for a reader of the heap: every word is in
    exactly one block, the words add up, the list walked either way is the set of free
    blocks, live payloads are apart; and where mm_realloc falls outside it. */
module HeapTheorems {
  import opened Basics
  import opened HeapState
  import opened Words
  import opened HeapMemory
  import opened HeapSteps
  import Spec = AllocatorSpec

  ghost predicate Owns(bs: Blocks, a: int, i: int) {
    a in bs && a <= i < End(bs, a)
  }

  /** Every word between the prologue and the epilogue lies in exactly one block. */
  lemma {:induction false} EveryWordInOneBlock(bs: Blocks, lo: int, epi: int, i: int)
    requires Tiled(bs, lo, epi) && lo <= i < epi
    ensures exists a :: Owns(bs, a, i) && forall b :: Owns(bs, b, i) ==> b == a
  {
    var a := OwnerFrom(bs, lo, epi, lo, i);
    forall b | Owns(bs, b, i)
      ensures b == a
    {
      assert Apart(bs, a, b);
    }
  }

  lemma {:induction false} OwnerFrom(bs: Blocks, lo: int, epi: int, a: int, i: int) returns (b: int)
    requires Tiled(bs, lo, epi) && a in bs && a <= i < epi
    ensures Owns(bs, b, i)
    decreases epi - a
  {
    assert InBounds(bs, lo, epi, a) && HasNext(bs, epi, a);
    if i < End(bs, a) {
      b := a;
    } else {
      b := OwnerFrom(bs, lo, epi, End(bs, a), i);
    }
  }

  // ---------- conservation ----------

  ghost function Pick(bs: Blocks): (a: int)
    requires exists a :: a in bs
    ensures a in bs
  {
    var a :| a in bs; a
  }

  ghost function Total(bs: Blocks): int {
    if !(exists a :: a in bs) then 0
    else bs[Pick(bs)].words + Total(bs - {Pick(bs)})
  }

  lemma {:induction false} TotalWithout(bs: Blocks, b: int)
    requires b in bs
    ensures Total(bs) == bs[b].words + Total(bs - {b})
    decreases |bs|
  {
    var a := Pick(bs);
    if a != b {
      TotalWithout(bs - {a}, b);
      TotalWithout(bs - {b}, a);
      assert bs - {a} - {b} == bs - {b} - {a};
    }
  }

  /** The sizes of the blocks add up to the words between the borders. */
  lemma {:induction false} TilingTotal(bs: Blocks, lo: int, epi: int)
    requires Tiled(bs, lo, epi)
    ensures Total(bs) == epi - lo
    decreases |bs|
  {
    if lo == epi {
      forall a
        ensures a !in bs
      {
        assert a in bs ==> InBounds(bs, lo, epi, a);
      }
    } else {
      LastBlock(bs, lo, epi);
      var last :| IsPred(bs, last, epi);
      WithoutLastTiled(bs, lo, epi, last);
      TilingTotal(bs - {last}, lo, last);
      TotalWithout(bs, last);
    }
  }

  lemma {:induction false} WithoutLastTiled(bs: Blocks, lo: int, epi: int, last: int)
    requires Tiled(bs, lo, epi) && IsPred(bs, last, epi)
    ensures Tiled(bs - {last}, lo, last)
  {
    var r := bs - {last};
    assert InBounds(bs, lo, epi, last) && HasPred(bs, lo, last);
    forall a, b | a in r && b in r
      ensures Apart(r, a, b)
    {
      assert Apart(bs, a, b);
    }
    forall a | a in r
      ensures InBounds(r, lo, last, a) && HasPred(r, lo, a) && HasNext(r, last, a)
    {
      assert InBounds(bs, lo, epi, a) && Apart(bs, a, last) && HasPred(bs, lo, a) && HasNext(bs, epi, a);
      if a != lo {
        var b :| IsPred(bs, b, a);
        assert IsPred(r, b, a);
      }
    }
    assert lo in bs;
  }

  /** No operation loses or gains a word: free and allocated blocks always account for
      the whole heap, which only expand_heap changes. */
  lemma {:induction false} HeapAccounted(s: State)
    requires Spec.Ready(s)
    ensures Total(s.blocks) == s.brk - 1 - s.lo
  {
    TilingTotal(s.blocks, s.lo, s.epi);
  }

  // ---------- the list in memory ----------

  /** The n addresses met by following the links at offset `link` from x. */
  function Walk(m: seq<Word>, x: int, link: int, n: nat): seq<int>
    decreases n
  {
    if n == 0 || !(0 <= x + link < |m|) then []
    else [m[x + link]] + Walk(m, m[x + link], link, n - 1)
  }

  lemma {:induction false} WalkForward(m: seq<Word>, ring: seq<int>, k: nat, n: nat)
    requires Linked(m, ring) && k + n < |ring|
    ensures Walk(m, ring[k], NEXT, n) == ring[k + 1..k + 1 + n]
    decreases n
  {
    if n > 0 {
      assert LinkAt(m, ring, k);
      WalkForward(m, ring, k + 1, n - 1);
      assert ring[k + 1..k + 1 + n] == [ring[k + 1]] + ring[k + 2..k + 1 + n];
    }
  }

  lemma {:induction false} ReversedLast(s: seq<int>)
    requires s != []
    ensures Reversed(s) == [s[|s| - 1]] + Reversed(s[..|s| - 1])
  {
    if |s| > 1 {
      ReversedLast(s[1..]);
      assert s[1..][..|s| - 2] == s[..|s| - 1][1..];
    }
  }

  /** Walked from the head through `next`, the list in memory shows every free block,
      once, and nothing else; walked through `prev` it shows the same blocks in the
      opposite order. */
  lemma {:induction false} ListIsTheFreeBlocks(m: seq<Word>, s: State)
    requires Spec.Ready(s) && Repr(m, s)
    ensures var n := |s.ring| - 1;
            var l := Walk(m, HEAD, NEXT, n);
            && Distinct(l)
            && (forall a :: a in l <==> a in s.blocks && s.blocks[a].free)
            && Walk(m, HEAD, PREV, n) == Reversed(l)
  {
    hide Walk, Tiled, FootersOK;
    var n := |s.ring| - 1;
    WalkForward(m, s.ring, 0, n);
    var l := Walk(m, HEAD, NEXT, n);
    assert l == s.ring[1..];
    forall i, j | 0 <= i < |l| && 0 <= j < |l|
      ensures Differ(l, i, j)
    {
      assert Differ(s.ring, i + 1, j + 1);
    }
    forall a | a in s.blocks && s.blocks[a].free
      ensures a in l
    {
      BlockBounds(s, NULL, a);
      var k := IndexOf(s.ring, a);
      assert l[k - 1] == a;
    }
    BackwardFromHead(m, s.ring);
  }

  lemma {:induction false} BackwardFromHead(m: seq<Word>, ring: seq<int>)
    requires Linked(m, ring) && |ring| >= 1
    ensures Walk(m, ring[0], PREV, |ring| - 1) == Reversed(ring[1..])
  {
    var n := |ring| - 1;
    if n > 0 {
      assert LinkAt(m, ring, 0);
      WalkBack(m, ring, n, n - 1);
      ReversedLast(ring[1..]);
      assert ring[1..][..n - 1] == ring[1..n];
    }
  }

  /** k steps back from position j show the k elements in front of it. */
  lemma {:induction false} WalkBack(m: seq<Word>, ring: seq<int>, j: nat, k: nat)
    requires Linked(m, ring) && k <= j < |ring|
    ensures Walk(m, ring[j], PREV, k) == Reversed(ring[j - k..j])
    decreases k
  {
    if k > 0 {
      assert LinkAt(m, ring, j);
      WalkBack(m, ring, j - 1, k - 1);
      ReversedLast(ring[j - k..j]);
      assert ring[j - k..j][..k - 1] == ring[j - k..j - 1];
    }
  }

  // ---------- payloads ----------

  /** Payloads of different live requests share no byte, and all of them lie between
      the prologue and the epilogue, clear of every header and footer. */
  lemma {:induction false} LivePayloadsApart(s: State, a: int, b: int)
    requires Spec.Ready(s) && a in s.live && b in s.live
    ensures var p, q := 4 * (a + HEADER), 4 * (b + HEADER);
            && 4 * s.lo <= p && p + s.live[a] <= 4 * (s.blocks[a].words + a) - 4 <= 4 * s.brk - 8
            && (a != b ==> p + s.live[a] <= q || q + s.live[b] <= p)
  {
    LiveBlock(s, NULL, a);
    LiveBlock(s, NULL, b);
    assert Apart(s.blocks, a, b);
  }

  // ---------- where mm_realloc fails ----------

  /** One live block of ten words, which is the last block. */
  function OneLive(): State {
    State(map[6 := Block(10, false, 0)], [HEAD], map[6 := 20], 6, 16, 17)
  }

  lemma {:induction false} OneLiveReady()
    ensures Spec.Ready(OneLive())
  {
    var s := OneLive();
    assert forall a :: a in s.blocks ==> a == 6;
    assert HasNext(s.blocks, 16, 6) && HasPred(s.blocks, 6, 6);
    assert Tiled(s.blocks, 6, 16);
  }

  /** Growing it to 100 bytes leaves a footer that is neither 0 nor the block's size. */
  lemma {:induction false} GrowingLastBlockBreaksFooter()
    ensures var o := Spec.Realloc(OneLive(), 6 + HEADER, 100, 1000);
            o.Done? && o.s.blocks[6] == Block(29, false, 76) && !Spec.Ready(o.s)
  {
    OneLiveReady();
    Spec.ExpandBranchInv(OneLive(), 6 + HEADER, 100, 1000);
    Spec.ExpandedHeadFits(OneLive(), 19, 1000);
  }

  /** What the footer of a grown last block does once another block lies behind it: in
      front of that block coalesce computes a place inside the live payload, as many words
      into the block as it had before, and takes it for a free block exactly when the word
      there is even and not zero. No block starts there. */
  lemma {:induction false} GrownFooterMisleads(m: seq<Word>, t: State, a: int, n: int)
    requires Shape(t) && Repr(m, t) && IsAlloc(t.blocks, a) && t.blocks[a].foot == 4 * n
    requires OVERHEAD < n && n + OVERHEAD <= t.blocks[a].words && End(t.blocks, a) in t.blocks
    ensures var e := End(t.blocks, a); var q := e - n;
            && 0 < e <= |m| && 0 <= q < |m| && e - m[e - 1] / 4 == q
            && q == a + (t.blocks[a].words - n) && a + HEADER < q < e - 1 && q !in t.blocks
            && (PrevFreeTest(m, e) <==> m[q] % 2 == 0 && m[q] != 0)
  {
    assert TagAt(m, t.blocks, a);
    assert InBounds(t.blocks, t.lo, t.epi, a);
    var q := End(t.blocks, a) - n;
    assert q in t.blocks ==> Apart(t.blocks, a, q);
  }

  /** With room in the arena for a whole new block, a resize ends the process exactly when
      the last block is resized to slightly less than it holds: the unsigned difference
      wraps. */
  lemma {:induction false} SlightlySmallerLastBlockExits(s: State, p: int, size: Word, max: int)
    requires Spec.Ready(s) && Representable(size) && p != NULL && p - HEADER in s.live && size != 0
    requires s.brk + Max(Spec.WordsFor(size), 1024) <= max && 4 * max < TWO31
    ensures var a, w := p - HEADER, Spec.WordsFor(size);
            a in s.blocks
            && (Spec.Realloc(s, p, size, max).Exit? <==>
                End(s.blocks, a) == s.epi && w < s.blocks[a].words <= w + OVERHEAD)
  {
    hide Inv, Spec.NoFit;
    LiveBlock(s, NULL, p - HEADER);
    Spec.WordsForHasRoom(size);
    Spec.ReallocExitsExactly(s, p, size, max);
  }

  // ---------- sizes for which a sum in mm_realloc wraps ----------

  /** mm_realloc's test for a block that can be cut agrees with the test without
      wrap-around exactly for representable sizes. For the others it always succeeds, and
      the place of the cut, computed modulo 2^32, lies one to four words in front of the
      block. */
  lemma {:induction false} CutTestWraps(size: Word, a: int, words: int)
    requires Roundable(size) && OVERHEAD <= words && OVERHEAD <= a && 4 * (a + words) < TWO31
    ensures var g := GetBlockSize(size);
            && ((4 * words > (g + 16) % TWO32 <==> 4 * words > g + 16) <==> Representable(size))
            && (!Representable(size) ==> 4 * words > (g + 16) % TWO32 && a - 4 <= (4 * a + g) % TWO32 / 4 <= a - 1)
  {
    RepresentableIs(size);
    var t, g := size + 19, GetBlockSize(size);
    assert g == t - t % 4;
    if !Representable(size) {
      assert (g + 16) % TWO32 == g + 16 - TWO32;
      assert (4 * a + g) % TWO32 == 4 * a + g - TWO32;
    }
  }

  /** For sizes whose rounding wraps that test is exact, but the rounded size is at most 16:
      the cut lies at the block itself or at most four words behind it. */
  lemma {:induction false} SmallCut(size: Word, a: int, words: int)
    requires !Roundable(size) && OVERHEAD <= words && OVERHEAD <= a && 4 * (a + words) < TWO31
    ensures var g := GetBlockSize(size);
            && g % 4 == 0 && g <= 16 && (g == 16 <==> size >= TWO32 - 3)
            && (4 * words > (g + 16) % TWO32 <==> 4 * words > g + 16)
            && a <= (4 * a + g) % TWO32 / 4 <= a + OVERHEAD
  {
    assert (size + 19) % TWO32 == size + 19 - TWO32;
  }

  /** A header with a size on it that is rounded but not representable is not the header of a block in any heap. */
  lemma {:induction false} CutBlockIsLost(m: seq<Word>, t: State, a: int, size: Word)
    requires Repr(m, t) && 4 * |m| < TWO31 && 0 <= a < |m|
    requires Roundable(size) && !Representable(size) && m[a] == SetAllocated(GetBlockSize(size))
    ensures a !in t.blocks
  {
    RepresentableIs(size);
    assert a in t.blocks ==> TagAt(m, t.blocks, a);
  }

  /** Resizing the block of OneLive to 2^32 - 30 bytes: the test succeeds, and the new
      block would start three words in front of the block, outside the heap. */
  lemma {:induction false} HugeResizeCutsInFront()
    ensures var size, s := TWO32 - 30, OneLive();
            && Roundable(size) && !Representable(size) && GetBlockSize(size) == TWO32 - 12
            && 4 * s.blocks[6].words > (GetBlockSize(size) + 16) % TWO32 == 4
            && (4 * 6 + GetBlockSize(size)) % TWO32 == 4 * (6 - 3) && 6 - 3 < s.lo
  {
    CutTestWraps(TWO32 - 30, 6, 10);
  }
}
