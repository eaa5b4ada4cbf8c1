/** What single steps of the allocator's code do to the memory words: each lemma takes
    a state that memory represents and the words a step has written, and gives the
    state that memory represents then. */
module HeapSteps {
  import opened Basics
  import opened HeapState
  import opened Words
  import opened HeapMemory
  import Spec = AllocatorSpec

  /** coalesce's test on the word in front of block a. */
  predicate PrevFreeTest(m: seq<Word>, a: int)
    requires 0 < a <= |m| && 0 <= a - m[a - 1] / 4 < |m|
  {
    var p := a - m[a - 1] / 4;
    m[a - 1] > 0 && p != HEAD && !IsAllocated(m[p]) && m[p] != 0
  }

  lemma {:induction false} PrevTestFirst(m: seq<Word>, s: State, out: int)
    requires Inv(s, out) && Borders(m, s) && s.lo in s.blocks
    ensures m[s.lo - 1] == 8 && !PrevFreeTest(m, s.lo)
    ensures Spec.FreePred(s.blocks, s.lo) !in s.blocks
  {
    assert NULL in s.blocks ==> InBounds(s.blocks, s.lo, s.epi, NULL);
    forall b | b in s.blocks
      ensures !IsPred(s.blocks, b, s.lo)
    {
      assert InBounds(s.blocks, s.lo, s.epi, b);
    }
  }

  lemma {:induction false} FreePredIs(s: State, out: int, a: int, b: int)
    requires Inv(s, out) && a in s.blocks && IsPred(s.blocks, b, a)
    ensures Spec.FreePred(s.blocks, a) in s.blocks <==> s.blocks[b].free && s.blocks[b].foot != 0
    ensures Spec.FreePred(s.blocks, a) in s.blocks ==> Spec.FreePred(s.blocks, a) == b
  {
    assert NULL in s.blocks ==> InBounds(s.blocks, s.lo, s.epi, NULL);
    forall c | IsPred(s.blocks, c, a)
      ensures c == b
    {
      PredUnique(s.blocks, s.lo, s.epi, a, b, c);
    }
  }

  lemma {:induction false} PrevTestInner(m: seq<Word>, s: State, out: int, a: int, b: int)
    requires Inv(s, out) && Tags(m, s.blocks) && a in s.blocks && IsPred(s.blocks, b, a)
    ensures 0 < a < |m| && 0 <= a - m[a - 1] / 4 < |m|
    ensures PrevFreeTest(m, a) <==> Spec.FreePred(s.blocks, a) in s.blocks
    ensures PrevFreeTest(m, a) ==> Spec.FreePred(s.blocks, a) == b == a - m[a - 1] / 4
  {
    assert TagAt(m, s.blocks, a) && TagAt(m, s.blocks, b);
    assert InBounds(s.blocks, s.lo, s.epi, b);
    FreePredIs(s, out, a, b);
    Decode(m[b], s.blocks[b]);
    assert m[a - 1] == s.blocks[b].foot;
    assert m[a - 1] == 0 || a - m[a - 1] / 4 == b;
  }

  /** The footer in front of block a says whether the block before it is free and
      where it starts; the test fails in front of the first block, where the
      prologue is. When it succeeds, the computed address is the physical
      predecessor of a, which is free. */
  lemma {:induction false} PrevTest(m: seq<Word>, s: State, out: int, a: int)
    requires Inv(s, out) && Repr(m, s) && a in s.blocks
    ensures 2 <= a < |m| && 0 <= a - m[a - 1] / 4 < |m|
    ensures PrevFreeTest(m, a) <==> Spec.FreePred(s.blocks, a) in s.blocks
    ensures PrevFreeTest(m, a) ==>
              var p := a - m[a - 1] / 4;
              Spec.FreePred(s.blocks, a) == p && IsPred(s.blocks, p, a) && s.blocks[p].free
  {
    assert TagAt(m, s.blocks, a) && InBounds(s.blocks, s.lo, s.epi, a);
    if a == s.lo {
      PrevTestFirst(m, s, out);
    } else {
      assert HasPred(s.blocks, s.lo, a);
      var b :| IsPred(s.blocks, b, a);
      PrevTestInner(m, s, out, a, b);
      FreePredIs(s, out, a, b);
    }
  }

  predicate NextFreeTest(m: seq<Word>, a: int)
    requires 0 <= a < |m| && 0 <= a + BlockSize(m[a]) / 4 < |m|
  {
    var n := a + BlockSize(m[a]) / 4;
    n != HEAD && !IsAllocated(m[n]) && m[n] != 0
  }

  lemma {:induction false} NextTestAt(m: seq<Word>, s: State, a: int, n: int)
    requires a in s.blocks && TagAt(m, s.blocks, a) && n == End(s.blocks, a) && HEAD < n < |m|
    requires if n in s.blocks then TagAt(m, s.blocks, n) else m[n] == 1
    ensures n == a + BlockSize(m[a]) / 4
    ensures NextFreeTest(m, a) <==> Spec.FreeNext(s.blocks, a)
  {
    Decode(m[a], s.blocks[a]);
    if n in s.blocks {
      Decode(m[n], s.blocks[n]);
    }
  }

  /** The size word after block a says whether the block after it is free; behind the
      last block the test meets the epilogue. */
  lemma {:induction false} NextTest(m: seq<Word>, s: State, out: int, a: int)
    requires Inv(s, out) && Repr(m, s) && a in s.blocks
    ensures 0 <= a < |m| && HEAD < End(s.blocks, a) < |m|
    ensures a + BlockSize(m[a]) / 4 == End(s.blocks, a)
    ensures NextFreeTest(m, a) <==> Spec.FreeNext(s.blocks, a)
  {
    var n := End(s.blocks, a);
    assert TagAt(m, s.blocks, a);
    assert InBounds(s.blocks, s.lo, s.epi, a);
    assert HasNext(s.blocks, s.epi, a);
    assert n in s.blocks ==> TagAt(m, s.blocks, n);
    assert n !in s.blocks ==> n == s.epi && s.brk == s.epi + 1;
    NextTestAt(m, s, a, n);
  }

  /** The words of a list node that mm_init is still going to read. */
  ghost predicate IntactNode(m: seq<Word>, m': seq<Word>, a: int) {
    && |m'| == |m| && 0 <= a && a + HEADER <= |m|
    && m'[a] == m[a] && m'[a + NEXT] == m[a + NEXT]
  }

  lemma {:induction false} NodeInBlock(m: seq<Word>, m': seq<Word>, s: State, k: nat)
    requires Shape(s) && Tags(m, s.blocks) && Linked(m, s.ring) && 1 <= k < |s.ring|
    requires IntactNode(m, m', s.ring[k])
    ensures var a := s.ring[k];
            && a in s.blocks && HEAD < a && a + OVERHEAD <= End(s.blocks, a) <= |m|
            && BlockSize(m'[a]) == 4 * s.blocks[a].words
            && m'[a + NEXT] == Succ(s.ring, k)
            && (Succ(s.ring, k) == HEAD <==> k + 1 == |s.ring|)
  {
    var a := s.ring[k];
    assert LinkAt(m, s.ring, k);
    assert TagAt(m, s.blocks, a);
    assert InBounds(s.blocks, s.lo, s.epi, a);
    Decode(m[a], s.blocks[a]);
    if k + 1 < |s.ring| {
      assert InBounds(s.blocks, s.lo, s.epi, s.ring[k + 1]);
    }
  }

  lemma {:induction false} NodesStayIntact(m: seq<Word>, m1: seq<Word>, m2: seq<Word>, s: State, k: nat)
    requires Shape(s) && 1 <= k < |s.ring|
    requires |m1| == |m2| == |m| && End(s.blocks, s.ring[k]) <= |m|
    requires forall j :: k <= j < |s.ring| ==> IntactNode(m, m1, s.ring[j])
    requires forall i :: 0 <= i < |m| && !(s.ring[k] <= i < End(s.blocks, s.ring[k])) ==> m2[i] == m1[i]
    ensures forall j :: k < j < |s.ring| ==> IntactNode(m, m2, s.ring[j])
  {
    forall j | k < j < |s.ring|
      ensures IntactNode(m, m2, s.ring[j])
    {
      assert Differ(s.ring, j, k);
      assert InBounds(s.blocks, s.lo, s.epi, s.ring[j]);
      assert Apart(s.blocks, s.ring[j], s.ring[k]);
      assert IntactNode(m, m1, s.ring[j]);
    }
  }

  lemma {:induction false} BareRepr(m: seq<Word>, lo: int)
    requires HEAD + HEADER + 2 <= lo <= |m|
    requires m[HEAD + PREV] == HEAD && m[HEAD + NEXT] == HEAD
    requires m[lo - 2] == 9 && m[lo - 1] == 8
    ensures Repr(m, Spec.Bare(lo))
  {
    assert LinkAt(m, [HEAD], 0);
  }

  /** Memory that represents a heap in shape can be given to mm_init again. */
  lemma {:induction false} ReprWalkable(m: seq<Word>, s: State)
    requires Shape(s) && Repr(m, s)
    ensures s.epi <= s.brk <= |m| && s.lo <= s.epi && Tags(m, s.blocks) && Linked(m, s.ring)
  {
  }

  lemma {:induction false} LiveHeader(m: seq<Word>, s: State, a: int)
    requires Inv(s, NULL) && Repr(m, s) && a in s.live
    ensures 0 <= a < |m| && a in s.blocks
    ensures IsAllocated(m[a]) && BlockSize(m[a]) == 4 * s.blocks[a].words
  {
    assert IsAlloc(s.blocks, a);
    assert TagAt(m, s.blocks, a);
    Decode(m[a], s.blocks[a]);
  }

  /** When the heap can grow by the difference, the difference has not wrapped. */
  lemma {:induction false} ExtraFits(m: seq<Word>, s: State, a: int, w: int, max: int)
    requires Inv(s, NULL) && Repr(m, s) && a in s.blocks && 4 * max < TWO31 && max == |m|
    requires OVERHEAD <= w && 4 * w < TWO32 && Spec.ExtraBytes(s, a, w) > 16
    ensures s.brk + Spec.ExtraBytes(s, a, w) / 4 <= max ==> Spec.ExtraBytes(s, a, w) == 4 * w - 4 * s.blocks[a].words
    ensures Spec.ExtraBytes(s, a, w) % 4 == 0 && Spec.ExtraBytes(s, a, w) / 4 > OVERHEAD
  {
    assert InBounds(s.blocks, s.lo, s.epi, a);
    if w < s.blocks[a].words {
      assert Spec.ExtraBytes(s, a, w) == TWO32 - 4 * (s.blocks[a].words - w);
    }
  }

  lemma {:induction false} ExtendedBytes(m0: seq<Word>, m1: seq<Word>, m2: seq<Word>, s: State, t: State, a: int,
      last: int, n: nat)
    requires Inv(s, NULL) && Repr(m0, s) && Untouched(m0, m1, s.blocks)
    requires Spec.KeepsOthers(s, t, NULL) && a in s.live && n <= s.live[a] && IsPred(t.blocks, a, last)
    requires Untouched(m1, m2, t.blocks - {a})
    requires 0 <= a + HEADER <= last <= |m1| && |m2| == |m1|
    requires SameRange(m1, m2, a + HEADER, last)
    ensures Untouched(m0, m2, s.blocks - {a})
    ensures SameBytes(m0, a + HEADER, m2, a + HEADER, n)
  {
    PayloadRoom(m0, s, a);
    assert Spec.Kept(s, t, a);
    SameRangeBytes(m0, m1, a + HEADER, n);
    SameRangeBytes(m1, m2, a + HEADER, n);
    SameBytesTrans(m0, a + HEADER, m1, a + HEADER, m2, a + HEADER, n);
    UntouchedLess(m0, m1, s.blocks, a);
    forall d | IsAlloc(s.blocks - {a}, d)
      ensures IsAlloc(t.blocks - {a}, d) && t.blocks[d].words == s.blocks[d].words
    {
      assert IsAlloc(s.blocks, d);
      assert Spec.Kept(s, t, d);
    }
    UntouchedTrans(m0, m1, m2, s.blocks - {a}, t.blocks - {a});
  }

  lemma {:induction false} AbsorbedUntouched(m0: seq<Word>, m1: seq<Word>, m2: seq<Word>, s: State, a: int)
    requires Inv(s, NULL) && a in s.live && a in s.blocks && Spec.FreeNext(s.blocks, a)
    requires Untouched(m0, m1, s.blocks - {a})
    requires Untouched(m1, m2, Spec.Absorb(s, a, End(s.blocks, a)).blocks - {a})
    ensures Untouched(m0, m2, s.blocks - {a})
  {
    var bs := Spec.Absorb(s, a, End(s.blocks, a)).blocks;
    forall d | IsAlloc(s.blocks - {a}, d)
      ensures IsAlloc(bs - {a}, d) && bs[d].words == s.blocks[d].words
    {
      assert d != End(s.blocks, a);
    }
    UntouchedTrans(m0, m1, m2, s.blocks - {a}, bs - {a});
  }

  lemma {:induction false} ReprLinked(m: seq<Word>, s: State)
    requires Repr(m, s)
    ensures Linked(m, s.ring)
  {
  }

  lemma {:induction false} BrkInArena(m: seq<Word>, s: State)
    requires Repr(m, s)
    ensures 0 <= s.brk <= |m|
  {
  }

  lemma {:induction false} BlockTag(m: seq<Word>, s: State, out: int, a: int)
    requires Inv(s, out) && Repr(m, s) && a in s.blocks
    ensures TagAt(m, s.blocks, a) && Linked(m, s.ring)
  {
  }

  lemma {:induction false} SelfChangedIn(m: seq<Word>, ring: seq<int>, l: int, e: int)
    ensures ChangedIn(m, m, ring, l, e)
  {
  }

  lemma {:induction false} NextIsNotInHand(s: State, out: int, a: int)
    requires Inv(s, out) && a in s.blocks
    ensures a != NULL && End(s.blocks, a) != a && End(s.blocks, a) != NULL
  {
    assert InBounds(s.blocks, s.lo, s.epi, a);
  }

  lemma {:induction false} BlockInArena(m: seq<Word>, s: State, out: int, a: int)
    requires Inv(s, out) && Repr(m, s) && a in s.blocks
    ensures s.lo <= a && a + OVERHEAD <= End(s.blocks, a) <= |m|
    ensures 0 <= a
  {
    assert InBounds(s.blocks, s.lo, s.epi, a);
    assert TagAt(m, s.blocks, a);
  }

  lemma {:induction false} SameBytesLess(m: seq<Word>, p: int, m': seq<Word>, q: int, n: nat, k: nat)
    requires SameBytes(m, p, m', q, n) && k <= n
    ensures SameBytes(m, p, m', q, k)
  {
  }

  lemma {:induction false} UntouchedButTrans(m: seq<Word>, m': seq<Word>, m'': seq<Word>, bs: Blocks, a: int)
    requires Untouched(m, m', bs - {a}) && Untouched(m', m'', bs - {a})
    ensures Untouched(m, m'', bs - {a})
  {
    UntouchedTrans(m, m', m'', bs - {a}, bs - {a});
  }

  lemma {:induction false} ShrunkRepr(m: seq<Word>, m1: seq<Word>, m2: seq<Word>, s: State, a: int, w: int, size: nat)
    requires Inv(s, NULL) && Repr(m, s) && a in s.blocks && IsAlloc(s.blocks, a)
    requires OVERHEAD <= w && w + OVERHEAD <= s.blocks[a].words && size + 4 * OVERHEAD <= 4 * w
    requires SplitAt(m, m1, s, a, w) && Linked(m1, InsertAt(s.ring, 1, a + w))
    requires |m2| == |m1| && m2[a] == 4 * w + 1 && forall i :: 0 <= i < |m1| && i != a ==> m2[i] == m1[i]
    ensures Repr(m2, Spec.Shrink(s, a, w, size))
    ensures Untouched(m, m2, s.blocks - {a})
    ensures SameBytes(m, a + HEADER, m2, a + HEADER, size)
  {
    var t := Spec.Shrink(s, a, w, size);
    assert InBounds(s.blocks, s.lo, s.epi, a);
    NotOnRing(s, a, NULL);
    ShrunkLinks(m1, m2, s, a, w);
    CutNotLinks(s, a, w);
    assert TagAt(m2, t.blocks, a) && TagAt(m2, t.blocks, a + w);
    SplitElsewhere(m, m2, s, t, NULL, a, w);
    forall d | IsAlloc(s.blocks, d) && d != a
      ensures End(s.blocks, d) <= a || End(s.blocks, a) <= d
    {
      assert Apart(s.blocks, d, a);
    }
    OutsideUntouchedBut(m, m2, s, NULL, a, End(s.blocks, a), a);
    forall i | a + HEADER <= i < a + HEADER + WordsOf(size)
      ensures m2[i] == m[i]
    {
      if IsLinkCell(s.ring, i) {
        LinkCellsOf(s, NULL, s.ring, a, i);
      }
    }
    SameRangeBytes(m, m2, a + HEADER, size);
  }

  /** SET_ALLOCATED does not meet a link word, even with the new block on the list. */
  lemma {:induction false} ShrunkLinks(m: seq<Word>, m': seq<Word>, s: State, a: int, w: int)
    requires Inv(s, NULL) && a in s.blocks && OVERHEAD <= w && w + OVERHEAD <= s.blocks[a].words
    requires Linked(m, InsertAt(s.ring, 1, a + w)) && |m'| == |m|
    requires forall i :: 0 <= i < |m| && i != a ==> m'[i] == m[i]
    ensures Linked(m', InsertAt(s.ring, 1, a + w))
  {
    var r := InsertAt(s.ring, 1, a + w);
    TagNotLink(s, NULL, a);
    forall j | 0 <= j < |r|
      ensures r[j] + PREV != a && r[j] + NEXT != a
    {
      if j != 1 {
        var x := s.ring[if j < 1 then j else j - 1];
        assert x in s.ring;
        assert !IsLinkCell(s.ring, a);
      }
    }
    LinksKept(m, m', r);
  }

  lemma {:induction false} ExtendedRepr(m: seq<Word>, m1: seq<Word>, m2: seq<Word>, s: State, a: int, last: int,
      w: int, size: nat)
    requires Inv(s, NULL) && Repr(m, s) && IsAlloc(s.blocks, a) && IsPred(s.blocks, a, last)
    requires |s.ring| > 1 && s.ring[1] == last && last in s.blocks
    requires w == s.blocks[a].words + s.blocks[last].words
    requires |m1| == |m| && Linked(m1, RemoveAt(s.ring, 1))
    requires forall i :: 0 <= i < |m| && !IsLinkCell(s.ring, i) ==> m1[i] == m[i]
    requires 0 <= a < |m2| == |m1| && m2[a] == 4 * w + 1 && forall i :: 0 <= i < |m1| && i != a ==> m2[i] == m1[i]
    ensures Repr(m2, Spec.ExtendLast(s, a, last, w, size))
    ensures Untouched(m, m2, s.blocks - {a})
    ensures 0 <= a + HEADER <= last && SameRange(m, m2, a + HEADER, last)
  {
    var t, e := Spec.ExtendLast(s, a, last, w, size), End(s.blocks, last);
    assert InBounds(s.blocks, s.lo, s.epi, a) && InBounds(s.blocks, s.lo, s.epi, last);
    assert TagAt(m, s.blocks, last);
    NotOnRing(s, a, NULL);
    TagNotLink(s, NULL, last);
    RemoveAtKeeps(s.ring, 1);
    RingStart(s, NULL);
    OwnWritesKeepLinks(m1, m2, s, NULL, t.ring, a, a, a);
    assert TagAt(m2, t.blocks, a);
    forall d | d in t.blocks
      ensures TagAt(m2, t.blocks, d) ||
                (d in s.blocks && t.blocks[d] == s.blocks[d] && (End(s.blocks, d) <= a || e <= d))
    {
      assert Apart(s.blocks, d, a) && Apart(s.blocks, d, last);
    }
    RearrangedRepr(m, m2, s, t, NULL, a, e);
    forall d | IsAlloc(s.blocks, d) && d != a
      ensures End(s.blocks, d) <= a || End(s.blocks, a) <= d
    {
      assert Apart(s.blocks, d, a);
    }
    OutsideUntouchedBut(m, m2, s, NULL, a, last, a);
    forall i | a + HEADER <= i < last
      ensures m2[i] == m[i]
    {
      if IsLinkCell(s.ring, i) {
        LinkCellsOf(s, NULL, s.ring, a, i);
      }
    }
  }

  lemma {:induction false} UntouchedLess(m: seq<Word>, m': seq<Word>, bs: Blocks, a: int)
    requires Untouched(m, m', bs)
    ensures Untouched(m, m', bs - {a})
  {
    forall d | IsAlloc(bs - {a}, d)
      ensures 0 <= d <= End(bs, d) <= |m| && SameRange(m, m', d, End(bs, d))
    {
      assert IsAlloc(bs, d);
    }
  }

  /** The payload of a live block lies between its header and its footer. */
  lemma {:induction false} PayloadRoom(m: seq<Word>, s: State, a: int)
    requires Inv(s, NULL) && Repr(m, s) && a in s.live
    ensures a in s.blocks && IsAlloc(s.blocks, a) && 0 < a
    ensures s.lo <= a && a + HEADER + WordsOf(s.live[a]) <= End(s.blocks, a) - 1 < |m|
  {
    InvIsShape(s);
    ShapeRoom(m, s, a);
  }

  /** Footers do not matter for the place of a payload. */
  lemma {:induction false} ShapeRoom(m: seq<Word>, s: State, a: int)
    requires Shape(s) && Repr(m, s) && a in s.live
    ensures a in s.blocks && IsAlloc(s.blocks, a) && 0 < a
    ensures s.lo <= a && a + HEADER + WordsOf(s.live[a]) <= End(s.blocks, a) - 1 < |m|
  {
    assert InBounds(s.blocks, s.lo, s.epi, a);
    assert TagAt(m, s.blocks, a);
  }

  /** The new payload is clear of the old block. */
  lemma {:induction false} MovePlaces(m: seq<Word>, m': seq<Word>, s: State, t: State, p: int, q: int, size: Word,
      n: nat)
    requires Inv(s, NULL) && Inv(t, NULL) && Repr(m, s) && Repr(m', t) && Untouched(m, m', s.blocks)
    requires p - HEADER in s.live && q - HEADER !in s.live && t.live == s.live[q - HEADER := size]
    requires Spec.KeepsOthers(s, t, NULL) && n <= size && n <= s.live[p - HEADER]
    ensures q - HEADER in t.blocks && IsAlloc(t.blocks, q - HEADER)
    ensures 0 <= p && 0 <= q && q + WordsOf(size) <= End(t.blocks, q - HEADER) - 1 < |m'|
    ensures p + WordsOf(n) <= |m'|
    ensures p + WordsOf(n) <= q || q + WordsOf(size) <= p
    ensures p - HEADER in t.live && p - HEADER in t.blocks && p != NULL
    ensures SameBytes(m, p, m', p, n)
  {
    var a, b := p - HEADER, q - HEADER;
    PayloadRoom(m, s, a);
    PayloadRoom(m', t, b);
    assert Spec.Kept(s, t, a);
    PayloadRoom(m', t, a);
    assert Apart(t.blocks, a, b);
    assert WordsOf(n) <= WordsOf(s.live[a]);
    SameRangeBytes(m, m', p, n);
  }

  lemma {:induction false} MovedBytes(m0: seq<Word>, m1: seq<Word>, m2: seq<Word>, m3: seq<Word>, s: State,
      t: State, p: int, q: int, size: Word, n: nat)
    requires Inv(s, NULL) && Inv(t, NULL) && Repr(m0, s) && Repr(m1, t)
    requires p - HEADER in s.live && q - HEADER !in s.live && t.live == s.live[q - HEADER := size]
    requires Spec.KeepsOthers(s, t, NULL) && n <= size
    requires Untouched(m0, m1, s.blocks)
    requires |m2| == |m1| && forall i :: 0 <= i < |m1| && !(q <= i < q + WordsOf(size)) ==> m2[i] == m1[i]
    requires Untouched(m2, m3, t.blocks - {p - HEADER})
    requires SameBytes(m0, p, m1, p, n) && SameBytes(m1, p, m2, q, n)
    ensures SameBytes(m0, p, m3, q, n)
    ensures Untouched(m0, m3, s.blocks - {p - HEADER})
  {
    var a, b := p - HEADER, q - HEADER;
    PayloadRoom(m1, t, b);
    assert IsAlloc(t.blocks - {a}, b);
    SameRangeBytes(m2, m3, q, n);
    SameBytesTrans(m0, p, m1, p, m2, q, n);
    SameBytesTrans(m0, p, m2, q, m3, q, n);
    forall d | IsAlloc(s.blocks - {a}, d)
      ensures 0 <= d <= End(s.blocks, d) <= |m0| && SameRange(m0, m3, d, End(s.blocks, d))
    {
      assert IsAlloc(s.blocks, d);
      assert Spec.Kept(s, t, d);
      assert IsAlloc(t.blocks - {a}, d);
      assert Apart(t.blocks, d, b);
    }
  }

  lemma {:induction false} EnlistRoom(m: seq<Word>, s: State, a: int)
    requires a != NULL && Inv(s, a) && Repr(m, s)
    ensures 0 < a && a + HEADER <= |m| && Linked(m, s.ring)
    ensures forall j :: 0 <= j < |s.ring| ==> s.ring[j] + HEADER <= a || a + HEADER <= s.ring[j]
  {
    assert InBounds(s.blocks, s.lo, s.epi, a);
    assert TagAt(m, s.blocks, a);
    forall j | 0 <= j < |s.ring|
      ensures s.ring[j] + HEADER <= a || a + HEADER <= s.ring[j]
    {
      if j > 0 {
        assert InBounds(s.blocks, s.lo, s.epi, s.ring[j]);
        assert Apart(s.blocks, a, s.ring[j]);
      }
    }
  }

  lemma {:induction false} EnlistRepr(m: seq<Word>, m': seq<Word>, s: State, a: int)
    requires a != NULL && Inv(s, a) && Repr(m, s) && |m'| == |m|
    requires forall i :: 0 <= i < |m| && i != a + PREV && i != a + NEXT && !IsLinkCell(s.ring, i) ==> m'[i] == m[i]
    requires Linked(m', InsertAt(s.ring, 1, a))
    ensures Repr(m', Spec.Enlist(s, a))
    ensures Untouched(m, m', s.blocks)
  {
    var e := End(s.blocks, a);
    assert InBounds(s.blocks, s.lo, s.epi, a);
    assert TagAt(m, s.blocks, a);
    TagNotLink(s, a, a);
    forall d | d in s.blocks
      ensures TagAt(m', s.blocks, d) || (End(s.blocks, d) <= a || e <= d)
    {
      assert Apart(s.blocks, d, a);
    }
    RearrangedRepr(m, m', s, Spec.Enlist(s, a), a, a, e);
    FreeRangeUntouched(m, m', s, a, a, a, e);
  }

  lemma {:induction false} SelfUntouchedBut(m: seq<Word>, s: State, a: int)
    requires Repr(m, s)
    ensures Untouched(m, m, s.blocks - {a})
  {
    forall d | IsAlloc(s.blocks - {a}, d)
      ensures 0 <= d <= End(s.blocks, d) <= |m|
    {
      assert TagAt(m, s.blocks, d);
    }
  }

  lemma {:induction false} UntouchedRelease(m: seq<Word>, m': seq<Word>, m'': seq<Word>, s: State, a: int)
    requires a in s.blocks
    requires Untouched(m, m', s.blocks - {a}) && Untouched(m', m'', Spec.Release(s, a).blocks)
    ensures Untouched(m, m'', s.blocks - {a})
  {
    UntouchedTrans(m, m', m'', s.blocks - {a}, Spec.Release(s, a).blocks);
  }

  lemma {:induction false} UntouchedCoalesced(m: seq<Word>, m': seq<Word>, m'': seq<Word>, s: State, a: int)
    requires Spec.Ready(s) && a in s.live
    requires var t := Spec.Coalesce(Spec.Release(s, a), a).0;
             Untouched(m, m', s.blocks - {a}) && Untouched(m', m'', t.blocks)
    ensures Untouched(m, m'', s.blocks - {a})
  {
    Spec.ReleaseInv(s, a);
    Spec.CoalesceInv(Spec.Release(s, a), a, a);
    var t := Spec.Coalesce(Spec.Release(s, a), a).0;
    forall d | IsAlloc(s.blocks - {a}, d)
      ensures IsAlloc(t.blocks, d) && t.blocks[d].words == s.blocks[d].words
    {
      assert IsAlloc(Spec.Release(s, a).blocks, d);
    }
    UntouchedTrans(m, m', m'', s.blocks - {a}, t.blocks);
  }

  lemma {:induction false} UntouchedFree(m: seq<Word>, m': seq<Word>, bs: Blocks, a: int)
    requires Untouched(m, m', bs - {a}) && a in bs && bs[a].free
    ensures Untouched(m, m', bs)
  {
    forall d | IsAlloc(bs, d)
      ensures 0 <= d <= End(bs, d) <= |m| && SameRange(m, m', d, End(bs, d))
    {
      assert IsAlloc(bs - {a}, d);
    }
  }

  lemma {:induction false} UntouchedClaim(m: seq<Word>, m': seq<Word>, m'': seq<Word>, s: State, t: State, a: int,
      size: nat)
    requires Inv(s, NULL) && a != NULL && Inv(t, a) && a !in s.live
    requires Spec.KeepsOthers(s, Spec.Claim(t, a, size), NULL)
    requires Untouched(m, m', s.blocks) && Untouched(m', m'', t.blocks)
    requires Inv(Spec.Claim(t, a, size), NULL)
    ensures Untouched(m, m'', s.blocks)
  {
    forall d | IsAlloc(s.blocks, d)
      ensures IsAlloc(t.blocks, d) && t.blocks[d].words == s.blocks[d].words
    {
      assert Spec.Kept(s, Spec.Claim(t, a, size), d);
    }
    UntouchedTrans(m, m', m'', s.blocks, t.blocks);
  }

  lemma {:induction false} UntouchedExpand(m: seq<Word>, m': seq<Word>, m'': seq<Word>, s: State, t: State, n: int,
      max: int)
    requires Spec.Ready(s) && n > OVERHEAD && t == Spec.Expand(s, n, max).s
    requires Untouched(m, m', s.blocks) && Untouched(m', m'', t.blocks)
    ensures Untouched(m, m'', s.blocks)
  {
    Spec.ExpandInv(s, n, max);
    forall a | IsAlloc(s.blocks, a)
      ensures IsAlloc(t.blocks, a) && t.blocks[a].words == s.blocks[a].words
    {
      assert Spec.Kept(s, t, a);
    }
    UntouchedTrans(m, m', m'', s.blocks, t.blocks);
  }

  /** The word before brk is an epilogue except right after the prologue was placed. */
  lemma {:induction false} LastWordTest(m: seq<Word>, s: State)
    requires Inv(s, NULL) && Repr(m, s)
    ensures 0 < s.brk <= |m| && HEAD + HEADER <= s.epi <= s.brk
    ensures IsAllocated(m[s.brk - 1]) && BlockSize(m[s.brk - 1]) == 0 <==> s.brk == s.epi + 1
    ensures s.brk == s.epi + 1 || s.brk == s.epi
    ensures |s.ring| >= 1 && s.ring[0] == HEAD && Distinct(s.ring) && HEAD in s.ring && IndexOf(s.ring, HEAD) == 0
    ensures Linked(m, s.ring)
  {
    WithoutIsRemoveAt(s.ring, 0);
  }

  /** Linking the new block in leaves its tags alone. */
  lemma {:induction false} NewTagsStay(m1: seq<Word>, m2: seq<Word>, s: State, e: int)
    requires Inv(s, NULL) && |m1| == |m2| && s.epi + OVERHEAD <= e < |m1|
    requires m1[s.epi] == 4 * (e - s.epi) == m1[e - 1]
    requires forall i :: 0 <= i < |m1| && i != s.epi + PREV && i != s.epi + NEXT && !IsLinkCell(s.ring, i) ==>
               m2[i] == m1[i]
    ensures m2[s.epi] == 4 * (e - s.epi) == m2[e - 1]
    ensures BlockSize(m2[s.epi]) == 4 * (e - s.epi)
  {
    BordersNotLinks(s, NULL, s.epi);
    BordersNotLinks(s, NULL, e - 1);
    Decode(m1[s.epi], Block(e - s.epi, true, 0));
  }

  lemma {:induction false} NewBlockRepr(m: seq<Word>, m1: seq<Word>, m2: seq<Word>, m3: seq<Word>, s: State, n: int)
    requires Inv(s, NULL) && Repr(m, s) && n > OVERHEAD && s.brk + n <= |m|
    requires |m1| == |m2| == |m|
    requires var e := s.brk + n - 1;
             m2[s.epi] == 4 * (e - s.epi) == m2[e - 1] && m3 == m2[e := 1]
    requires forall i :: 0 <= i < s.epi ==> m1[i] == m[i]
    requires forall i :: 0 <= i < |m| && i != s.epi + PREV && i != s.epi + NEXT && !IsLinkCell(s.ring, i) ==>
               m2[i] == m1[i]
    requires Linked(m2, InsertAt(s.ring, 1, s.epi))
    ensures Repr(m3, Spec.Append(s, n))
    ensures Untouched(m, m3, s.blocks)
  {
    EpilogueKeepsLinks(m2, m3, s, s.brk + n - 1);
    AppendRepr(m, m3, s, n);
  }

  lemma {:induction false} EpilogueKeepsLinks(m: seq<Word>, m': seq<Word>, s: State, e: int)
    requires Inv(s, NULL) && Linked(m, InsertAt(s.ring, 1, s.epi)) && |m'| == |m| && e >= s.epi + HEADER
    requires forall i :: 0 <= i < |m| && i != e ==> m'[i] == m[i]
    ensures Linked(m', InsertAt(s.ring, 1, s.epi))
  {
    var r := InsertAt(s.ring, 1, s.epi);
    forall j | 0 <= j < |r|
      ensures r[j] <= s.epi
    {
      if 1 < j {
        assert InBounds(s.blocks, s.lo, s.epi, s.ring[j - 1]);
      }
    }
    LinksKept(m, m', r);
  }

  lemma {:induction false} UntouchedAlong(m: seq<Word>, m': seq<Word>, m'': seq<Word>, bs: Blocks, bs': Blocks)
    requires Untouched(m, m', bs) && Untouched(m', m'', bs') && Spec.SameAllocated(bs, bs')
    ensures Untouched(m, m'', bs)
  {
    UntouchedTrans(m, m', m'', bs, bs');
  }

  lemma {:induction false} AppendKeepsLinks(m: seq<Word>, m': seq<Word>, s: State)
    requires Inv(s, NULL) && Linked(m, s.ring) && |m'| == |m|
    requires forall i :: 0 <= i < |m| && m'[i] != m[i] ==> i >= s.epi
    ensures Linked(m', s.ring)
    ensures forall j :: 0 <= j < |s.ring| ==> s.ring[j] + HEADER <= s.epi
  {
    forall i | 0 <= i < |m| && m'[i] != m[i]
      ensures !IsLinkCell(s.ring, i)
    {
      BordersNotLinks(s, NULL, i);
    }
    LinksKept(m, m', s.ring);
    forall j | 0 <= j < |s.ring|
      ensures s.ring[j] + HEADER <= s.epi
    {
      if j > 0 {
        assert InBounds(s.blocks, s.lo, s.epi, s.ring[j]);
      }
    }
  }

  /** Memory after expand_heap has written the new block and the new epilogue. */
  lemma {:induction false} AppendRepr(m: seq<Word>, m': seq<Word>, s: State, n: int)
    requires Inv(s, NULL) && Repr(m, s) && n > OVERHEAD && s.brk + n <= |m| && |m'| == |m|
    requires forall i :: 0 <= i < s.epi && m'[i] != m[i] ==> IsLinkCell(s.ring, i)
    requires var t := Spec.Append(s, n);
             && TagAt(m', t.blocks, s.epi) && m'[t.epi] == 1 && Linked(m', t.ring)
    ensures Repr(m', Spec.Append(s, n))
    ensures Untouched(m, m', s.blocks)
  {
    var t := Spec.Append(s, n);
    BordersNotLinks(s, NULL, s.lo - 2);
    BordersNotLinks(s, NULL, s.lo - 1);
    forall d | d in t.blocks
      ensures TagAt(m', t.blocks, d)
    {
      if d != s.epi {
        assert InBounds(s.blocks, s.lo, s.epi, d);
        OutsideKept(m, m', s, NULL, s.epi, |m|, d);
      }
    }
    forall d | IsAlloc(s.blocks, d)
      ensures End(s.blocks, d) <= s.epi
    {
      assert InBounds(s.blocks, s.lo, s.epi, d);
    }
    OutsideUntouched(m, m', s, NULL, s.epi, |m|);
  }

  /** What a list walk reads at position k of the ring. */
  lemma {:induction false} RingReads(m: seq<Word>, s: State, k: nat)
    requires Inv(s, NULL) && Repr(m, s) && k < |s.ring|
    ensures 0 <= s.ring[k] && s.ring[k] + HEADER <= |m|
    ensures m[s.ring[k] + NEXT] == Succ(s.ring, k)
    ensures Succ(s.ring, k) == HEAD <==> k + 1 == |s.ring|
    ensures k > 0 ==> s.ring[k] in s.blocks && s.blocks[s.ring[k]].free && s.ring[k] != NULL
    ensures k > 0 ==> s.ring[k] in s.blocks && m[s.ring[k]] == 4 * s.blocks[s.ring[k]].words
                      && !IsAllocated(m[s.ring[k]]) && BlockSize(m[s.ring[k]]) == m[s.ring[k]]
  {
    assert LinkAt(m, s.ring, k);
    if k > 0 {
      assert InBounds(s.blocks, s.lo, s.epi, s.ring[k]);
      assert TagAt(m, s.blocks, s.ring[k]);
      Decode(m[s.ring[k]], s.blocks[s.ring[k]]);
    }
  }

  lemma {:induction false} SelfUntouched(m: seq<Word>, s: State)
    requires Repr(m, s)
    ensures Untouched(m, m, s.blocks)
  {
    forall a | IsAlloc(s.blocks, a)
      ensures 0 <= a <= End(s.blocks, a) <= |m|
    {
      assert TagAt(m, s.blocks, a);
    }
  }

  /** Inserting the new block behind block a and then removing a puts it in a's place. */
  lemma {:induction false} ReplaceInRing(s: State, k: nat, w: int)
    requires Inv(s, NULL) && 1 <= k < |s.ring|
    requires OVERHEAD <= w && w + OVERHEAD <= s.blocks[s.ring[k]].words
    ensures var a := s.ring[k]; var r := InsertAt(s.ring, k + 1, a + w);
            && Distinct(r) && AllApart(r) && Without(r, a) == s.ring[k := a + w]
            && a in r && r[0] == HEAD != a
            && forall i :: IsLinkCell(r, i) ==> IsLinkCell(s.ring, i) || i == a + w + PREV || i == a + w + NEXT
  {
    hide FootersOK, Distinct, AllApart, Without;
    var a := s.ring[k];
    var r := InsertAt(s.ring, k + 1, a + w);
    assert InBounds(s.blocks, s.lo, s.epi, a);
    SplitTiled(s.blocks, s.lo, s.epi, a, w);
    NotOnRing(s, a + w, NULL);
    InsertAtKeeps(s.ring, k + 1, a + w);
    RingApart(s, NULL);
    forall j | 0 <= j < |s.ring|
      ensures s.ring[j] + HEADER <= a + w || a + w + HEADER <= s.ring[j]
    {
      if j > 0 {
        assert InBounds(s.blocks, s.lo, s.epi, s.ring[j]);
        assert Apart(s.blocks, a, s.ring[j]);
      }
    }
    InsertApart(s.ring, k + 1, a + w);
    assert r[k] == a;
    WithoutIsRemoveAt(r, k);
  }

  /** A split of block a, seen from the other blocks. */
  lemma {:induction false} SplitElsewhere(m: seq<Word>, m': seq<Word>, s: State, t: State, out: int, a: int, w: int)
    requires Inv(s, out) && Repr(m, s) && a in s.blocks && OVERHEAD <= w && w + OVERHEAD <= s.blocks[a].words
    requires ChangedIn(m, m', s.ring, a, End(s.blocks, a))
    requires t == s.(blocks := t.blocks, ring := t.ring, live := t.live)
    requires t.blocks.Keys == Split(s.blocks, a, w).Keys
    requires forall d :: d in t.blocks && d != a && d != a + w ==> t.blocks[d] == s.blocks[d]
    requires TagAt(m', t.blocks, a) && TagAt(m', t.blocks, a + w) && Linked(m', t.ring)
    ensures Repr(m', t)
  {
    forall d | d in t.blocks
      ensures TagAt(m', t.blocks, d) ||
                (d in s.blocks && t.blocks[d] == s.blocks[d] && (End(s.blocks, d) <= a || End(s.blocks, a) <= d))
    {
      if d != a && d != a + w {
        assert Apart(s.blocks, d, a);
      }
    }
    assert InBounds(s.blocks, s.lo, s.epi, a);
    RearrangedRepr(m, m', s, t, out, a, End(s.blocks, a));
  }

  lemma {:induction false} TakeSplitRepr(m: seq<Word>, m1: seq<Word>, m2: seq<Word>, s: State, k: nat, w: int)
    requires Inv(s, NULL) && Repr(m, s) && 1 <= k < |s.ring|
    requires OVERHEAD <= w && w + OVERHEAD < s.blocks[s.ring[k]].words
    requires SplitAt(m, m1, s, s.ring[k], w) && |m2| == |m1|
    requires forall i :: 0 <= i < |m1| && !IsLinkCell(InsertAt(s.ring, k + 1, s.ring[k] + w), i) ==> m2[i] == m1[i]
    requires Linked(m2, s.ring[k := s.ring[k] + w])
    ensures Repr(m2, Spec.Take(s, k, w))
    ensures Untouched(m, m2, s.blocks)
  {
    hide SplitAt, Untouched;
    var a := s.ring[k];
    var t := Spec.Take(s, k, w);
    TakeSplitTags(m, m1, m2, s, k, w);
    SplitElsewhere(m, m2, s, t, NULL, a, w);
    FreeRangeUntouched(m, m2, s, NULL, a, a, End(s.blocks, a));
  }

  lemma {:induction false} TakeSplitTags(m: seq<Word>, m1: seq<Word>, m2: seq<Word>, s: State, k: nat, w: int)
    requires Inv(s, NULL) && 1 <= k < |s.ring|
    requires OVERHEAD <= w && w + OVERHEAD < s.blocks[s.ring[k]].words
    requires SplitAt(m, m1, s, s.ring[k], w) && |m2| == |m1|
    requires forall i :: 0 <= i < |m1| && !IsLinkCell(InsertAt(s.ring, k + 1, s.ring[k] + w), i) ==> m2[i] == m1[i]
    ensures ChangedIn(m, m2, s.ring, s.ring[k], End(s.blocks, s.ring[k]))
    ensures var t := Split(s.blocks, s.ring[k], w); TagAt(m2, t, s.ring[k]) && TagAt(m2, t, s.ring[k] + w)
  {
    hide Inv, Distinct, AllApart, Without, InsertAt;
    OnListBlock(s, k);
    ReplaceInRing(s, k, w);
    CutNotLinks(s, s.ring[k], w);
  }

  lemma {:induction false} OnListBlock(s: State, k: nat)
    requires Inv(s, NULL) && 1 <= k < |s.ring|
    ensures s.ring[k] in s.blocks && s.blocks[s.ring[k]].free
  {
  }

  lemma {:induction false} TakeWholeRepr(m: seq<Word>, m': seq<Word>, s: State, k: nat, w: int)
    requires Inv(s, NULL) && Repr(m, s) && 1 <= k < |s.ring| && |m'| == |m|
    requires s.blocks[s.ring[k]].words <= w + OVERHEAD
    requires forall i :: 0 <= i < |m| && !IsLinkCell(s.ring, i) ==> m'[i] == m[i]
    requires Linked(m', RemoveAt(s.ring, k))
    ensures Repr(m', Spec.Take(s, k, w))
    ensures Untouched(m, m', s.blocks)
  {
    RearrangedRepr(m, m', s, Spec.Take(s, k, w), NULL, s.lo, s.lo);
    OutsideUntouched(m, m', s, NULL, s.lo, s.lo);
  }

  /** Memory after the tags of the two parts of block a have been written. */
  ghost predicate Cut(m: seq<Word>, m': seq<Word>, a: int, w: int, e: int) {
    && |m'| == |m|
    && 0 <= a < a + w < e <= |m|
    && m'[a] == 4 * w && m'[a + w - 1] == 4 * w
    && m'[a + w] == 4 * (e - a - w) && m'[e - 1] == 4 * (e - a - w)
    && forall i :: 0 <= i < |m| && i != a && i != a + w - 1 && i != a + w && i != e - 1 ==> m'[i] == m[i]
  }

  lemma {:induction false} CutKeepsLinks(m: seq<Word>, m': seq<Word>, s: State, a: int, w: int)
    requires Inv(s, NULL) && a in s.blocks && Linked(m, s.ring)
    requires OVERHEAD <= w && w + OVERHEAD <= s.blocks[a].words
    requires Cut(m, m', a, w, End(s.blocks, a))
    ensures Linked(m', s.ring)
    ensures forall j :: 0 <= j < |s.ring| ==> s.ring[j] + HEADER <= a + w || a + w + HEADER <= s.ring[j]
  {
    assert InBounds(s.blocks, s.lo, s.epi, a);
    OwnWritesKeepLinks(m, m', s, NULL, s.ring, a, a, a);
    forall j | 0 <= j < |s.ring|
      ensures s.ring[j] + HEADER <= a + w || a + w + HEADER <= s.ring[j]
    {
      if j > 0 {
        assert InBounds(s.blocks, s.lo, s.epi, s.ring[j]);
        assert Apart(s.blocks, a, s.ring[j]);
      }
    }
  }

  /** Memory after split_block: the tags of both parts are in place, and apart from
      link words nothing else has changed. */
  ghost predicate SplitAt(m: seq<Word>, m': seq<Word>, s: State, a: int, w: int)
    requires a in s.blocks
  {
    var e := End(s.blocks, a);
    && |m'| == |m|
    && 0 <= a < a + w < e <= |m|
    && m'[a] == 4 * w && m'[a + w - 1] == 4 * w
    && m'[a + w] == 4 * (e - a - w) && m'[e - 1] == 4 * (e - a - w)
    && forall i :: 0 <= i < |m| && m'[i] != m[i] ==>
         || i == a || i == a + w - 1 || i == e - 1 || a + w <= i < a + w + HEADER
         || IsLinkCell(s.ring, i)
  }

  lemma {:induction false} CutNotLinks(s: State, a: int, w: int)
    requires Inv(s, NULL) && a in s.blocks && OVERHEAD <= w && w + OVERHEAD <= s.blocks[a].words
    ensures !IsLinkCell(s.ring, a) && !IsLinkCell(s.ring, a + w - 1)
    ensures !IsLinkCell(s.ring, a + w) && !IsLinkCell(s.ring, End(s.blocks, a) - 1)
  {
    TagNotLink(s, NULL, a);
    if IsLinkCell(s.ring, a + w - 1) {
      LinkCellsOf(s, NULL, s.ring, a, a + w - 1);
    }
    if IsLinkCell(s.ring, a + w) {
      LinkCellsOf(s, NULL, s.ring, a, a + w);
    }
  }

  /** The four outcomes of coalesce. */
  lemma {:induction false} CoalesceBranches(s: State, out: int, a: int)
    requires Inv(s, out) && a in s.blocks && s.blocks[a].free
    ensures var p, n := Spec.FreePred(s.blocks, a), End(s.blocks, a);
            Spec.Coalesce(s, a) ==
              if p in s.blocks && Spec.FreeNext(s.blocks, a) then (Spec.Absorb(Spec.Absorb(s, a, n), p, a), p)
              else if p in s.blocks then (Spec.Absorb(s, p, a), p)
              else if Spec.FreeNext(s.blocks, a) then (Spec.Absorb(s, a, n), a)
              else (s, a)
    ensures Spec.FreePred(s.blocks, a) in s.blocks ==> IsPred(s.blocks, Spec.FreePred(s.blocks, a), a)
  {
  }

  /** Allocated blocks lie outside a range that consists of a free block and free
      neighbours of it. */
  lemma {:induction false} FreeRangeUntouched(m: seq<Word>, m': seq<Word>, s: State, out: int, a: int, l: int, e: int)
    requires Inv(s, out) && Repr(m, s) && a in s.blocks && s.blocks[a].free
    requires ChangedIn(m, m', s.ring, l, e)
    requires l == a || (IsPred(s.blocks, l, a) && s.blocks[l].free)
    requires e == End(s.blocks, a) || (Spec.FreeNext(s.blocks, a) && e == End(s.blocks, End(s.blocks, a)))
    ensures Untouched(m, m', s.blocks)
  {
    forall d | IsAlloc(s.blocks, d)
      ensures End(s.blocks, d) <= l || e <= d
    {
      assert Apart(s.blocks, d, a) && Apart(s.blocks, d, l);
      assert End(s.blocks, a) in s.blocks ==> Apart(s.blocks, d, End(s.blocks, a));
    }
    OutsideUntouched(m, m', s, out, l, e);
  }

  /** Memory after block x, which ended at y, has been given the words up to e. */
  ghost predicate Grown(m: seq<Word>, m': seq<Word>, x: int, y: int, e: int, free: bool) {
    && |m'| == |m|
    && 0 <= x < y < e <= |m|
    && m'[x] == Header(Block(e - x, free, 0))
    && m'[y - 1] == 0 && m'[e - 1] == 4 * (e - x)
    && forall i :: 0 <= i < |m| && i != x && i != y - 1 && i != e - 1 ==> m'[i] == m[i]
  }

  /** Memory after clear_block of y. */
  ghost predicate Cleared(m: seq<Word>, m': seq<Word>, y: int, e: int) {
    && |m'| == |m|
    && forall i :: 0 <= i < |m| ==> m'[i] == if y <= i < y + HEADER || i == e - 1 then 0 else m[i]
  }

  lemma {:induction false} GrownKeepsLinks(m: seq<Word>, m': seq<Word>, s: State, out: int, x: int, y: int, z: int)
    requires Inv(s, out) && Linked(m, s.ring) && IsPred(s.blocks, x, y) && z in s.blocks
    requires Grown(m, m', x, y, End(s.blocks, z), s.blocks[x].free)
    ensures Linked(m', s.ring)
  {
    TagNotLink(s, out, x);
    TagNotLink(s, out, z);
    LinksKept(m, m', s.ring);
  }

  lemma {:induction false} ClearedKeepsLinks(m: seq<Word>, m': seq<Word>, s: State, out: int, ring: seq<int>, y: int)
    requires Inv(s, out) && y in s.blocks && y !in ring && Linked(m, ring)
    requires forall x :: x in ring ==> x in s.ring
    requires Cleared(m, m', y, End(s.blocks, y))
    ensures Linked(m', ring)
  {
    assert InBounds(s.blocks, s.lo, s.epi, y);
    forall i | 0 <= i < |m| && m'[i] != m[i]
      ensures !IsLinkCell(ring, i)
    {
      if IsLinkCell(ring, i) {
        LinkCellsOf(s, out, ring, y, i);
      }
    }
    LinksKept(m, m', ring);
  }

  lemma {:induction false} AbsorbedRepr(m: seq<Word>, m1: seq<Word>, m2: seq<Word>, m3: seq<Word>, s: State,
      out: int, x: int, y: int)
    requires Inv(s, out) && Repr(m, s) && IsPred(s.blocks, x, y) && y in s.blocks
    requires Grown(m, m1, x, y, End(s.blocks, y), s.blocks[x].free)
    requires |m2| == |m1| && Linked(m2, Without(s.ring, y))
    requires forall i :: 0 <= i < |m1| && !IsLinkCell(s.ring, i) ==> m2[i] == m1[i]
    requires Cleared(m2, m3, y, End(s.blocks, y))
    ensures Repr(m3, Spec.Absorb(s, x, y))
    ensures ChangedIn(m, m3, s.ring, x, End(s.blocks, y))
    ensures !s.blocks[x].free ==> SameRange(m, m3, x + 1, y - 1)
  {
    var t := Spec.Absorb(s, x, y);
    assert InBounds(s.blocks, s.lo, s.epi, x) && InBounds(s.blocks, s.lo, s.epi, y);
    WithoutKeeps(s.ring, y);
    ClearedKeepsLinks(m2, m3, s, out, t.ring, y);
    TagNotLink(s, out, x);
    assert TagAt(m3, t.blocks, x);
    AbsorbedElsewhere(m, m3, s, t, out, x, y);
    if !s.blocks[x].free {
      NotOnRing(s, x, out);
      forall i | x + 1 <= i < y - 1
        ensures m3[i] == m[i]
      {
        if IsLinkCell(s.ring, i) {
          LinkCellsOf(s, out, s.ring, x, i);
        }
      }
    }
  }

  lemma {:induction false} AbsorbedElsewhere(m: seq<Word>, m': seq<Word>, s: State, t: State, out: int, x: int, y: int)
    requires Inv(s, out) && Repr(m, s) && IsPred(s.blocks, x, y) && y in s.blocks
    requires t == Spec.Absorb(s, x, y)
    requires ChangedIn(m, m', s.ring, x, End(s.blocks, y))
    requires TagAt(m', t.blocks, x) && Linked(m', t.ring)
    ensures Repr(m', t)
  {
    forall d | d in t.blocks
      ensures TagAt(m', t.blocks, d) ||
                (d in s.blocks && t.blocks[d] == s.blocks[d] && (End(s.blocks, d) <= x || End(s.blocks, y) <= d))
    {
      assert Apart(s.blocks, d, x) && Apart(s.blocks, d, y);
    }
    assert InBounds(s.blocks, s.lo, s.epi, x) && InBounds(s.blocks, s.lo, s.epi, y);
    RearrangedRepr(m, m', s, t, out, x, End(s.blocks, y));
  }

  lemma {:induction false} UnlistedTags(m: seq<Word>, m1: seq<Word>, m2: seq<Word>, m3: seq<Word>,
                     s: State, out: int, p: int, a: int, n: int)
    requires Inv(s, out) && Repr(m, s)
    requires IsPred(s.blocks, p, a) && IsPred(s.blocks, a, n) && a in s.blocks && n in s.blocks
    requires Grown(m, m1, p, a, End(s.blocks, n), s.blocks[p].free)
    requires |m2| == |m1| == |m3|
    requires forall i :: 0 <= i < |m1| && !IsLinkCell(s.ring, i) ==> m2[i] == m1[i]
    requires forall i :: 0 <= i < |m2| && !IsLinkCell(Without(s.ring, n), i) ==> m3[i] == m2[i]
    ensures forall i :: 0 <= i < |m1| && !IsLinkCell(s.ring, i) ==> m3[i] == m1[i]
    ensures HEADER <= a < n < |m| && End(s.blocks, n) <= |m|
    ensures a + OVERHEAD <= n && n + OVERHEAD <= End(s.blocks, n)
    ensures BlockSize(m3[a]) == 4 * (n - a) && BlockSize(m3[n]) == 4 * (End(s.blocks, n) - n)
  {
    WithoutKeeps(s.ring, n);
    assert TagAt(m, s.blocks, a) && TagAt(m, s.blocks, n);
    assert InBounds(s.blocks, s.lo, s.epi, a) && InBounds(s.blocks, s.lo, s.epi, n);
    TagNotLink(s, out, a);
    TagNotLink(s, out, n);
    Decode(m[a], s.blocks[a]);
    Decode(m[n], s.blocks[n]);
  }

  lemma {:induction false} BothRepr(m: seq<Word>, m1: seq<Word>, m3: seq<Word>, m4: seq<Word>, m5: seq<Word>,
                 s: State, out: int, p: int, a: int, n: int)
    requires Inv(s, out) && Repr(m, s)
    requires IsPred(s.blocks, p, a) && IsPred(s.blocks, a, n) && a in s.blocks && n in s.blocks
    requires Grown(m, m1, p, a, End(s.blocks, n), s.blocks[p].free)
    requires |m3| == |m1| && Linked(m3, Without(Without(s.ring, n), a))
    requires forall i :: 0 <= i < |m1| && !IsLinkCell(s.ring, i) ==> m3[i] == m1[i]
    requires Cleared(m3, m4, n, End(s.blocks, n)) && Cleared(m4, m5, a, n)
    requires s.blocks[n].free
    ensures Repr(m5, Spec.Absorb(Spec.Absorb(s, a, n), p, a))
    ensures ChangedIn(m, m5, s.ring, p, End(s.blocks, n))
  {
    var t := Spec.Absorb(Spec.Absorb(s, a, n), p, a);
    assert InBounds(s.blocks, s.lo, s.epi, p) && InBounds(s.blocks, s.lo, s.epi, a)
        && InBounds(s.blocks, s.lo, s.epi, n);
    WithoutKeeps(s.ring, n);
    WithoutKeeps(Without(s.ring, n), a);
    ClearedKeepsLinks(m3, m4, s, out, t.ring, n);
    ClearedKeepsLinks(m4, m5, s, out, t.ring, a);
    TagNotLink(s, out, p);
    assert TagAt(m5, t.blocks, p);
    forall d | d in t.blocks
      ensures TagAt(m5, t.blocks, d) ||
                (d in s.blocks && t.blocks[d] == s.blocks[d] && (End(s.blocks, d) <= p || End(s.blocks, n) <= d))
    {
      assert Apart(s.blocks, d, p) && Apart(s.blocks, d, a) && Apart(s.blocks, d, n);
    }
    RearrangedRepr(m, m5, s, t, out, p, End(s.blocks, n));
  }
}
