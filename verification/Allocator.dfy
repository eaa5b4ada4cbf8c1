/** The allocator on memory words: mm.c over memlib.c, method by method. */
module Allocator {
  import opened Basics
  import opened HeapState
  import opened Words
  import opened HeapMemory
  import opened HeapSteps
  import Spec = AllocatorSpec

  class Heap {
    /** The arena, and outside the heap the list head. */
    const mem: array<Word>
    /** mem_start_brk and mem_brk, in words; mem_max_addr is mem.Length. */
    const start: int
    var brk: int
    ghost var s: State

    /** What an operation may rely on halfway: `out` is the free block in hand. */
    ghost predicate Holds(out: int)
      reads this, mem
    {
      && 4 * mem.Length < TWO31
      && Inv(s, out)
      && Repr(mem[..], s)
      && s.brk == brk
    }

    /** Between operations, after mm_init. */
    ghost predicate Valid()
      reads this, mem
    {
      Holds(NULL) && Spec.Ready(s)
    }

    /** After any outcome of mm_realloc: all but the footers is as it should be. */
    ghost predicate Shaped()
      reads this, mem
    {
      && 4 * mem.Length < TWO31
      && Shape(s) && s.brk == s.epi + 1
      && Repr(mem[..], s) && s.brk == brk
    }

    /** What mm_init needs of the memory an earlier run has left: the list can be
        walked and its blocks cleared. Footers may hold anything, and brk may be anywhere
        in the arena. */
    ghost predicate Walkable()
      reads this, mem
    {
      && 4 * mem.Length < TWO31
      && HEAD + HEADER <= start <= brk <= mem.Length
      && Shape(s) && s.epi <= mem.Length
      && Tags(mem[..], s.blocks) && Linked(mem[..], s.ring)
    }

    /** mem_init, and the static initialiser of head. What the arena holds is
        arbitrary. */
    constructor (start: int, arena: array<Word>)
      requires HEAD + HEADER <= start && start + 2 <= arena.Length && 4 * arena.Length < TWO31
      requires arena[HEAD] == 0 && arena[HEAD + PREV] == HEAD && arena[HEAD + NEXT] == HEAD
      ensures mem == arena && this.start == start && brk == start
      ensures Walkable()
    {
      mem, this.start, brk := arena, start, start;
      s := Spec.Bare(start + 2);
      Spec.BareInv(start + 2, arena.Length);
      InvIsShape(Spec.Bare(start + 2));
      new;
    }

    // ---------- memlib ----------

    method MemResetBrk()
      requires Walkable()
      modifies `brk
      ensures Walkable() && brk == start
    {
      brk := start;
    }

    /** mem_sbrk: -1 if the argument, read as a signed number, is negative, or if
        the heap would not fit the arena. */
    method Sbrk(incr: Word) returns (r: int)
      requires incr % 4 == 0
      requires 0 <= brk <= mem.Length && 4 * mem.Length < TWO31
      modifies this`brk
      ensures brk <= mem.Length
      ensures if old(brk) + incr / 4 <= mem.Length
              then r == old(brk) && brk == old(brk) + incr / 4
              else r == -1 && brk == old(brk)
    {
      if incr >= TWO31 || brk + incr / 4 > mem.Length {
        return -1;
      }
      r := brk;
      brk := brk + incr / 4;
    }

    // ---------- words and links ----------

    /** FOOTER */
    function Footer(block: int): int
      requires 0 <= block < mem.Length
      reads mem
    {
      block + BlockSize(mem[block]) / 4 - 1
    }

    method ClearBlock(block: int)
      requires 0 <= block && block + HEADER <= mem.Length
      requires BlockSize(mem[block]) >= 4 * OVERHEAD && Footer(block) < mem.Length
      modifies mem
      ensures forall i :: 0 <= i < mem.Length ==>
                mem[i] == if block <= i < block + HEADER || i == old(Footer(block)) then 0 else old(mem[i])
    {
      mem[Footer(block)] := 0;
      mem[block] := 0;
      mem[block + PREV] := NULL;
      mem[block + NEXT] := NULL;
    }

    method RemoveFromList(block: int, ghost ring: seq<int>)
      requires Linked(mem[..], ring) && AllApart(ring) && Distinct(ring)
      requires block in ring && block != ring[0]
      modifies mem
      ensures Linked(mem[..], Without(ring, block))
      ensures forall i :: 0 <= i < mem.Length && !IsLinkCell(ring, i) ==> mem[i] == old(mem[i])
    {
      ghost var m := mem[..];
      ghost var k := IndexOf(ring, block);
      Neighbours(m, ring, k);
      Neighbours(m, ring, k - 1);
      assert NodesApart(ring, k - 1, After(ring, k));
      mem[mem[block + PREV] + NEXT] := mem[block + NEXT];
      mem[mem[block + NEXT] + PREV] := mem[block + PREV];
      UnlinkOK(m, mem[..], ring, k);
    }

    method InsertToList(block: int, prevBlock: int, ghost ring: seq<int>)
      requires Linked(mem[..], ring) && AllApart(ring) && Distinct(ring)
      requires 0 < block && block + HEADER <= mem.Length && 4 * mem.Length < TWO31
      requires forall j :: 0 <= j < |ring| ==> ring[j] + HEADER <= block || block + HEADER <= ring[j]
      requires prevBlock in ring
      modifies mem
      ensures Linked(mem[..], InsertAt(ring, IndexOf(ring, prevBlock) + 1, block))
      ensures forall i :: 0 <= i < mem.Length && i != block + PREV && i != block + NEXT && !IsLinkCell(ring, i)
                ==> mem[i] == old(mem[i])
    {
      ghost var m := mem[..];
      ghost var k := IndexOf(ring, prevBlock);
      Neighbours(m, ring, k);
      mem[block + PREV] := prevBlock;
      mem[block + NEXT] := mem[prevBlock + NEXT];
      mem[mem[prevBlock + NEXT] + PREV] := block;
      mem[prevBlock + NEXT] := block;
      LinkInOK(m, mem[..], ring, k, block);
    }
  
    // ---------- coalesce ----------

    /** remove_from_list for a free block of state st. */
    method Unlist(y: int, ghost st: State, ghost out: int)
      requires Inv(st, out) && y in st.blocks && st.blocks[y].free && y != out
      requires Linked(mem[..], st.ring)
      modifies mem
      ensures Linked(mem[..], Without(st.ring, y))
      ensures forall i :: 0 <= i < mem.Length && !IsLinkCell(st.ring, i) ==> mem[i] == old(mem[i])
    {
      RingApart(st, out);
      Spec.OnRing(st, y, out);
      RemoveFromList(y, st.ring);
    }

    /** The size of y is added to the size of x and the footer moves behind y. */
    method GrowOver(x: int, y: int, ghost bs: Blocks)
      requires IsPred(bs, x, y) && y in bs && bs[y].free && TagAt(mem[..], bs, x) && TagAt(mem[..], bs, y)
      requires 4 * mem.Length < TWO31
      modifies mem
      ensures Grown(old(mem[..]), mem[..], x, y, End(bs, y), bs[x].free)
    {
      Decode(mem[x], bs[x]);
      Decode(mem[y], bs[y]);
      mem[Footer(x)] := 0;
      mem[x] := mem[x] + BlockSize(mem[y]);
      Decode(mem[x], Merge(bs, x, y)[x]);
      mem[Footer(x)] := BlockSize(mem[x]);
    }

    /** The one-sided merges of coalesce and mm_realloc: block x takes over y, its
        neighbour, which is unlinked if it is on the list. clear_block ends by
        zeroing the word that has just received the merged footer. */
    method AbsorbBlock(x: int, y: int, onList: bool, ghost out: int)
      requires Holds(out)
      requires IsPred(s.blocks, x, y) && y in s.blocks && s.blocks[y].free && onList == (y != out)
      modifies mem
      ensures Repr(mem[..], Spec.Absorb(s, x, y))
      ensures ChangedIn(old(mem[..]), mem[..], s.ring, x, End(s.blocks, y))
      ensures !s.blocks[x].free ==> SameRange(old(mem[..]), mem[..], x + 1, y - 1)
    {
      ghost var m := mem[..];
      assert TagAt(m, s.blocks, x) && TagAt(m, s.blocks, y);
      GrowOver(x, y, s.blocks);
      ghost var m1 := mem[..];
      GrownKeepsLinks(m, m1, s, out, x, y, y);
      if onList {
        Unlist(y, s, out);
      } else {
        NotOnRing(s, y, out);
      }
      ghost var m2 := mem[..];
      assert InBounds(s.blocks, s.lo, s.epi, y);
      TagNotLink(s, out, y);
      Decode(mem[y], s.blocks[y]);
      ClearBlock(y);
      AbsorbedRepr(m, m1, m2, mem[..], s, out, x, y);
    }

    /** coalesce's tests on the words around a block. */
    method LookAround(block: int, ghost out: int)
      returns (prevBlock: int, nextBlock: int, prevFree: bool, nextFree: bool)
      requires Holds(out) && block in s.blocks
      ensures block != NULL && nextBlock == End(s.blocks, block) && nextBlock != NULL && nextBlock != block
      ensures prevFree <==> Spec.FreePred(s.blocks, block) in s.blocks
      ensures prevFree ==>
                && prevBlock == Spec.FreePred(s.blocks, block)
                && IsPred(s.blocks, prevBlock, block) && s.blocks[prevBlock].free
      ensures nextFree <==> Spec.FreeNext(s.blocks, block)
    {
      hide Inv, Repr, Spec.FreePred, Spec.FreeNext;
      ghost var m := mem[..];
      PrevTest(m, s, out, block);
      NextTest(m, s, out, block);
      NextIsNotInHand(s, out, block);
      nextBlock := block + BlockSize(mem[block]) / 4;
      var prevBlockSize := mem[block - 1];
      prevBlock := block - prevBlockSize / 4;
      prevFree := prevBlockSize > 0 && prevBlock != HEAD && !IsAllocated(mem[prevBlock]) && mem[prevBlock] != 0;
      nextFree := nextBlock != HEAD && !IsAllocated(mem[nextBlock]) && mem[nextBlock] != 0;
      assert prevFree == PrevFreeTest(m, block) && nextFree == NextFreeTest(m, block);
    }

    method Coalesce(block: int, fromAllocated: bool) returns (r: int)
      requires Holds(if fromAllocated then block else NULL)
      requires block in s.blocks && s.blocks[block].free
      modifies mem, `s
      ensures (s, r) == Spec.Coalesce(old(s), block)
      ensures Holds(if fromAllocated && r == block then block else NULL)
      ensures Untouched(old(mem[..]), mem[..], old(s).blocks)
    {
      hide Inv, Repr, Untouched, ChangedIn, Spec.Coalesce, Spec.FreePred, Spec.Absorb;
      ghost var m, out := mem[..], if fromAllocated then block else NULL;
      var prevBlock, nextBlock, prevFree, nextFree := LookAround(block, out);
      Spec.CoalesceInv(s, block, out);
      CoalesceBranches(s, out, block);
      ghost var l, e := block, nextBlock;
      if prevFree && nextFree {
        l, e := prevBlock, End(s.blocks, nextBlock);
        MergeBoth(prevBlock, block, nextBlock, fromAllocated);
        r := prevBlock;
      } else if prevFree {
        l := prevBlock;
        AbsorbBlock(prevBlock, block, !fromAllocated, out);
        r := prevBlock;
      } else if nextFree {
        e := End(s.blocks, nextBlock);
        AbsorbBlock(block, nextBlock, true, out);
        r := block;
      } else {
        SelfChangedIn(m, s.ring, l, e);
        r := block;
      }
      FreeRangeUntouched(m, mem[..], s, out, block, l, e);
      s := Spec.Coalesce(s, block).0;
    }

    /** The merge of coalesce with both neighbours. */
    method MergeBoth(prevBlock: int, block: int, nextBlock: int, fromAllocated: bool)
      requires Holds(if fromAllocated then block else NULL)
      requires block in s.blocks && s.blocks[block].free
      requires IsPred(s.blocks, prevBlock, block) && s.blocks[prevBlock].free
      requires IsPred(s.blocks, block, nextBlock) && nextBlock in s.blocks && s.blocks[nextBlock].free
      modifies mem
      ensures Repr(mem[..], Spec.Absorb(Spec.Absorb(s, block, nextBlock), prevBlock, block))
      ensures ChangedIn(old(mem[..]), mem[..], s.ring, prevBlock, End(s.blocks, nextBlock))
    {
      hide Inv, Repr;
      ghost var m, out := mem[..], if fromAllocated then block else NULL;
      BlockTag(m, s, out, prevBlock);
      BlockTag(m, s, out, block);
      BlockTag(m, s, out, nextBlock);
      GrowOverBoth(prevBlock, block, nextBlock, s.blocks);
      ghost var m1 := mem[..];
      GrownKeepsLinks(m, m1, s, out, prevBlock, block, nextBlock);
      Unlist(nextBlock, s, out);
      ghost var m2 := mem[..];
      Spec.AbsorbInv(s, block, nextBlock, out);
      ghost var t := Spec.Absorb(s, block, nextBlock);
      if !fromAllocated {
        Unlist(block, t, out);
      } else {
        NotOnRing(t, block, out);
      }
      ghost var m3 := mem[..];
      UnlistedTags(m, m1, m2, m3, s, out, prevBlock, block, nextBlock);
      ClearBlock(nextBlock);
      ghost var m4 := mem[..];
      ClearBlock(block);
      BothRepr(m, m1, m3, m4, mem[..], s, out, prevBlock, block, nextBlock);
    }

    method GrowOverBoth(x: int, y: int, z: int, ghost bs: Blocks)
      requires IsPred(bs, x, y) && y in bs && bs[y].free && TagAt(mem[..], bs, x) && TagAt(mem[..], bs, y)
      requires IsPred(bs, y, z) && z in bs && bs[z].free && bs[x].free && TagAt(mem[..], bs, z)
      requires 4 * mem.Length < TWO31
      modifies mem
      ensures Grown(old(mem[..]), mem[..], x, y, End(bs, z), bs[x].free)
    {
      Decode(mem[x], bs[x]);
      Decode(mem[y], bs[y]);
      Decode(mem[z], bs[z]);
      mem[Footer(x)] := 0;
      mem[x] := mem[x] + (BlockSize(mem[y]) + BlockSize(mem[z]));
      Decode(mem[x], Block(bs[x].words + bs[y].words + bs[z].words, true, 0));
      mem[Footer(x)] := BlockSize(mem[x]);
    }

    // ---------- find_fit ----------

    /** Writes the tags of the two parts. */
    method CutTags(block: int, size: Word, ghost bs: Blocks) returns (newBlock: int)
      requires block in bs && TagAt(mem[..], bs, block) && 4 * mem.Length < TWO31
      requires size % 4 == 0 && OVERHEAD <= size / 4 && size / 4 + OVERHEAD <= bs[block].words
      modifies mem
      ensures newBlock == block + size / 4
      ensures Cut(old(mem[..]), mem[..], block, size / 4, End(bs, block))
    {
      hide BlockSize, SetFree;
      Decode(mem[block], bs[block]);
      ghost var w, rest := size / 4, bs[block].words - size / 4;
      assert size == 4 * w;
      PlainSize(w);
      PlainSize(rest);
      newBlock := block + size / 4;
      mem[newBlock] := BlockSize(mem[block]) - size;
      mem[Footer(newBlock)] := BlockSize(mem[newBlock]);
      mem[newBlock] := SetFree(mem[newBlock]);
      mem[block] := size;
      mem[Footer(block)] := size;
    }

    /** Cuts the block after `size` bytes and puts the new free block on the list:
        behind the block itself, or at the front. */
    method SplitBlock(block: int, size: Word, fromAllocated: bool)
      requires Holds(NULL) && block in s.blocks && fromAllocated == !s.blocks[block].free
      requires size % 4 == 0 && OVERHEAD <= size / 4 && size / 4 + OVERHEAD <= s.blocks[block].words
      modifies mem
      ensures SplitAt(old(mem[..]), mem[..], s, block, size / 4)
      ensures Linked(mem[..],
                InsertAt(s.ring, if fromAllocated then 1 else IndexOf(s.ring, block) + 1, block + size / 4))
    {
      hide Inv, Repr, Linked, AllApart, Distinct;
      ghost var m := mem[..];
      BlockTag(m, s, NULL, block);
      RingStart(s, NULL);
      var newBlock := CutTags(block, size, s.blocks);
      ghost var m1 := mem[..];
      CutKeepsLinks(m, m1, s, block, size / 4);
      RingApart(s, NULL);
      if fromAllocated {
        InsertToList(newBlock, HEAD, s.ring);
      } else {
        Spec.OnRing(s, block, NULL);
        InsertToList(newBlock, block, s.ring);
      }
      CutNotLinks(s, block, size / 4);
    }

    /** What find_fit does once it has found a block that is large enough. */
    method TakeBlock(block: int, size: Word, ghost k: nat)
      requires Holds(NULL) && 1 <= k < |s.ring| && block == s.ring[k]
      requires size % 4 == 0 && OVERHEAD <= size / 4 <= s.blocks[block].words
      modifies mem, `s
      ensures s == Spec.Take(old(s), k, size / 4)
      ensures Holds(block)
      ensures Untouched(old(mem[..]), mem[..], old(s).blocks)
    {
      hide Inv, Repr, Untouched, Linked, AllApart, Distinct;
      ghost var m, w := mem[..], size / 4;
      RingReads(m, s, k);
      RingStart(s, NULL);
      BlockTag(m, s, NULL, block);
      Decode(mem[block], s.blocks[block]);
      Spec.TakeInv(s, k, w);
      RingApart(s, NULL);
      WithoutIsRemoveAt(s.ring, k);
      if BlockSize(mem[block]) > (size + 16) % TWO32 {
        SplitBlock(block, size, false);
        CutFromList(m, block, k, w);
      } else {
        RemoveFromList(block, s.ring);
        TakeWholeRepr(m, mem[..], s, k, w);
      }
      s := Spec.Take(s, k, w);
    }

    /** remove_from_list of a block that has just been split. */
    method CutFromList(ghost m: seq<Word>, block: int, ghost k: nat, ghost w: int)
      requires Inv(s, NULL) && Repr(m, s) && 1 <= k < |s.ring| && block == s.ring[k]
      requires OVERHEAD <= w && w + OVERHEAD < s.blocks[block].words
      requires SplitAt(m, mem[..], s, block, w) && Linked(mem[..], InsertAt(s.ring, k + 1, block + w))
      modifies mem
      ensures Repr(mem[..], Spec.Take(s, k, w))
      ensures Untouched(m, mem[..], s.blocks)
    {
      hide *;
      ghost var m1 := mem[..];
      ReplaceInRing(s, k, w);
      RemoveFromList(block, InsertAt(s.ring, k + 1, block + w));
      TakeSplitRepr(m, m1, mem[..], s, k, w);
    }

    method FindFit(size: Word) returns (block: int)
      requires Valid() && size % 4 == 0 && OVERHEAD <= size / 4
      modifies mem, `s
      ensures var k := Spec.FirstFit(old(s), size / 4, 1);
              if k == |old(s).ring| then block == NULL && s == old(s) && mem[..] == old(mem[..])
              else block == old(s).ring[k] && s == Spec.Take(old(s), k, size / 4) && Holds(block)
      ensures Untouched(old(mem[..]), mem[..], old(s).blocks)
    {
      ghost var k := 1;
      RingReads(mem[..], s, 0);
      block := mem[HEAD + NEXT];
      while block != HEAD
        invariant 1 <= k <= |s.ring| && block == Succ(s.ring, k - 1)
        invariant s == old(s) && mem[..] == old(mem[..])
        invariant Spec.FirstFit(s, size / 4, 1) == Spec.FirstFit(s, size / 4, k)
        decreases |s.ring| - k
      {
        RingReads(mem[..], s, k);
        assert !IsAllocated(mem[block]);
        if BlockSize(mem[block]) >= size {
          assert mem[block] % 4 == 0;
          assert size % 4 == 0;
          TakeBlock(block, size, k);
          return;
        }
        block := mem[block + NEXT];
        k := k + 1;
      }
      SelfUntouched(mem[..], s);
      return NULL;
    }

    // ---------- expand_heap ----------

    /** The pass of expand_heap over the list. The block that coalesce returns may be
        anywhere on the list; the list gets shorter, or the walk gets nearer its end. */
    method SweepList()
      requires Holds(NULL)
      modifies mem, `s
      ensures s == Spec.Sweep(old(s), 1) && Holds(NULL)
      ensures Untouched(old(mem[..]), mem[..], old(s).blocks)
    {
      hide Inv, Repr, Untouched, Distinct, Spec.Coalesce, Spec.SameAllocated;
      ghost var k := 1;
      ghost var s0, m0 := s, mem[..];
      RingStart(s, NULL);
      RingReads(mem[..], s, 0);
      SelfUntouched(mem[..], s);
      Spec.SameAllocatedRefl(s.blocks);
      var block := mem[HEAD + NEXT];
      while block != HEAD
        invariant Holds(NULL)
        invariant 1 <= k <= |s.ring| && block == Succ(s.ring, k - 1)
        invariant Spec.Sweep(s, k) == Spec.Sweep(s0, 1)
        invariant Spec.SameAllocated(s0.blocks, s.blocks)
        invariant Untouched(m0, mem[..], s0.blocks)
        decreases |s.ring|, |s.ring| - k
      {
        ghost var s1, m1 := s, mem[..];
        RingStart(s1, NULL);
        RingReads(m1, s1, k - 1);
        RingReads(m1, s1, k);
        assert block != NULL;
        Spec.CoalesceInv(s1, block, NULL);
        WithoutIsRemoveAt(s1.ring, k);
        block := Coalesce(block, false);
        Spec.OnRing(s, block, NULL);
        k := IndexOf(s.ring, block) + 1;
        RingReads(mem[..], s, k - 1);
        block := mem[block + NEXT];
        UntouchedAlong(m0, m1, mem[..], s0.blocks, s1.blocks);
        Spec.SameAllocatedTrans(s0.blocks, s1.blocks, s.blocks);
      }
      RingReads(mem[..], s, k - 1);
    }

    /** Adds `size` bytes to the heap; false means that the process exits. */
    method ExpandHeap(size: Word) returns (ok: bool)
      requires Holds(NULL) && size % 4 == 0 && size > 16
      modifies mem, `brk, `s
      ensures var o := Spec.Expand(old(s), size / 4, mem.Length);
              ok == o.Done? && s == o.s
      ensures Holds(NULL)
      ensures Untouched(old(mem[..]), mem[..], old(s).blocks)
    {
      hide Inv, Untouched;
      assert size > 16;
      ghost var s0, m0 := s, mem[..];
      RingStart(s, NULL);
      Spec.SweepInv(s, 1);
      SweepList();
      LastWordTest(mem[..], s);
      var end := Sbrk(0);
      var lastBlock := end - 1;
      var block := Sbrk(size);
      if block == -1 {
        return false;
      }
      ghost var m1 := mem[..];
      FormatNew(lastBlock, block, size);
      Spec.AppendInv(s, size / 4);
      UntouchedAlong(m0, m1, mem[..], s0.blocks, s.blocks);
      s := Spec.Append(s, size / 4);
      return true;
    }

    /** What expand_heap does once mem_sbrk has returned the start of the new words. */
    method FormatNew(lastBlock: int, newBlock: int, size: Word)
      requires Inv(s, NULL) && Repr(mem[..], s) && 4 * mem.Length < TWO31
      requires newBlock == s.brk && lastBlock == s.brk - 1
      requires size % 4 == 0 && size > 16 && brk == s.brk + size / 4 <= mem.Length
      modifies mem
      ensures Repr(mem[..], Spec.Append(s, size / 4))
      ensures Untouched(old(mem[..]), mem[..], s.blocks)
    {
      hide Inv, Untouched, Repr, Linked, AllApart, Distinct, IsLinkCell;
      ghost var m := mem[..];
      LastWordTest(m, s);
      var block := WriteNewTags(lastBlock, newBlock, size);
      AppendKeepsLinks(m, mem[..], s);
      RingApart(s, NULL);
      ghost var m1 := mem[..];
      InsertToList(block, HEAD, s.ring);
      ghost var m2 := mem[..];
      NewTagsStay(m1, m2, s, brk - 1);
      WriteEpilogue(block);
      NewBlockRepr(m, m1, m2, mem[..], s, size / 4);
    }

    method WriteEpilogue(block: int)
      requires 0 <= block < mem.Length && 4 <= BlockSize(mem[block]) && block + BlockSize(mem[block]) / 4 < mem.Length
      modifies mem
      ensures var e := block + BlockSize(old(mem[block])) / 4;
              mem[..] == old(mem[..])[e := 1]
    {
      var epilogue := block + BlockSize(mem[block]) / 4;
      mem[epilogue] := 0;
      mem[epilogue] := SetAllocated(mem[epilogue]);
    }

    method WriteNewTags(lastBlock: int, newBlock: int, size: Word) returns (block: int)
      requires 0 < newBlock && lastBlock == newBlock - 1 && 4 * mem.Length < TWO31
      requires size % 4 == 0 && size > 16 && brk == newBlock + size / 4 <= mem.Length
      modifies mem
      ensures block == old(if IsAllocated(mem[lastBlock]) && BlockSize(mem[lastBlock]) == 0 then lastBlock
                else newBlock)
      ensures mem[block] == 4 * (brk - 1 - block) == mem[brk - 2]
      ensures forall i :: 0 <= i < block ==> mem[i] == old(mem[i])
    {
      forall i | newBlock <= i < brk {
        mem[i] := 0;
      }
      var total := size;
      block := newBlock;
      if IsAllocated(mem[lastBlock]) && BlockSize(mem[lastBlock]) == 0 {
        block := lastBlock;
        total := total + 4;
      }
      PlainSize(brk - 1 - block);
      mem[block] := total - 4;
      mem[Footer(block)] := BlockSize(mem[block]);
    }

    // ---------- mm_malloc and mm_free ----------

    /** A request of `size` bytes: a payload address, or false when the process exits. */
    method MmMalloc(size: Word) returns (ok: bool, p: int)
      requires Valid() && Roundable(size)
      modifies mem, `brk, `s
      ensures var o := Spec.Malloc(old(s), size, mem.Length);
              s == o.s && ok == o.Done? && (ok ==> p == o.p)
      ensures Valid()
      ensures Untouched(old(mem[..]), mem[..], old(s).blocks)
    {
      hide Inv, Repr, Untouched, Spec.Take;
      ghost var s0, m0 := s, mem[..];
      Spec.WordsForHasRoom(size);
      Spec.MallocInv(s, size, mem.Length);
      Spec.ReadyRing(s);
      var blockSize := GetBlockSize(size);
      ghost var w := Spec.WordsFor(size);
      var block := FindFit(blockSize);
      if block == NULL {
        ok := ExpandHeap(if blockSize > 4096 then blockSize else 4096);
        if !ok {
          return false, NULL;
        }
        Spec.ExpandInv(s0, Spec.GrowBy(w), mem.Length);
        Spec.ExpandedHeadFits(s0, Spec.GrowBy(w), mem.Length);
        ghost var s1, m1 := s, mem[..];
        Spec.ReadyRing(s1);
        assert Spec.FirstFit(s1, w, 1) == 1;
        block := FindFit(blockSize);
        if block == NULL {
          assert false;
        }
        UntouchedExpand(m0, m1, mem[..], s0, s1, Spec.GrowBy(w), mem.Length);
      }
      ghost var s2, m2 := s, mem[..];
      HandOut(block, size);
      UntouchedClaim(m0, m2, mem[..], s0, s2, block, size);
      return true, block + HEADER;
    }

    /** SET_ALLOCATED for the block that find_fit returned. */
    method HandOut(block: int, ghost size: nat)
      requires block != NULL && Holds(block)
      modifies mem, `s
      ensures s == Spec.Claim(old(s), block, size)
      ensures Repr(mem[..], s) && s.brk == brk
      ensures Untouched(old(mem[..]), mem[..], old(s).blocks)
    {
      ghost var m := mem[..];
      assert TagAt(m, s.blocks, block);
      Decode(mem[block], s.blocks[block]);
      mem[block] := SetAllocated(mem[block]);
      ghost var t := Spec.Claim(s, block, size);
      FlagRepr(m, mem[..], s, t, block, block, false);
      UntouchedFree(m, mem[..], s.blocks, block);
      s := t;
    }

    method MmFree(ptr: int)
      requires Valid() && (ptr == NULL || ptr - HEADER in s.live)
      modifies mem, `s
      ensures s == Spec.Free(old(s), ptr)
      ensures Valid()
      ensures Untouched(old(mem[..]), mem[..], old(s).blocks - {ptr - HEADER})
    {
      if ptr == NULL {
        SelfUntouchedBut(mem[..], s, ptr - HEADER);
        return;
      }
      var block := ptr - HEADER;
      ghost var s0, m0 := s, mem[..];
      Spec.FreeInv(s, ptr);
      SetFreeAt(block);
      ghost var s1, m1 := s, mem[..];
      var coalesced := Coalesce(block, true);
      UntouchedRelease(m0, m1, mem[..], s0, block);
      if coalesced == block {
        ghost var m2 := mem[..];
        PutFirst(block);
        UntouchedCoalesced(m0, m2, mem[..], s0, block);
      }
    }

    /** SET_FREE for a live block. */
    method SetFreeAt(block: int)
      requires Valid() && block in s.live
      modifies mem, `s
      ensures s == Spec.Release(old(s), block) && Holds(block)
      ensures Untouched(old(mem[..]), mem[..], old(s).blocks - {block})
    {
      ghost var m := mem[..];
      assert IsAlloc(s.blocks, block);
      assert TagAt(m, s.blocks, block);
      Decode(mem[block], s.blocks[block]);
      mem[block] := SetFree(mem[block]);
      ghost var t := Spec.Release(s, block);
      FlagRepr(m, mem[..], s, t, NULL, block, true);
      Spec.ReleaseInv(s, block);
      s := t;
    }

    /** insert_to_list of the block in hand, behind the head. */
    method PutFirst(block: int)
      requires block != NULL && Holds(block)
      modifies mem, `s
      ensures s == Spec.Enlist(old(s), block) && Holds(NULL)
      ensures Untouched(old(mem[..]), mem[..], old(s).blocks)
    {
      hide Repr;
      ghost var m := mem[..];
      EnlistRoom(m, s, block);
      RingApart(s, block);
      WithoutIsRemoveAt(s.ring, 0);
      InsertToList(block, HEAD, s.ring);
      Spec.EnlistInv(s, block);
      EnlistRepr(m, mem[..], s, block);
      s := Spec.Enlist(s, block);
    }

    // ---------- mm_realloc ----------

    /** memcpy of `size` bytes. It reads on past the end of the old payload when the
        request grows; what lies behind the arena is `beyond`. The first n bytes,
        which lie clear of the destination, arrive. */
    method CopyBytes(dst: int, src: int, size: Word, beyond: int -> Word, ghost n: nat)
      requires 0 <= dst && dst + WordsOf(size) <= mem.Length && 0 <= src
      requires n <= size && src + WordsOf(n) <= mem.Length
      requires src + WordsOf(n) <= dst || dst + WordsOf(size) <= src
      modifies mem
      ensures forall i :: 0 <= i < mem.Length && !(dst <= i < dst + WordsOf(size)) ==> mem[i] == old(mem[i])
      ensures SameBytes(old(mem[..]), src, mem[..], dst, n)
    {
      ghost var m := mem[..];
      for i := 0 to size / 4
        invariant forall j :: 0 <= j < mem.Length && !(dst <= j < dst + i) ==> mem[j] == m[j]
        invariant forall j :: dst <= j < dst + i && j - dst < WordsOf(n) ==> mem[j] == m[j - dst + src]
      {
        mem[dst + i] := if src + i < mem.Length then mem[src + i] else beyond(src + i);
      }
      var full, r := size / 4, size % 4;
      if r != 0 {
        var last := if src + full < mem.Length then mem[src + full] else beyond(src + full);
        mem[dst + full] := Splice(last, mem[dst + full], r);
      }
      forall k | 0 <= k < n
        ensures PayloadByte(mem[..], dst, k) == PayloadByte(m, src, k)
      {
        if k / 4 == full {
          assert mem[dst + full] == Splice(m[src + full], m[dst + full], r);
          SpliceBytes(m[src + full], m[dst + full], r, k % 4);
        } else {
          assert mem[dst + k / 4] == m[src + k / 4];
        }
      }
    }

    /** The old block keeps its place in memory while the request moves. */
    method Move(ptr: int, size: Word, beyond: int -> Word, ghost n: nat) returns (ok: bool, newPtr: int)
      requires Valid() && Representable(size) && ptr != NULL && ptr - HEADER in s.live
      requires n <= size && n <= s.live[ptr - HEADER]
      modifies mem, `brk, `s
      ensures var o := Spec.Move(old(s), ptr, size, mem.Length);
              s == o.s && ok == o.Done? && (ok ==> newPtr == o.p)
      ensures Valid()
      ensures Untouched(old(mem[..]), mem[..], old(s).blocks - {ptr - HEADER})
      ensures ok ==> SameBytes(old(mem[..]), ptr, mem[..], newPtr, n)
    {
      hide Inv, Repr, Untouched, SameBytes, Spec.Malloc;
      ghost var s0, m0, a := s, mem[..], ptr - HEADER;
      Spec.MallocInv(s, size, mem.Length);
      ok, newPtr := MmMalloc(size);
      ghost var s1, m1 := s, mem[..];
      if !ok {
        UntouchedLess(m0, m1, s0.blocks, a);
        return;
      }
      MovePlaces(m0, m1, s0, s1, ptr, newPtr, size, n);
      CopyBytes(newPtr, ptr, size, beyond, n);
      ghost var m2 := mem[..];
      InsideRepr(m1, m2, s1, newPtr - HEADER);
      MmFree(ptr);
      MovedBytes(m0, m1, m2, mem[..], s0, s1, ptr, newPtr, size, n);
    }

    /** The links of an allocated block mean nothing; mm_realloc clears them. */
    method ForgetLinks(block: int)
      requires Valid() && block in s.live
      modifies mem
      ensures Valid()
      ensures Untouched(old(mem[..]), mem[..], s.blocks - {block})
      ensures SameBytes(old(mem[..]), block + HEADER, mem[..], block + HEADER, s.live[block])
    {
      ghost var m := mem[..];
      PayloadRoom(m, s, block);
      mem[block + NEXT] := NULL;
      mem[block + PREV] := NULL;
      InsideRepr(m, mem[..], s, block);
      SameRangeBytes(m, mem[..], block + HEADER, s.live[block]);
    }

    /** split_block of a live block followed by SET_ALLOCATED. */
    method ShrinkBlock(block: int, blockSize: Word, ghost size: Word)
      requires Valid() && block in s.blocks && IsAlloc(s.blocks, block) && Representable(size)
      requires blockSize == GetBlockSize(size) && s.blocks[block].words > blockSize / 4 + OVERHEAD
      modifies mem, `s
      ensures s == Spec.Shrink(old(s), block, blockSize / 4, size)
      ensures Valid()
      ensures Untouched(old(mem[..]), mem[..], old(s).blocks - {block})
      ensures SameBytes(old(mem[..]), block + HEADER, mem[..], block + HEADER, size)
    {
      hide Inv, Repr, Untouched;
      ghost var m, w := mem[..], blockSize / 4;
      Spec.WordsForHasRoom(size);
      SplitBlock(block, blockSize, true);
      ghost var m1 := mem[..];
      assert m1[block] == 4 * w;
      Decode(mem[block], Block(w, true, 0));
      mem[block] := SetAllocated(mem[block]);
      assert mem[block] == 4 * w + 1;
      ShrunkRepr(m, m1, mem[..], s, block, w, size);
      Spec.ShrinkInv(s, block, w, size);
      RingStart(s, NULL);
      s := Spec.Shrink(s, block, w, size);
    }

    /** The last block takes over the block that expand_heap has put behind it. */
    method TakeOverLast(block: int, blockSize: Word, ghost last: int, ghost size: nat)
      requires Valid() && IsAlloc(s.blocks, block) && IsPred(s.blocks, block, last)
      requires |s.ring| > 1 && s.ring[1] == last && last in s.blocks && s.blocks[last].free
      requires blockSize == 4 * (s.blocks[block].words + s.blocks[last].words)
      modifies mem, `s
      ensures s == Spec.ExtendLast(old(s), block, last, blockSize / 4, size)
      ensures Repr(mem[..], s) && s.brk == brk
      ensures Untouched(old(mem[..]), mem[..], old(s).blocks - {block})
      ensures SameRange(old(mem[..]), mem[..], block + HEADER, last)
    {
      hide Inv, Repr, Untouched;
      ghost var m, w := mem[..], blockSize / 4;
      RingReads(m, s, 0);
      RingStart(s, NULL);
      WithoutIsRemoveAt(s.ring, 1);
      RingReads(m, s, 1);
      ReprLinked(m, s);
      BlockInArena(m, s, NULL, block);
      BlockInArena(m, s, NULL, last);
      Unlist(mem[HEAD + NEXT], s, NULL);
      ghost var m1 := mem[..];
      mem[block] := blockSize;
      mem[block] := SetAllocated(mem[block]);
      ExtendedRepr(m, m1, mem[..], s, block, last, w, size);
      s := Spec.ExtendLast(s, block, last, w, size);
    }

    /** The expanding branch: the heap grows behind the last block, unless the
        unsigned difference has wrapped or the arena is full. */
    method ExtendInPlace(block: int, blockSize: Word, extra: Word, size: Word, ghost n: nat) returns (ok: bool)
      requires Valid() && Representable(size) && block in s.live && block in s.blocks && n <= s.live[block]
      requires blockSize == GetBlockSize(size) && extra == Spec.ExtraBytes(s, block, blockSize / 4) && extra > 16
      requires End(s.blocks, block) == s.epi
      modifies mem, `brk, `s
      ensures var o := Spec.Expand(old(s), extra / 4, mem.Length);
              && ok == o.Done?
              && (ok ==> |o.s.ring| > 1 && o.p in o.s.blocks)
              && s == if ok then Spec.ExtendLast(o.s, block, o.p, blockSize / 4, size) else o.s
      ensures Repr(mem[..], s) && s.brk == brk
      ensures Untouched(old(mem[..]), mem[..], old(s).blocks - {block})
      ensures ok ==> SameBytes(old(mem[..]), block + HEADER, mem[..], block + HEADER, n)
    {
      hide Inv, Repr, Untouched, SameBytes, Spec.Expand;
      ghost var s0, m0 := s, mem[..];
      PayloadRoom(m0, s0, block);
      Spec.WordsForHasRoom(size);
      ExtraFits(m0, s0, block, blockSize / 4, mem.Length);
      Spec.ExpandInv(s, extra / 4, mem.Length);
      ok := ExpandHeap(extra);
      ghost var s1, m1 := s, mem[..];
      if !ok {
        UntouchedLess(m0, m1, s0.blocks, block);
        return;
      }
      Spec.ExpandedHeadFits(s0, extra / 4, mem.Length);
      assert Spec.Kept(s0, s1, block);
      PayloadRoom(m1, s1, block);
      ghost var last := Spec.Expand(s0, extra / 4, mem.Length).p;
      BlockInArena(m1, s1, NULL, block);
      BlockInArena(m1, s1, NULL, last);
      TakeOverLast(block, blockSize, last, size);
      ExtendedBytes(m0, m1, mem[..], s0, s1, block, last, n);
    }

    /** The block takes over its free successor and stays live. */
    method AbsorbNext(block: int, nextBlock: int, ghost n: nat)
      requires Valid() && block in s.live && IsPred(s.blocks, block, nextBlock)
      requires nextBlock in s.blocks && s.blocks[nextBlock].free && n <= s.live[block]
      modifies mem, `s
      ensures s == Spec.Absorb(old(s), block, nextBlock) && Valid()
      ensures Untouched(old(mem[..]), mem[..], old(s).blocks - {block})
      ensures SameBytes(old(mem[..]), block + HEADER, mem[..], block + HEADER, n)
    {
      hide Repr;
      ghost var m := mem[..];
      PayloadRoom(m, s, block);
      assert InBounds(s.blocks, s.lo, s.epi, nextBlock);
      AbsorbBlock(block, nextBlock, true, NULL);
      SameRangeBytes(m, mem[..], block + HEADER, n);
      forall d | IsAlloc(s.blocks, d) && d != block
        ensures End(s.blocks, d) <= block || End(s.blocks, nextBlock) <= d
      {
        assert Apart(s.blocks, d, block) && Apart(s.blocks, d, nextBlock);
      }
      OutsideUntouchedBut(m, mem[..], s, NULL, block, End(s.blocks, nextBlock), block);
      Spec.AbsorbInv(s, block, nextBlock, NULL);
      s := Spec.Absorb(s, block, nextBlock);
    }

    /** The block takes over its free successor, and is cut if that makes it large
        enough; otherwise the request moves. */
    method TakeNext(block: int, nextBlock: int, blockSize: Word, size: Word, beyond: int -> Word, ghost n: nat)
      returns (ok: bool, newPtr: int)
      requires Valid() && Representable(size) && block in s.live && block in s.blocks && blockSize == GetBlockSize(size)
      requires nextBlock == End(s.blocks, block) && Spec.FreeNext(s.blocks, block)
      requires n <= size && n <= s.live[block]
      modifies mem, `brk, `s
      ensures var s1 := Spec.Absorb(old(s), block, nextBlock);
              Spec.Ready(s1) && block in s1.blocks
              && var o := if s1.blocks[block].words > blockSize / 4 + OVERHEAD
                          then Spec.Done(Spec.Shrink(s1, block, blockSize / 4, size), block + HEADER)
                          else Spec.Move(s1, block + HEADER, size, mem.Length);
                 s == o.s && ok == o.Done? && (ok ==> newPtr == o.p)
      ensures Repr(mem[..], s) && s.brk == brk
      ensures Untouched(old(mem[..]), mem[..], old(s).blocks - {block})
      ensures ok ==> SameBytes(old(mem[..]), block + HEADER, mem[..], newPtr, n)
    {
      hide Inv, Repr, Untouched, SameBytes, Spec.Move, Spec.Shrink;
      var ptr := block + HEADER;
      ghost var s0, m0 := s, mem[..];
      Spec.WordsForHasRoom(size);
      AbsorbNext(block, nextBlock, n);
      ghost var m1, s1 := mem[..], s;
      LiveHeader(m1, s1, block);
      if BlockSize(mem[block]) > (blockSize + 16) % TWO32 {
        LiveBlock(s1, NULL, block);
        ShrinkBlock(block, blockSize, size);
        SameBytesLess(m1, ptr, mem[..], ptr, size, n);
        ok, newPtr := true, ptr;
      } else {
        ok, newPtr := Move(ptr, size, beyond, n);
      }
      AbsorbedUntouched(m0, m1, mem[..], s0, block);
      if ok {
        SameBytesTrans(m0, ptr, m1, ptr, mem[..], newPtr, n);
      }
    }

    /** mm_realloc of a live block to a size other than 0, in the source's four cases. */
    method ReallocLive(ptr: int, size: Word, beyond: int -> Word, ghost n: nat) returns (ok: bool, newPtr: int)
      requires Valid() && Representable(size) && ptr != NULL && ptr - HEADER in s.live && size != 0
      requires n <= size && n <= s.live[ptr - HEADER]
      modifies mem, `brk, `s
      ensures var o := Spec.Realloc(old(s), ptr, size, mem.Length);
              s == o.s && ok == o.Done? && (ok ==> newPtr == o.p)
      ensures Repr(mem[..], s) && s.brk == brk
      ensures Untouched(old(mem[..]), mem[..], old(s).blocks - {ptr - HEADER})
      ensures ok ==> SameBytes(old(mem[..]), ptr, mem[..], newPtr, n)
    {
      hide Inv, Repr, Untouched, SameBytes, Spec.Expand, Spec.Move, Spec.Shrink, Spec.Absorb, Spec.ExtendLast;
      ghost var s0, m0 := s, mem[..];
      var block := ptr - HEADER;
      PayloadRoom(m0, s0, block);
      Spec.WordsForHasRoom(size);
      LiveHeader(m0, s0, block);
      NextTest(m0, s0, NULL, block);
      BrkInArena(m0, s0);
      assert IsAllocated(mem[block]);
      var blockSize := GetBlockSize(size);
      // Case 1: the block is large enough to split.
      if BlockSize(mem[block]) > (blockSize + 16) % TWO32 {
        ShrinkBlock(block, blockSize, size);
        SameBytesLess(m0, ptr, mem[..], ptr, size, n);
        return true, ptr;
      }
      // Case 2: the block is the last one.
      var nextBlock := block + BlockSize(mem[block]) / 4;
      var end := Sbrk(0);
      var epilogue := end - 1;
      if nextBlock == epilogue {
        var extra := (blockSize - BlockSize(mem[block])) % TWO32;
        if extra > 16 {
          ok := ExtendInPlace(block, blockSize, extra, size, n);
          return ok, ptr;
        }
      }
      // Case 3: the next block is free.
      var nextFree := nextBlock != HEAD && !IsAllocated(mem[nextBlock]) && mem[nextBlock] != 0;
      if nextFree {
        ok, newPtr := TakeNext(block, nextBlock, blockSize, size, beyond, n);
        return;
      }
      // Case 4: allocate, copy, free.
      ok, newPtr := Move(ptr, size, beyond, n);
    }

    method MmRealloc(ptr: int, size: Word, beyond: int -> Word) returns (ok: bool, newPtr: int)
      requires Valid() && Spec.Resizable(ptr, size) && (ptr == NULL || ptr - HEADER in s.live)
      modifies mem, `brk, `s
      ensures var o := Spec.Realloc(old(s), ptr, size, mem.Length);
              s == o.s && ok == o.Done? && (ok ==> newPtr == o.p)
      ensures Shaped()
      ensures Valid() <==> !Spec.GrowsLast(old(s), ptr, size, mem.Length)
      ensures HEAD + HEADER <= start <= old(s).lo ==> Walkable()
      ensures Untouched(old(mem[..]), mem[..], old(s).blocks - {ptr - HEADER})
      ensures ok && ptr != NULL && size != 0 ==>
                var n := old(s).live[ptr - HEADER];
                SameBytes(old(mem[..]), ptr, mem[..], newPtr, if n < size then n else size)
    {
      hide Inv, Repr, Untouched, SameBytes, Shape;
      ghost var s0, m0 := s, mem[..];
      BrkInArena(m0, s0);
      Spec.ReallocInv(s, ptr, size, mem.Length);
      ok, newPtr := ReallocAny(ptr, size, beyond);
      Spec.ReallocShape(s0, ptr, size, mem.Length);
      ReprWalkable(mem[..], s);
    }

    method ReallocAny(ptr: int, size: Word, beyond: int -> Word) returns (ok: bool, newPtr: int)
      requires Valid() && Spec.Resizable(ptr, size) && (ptr == NULL || ptr - HEADER in s.live)
      modifies mem, `brk, `s
      ensures var o := Spec.Realloc(old(s), ptr, size, mem.Length);
              s == o.s && ok == o.Done? && (ok ==> newPtr == o.p)
      ensures Repr(mem[..], s) && s.brk == brk
      ensures Untouched(old(mem[..]), mem[..], old(s).blocks - {ptr - HEADER})
      ensures ok && ptr != NULL && size != 0 ==>
                var n := old(s).live[ptr - HEADER];
                SameBytes(old(mem[..]), ptr, mem[..], newPtr, if n < size then n else size)
    {
      hide Inv, Repr, Untouched, SameBytes, Spec.Malloc, Spec.Free, Spec.Expand, Spec.Move, Spec.Shrink;
      ghost var s0, m0 := s, mem[..];
      if ptr == NULL {
        ok, newPtr := MmMalloc(size);
        UntouchedLess(m0, mem[..], s0.blocks, ptr - HEADER);
        return;
      }
      if size == 0 {
        MmFree(ptr);
        return true, NULL;
      }
      ghost var n := if s.live[ptr - HEADER] < size then s.live[ptr - HEADER] else size;
      ForgetLinks(ptr - HEADER);
      ghost var m1 := mem[..];
      ok, newPtr := ReallocLive(ptr, size, beyond, n);
      UntouchedButTrans(m0, m1, mem[..], s0.blocks, ptr - HEADER);
      if ok {
        SameBytesLess(m0, ptr, m1, ptr, s0.live[ptr - HEADER], n);
        SameBytesTrans(m0, ptr, m1, ptr, mem[..], newPtr, n);
      }
    }

    // ---------- mm_init ----------

    /** The prologue is placed without looking at what mem_sbrk returns, so it must
        fit the arena. Returns false when the process exits because the first block
        does not fit. */
    method MmInit() returns (ok: bool)
      requires Walkable() && brk + 2 <= mem.Length
      modifies mem, `brk, `s
      ensures ok == (old(brk) + 2 + 1024 <= mem.Length)
      ensures ok ==> Valid() && s == Spec.Initial(old(brk))
    {
      ClearList();
      mem[HEAD] := 0;
      mem[HEAD + PREV] := HEAD;
      mem[HEAD + NEXT] := HEAD;
      ghost var b := brk;
      var prologue := Sbrk(8);
      mem[prologue] := 8;
      mem[prologue] := SetAllocated(mem[prologue]);
      mem[Footer(prologue)] := BlockSize(mem[prologue]);
      s := Spec.Bare(brk);
      Spec.BareInv(brk, mem.Length);
      BareRepr(mem[..], brk);
      ok := ExpandHeap(4096);
      if ok {
        Spec.InitialReady(b);
      }
    }

    /** mm_init's first loop: clears every block of the list it finds. */
    method ClearList()
      requires Walkable()
      modifies mem
    {
      ghost var k := 1;
      ghost var m := mem[..];
      assert LinkAt(m, s.ring, 0);
      var block := mem[HEAD + NEXT];
      while block != HEAD
        invariant 1 <= k <= |s.ring| && block == Succ(s.ring, k - 1)
        invariant forall j :: k <= j < |s.ring| ==> IntactNode(m, mem[..], s.ring[j])
        decreases |s.ring| - k
      {
        ghost var m1 := mem[..];
        NodeInBlock(m, m1, s, k);
        var temp := block;
        block := mem[block + NEXT];
        ClearBlock(temp);
        NodesStayIntact(m, m1, mem[..], s, k);
        k := k + 1;
      }
    }
  }
}
