/** How the words of memory represent an allocator state, and which words the
    operations may touch. */
module HeapMemory {
  import opened HeapState
  import opened Words

  /** Offsets of the link words in a block header. */
  const PREV := 1
  const NEXT := 2

  function Header(b: Block): int {
    4 * b.words + (if b.free then 0 else 1)
  }

  lemma {:induction false} Decode(h: Word, b: Block)
    requires h == Header(b) && b.words >= 1
    ensures BlockSize(h) == 4 * b.words && BlockSize(h) / 4 == b.words
    ensures IsAllocated(h) <==> !b.free
    ensures h != 0
  {
  }

  ghost predicate TagAt(m: seq<Word>, bs: Blocks, a: int)
    requires a in bs
  {
    && 0 <= a && OVERHEAD <= bs[a].words && End(bs, a) <= |m|
    && m[a] == Header(bs[a])
    && m[End(bs, a) - 1] == bs[a].foot
  }

  /** The size word and the last word of every block. */
  ghost predicate Tags(m: seq<Word>, bs: Blocks) {
    forall a {:trigger TagAt(m, bs, a)} :: a in bs ==> TagAt(m, bs, a)
  }

  function Succ(ring: seq<int>, k: nat): int
    requires k < |ring|
  {
    if k + 1 == |ring| then ring[0] else ring[k + 1]
  }

  function Prec(ring: seq<int>, k: nat): int
    requires k < |ring|
  {
    if k == 0 then ring[|ring| - 1] else ring[k - 1]
  }

  ghost predicate LinkAt(m: seq<Word>, ring: seq<int>, k: nat)
    requires k < |ring|
  {
    && 0 < ring[k] && ring[k] + HEADER <= |m|
    && m[ring[k] + NEXT] == Succ(ring, k)
    && m[ring[k] + PREV] == Prec(ring, k)
  }

  /** The links, followed either way, walk the ring. */
  ghost predicate Linked(m: seq<Word>, ring: seq<int>) {
    forall k {:trigger LinkAt(m, ring, k)} :: 0 <= k < |ring| ==> LinkAt(m, ring, k)
  }

  ghost predicate NodesApart(ring: seq<int>, i: nat, j: nat)
    requires i < |ring| && j < |ring|
  {
    i == j || ring[i] + HEADER <= ring[j] || ring[j] + HEADER <= ring[i]
  }

  ghost predicate AllApart(ring: seq<int>) {
    forall i, j {:trigger NodesApart(ring, i, j)} :: 0 <= i < |ring| && 0 <= j < |ring| ==> NodesApart(ring, i, j)
  }

  /** The prologue, and the epilogue once it is there. */
  ghost predicate Borders(m: seq<Word>, s: State) {
    && 2 <= s.lo <= s.epi <= s.brk <= |m|
    && m[s.lo - 2] == 9 && m[s.lo - 1] == 8
    && (s.brk == s.epi + 1 ==> m[s.epi] == 1)
  }

  ghost predicate Repr(m: seq<Word>, s: State) {
    && Borders(m, s)
    && Tags(m, s.blocks)
    && Linked(m, s.ring)
  }

  // ---------- which words an operation may touch ----------

  ghost predicate IsLinkCell(ring: seq<int>, i: int) {
    i - PREV in ring || i - NEXT in ring
  }

  ghost predicate SameRange(m: seq<Word>, m': seq<Word>, a: int, e: int)
    requires 0 <= a <= e <= |m| && |m'| == |m|
  {
    forall i :: a <= i < e ==> m'[i] == m[i]
  }

  /** Only words in [l, e) and link words of the ring have changed. */
  ghost predicate ChangedIn(m: seq<Word>, m': seq<Word>, ring: seq<int>, l: int, e: int) {
    && |m'| == |m|
    && forall i :: 0 <= i < |m| && !(l <= i < e) && m'[i] != m[i] ==> IsLinkCell(ring, i)
  }

  /** A link word that lies in a block is a link word of that block. */
  lemma {:induction false} LinkCellsOf(s: State, out: int, ring: seq<int>, a: int, i: int)
    requires Inv(s, out) && a in s.blocks && a <= i < End(s.blocks, a)
    requires forall x :: x in ring ==> x in s.ring
    requires IsLinkCell(ring, i)
    ensures a in ring && (i == a + PREV || i == a + NEXT)
  {
    var x := if i - PREV in ring then i - PREV else i - NEXT;
    assert x in s.ring;
    var k := IndexOf(s.ring, x);
    assert InBounds(s.blocks, s.lo, s.epi, a);
    if k > 0 {
      assert InBounds(s.blocks, s.lo, s.epi, x);
      assert Apart(s.blocks, a, x);
    }
  }

  /** No link word lies on a border word. */
  lemma {:induction false} BordersNotLinks(s: State, out: int, i: int)
    requires Inv(s, out) && (i == s.lo - 2 || i == s.lo - 1 || i >= s.epi)
    ensures !IsLinkCell(s.ring, i)
  {
    forall k | 0 <= k < |s.ring|
      ensures s.ring[k] + PREV != i && s.ring[k] + NEXT != i
    {
      if k > 0 {
        assert InBounds(s.blocks, s.lo, s.epi, s.ring[k]);
      }
    }
  }

  lemma {:induction false} RingApart(s: State, out: int)
    requires Inv(s, out)
    ensures AllApart(s.ring)
  {
    forall i, j | 0 <= i < |s.ring| && 0 <= j < |s.ring|
      ensures NodesApart(s.ring, i, j)
    {
      assert Differ(s.ring, i, j);
      if i > 0 {
        assert InBounds(s.blocks, s.lo, s.epi, s.ring[i]);
      }
      if j > 0 {
        assert InBounds(s.blocks, s.lo, s.epi, s.ring[j]);
      }
      if i > 0 && j > 0 {
        assert Apart(s.blocks, s.ring[i], s.ring[j]);
      }
    }
  }

  /** A block outside the touched range keeps its tags, and every word if it is
      allocated. */
  lemma {:induction false} OutsideKept(m: seq<Word>, m': seq<Word>, s: State, out: int, l: int, e: int, d: int)
    requires Inv(s, out) && Tags(m, s.blocks) && ChangedIn(m, m', s.ring, l, e)
    requires d in s.blocks && (End(s.blocks, d) <= l || e <= d)
    ensures TagAt(m, s.blocks, d) && TagAt(m', s.blocks, d)
    ensures IsAlloc(s.blocks, d) ==> SameRange(m, m', d, End(s.blocks, d))
  {
    assert TagAt(m, s.blocks, d);
    forall i | d <= i < End(s.blocks, d) && m'[i] != m[i]
      ensures d in s.ring && (i == d + PREV || i == d + NEXT)
    {
      LinkCellsOf(s, out, s.ring, d, i);
    }
    if IsAlloc(s.blocks, d) {
      assert InBounds(s.blocks, s.lo, s.epi, d);
      NotOnRing(s, d, out);
    }
  }

  /** Writing only inside the blocks keeps the borders. */
  lemma {:induction false} BordersKept(m: seq<Word>, m': seq<Word>, s: State, out: int, l: int, e: int)
    requires Inv(s, out) && Borders(m, s) && ChangedIn(m, m', s.ring, l, e)
    requires s.lo <= l && e <= s.epi
    ensures Borders(m', s)
  {
    BordersNotLinks(s, out, s.lo - 2);
    BordersNotLinks(s, out, s.lo - 1);
    BordersNotLinks(s, out, s.epi);
  }

  /** Neither the size word nor the footer of a block is a link word. */
  lemma {:induction false} TagNotLink(s: State, out: int, a: int)
    requires Inv(s, out) && a in s.blocks
    ensures !IsLinkCell(s.ring, a) && !IsLinkCell(s.ring, End(s.blocks, a) - 1)
  {
    assert InBounds(s.blocks, s.lo, s.epi, a);
    if IsLinkCell(s.ring, a) {
      LinkCellsOf(s, out, s.ring, a, a);
    }
    if IsLinkCell(s.ring, End(s.blocks, a) - 1) {
      LinkCellsOf(s, out, s.ring, a, End(s.blocks, a) - 1);
    }
  }

  /** Links survive writes that miss the link words. */
  lemma {:induction false} LinksKept(m: seq<Word>, m': seq<Word>, ring: seq<int>)
    requires Linked(m, ring) && |m'| == |m|
    requires forall i :: 0 <= i < |m| && m'[i] != m[i] ==> !IsLinkCell(ring, i)
    ensures Linked(m', ring)
  {
    forall k | 0 <= k < |ring|
      ensures LinkAt(m', ring, k)
    {
      assert LinkAt(m, ring, k);
      assert ring[k] in ring;
      assert IsLinkCell(ring, ring[k] + PREV) && IsLinkCell(ring, ring[k] + NEXT);
    }
  }

  /** Word i belongs to block a and is not one of its link words on the ring. */
  ghost predicate OwnCell(s: State, ring: seq<int>, a: int, i: int) {
    && a in s.blocks && a <= i < End(s.blocks, a)
    && (a in ring ==> i != a + PREV && i != a + NEXT)
  }

  /** Writes to such words of three blocks keep the links. */
  lemma {:induction false} OwnWritesKeepLinks(m: seq<Word>, m': seq<Word>, s: State, out: int, ring: seq<int>,
      a: int, b: int, c: int)
    requires Inv(s, out) && Linked(m, ring) && |m'| == |m|
    requires forall x :: x in ring ==> x in s.ring
    requires forall i :: 0 <= i < |m| && m'[i] != m[i] ==>
               OwnCell(s, ring, a, i) || OwnCell(s, ring, b, i) || OwnCell(s, ring, c, i)
    ensures Linked(m', ring)
  {
    forall i | 0 <= i < |m| && m'[i] != m[i]
      ensures !IsLinkCell(ring, i)
    {
      if IsLinkCell(ring, i) {
        LinkCellsOf(s, out, ring, if OwnCell(s, ring, a, i) then a else if OwnCell(s, ring, b, i) then b else c, i);
      }
    }
    LinksKept(m, m', ring);
  }

  // ---------- the list operations ----------

  function After(ring: seq<int>, k: nat): (j: nat)
    requires k < |ring|
    ensures j < |ring| && ring[j] == Succ(ring, k)
  {
    if k + 1 == |ring| then 0 else k + 1
  }

  /** The neighbours of a node: where they are and that their link words differ. */
  lemma {:induction false} Neighbours(m: seq<Word>, ring: seq<int>, k: nat)
    requires Linked(m, ring) && AllApart(ring) && k < |ring|
    ensures var x, n := ring[k], Succ(ring, k);
            && 0 < x && x + HEADER <= |m| && m[x + NEXT] == n && m[x + PREV] == Prec(ring, k)
            && 0 < n && n + HEADER <= |m|
            && IsLinkCell(ring, x + NEXT) && IsLinkCell(ring, n + PREV)
            && n + PREV != x + NEXT
    ensures Distinct(ring) && k > 0 ==> ring[k - 1] + NEXT != ring[k] + PREV && ring[k - 1] + NEXT != ring[k] + NEXT
  {
    assert LinkAt(m, ring, k) && LinkAt(m, ring, After(ring, k));
    assert NodesApart(ring, k, After(ring, k));
    assert ring[k] in ring && Succ(ring, k) in ring;
    if Distinct(ring) && k > 0 {
      assert NodesApart(ring, k - 1, k);
    }
  }

  lemma {:induction false} UnlinkOK(m: seq<Word>, m': seq<Word>, ring: seq<int>, k: nat)
    requires Linked(m, ring) && AllApart(ring) && 0 < k < |ring|
    requires |m'| == |m|
    requires forall i :: 0 <= i < |m| && i != Prec(ring, k) + NEXT && i != Succ(ring, k) + PREV ==> m'[i] == m[i]
    requires 0 <= Prec(ring, k) && Prec(ring, k) + HEADER <= |m| && m'[Prec(ring, k) + NEXT] == Succ(ring, k)
    requires 0 <= Succ(ring, k) && Succ(ring, k) + HEADER <= |m| && m'[Succ(ring, k) + PREV] == Prec(ring, k)
    ensures Linked(m', RemoveAt(ring, k))
  {
    var r := RemoveAt(ring, k);
    forall j | 0 <= j < |r|
      ensures LinkAt(m', r, j)
    {
      var i := if j < k then j else j + 1;
      assert r[j] == ring[i];
      assert LinkAt(m, ring, i);
      assert NodesApart(ring, i, k - 1);
      assert NodesApart(ring, i, if k + 1 == |ring| then 0 else k + 1);
    }
  }

  /** Linking x in after node k. */
  lemma {:induction false} LinkInOK(m: seq<Word>, m': seq<Word>, ring: seq<int>, k: nat, x: int)
    requires Linked(m, ring) && AllApart(ring) && k < |ring|
    requires |m'| == |m| && 0 < x && x + HEADER <= |m|
    requires forall j :: 0 <= j < |ring| ==> ring[j] + HEADER <= x || x + HEADER <= ring[j]
    requires forall i :: 0 <= i < |m| && i != x + PREV && i != x + NEXT && i != ring[k] + NEXT
               && i != Succ(ring, k) + PREV
               ==> m'[i] == m[i]
    requires m'[x + PREV] == ring[k] && m'[x + NEXT] == Succ(ring, k)
    requires 0 <= ring[k] && ring[k] + HEADER <= |m| && m'[ring[k] + NEXT] == x
    requires 0 <= Succ(ring, k) && Succ(ring, k) + HEADER <= |m| && m'[Succ(ring, k) + PREV] == x
    ensures Linked(m', InsertAt(ring, k + 1, x))
  {
    var r := InsertAt(ring, k + 1, x);
    forall j | 0 <= j < |r|
      ensures LinkAt(m', r, j)
    {
      if j != k + 1 {
        var i := if j < k + 1 then j else j - 1;
        assert r[j] == ring[i];
        assert LinkAt(m, ring, i);
        assert NodesApart(ring, i, k);
        assert NodesApart(ring, i, if k + 1 == |ring| then 0 else k + 1);
      }
    }
  }

  lemma {:induction false} InsertApart(ring: seq<int>, k: nat, x: int)
    requires AllApart(ring) && k <= |ring|
    requires forall j :: 0 <= j < |ring| ==> ring[j] + HEADER <= x || x + HEADER <= ring[j]
    ensures AllApart(InsertAt(ring, k, x))
  {
    var r := InsertAt(ring, k, x);
    forall i, j | 0 <= i < |r| && 0 <= j < |r|
      ensures NodesApart(r, i, j)
    {
      if i != k && j != k {
        assert NodesApart(ring, if i < k then i else i - 1, if j < k then j else j - 1);
      }
    }
  }

  // ---------- representing the state after an operation ----------

  /** Every block that was allocated in bs keeps all its words. */
  ghost predicate Untouched(m: seq<Word>, m': seq<Word>, bs: Blocks) {
    && |m'| == |m|
    && forall a {:trigger IsAlloc(bs, a)} ::
         IsAlloc(bs, a) ==> 0 <= a <= End(bs, a) <= |m| && SameRange(m, m', a, End(bs, a))
  }

  /** An operation that rearranges the blocks of [l, e) into those of t. */
  lemma {:induction false} RearrangedRepr(m: seq<Word>, m': seq<Word>, s: State, t: State, out: int, l: int, e: int)
    requires Inv(s, out) && Repr(m, s) && ChangedIn(m, m', s.ring, l, e)
    requires s.lo <= l && e <= s.epi
    requires t == s.(blocks := t.blocks, ring := t.ring, live := t.live)
    requires forall d {:trigger TagAt(m', t.blocks, d)} :: d in t.blocks ==>
               || TagAt(m', t.blocks, d)
               || (d in s.blocks && t.blocks[d] == s.blocks[d] && (End(s.blocks, d) <= l || e <= d))
    requires Linked(m', t.ring)
    ensures Repr(m', t)
  {
    BordersKept(m, m', s, out, l, e);
    forall d | d in t.blocks
      ensures TagAt(m', t.blocks, d)
    {
      if d in s.blocks && t.blocks[d] == s.blocks[d] && (End(s.blocks, d) <= l || e <= d) {
        OutsideKept(m, m', s, out, l, e, d);
      }
    }
  }

  lemma {:induction false} OutsideUntouched(m: seq<Word>, m': seq<Word>, s: State, out: int, l: int, e: int)
    requires Inv(s, out) && Repr(m, s) && ChangedIn(m, m', s.ring, l, e)
    requires forall d :: IsAlloc(s.blocks, d) ==> End(s.blocks, d) <= l || e <= d
    ensures Untouched(m, m', s.blocks)
  {
    forall d | IsAlloc(s.blocks, d)
      ensures 0 <= d <= End(s.blocks, d) <= |m| && SameRange(m, m', d, End(s.blocks, d))
    {
      OutsideKept(m, m', s, out, l, e, d);
    }
  }

  lemma {:induction false} UntouchedTrans(m: seq<Word>, m': seq<Word>, m'': seq<Word>, bs: Blocks, bs': Blocks)
    requires Untouched(m, m', bs) && Untouched(m', m'', bs')
    requires forall a :: IsAlloc(bs, a) ==> IsAlloc(bs', a) && bs'[a].words == bs[a].words
    ensures Untouched(m, m'', bs)
  {
    forall a | IsAlloc(bs, a)
      ensures 0 <= a <= End(bs, a) <= |m| && SameRange(m, m'', a, End(bs, a))
    {
      assert IsAlloc(bs', a);
    }
  }

  /** As OutsideUntouched, leaving out block a. */
  lemma {:induction false} OutsideUntouchedBut(m: seq<Word>, m': seq<Word>, s: State, out: int, l: int, e: int, a: int)
    requires Inv(s, out) && Repr(m, s) && ChangedIn(m, m', s.ring, l, e)
    requires forall d :: IsAlloc(s.blocks, d) && d != a ==> End(s.blocks, d) <= l || e <= d
    ensures Untouched(m, m', s.blocks - {a})
  {
    forall d | IsAlloc(s.blocks - {a}, d)
      ensures 0 <= d <= End(s.blocks, d) <= |m| && SameRange(m, m', d, End(s.blocks, d))
    {
      assert IsAlloc(s.blocks, d);
      OutsideKept(m, m', s, out, l, e, d);
    }
  }

  /** Changing the flag of block a in its size word. */
  lemma {:induction false} FlagRepr(m: seq<Word>, m': seq<Word>, s: State, t: State, out: int, a: int, free: bool)
    requires Inv(s, out) && Repr(m, s) && a in s.blocks
    requires t == s.(blocks := t.blocks, live := t.live)
    requires t.blocks == s.blocks[a := s.blocks[a].(free := free)]
    requires |m'| == |m| && m'[a] == Header(t.blocks[a])
    requires forall i :: 0 <= i < |m| && i != a ==> m'[i] == m[i]
    ensures Repr(m', t)
    ensures Untouched(m, m', s.blocks - {a})
  {
    assert InBounds(s.blocks, s.lo, s.epi, a);
    assert TagAt(m, s.blocks, a);
    TagNotLink(s, out, a);
    LinksKept(m, m', s.ring);
    forall d | d in t.blocks
      ensures TagAt(m', t.blocks, d) ||
                (d in s.blocks && t.blocks[d] == s.blocks[d] && (End(s.blocks, d) <= a || a + 1 <= d))
    {
      assert Apart(s.blocks, d, a);
    }
    RearrangedRepr(m, m', s, t, out, a, a + 1);
    forall d | IsAlloc(s.blocks, d) && d != a
      ensures End(s.blocks, d) <= a || a + 1 <= d
    {
      assert Apart(s.blocks, d, a);
    }
    OutsideUntouchedBut(m, m', s, out, a, a + 1, a);
  }

  /** Writes between the size word and the footer of an allocated block. */
  lemma {:induction false} InsideRepr(m: seq<Word>, m': seq<Word>, s: State, a: int)
    requires Inv(s, NULL) && Repr(m, s) && IsAlloc(s.blocks, a) && |m'| == |m|
    requires forall i :: 0 <= i < |m| && m'[i] != m[i] ==> a < i < End(s.blocks, a) - 1
    ensures Repr(m', s)
    ensures Untouched(m, m', s.blocks - {a})
  {
    assert InBounds(s.blocks, s.lo, s.epi, a);
    assert TagAt(m, s.blocks, a);
    NotOnRing(s, a, NULL);
    OwnWritesKeepLinks(m, m', s, NULL, s.ring, a, a, a);
    forall d {:trigger TagAt(m', s.blocks, d)} | d in s.blocks
      ensures TagAt(m', s.blocks, d) || (End(s.blocks, d) <= a || End(s.blocks, a) <= d)
    {
      assert Apart(s.blocks, d, a);
    }
    RearrangedRepr(m, m', s, s, NULL, a, End(s.blocks, a));
    forall d | IsAlloc(s.blocks, d) && d != a
      ensures End(s.blocks, d) <= a || End(s.blocks, a) <= d
    {
      assert Apart(s.blocks, d, a);
    }
    OutsideUntouchedBut(m, m', s, NULL, a, End(s.blocks, a), a);
  }

  // ---------- payload bytes ----------

  /** Byte k of the payload at word address p. */
  function PayloadByte(m: seq<Word>, p: int, k: nat): int
    requires 0 <= p && p + k / 4 < |m|
  {
    Byte(m[p + k / 4], k % 4)
  }

  /** Words that n bytes extend over. */
  function WordsOf(n: nat): nat {
    (n + 3) / 4
  }

  /** The n bytes at word address q of m' are the n bytes at word address p of m. */
  ghost predicate SameBytes(m: seq<Word>, p: int, m': seq<Word>, q: int, n: nat) {
    && 0 <= p && p + WordsOf(n) <= |m|
    && 0 <= q && q + WordsOf(n) <= |m'|
    && forall k {:trigger PayloadByte(m', q, k)} :: 0 <= k < n ==> PayloadByte(m', q, k) == PayloadByte(m, p, k)
  }

  lemma {:induction false} SameRangeBytes(m: seq<Word>, m': seq<Word>, p: int, n: nat)
    requires |m'| == |m| && 0 <= p && p + WordsOf(n) <= |m| && SameRange(m, m', p, p + WordsOf(n))
    ensures SameBytes(m, p, m', p, n)
  {
  }

  lemma {:induction false} SameBytesTrans(m: seq<Word>, p: int, m': seq<Word>, q: int, m'': seq<Word>, r: int, n: nat)
    requires SameBytes(m, p, m', q, n) && SameBytes(m', q, m'', r, n)
    ensures SameBytes(m, p, m'', r, n)
  {
    forall k | 0 <= k < n
      ensures PayloadByte(m'', r, k) == PayloadByte(m, p, k)
    {
      assert PayloadByte(m', q, k) == PayloadByte(m, p, k);
    }
  }
}
