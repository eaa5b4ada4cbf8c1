/** The state of the explicit-free-list allocator as values: which blocks tile
    the heap, which of them the circular list threads, and which are live.
    Addresses and block sizes are counted in 4-byte words. */
module HeapState {

  const NULL := 0
  /** Address of the list head, a three-word block that lies outside the heap. */
  const HEAD := 1
  /** Words in a block header: size, prev, next. */
  const HEADER := 3
  /** Words of a header and a footer, which is the smallest possible block. */
  const OVERHEAD := 4

  /** A block. `foot` is what its last word holds. */
  datatype Block = Block(words: int, free: bool, foot: int)

  type Blocks = map<int, Block>

  /** `ring` lists the head and then the free list, in the order of `next`.
      `live` maps each allocated block to the number of bytes last requested for
      it. The blocks lie in [lo, epi); the epilogue word is at `epi`. */
  datatype State = State(blocks: Blocks, ring: seq<int>, live: map<int, nat>, lo: int, epi: int, brk: int)

  function End(bs: Blocks, a: int): int
    requires a in bs
  {
    a + bs[a].words
  }

  ghost predicate IsPred(bs: Blocks, b: int, a: int) {
    b in bs && End(bs, b) == a
  }

  /** Some block ends where block a begins, unless a is the first block. */
  ghost predicate HasPred(bs: Blocks, lo: int, a: int) {
    a == lo || exists b :: IsPred(bs, b, a)
  }

  /** A block begins where block a ends, unless a is the last block. */
  ghost predicate HasNext(bs: Blocks, epi: int, a: int)
    requires a in bs
  {
    End(bs, a) == epi || End(bs, a) in bs
  }

  /** Blocks a and b are the same block or share no word. */
  ghost predicate Apart(bs: Blocks, a: int, b: int)
    requires a in bs && b in bs
  {
    a == b || End(bs, a) <= b || End(bs, b) <= a
  }

  ghost predicate InBounds(bs: Blocks, lo: int, epi: int, a: int)
    requires a in bs
  {
    lo <= a && OVERHEAD <= bs[a].words && End(bs, a) <= epi
  }

  /** The blocks lie in [lo, epi) and are pairwise disjoint. The triggers keep the
      solver from walking the tiling on its own. */
  ghost predicate Spaced(bs: Blocks, lo: int, epi: int) {
    && (forall a {:trigger bs[a]} {:trigger InBounds(bs, lo, epi, a)} :: a in bs ==> InBounds(bs, lo, epi, a))
    && (forall a, b {:trigger Apart(bs, a, b)} :: a in bs && b in bs ==> Apart(bs, a, b))
  }

  /** Every block has a neighbour on either side, or a border. */
  ghost predicate Chained(bs: Blocks, lo: int, epi: int) {
    && (forall a {:trigger HasNext(bs, epi, a)} :: a in bs ==> HasNext(bs, epi, a))
    && (forall a {:trigger HasPred(bs, lo, a)} :: a in bs ==> HasPred(bs, lo, a))
  }

  /** The blocks tile [lo, epi): disjoint, with no gap before, between or after. */
  ghost predicate Tiled(bs: Blocks, lo: int, epi: int) {
    && lo <= epi
    && (lo == epi || lo in bs)
    && Spaced(bs, lo, epi)
    && Chained(bs, lo, epi)
  }

  /** The last word of every block is 0 or the block's size in bytes. */
  ghost predicate FootersOK(bs: Blocks) {
    forall a :: a in bs ==> bs[a].foot == 0 || bs[a].foot == 4 * bs[a].words
  }

  ghost predicate Differ(s: seq<int>, i: nat, j: nat)
    requires i < |s| && j < |s|
  {
    i == j || s[i] != s[j]
  }

  ghost predicate Distinct(s: seq<int>) {
    forall i, j {:trigger Differ(s, i, j)} :: 0 <= i < |s| && 0 <= j < |s| ==> Differ(s, i, j)
  }

  /** The ring is the head followed by every free block exactly once. `out` is the
      free block that an operation has in hand and that is not on the list (NULL
      between operations). */
  ghost predicate RingOK(bs: Blocks, ring: seq<int>, out: int) {
    && |ring| >= 1 && ring[0] == HEAD
    && Distinct(ring)
    && (forall k :: 1 <= k < |ring| ==> ring[k] in bs && bs[ring[k]].free && ring[k] != out)
    && (forall a {:trigger a in ring} :: a in bs && bs[a].free && a != out ==> a in ring)
    && (out == NULL || (out in bs && bs[out].free))
  }

  ghost predicate IsAlloc(bs: Blocks, a: int) {
    a in bs && !bs[a].free
  }

  /** The live blocks are the allocated ones, and each has room for its request
      between the header and the footer. */
  ghost predicate LiveOK(bs: Blocks, live: map<int, nat>) {
    && (forall a {:trigger IsAlloc(bs, a)} :: IsAlloc(bs, a) ==> a in live)
    && (forall a {:trigger a in live} :: a in live ==> IsAlloc(bs, a) && live[a] + 4 * OVERHEAD <= 4 * bs[a].words)
  }

  /** The heap is laid out after a two-word prologue, and ends in the epilogue word
      unless mm_init has only placed the prologue. */
  ghost predicate BordersOK(s: State) {
    && HEAD + HEADER + 2 <= s.lo
    && (s.brk == s.epi + 1 || (s.blocks == map[] && s.lo == s.epi == s.brk))
  }

  ghost predicate Inv(s: State, out: int) {
    && BordersOK(s)
    && Tiled(s.blocks, s.lo, s.epi)
    && FootersOK(s.blocks)
    && RingOK(s.blocks, s.ring, out)
    && LiveOK(s.blocks, s.live)
  }

  /** What is left of the invariant when footers may hold anything. */
  ghost predicate Shape(s: State) {
    && BordersOK(s)
    && Tiled(s.blocks, s.lo, s.epi)
    && RingOK(s.blocks, s.ring, NULL)
    && LiveOK(s.blocks, s.live)
  }

  lemma {:induction false} InvIsShape(s: State)
    ensures Inv(s, NULL) <==> Shape(s) && FootersOK(s.blocks)
  {
  }

  // ---------- sequences without repetition ----------

  function IndexOf(ring: seq<int>, x: int): (k: nat)
    requires x in ring
    ensures k < |ring| && ring[k] == x
  {
    if ring[0] == x then 0 else 1 + IndexOf(ring[1..], x)
  }

  function RemoveAt(ring: seq<int>, k: nat): seq<int>
    requires k < |ring|
  {
    ring[..k] + ring[k + 1..]
  }

  function InsertAt(ring: seq<int>, k: nat, x: int): seq<int>
    requires k <= |ring|
  {
    ring[..k] + [x] + ring[k..]
  }

  function Without(ring: seq<int>, x: int): seq<int> {
    if x in ring then RemoveAt(ring, IndexOf(ring, x)) else ring
  }

  lemma {:induction false} WithoutIsRemoveAt(ring: seq<int>, k: nat)
    requires Distinct(ring) && k < |ring|
    ensures Without(ring, ring[k]) == RemoveAt(ring, k)
    ensures IndexOf(ring, ring[k]) == k
  {
    assert Differ(ring, IndexOf(ring, ring[k]), k);
  }

  lemma {:induction false} RemoveAtKeeps(ring: seq<int>, k: nat)
    requires Distinct(ring) && k < |ring|
    ensures Distinct(RemoveAt(ring, k))
    ensures forall x :: x in RemoveAt(ring, k) <==> x in ring && x != ring[k]
  {
    var r := RemoveAt(ring, k);
    forall i, j | 0 <= i < |r| && 0 <= j < |r|
      ensures Differ(r, i, j)
    {
      assert Differ(ring, if i < k then i else i + 1, if j < k then j else j + 1);
    }
    forall x | x in r
      ensures x in ring && x != ring[k]
    {
      var i := IndexOf(r, x);
      assert Differ(ring, if i < k then i else i + 1, k);
    }
    forall x | x in ring && x != ring[k]
      ensures x in r
    {
      var j := IndexOf(ring, x);
      assert r[if j < k then j else j - 1] == x;
    }
  }

  lemma {:induction false} WithoutKeeps(ring: seq<int>, x: int)
    requires Distinct(ring)
    ensures Distinct(Without(ring, x))
    ensures forall y :: y in Without(ring, x) <==> y in ring && y != x
    ensures |ring| >= 1 && ring[0] != x ==> |Without(ring, x)| >= 1 && Without(ring, x)[0] == ring[0]
  {
    if x in ring {
      RemoveAtKeeps(ring, IndexOf(ring, x));
    }
  }

  lemma {:induction false} InsertAtKeeps(ring: seq<int>, k: nat, x: int)
    requires Distinct(ring) && k <= |ring| && x !in ring
    ensures Distinct(InsertAt(ring, k, x))
    ensures forall y :: y in InsertAt(ring, k, x) <==> y in ring || y == x
  {
    var r := InsertAt(ring, k, x);
    assert r[k] == x;
    forall i, j | 0 <= i < |r| && 0 <= j < |r|
      ensures Differ(r, i, j)
    {
      assert i != k && j != k ==> Differ(ring, if i < k then i else i - 1, if j < k then j else j - 1);
    }
    forall y | y in ring
      ensures y in r
    {
      var j := IndexOf(ring, y);
      assert r[if j < k then j else j + 1] == y;
    }
  }

  // ---------- merging, splitting and appending blocks ----------

  /** Block x grows over its neighbour y; clear_block zeroes the merged footer. */
  function Merge(bs: Blocks, x: int, y: int): Blocks
    requires x in bs && y in bs
  {
    (bs - {y})[x := Block(bs[x].words + bs[y].words, bs[x].free, 0)]
  }

  lemma {:induction false} MergeSpaced(bs: Blocks, lo: int, epi: int, x: int, y: int)
    requires Spaced(bs, lo, epi) && IsPred(bs, x, y) && y in bs
    ensures Spaced(Merge(bs, x, y), lo, epi)
  {
    var r := Merge(bs, x, y);
    forall a, b | a in r && b in r
      ensures Apart(r, a, b)
    {
      assert Apart(bs, a, b) && Apart(bs, y, b) && Apart(bs, a, y);
    }
  }

  lemma {:induction false} MergeChained(bs: Blocks, lo: int, epi: int, x: int, y: int)
    requires Tiled(bs, lo, epi) && IsPred(bs, x, y) && y in bs
    ensures Chained(Merge(bs, x, y), lo, epi)
  {
    var r := Merge(bs, x, y);
    forall a | a in r
      ensures HasPred(r, lo, a) && HasNext(r, epi, a)
    {
      assert HasPred(bs, lo, a);
      if a != lo {
        var b :| IsPred(bs, b, a);
        assert IsPred(r, if b == y then x else b, a);
      }
      assert HasNext(bs, epi, if a == x then y else a) && Apart(bs, a, x);
    }
  }

  lemma {:induction false} MergeTiled(bs: Blocks, lo: int, epi: int, x: int, y: int)
    requires Tiled(bs, lo, epi) && IsPred(bs, x, y) && y in bs
    ensures Tiled(Merge(bs, x, y), lo, epi)
    ensures Merge(bs, x, y).Keys == bs.Keys - {y}
    ensures End(Merge(bs, x, y), x) == End(bs, y)
  {
    MergeSpaced(bs, lo, epi, x, y);
    MergeChained(bs, lo, epi, x, y);
  }

  /** Cut block a after w words: a keeps the first part, the rest becomes free. */
  function Split(bs: Blocks, a: int, w: int): Blocks
    requires a in bs
  {
    bs[a := Block(w, bs[a].free, 4 * w)][a + w := Block(bs[a].words - w, true, 4 * (bs[a].words - w))]
  }

  lemma {:induction false} SplitSpaced(bs: Blocks, lo: int, epi: int, a: int, w: int)
    requires Spaced(bs, lo, epi) && a in bs
    requires OVERHEAD <= w && w + OVERHEAD <= bs[a].words
    ensures a + w !in bs
    ensures Spaced(Split(bs, a, w), lo, epi)
  {
    var r := Split(bs, a, w);
    assert a + w in bs ==> Apart(bs, a, a + w);
    forall b, c | b in r && c in r
      ensures Apart(r, b, c)
    {
      var b' := if b == a + w then a else b;
      var c' := if c == a + w then a else c;
      assert Apart(bs, b', c');
    }
  }

  lemma {:induction false} SplitChained(bs: Blocks, lo: int, epi: int, a: int, w: int)
    requires Tiled(bs, lo, epi) && a in bs && a + w !in bs
    requires OVERHEAD <= w && w + OVERHEAD <= bs[a].words
    ensures Chained(Split(bs, a, w), lo, epi)
  {
    var r := Split(bs, a, w);
    forall b | b in r
      ensures HasPred(r, lo, b) && HasNext(r, epi, b)
    {
      if b == a + w {
        assert IsPred(r, a, b);
      } else if b != lo {
        assert HasPred(bs, lo, b);
        var c :| IsPred(bs, c, b);
        assert IsPred(r, if c == a then a + w else c, b);
      }
      assert HasNext(bs, epi, if b == a + w then a else b);
    }
  }

  lemma {:induction false} SplitTiled(bs: Blocks, lo: int, epi: int, a: int, w: int)
    requires Tiled(bs, lo, epi) && a in bs
    requires OVERHEAD <= w && w + OVERHEAD <= bs[a].words
    ensures a + w !in bs
    ensures Tiled(Split(bs, a, w), lo, epi)
  {
    SplitSpaced(bs, lo, epi, a, w);
    SplitChained(bs, lo, epi, a, w);
  }

  lemma {:induction false} AppendSpaced(bs: Blocks, lo: int, epi: int, b: Block)
    requires lo <= epi && Spaced(bs, lo, epi) && OVERHEAD <= b.words
    ensures epi !in bs
    ensures Spaced(bs[epi := b], lo, epi + b.words)
  {
    var r := bs[epi := b];
    assert epi in bs ==> InBounds(bs, lo, epi, epi);
    forall a, c | a in r && c in r
      ensures Apart(r, a, c)
    {
      assert a in bs && c in bs ==> Apart(bs, a, c);
    }
  }

  lemma {:induction false} AppendTiled(bs: Blocks, lo: int, epi: int, b: Block)
    requires Tiled(bs, lo, epi) && OVERHEAD <= b.words
    ensures epi !in bs
    ensures Tiled(bs[epi := b], lo, epi + b.words)
  {
    AppendSpaced(bs, lo, epi, b);
    var r := bs[epi := b];
    forall a | a in r
      ensures HasPred(r, lo, a) && HasNext(r, epi + b.words, a)
    {
      if a != lo {
        if a == epi {
          LastBlock(bs, lo, epi);
        }
        assert a in bs ==> HasPred(bs, lo, a);
        var c :| IsPred(bs, c, a);
        assert IsPred(r, c, a);
      }
      assert a in bs ==> HasNext(bs, epi, a);
    }
  }

  /** A nonempty tiling has a block that ends at the epilogue. */
  lemma {:induction false} LastBlock(bs: Blocks, lo: int, epi: int)
    requires Tiled(bs, lo, epi) && lo < epi
    ensures exists b :: IsPred(bs, b, epi)
  {
    LastBlockFrom(bs, lo, epi, lo);
  }

  lemma {:induction false} LastBlockFrom(bs: Blocks, lo: int, epi: int, a: int)
    requires Tiled(bs, lo, epi) && a in bs
    ensures exists b :: IsPred(bs, b, epi)
    decreases epi - a
  {
    assert HasNext(bs, epi, a);
    if End(bs, a) == epi {
      assert IsPred(bs, a, epi);
    } else {
      LastBlockFrom(bs, lo, epi, End(bs, a));
    }
  }

  /** Changing only the flag or the footer of a block keeps the tiling. */
  lemma {:induction false} RetagTiled(bs: Blocks, lo: int, epi: int, a: int, b: Block)
    requires Tiled(bs, lo, epi) && a in bs && b.words == bs[a].words
    ensures Tiled(bs[a := b], lo, epi)
  {
    var r := bs[a := b];
    forall c, d | c in r && d in r
      ensures Apart(r, c, d)
    {
      assert Apart(bs, c, d);
    }
    forall c | c in r
      ensures HasPred(r, lo, c) && HasNext(r, epi, c)
    {
      assert HasPred(bs, lo, c) && HasNext(bs, epi, c);
      if c != lo {
        var d :| IsPred(bs, d, c);
        assert IsPred(r, d, c);
      }
    }
  }

  lemma {:induction false} PredUnique(bs: Blocks, lo: int, epi: int, a: int, b: int, c: int)
    requires Tiled(bs, lo, epi) && IsPred(bs, b, a) && IsPred(bs, c, a)
    ensures b == c
  {
    assert Apart(bs, b, c);
  }

  lemma {:induction false} NotOnRing(s: State, a: int, out: int)
    requires Inv(s, out) && a != HEAD
    requires a !in s.blocks || !s.blocks[a].free || a == out
    ensures a !in s.ring
  {
    forall k | 0 <= k < |s.ring|
      ensures s.ring[k] != a
    {
    }
  }

  lemma {:induction false} RingStart(s: State, out: int)
    requires Inv(s, out)
    ensures |s.ring| >= 1 && s.ring[0] == HEAD && Distinct(s.ring)
  {
  }

  lemma {:induction false} BlockBounds(s: State, out: int, a: int)
    requires Inv(s, out) && a in s.blocks
    ensures InBounds(s.blocks, s.lo, s.epi, a) && 0 < HEAD + HEADER < a
  {
    assert InBounds(s.blocks, s.lo, s.epi, a);
  }

  lemma {:induction false} LiveBlock(s: State, out: int, a: int)
    requires Inv(s, out) && a in s.live
    ensures a in s.blocks && IsAlloc(s.blocks, a) && s.live[a] + 4 * OVERHEAD <= 4 * s.blocks[a].words
    ensures InBounds(s.blocks, s.lo, s.epi, a) && 0 < HEAD + HEADER < a
  {
    assert IsAlloc(s.blocks, a);
    BlockBounds(s, out, a);
  }
}
