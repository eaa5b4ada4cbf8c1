/** 32-bit words, the size word of a block header, and the bytes of a word. */
module Words {
  import opened Basics

  const TWO31 := 0x8000_0000

  type Word = x: int | 0 <= x < TWO32

  /** SET_ALLOCATED, SET_FREE, IS_ALLOCATED and BLOCK_SIZE on a size word. */
  function SetAllocated(h: Word): Word {
    if h % 2 == 0 then h + 1 else h
  }

  function SetFree(h: Word): Word {
    h - h % 2
  }

  predicate IsAllocated(h: Word) {
    h % 2 == 1
  }

  function BlockSize(h: Word): Word {
    h - h % 2
  }

  lemma {:induction false} PlainSize(words: int)
    requires 0 <= 4 * words < TWO32
    ensures BlockSize(4 * words) == SetFree(4 * words) == 4 * words && BlockSize(4 * words) / 4 == words
  {
  }

  /** get_block_size, with the wrap-around of 32-bit addition. */
  function GetBlockSize(size: Word): Word {
    var t := (size + 19) % TWO32;
    t - t % 4
  }

  /** The sum in get_block_size does not wrap. */
  predicate Roundable(size: Word) {
    size + 19 < TWO32
  }

  /** Nor does the sum in mm_realloc's comparison, which adds the size of a header and
      a footer to the rounded size. */
  predicate Representable(size: Word) {
    size + 35 < TWO32
  }

  lemma {:induction false} RepresentableIs(size: Word)
    ensures Representable(size) <==> Roundable(size) && GetBlockSize(size) + 16 < TWO32
  {
    var t := size + 19;
    assert Roundable(size) ==> GetBlockSize(size) == t - t % 4;
  }

  /** The rounded size is the least multiple of 4 with room for header, payload and
      footer, exactly when the addition does not wrap. */
  lemma {:induction false} BlockSizeHasRoom(size: Word)
    ensures GetBlockSize(size) % 4 == 0
    ensures size + 16 <= GetBlockSize(size) < size + 20 <==> Roundable(size)
    ensures size + 16 <= GetBlockSize(size) <==> Roundable(size)
  {
    var t := (size + 19) % TWO32;
    if size + 19 >= TWO32 {
      assert t == size + 19 - TWO32;
    }
  }

  /** A request near the end of the address range gets a block of no bytes. */
  lemma {:induction false} BlockSizeWraps()
    ensures GetBlockSize(TWO32 - 19) == 0
  {
  }

  // ---------- bytes of a word, lowest address first ----------

  function Pow256(r: nat): (p: int)
    requires r <= 4
    ensures p >= 1
  {
    if r == 0 then 1 else if r == 1 then 0x100 else if r == 2 then 0x1_0000
    else if r == 3 then 0x100_0000 else TWO32
  }

  function Byte(w: Word, i: nat): (b: int)
    requires i < 4
    ensures 0 <= b < 256
  {
    (w / Pow256(i)) % 256
  }

  /** The word whose low r bytes come from `low` and the others from `high`: what
      memcpy of r bytes leaves in a word. */
  function Splice(low: Word, high: Word, r: nat): (w: Word)
    requires r < 4
  {
    SpliceInRange(low, high, r);
    low % Pow256(r) + (high - high % Pow256(r))
  }

  lemma {:induction false} SpliceInRange(low: Word, high: Word, r: nat)
    requires r < 4
    ensures 0 <= low % Pow256(r) + (high - high % Pow256(r)) < TWO32
  {
    var p := Pow256(r);
    var q := TWO32 / p;
    assert p * q == TWO32;
    assert high == p * (high / p) + high % p;
  }

  predicate IsByte(b: int) {
    0 <= b < 256
  }

  function FromBytes(b0: int, b1: int, b2: int, b3: int): int {
    b0 + 0x100 * b1 + 0x1_0000 * b2 + 0x100_0000 * b3
  }

  lemma {:induction false} BytesOf(w: Word, b0: int, b1: int, b2: int, b3: int)
    requires IsByte(b0) && IsByte(b1) && IsByte(b2) && IsByte(b3)
    requires w == FromBytes(b0, b1, b2, b3)
    ensures Byte(w, 0) == b0 && Byte(w, 1) == b1 && Byte(w, 2) == b2 && Byte(w, 3) == b3
  {
    assert w / 0x100 == b1 + 0x100 * b2 + 0x1_0000 * b3;
    assert w / 0x1_0000 == b2 + 0x100 * b3;
    assert w / 0x100_0000 == b3;
  }

  lemma {:induction false} Reassemble(w: Word)
    ensures w == FromBytes(Byte(w, 0), Byte(w, 1), Byte(w, 2), Byte(w, 3))
  {
    var q1 := w / 0x100;
    var q2 := q1 / 0x100;
    assert q2 == w / 0x1_0000;
    assert q2 / 0x100 == w / 0x100_0000;
  }

  lemma {:induction false} LowByte(b0: int, high: int)
    requires IsByte(b0)
    ensures (b0 + 0x100 * high) % 0x100 == b0
  {
  }

  lemma {:induction false} LowTwo(low: int, high: int)
    requires 0 <= low < 0x1_0000
    ensures (low + 0x1_0000 * high) % 0x1_0000 == low
  {
  }

  lemma {:induction false} LowThree(low: int, high: int)
    requires 0 <= low < 0x100_0000
    ensures (low + 0x100_0000 * high) % 0x100_0000 == low
  {
  }

  lemma {:induction false} LowBytes(b0: int, b1: int, b2: int, b3: int)
    requires IsByte(b0) && IsByte(b1) && IsByte(b2) && IsByte(b3)
    ensures var w := FromBytes(b0, b1, b2, b3);
            w % 1 == 0 && w % 0x100 == b0 && w % 0x1_0000 == b0 + 0x100 * b1
            && w % 0x100_0000 == b0 + 0x100 * b1 + 0x1_0000 * b2
  {
    LowByte(b0, b1 + 0x100 * b2 + 0x1_0000 * b3);
    LowTwo(b0 + 0x100 * b1, b2 + 0x100 * b3);
    LowThree(b0 + 0x100 * b1 + 0x1_0000 * b2, b3);
  }

  lemma {:induction false} SpliceBytes(low: Word, high: Word, r: nat, i: nat)
    requires r < 4 && i < 4
    ensures Byte(Splice(low, high, r), i) == Byte(if i < r then low else high, i)
  {
    Reassemble(low);
    Reassemble(high);
    var l0, l1, l2, l3 := Byte(low, 0), Byte(low, 1), Byte(low, 2), Byte(low, 3);
    var h0, h1, h2, h3 := Byte(high, 0), Byte(high, 1), Byte(high, 2), Byte(high, 3);
    LowBytes(l0, l1, l2, l3);
    LowBytes(h0, h1, h2, h3);
    BytesOf(Splice(low, high, r),
            if 0 < r then l0 else h0, if 1 < r then l1 else h1, if 2 < r then l2 else h2, h3);
  }
}
