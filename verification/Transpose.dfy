/** The cache-blocked matrix transposes. A has N rows of M, B has M rows of N. */
module Transpose {
  import opened Basics

  predicate Shapes(m: int, n: int, a: array2<int>, b: array2<int>) {
    a != b && a.Length0 == n && a.Length1 == m && b.Length0 == m && b.Length1 == n
  }

  /** The cells in rows [r0, r1) and columns [c0, c1) of A have been copied to B. */
  ghost predicate Copied(a: array2<int>, b: array2<int>, r0: int, r1: int, c0: int, c1: int)
    requires a != b && a.Length0 == b.Length1 && a.Length1 == b.Length0
    requires 0 <= r0 && r1 <= a.Length0 && 0 <= c0 && c1 <= a.Length1
    reads a, b
  {
    forall r, c :: r0 <= r < r1 && c0 <= c < c1 ==> b[c, r] == a[r, c]
  }

  ghost predicate Transposed(m: int, n: int, a: array2<int>, b: array2<int>)
    requires Shapes(m, n, a, b)
    reads a, b
  {
    Copied(a, b, 0, n, 0, m)
  }

  /** The rows of A that transpose_submit reads: the special cases for 32 and 64 columns
      take the matrix to be square. */
  function RowsCovered(m: int, n: int): int {
    if m == 32 || m == 64 then m else n
  }

  /** One row of an 8 by 8 block. */
  method CopyEight(a: array2<int>, b: array2<int>, k: int, j: int)
    requires a != b && a.Length0 == b.Length1 && a.Length1 == b.Length0
    requires 0 <= k < a.Length0 && 0 <= j && j + 8 <= a.Length1
    modifies b
    ensures Copied(a, b, k, k + 1, j, j + 8)
    ensures forall c, r :: 0 <= c < b.Length0 && 0 <= r < b.Length1 && (r != k || !(j <= c < j + 8)) ==>
              b[c, r] == old(b[c, r])
  {
    var v1, v2, v3, v4 := a[k, j], a[k, j + 1], a[k, j + 2], a[k, j + 3];
    var v5, v6, v7, v8 := a[k, j + 4], a[k, j + 5], a[k, j + 6], a[k, j + 7];
    b[j, k] := v1;
    b[j + 1, k] := v2;
    b[j + 2, k] := v3;
    b[j + 3, k] := v4;
    b[j + 4, k] := v5;
    b[j + 5, k] := v6;
    b[j + 6, k] := v7;
    b[j + 7, k] := v8;
  }

  method Submit32(n: int, a: array2<int>, b: array2<int>)
    requires Shapes(32, n, a, b) && n >= 32
    modifies b
    ensures Copied(a, b, 0, 32, 0, 32)
    ensures forall c, r :: 0 <= c < 32 <= r < n ==> b[c, r] == old(b[c, r])
  {
    var i := 0;
    while i < 32
      invariant 0 <= i <= 32 && i % 8 == 0
      invariant Copied(a, b, 0, i, 0, 32)
      invariant forall c, r :: 0 <= c < 32 <= r < n ==> b[c, r] == old(b[c, r])
    {
      var j := 0;
      while j < 32
        invariant 0 <= j <= 32 && j % 8 == 0
        invariant Copied(a, b, 0, i, 0, 32) && Copied(a, b, i, i + 8, 0, j)
        invariant forall c, r :: 0 <= c < 32 <= r < n ==> b[c, r] == old(b[c, r])
      {
        for k := i to i + 8
          invariant Copied(a, b, 0, i, 0, 32) && Copied(a, b, i, i + 8, 0, j) && Copied(a, b, i, k, j, j + 8)
          invariant forall c, r :: 0 <= c < 32 <= r < n ==> b[c, r] == old(b[c, r])
        {
          CopyEight(a, b, k, j);
        }
        j := j + 8;
      }
      i := i + 8;
    }
  }

  method Submit64(n: int, a: array2<int>, b: array2<int>)
    requires Shapes(64, n, a, b) && n >= 64
    modifies b
    ensures Copied(a, b, 0, 64, 0, 64)
    ensures forall c, r :: 0 <= c < 64 <= r < n ==> b[c, r] == old(b[c, r])
  {
    var i := 0;
    while i < 64
      invariant 0 <= i <= 64 && i % 4 == 0
      invariant Copied(a, b, 0, i, 0, 64)
      invariant forall c, r :: 0 <= c < 64 <= r < n ==> b[c, r] == old(b[c, r])
    {
      var j := 0;
      while j < 64
        invariant 0 <= j <= 64 && j % 4 == 0
        invariant Copied(a, b, 0, i, 0, 64) && Copied(a, b, i, i + 4, 0, j)
        invariant forall c, r :: 0 <= c < 64 <= r < n ==> b[c, r] == old(b[c, r])
      {
        for k := i to i + 4
          invariant Copied(a, b, 0, i, 0, 64) && Copied(a, b, i, i + 4, 0, j) && Copied(a, b, i, k, j, j + 4)
          invariant forall c, r :: 0 <= c < 64 <= r < n ==> b[c, r] == old(b[c, r])
        {
          var v1, v2, v3, v4 := a[k, j], a[k, j + 1], a[k, j + 2], a[k, j + 3];
          b[j, k] := v1;
          b[j + 1, k] := v2;
          b[j + 2, k] := v3;
          b[j + 3, k] := v4;
        }
        j := j + 4;
      }
      i := i + 4;
    }
  }

  method SubmitTiled(m: int, n: int, a: array2<int>, b: array2<int>)
    requires Shapes(m, n, a, b)
    modifies b
    ensures Transposed(m, n, a, b)
  {
    var i := 0;
    while i < n
      invariant 0 <= i && Copied(a, b, 0, Min(i, n), 0, m)
    {
      var j := 0;
      var iEnd := Min(i + 17, n);
      while j < m
        invariant 0 <= j && Copied(a, b, 0, i, 0, m) && Copied(a, b, i, iEnd, 0, Min(j, m))
      {
        var k := i;
        var jEnd := Min(j + 17, m);
        while k < i + 17 && k < n
          invariant i <= k <= iEnd
          invariant Copied(a, b, 0, i, 0, m) && Copied(a, b, i, iEnd, 0, j) && Copied(a, b, i, k, j, jEnd)
        {
          var l := j;
          while l < j + 17 && l < m
            invariant j <= l <= jEnd
            invariant Copied(a, b, 0, i, 0, m) && Copied(a, b, i, iEnd, 0, j) && Copied(a, b, i, k, j, jEnd)
            invariant Copied(a, b, k, k + 1, j, l)
          {
            b[l, k] := a[k, l];
            l := l + 1;
          }
          k := k + 1;
        }
        j := j + 17;
      }
      i := i + 17;
    }
  }

  /** transpose_submit: B becomes the transpose of A in the columns that are covered, and
      the others keep what they held; A is not written. */
  method TransposeSubmit(m: int, n: int, a: array2<int>, b: array2<int>)
    requires Shapes(m, n, a, b) && RowsCovered(m, n) <= n
    modifies b
    ensures Copied(a, b, 0, RowsCovered(m, n), 0, m)
    ensures forall c, r :: 0 <= c < m && RowsCovered(m, n) <= r < n ==> b[c, r] == old(b[c, r])
    ensures Transposed(m, n, a, b) <==>
              forall c, r :: 0 <= c < m && RowsCovered(m, n) <= r < n ==> old(b[c, r]) == a[r, c]
  {
    if m == 32 {
      Submit32(n, a, b);
    } else if m == 64 {
      Submit64(n, a, b);
    } else {
      SubmitTiled(m, n, a, b);
    }
  }

  /** trans, the row-wise scan. */
  method Trans(m: int, n: int, a: array2<int>, b: array2<int>)
    requires Shapes(m, n, a, b)
    modifies b
    ensures Transposed(m, n, a, b)
  {
    for i := 0 to n
      invariant Copied(a, b, 0, i, 0, m)
    {
      for j := 0 to m
        invariant Copied(a, b, 0, i, 0, m) && Copied(a, b, i, i + 1, 0, j)
      {
        var tmp := a[i, j];
        b[j, i] := tmp;
      }
    }
  }

  /** is_transpose */
  method IsTranspose(m: int, n: int, a: array2<int>, b: array2<int>) returns (yes: bool)
    requires Shapes(m, n, a, b)
    ensures yes <==> Transposed(m, n, a, b)
  {
    for i := 0 to n
      invariant Copied(a, b, 0, i, 0, m)
    {
      for j := 0 to m
        invariant Copied(a, b, i, i + 1, 0, j)
      {
        if a[i, j] != b[j, i] {
          return false;
        }
      }
    }
    return true;
  }

  /** The two functions agree: a matrix has only one transpose. */
  lemma {:induction false} TransposeUnique(m: int, n: int, a: array2<int>, b: array2<int>, b': array2<int>)
    requires Shapes(m, n, a, b) && Shapes(m, n, a, b')
    requires Transposed(m, n, a, b) && Transposed(m, n, a, b')
    ensures forall c, r :: 0 <= c < m && 0 <= r < n ==> b[c, r] == b'[c, r]
  {
    forall c, r | 0 <= c < m && 0 <= r < n
      ensures b[c, r] == b'[c, r]
    {
      assert b[c, r] == a[r, c];
    }
  }

  /** A matrix of 33 rows and 32 columns whose last row transpose_submit leaves out. */
  method LastRowMissing() returns (a: array2<int>, b: array2<int>)
    ensures Shapes(32, 33, a, b) && !Transposed(32, 33, a, b)
  {
    a := new int[33, 32]((_, _) => 1);
    b := new int[32, 33]((_, _) => 0);
    TransposeSubmit(32, 33, a, b);
    assert b[0, 32] == 0 != a[32, 0];
  }
}
