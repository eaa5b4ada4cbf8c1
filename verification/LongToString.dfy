/** The signal-safe number printer: digits are written backwards into the caller's
    buffer, which is then reversed in place. */
module LongToString {
  import opened Basics

  const LONG_MAX := 0x7fff_ffff_ffff_ffff
  const LONG_MIN := -0x8000_0000_0000_0000

  type Long = x: int | LONG_MIN <= x <= LONG_MAX

  /** Negation in a long, taken to wrap around: the least number is its own negation. */
  function Negate(v: Long): Long {
    if v == LONG_MIN then LONG_MIN else -v
  }

  /** Division and remainder truncate toward zero. */
  function TruncDiv(a: int, b: int): int
    requires b >= 2
  {
    if a >= 0 then a / b else -((-a) / b)
  }

  function TruncMod(a: int, b: int): (r: int)
    requires b >= 2
    ensures if a >= 0 then 0 <= r < b else -b < r <= 0
  {
    if a >= 0 then a % b else -((-a) % b)
  }

  /** The character for a remainder; negative ones fall below '0'. */
  function DigitChar(c: int): char
    requires -36 < c < 36
  {
    if c < 10 then (c + '0' as int) as char else (c - 10 + 'a' as int) as char
  }

  // ---------- the text of a number ----------

  /** Digits of n, least significant first. */
  function Digits(n: nat, b: int): (s: string)
    requires 2 <= b <= 36
    ensures |s| >= 1
    decreases n
  {
    if n < b then [DigitChar(n)] else HalfOrLess(n, b); [DigitChar(n % b)] + Digits(n / b, b)
  }

  /** What the printer writes for v before reversing. */
  function Backwards(v: Long, b: int): string
    requires 2 <= b <= 36
  {
    if v == LONG_MIN then [DigitChar(TruncMod(LONG_MIN, b)), '-']
    else if v < 0 then Digits(-v, b) + ['-']
    else Digits(v, b)
  }

  function Text(v: Long, b: int): string
    requires 2 <= b <= 36
  {
    Reversed(Backwards(v, b))
  }

  // ---------- reading a number back ----------

  datatype Option<T> = None | Some(value: T)

  function DigitValue(c: char, b: int): Option<int> {
    var d := if '0' <= c <= '9' then c as int - '0' as int
             else if 'a' <= c <= 'z' then c as int - 'a' as int + 10 else -1;
    if 0 <= d < b then Some(d) else None
  }

  /** Reads an unsigned number: nothing but digits, at least one. */
  function ParseNat(s: string, b: int): Option<int>
    requires 2 <= b <= 36
  {
    if s == [] then None
    else
      match DigitValue(s[|s| - 1], b)
      case None => None
      case Some(d) =>
        if |s| == 1 then Some(d)
        else
          match ParseNat(s[..|s| - 1], b)
          case None => None
          case Some(n) => Some(n * b + d)
  }

  function Parse(s: string, b: int): Option<int>
    requires 2 <= b <= 36
  {
    if s != [] && s[0] == '-' then
      match ParseNat(s[1..], b)
      case None => None
      case Some(n) => Some(-n)
    else
      match ParseNat(s, b)
      case None => None
      case Some(n) => Some(n)
  }

  lemma {:induction false} DigitRoundTrip(d: nat, b: int)
    requires d < b <= 36
    ensures DigitValue(DigitChar(d), b) == Some(d)
    ensures DigitChar(d) != '-' && (DigitChar(d) == '0' <==> d == 0)
  {
  }

  lemma {:induction false} ReversedCons(c: char, s: string)
    ensures Reversed([c] + s) == Reversed(s) + [c]
  {
    assert ([c] + s)[1..] == s;
  }

  lemma {:induction false} ReversedSnoc(s: string, c: char)
    ensures Reversed(s + [c]) == [c] + Reversed(s)
  {
    if s != [] {
      assert (s + [c])[1..] == s[1..] + [c];
      ReversedSnoc(s[1..], c);
    } else {
      assert s + [c] == [c] && Reversed([c]) == [c];
    }
  }

  lemma {:induction false} ParseSnoc(u: string, c: char, b: int, n: int, d: int)
    requires 2 <= b <= 36 && u != "" && ParseNat(u, b) == Some(n) && DigitValue(c, b) == Some(d)
    ensures ParseNat(u + [c], b) == Some(n * b + d)
  {
    hide DigitValue;
    assert (u + [c])[..|u|] == u;
  }

  lemma {:induction false} DigitsOfMore(n: nat, b: int)
    requires 2 <= b <= 36 && n >= b
    ensures Reversed(Digits(n, b)) == Reversed(Digits(n / b, b)) + [DigitChar(n % b)]
    ensures n == (n / b) * b + n % b && 0 < n / b < n
  {
    hide DigitChar, Reversed;
    Quotient(n, b);
    ReversedCons(DigitChar(n % b), Digits(n / b, b));
  }

  lemma {:induction false} Quotient(n: nat, b: int)
    requires b >= 2
    ensures n == (n / b) * b + n % b && 0 <= n % b < b
    ensures n >= b ==> 0 < n / b < n
  {
    HalfOrLess(n, b);
  }

  /** Reading the digits back gives the number; the first digit is 0 only for 0. */
  lemma {:induction false} DigitsRoundTrip(n: nat, b: int)
    requires 2 <= b <= 36
    ensures var t := Reversed(Digits(n, b));
            ParseNat(t, b) == Some(n) && t[0] != '-' && (t[0] == '0' <==> n == 0)
    decreases n
  {
    hide DigitChar, DigitValue, ParseNat;
    if n < b {
      DigitRoundTrip(n, b);
      assert Reversed(Digits(n, b)) == [DigitChar(n)];
      ParseOne(DigitChar(n), b);
    } else {
      DigitsOfMore(n, b);
      var q, d := n / b, n % b;
      DigitRoundTrip(d, b);
      DigitsRoundTrip(q, b);
      ParseSnoc(Reversed(Digits(q, b)), DigitChar(d), b, q, d);
    }
  }

  lemma {:induction false} ParseOne(c: char, b: int)
    requires 2 <= b <= 36
    ensures ParseNat([c], b) == DigitValue(c, b)
  {
  }

  /** For every base and every number but the least: reading the text back gives the
      number, '-' is there exactly for negative numbers, and no zero leads but in "0".
      For the least number, whose negation is itself, reading back fails. */
  lemma {:induction false} TextRoundTrip(v: Long, b: int)
    requires 2 <= b <= 36
    ensures Parse(Text(v, b), b) == Some(v) <==> v != LONG_MIN
    ensures v != LONG_MIN ==>
              var t := Text(v, b);
              && (t[0] == '-' <==> v < 0)
              && (v > 0 ==> t[0] != '0') && (v < 0 ==> |t| > 1 && t[1] != '0') && (v == 0 ==> t == "0")
  {
    if v == LONG_MIN {
      LeastNumber(b);
    } else if v < 0 {
      NegativeRoundTrip(v, b);
    } else {
      hide Digits, Reversed, ParseNat;
      DigitsRoundTrip(v, b);
      ZeroDigits(b);
    }
  }

  lemma {:induction false} ZeroDigits(b: int)
    requires 2 <= b <= 36
    ensures Reversed(Digits(0, b)) == "0"
  {
    assert Digits(0, b) == ['0'];
  }

  lemma {:induction false} NegativeRoundTrip(v: Long, b: int)
    requires 2 <= b <= 36 && LONG_MIN < v < 0
    ensures var t := Text(v, b);
            Parse(t, b) == Some(v) && t[0] == '-' && |t| > 1 && t[1] != '0'
  {
    hide Digits, Reversed, ParseNat;
    DigitsRoundTrip(-v, b);
    ReversedSnoc(Digits(-v, b), '-');
    assert (['-'] + Reversed(Digits(-v, b)))[1..] == Reversed(Digits(-v, b));
  }

  lemma {:induction false} LeastNumber(b: int)
    requires 2 <= b <= 36
    ensures Negate(LONG_MIN) == LONG_MIN
    ensures |Text(LONG_MIN, b)| == 2 && Text(LONG_MIN, b)[0] == '-' && Text(LONG_MIN, 10) == "-("
    ensures Parse(Text(LONG_MIN, b), b) != Some(LONG_MIN)
  {
    var c := DigitChar(TruncMod(LONG_MIN, b));
    assert Text(LONG_MIN, b) == ['-', c];
    assert ['-', c][1..] == [c];
    assert TruncMod(LONG_MIN, 10) == -8 && DigitChar(-8) == '(';
    assert Text(LONG_MIN, 10) == ['-', '('];
  }

  // ---------- how long it gets ----------

  lemma {:induction false} DigitsBound(n: nat, b: int, k: nat)
    requires 2 <= b <= 36 && k >= 1 && n < Pow2(k)
    ensures |Digits(n, b)| <= k
    decreases k
  {
    if n >= b {
      HalfOrLess(n, b);
      DigitsBound(n / b, b, k - 1);
    }
  }

  lemma {:induction false} AtLeastTwice(b: int, q: nat)
    requires b >= 2
    ensures b * q >= 2 * q
  {
  }

  lemma {:induction false} HalfOrLess(n: nat, b: int)
    requires b >= 2
    ensures 2 * (n / b) <= n
  {
    var q, r := n / b, n % b;
    assert n == b * q + r;
    AtLeastTwice(b, q);
  }

  lemma {:induction false} TextFits(v: Long, b: int)
    requires 2 <= b <= 36
    ensures |Backwards(v, b)| <= 64
  {
    hide Pow2, Digits;
    Pow2Is63();
    if v != LONG_MIN {
      DigitsBound(if v < 0 then -v else v, b, 63);
    }
  }

  lemma {:induction false} Pow2Is15()
    ensures Pow2(15) == 0x8000
  {
    assert Pow2(3) == 8;
    Pow2Sum(3, 3);
    Pow2Sum(6, 6);
    Pow2Sum(12, 3);
  }

  lemma {:induction false} Pow2Is63()
    ensures Pow2(63) == 0x8000_0000_0000_0000
  {
    Pow2Is15();
    Pow2Sum(15, 15);
    Pow2Sum(30, 30);
    Pow2Sum(60, 3);
    assert Pow2(3) == 8;
  }

  // ---------- the buffer ----------

  /** The characters before the first NUL. */
  ghost predicate HoldsString(s: seq<char>, t: string) {
    |t| < |s| && s[..|t|] == t && s[|t|] == '\0' && '\0' !in t
  }

  method StrLen(s: array<char>, ghost t: string) returns (n: nat)
    requires HoldsString(s[..], t)
    ensures n == |t|
  {
    n := 0;
    while s[n] != '\0'
      invariant n <= |t|
      decreases |t| - n
    {
      assert s[n] == s[..][..|t|][n];
      n := n + 1;
    }
  }

  /** sio_reverse */
  method SioReverse(s: array<char>, ghost t: string)
    requires HoldsString(s[..], t)
    modifies s
    ensures HoldsString(s[..], Reversed(t))
  {
    var n := StrLen(s, t);
    var i: int, j: int := 0, n - 1;
    while i < j
      invariant 0 <= i <= n && j == n - 1 - i
      invariant i <= j + 2
      invariant forall k :: 0 <= k < n && (k < i || k > j) ==> s[k] == t[n - 1 - k]
      invariant forall k :: i <= k <= j ==> s[k] == t[k]
      invariant s[n] == '\0'
      decreases j - i
    {
      s[i], s[j] := s[j], s[i];
      i, j := i + 1, j - 1;
    }
    assert s[..n] == Reversed(t);
  }

  lemma {:induction false} DigitsHaveNoNul(n: nat, b: int)
    requires 2 <= b <= 36
    ensures '\0' !in Digits(n, b)
    decreases n
  {
    hide DigitChar;
    if n < b {
      NotNul(n);
    } else {
      HalfOrLess(n, b);
      NotNul(n % b);
      DigitsHaveNoNul(n / b, b);
    }
  }

  lemma {:induction false} NotNul(d: nat)
    requires d < 36
    ensures DigitChar(d) != '\0'
  {
  }

  /** sio_ltoa */
  method SioLtoa(v0: Long, s: array<char>, b: int)
    requires 2 <= b <= 36 && s.Length > 64
    modifies s
    ensures HoldsString(s[..], Text(v0, b))
  {
    hide HoldsString;
    TextFits(v0, b);
    var v := v0;
    var i := 0;
    var neg := v < 0;
    if neg {
      v := Negate(v);
    }
    i := WriteDigits(v, s, b);
    if neg {
      s[i] := '-';
      i := i + 1;
    }
    s[i] := '\0';
    BackwardsHeld(s[..], v0, b, i);
    SioReverse(s, Backwards(v0, b));
  }

  /** The characters the digit loop writes for v: for the least number the loop stops
      after one. */
  function LoopDigits(v: Long, b: int): string
    requires 2 <= b <= 36
  {
    if v < 0 then [DigitChar(TruncMod(v, b))] else Digits(v, b)
  }

  lemma {:induction false} SmallQuotient(v: nat, b: int)
    requires b >= 2
    ensures if v < b then v / b == 0 && v % b == v else 0 < v / b < v
  {
    if v >= b {
      HalfOrLess(v, b);
      assert v == b * (v / b) + v % b;
    }
  }

  lemma {:induction false} NextDigit(v: nat, b: int)
    requires 2 <= b <= 36
    ensures TruncDiv(v, b) >= 0 && (v > 0 ==> TruncDiv(v, b) < v)
    ensures Digits(v, b) == [DigitChar(TruncMod(v, b))] + if TruncDiv(v, b) > 0 then Digits(TruncDiv(v, b), b) else ""
  {
    hide DigitChar;
    SmallQuotient(v, b);
    assert TruncDiv(v, b) == v / b && TruncMod(v, b) == v % b;
  }

  lemma {:induction false} FirstDigit(v: Long, b: int)
    requires 2 <= b <= 36
    ensures LoopDigits(v, b) == [DigitChar(TruncMod(v, b))] + if TruncDiv(v, b) > 0 then Digits(TruncDiv(v, b), b)
              else ""
  {
    hide Digits, DigitChar;
    if v >= 0 {
      NextDigit(v, b);
    }
  }

  /** The do-while loop of sio_ltoa. */
  method WriteDigits(v0: Long, s: array<char>, b: int) returns (i: nat)
    requires 2 <= b <= 36 && |LoopDigits(v0, b)| < s.Length
    modifies s
    ensures i == |LoopDigits(v0, b)| && s[..i] == LoopDigits(v0, b)
  {
    hide Digits, DigitChar, TruncDiv, TruncMod, LoopDigits;
    var v: int := v0;
    ghost var all := LoopDigits(v0, b);
    FirstDigit(v0, b);
    s[0] := DigitChar(TruncMod(v, b));
    i := 1;
    v := TruncDiv(v, b);
    while v > 0
      invariant 1 <= i <= |all|
      invariant all == s[..i] + if v > 0 then Digits(v, b) else ""
      decreases v
    {
      ghost var done := s[..i];
      NextDigit(v, b);
      s[i] := DigitChar(TruncMod(v, b));
      assert s[..i + 1] == done + [DigitChar(TruncMod(v, b))];
      i := i + 1;
      v := TruncDiv(v, b);
    }
  }

  lemma {:induction false} BackwardsHeld(s: seq<char>, v: Long, b: int, i: nat)
    requires 2 <= b <= 36 && i < |s| && s[i] == '\0'
    requires s[..i] == LoopDigits(if v < 0 then Negate(v) else v, b) + (if v < 0 then ['-'] else [])
    ensures HoldsString(s, Backwards(v, b))
  {
    if v != LONG_MIN {
      DigitsHaveNoNul(if v < 0 then -v else v, b);
    }
    assert s[..i] == Backwards(v, b);
  }
}
