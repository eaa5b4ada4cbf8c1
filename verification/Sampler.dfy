/** The K-best sampler: it keeps the kbest smallest of all samples, in ascending order. */
module Sampler {

  ghost predicate Ascending(s: seq<real>) {
    forall i, j :: 0 <= i < j < |s| ==> s[i] <= s[j]
  }

  ghost predicate NoneAbove(m: multiset<real>, bound: real) {
    forall y :: y in m ==> y <= bound
  }

  /** No kept value is above a rejected one. */
  ghost predicate Separated(kept: multiset<real>, rejected: multiset<real>) {
    forall x {:trigger NoneAbove(kept, x)} :: x in rejected ==> NoneAbove(kept, x)
  }

  /** `best` are the k smallest of the samples, or all of them if they are fewer. */
  ghost predicate IsKBest(best: seq<real>, samples: multiset<real>, k: nat) {
    && Ascending(best)
    && |best| == (if |samples| < k then |samples| else k)
    && multiset(best) <= samples
    && Separated(multiset(best), samples - multiset(best))
  }

  /** x is put behind the last element that does not exceed it. */
  function Insert(s: seq<real>, x: real): (r: seq<real>)
    ensures |r| == |s| + 1
  {
    if s != [] && s[|s| - 1] > x then Insert(s[..|s| - 1], x) + [s[|s| - 1]] else s + [x]
  }

  /** The kept samples after one more has come in. */
  function Add(best: seq<real>, k: nat, x: real): seq<real>
    requires 1 <= k
  {
    if |best| < k then Insert(best, x)
    else if x < best[|best| - 1] then Insert(best[..|best| - 1], x)
    else best
  }

  lemma {:induction false} SnocAscends(s: seq<real>, last: real)
    ensures Ascending(s + [last]) <==> Ascending(s) && NoneAbove(multiset(s), last)
  {
    var t := s + [last];
    if Ascending(t) {
      forall i, j | 0 <= i < j < |s|
        ensures s[i] <= s[j]
      {
        assert t[i] <= t[j];
      }
      forall y | y in multiset(s)
        ensures y <= last
      {
        var i :| 0 <= i < |s| && s[i] == y;
        assert t[i] <= t[|s|];
      }
    }
    if Ascending(s) && NoneAbove(multiset(s), last) {
      forall i, j | 0 <= i < j < |t|
        ensures t[i] <= t[j]
      {
        assert s[i] in multiset(s);
      }
    }
  }

  lemma {:induction false} InsertKeeps(s: seq<real>, x: real)
    ensures multiset(Insert(s, x)) == multiset(s) + multiset{x}
  {
    if s != [] && s[|s| - 1] > x {
      assert s == s[..|s| - 1] + [s[|s| - 1]];
      InsertKeeps(s[..|s| - 1], x);
    }
  }

  lemma {:induction false} InsertSorts(s: seq<real>, x: real)
    requires Ascending(s)
    ensures Ascending(Insert(s, x))
  {
    if s != [] {
      var front, last := s[..|s| - 1], s[|s| - 1];
      assert s == front + [last];
      SnocAscends(front, last);
      if last > x {
        InsertSorts(front, x);
        InsertKeeps(front, x);
        SnocAscends(Insert(front, x), last);
      } else {
        assert NoneAbove(multiset(s), x);
        SnocAscends(s, x);
      }
    }
  }

  /** Adding a sample to the k best gives the k best. */
  lemma {:induction false} AddKeepsKBest(best: seq<real>, samples: multiset<real>, k: nat, x: real)
    requires IsKBest(best, samples, k) && 1 <= k
    ensures IsKBest(Add(best, k, x), samples + multiset{x}, k)
  {
    hide Ascending, NoneAbove;
    var last := if best == [] then x else best[|best| - 1];
    if |best| < k {
      InsertSorts(best, x);
      InsertKeeps(best, x);
      AllKept(best, samples);
    } else {
      var front := best[..|best| - 1];
      assert best == front + [last];
      assert multiset(best) == multiset(front) + multiset{last};
      SnocAscends(front, last);
      if x < last {
        InsertSorts(front, x);
        InsertKeeps(front, x);
        SwapKeepsSeparated(multiset(front), samples, last, x);
      } else {
        KeepKeepsSeparated(multiset(front), samples, last, x);
      }
    }
  }

  /** The largest kept value makes room for a smaller one. */
  lemma {:induction false} SwapKeepsSeparated(front: multiset<real>, samples: multiset<real>, last: real, x: real)
    requires front + multiset{last} <= samples && x < last && NoneAbove(front, last)
    requires Separated(front + multiset{last}, samples - (front + multiset{last}))
    ensures front + multiset{x} <= samples + multiset{x}
    ensures Separated(front + multiset{x}, samples + multiset{x} - (front + multiset{x}))
  {
    var rest := samples - (front + multiset{last});
    assert samples + multiset{x} - (front + multiset{x}) == rest + multiset{last};
    forall y | y in rest + multiset{last}
      ensures NoneAbove(front + multiset{x}, y)
    {
      assert y in rest ==> NoneAbove(front + multiset{last}, y) && last in front + multiset{last};
    }
  }

  lemma {:induction false} KeepKeepsSeparated(front: multiset<real>, samples: multiset<real>, last: real, x: real)
    requires front + multiset{last} <= samples && last <= x && NoneAbove(front, last)
    requires Separated(front + multiset{last}, samples - (front + multiset{last}))
    ensures Separated(front + multiset{last}, samples + multiset{x} - (front + multiset{last}))
  {
    var rest := samples - (front + multiset{last});
    assert samples + multiset{x} - (front + multiset{last}) == rest + multiset{x};
    forall y | y in rest + multiset{x}
      ensures NoneAbove(front + multiset{last}, y)
    {
    }
  }

  lemma {:induction false} KBestLength(best: seq<real>, samples: multiset<real>, k: nat)
    requires IsKBest(best, samples, k)
    ensures |best| == (if |samples| < k then |samples| else k)
  {
  }

  lemma {:induction false} AllKept(best: seq<real>, samples: multiset<real>)
    requires multiset(best) <= samples && |best| == |samples|
    ensures multiset(best) == samples
  {
    assert |samples - multiset(best)| == 0;
  }

  lemma {:induction false} SinkStep(s: seq<real>, x: real, pos: nat)
    requires 0 < pos <= |s| && s[pos - 1] > x
    ensures Insert(s[..pos], x) + s[pos..] == Insert(s[..pos - 1], x) + s[pos - 1..]
  {
    assert s[..pos][..pos - 1] == s[..pos - 1] && s[..pos][pos - 1] == s[pos - 1];
    assert s[pos - 1..] == [s[pos - 1]] + s[pos..];
  }

  lemma {:induction false} SinkStops(s: seq<real>, x: real, pos: nat)
    requires pos <= |s| && (pos > 0 ==> s[pos - 1] <= x)
    ensures Insert(s[..pos], x) == s[..pos] + [x]
  {
    assert pos > 0 ==> s[..pos][pos - 1] == s[pos - 1];
  }

  /** The array when x has sunk to position pos of s. */
  function Sunk(s: seq<real>, x: real, rest: seq<real>, pos: nat): seq<real>
    requires pos <= |s|
  {
    s[..pos] + [x] + s[pos..] + rest
  }

  lemma {:induction false} Placed(s: seq<real>, x: real, rest: seq<real>, last: nat, v: seq<real>)
    requires last < |v| && s == v[..last] && x == v[last] && rest == v[last + 1..]
    ensures v == Sunk(s, x, rest, last) && Insert(s, x) == Insert(s[..last], x) + s[last..]
  {
    assert s[..last] == s && s[last..] == [];
  }

  lemma {:induction false} SunkAt(s: seq<real>, x: real, rest: seq<real>, pos: nat, v: seq<real>)
    requires pos <= |s| && v == Sunk(s, x, rest, pos)
    ensures |v| == |s| + 1 + |rest| && v[pos] == x && (pos > 0 ==> v[pos - 1] == s[pos - 1])
  {
  }

  lemma {:induction false} SunkSwapped(s: seq<real>, x: real, rest: seq<real>, pos: nat)
    requires 0 < pos <= |s|
    ensures var v := Sunk(s, x, rest, pos);
            |v| > pos && v[pos - 1 := v[pos]][pos := v[pos - 1]] == Sunk(s, x, rest, pos - 1)
  {
    var v := Sunk(s, x, rest, pos);
    assert v[pos] == x && v[pos - 1] == s[pos - 1];
    assert s[pos - 1..] == [s[pos - 1]] + s[pos..] && s[..pos] == s[..pos - 1] + [s[pos - 1]];
  }

  lemma {:induction false} SunkParts(s: seq<real>, x: real, rest: seq<real>, pos: nat)
    requires pos <= |s|
    ensures var v := Sunk(s, x, rest, pos);
            v[..|s| + 1] == s[..pos] + [x] + s[pos..] && v[|s| + 1..] == rest
  {
  }

  class Sampler {
    const values: array<real>
    const kbest: nat
    var sampleCount: nat
    ghost var samples: multiset<real>

    /** The values that count. */
    ghost function Best(): seq<real>
      requires values.Length == kbest
      reads this, values
    {
      values[..if sampleCount < kbest then sampleCount else kbest]
    }

    ghost predicate Valid()
      reads this, values
    {
      values.Length == kbest && 1 <= kbest && |samples| == sampleCount && IsKBest(Best(), samples, kbest)
    }

    /** init_sampler */
    constructor (kbest: nat)
      requires 1 <= kbest
      ensures Valid() && this.kbest == kbest && samples == multiset{} && fresh(values)
    {
      values := new real[kbest](_ => 0.0);
      this.kbest := kbest;
      sampleCount := 0;
      samples := multiset{};
    }

    /** add_sample's insertion loop: the new value sinks to its place. */
    method Sink(last: nat)
      requires last < values.Length
      modifies values
      ensures values[..last + 1] == Insert(old(values[..last]), old(values[last]))
      ensures values[last + 1..] == old(values[last + 1..])
    {
      hide Insert;
      ghost var s, x, rest := values[..last], values[last], values[last + 1..];
      var pos := last;
      Placed(s, x, rest, last, values[..]);
      while pos > 0 && values[pos - 1] > values[pos]
        invariant 0 <= pos <= last && values[..] == Sunk(s, x, rest, pos)
        invariant Insert(s, x) == Insert(s[..pos], x) + s[pos..]
      {
        SunkAt(s, x, rest, pos, values[..]);
        SinkStep(s, x, pos);
        SunkSwapped(s, x, rest, pos);
        var temp := values[pos - 1];
        values[pos - 1] := values[pos];
        values[pos] := temp;
        pos := pos - 1;
      }
      SunkAt(s, x, rest, pos, values[..]);
      SinkStops(s, x, pos);
      SunkParts(s, x, rest, pos);
    }

    method AddSample(val: real)
      requires Valid()
      modifies this, values
      ensures Valid() && samples == old(samples) + multiset{val}
      ensures Best() == Add(old(Best()), kbest, val) && sampleCount == old(sampleCount) + 1
    {
      hide IsKBest, Insert;
      ghost var best := Best();
      KBestLength(best, samples, kbest);
      AddKeepsKBest(best, samples, kbest, val);
      if sampleCount < kbest {
        values[sampleCount] := val;
        assert values[..sampleCount] == best;
        Sink(sampleCount);
      } else if val < values[kbest - 1] {
        values[kbest - 1] := val;
        assert values[..kbest - 1] == best[..kbest - 1];
        Sink(kbest - 1);
      }
      sampleCount := sampleCount + 1;
      samples := samples + multiset{val};
      assert Best() == Add(best, kbest, val);
    }

    /** has_converged: all kept values are within epsilon of the smallest. */
    method HasConverged(epsilon: real) returns (yes: bool)
      requires Valid()
      ensures yes <==> sampleCount >= kbest && forall i :: 0 <= i < kbest ==> values[i] <= (1.0 + epsilon) * values[0]
    {
      yes := sampleCount >= kbest && (1.0 + epsilon) * values[0] >= values[kbest - 1];
      if yes {
        forall i | 0 <= i < kbest
          ensures values[i] <= (1.0 + epsilon) * values[0]
        {
          assert i < kbest - 1 ==> Best()[i] <= Best()[kbest - 1];
        }
      }
    }
  }

  lemma {:induction false} BestIsKBest(s: Sampler)
    requires s.Valid()
    ensures IsKBest(s.Best(), s.samples, s.kbest)
  {
  }

  /** Any number of samples. */
  method AddAll(s: Sampler, xs: seq<real>)
    requires s.Valid()
    modifies s, s.values
    ensures s.Valid() && s.samples == old(s.samples) + multiset(xs)
    ensures IsKBest(s.Best(), old(s.samples) + multiset(xs), s.kbest)
  {
    hide IsKBest, Insert, Add;
    for i := 0 to |xs|
      invariant s.Valid() && s.samples == old(s.samples) + multiset(xs[..i])
    {
      assert xs[..i + 1] == xs[..i] + [xs[i]];
      s.AddSample(xs[i]);
    }
    assert xs[..|xs|] == xs;
    BestIsKBest(s);
  }
}
