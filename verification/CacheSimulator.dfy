/** The set-associative cache simulator: access_cache on a matrix of lines, what its age
    counters mean, and how far its victim is from the least recently used line. */
module CacheSimulator {
  import opened Basics

  datatype Line = Line(valid: bool, tag: int, counter: int)

  datatype Event = Hit | Fill | Evict

  // ---------- one access to one set ----------

  /** Where the first loop stops: at a matching valid line or at an invalid one. */
  function Scan(ls: seq<Line>, tag: int, from: nat): (i: nat)
    requires from <= |ls|
    ensures from <= i <= |ls|
    ensures forall j :: from <= j < i ==> ls[j].valid && ls[j].tag != tag
    ensures i < |ls| ==> !ls[i].valid || ls[i].tag == tag
    decreases |ls| - from
  {
    if from == |ls| || !ls[from].valid || ls[from].tag == tag then from else Scan(ls, tag, from + 1)
  }

  /** The first of the first n lines with the largest counter above -1, or -1. */
  function Oldest(ls: seq<Line>, n: nat): (v: int)
    requires n <= |ls|
    ensures -1 <= v < n
    ensures v == -1 ==> forall j :: 0 <= j < n ==> ls[j].counter <= -1
    ensures v >= 0 ==> ls[v].counter > -1 && forall j :: 0 <= j < n ==> ls[j].counter <= ls[v].counter
    ensures v >= 0 ==> forall j :: 0 <= j < v ==> ls[j].counter < ls[v].counter
  {
    if n == 0 then -1
    else
      var v := Oldest(ls, n - 1);
      if (if v == -1 then -1 else ls[v].counter) < ls[n - 1].counter then n - 1 else v
  }

  function Aged(ls: seq<Line>): (r: seq<Line>)
    ensures |r| == |ls| && forall i :: 0 <= i < |ls| ==> r[i] == ls[i].(counter := ls[i].counter + 1)
  {
    seq(|ls|, i requires 0 <= i < |ls| => ls[i].(counter := ls[i].counter + 1))
  }

  /** The line that an access to `tag` touches. */
  function Touched(ls: seq<Line>, tag: int): int {
    var i := Scan(ls, tag, 0);
    if i < |ls| then i else Oldest(ls, |ls|)
  }

  function EventOf(ls: seq<Line>, tag: int): Event {
    var i := Scan(ls, tag, 0);
    if i == |ls| then Evict else if ls[i].valid then Hit else Fill
  }

  /** The set after an access: all lines age, the touched one from 0, except that an
      evicting access resets its line after the others have aged. */
  function Access(ls: seq<Line>, tag: int): (r: seq<Line>)
    ensures |r| == |ls|
  {
    var t := Touched(ls, tag);
    if !(0 <= t < |ls|) then Aged(ls)
    else if EventOf(ls, tag).Evict? then Aged(ls)[t := Line(true, tag, 0)]
    else Aged(ls[t := Line(true, tag, 0)])
  }

  // ---------- what the counters mean ----------

  /** When a line was last touched, counting the accesses to its set from 0, and
      whether that access evicted. */
  datatype Touch = Touch(at: nat, evicted: bool)

  ghost predicate CounterOK(l: Line, t: Touch, n: nat) {
    t.at < n && l.counter == n - 1 - t.at + (if t.evicted then 0 else 1)
  }

  /** After n accesses: the first c lines are valid, with different tags and different
      last touches, and their counters tell the accesses since. */
  ghost predicate SetOK(ls: seq<Line>, ts: seq<Touch>, c: nat, n: nat) {
    && |ts| == |ls| && c <= |ls|
    && (forall i :: 0 <= i < |ls| ==> (ls[i].valid <==> i < c))
    && (forall i :: 0 <= i < c ==> CounterOK(ls[i], ts[i], n))
    && (forall i, j :: 0 <= i < j < c ==> ls[i].tag != ls[j].tag && ts[i].at != ts[j].at)
  }

  ghost predicate Resident(ls: seq<Line>, tag: int) {
    exists i :: 0 <= i < |ls| && ls[i].valid && ls[i].tag == tag
  }

  /** An access hits exactly when the tag is resident; otherwise it takes the next free
      line, or evicts when there is none. */
  lemma {:induction false} EventMeaning(ls: seq<Line>, ts: seq<Touch>, c: nat, n: nat, tag: int)
    requires SetOK(ls, ts, c, n) && ls != []
    ensures EventOf(ls, tag) == (if Resident(ls, tag) then Hit else if c < |ls| then Fill else Evict)
    ensures 0 <= Touched(ls, tag) < |ls|
    ensures EventOf(ls, tag).Fill? ==> Touched(ls, tag) == c
    ensures EventOf(ls, tag).Hit? ==> Touched(ls, tag) < c && ls[Touched(ls, tag)].tag == tag
  {
    var i := Scan(ls, tag, 0);
    if Resident(ls, tag) {
      var k :| 0 <= k < |ls| && ls[k].valid && ls[k].tag == tag;
      assert i <= k;
    }
    if i == |ls| {
      assert ls[|ls| - 1].valid;
      assert CounterOK(ls[0], ts[0], n);
    } else if !ls[i].valid {
      assert c <= i;
      assert !ls[c].valid;
    }
  }

  lemma {:induction false} AccessOK(ls: seq<Line>, ts: seq<Touch>, c: nat, n: nat, tag: int)
    requires SetOK(ls, ts, c, n) && ls != []
    ensures var e := EventOf(ls, tag);
            0 <= Touched(ls, tag) < |ts|
            && SetOK(Access(ls, tag), ts[Touched(ls, tag) := Touch(n, e.Evict?)], if e.Fill? then c + 1 else c, n + 1)
    ensures Resident(Access(ls, tag), tag)
    ensures var t, r := Touched(ls, tag), Access(ls, tag);
            && r[t].tag == tag && (EventOf(ls, tag).Fill? ==> t == c)
            && forall i :: 0 <= i < |ls| && i != t ==> r[i].tag == ls[i].tag
  {
    EventMeaning(ls, ts, c, n, tag);
    var t := Touched(ls, tag);
    var r := Access(ls, tag);
    assert r[t].valid && r[t].tag == tag;
    forall i | 0 <= i < c && i != t
      ensures r[i] == ls[i].(counter := ls[i].counter + 1) && ls[i].tag != tag && CounterOK(ls[i], ts[i], n)
    {
      if EventOf(ls, tag).Hit? {
        assert ls[if i < t then i else t].tag != ls[if i < t then t else i].tag;
      }
    }
  }

  /** The valid line that was touched longest ago. */
  ghost predicate LeastRecent(ts: seq<Touch>, l: nat) {
    l < |ts| && forall i :: 0 <= i < |ts| ==> ts[l].at <= ts[i].at
  }

  /** Line j ties with the least recently used line l: it was touched by the very next
      access, as a hit or a cold fill, while l was touched by an eviction. */
  ghost predicate Ties(ts: seq<Touch>, l: nat, j: nat)
    requires l < |ts| && j < |ts|
  {
    ts[j].at == ts[l].at + 1 && ts[l].evicted && !ts[j].evicted
  }

  /** In a full set the least recently used line always attains the largest counter, at
      most one other line shares it, and the victim is one of the two. It is the least
      recently used line exactly when no line in front of it ties with it. */
  lemma {:induction false} VictimIsNearlyLeastRecent(ls: seq<Line>, ts: seq<Touch>, n: nat, l: nat)
    requires SetOK(ls, ts, |ls|, n) && ls != [] && LeastRecent(ts, l)
    ensures forall j :: 0 <= j < |ls| ==> ls[j].counter <= ls[l].counter
    ensures forall j :: 0 <= j < |ls| && j != l ==> (ls[j].counter == ls[l].counter <==> Ties(ts, l, j))
    ensures forall j, k :: 0 <= j < |ls| && 0 <= k < |ls| && Ties(ts, l, j) && Ties(ts, l, k) ==> j == k
    ensures var v := Oldest(ls, |ls|);
            0 <= v < |ls| && (v == l || Ties(ts, l, v)) && (v == l <==> !exists j :: 0 <= j < l && Ties(ts, l, j))
  {
    assert CounterOK(ls[l], ts[l], n);
    forall j | 0 <= j < |ls|
      ensures ls[j].counter <= ls[l].counter
      ensures j != l ==> (ls[j].counter == ls[l].counter <==> Ties(ts, l, j))
    {
      assert CounterOK(ls[j], ts[j], n);
      if j != l {
        assert ts[if j < l then j else l].at != ts[if j < l then l else j].at;
      }
    }
    forall j, k | 0 <= j < k < |ls|
      ensures !(Ties(ts, l, j) && Ties(ts, l, k))
    {
      assert ts[j].at != ts[k].at;
    }
  }

  // ---------- a run of one set ----------

  datatype SetRun = SetRun(lines: seq<Line>, hits: nat, misses: nat, evictions: nat)

  function RunSet(ls: seq<Line>, tags: seq<int>): (r: SetRun)
    ensures |r.lines| == |ls|
    decreases |tags|
  {
    if tags == [] then SetRun(ls, 0, 0, 0)
    else
      var last := tags[|tags| - 1];
      var r := RunSet(ls, tags[..|tags| - 1]);
      var e := EventOf(r.lines, last);
      SetRun(Access(r.lines, last),
             r.hits + (if e.Hit? then 1 else 0),
             r.misses + (if e.Hit? then 0 else 1),
             r.evictions + (if e.Evict? then 1 else 0))
  }

  lemma {:induction false} RunSetSnoc(ls: seq<Line>, tags: seq<int>, tag: int)
    ensures var r, e := RunSet(ls, tags), EventOf(RunSet(ls, tags).lines, tag);
            RunSet(ls, tags + [tag]) ==
              SetRun(Access(r.lines, tag), r.hits + (if e.Hit? then 1 else 0),
                     r.misses + (if e.Hit? then 0 else 1), r.evictions + (if e.Evict? then 1 else 0))
  {
    hide Access, EventOf;
    assert (tags + [tag])[..|tags|] == tags;
  }

  /** Lines that are all invalid, whatever else they hold. */
  ghost predicate Cold(ls: seq<Line>) {
    forall i :: 0 <= i < |ls| ==> !ls[i].valid
  }

  /** The last reference to this tag, or -1. */
  function LastUse(tags: seq<int>, tag: int): (k: int)
    ensures -1 <= k < |tags|
    ensures k >= 0 ==> tags[k] == tag
    ensures forall j :: k < j < |tags| ==> tags[j] != tag
  {
    if tags == [] then -1
    else if tags[|tags| - 1] == tag then |tags| - 1
    else LastUse(tags[..|tags| - 1], tag)
  }

  /** The k-th reference of the run evicted a line. */
  predicate EvictedAt(ls: seq<Line>, tags: seq<int>, k: nat)
    requires k < |tags|
  {
    EventOf(RunSet(ls, tags[..k]).lines, tags[k]).Evict?
  }

  /** t is the last reference of the run to this tag. */
  ghost predicate IsLastTouch(ls: seq<Line>, tags: seq<int>, tag: int, t: Touch) {
    && t.at < |tags| && t.at == LastUse(tags, tag)
    && (t.evicted <==> EvictedAt(ls, tags, t.at))
  }

  lemma {:induction false} TouchStays(ls: seq<Line>, tags: seq<int>, last: int, tag: int, t: Touch)
    requires IsLastTouch(ls, tags, tag, t) && tag != last
    ensures IsLastTouch(ls, tags + [last], tag, t)
  {
    assert (tags + [last])[..|tags|] == tags;
    assert (tags + [last])[..t.at] == tags[..t.at];
  }

  lemma {:induction false} TouchIsNow(ls: seq<Line>, tags: seq<int>, last: int)
    ensures IsLastTouch(ls, tags + [last], last, Touch(|tags|, EventOf(RunSet(ls, tags).lines, last).Evict?))
  {
    assert (tags + [last])[..|tags|] == tags;
  }

  /** The set after these references is as SetOK says, with as many valid lines as misses
      without eviction, and the touches are the last references to the lines' tags. */
  ghost predicate RunOK(ls: seq<Line>, tags: seq<int>, ts: seq<Touch>) {
    var r := RunSet(ls, tags);
    && r.evictions <= r.misses
    && SetOK(r.lines, ts, r.misses - r.evictions, |tags|)
    && r.hits + r.misses == |tags|
    && forall i :: 0 <= i < r.misses - r.evictions ==> IsLastTouch(ls, tags, r.lines[i].tag, ts[i])
  }

  lemma {:induction false} RunSetOK(ls: seq<Line>, tags: seq<int>) returns (ts: seq<Touch>)
    requires Cold(ls) && ls != []
    ensures RunOK(ls, tags, ts)
    decreases |tags|
  {
    if tags == [] {
      ts := seq(|ls|, _ => Touch(0, false));
    } else {
      hide RunOK;
      var before, last := tags[..|tags| - 1], tags[|tags| - 1];
      assert tags == before + [last];
      var ts0 := RunSetOK(ls, before);
      ts := StepOK(ls, before, last, ts0);
    }
  }

  lemma {:induction false} StepOK(ls: seq<Line>, tags: seq<int>, last: int, ts: seq<Touch>) returns (ts': seq<Touch>)
    requires RunOK(ls, tags, ts) && ls != []
    ensures RunOK(ls, tags + [last], ts')
  {
    hide Access, EventOf, Touched, IsLastTouch, SetOK, RunSet;
    var r := RunSet(ls, tags);
    var c := r.misses - r.evictions;
    RunSetSnoc(ls, tags, last);
    StepTouches(ls, tags, last, ts, c);
    AccessOK(r.lines, ts, c, |tags|, last);
    ts' := ts[Touched(r.lines, last) := Touch(|tags|, EventOf(r.lines, last).Evict?)];
  }

  lemma {:induction false} StepTouches(ls: seq<Line>, tags: seq<int>, last: int, ts: seq<Touch>, c: nat)
    requires var r := RunSet(ls, tags); r.lines != [] && SetOK(r.lines, ts, c, |tags|)
    requires forall i :: 0 <= i < c ==> IsLastTouch(ls, tags, RunSet(ls, tags).lines[i].tag, ts[i])
    ensures var r := RunSet(ls, tags).lines; var t, e := Touched(r, last), EventOf(r, last);
            && 0 <= t < |ts|
            && var ts', c' := ts[t := Touch(|tags|, e.Evict?)], if e.Fill? then c + 1 else c;
               c' <= |r| && forall i :: 0 <= i < c' ==> IsLastTouch(ls, tags + [last], Access(r, last)[i].tag, ts'[i])
  {
    hide Access, EventOf, Touched, IsLastTouch, RunSet, CounterOK;
    var r := RunSet(ls, tags).lines;
    var t, e := Touched(r, last), EventOf(r, last);
    AccessOK(r, ts, c, |tags|, last);
    EventMeaning(r, ts, c, |tags|, last);
    var c' := if e.Fill? then c + 1 else c;
    var ts' := ts[t := Touch(|tags|, e.Evict?)];
    forall i | 0 <= i < c'
      ensures IsLastTouch(ls, tags + [last], Access(r, last)[i].tag, ts'[i])
    {
      if i == t {
        TouchIsNow(ls, tags, last);
      } else {
        assert Access(r, last)[if i < t then i else t].tag != Access(r, last)[if i < t then t else i].tag;
        TouchStays(ls, tags, last, r[i].tag, ts[i]);
      }
    }
  }

  /** Line j was used by the very next reference after the last use of line l, and not
      by an eviction, while l was. */
  ghost predicate RunTies(ls: seq<Line>, tags: seq<int>, l: int, j: int) {
    && 0 <= l < |tags| && j == l + 1 < |tags|
    && EvictedAt(ls, tags, l) && !EvictedAt(ls, tags, j)
  }

  /** After any references that have filled the set: if line l is the least recently used,
      it has the largest counter, and it is the next victim exactly when no line in front
      of it was used right after it as RunTies says; otherwise that line is. */
  lemma {:induction false} VictimOfRun(ls: seq<Line>, tags: seq<int>, l: nat)
    requires Cold(ls) && l < |ls|
    requires forall i :: 0 <= i < |ls| ==> RunSet(ls, tags).lines[i].valid
    requires var r := RunSet(ls, tags).lines;
             forall i :: 0 <= i < |ls| ==> LastUse(tags, r[l].tag) <= LastUse(tags, r[i].tag)
    ensures var r := RunSet(ls, tags).lines;
            var v := Oldest(r, |r|);
            && (forall j :: 0 <= j < |r| ==> r[j].counter <= r[l].counter)
            && 0 <= v < |r| && (v == l || RunTies(ls, tags, LastUse(tags, r[l].tag), LastUse(tags, r[v].tag)))
            && (v == l <==>
                !exists j :: 0 <= j < l && RunTies(ls, tags, LastUse(tags, r[l].tag), LastUse(tags, r[j].tag)))
            && forall tag :: !Resident(r, tag) ==> Replaces(r, Access(r, tag), v, tag)
  {
    hide RunSet, Access, Oldest, LastUse, EvictedAt;
    var r := RunSet(ls, tags).lines;
    var ts := RunSetOK(ls, tags);
    var c := RunSet(ls, tags).misses - RunSet(ls, tags).evictions;
    assert RunSet(ls, tags).lines[|ls| - 1].valid;
    assert c == |ls|;
    forall i | 0 <= i < |ls|
      ensures IsLastTouch(ls, tags, r[i].tag, ts[i])
      ensures RunTies(ls, tags, LastUse(tags, r[l].tag), LastUse(tags, r[i].tag)) <==> Ties(ts, l, i)
    {
      assert IsLastTouch(ls, tags, r[l].tag, ts[l]);
    }
    VictimIsNearlyLeastRecent(r, ts, |tags|, l);
    forall tag | !Resident(r, tag)
      ensures Replaces(r, Access(r, tag), Oldest(r, |r|), tag)
    {
      EventMeaning(r, ts, c, |tags|, tag);
      EvictionReplaces(r, tag);
    }
  }

  /** Line v, and no other, has been given to another tag. */
  ghost predicate Replaces(ls: seq<Line>, ls': seq<Line>, v: int, tag: int) {
    && |ls'| == |ls| && 0 <= v < |ls| && ls'[v].valid && ls'[v].tag == tag
    && forall i :: 0 <= i < |ls| && i != v ==> ls'[i].valid == ls[i].valid && ls'[i].tag == ls[i].tag
  }

  lemma {:induction false} EvictionReplaces(ls: seq<Line>, tag: int)
    requires EventOf(ls, tag).Evict? && 0 <= Oldest(ls, |ls|) < |ls|
    ensures Replaces(ls, Access(ls, tag), Oldest(ls, |ls|), tag)
  {
  }

  lemma {:induction false} LinesAfterABACA(a: int, b: int, c: int)
    requires a != b && a != c && b != c
    ensures RunSet([Line(false, 0, 0), Line(false, 0, 0)], [a, b, a, c, a]).lines ==
              [Line(true, a, 1), Line(true, c, 1)]
  {
    var z := [Line(false, 0, 0), Line(false, 0, 0)];
    var l1 := Access(z, a);
    assert l1 == [Line(true, a, 1), Line(false, 0, 1)];
    var l2 := Access(l1, b);
    assert l2 == [Line(true, a, 2), Line(true, b, 1)];
    var l3 := Access(l2, a);
    assert l3 == [Line(true, a, 1), Line(true, b, 2)];
    var l4 := Access(l3, c);
    assert l4 == [Line(true, a, 2), Line(true, c, 0)];
    var l5 := Access(l4, a);
    assert l5 == [Line(true, a, 1), Line(true, c, 1)];
    assert [a, b, a, c, a][..4] == [a, b, a, c] && [a, b, a, c][..3] == [a, b, a];
    assert [a, b, a][..2] == [a, b] && [a, b][..1] == [a] && [a][..0] == [];
    assert RunSet(z, [a]).lines == l1 && RunSet(z, [a, b]).lines == l2 && RunSet(z, [a, b, a]).lines == l3;
    assert RunSet(z, [a, b, a, c]).lines == l4;
  }

  /** With two lines, A B A C A D evicts A, which was used last, and keeps C. */
  lemma {:induction false} NotLeastRecentlyUsed(a: int, b: int, c: int, d: int)
    requires a != b && a != c && b != c && a != d && c != d
    ensures var r := RunSet([Line(false, 0, 0), Line(false, 0, 0)], [a, b, a, c, a]).lines;
            var r' := Access(r, d);
            && EventOf(r, d) == Evict
            && Resident(r, a) && Resident(r, c) && !Resident(r', a) && Resident(r', c)
  {
    hide RunSet;
    LinesAfterABACA(a, b, c);
    var r := [Line(true, a, 1), Line(true, c, 1)];
    var r' := Access(r, d);
    assert r' == [Line(true, d, 0), Line(true, c, 2)];
    assert r[0].tag == a && r[1].tag == c && r'[1].tag == c;
  }

  // ---------- addresses ----------

  /** `address >> (s + b)` stored in 32 bits. */
  function TagOf(address: nat, s: nat, b: nat): nat {
    (address / Pow2(s + b)) % TWO32
  }

  /** A tag that fits and the index are what an address is made of above the block bits. */
  lemma {:induction false} AddressParts(x: nat, s: nat, b: nat)
    requires x / Pow2(s + b) < TWO32
    ensures x / Pow2(b) == TagOf(x, s, b) * Pow2(s) + IndexOf(x, s, b) && IndexOf(x, s, b) < Pow2(s)
  {
    TagFits(x, s, b);
    Pow2Sum(b, s);
    DivDiv(x, Pow2(b), Pow2(s));
    Recombine(x / Pow2(b), Pow2(s));
  }

  lemma {:induction false} Recombine(p: nat, m: nat)
    requires m >= 1
    ensures p == (p / m) * m + p % m
  {
  }

  /** `address >> b & ((1 << s) - 1)` */
  function IndexOf(address: nat, s: nat, b: nat): (k: nat)
    ensures k < Pow2(s)
  {
    (address / Pow2(b)) % Pow2(s)
  }

  lemma {:induction false} DivDiv(a: nat, m: nat, n: nat)
    requires m >= 1 && n >= 1
    ensures m * n >= 1 && a / (m * n) == (a / m) / n
  {
    var p := a / m;
    var q, r1, r2 := p / n, a % m, p % n;
    assert a == m * p + r1 && p == n * q + r2;
    Nested(m, n, q, r1, r2);
    QuotientIs(a, m * n, q, m * r2 + r1);
  }

  lemma {:induction false} Nested(m: int, n: int, q: int, r1: int, r2: int)
    requires m >= 1 && n >= 1 && 0 <= r1 < m && 0 <= r2 < n
    ensures m * (n * q + r2) + r1 == (m * n) * q + (m * r2 + r1)
    ensures 0 <= m * r2 + r1 < m * n && m * n >= 1
  {
    assert m * r2 <= m * (n - 1) == m * n - m;
  }

  lemma {:induction false} MulMonotone(d: int, x: int, y: int)
    requires d >= 1
    ensures x < y ==> d * x + d <= d * y
    decreases y - x
  {
    if x < y {
      MulMonotone(d, x, y - 1);
      assert d * y == d * (y - 1) + d;
    }
  }

  lemma {:induction false} QuotientIs(a: int, d: int, q: int, r: int)
    requires d >= 1 && a == d * q + r && 0 <= r < d
    ensures a / d == q
  {
    var q' := a / d;
    assert d * q' <= a < d * q' + d;
    MulMonotone(d, q', q);
    MulMonotone(d, q, q');
  }

  lemma {:induction false} QuotientAndRemainder(p: int, q: int, m: int)
    requires m >= 1 && p / m == q / m && p % m == q % m
    ensures p == q
  {
    assert p == m * (p / m) + p % m && q == m * (q / m) + q % m;
  }

  /** Two addresses meet in the same set under the same tag exactly when they belong to
      the same block, provided their tags fit 32 bits. */
  lemma {:induction false} SameLineIsSameBlock(x: nat, y: nat, s: nat, b: nat)
    requires x / Pow2(s + b) < TWO32 && y / Pow2(s + b) < TWO32
    ensures IndexOf(x, s, b) == IndexOf(y, s, b) && TagOf(x, s, b) == TagOf(y, s, b) <==> x / Pow2(b) == y / Pow2(b)
  {
    hide Pow2, TagOf;
    Pow2Sum(b, s);
    TagFits(x, s, b);
    TagFits(y, s, b);
    SameQuotients(x, y, Pow2(b), Pow2(s), Pow2(s + b));
  }

  lemma {:induction false} TagFits(x: nat, s: nat, b: nat)
    requires x / Pow2(s + b) < TWO32
    ensures TagOf(x, s, b) == x / Pow2(s + b)
  {
    hide Pow2;
    SmallModulus(x / Pow2(s + b));
  }

  lemma {:induction false} SmallModulus(q: int)
    requires 0 <= q < TWO32
    ensures q % TWO32 == q
  {
  }

  lemma {:induction false} SameQuotients(x: nat, y: nat, bs: nat, ss: nat, all: nat)
    requires bs >= 1 && ss >= 1 && all == bs * ss >= 1
    ensures x / all == y / all && (x / bs) % ss == (y / bs) % ss <==> x / bs == y / bs
  {
    DivDiv(x, bs, ss);
    DivDiv(y, bs, ss);
    if (x / bs) / ss == (y / bs) / ss && (x / bs) % ss == (y / bs) % ss {
      QuotientAndRemainder(x / bs, y / bs, ss);
    }
  }

  lemma {:induction false} RemainderSplit(p: nat, m: nat, t: nat)
    requires m >= 1 && t >= 1
    ensures m * t >= 1 && p % (m * t) == m * ((p / m) % t) + p % m
  {
    var u, v, w := (p / m) / t, (p / m) % t, p % m;
    assert p == m * (p / m) + w && p / m == t * u + v;
    assert p == (m * t) * u + (m * v + w) by {
      assert m * (t * u + v) == (m * t) * u + m * v;
    }
    MulMonotone(m, v, t);
    QuotientIs(p, m * t, u, m * v + w);
  }

  /** In general the simulator tells blocks apart only up to the 32 bits of a tag: two
      addresses meet in the same line exactly when their block numbers agree modulo
      2^s * 2^32. */
  lemma {:induction false} SameLineInGeneral(x: nat, y: nat, s: nat, b: nat)
    ensures var m := Pow2(s) * TWO32;
            m >= 1
            && (IndexOf(x, s, b) == IndexOf(y, s, b) && TagOf(x, s, b) == TagOf(y, s, b)
                <==> (x / Pow2(b)) % m == (y / Pow2(b)) % m)
  {
    hide Pow2;
    Pow2Sum(b, s);
    var p, q, m := x / Pow2(b), y / Pow2(b), Pow2(s);
    DivDiv(x, Pow2(b), m);
    DivDiv(y, Pow2(b), m);
    RemainderSplit(p, m, TWO32);
    RemainderSplit(q, m, TWO32);
    DigitsUnique(m, (p / m) % TWO32, p % m, (q / m) % TWO32, q % m);
  }

  lemma {:induction false} DigitsUnique(m: int, v: int, w: int, v': int, w': int)
    requires m >= 1 && 0 <= w < m && 0 <= w' < m
    ensures m * v + w == m * v' + w' <==> v == v' && w == w'
  {
    MulMonotone(m, v, v');
    MulMonotone(m, v', v);
  }

  // ---------- all the sets ----------

  datatype Summary = Summary(sets: seq<seq<Line>>, hits: nat, misses: nat, evictions: nat)

  function AccessAll(r: Summary, k: nat, tag: int): Summary
    requires k < |r.sets|
  {
    var e := EventOf(r.sets[k], tag);
    Summary(r.sets[k := Access(r.sets[k], tag)],
            r.hits + (if e.Hit? then 1 else 0),
            r.misses + (if e.Hit? then 0 else 1),
            r.evictions + (if e.Evict? then 1 else 0))
  }

  /** The references of a trace, each with its set and tag. */
  datatype Ref = Ref(k: nat, tag: int)

  predicate InRange(sets: seq<seq<Line>>, refs: seq<Ref>) {
    forall i :: 0 <= i < |refs| ==> refs[i].k < |sets|
  }

  function RunAll(sets: seq<seq<Line>>, refs: seq<Ref>): (r: Summary)
    requires InRange(sets, refs)
    ensures |r.sets| == |sets|
    decreases |refs|
  {
    if refs == [] then Summary(sets, 0, 0, 0)
    else
      var last := refs[|refs| - 1];
      AccessAll(RunAll(sets, refs[..|refs| - 1]), last.k, last.tag)
  }

  /** The tags of the references to set k. */
  function SubTrace(refs: seq<Ref>, k: nat): seq<int>
    decreases |refs|
  {
    if refs == [] then []
    else
      var last := refs[|refs| - 1];
      SubTrace(refs[..|refs| - 1], k) + (if last.k == k then [last.tag] else [])
  }

  /** Sums over the first n sets, each run on its own. */
  function SumHits(sets: seq<seq<Line>>, refs: seq<Ref>, n: nat): nat
    requires n <= |sets|
  {
    if n == 0 then 0 else SumHits(sets, refs, n - 1) + RunSet(sets[n - 1], SubTrace(refs, n - 1)).hits
  }

  function SumMisses(sets: seq<seq<Line>>, refs: seq<Ref>, n: nat): nat
    requires n <= |sets|
  {
    if n == 0 then 0 else SumMisses(sets, refs, n - 1) + RunSet(sets[n - 1], SubTrace(refs, n - 1)).misses
  }

  function SumEvictions(sets: seq<seq<Line>>, refs: seq<Ref>, n: nat): nat
    requires n <= |sets|
  {
    if n == 0 then 0 else SumEvictions(sets, refs, n - 1) + RunSet(sets[n - 1], SubTrace(refs, n - 1)).evictions
  }

  lemma {:induction false} SumsOfNothing(sets: seq<seq<Line>>, n: nat)
    requires n <= |sets|
    ensures SumHits(sets, [], n) == SumMisses(sets, [], n) == SumEvictions(sets, [], n) == 0
  {
    if n > 0 {
      SumsOfNothing(sets, n - 1);
    }
  }

  lemma {:induction false} RunAllSnoc(sets: seq<seq<Line>>, refs: seq<Ref>, r: Ref)
    requires InRange(sets, refs) && r.k < |sets|
    ensures InRange(sets, refs + [r]) && RunAll(sets, refs + [r]) == AccessAll(RunAll(sets, refs), r.k, r.tag)
  {
    hide AccessAll;
    assert (refs + [r])[..|refs|] == refs;
  }

  lemma {:induction false} SubTraceSnoc(refs: seq<Ref>, k: nat)
    requires refs != []
    ensures var last, before := refs[|refs| - 1], refs[..|refs| - 1];
            SubTrace(refs, k) == if last.k == k then SubTrace(before, k) + [last.tag] else SubTrace(before, k)
  {
  }

  /** One more reference adds its event to the sums once its set is included. */
  lemma {:induction false} SumsStep(sets: seq<seq<Line>>, refs: seq<Ref>, n: nat)
    requires n <= |sets| && refs != [] && refs[|refs| - 1].k < |sets|
    ensures var last, before := refs[|refs| - 1], refs[..|refs| - 1];
            var e := EventOf(RunSet(sets[last.k], SubTrace(before, last.k)).lines, last.tag);
            var d := n > last.k;
            && SumHits(sets, refs, n) == SumHits(sets, before, n) + (if d && e.Hit? then 1 else 0)
            && SumMisses(sets, refs, n) == SumMisses(sets, before, n) + (if d && !e.Hit? then 1 else 0)
            && SumEvictions(sets, refs, n) == SumEvictions(sets, before, n) + (if d && e.Evict? then 1 else 0)
  {
    hide RunSet, SubTrace, EventOf, Access;
    if n > 0 {
      SumsStep(sets, refs, n - 1);
      SubTraceSnoc(refs, n - 1);
      var last, before := refs[|refs| - 1], refs[..|refs| - 1];
      RunSetSnoc(sets[n - 1], SubTrace(before, n - 1), last.tag);
    }
  }

  lemma {:induction false} SetOnItsOwn(sets: seq<seq<Line>>, refs: seq<Ref>, k: nat)
    requires InRange(sets, refs) && k < |sets|
    ensures RunAll(sets, refs).sets[k] == RunSet(sets[k], SubTrace(refs, k)).lines
    decreases |refs|
  {
    if refs != [] {
      hide Access, EventOf, RunSet, RunAll, SubTrace;
      var before, last := refs[..|refs| - 1], refs[|refs| - 1];
      assert refs == before + [last];
      RunAllSnoc(sets, before, last);
      SetOnItsOwn(sets, before, k);
      SubTraceSnoc(refs, k);
      RunSetSnoc(sets[k], SubTrace(before, k), last.tag);
    }
  }

  lemma {:induction false} CountsAddUp(sets: seq<seq<Line>>, refs: seq<Ref>)
    requires InRange(sets, refs)
    ensures var r := RunAll(sets, refs);
            && r.hits == SumHits(sets, refs, |sets|)
            && r.misses == SumMisses(sets, refs, |sets|)
            && r.evictions == SumEvictions(sets, refs, |sets|)
    decreases |refs|
  {
    if refs == [] {
      SumsOfNothing(sets, |sets|);
    } else {
      hide Access, EventOf, RunSet, RunAll, SubTrace, SumHits, SumMisses, SumEvictions;
      var before, last := refs[..|refs| - 1], refs[|refs| - 1];
      assert refs == before + [last];
      RunAllSnoc(sets, before, last);
      CountsAddUp(sets, before);
      SetOnItsOwn(sets, before, last.k);
      SumsStep(sets, refs, |sets|);
    }
  }

  /** The sets do not influence each other: a whole trace ends with every set as its own
      references alone leave it, and with the summed counts. */
  lemma {:induction false} SetsAreIndependent(sets: seq<seq<Line>>, refs: seq<Ref>)
    requires InRange(sets, refs)
    ensures var r := RunAll(sets, refs);
            && (forall k :: 0 <= k < |sets| ==> r.sets[k] == RunSet(sets[k], SubTrace(refs, k)).lines)
            && r.hits == SumHits(sets, refs, |sets|)
            && r.misses == SumMisses(sets, refs, |sets|)
            && r.evictions == SumEvictions(sets, refs, |sets|)
  {
    CountsAddUp(sets, refs);
    forall k | 0 <= k < |sets|
      ensures RunAll(sets, refs).sets[k] == RunSet(sets[k], SubTrace(refs, k)).lines
    {
      SetOnItsOwn(sets, refs, k);
    }
  }

  // ---------- reachable states ----------

  /** Every set with at least one line, all lines invalid. */
  ghost predicate AllCold(sets: seq<seq<Line>>) {
    forall k :: 0 <= k < |sets| ==> sets[k] != [] && Cold(sets[k])
  }

  /** In every reachable state an access hits exactly when its tag is resident, finds a
      line to touch, and is followed by a hit if it is repeated. */
  lemma {:induction false} ReachableAccess(sets: seq<seq<Line>>, refs: seq<Ref>, k: nat, tag: int)
    requires AllCold(sets) && InRange(sets, refs) && k < |sets|
    ensures var ls := RunAll(sets, refs).sets[k];
            && 0 <= Touched(ls, tag) < |ls|
            && (EventOf(ls, tag).Hit? <==> Resident(ls, tag))
            && EventOf(Access(ls, tag), tag).Hit?
  {
    hide Access, EventOf, Touched, SetOK, RunAll, RunSet, SubTrace;
    SetsAreIndependent(sets, refs);
    var r := RunSet(sets[k], SubTrace(refs, k));
    var ts := RunSetOK(sets[k], SubTrace(refs, k));
    var c, n := r.misses - r.evictions, |SubTrace(refs, k)|;
    EventMeaning(r.lines, ts, c, n, tag);
    AccessOK(r.lines, ts, c, n, tag);
    EventMeaning(Access(r.lines, tag), ts[Touched(r.lines, tag) := Touch(n, EventOf(r.lines, tag).Evict?)],
                 if EventOf(r.lines, tag).Fill? then c + 1 else c, n + 1, tag);
  }

  function ValidCount(ls: seq<Line>): nat {
    if ls == [] then 0 else ValidCount(ls[..|ls| - 1]) + (if ls[|ls| - 1].valid then 1 else 0)
  }

  lemma {:induction false} ValidPrefix(ls: seq<Line>, c: nat)
    requires c <= |ls| && forall i :: 0 <= i < |ls| ==> (ls[i].valid <==> i < c)
    ensures ValidCount(ls) == c
    decreases |ls|
  {
    if ls != [] {
      ValidPrefix(ls[..|ls| - 1], if c == |ls| then c - 1 else c);
    }
  }

  function ValidTotal(sets: seq<seq<Line>>, n: nat): nat
    requires n <= |sets|
  {
    if n == 0 then 0 else ValidTotal(sets, n - 1) + ValidCount(sets[n - 1])
  }

  lemma {:induction false} ValidSums(sets: seq<seq<Line>>, refs: seq<Ref>, n: nat)
    requires AllCold(sets) && InRange(sets, refs) && n <= |sets|
    ensures ValidTotal(RunAll(sets, refs).sets, n) == SumMisses(sets, refs, n) - SumEvictions(sets, refs, n)
  {
    hide RunSet, SubTrace, RunAll;
    if n > 0 {
      ValidSums(sets, refs, n - 1);
      SetsAreIndependent(sets, refs);
      var r := RunSet(sets[n - 1], SubTrace(refs, n - 1));
      var ts := RunSetOK(sets[n - 1], SubTrace(refs, n - 1));
      ValidPrefix(r.lines, r.misses - r.evictions);
    }
  }

  /** Misses less evictions is the number of valid lines in the whole cache. */
  lemma {:induction false} MissesLessEvictions(sets: seq<seq<Line>>, refs: seq<Ref>)
    requires AllCold(sets) && InRange(sets, refs)
    ensures var r := RunAll(sets, refs); r.misses - r.evictions == ValidTotal(r.sets, |sets|)
  {
    SetsAreIndependent(sets, refs);
    ValidSums(sets, refs, |sets|);
  }

  /** One line of a trace file: the access type and the address. */
  datatype TraceOp = TraceOp(kind: char, address: nat)

  function RefOf(address: nat, s: nat, b: nat): Ref {
    Ref(IndexOf(address, s, b), TagOf(address, s, b))
  }

  /** Loads and stores access the cache once, modifies twice, anything else never. */
  function RefsOf(op: TraceOp, s: nat, b: nat): seq<Ref> {
    var r := RefOf(op.address, s, b);
    if op.kind == 'L' || op.kind == 'S' then [r] else if op.kind == 'M' then [r, r] else []
  }

  function AllRefs(ops: seq<TraceOp>, s: nat, b: nat): (r: seq<Ref>)
    ensures forall i :: 0 <= i < |r| ==> r[i].k < Pow2(s)
  {
    if ops == [] then [] else AllRefs(ops[..|ops| - 1], s, b) + RefsOf(ops[|ops| - 1], s, b)
  }

  lemma {:induction false} AllRefsSnoc(ops: seq<TraceOp>, i: nat, s: nat, b: nat)
    requires i < |ops|
    ensures AllRefs(ops[..i + 1], s, b) == AllRefs(ops[..i], s, b) + RefsOf(ops[i], s, b)
  {
    hide RefsOf;
    assert ops[..i + 1][..i] == ops[..i];
  }

  lemma {:induction false} StartOfRun(sets: seq<seq<Line>>)
    ensures RunAll(sets, []) == Summary(sets, 0, 0, 0)
  {
  }

  // ---------- what an access and a trace line do ----------

  ghost predicate Full(ls: seq<Line>) {
    forall i :: 0 <= i < |ls| ==> ls[i].valid
  }

  /** From `before` to `after` the cache has been accessed once, in set k for this tag. The
      access hits when the tag is resident, and evicts when it misses in a full set. Then
      the tag is resident; of the others none has come, and none has gone without an
      eviction. */
  ghost predicate OneAccess(before: Summary, after: Summary, k: nat, tag: int) {
    && k < |before.sets| == |after.sets|
    && (forall j :: 0 <= j < |before.sets| && j != k ==> after.sets[j] == before.sets[j])
    && var ls, ls' := before.sets[k], after.sets[k];
       var hit, full := Resident(ls, tag), Full(ls);
       && |ls'| == |ls| && Resident(ls', tag)
       && after.hits == before.hits + (if hit then 1 else 0)
       && after.misses == before.misses + (if hit then 0 else 1)
       && after.evictions == before.evictions + (if !hit && full then 1 else 0)
       && (forall t {:trigger Resident(ls', t)} :: Resident(ls', t) && t != tag ==> Resident(ls, t))
       && (hit || !full ==> forall t {:trigger Resident(ls, t)} :: Resident(ls, t) ==> Resident(ls', t))
  }

  /** What the verbose log shows for an access to this set. */
  ghost function Shown(ls: seq<Line>, tag: int): string {
    if Resident(ls, tag) then "hit " else if Full(ls) then "miss eviction " else "miss "
  }

  /** A load or a store accesses the cache once and a modify twice; other lines do
      nothing. */
  ghost predicate LineEffect(before: Summary, after: Summary, op: TraceOp, s: nat, b: nat) {
    var k, tag := IndexOf(op.address, s, b), TagOf(op.address, s, b);
    if op.kind in {'L', 'S'} then OneAccess(before, after, k, tag)
    else if op.kind == 'M' then
      exists mid :: OneAccess(before, mid, k, tag) && OneAccess(mid, after, k, tag)
    else after == before
  }

  lemma {:induction false} AccessIsOne(ls: seq<Line>, ts: seq<Touch>, c: nat, n: nat, r: Summary, k: nat, tag: int)
    requires k < |r.sets| && ls == r.sets[k] && SetOK(ls, ts, c, n) && ls != []
    ensures OneAccess(r, AccessAll(r, k, tag), k, tag)
    ensures LogOf(EventOf(ls, tag)) == Shown(ls, tag)
  {
    hide Scan, Oldest;
    EventMeaning(ls, ts, c, n, tag);
    FullIs(ls, ts, c, n);
    AccessOK(ls, ts, c, n, tag);
    ResidentsAfter(ls, ts, c, n, tag);
    hide Access, EventOf, Resident, Full, SetOK, Touched;
  }

  lemma {:induction false} FullIs(ls: seq<Line>, ts: seq<Touch>, c: nat, n: nat)
    requires SetOK(ls, ts, c, n) && ls != []
    ensures Full(ls) <==> c == |ls|
  {
    assert ls[|ls| - 1].valid <==> |ls| - 1 < c;
  }

  lemma {:induction false} ResidentsAfter(ls: seq<Line>, ts: seq<Touch>, c: nat, n: nat, tag: int)
    requires SetOK(ls, ts, c, n) && ls != []
    ensures forall t {:trigger Resident(Access(ls, tag), t)} :: Resident(Access(ls, tag), t) && t != tag ==>
              Resident(ls, t)
    ensures !EventOf(ls, tag).Evict? ==>
              forall t {:trigger Resident(ls, t)} :: Resident(ls, t) ==> Resident(Access(ls, tag), t)
  {
    EventMeaning(ls, ts, c, n, tag);
    var r, i := Access(ls, tag), Touched(ls, tag);
    assert r[i].valid && r[i].tag == tag;
    assert forall j :: 0 <= j < |ls| && j != i ==> r[j].valid == ls[j].valid && r[j].tag == ls[j].tag;
    hide Access, Scan, Oldest;
    forall t | Resident(r, t) && t != tag
      ensures Resident(ls, t)
    {
      var j :| 0 <= j < |r| && r[j].valid && r[j].tag == t;
      assert ls[j].valid && ls[j].tag == t;
    }
    if !EventOf(ls, tag).Evict? {
      forall t | Resident(ls, t)
        ensures Resident(r, t)
      {
        var j :| 0 <= j < |ls| && ls[j].valid && ls[j].tag == t;
        assert r[j].valid && r[j].tag == t;
      }
    }
  }

  /** In every state that a run of the cache reaches. */
  lemma {:induction false} ReachableOneAccess(sets: seq<seq<Line>>, refs: seq<Ref>, k: nat, tag: int)
    requires AllCold(sets) && InRange(sets, refs) && k < |sets|
    ensures var r := RunAll(sets, refs);
            && OneAccess(r, AccessAll(r, k, tag), k, tag)
            && LogOf(EventOf(r.sets[k], tag)) == Shown(r.sets[k], tag)
  {
    hide Access, EventOf, Touched, SetOK, RunAll, RunSet, SubTrace, OneAccess, Shown, AccessAll;
    SetsAreIndependent(sets, refs);
    var r := RunSet(sets[k], SubTrace(refs, k));
    var ts := RunSetOK(sets[k], SubTrace(refs, k));
    AccessIsOne(r.lines, ts, r.misses - r.evictions, |SubTrace(refs, k)|, RunAll(sets, refs), k, tag);
  }

  /** Lines take effect one after the other. */
  lemma {:induction false} NextLine(rows: seq<seq<Line>>, ops: seq<TraceOp>, op: TraceOp, s: nat, b: nat)
    requires AllCold(rows) && |rows| == Pow2(s)
    ensures InRange(rows, AllRefs(ops, s, b)) && InRange(rows, AllRefs(ops + [op], s, b))
    ensures LineEffect(RunAll(rows, AllRefs(ops, s, b)), RunAll(rows, AllRefs(ops + [op], s, b)), op, s, b)
    ensures RunAll(rows, AllRefs([], s, b)) == Summary(rows, 0, 0, 0)
  {
    hide OneAccess, RunAll, IndexOf, TagOf, Pow2;
    StartOfRun(rows);
    var refs, r := AllRefs(ops, s, b), RefOf(op.address, s, b);
    assert (ops + [op])[..|ops|] == ops;
    if op.kind in {'L', 'S', 'M'} {
      ReachableOneAccess(rows, refs, r.k, r.tag);
      RunAllSnoc(rows, refs, r);
    } else {
      assert refs + [] == refs;
    }
    if op.kind == 'M' {
      ReachableOneAccess(rows, refs + [r], r.k, r.tag);
      RunAllSnoc(rows, refs + [r], r);
      assert refs + [r, r] == refs + [r] + [r];
      assert OneAccess(RunAll(rows, refs), RunAll(rows, refs + [r]), r.k, r.tag);
    }
  }

  lemma {:induction false} ShownSecond(before: Summary, mid: Summary, k: nat, tag: int)
    requires OneAccess(before, mid, k, tag)
    ensures k < |mid.sets| && Shown(mid.sets[k], tag) == "hit "
  {
  }

  lemma {:induction false} ShownShort(ls: seq<Line>, tag: int)
    ensures |Shown(ls, tag)| <= 14
  {
  }

  /** The lines of a trace that have this kind. */
  function Lines(ops: seq<TraceOp>, kind: char): nat {
    if ops == [] then 0 else Lines(ops[..|ops| - 1], kind) + (if ops[|ops| - 1].kind == kind then 1 else 0)
  }

  /** Every access of a trace is a hit or a miss. */
  lemma {:induction false} EveryAccessCounts(rows: seq<seq<Line>>, ops: seq<TraceOp>, s: nat, b: nat)
    requires AllCold(rows) && |rows| == Pow2(s)
    ensures InRange(rows, AllRefs(ops, s, b))
    ensures var r := RunAll(rows, AllRefs(ops, s, b));
            r.hits + r.misses == Lines(ops, 'L') + Lines(ops, 'S') + 2 * Lines(ops, 'M')
    decreases |ops|
  {
    hide RunAll, AllRefs, IndexOf, TagOf, Resident, Full, Pow2;
    NextLine(rows, [], TraceOp('I', 0), s, b);
    if ops != [] {
      var before, op := ops[..|ops| - 1], ops[|ops| - 1];
      assert ops == before + [op];
      EveryAccessCounts(rows, before, s, b);
      NextLine(rows, before, op, s, b);
    }
  }

  // ---------- the simulator ----------

  /** What an access appends to the verbose log. */
  function LogOf(e: Event): string {
    match e
    case Hit => "hit "
    case Fill => "miss "
    case Evict => "miss eviction "
  }

  /** The bytes of access_log, one of which ends the string. */
  const LOG_SIZE := 20

  class Simulator {
    const s: nat
    const b: nat
    const e: nat
    const lines: array2<Line>
    var hitCount: nat
    var missCount: nat
    var evictionCount: nat
    var accessLog: string

    predicate Shaped() {
      lines.Length0 == Pow2(s) && lines.Length1 == e && e >= 1
    }

    ghost function Row(k: int): seq<Line>
      requires 0 <= k < lines.Length0
      reads lines
    {
      seq(lines.Length1, i requires 0 <= i < lines.Length1 reads lines => lines[k, i])
    }

    ghost function Rows(): seq<seq<Line>>
      reads lines
    {
      seq(lines.Length0, k requires 0 <= k < lines.Length0 reads lines => Row(k))
    }

    ghost function Now(): Summary
      reads this, lines
    {
      Summary(Rows(), hitCount, missCount, evictionCount)
    }

    /** The lines that main allocates are given here; they are taken to be invalid. */
    constructor (s: nat, b: nat, e: nat, lines: array2<Line>)
      requires lines.Length0 == Pow2(s) && lines.Length1 == e && e >= 1
      ensures this.s == s && this.b == b && this.e == e && this.lines == lines
      ensures Shaped() && hitCount == missCount == evictionCount == 0
    {
      this.s, this.b, this.e, this.lines := s, b, e, lines;
      hitCount, missCount, evictionCount, accessLog := 0, 0, 0, "";
    }

    /** The first loop: looks for the tag or an invalid line. */
    method Lookup(k: nat, tag: nat) returns (needEvict: bool)
      requires Shaped() && k < lines.Length0
      modifies lines, `hitCount, `missCount, `accessLog
      ensures var ls := old(Row(k)); var i := Scan(ls, tag, 0); var ev := EventOf(ls, tag);
              && needEvict == ev.Evict?
              && Row(k) == (if ev.Evict? then ls else ls[i := Line(true, tag, 0)])
              && hitCount == old(hitCount) + (if ev.Hit? then 1 else 0)
              && missCount == old(missCount) + (if ev.Fill? then 1 else 0)
              && accessLog == old(accessLog) + (if ev.Evict? then "" else LogOf(ev))
      ensures forall j, i :: 0 <= j < lines.Length0 && 0 <= i < lines.Length1 && j != k ==>
                lines[j, i] == old(lines[j, i])
    {
      needEvict := true;
      ghost var ls := Row(k);
      var i := 0;
      while i < e
        invariant 0 <= i <= e && needEvict
        invariant Row(k) == ls && Scan(ls, tag, 0) == Scan(ls, tag, i)
        invariant hitCount == old(hitCount) && missCount == old(missCount) && accessLog == old(accessLog)
        invariant forall j, l :: 0 <= j < lines.Length0 && 0 <= l < lines.Length1 ==> lines[j, l] == old(lines[j, l])
      {
        assert lines[k, i] == ls[i];
        if lines[k, i].valid {
          if lines[k, i].tag == tag {
            hitCount := hitCount + 1;
            lines[k, i] := lines[k, i].(counter := 0);
            needEvict := false;
            accessLog := accessLog + "hit ";
            break;
          }
        } else {
          lines[k, i] := Line(true, tag, 0);
          accessLog := accessLog + "miss ";
          missCount := missCount + 1;
          needEvict := false;
          break;
        }
        i := i + 1;
      }
      assert !needEvict ==> Row(k) == ls[i := Line(true, tag, 0)];
    }

    lemma {:induction false} OldestStarts(ls: seq<Line>)
      ensures Oldest(ls, 0) == -1
    {
    }

    lemma {:induction false} OldestNext(ls: seq<Line>, n: nat)
      requires n < |ls|
      ensures var j := Oldest(ls, n);
              Oldest(ls, n + 1) == if (if j == -1 then -1 else ls[j].counter) < ls[n].counter then n else j
    {
    }

    /** The second loop: ages every line of the set and finds the first with the largest
        counter. */
    method Age(k: nat) returns (evictionIndex: int)
      requires Shaped() && k < lines.Length0
      modifies lines
      ensures Row(k) == Aged(old(Row(k))) && evictionIndex == Oldest(old(Row(k)), e)
      ensures forall j, i :: 0 <= j < lines.Length0 && 0 <= i < lines.Length1 && j != k ==>
                lines[j, i] == old(lines[j, i])
    {
      hide Oldest, Pow2;
      ghost var ls := Row(k);
      OldestStarts(ls);
      var maxCounter := -1;
      evictionIndex := -1;
      for i := 0 to e
        invariant evictionIndex == Oldest(ls, i)
        invariant maxCounter == if evictionIndex == -1 then -1 else ls[evictionIndex].counter
        invariant forall l :: 0 <= l < e ==>
                    lines[k, l] == if l < i then ls[l].(counter := ls[l].counter + 1) else ls[l]
        invariant forall j, l :: 0 <= j < lines.Length0 && 0 <= l < lines.Length1 && j != k ==>
                    lines[j, l] == old(lines[j, l])
      {
        OldestNext(ls, i);
        if maxCounter < lines[k, i].counter {
          evictionIndex := i;
          maxCounter := lines[k, i].counter;
        }
        lines[k, i] := lines[k, i].(counter := lines[k, i].counter + 1);
      }
      assert Row(k) == Aged(ls);
    }

    /** access_cache, for a set in which an eviction finds a line to evict. */
    method AccessCache(address: nat)
      requires Shaped()
      requires var ls := Row(IndexOf(address, s, b)); 0 <= Touched(ls, TagOf(address, s, b)) < |ls|
      modifies this, lines
      ensures var k, tag := IndexOf(address, s, b), TagOf(address, s, b);
              && k < |old(Rows())|
              && Now() == AccessAll(old(Now()), k, tag)
              && accessLog == old(accessLog) + LogOf(EventOf(old(Rows())[k], tag))
    {
      hide IndexOf, TagOf, Pow2, Scan, Oldest, Aged;
      var tag := TagOf(address, s, b);
      var k := IndexOf(address, s, b);
      ghost var ls := Row(k);
      ghost var rows := Rows();
      var needEvict := Lookup(k, tag);
      var evictionIndex := Age(k);
      if needEvict {
        lines[k, evictionIndex] := Line(true, tag, 0);
        accessLog := accessLog + "miss eviction ";
        missCount := missCount + 1;
        evictionCount := evictionCount + 1;
        assert Row(k) == Aged(ls)[evictionIndex := Line(true, tag, 0)];
      }
      assert Row(k) == Access(ls, tag);
      forall j | 0 <= j < lines.Length0 && j != k
        ensures Row(j) == rows[j]
      {
      }
      assert Rows() == rows[k := Access(ls, tag)];
    }

    /** main's loop over the trace, from invalid lines. The log of one trace line always
        leaves room for the end of the string. */
    method RunTrace(ops: seq<TraceOp>)
      requires Shaped() && AllCold(Rows()) && hitCount == missCount == evictionCount == 0
      modifies this, lines
      ensures Pow2(s) == |old(Rows())|
      ensures Now() == RunAll(old(Rows()), AllRefs(ops, s, b))
      ensures hitCount + missCount == Lines(ops, 'L') + Lines(ops, 'S') + 2 * Lines(ops, 'M')
    {
      hide AllCold, RunAll, Lines;
      ghost var rows, refs := Rows(), [];
      StartOfRun(rows);
      for i := 0 to |ops|
        invariant refs == AllRefs(ops[..i], s, b) && InRange(rows, refs) && Now() == RunAll(rows, refs)
      {
        AllRefsSnoc(ops, i, s, b);
        TraceLine(ops[i], rows, refs);
        refs := refs + RefsOf(ops[i], s, b);
      }
      assert ops[..|ops|] == ops;
      EveryAccessCounts(rows, ops, s, b);
    }

    /** One line of the trace. */
    method TraceLine(op: TraceOp, ghost rows: seq<seq<Line>>, ghost refs: seq<Ref>)
      requires Shaped() && AllCold(rows) && |rows| == Pow2(s) && InRange(rows, refs)
      requires Now() == RunAll(rows, refs)
      modifies this, lines
      ensures InRange(rows, refs + RefsOf(op, s, b))
      ensures Now() == RunAll(rows, refs + RefsOf(op, s, b))
      ensures LineEffect(old(Now()), Now(), op, s, b)
      ensures var k, tag := IndexOf(op.address, s, b), TagOf(op.address, s, b);
              k < |rows| && |old(Rows())| == |rows|
              && accessLog == (if op.kind !in {'L', 'S', 'M'} then ""
                               else Shown(old(Rows())[k], tag) + (if op.kind == 'M' then "hit " else ""))
      ensures |accessLog| < LOG_SIZE
    {
      hide OneAccess, Shown, LogOf, IndexOf, TagOf, Pow2, RunAll, EventOf, Touched, Access, AllCold;
      ghost var ref := RefOf(op.address, s, b);
      assert Rows()[ref.k] == Row(ref.k);
      ShownShort(Row(ref.k), ref.tag);
      accessLog := "";
      match op.kind {
        case 'L' => Access1(op.address, rows, refs);
        case 'M' =>
          Access1(op.address, rows, refs);
          RunAllSnoc(rows, refs, ref);
          ghost var mid := Now();
          Access1(op.address, rows, refs + [ref]);
          ShownSecond(old(Now()), mid, ref.k, ref.tag);
          assert OneAccess(old(Now()), mid, ref.k, ref.tag) && OneAccess(mid, Now(), ref.k, ref.tag);
          assert refs + [ref] + [ref] == refs + [ref, ref];
        case 'S' => Access1(op.address, rows, refs);
        case _ => assert refs + [] == refs;
      }
    }

    /** access_cache in a state that a trace has reached. */
    method Access1(address: nat, ghost rows: seq<seq<Line>>, ghost refs: seq<Ref>)
      requires Shaped() && AllCold(rows) && |rows| == Pow2(s) && InRange(rows, refs)
      requires Now() == RunAll(rows, refs)
      modifies this, lines
      ensures var r := RefOf(address, s, b);
              && InRange(rows, refs + [r])
              && Now() == RunAll(rows, refs + [r])
              && OneAccess(old(Now()), Now(), r.k, r.tag)
              && accessLog == old(accessLog) + Shown(RunAll(rows, refs).sets[r.k], r.tag)
    {
      hide Touched, AccessAll, EventOf, LogOf, OneAccess, Shown;
      ghost var r := RefOf(address, s, b);
      ReachableAccess(rows, refs, r.k, r.tag);
      ReachableOneAccess(rows, refs, r.k, r.tag);
      RunAllSnoc(rows, refs, r);
      assert Rows()[r.k] == Row(r.k);
      AccessCache(address);
    }
  }
}
