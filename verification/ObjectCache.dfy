/** The ten-line object cache of the proxy, used one request at a time: looked up
    first, written only after a miss. It is a first-in-first-out map of ten entries, whose
    objects are copied as C strings but sent by their size. */
module ObjectCache {

  const MAX_OBJECT_SIZE := 102400
  const CACHE_LINE := 10
  const MAXLINE := 8192
  const NUL: char := '\0'

  /** What a C string function sees: the characters in front of the first NUL. */
  type CString = s: string | NUL !in s

  datatype Line = Line(buf: string, url: CString, size: nat, valid: bool, timestamp: int)

  /** `held` is everything that the entry's line holds; a hit sends the first `size`
      characters of it. */
  datatype Entry = Entry(url: CString, held: string, size: nat)

  // ---------- C strings ----------

  function CText(s: string): (t: CString)
    ensures t <= s && (|t| < |s| ==> s[|t|] == NUL)
  {
    if s == "" || s[0] == NUL then "" else [s[0]] + CText(s[1..])
  }

  /** strcpy over the old contents of a buffer. A NUL that would come to lie behind the
      buffer goes to the first character of the url, which is written next. */
  function StrCpy(was: string, src: CString): (r: string)
    requires |src| <= |was|
    ensures |r| == |was|
  {
    if |src| == |was| then src else src + [NUL] + was[|src| + 1..]
  }

  /** The memory of the cache is zero before the first write. */
  function Blank(): (s: string)
    ensures |s| == MAX_OBJECT_SIZE && forall i :: 0 <= i < |s| ==> s[i] == NUL
  {
    seq(MAX_OBJECT_SIZE, _ => NUL)
  }

  // ---------- the queue ----------

  /** The entries of a queue, oldest first, are in the lines `places` names. */
  ghost predicate Shows(lines: seq<Line>, now: int, fifo: seq<Entry>, places: seq<int>) {
    && |lines| == CACHE_LINE && |places| == |fifo| <= CACHE_LINE
    && (forall i :: 0 <= i < |places| ==>
          && 0 <= places[i] < |fifo|
          && lines[places[i]].valid && lines[places[i]].timestamp <= now
          && lines[places[i]].url == fifo[i].url && lines[places[i]].buf == fifo[i].held
          && lines[places[i]].size == fifo[i].size)
    && (forall i, j :: 0 <= i < j < |places| ==> lines[places[i]].timestamp < lines[places[j]].timestamp)
    && (forall i, j :: 0 <= i < j < |fifo| ==> fifo[i].url != fifo[j].url)
    && (forall k :: 0 <= k < |fifo| ==> k in places)
    && (forall k :: |fifo| <= k < CACHE_LINE ==> !lines[k].valid && lines[k].buf == Blank())
    && FitsLines(fifo)
  }

  ghost predicate FitsLines(fifo: seq<Entry>) {
    forall i :: 0 <= i < |fifo| ==> fifo[i].size <= MAX_OBJECT_SIZE == |fifo[i].held|
  }

  function Keys(fifo: seq<Entry>): (ks: seq<CString>)
    ensures |ks| == |fifo| && forall i :: 0 <= i < |ks| ==> ks[i] == fifo[i].url
  {
    seq(|fifo|, i requires 0 <= i < |fifo| => fifo[i].url)
  }

  /** What the line that is written next has held so far. */
  function Stale(fifo: seq<Entry>): string {
    if |fifo| == CACHE_LINE then fifo[0].held else Blank()
  }

  /** The queue after an object has been written: `buf` is copied over the oldest of ten
      entries, or over a blank line; an object that is too large is not written. */
  function Enqueue(fifo: seq<Entry>, url: CString, buf: CString, size: nat): seq<Entry>
    requires |buf| <= size && FitsLines(fifo)
  {
    if size > MAX_OBJECT_SIZE then fifo
    else (if |fifo| == CACHE_LINE then fifo[1..] else fifo) + [Entry(url, StrCpy(Stale(fifo), buf), size)]
  }

  class Cache {
    const line: array<Line>
    var currentTime: int
    ghost var fifo: seq<Entry>
    ghost var places: seq<int>

    ghost predicate Valid()
      reads this, line
    {
      line.Length == CACHE_LINE && Shows(line[..], currentTime, fifo, places)
    }

    /** cache_init */
    constructor ()
      ensures Valid() && fifo == [] && fresh(line)
    {
      line := new Line[CACHE_LINE](_ => Line(Blank(), "", 0, false, 0));
      currentTime := 0;
      fifo, places := [], [];
    }

    method FindCacheHit(url: CString) returns (ret: int)
      requires Valid()
      ensures ret == -1 <==> url !in Keys(fifo)
      ensures ret != -1 ==> 0 <= ret < line.Length && Entry(url, line[ret].buf, line[ret].size) in fifo
    {
      ret := -1;
      for i := 0 to CACHE_LINE
        invariant ret == -1 ==> forall j :: 0 <= j < i ==> !(line[j].valid && line[j].url == url)
        invariant ret != -1 ==> 0 <= ret < i && line[ret].valid && line[ret].url == url
      {
        if line[i].valid && line[i].url == url {
          ret := i;
        }
      }
      PrefixValid(line[..], currentTime, fifo, places);
      if ret == -1 {
        forall i | 0 <= i < |fifo|
          ensures Keys(fifo)[i] != url
        {
          assert line[places[i]].valid;
        }
      } else {
        assert ret in places;
        ghost var i :| 0 <= i < |places| && places[i] == ret;
        assert fifo[i] == Entry(url, line[ret].buf, line[ret].size);
        assert Keys(fifo)[i] == url;
      }
    }

    /** The line to write: the first invalid one, or the one that was written longest
        ago. There always is one. */
    method ChooseLine() returns (idx: int)
      requires Valid()
      ensures idx == if |fifo| < CACHE_LINE then |fifo| else places[0]
    {
      idx := -1;
      PrefixValid(line[..], currentTime, fifo, places);
      for i := 0 to CACHE_LINE
        invariant idx == -1 && i <= |fifo|
      {
        assert line[..][i] == line[i];
        if !line[i].valid {
          idx := i;
          break;
        }
      }
      if idx == -1 {
        var maxTime := 0;
        OldestIs(line[..], currentTime, fifo, places);
        for i := 0 to CACHE_LINE
          invariant maxTime >= 0
          invariant forall j :: 0 <= j < i ==> currentTime - line[j].timestamp <= maxTime
          invariant if idx == -1 then maxTime == 0
                    else 0 <= idx < i && currentTime - line[idx].timestamp == maxTime > 0
        {
          if line[i].valid && currentTime - line[i].timestamp > maxTime {
            maxTime := currentTime - line[i].timestamp;
            idx := i;
          }
        }
      }
    }

    /** write_cache, for an object that find_cache_hit has missed. `size` counts all the
        bytes of the object, of which `buf` holds those that strcat has copied. */
    method WriteCache(buf: CString, url: CString, size: nat)
      requires Valid() && url !in Keys(fifo) && |buf| <= size
      modifies this, line
      ensures FitsLines(old(fifo)) && Valid() && fifo == Enqueue(old(fifo), url, buf, size)
    {
      hide Shows, FitsLines, Keys, Blank, Stale, StrCpy, CText;
      ShowsRoom(line[..], currentTime, fifo, places);
      if size > MAX_OBJECT_SIZE {
        return;
      }
      var idx := ChooseLine();
      ghost var lines := line[..];
      ChosenIsStale(lines, currentTime, fifo, places, idx);
      var new_ := Line(StrCpy(line[idx].buf, buf), url, size, true, currentTime + 1);
      line[idx] := new_;
      currentTime := currentTime + 1;
      WriteShows(lines, currentTime - 1, fifo, places, idx, Entry(url, new_.buf, size));
      places := (if |fifo| == CACHE_LINE then places[1..] else places) + [idx];
      fifo := Enqueue(fifo, url, buf, size);
      assert line[..] == lines[idx := new_];
    }
  }

  lemma {:induction false} ShowsRoom(lines: seq<Line>, now: int, fifo: seq<Entry>, places: seq<int>)
    requires Shows(lines, now, fifo, places)
    ensures FitsLines(fifo) && |places| == |fifo| <= CACHE_LINE == |lines|
  {
  }

  /** The line that is written next holds what Stale says. */
  lemma {:induction false} ChosenIsStale(lines: seq<Line>, now: int, fifo: seq<Entry>, places: seq<int>, idx: int)
    requires Shows(lines, now, fifo, places)
    requires idx == if |fifo| < CACHE_LINE then |fifo| else places[0]
    ensures 0 <= idx < |lines| && lines[idx].buf == Stale(fifo) && |Stale(fifo)| == MAX_OBJECT_SIZE
  {
  }

  lemma {:induction false} PrefixValid(lines: seq<Line>, now: int, fifo: seq<Entry>, places: seq<int>)
    requires Shows(lines, now, fifo, places)
    ensures forall k :: 0 <= k < CACHE_LINE ==> (lines[k].valid <==> k < |fifo|)
  {
    forall k | 0 <= k < |fifo|
      ensures lines[k].valid
    {
      assert k in places;
      var i :| 0 <= i < |places| && places[i] == k;
    }
  }

  /** In a full cache the oldest entry's line is the only one of its age, and older
      than now. */
  lemma {:induction false} OldestIs(lines: seq<Line>, now: int, fifo: seq<Entry>, places: seq<int>)
    requires Shows(lines, now, fifo, places) && |fifo| == CACHE_LINE
    ensures 0 <= places[0] < CACHE_LINE && now - lines[places[0]].timestamp > 0
    ensures forall k :: 0 <= k < CACHE_LINE ==> lines[k].valid
    ensures forall k :: 0 <= k < CACHE_LINE && k != places[0] ==> lines[places[0]].timestamp < lines[k].timestamp
  {
    assert lines[places[0]].timestamp < lines[places[1]].timestamp;
    forall k | 0 <= k < CACHE_LINE
      ensures lines[k].valid
      ensures k != places[0] ==> lines[places[0]].timestamp < lines[k].timestamp
    {
      assert k in places;
      var i :| 0 <= i < |places| && places[i] == k;
    }
  }

  /** Writing an entry to the chosen line moves the others up by d places. */
  lemma {:induction false} OthersStay(lines: seq<Line>, now: int, fifo: seq<Entry>, places: seq<int>, idx: int, d: nat)
    requires Shows(lines, now, fifo, places)
    requires if |fifo| < CACHE_LINE then idx == |fifo| && d == 0 else idx == places[0] && d == 1
    ensures forall i :: d <= i < |fifo| ==> places[i] != idx
    ensures forall k :: 0 <= k < |fifo| && k != idx ==> k in places[d..]
  {
    forall i | d <= i < |fifo|
      ensures places[i] != idx
    {
      if d == 1 {
        assert lines[places[0]].timestamp < lines[places[i]].timestamp;
      }
    }
    forall k | 0 <= k < |fifo| && k != idx
      ensures k in places[d..]
    {
      assert k in places;
      var i :| 0 <= i < |places| && places[i] == k;
      assert places[d..][i - d] == k;
    }
  }

  lemma {:induction false} WriteFits(fifo: seq<Entry>, d: nat, e: Entry)
    requires FitsLines(fifo) && d <= |fifo| && e.url !in Keys(fifo) && e.size <= MAX_OBJECT_SIZE == |e.held|
    ensures FitsLines(fifo[d..] + [e])
    ensures forall i :: 0 <= i < |fifo| ==> fifo[i].url != e.url
  {
    forall i | 0 <= i < |fifo|
      ensures fifo[i].url != e.url
    {
      assert Keys(fifo)[i] in Keys(fifo);
    }
  }

  /** Writing e to the chosen line puts it at the end of the queue. */
  lemma {:induction false} WriteShows(lines: seq<Line>, now: int, fifo: seq<Entry>, places: seq<int>, idx: int,
      e: Entry)
    requires Shows(lines, now, fifo, places) && e.url !in Keys(fifo) && e.size <= MAX_OBJECT_SIZE == |e.held|
    requires idx == if |fifo| < CACHE_LINE then |fifo| else places[0]
    ensures var d := if |fifo| == CACHE_LINE then 1 else 0;
            Shows(lines[idx := Line(e.held, e.url, e.size, true, now + 1)], now + 1, fifo[d..] + [e],
                places[d..] + [idx])
  {
    var d := if |fifo| == CACHE_LINE then 1 else 0;
    OthersStay(lines, now, fifo, places, idx, d);
    PrefixValid(lines, now, fifo, places);
    var fifo' := fifo[d..] + [e];
    var places' := places[d..] + [idx];
    WriteFits(fifo, d, e);
    hide FitsLines, Keys, Blank;
    forall k | 0 <= k < |fifo'|
      ensures k in places'
    {
      assert places'[|places'| - 1] == idx;
      assert k != idx ==> k in places[d..];
    }
  }

  // ---------- what a hit sends ----------

  /** The bytes of a reply that arrives in these pieces. */
  function Body(reply: seq<string>): string {
    if reply == [] then "" else Body(reply[..|reply| - 1]) + reply[|reply| - 1]
  }

  /** What strcat has collected of it. */
  function Collected(reply: seq<string>): (t: CString)
    ensures |t| <= |Body(reply)|
  {
    if reply == [] then "" else Collected(reply[..|reply| - 1]) + CText(reply[|reply| - 1])
  }

  /** A hit on the line after this reply was copied over `was` sends the server's bytes. */
  ghost predicate SendsBack(was: string, reply: seq<string>)
    requires |Body(reply)| <= |was|
  {
    StrCpy(was, Collected(reply))[..|Body(reply)|] == Body(reply)
  }

  /** No NUL but possibly the last character. */
  ghost predicate Intact(body: string) {
    forall i :: 0 <= i < |body| - 1 ==> body[i] != NUL
  }

  /** Before the first NUL nothing is lost; behind it either nothing more is collected, or
      a character of a later piece comes to lie in the place of the NUL. */
  lemma {:induction false} CollectedIs(reply: seq<string>)
    ensures var t, body := Collected(reply), Body(reply);
            var c := CText(body);
            c <= t && (c == body ==> t == body)
  {
    if reply != [] {
      var before, last := reply[..|reply| - 1], reply[|reply| - 1];
      CollectedIs(before);
      CTextOfSum(Body(before), last);
    }
  }

  lemma {:induction false} CTextOfSum(u: string, v: string)
    ensures CText(u + v) == if CText(u) == u then u + CText(v) else CText(u)
    decreases |u|
  {
    if u != "" && u[0] != NUL {
      assert (u + v)[1..] == u[1..] + v;
      CTextOfSum(u[1..], v);
      assert CText(u) == [u[0]] + CText(u[1..]);
    } else {
      assert u == "" ==> u + v == v;
    }
  }

  lemma {:induction false} CTextWhole(s: string)
    ensures CText(s) == s <==> NUL !in s
  {
  }

  /** Every strcat of doit's loop stays inside its buffer of MAXLINE characters. */
  ghost predicate StaysInside(reply: seq<string>) {
    forall k {:trigger Collected(reply[..k])} :: 0 <= k <= |reply| ==> |Collected(reply[..k])| < MAXLINE
  }

  lemma {:induction false} CollectedGrows(reply: seq<string>, k: nat)
    requires k <= |reply|
    ensures Collected(reply[..k]) <= Collected(reply) && Body(reply[..k]) <= Body(reply)
    decreases |reply|
  {
    if k < |reply| {
      CollectedGrows(reply[..|reply| - 1], k);
      assert reply[..|reply| - 1][..k] == reply[..k];
    } else {
      assert reply[..k] == reply;
    }
  }

  lemma {:induction false} StaysInsideExactly(reply: seq<string>)
    ensures StaysInside(reply) <==> |Collected(reply)| < MAXLINE
  {
    hide Collected;
    assert reply[..|reply|] == reply;
    forall k | 0 <= k <= |reply|
      ensures |Collected(reply[..k])| <= |Collected(reply)|
    {
      CollectedGrows(reply, k);
    }
  }

  /** What a reply must be like for every client to get it: collected inside the buffer
      and, unless it is too large to be stored, without a NUL in front of its last
      character. */
  ghost predicate Answerable(reply: seq<string>) {
    |Collected(reply)| < MAXLINE && (|Body(reply)| <= MAX_OBJECT_SIZE ==> Intact(Body(reply)))
  }

  /** The reply is collected inside the buffer, and hits send the server's bytes whatever
      the line held before, exactly when fewer than MAXLINE characters are collected and no
      NUL is in front of the last one. */
  lemma {:induction false} SendsBackExactly(reply: seq<string>)
    requires |Body(reply)| <= MAX_OBJECT_SIZE
    ensures StaysInside(reply)
            && (forall was: string {:trigger SendsBack(was, reply)} ::
                  |was| == MAX_OBJECT_SIZE ==> SendsBack(was, reply))
            <==> Answerable(reply)
  {
    StaysInsideExactly(reply);
    if Intact(Body(reply)) {
      forall was: string | |was| == MAX_OBJECT_SIZE
        ensures SendsBack(was, reply)
      {
        IntactSendsBack(was, reply);
      }
    } else {
      var was := BrokenBy(reply);
      assert !SendsBack(was, reply);
    }
  }

  lemma {:induction false} IntactSendsBack(was: string, reply: seq<string>)
    requires |Body(reply)| <= |was| && Intact(Body(reply))
    ensures SendsBack(was, reply)
  {
    hide Body, Collected, CText;
    var body, t := Body(reply), Collected(reply);
    CollectedIs(reply);
    CTextWhole(body);
    if CText(body) == body {
      assert StrCpy(was, t)[..|body|] == body;
    } else {
      IntactCollected(reply);
      assert StrCpy(was, t)[..|body|] == body[..|body| - 1] + [NUL];
    }
  }

  /** With its only NUL at the very end, an object is collected up to that NUL. */
  lemma {:induction false} IntactCollected(reply: seq<string>)
    requires Intact(Body(reply)) && CText(Body(reply)) != Body(reply)
    ensures |Collected(reply)| == |Body(reply)| - 1
  {
    CTextWhole(Body(reply));
    CollectedIs(reply);
    if reply != [] {
      var before, last := reply[..|reply| - 1], reply[|reply| - 1];
      var u := Body(before);
      CTextWhole(u);
      CTextWhole(last);
      CollectedIs(before);
      if last == "" {
        assert Body(reply) == u;
        IntactCollected(before);
      } else {
        forall i | 0 <= i < |u|
          ensures u[i] != NUL
        {
          assert Body(reply)[i] == u[i];
        }
        forall i | 0 <= i < |last| - 1
          ensures last[i] != NUL
        {
          assert Body(reply)[|u| + i] == last[i];
        }
      }
    }
  }

  /** Otherwise some old contents of the line show through. */
  lemma {:induction false} BrokenBy(reply: seq<string>) returns (was: string)
    requires |Body(reply)| <= MAX_OBJECT_SIZE && !Intact(Body(reply))
    ensures |was| == MAX_OBJECT_SIZE && !SendsBack(was, reply)
  {
    hide Body, Collected, CText;
    var body, t := Body(reply), Collected(reply);
    CollectedIs(reply);
    CTextWhole(body);
    var k := |CText(body)|;
    assert k < |body| - 1 && body[k] == NUL;
    var other: char := if body[k + 1] == 'x' then 'y' else 'x';
    was := seq(MAX_OBJECT_SIZE, _ => other);
    var r := StrCpy(was, t);
    if |t| > k {
      assert t[k] in t && r[..|body|][k] == t[k] != body[k];
    } else {
      assert r[..|body|][k + 1] == other;
    }
  }

  /** An object of three bytes with a NUL in the middle, written to a blank line. */
  lemma {:induction false} NulInTheMiddle()
    ensures var reply := [['a', NUL, 'b']]; !SendsBack(Blank(), reply)
  {
    var reply := [['a', NUL, 'b']];
    assert Body(reply[..0]) == "" && Collected(reply[..0]) == "";
    assert Body(reply) == ['a', NUL, 'b'];
    assert CText(['a', NUL, 'b']) == "a";
    assert Collected(reply) == "a";
    assert StrCpy(Blank(), "a")[..3][2] == NUL;
  }

  // ---------- whole runs ----------

  /** A request for a url, with the pieces in which its server sends the object. */
  datatype Request = Request(url: CString, reply: seq<string>)

  /** Position of a url, or -1. */
  function Find(keys: seq<CString>, url: CString): (r: int)
    ensures -1 <= r < |keys|
    ensures r == -1 <==> url !in keys
    ensures r >= 0 ==> keys[r] == url
  {
    if keys == [] then -1
    else if keys[|keys| - 1] == url then |keys| - 1
    else Find(keys[..|keys| - 1], url)
  }

  /** The cache's answer: on a hit the first bytes of what the line holds, on a miss the
      server's bytes. */
  function Serve(fifo: seq<Entry>, r: Request): (seq<Entry>, string)
    requires FitsLines(fifo)
  {
    var i := Find(Keys(fifo), r.url);
    if i >= 0 then (fifo, fifo[i].held[..fifo[i].size])
    else (Enqueue(fifo, r.url, Collected(r.reply), |Body(r.reply)|), Body(r.reply))
  }

  lemma {:induction false} ServeFits(fifo: seq<Entry>, r: Request)
    requires FitsLines(fifo)
    ensures FitsLines(Serve(fifo, r).0)
  {
  }

  function ServeAll(fifo: seq<Entry>, rs: seq<Request>): (seq<Entry>, seq<string>)
    requires FitsLines(fifo)
    decreases |rs|
  {
    if rs == [] then (fifo, [])
    else
      ServeFits(fifo, rs[0]);
      var (f, a) := Serve(fifo, rs[0]);
      var (g, as_) := ServeAll(f, rs[1..]);
      (g, [a] + as_)
  }

  lemma {:induction false} ServeAllSnoc(fifo: seq<Entry>, rs: seq<Request>, r: Request)
    requires FitsLines(fifo)
    ensures var (f, as_) := ServeAll(fifo, rs);
            FitsLines(f) && ServeAll(fifo, rs + [r]) == (Serve(f, r).0, as_ + [Serve(f, r).1])
    decreases |rs|
  {
    hide Serve;
    if rs != [] {
      assert (rs + [r])[1..] == rs[1..] + [r];
      ServeFits(fifo, rs[0]);
      var (f, a) := Serve(fifo, rs[0]);
      ServeAllSnoc(f, rs[1..], r);
      var (g, as_) := ServeAll(f, rs[1..]);
      assert [a] + (as_ + [Serve(g, r).1]) == [a] + as_ + [Serve(g, r).1];
    } else {
      assert rs + [r] == [r] && [r][1..] == [];
      assert [] + [Serve(fifo, r).1] == [Serve(fifo, r).1] + [];
      ServeFits(fifo, r);
      assert ServeAll(Serve(fifo, r).0, []) == (Serve(fifo, r).0, []);
    }
  }

  /** The buffer holds t as a C string. */
  ghost predicate HoldsText(s: seq<char>, t: CString) {
    |t| < |s| && t <= s && s[|t|] == NUL
  }

  lemma {:induction false} TextHeld(s: seq<char>, t: CString)
    requires HoldsText(s, t)
    ensures CText(s) == t
    decreases |s|
  {
    if t != "" {
      assert t == [t[0]] + t[1..];
      TextHeld(s[1..], t[1..]);
    }
  }

  /** strcat into a buffer that holds t. Returns false where it would write behind the
      end of the buffer. */
  method StrCat(buf: array<char>, src: CString, ghost t: CString) returns (ok: bool)
    requires HoldsText(buf[..], t)
    modifies buf
    ensures ok <==> |t| + |src| < buf.Length
    ensures ok ==> HoldsText(buf[..], t + src)
  {
    var n := 0;
    while buf[n] != NUL
      invariant n <= |t|
      decreases |t| - n
    {
      assert buf[..][n] == t[n];
      n := n + 1;
    }
    assert buf[..][n] == NUL;
    for i := 0 to |src|
      invariant n + i < buf.Length
      invariant forall j :: 0 <= j < n ==> buf[j] == t[j]
      invariant forall j :: 0 <= j < i ==> buf[n + j] == src[j]
    {
      if n + i + 1 == buf.Length {
        return false;
      }
      buf[n + i] := src[i];
    }
    buf[n + |src|] := NUL;
    assert buf[..n + |src|] == t + src;
    return true;
  }

  /** doit()'s loop over the pieces of a reply. It ends early, with ok false, where strcat
      overruns the buffer. */
  method Fetch(reply: seq<string>) returns (sent: string, text: CString, size: nat, ok: bool)
    ensures ok <==> |Collected(reply)| < MAXLINE
    ensures ok ==> sent == Body(reply) && text == Collected(reply) && size == |Body(reply)|
    ensures sent <= Body(reply)
  {
    hide Collected, CText;
    var buf := new char[MAXLINE](_ => NUL);
    sent, text, size := "", "", 0;
    NothingCollected();
    for k := 0 to |reply|
      invariant sent == Body(reply[..k]) && size == |sent|
      invariant HoldsText(buf[..], Collected(reply[..k]))
    {
      var message := reply[k];
      CollectedSnoc(reply, k);
      CollectedGrows(reply, k + 1);
      sent, size := sent + message, size + |message|;
      ok := StrCat(buf, CText(message), Collected(reply[..k]));
      if !ok {
        return;
      }
    }
    assert reply[..|reply|] == reply;
    TextHeld(buf[..], Collected(reply));
    return sent, CText(buf[..]), size, true;
  }

  lemma {:induction false} NothingCollected()
    ensures Collected([]) == "" && Body([]) == ""
  {
  }

  lemma {:induction false} CollectedSnoc(reply: seq<string>, k: nat)
    requires k < |reply|
    ensures Body(reply[..k + 1]) == Body(reply[..k]) + reply[k]
    ensures Collected(reply[..k + 1]) == Collected(reply[..k]) + CText(reply[k])
  {
    assert reply[..k + 1][..k] == reply[..k];
  }

  /** A miss whose object does not fit doit's buffer. */
  predicate Overruns(fifo: seq<Entry>, r: Request) {
    r.url !in Keys(fifo) && |Collected(r.reply)| >= MAXLINE
  }

  /** doit()'s use of the cache for one request: false where the buffer is overrun. */
  method ServeOne(c: Cache, r: Request) returns (answer: string, ok: bool)
    requires c.Valid()
    modifies c, c.line
    ensures FitsLines(old(c.fifo)) && c.Valid() && (ok <==> !Overruns(old(c.fifo), r))
    ensures if ok then (c.fifo, answer) == Serve(old(c.fifo), r) else c.fifo == old(c.fifo)
  {
    hide Shows, FitsLines, Collected, Body, Enqueue;
    ShowsRoom(c.line[..], c.currentTime, c.fifo, c.places);
    var idx := c.FindCacheHit(r.url);
    if idx != -1 {
      DifferentUrls(c.line[..], c.currentTime, c.fifo, c.places);
      SameUrlSameEntry(c.fifo, Entry(r.url, c.line[idx].buf, c.line[idx].size));
      answer, ok := c.line[idx].buf[..c.line[idx].size], true;
    } else {
      var text, size;
      answer, text, size, ok := Fetch(r.reply);
      if ok {
        c.WriteCache(text, r.url, size);
      }
    }
  }

  ghost predicate OverrunsAt(fifo: seq<Entry>, rs: seq<Request>, k: nat)
    requires FitsLines(fifo) && k < |rs|
  {
    Overruns(ServeAll(fifo, rs[..k]).0, rs[k])
  }

  /** Request after request, up to the first one that overruns doit's buffer. When every
      reply is answerable there is none, and every client gets what the map answers. */
  method ServeRequests(c: Cache, rs: seq<Request>) returns (answers: seq<string>, ok: bool)
    requires c.Valid() && c.fifo == []
    modifies c, c.line
    ensures c.Valid() && |answers| <= |rs| && (c.fifo, answers) == ServeAll([], rs[..|answers|])
    ensures ok <==> forall k :: 0 <= k < |rs| ==> !OverrunsAt([], rs, k)
    ensures if ok then |answers| == |rs| else |answers| < |rs| && OverrunsAt([], rs, |answers|)
    ensures (forall r :: r in rs ==> Answerable(r.reply)) ==> ok && answers == MapServeAll([], rs)
  {
    hide Shows, ServeAll, Serve, MapServeAll, Overruns, Answerable;
    answers := [];
    ServeNone();
    AllAnswerable(rs);
    for k := 0 to |rs|
      invariant c.Valid() && |answers| == k && (c.fifo, answers) == ServeAll([], rs[..k])
      invariant forall j :: 0 <= j < k ==> !OverrunsAt([], rs, j)
    {
      ServeAllSnoc([], rs[..k], rs[k]);
      assert rs[..k] + [rs[k]] == rs[..k + 1];
      var answer;
      answer, ok := ServeOne(c, rs[k]);
      if !ok {
        assert OverrunsAt([], rs, k);
        return;
      }
      answers := answers + [answer];
    }
    assert rs[..|rs|] == rs;
    return answers, true;
  }

  lemma {:induction false} AllAnswerable(rs: seq<Request>)
    ensures (forall r :: r in rs ==> Answerable(r.reply)) ==>
              && ServeAll([], rs).1 == MapServeAll([], rs)
              && forall k :: 0 <= k < |rs| ==> !OverrunsAt([], rs, k)
  {
    if forall r :: r in rs ==> Answerable(r.reply) {
      assert Objects([]) == [];
      AnswersOfTheMap([], rs);
    }
  }

  lemma {:induction false} ServeNone()
    ensures ServeAll([], []) == ([], [])
  {
  }

  lemma {:induction false} DifferentUrls(lines: seq<Line>, now: int, fifo: seq<Entry>, places: seq<int>)
    requires Shows(lines, now, fifo, places)
    ensures forall i, j :: 0 <= i < j < |fifo| ==> fifo[i].url != fifo[j].url
  {
  }

  lemma {:induction false} SameUrlSameEntry(fifo: seq<Entry>, e: Entry)
    requires FitsLines(fifo) && e in fifo
    requires forall i, j :: 0 <= i < j < |fifo| ==> fifo[i].url != fifo[j].url
    ensures var i := Find(Keys(fifo), e.url); i >= 0 && fifo[i] == e && e.size <= |e.held|
  {
    var k :| 0 <= k < |fifo| && fifo[k] == e;
    assert Keys(fifo)[k] == e.url;
  }

  // ---------- the map that the cache is meant to be ----------

  /** A ten-entry first-in-first-out map from urls to objects: an entry holds its object
      and nothing else. */
  function MapServe(q: seq<Entry>, r: Request): (seq<Entry>, string) {
    var i, body := Find(Keys(q), r.url), Body(r.reply);
    if i >= 0 then (q, q[i].held)
    else if |body| > MAX_OBJECT_SIZE then (q, body)
    else ((if |q| == CACHE_LINE then q[1..] else q) + [Entry(r.url, body, |body|)], body)
  }

  function MapServeAll(q: seq<Entry>, rs: seq<Request>): seq<string>
    decreases |rs|
  {
    if rs == [] then []
    else
      var (p, a) := MapServe(q, rs[0]);
      [a] + MapServeAll(p, rs[1..])
  }

  function MapAfter(q: seq<Entry>, rs: seq<Request>): seq<Entry>
    decreases |rs|
  {
    if rs == [] then q else MapAfter(MapServe(q, rs[0]).0, rs[1..])
  }

  ghost predicate DistinctUrls(q: seq<Entry>) {
    forall i, j :: 0 <= i < j < |q| ==> q[i].url != q[j].url
  }

  /** A request moves an entry up by one place at most, and only when the queue is full; it
      drops none but the first. */
  lemma {:induction false} MapKeeps(q: seq<Entry>, r: Request, i: nat) returns (j: nat)
    requires DistinctUrls(q) && |q| <= 10 && i < |q| && (|q| == 10 ==> i > 0)
    ensures var q' := MapServe(q, r).0;
            && DistinctUrls(q') && |q'| <= 10 && j < |q'| && q'[j] == q[i]
            && j + (10 - |q'|) >= i + (10 - |q|) - 1
  {
    var k := Find(Keys(q), r.url);
    var body := Body(r.reply);
    hide Body;
    j := i;
    if k < 0 && |body| <= MAX_OBJECT_SIZE {
      forall n | 0 <= n < |q|
        ensures q[n].url != r.url
      {
        assert Keys(q)[n] in Keys(q);
      }
      j := if |q| == 10 then i - 1 else i;
    }
  }

  /** An object stays for at least the next nine requests: a request for its url then gets
      it, whatever the server would send. */
  lemma {:induction false} StaysForNine(q: seq<Entry>, i: nat, rs: seq<Request>, reply: seq<string>)
    requires DistinctUrls(q) && |q| <= 10 && i < |q| && |rs| <= i + (10 - |q|)
    ensures MapServe(MapAfter(q, rs), Request(q[i].url, reply)).1 == q[i].held
    decreases |rs|
  {
    if rs == [] {
      assert Keys(q)[i] == q[i].url;
    } else {
      var j := MapKeeps(q, rs[0], i);
      StaysForNine(MapServe(q, rs[0]).0, j, rs[1..], reply);
    }
  }

  /** A miss is answered by the server, and unless it is too large the object is the newest
      entry. When ten others were there the oldest one is gone. */
  lemma {:induction false} MissStores(q: seq<Entry>, r: Request)
    requires DistinctUrls(q) && |q| <= 10 && r.url !in Keys(q)
    ensures var (q', answer) := MapServe(q, r);
            && answer == Body(r.reply)
            && (|Body(r.reply)| > 102400 ==> q' == q)
            && (|Body(r.reply)| <= 102400 ==>
                  && 0 < |q'| <= 10 && q'[|q'| - 1].url == r.url && q'[|q'| - 1].held == Body(r.reply)
                  && (|q| == 10 ==> forall e :: e in q' ==> e.url != q[0].url))
  {
    hide Body;
    assert Find(Keys(q), r.url) == -1;
    if |q| == 10 && |Body(r.reply)| <= 102400 {
      forall e | e in MapServe(q, r).0
        ensures e.url != q[0].url
      {
        assert Keys(q)[0] in Keys(q);
        if e in q[1..] {
          var n :| 0 <= n < |q[1..]| && q[1..][n] == e;
          assert q[n + 1] == e;
        }
      }
    }
  }

  /** What hits on the entries of a queue would send. */
  function Objects(fifo: seq<Entry>): (q: seq<Entry>)
    requires FitsLines(fifo)
    ensures |q| == |fifo|
    ensures forall i :: 0 <= i < |q| ==> q[i] == fifo[i].(held := fifo[i].held[..fifo[i].size])
  {
    seq(|fifo|, i requires 0 <= i < |fifo| => fifo[i].(held := fifo[i].held[..fifo[i].size]))
  }

  lemma {:induction false} ServeIsMap(fifo: seq<Entry>, r: Request)
    requires FitsLines(fifo)
    requires |Body(r.reply)| <= MAX_OBJECT_SIZE ==> Intact(Body(r.reply))
    ensures FitsLines(Serve(fifo, r).0)
    ensures (Objects(Serve(fifo, r).0), Serve(fifo, r).1) == MapServe(Objects(fifo), r)
  {
    hide Body, Collected, Intact;
    ServeFits(fifo, r);
    assert Keys(fifo) == Keys(Objects(fifo));
    if Find(Keys(fifo), r.url) < 0 && |Body(r.reply)| <= MAX_OBJECT_SIZE {
      IntactSendsBack(Stale(fifo), r.reply);
      assert Objects(Serve(fifo, r).0) == MapServe(Objects(fifo), r).0;
    }
  }

  /** When every reply is collected inside doit's buffer, and those that are stored have no
      NUL in front of their last character,
          no request overruns the buffer and every client gets what the map answers. */
  lemma {:induction false} AnswersOfTheMap(fifo: seq<Entry>, rs: seq<Request>)
    requires FitsLines(fifo)
    requires forall r :: r in rs ==> Answerable(r.reply)
    ensures ServeAll(fifo, rs).1 == MapServeAll(Objects(fifo), rs)
    ensures forall k :: 0 <= k < |rs| ==> !OverrunsAt(fifo, rs, k)
    decreases |rs|
  {
    hide Serve, MapServe, Body, Intact;
    if rs != [] {
      assert Answerable(rs[0].reply);
      ServeIsMap(fifo, rs[0]);
      AnswersOfTheMap(Serve(fifo, rs[0]).0, rs[1..]);
    }
    forall k | 0 <= k < |rs|
      ensures !OverrunsAt(fifo, rs, k)
    {
      assert Answerable(rs[k].reply);
    }
  }

  /** Two lines of 4096 characters without a NUL, far below the size of a cache line: the
      second strcat overruns the buffer. */
  lemma {:induction false} LongObjectOverruns(url: CString)
    ensures var line := seq(4095, _ => 'a') + ['\n'];
            var reply := [line, line];
            && |Body(reply)| == 8192 && NUL !in Body(reply) && Intact(Body(reply))
            && !StaysInside(reply) && Overruns([], Request(url, reply))
  {
    var line := seq(4095, _ => 'a') + ['\n'];
    var reply := [line, line];
    assert reply[..1] == [line] && reply[..1][..0] == [];
    assert Body([line]) == line && Body(reply) == line + line;
    CTextWhole(line);
    assert Collected([line]) == line && Collected(reply) == line + line;
    StaysInsideExactly(reply);
    assert Keys([]) == [];
  }

  /** Two requests for an object with a NUL in the middle: the second client does not get
      what the first one got. */
  lemma {:induction false} NulBreaksTheMap(url: CString)
    ensures var reply := [['a', NUL, 'b']];
            var rs := [Request(url, reply), Request(url, reply)];
            ServeAll([], rs).1 != MapServeAll([], rs)
  {
    hide Body, Collected, StrCpy;
    var reply := [['a', NUL, 'b']];
    var r := Request(url, reply);
    var rs := [r, r];
    assert rs[1..] == [r] && [r][1..] == [];
    NulInTheMiddle();
    ThreeBytes();
    assert Objects([]) == [];
    var fifo := [Entry(url, StrCpy(Blank(), Collected(reply)), 3)];
    var q := [Entry(url, Body(reply), 3)];
    assert Keys([]) == [] && Find([], url) == -1;
    assert fifo == [] + fifo && Enqueue([], url, Collected(reply), 3) == fifo && q == [] + q;
    assert Serve([], r) == (fifo, Body(reply)) && MapServe([], r) == (q, Body(reply));
    assert Keys(fifo) == [url] && Keys(q) == [url];
    assert Serve(fifo, r).1 == fifo[0].held[..3] && MapServe(q, r).1 == Body(reply);
    TwoRequests([], r, r);
  }

  lemma {:induction false} TwoRequests(fifo: seq<Entry>, r: Request, r': Request)
    requires FitsLines(fifo)
    ensures var f := Serve(fifo, r).0;
            FitsLines(f) && ServeAll(fifo, [r, r']).1 == [Serve(fifo, r).1, Serve(f, r').1]
    ensures var p := MapServe(Objects(fifo), r).0;
            MapServeAll(Objects(fifo), [r, r']) == [MapServe(Objects(fifo), r).1, MapServe(p, r').1]
  {
    hide Serve, MapServe;
    ServeFits(fifo, r);
    ServeFits(Serve(fifo, r).0, r');
    assert [r, r'][1..] == [r'] && [r'][1..] == [];
    var f := Serve(fifo, r).0;
    assert ServeAll(f, [r']).1 == [Serve(f, r').1] + ServeAll(Serve(f, r').0, []).1;
    var p := MapServe(Objects(fifo), r).0;
    assert MapServeAll(p, [r']) == [MapServe(p, r').1] + MapServeAll(MapServe(p, r').0, []);
  }

  lemma {:induction false} ThreeBytes()
    ensures |Body([['a', NUL, 'b']])| == 3
  {
    var reply := [['a', NUL, 'b']];
    assert Body(reply[..0]) == "";
  }
}
