/** The robust buffered reader. The kernel may answer a read with fewer bytes than asked
    for, may interrupt it, or may fail it; no byte is lost, repeated or reordered. */
module Rio {
  import opened Basics

  type Byte = x: int | 0 <= x < 256

  const RIO_BUFSIZE := 8192
  const NEWLINE: Byte := 10

  /** What the kernel does with a read: interrupt it, fail it, or transfer up to k bytes,
      but at least one if there is one. */
  datatype Answer = Interrupted | Failed | UpTo(k: nat)

  /** The number of bytes a line read takes: through the first newline, but no more than
      `limit`, and no more than there are. */
  function LineLength(v: seq<Byte>, limit: nat): (k: nat)
    ensures k <= limit && k <= |v|
    ensures forall i :: 0 <= i < k - 1 ==> v[i] != NEWLINE
    ensures k == limit || k == |v| || (k > 0 && v[k - 1] == NEWLINE)
  {
    if limit == 0 || v == [] then 0
    else if v[0] == NEWLINE then 1
    else 1 + LineLength(v[1..], limit - 1)
  }

  lemma {:induction false} DropConcat(b: seq<Byte>, s: seq<Byte>, k: nat)
    requires k <= |b|
    ensures (b + s)[k..] == b[k..] + s && (b + s)[..k] == b[..k]
  {
  }

  /** Of the bytes v, `got` have been delivered and `view` are still to come. */
  ghost predicate Split(v: seq<Byte>, got: seq<Byte>, view: seq<Byte>) {
    v == got + view
  }

  lemma {:induction false} SplitStep(v: seq<Byte>, got: seq<Byte>, view: seq<Byte>, k: nat)
    requires Split(v, got, view) && k <= |view|
    ensures Split(v, got + view[..k], view[k..])
  {
    assert view == view[..k] + view[k..];
  }

  lemma {:induction false} SplitStart(v: seq<Byte>, nothing: seq<Byte>)
    requires nothing == []
    ensures Split(v, nothing, v)
  {
  }

  lemma {:induction false} LineEnd(v: seq<Byte>, limit: nat)
    requires limit == 0 || v == []
    ensures LineLength(v, limit) == 0
  {
  }

  lemma {:induction false} SplitIs(v: seq<Byte>, got: seq<Byte>, view: seq<Byte>)
    requires Split(v, got, view)
    ensures |got| <= |v| && view == v[|got|..] && got == v[..|got|]
    ensures |v| == |got| + |view|
  {
  }

  lemma {:induction false} SplitLine(v: seq<Byte>, got: seq<Byte>, view: seq<Byte>, limit: nat)
    requires view != [] && limit > 0
    ensures LineLength(view, limit) == if view[0] == NEWLINE then 1 else 1 + LineLength(view[1..], limit - 1)
    ensures view[..1] == [view[0]]
  {
  }

  /** An open file: the bytes not yet read, and the kernel's next answers. When those are
      used up every read transfers as much as it can. */
  class File {
    var stream: seq<Byte>
    var script: seq<Answer>

    constructor (stream: seq<Byte>, script: seq<Answer>)
      ensures this.stream == stream && this.script == script
    {
      this.stream, this.script := stream, script;
    }

    /** read(2) into the start of buf; `interrupted` stands for errno == EINTR. */
    method Read(buf: array<Byte>) returns (r: int, interrupted: bool)
      requires buf.Length > 0
      modifies this, buf
      ensures -1 <= r <= buf.Length && r <= |old(stream)|
      ensures r == -1 <==> old(script) != [] && !old(script)[0].UpTo?
      ensures r == -1 ==> stream == old(stream)
                          && old(script)[0] == (if interrupted then Interrupted else Failed)
      ensures r >= 0 ==> stream == old(stream)[r..] && buf[..r] == old(stream)[..r]
      ensures r == 0 ==> old(stream) == []
      ensures script == if old(script) == [] then [] else old(script)[1..]
    {
      var k := buf.Length;
      if script != [] {
        var a := script[0];
        script := script[1..];
        match a {
          case Interrupted => return -1, true;
          case Failed => return -1, false;
          case UpTo(n) => k := if n == 0 then 1 else Min(n, buf.Length);
        }
      }
      r, interrupted := Min(k, |stream|), false;
      forall i | 0 <= i < r {
        buf[i] := stream[i];
      }
      stream := stream[r..];
    }
  }

  /** The next read that is not interrupted fails. */
  predicate Fails(script: seq<Answer>) {
    script != [] && (script[0].Failed? || (script[0].Interrupted? && Fails(script[1..])))
  }

  class Reader {
    const fd: File
    const rioBuf: array<Byte>
    var cnt: int
    var ptr: nat

    ghost predicate Valid()
      reads this
    {
      rioBuf.Length == RIO_BUFSIZE && (cnt > 0 ==> ptr + cnt <= RIO_BUFSIZE)
    }

    ghost function Buffered(): seq<Byte>
      requires Valid()
      reads this, rioBuf
    {
      if cnt <= 0 then [] else rioBuf[ptr..ptr + cnt]
    }

    /** Everything that is still to be delivered. */
    ghost function View(): seq<Byte>
      requires Valid()
      reads this, rioBuf, fd
    {
      Buffered() + fd.stream
    }

    /** rio_readinitb */
    constructor (fd: File)
      ensures Valid() && this.fd == fd && fresh(rioBuf)
      ensures View() == fd.stream
    {
      this.fd := fd;
      rioBuf := new Byte[RIO_BUFSIZE](_ => 0);
      cnt, ptr := 0, 0;
    }

    /** The first loop of rio_read: refills the buffer if it is empty. */
    method Refill() returns (r: int)
      requires Valid()
      modifies this, rioBuf, fd
      ensures Valid() && View() == old(View())
      ensures r == -1 ==> Failed in old(fd.script)
      ensures r == -1 <==> old(cnt) <= 0 && Fails(old(fd.script))
      ensures old(cnt) > 0 ==> cnt == old(cnt) && fd.stream == old(fd.stream) && fd.script == old(fd.script)
      ensures r == 0 ==> View() == [] && cnt <= 0
      ensures r == -1 || r == 0 || (r == 1 && cnt > 0)
      ensures Failed in fd.script ==> Failed in old(fd.script)
    {
      while cnt <= 0
        invariant Valid() && View() == old(View())
        invariant cnt <= 0 ==> old(cnt) <= 0 && (Fails(fd.script) <==> Fails(old(fd.script)))
        invariant cnt > 0 ==> !(old(cnt) <= 0 && Fails(old(fd.script)))
        invariant old(cnt) > 0 ==> cnt == old(cnt) && fd.stream == old(fd.stream) && fd.script == old(fd.script)
        invariant Failed in fd.script ==> Failed in old(fd.script)
        decreases |fd.script|, if cnt <= 0 then 1 else 0
      {
        ghost var v, script := View(), fd.script;
        var interrupted;
        cnt, interrupted := ReadMore();
        if cnt < 0 {
          if !interrupted {
            return -1;
          }
        } else if cnt == 0 {
          return 0;
        } else {
          ptr := 0;
        }
      }
      return 1;
    }

    method ReadMore() returns (r: int, interrupted: bool)
      requires Valid() && cnt <= 0
      modifies rioBuf, fd
      ensures -1 <= r <= RIO_BUFSIZE
      ensures r <= 0 ==> fd.stream == old(fd.stream)
      ensures r > 0 ==> rioBuf[..r] + fd.stream == old(fd.stream)
      ensures r == 0 ==> fd.stream == []
      ensures r == -1 ==> |fd.script| < |old(fd.script)| && (!interrupted ==> Failed in old(fd.script))
      ensures if r == -1 then interrupted ==> (Fails(fd.script) <==> Fails(old(fd.script))) else !Fails(old(fd.script))
      ensures r == -1 && !interrupted ==> Fails(old(fd.script))
      ensures |fd.script| <= |old(fd.script)|
      ensures Failed in fd.script ==> Failed in old(fd.script)
    {
      r, interrupted := fd.Read(rioBuf);
    }

    /** The memcpy of rio_read. */
    method CopyOut(usr: array<Byte>, off: nat, k: nat)
      requires Valid() && usr != rioBuf && k <= cnt && off + k <= usr.Length
      modifies `cnt, `ptr, usr
      ensures Valid() && k <= |old(View())| && cnt == old(cnt) - k
      ensures View() == old(View())[k..]
      ensures usr[off..off + k] == old(View())[..k]
      ensures forall i :: 0 <= i < usr.Length && !(off <= i < off + k) ==> usr[i] == old(usr[i])
    {
      ghost var b := Buffered();
      DropConcat(b, fd.stream, k);
      forall i | 0 <= i < k {
        usr[off + i] := rioBuf[ptr + i];
      }
      assert usr[off..off + k] == b[..k];
      ptr := ptr + k;
      cnt := cnt - k;
      assert Buffered() == b[k..];
    }

    /** rio_read into usr from `off` on. */
    method RioRead(usr: array<Byte>, off: nat, n: nat) returns (r: int)
      requires Valid() && usr != rioBuf && 0 < n && off + n <= usr.Length
      modifies this, rioBuf, fd, usr
      ensures Valid() && -1 <= r <= n && r <= |old(View())|
      ensures r == -1 ==> Failed in old(fd.script)
      ensures r == -1 <==> old(cnt) <= 0 && Fails(old(fd.script))
      ensures r >= 0 ==> r == n || cnt <= 0
      ensures old(cnt) > 0 ==> r == Min(n, old(cnt)) && fd.stream == old(fd.stream) && fd.script == old(fd.script)
      ensures r == 0 ==> old(View()) == []
      ensures View() == old(View())[if r < 0 then 0 else r..]
      ensures r > 0 ==> usr[off..off + r] == old(View())[..r]
      ensures forall i :: 0 <= i < usr.Length && !(off <= i < off + r) ==> usr[i] == old(usr[i])
      ensures Failed in fd.script ==> Failed in old(fd.script)
    {
      hide View, Fails;
      var ok := Refill();
      if ok <= 0 {
        assert View()[0..] == View();
        return ok;
      }
      r := n;
      if cnt < n {
        r := cnt;
      }
      CopyOut(usr, off, r);
    }

    /** rio_read of one byte into a local variable. */
    method GetByte() returns (rc: int, c: Byte)
      requires Valid()
      modifies this, rioBuf, fd
      ensures Valid() && -1 <= rc <= 1
      ensures rc == 1 ==> old(View()) != [] && c == old(View())[0] && View() == old(View())[1..]
      ensures rc <= 0 ==> View() == old(View())
      ensures rc == 0 ==> View() == []
      ensures rc == -1 ==> Failed in old(fd.script)
      ensures Failed in fd.script ==> Failed in old(fd.script)
    {
      var a := new Byte[1];
      ghost var v := View();
      rc := RioRead(a, 0, 1);
      c := a[0];
      if rc == 1 {
        assert a[0..1][0] == v[..1][0];
      }
    }

    /** rio_readnb: n bytes, or as many as there are. Even when it reports an error, the
        d bytes it has stored are the ones it has taken. */
    method ReadNB(usr: array<Byte>, n: nat) returns (r: int, ghost d: nat)
      requires Valid() && usr != rioBuf && n <= usr.Length
      modifies this, rioBuf, fd, usr
      ensures Valid() && d <= |old(View())| && d <= n
      ensures View() == old(View())[d..] && usr[..d] == old(View())[..d]
      ensures if r == -1 then Failed in old(fd.script) else r == d == Min(n, |old(View())|)
      ensures Failed in fd.script ==> Failed in old(fd.script)
    {
      hide Split, View;
      var nleft, bufp := n, 0;
      d := 0;
      ghost var v := View();
      SplitStart(v, usr[..0]);
      while nleft > 0
        invariant Valid() && nleft >= 0 && bufp == d == n - nleft
        invariant Split(v, usr[..d], View())
        invariant Failed in fd.script ==> Failed in old(fd.script)
      {
        ghost var got, view := usr[..d], View();
        var nread := RioRead(usr, bufp, nleft);
        assert usr[..d] == got;
        if nread < 0 {
          SplitIs(v, got, view);
          return -1, d;
        } else if nread == 0 {
          break;
        }
        SplitStep(v, got, view, nread);
        assert usr[..d + nread] == got + view[..nread];
        nleft := nleft - nread;
        bufp := bufp + nread;
        d := d + nread;
      }
      r := n - nleft;
      SplitIs(v, usr[..d], View());
    }

    /** rio_readlineb has taken n - 1 of the bytes v and stored them. */
    ghost predicate Stored(usr: array<Byte>, n: nat, v: seq<Byte>)
      reads this, rioBuf, fd, usr
    {
      Valid() && usr != rioBuf && 1 <= n && n - 1 <= usr.Length && Split(v, usr[..n - 1], View())
    }

    /** With at most `limit` bytes more the line will be `line` bytes long. */
    ghost predicate InLine(n: nat, limit: nat, line: nat)
      requires Valid()
      reads this, rioBuf, fd
    {
      line == n - 1 + LineLength(View(), limit)
    }

    /** One round of the loop of rio_readlineb: reads a byte and stores it. */
    method LineByte(usr: array<Byte>, n: nat, maxlen: nat, ghost v: seq<Byte>, ghost line: nat)
      returns (rc: int, c: Byte)
      requires n < maxlen <= usr.Length && Stored(usr, n, v) && InLine(n, maxlen - n, line)
      modifies this, rioBuf, fd, usr
      ensures -1 <= rc <= 1 && Valid() && Stored(usr, if rc == 1 then n + 1 else n, v)
      ensures Failed in fd.script ==> Failed in old(fd.script)
      ensures rc == 1 ==> if c == NEWLINE then line == n else InLine(n + 1, maxlen - n - 1, line)
      ensures rc == 0 ==> View() == [] && line == n - 1
      ensures rc == -1 ==> Failed in old(fd.script)
    {
      hide Split, LineLength;
      ghost var got, view := usr[..n - 1], View();
      rc, c := GetByte();
      if rc == 1 {
        SplitLine(v, got, view, maxlen - n);
        SplitStep(v, got, view, 1);
        PutByte(usr, n - 1, c);
      } else if rc == 0 {
        LineEnd(view, maxlen - n);
      }
    }

    lemma {:induction false} StoredIs(usr: array<Byte>, n: nat, v: seq<Byte>)
      requires Stored(usr, n, v)
      ensures var d := n - 1; d <= |v| && View() == v[d..] && usr[..d] == v[..d]
      ensures View() == [] ==> |v| == n - 1
    {
      SplitIs(v, usr[..n - 1], View());
    }

    lemma {:induction false} LineStarts(usr: array<Byte>, maxlen: nat)
      requires Valid() && usr != rioBuf
      ensures Stored(usr, 1, View())
      ensures if maxlen == 0 then Taken(View(), Line(maxlen)) == 0
                else InLine(1, maxlen - 1, Taken(View(), Line(maxlen)))
    {
      SplitStart(View(), usr[..0]);
    }

    lemma {:induction false} InLineEnds(n: nat, line: nat)
      requires Valid() && InLine(n, 0, line)
      ensures line == n - 1
    {
    }

    /** rio_readlineb: a line of at most maxlen - 1 bytes, followed by a NUL except at the
        end of the input. */
    method ReadLineB(usr: array<Byte>, maxlen: nat) returns (r: int, ghost d: nat)
      requires Valid() && usr != rioBuf && maxlen <= usr.Length && 1 <= usr.Length
      modifies this, rioBuf, fd, usr
      ensures Valid() && d <= |old(View())| && (d == 0 || d < maxlen)
      ensures View() == old(View())[d..] && usr[..d] == old(View())[..d]
      ensures if r == -1 then Failed in old(fd.script)
              else r == d == Taken(old(View()), Line(maxlen)) && ((old(View()) == [] && maxlen > 1) || usr[d] == 0)
      ensures Failed in fd.script ==> Failed in old(fd.script)
    {
      hide Split, LineLength, Stored, InLine, Valid, View, Taken;
      var n := 1;
      ghost var v := View();
      ghost var line := Taken(v, Line(maxlen));
      LineStarts(usr, maxlen);
      while n < maxlen
        invariant 1 <= n && (n == 1 || n <= maxlen) && Valid() && Stored(usr, n, v)
        invariant n <= maxlen ==> InLine(n, maxlen - n, line)
        invariant maxlen == 0 ==> line == 0
        invariant Failed in fd.script ==> Failed in old(fd.script)
      {
        var rc, c := LineByte(usr, n, maxlen, v, line);
        if rc == 1 {
          if c == NEWLINE {
            n := n + 1;
            break;
          }
        } else if rc == 0 {
          if n == 1 {
            StoredIs(usr, n, v);
            return 0, 0;
          }
          break;
        } else {
          StoredIs(usr, n, v);
          return -1, n - 1;
        }
        n := n + 1;
      }
      StoredIs(usr, n, v);
      if line != n - 1 {
        InLineEnds(n, line);
      }
      r := n - 1;
      d := n - 1;
      PutByte(usr, n - 1, 0);
    }

    /** Stores one byte for the user. */
    method PutByte(usr: array<Byte>, i: nat, c: Byte)
      requires usr != rioBuf && i < usr.Length
      modifies usr
      ensures usr[..i] == old(usr[..i]) && usr[i] == c
      ensures usr[..i + 1] == old(usr[..i]) + [c]
    {
      usr[i] := c;
    }
  }

  // ---------- any mix of calls ----------

  datatype Call = Bytes(n: nat) | Line(maxlen: nat)

  /** How much of what is left a call delivers. */
  function Taken(v: seq<Byte>, c: Call): (k: nat)
    ensures k <= |v|
  {
    match c
    case Bytes(n) => Min(n, |v|)
    case Line(maxlen) => LineLength(v, if maxlen == 0 then 0 else maxlen - 1)
  }

  function Deliver(v: seq<Byte>, calls: seq<Call>): seq<seq<Byte>>
    decreases |calls|
  {
    if calls == [] then []
    else
      var k := Taken(v, calls[0]);
      [v[..k]] + Deliver(v[k..], calls[1..])
  }

  function Left(v: seq<Byte>, calls: seq<Call>): seq<Byte>
    decreases |calls|
  {
    if calls == [] then v else Left(v[Taken(v, calls[0])..], calls[1..])
  }

  function Flatten(rs: seq<seq<Byte>>): seq<Byte> {
    if rs == [] then [] else rs[0] + Flatten(rs[1..])
  }

  /** What the calls deliver and what they leave make up what there was. */
  lemma {:induction false} NothingLost(v: seq<Byte>, calls: seq<Call>)
    ensures Flatten(Deliver(v, calls)) + Left(v, calls) == v
    decreases |calls|
  {
    if calls != [] {
      var k := Taken(v, calls[0]);
      NothingLost(v[k..], calls[1..]);
      assert v == v[..k] + v[k..];
      assert Deliver(v, calls)[1..] == Deliver(v[k..], calls[1..]);
    }
  }

  lemma {:induction false} DeliverSnoc(v: seq<Byte>, calls: seq<Call>, c: Call)
    ensures var w := Left(v, calls); var k := Taken(w, c);
            Deliver(v, calls + [c]) == Deliver(v, calls) + [w[..k]] && Left(v, calls + [c]) == w[k..]
    decreases |calls|
  {
    if calls != [] {
      assert (calls + [c])[1..] == calls[1..] + [c];
      DeliverSnoc(v[Taken(v, calls[0])..], calls[1..], c);
    } else {
      assert ([] + [c])[1..] == [];
    }
  }

  lemma {:induction false} DeliverNone(v: seq<Byte>)
    ensures Deliver(v, []) == [] && Left(v, []) == v && Flatten([]) == []
  {
  }

  /** Any sequence of calls on one reader, whatever the kernel answers: each call delivers
      exactly its share of the stream, in order, up to the first call that reports an
      error. That one has stored `partial` for its caller. No byte is lost. */
  method Serve(r: Reader, calls: seq<Call>) returns (results: seq<seq<Byte>>, ok: bool, ghost partial: seq<Byte>)
    requires r.Valid()
    modifies r, r.rioBuf, r.fd
    ensures r.Valid() && |results| <= |calls| && results == Deliver(old(r.View()), calls[..|results|])
    ensures Flatten(results) + partial + r.View() == old(r.View())
    ensures if ok then |results| == |calls| && partial == [] else Failed in old(r.fd.script)
  {
    hide Deliver, Left, Flatten, Taken, Reader.View, Reader.Valid;
    results, partial := [], [];
    ghost var v := r.View();
    DeliverNone(v);
    for i := 0 to |calls|
      invariant r.Valid() && (Failed in r.fd.script ==> Failed in old(r.fd.script))
      invariant |results| == i && results == Deliver(v, calls[..i]) && r.View() == Left(v, calls[..i])
    {
      DeliverSnoc(v, calls[..i], calls[i]);
      NothingLost(v, calls[..i]);
      assert calls[..i + 1] == calls[..i] + [calls[i]];
      var one;
      one, ok, partial := ServeOne(r, calls[i]);
      if !ok {
        assert Flatten(results) + (partial + r.View()) == Flatten(results) + partial + r.View();
        return;
      }
      results := results + [one];
    }
    assert calls[..|calls|] == calls;
    NothingLost(v, calls);
    return results, true, [];
  }

  method ServeOne(r: Reader, c: Call) returns (result: seq<Byte>, ok: bool, ghost partial: seq<Byte>)
    requires r.Valid()
    modifies r, r.rioBuf, r.fd
    ensures r.Valid() && (Failed in r.fd.script ==> Failed in old(r.fd.script))
    ensures partial + r.View() == old(r.View())
    ensures if ok then result == partial == old(r.View())[..Taken(old(r.View()), c)] else Failed in old(r.fd.script)
  {
    hide Reader.View, LineLength;
    var usr := new Byte[match c case Bytes(n) => n case Line(maxlen) => if maxlen == 0 then 1 else maxlen];
    var got;
    ghost var d, v := 0, r.View();
    if c.Bytes? {
      got, d := r.ReadNB(usr, c.n);
    } else {
      got, d := r.ReadLineB(usr, c.maxlen);
    }
    partial := v[..d];
    assert partial + r.View() == v;
    ok := got != -1;
    result := if ok then usr[..got] else [];
  }
}
