// bufio2.Reader: utils/resparse/bufio2/bufio.go.
//
// ByteReader is proved against four functions on the stream still to be read.
// Whatever the buffer size and however the source cuts the stream into pieces,
// the outcome of a read is that function's.
module Reader {
  import opened Bytes

  // ---- what each read means on the remaining stream s ----

  // The value a read yields and the stream it leaves, or its error.
  datatype Taken<+T> = Took(value: T, rest: seq<Byte>) | Failed(error: Error)

  type SourceEnd = e: Error | e.Eof? || e.Broken? witness Eof

  function TakeByte(s: seq<Byte>, end: SourceEnd): Taken<Byte> {
    if s == [] then Failed(end) else Took(s[0], s[1..])
  }

  // Up to and including the first d.
  function TakeLine(s: seq<Byte>, d: Byte, end: SourceEnd): Taken<seq<Byte>> {
    var k := IndexOf(s, d);
    if k < |s| then Took(s[..k + 1], s[k + 1..]) else Failed(end)
  }

  // The same, for a line that must fit a buffer of size cap.
  function TakeSlice(s: seq<Byte>, d: Byte, cap: nat, end: SourceEnd): Taken<seq<Byte>> {
    var k := IndexOf(s, d);
    if k < |s| && k < cap then Took(s[..k + 1], s[k + 1..])
    else if |s| >= cap then Failed(BufferFull)
    else Failed(end)
  }

  function TakeFull(s: seq<Byte>, n: nat, end: SourceEnd): Taken<seq<Byte>> {
    if n <= |s| then Took(s[..n], s[n..])
    else Failed(if end.Eof? && s != [] then UnexpectedEof else end)
  }

  // ---- the source ----

  // An io.Reader: any cutting of `rest` into non-empty pieces, interrupted by
  // at most `stalls` empty reads, and then the error `end` for ever.
  class Source {
    var rest: seq<Byte>
    var stalls: nat
    const end: SourceEnd

    constructor (data: seq<Byte>, stalls: nat, end: SourceEnd)
      ensures rest == data && this.stalls == stalls && this.end == end
    {
      rest, this.stalls, this.end := data, stalls, end;
    }

    method Read(p: array<Byte>, lo: nat, hi: nat) returns (n: nat, err: Option<Error>)
      requires lo < hi <= p.Length
      modifies this, p
      ensures n <= hi - lo
      ensures old(rest) == p[lo..lo + n] + rest
      ensures forall k :: 0 <= k < p.Length && !(lo <= k < lo + n) ==> p[k] == old(p[k])
      ensures err.Some? ==> err.value == end && n == 0 && rest == [] && stalls == old(stalls)
      ensures err.None? ==> if n == 0 then stalls + 1 == old(stalls) else stalls == old(stalls)
    {
      n, err := 0, None;
      var stalling: bool := *;
      if stalls > 0 && stalling {
        stalls := stalls - 1;
      } else if rest == [] {
        err := Some(end);
      } else {
        var limit := if |rest| < hi - lo then |rest| else hi - lo;
        n :| 0 < n <= limit;
        forall k | 0 <= k < n {
          p[lo + k] := rest[k];
        }
        assert p[lo..lo + n] == rest[..n];
        rest := rest[n..];
      }
    }
  }

  // ---- the reader ----

  class ByteReader {
    var err: Option<Error>
    const buf: array<Byte>
    const rd: Source
    var rpos: nat
    var wpos: nat

    // The stream not yet delivered: the live part of the buffer, then the source.
    ghost var unread: seq<Byte>
    // The source never returns an empty read.
    ghost const steady: bool

    ghost predicate Valid()
      reads this, buf, rd
    {
      && rpos <= wpos <= buf.Length
      && buf.Length > 0
      && unread == buf[rpos..wpos] + rd.rest
      && (err.Some? ==> err.value == NoProgress || (err.value == rd.end && rd.rest == []))
      && (steady ==> rd.stalls == 0 && err != Some(NoProgress))
    }

    // What a read may do. Once err is set, it is returned for ever and nothing
    // moves. Otherwise the read does to the stream what `taken` says, unless
    // the source kept returning nothing. No byte is ever delivered out of order.
    ghost predicate Did<T(!new)>(err0: Option<Error>, before: seq<Byte>, taken: Taken<T>, r: Result<T>)
      reads this, buf, rd
    {
      && Valid()
      && Suffix(unread, before)
      && if err0.Some? then r == Err(err0.value) && err == err0 && unread == before
         else if err == Some(NoProgress) then r == Err(NoProgress)
         else match taken
              case Took(v, rest) => r == Ok(v) && err.None? && unread == rest
              case Failed(e) => r == Err(e)
    }

    constructor (rd: Source, size: nat)
      ensures Valid() && fresh(buf) && this.rd == rd && err.None?
      ensures buf.Length == (if size == 0 then 1024 else size)
      ensures unread == rd.rest && (steady <==> rd.stalls == 0)
    {
      this.rd := rd;
      buf := new Byte[if size == 0 then 1024 else size];
      rpos, wpos, err := 0, 0, None;
      unread, steady := rd.rest, rd.stalls == 0;
    }

    // Move the unread bytes to the front of the buffer and ask for more.
    method Fill()
      requires Valid() && wpos - rpos < buf.Length
      modifies this, buf, rd
      ensures Valid() && unread == old(unread) && rd.stalls <= old(rd.stalls)
      ensures old(err).Some? ==> err == old(err) && rd.rest == old(rd.rest)
      ensures err.None? ==> wpos - rpos > old(wpos - rpos) && |rd.rest| < old(|rd.rest|)
      ensures err.Some? ==> wpos - rpos == old(wpos - rpos)
    {
      if err.Some? {
        return;
      }
      Compact();
      ghost var live := buf[..wpos];
      var n, e := rd.Read(buf, wpos, buf.Length);
      assert buf[rpos..wpos] == live;
      if e.Some? {
        err := e;
      } else if n == 0 {
        err := Some(NoProgress);
      } else {
        assert buf[rpos..wpos + n] == live + buf[wpos..wpos + n];
        wpos := wpos + n;
      }
    }

    method Compact()
      requires Valid()
      modifies this`rpos, this`wpos, buf
      ensures Valid() && rpos == 0 && wpos == old(wpos - rpos)
    {
      if rpos > 0 {
        var n := wpos - rpos;
        forall k | 0 <= k < n {
          buf[k] := buf[rpos + k];
        }
        assert buf[..n] == old(buf[rpos..wpos]);
        rpos, wpos := 0, n;
      }
    }

    // Deliver the next k buffered bytes.
    method Advance(k: nat) returns (s: seq<Byte>)
      requires Valid() && k <= wpos - rpos
      modifies this`rpos, this`unread
      ensures Valid() && |s| == k && old(unread) == s + unread
      ensures s == old(unread)[..k] && unread == old(unread)[k..] && s == buf[old(rpos)..old(rpos) + k]
    {
      s := buf[rpos..rpos + k];
      ghost var live := buf[rpos..wpos];
      TakeFront(live, rd.rest, k);
      assert s == live[..k];
      rpos := rpos + k;
      unread := unread[k..];
      assert buf[rpos..wpos] == live[k..];
    }

    // Read into p[lo..hi]: what is buffered, or one refill, or one direct read.
    method Read(p: array<Byte>, lo: nat, hi: nat) returns (n: nat, e: Option<Error>)
      requires Valid() && lo <= hi <= p.Length && p != buf
      modifies this, buf, rd, p
      ensures Valid() && n <= hi - lo && e == err && rd.stalls <= old(rd.stalls)
      ensures old(unread) == p[lo..lo + n] + unread
      ensures forall k :: 0 <= k < p.Length && !(lo <= k < lo + n) ==> p[k] == old(p[k])
      ensures err.Some? ==> n == 0
      ensures old(err).Some? ==> err == old(err)
      ensures lo < hi && old(err).None? && err.Some? ==> err.value == NoProgress || unread == []
      ensures lo < hi && err.None? && n == 0 ==> rd.stalls < old(rd.stalls)
    {
      if err.Some? || lo == hi {
        return 0, err;
      }
      if wpos == rpos && hi - lo >= buf.Length {
        n, e := rd.Read(p, lo, hi);
        if e.Some? {
          err := e;
        }
        assert buf[rpos..wpos] == [];
        unread := rd.rest;
        return n, err;
      }
      if wpos == rpos {
        Fill();
        if err.Some? {
          return 0, err;
        }
      }
      n := CopyBuffered(p, lo, hi);
      e := err;
    }

    // Deliver as much of the buffer as fits p[lo..hi].
    method CopyBuffered(p: array<Byte>, lo: nat, hi: nat) returns (n: nat)
      requires Valid() && rpos < wpos && lo < hi <= p.Length && p != buf
      modifies this`rpos, this`unread, p
      ensures Valid() && 0 < n <= hi - lo
      ensures old(unread) == p[lo..lo + n] + unread
      ensures forall k :: 0 <= k < p.Length && !(lo <= k < lo + n) ==> p[k] == old(p[k])
    {
      n := if hi - lo < wpos - rpos then hi - lo else wpos - rpos;
      var got := Advance(n);
      Copy(got, p, lo);
    }

    method Copy(s: seq<Byte>, p: array<Byte>, lo: nat)
      requires lo + |s| <= p.Length
      modifies p
      ensures p[lo..lo + |s|] == s
      ensures forall k :: 0 <= k < p.Length && !(lo <= k < lo + |s|) ==> p[k] == old(p[k])
    {
      forall k | 0 <= k < |s| {
        p[lo + k] := s[k];
      }
      assert p[lo..lo + |s|] == s;
    }

    method ReadByte() returns (r: Result<Byte>)
      requires Valid()
      modifies this, buf, rd
      ensures Did(old(err), old(unread), TakeByte(old(unread), rd.end), r)
    {
      if err.Some? {
        return Err(err.value);
      }
      if wpos == rpos {
        Fill();
        if err.Some? {
          return Err(err.value);
        }
      }
      var c := Advance(1);
      r := Ok(c[0]);
    }

    method PeekByte() returns (r: Result<Byte>)
      requires Valid()
      modifies this, buf, rd
      ensures Valid() && unread == old(unread)
      ensures match r
              case Ok(c) => err.None? && unread != [] && c == unread[0]
              case Err(e) => err == Some(e) && (old(err).None? ==> e == NoProgress || unread == [])
    {
      if err.Some? {
        return Err(err.value);
      }
      if wpos == rpos {
        Fill();
        if err.Some? {
          return Err(err.value);
        }
      }
      r := Ok(buf[rpos]);
    }

    // A line found in the buffer, refilling until it is there or the buffer is
    // full. `full` is what a full buffer held, handed out with BufferFull.
    method ReadSlice(d: Byte) returns (r: Result<seq<Byte>>, full: seq<Byte>)
      requires Valid()
      modifies this, buf, rd
      ensures Did(old(err), old(unread), TakeSlice(old(unread), d, buf.Length, rd.end), r)
      ensures old(err).None? && r == Err(BufferFull) ==>
                err.None? && |full| == buf.Length && d !in full && old(unread) == full + unread
      ensures r.Err? && r.error != BufferFull ==> err == Some(r.error)
    {
      hide TakeSlice;
      full := [];
      if err.Some? {
        return Err(err.value), full;
      }
      while true
        invariant Valid() && err.None? && unread == old(unread)
        decreases |rd.rest|
      {
        var index := IndexOf(buf[rpos..wpos], d);
        SliceHere(buf[rpos..wpos], rd.rest, d, buf.Length, rd.end);
        if index < wpos - rpos {
          var line := Advance(index + 1);
          return Ok(line), full;
        }
        if wpos - rpos == buf.Length {
          full := Advance(wpos - rpos);
          return Err(BufferFull), full;
        }
        Fill();
        if err.Some? {
          return Err(err.value), full;
        }
      }
    }

    // A line of any length, gathered from as many full buffers as it spans.
    method ReadBytes(d: Byte) returns (r: Result<seq<Byte>>)
      requires Valid()
      modifies this, buf, rd
      ensures Did(old(err), old(unread), TakeLine(old(unread), d, rd.end), r)
    {
      if err.Some? {
        return Err(err.value);
      }
      var gathered := [];
      while true
        invariant Valid() && err.None?
        invariant d !in gathered && old(unread) == gathered + unread
        decreases |unread|
      {
        ghost var u := unread;
        var f, full := ReadSlice(d);
        SliceOfLine(gathered, u, d, buf.Length, rd.end);
        SuffixAppend(gathered, u);
        SuffixTrans(unread, u, old(unread));
        if f == Err(BufferFull) {
          Assoc(gathered, full, unread);
          gathered := gathered + full;
        } else if f.Err? {
          return Err(err.value);
        } else {
          return Ok(gathered + f.value);
        }
      }
    }

    // Read n bytes into a new buffer.
    method ReadFull(n: nat) returns (r: Result<seq<Byte>>)
      requires Valid()
      modifies this, buf, rd
      ensures Did(old(err), old(unread), TakeFull(old(unread), n, rd.end), r)
    {
      if err.Some? {
        return Err(err.value);
      }
      if n == 0 {
        return Ok([]);
      }
      var p := new Byte[n];
      var e := IoReadFull(p);
      r := if e.Some? then Err(e.value) else Ok(p[..]);
    }

    // io.ReadFull: read until p is full or a read fails.
    method IoReadFull(p: array<Byte>) returns (e: Option<Error>)
      requires Valid() && err.None? && p != buf
      modifies this, buf, rd, p
      ensures Valid() && Suffix(unread, old(unread))
      ensures e.None? ==> err.None? && old(unread) == p[..] + unread
      ensures e.Some? ==> err.Some? && |old(unread)| - |unread| < p.Length
      ensures e.Some? && err.value != NoProgress ==>
                unread == [] && e.value == if rd.end.Eof? && old(unread) != [] then UnexpectedEof else rd.end
      ensures e.Some? && err.value == NoProgress ==> e == err
    {
      var got := 0;
      while got < p.Length
        invariant Valid() && err.None? && got <= p.Length
        invariant old(unread) == p[..got] + unread
        decreases p.Length - got, rd.stalls
      {
        ghost var head := p[..got];
        var k, f := Read(p, got, p.Length);
        assert p[..got + k] == head + p[got..got + k];
        Assoc(head, p[got..got + k], unread);
        if f.Some? {
          SuffixAppend(p[..got + k], unread);
          return if f.value.Eof? && got > 0 then Some(UnexpectedEof) else f;
        }
        got := got + k;
      }
      assert p[..got] == p[..];
      SuffixAppend(p[..], unread);
      e := None;
    }
  }

  // What the buffered part tells about a slice of the stream.
  lemma SliceHere(live: seq<Byte>, rest: seq<Byte>, d: Byte, cap: nat, end: SourceEnd)
    requires |live| <= cap
    ensures var k, t := IndexOf(live, d), TakeSlice(live + rest, d, cap, end);
            && (k < |live| ==> t == Took((live + rest)[..k + 1], (live + rest)[k + 1..]))
            && (k == |live| == cap ==> t == Failed(BufferFull) && d !in live)
            && (k == |live| < cap && rest == [] ==> t == Failed(end))
  {
    IndexOfPrefix(live, rest, d);
    assert rest == [] ==> live + rest == live;
  }

  lemma SuffixAppend(a: seq<Byte>, b: seq<Byte>)
    ensures Suffix(b, a + b)
  {
  }

  // A slice read after a delimiter-free part is the line over both.
  lemma SliceOfLine(a: seq<Byte>, b: seq<Byte>, d: Byte, cap: nat, end: SourceEnd)
    requires d !in a
    ensures match TakeSlice(b, d, cap, end)
            case Took(v, rest) => TakeLine(a + b, d, end) == Took(a + v, rest)
            case Failed(e) => e == BufferFull || TakeLine(a + b, d, end) == Failed(end)
  {
    IndexOfShift(a, b, d);
    var k := IndexOf(b, d);
    if k < |b| && k < cap {
      SplitAppend(a, b, k + 1);
      assert TakeSlice(b, d, cap, end) == Took(b[..k + 1], b[k + 1..]);
    }
  }

  lemma Assoc(a: seq<Byte>, b: seq<Byte>, c: seq<Byte>)
    ensures a + (b + c) == (a + b) + c
  {
  }

  lemma TakeFront(a: seq<Byte>, b: seq<Byte>, k: nat)
    requires k <= |a|
    ensures (a + b)[..k] == a[..k] && (a + b)[k..] == a[k..] + b
    ensures a + b == a[..k] + (a[k..] + b)
  {
  }

  lemma SplitAppend(a: seq<Byte>, b: seq<Byte>, k: nat)
    ensures k <= |b| ==> (a + b)[..|a| + k] == a + b[..k] && (a + b)[|a| + k..] == b[k..]
  {
  }

  // Skipping a part without d moves the first d by that much.
  lemma IndexOfShift(a: seq<Byte>, b: seq<Byte>, d: Byte)
    requires d !in a
    ensures IndexOf(a + b, d) == |a| + IndexOf(b, d)
  {
    var s := a + b;
    forall i | 0 <= i < |a| + IndexOf(b, d)
      ensures s[i] != d
    {
      assert i < |a| ==> s[i] == a[i];
      assert i >= |a| ==> s[i] == b[i - |a|];
    }
    IndexOfIs(s, d, |a| + IndexOf(b, d));
  }
}
