// bufio2.Writer: utils/resparse/bufio2/bufio.go.
//
// Whatever the buffer size, the bytes in the sink followed by the bytes still
// buffered are the bytes accepted, in order; after a failure the sink holds a
// prefix of them.
module Writer {
  import opened Bytes

  predicate Prefix(a: seq<Byte>, b: seq<Byte>) { |a| <= |b| && b[..|a|] == a }

  // An io.Writer. At most `faults` calls fall short: with an error (for any
  // number of bytes) or, against io.Writer's rule, without one.
  class Sink {
    var data: seq<Byte>
    var faults: nat

    constructor (faults: nat)
      ensures data == [] && this.faults == faults
    {
      data, this.faults := [], faults;
    }

    method Write(p: seq<Byte>) returns (n: nat, err: Option<Error>)
      modifies this
      ensures n <= |p| && data == old(data) + p[..n]
      ensures faults <= old(faults)
      ensures err.Some? || n < |p| ==> faults < old(faults)
      ensures err.Some? ==> err.value.SinkFailed?
    {
      n, err := |p|, None;
      var faulty: bool := *;
      if faults > 0 && faulty {
        faults := faults - 1;
        n :| 0 <= n <= |p|;
        var code: nat := *;
        var silent: bool := *;
        err := if silent then None else Some(SinkFailed(code));
      }
      data := data + p[..n];
    }
  }

  class ByteWriter {
    var err: Option<Error>
    const buf: array<Byte>
    const wr: Sink
    var wpos: nat

    // Everything accepted: what the sink has, then what is buffered. After a
    // failure it stands still and the sink may lag behind it.
    ghost var stream: seq<Byte>

    ghost predicate Valid()
      reads this, buf, wr
    {
      && wpos <= buf.Length
      && buf.Length > 0
      && (err.None? ==> stream == wr.data + buf[..wpos])
      && (err.Some? ==> Prefix(wr.data, stream))
    }

    // A write of p: all of it is accepted, or the writer has failed (before
    // this call, in which case nothing moves, or during it).
    ghost predicate Wrote(err0: Option<Error>, before: seq<Byte>, faults0: nat, p: seq<Byte>)
      reads this, buf, wr
    {
      && Valid()
      && wr.faults <= faults0
      && (err0.Some? ==> err == err0 && stream == before && wr.faults == faults0)
      && (err0.None? ==> stream == before + p)
      && (err0.None? && err.Some? ==> wr.faults < faults0)
    }

    constructor (wr: Sink, size: nat)
      ensures Valid() && fresh(buf) && this.wr == wr && err.None? && stream == wr.data
      ensures buf.Length == (if size == 0 then 1024 else size)
    {
      this.wr := wr;
      buf := new Byte[if size == 0 then 1024 else size];
      wpos, err := 0, None;
      stream := wr.data;
    }

    method Flush() returns (e: Option<Error>)
      requires Valid()
      modifies this, buf, wr
      ensures Wrote(old(err), old(stream), old(wr.faults), []) && e == err
      ensures err.None? ==> wpos == 0 && wr.data == stream
    {
      ghost var data0 := wr.data;
      if err.Some? {
        return err;
      }
      if wpos == 0 {
        return None;
      }
      var n, f := wr.Write(buf[..wpos]);
      assert Prefix(wr.data, stream);
      if f.Some? {
        err := f;
      } else if n < wpos {
        err := Some(ShortWrite);
      } else {
        wpos := 0;
      }
      e := err;
    }

    // Buffer the first |q| free places.
    method Append(q: seq<Byte>)
      requires Valid() && err.None? && |q| <= buf.Length - wpos
      modifies this`wpos, this`stream, buf
      ensures Valid() && stream == old(stream) + q && wpos == old(wpos) + |q|
    {
      forall k | 0 <= k < |q| {
        buf[wpos + k] := q[k];
      }
      assert buf[..wpos + |q|] == old(buf[..wpos]) + q;
      wpos := wpos + |q|;
      stream := stream + q;
    }

    // Hand p over to the sink without copying it, the buffer being empty.
    method Direct(p: seq<Byte>) returns (n: nat)
      requires Valid() && err.None? && wpos == 0
      modifies this`err, this`stream, wr
      ensures Valid() && n <= |p| && wr.faults <= old(wr.faults)
      ensures err.None? ==> stream == old(stream) + p[..n]
      ensures err.Some? ==> stream == old(stream) + p
      ensures err.Some? || n < |p| ==> wr.faults < old(wr.faults)
    {
      n, err := wr.Write(p);
      stream := if err.None? then stream + p[..n] else stream + p;
    }

    // Fill the buffer from q and flush it: one round for data that does not fit.
    method Spill(q: seq<Byte>) returns (n: nat)
      requires Valid() && err.None? && |q| > buf.Length - wpos
      modifies this, buf, wr
      ensures Valid() && n <= |q| && wr.faults <= old(wr.faults)
      ensures err.None? ==> stream == old(stream) + q[..n] && wpos == 0
      ensures err.Some? ==> stream == old(stream) + q && wr.faults < old(wr.faults)
      ensures n == buf.Length - old(wpos)
    {
      n := buf.Length - wpos;
      ghost var s0 := stream;
      Append(q[..n]);
      var _ := Flush();
      if err.Some? {
        Keep(q, n);
        Split(s0, q, n);
      }
    }

    method Write(p: seq<Byte>) returns (nn: nat, e: Option<Error>)
      requires Valid()
      modifies this, buf, wr
      ensures Wrote(old(err), old(stream), old(wr.faults), p) && e == err
      ensures err.None? ==> nn == |p|
    {
      nn := 0;
      while err.None? && |p| - nn > buf.Length - wpos
        invariant nn <= |p| && Valid() && wr.faults <= old(wr.faults)
        invariant old(err).Some? ==> err == old(err) && stream == old(stream) && wr.faults == old(wr.faults)
        invariant err.None? ==> stream == old(stream) + p[..nn]
        invariant old(err).None? && err.Some? ==> stream == old(stream) + p && wr.faults < old(wr.faults)
        decreases |p| - nn, wpos, wr.faults, err.None?
      {
        var n;
        if wpos == 0 {
          n := Direct(p[nn..]);
        } else {
          n := Spill(p[nn..]);
        }
        Pieces(old(stream), p, nn, n);
        nn := nn + n;
      }
      if err.Some? || nn == |p| {
        assert p[..|p|] == p;
        return nn, err;
      }
      Append(p[nn..]);
      Pieces(old(stream), p, nn, |p| - nn);
      nn, e := |p|, None;
    }

    // Nothing of p from k on can reach a failed sink: count it as accepted.
    ghost method Keep(p: seq<Byte>, k: nat)
      requires Valid() && err.Some? && k <= |p|
      modifies this`stream
      ensures Valid() && stream == old(stream) + p[k..]
    {
      stream := stream + p[k..];
    }

    method WriteByte(c: Byte) returns (e: Option<Error>)
      requires Valid()
      modifies this, buf, wr
      ensures Wrote(old(err), old(stream), old(wr.faults), [c]) && e == err
    {
      if err.Some? {
        return err;
      }
      if wpos == buf.Length {
        var f := Flush();
        if f.Some? {
          Keep([c], 0);
          return err;
        }
      }
      Append([c]);
      e := None;
    }

    method WriteString(s: seq<Byte>) returns (nn: nat, e: Option<Error>)
      requires Valid()
      modifies this, buf, wr
      ensures Wrote(old(err), old(stream), old(wr.faults), s) && e == err
      ensures err.None? ==> nn == |s|
    {
      nn := 0;
      while err.None? && |s| - nn > buf.Length - wpos
        invariant nn <= |s| && Valid() && wr.faults <= old(wr.faults)
        invariant old(err).Some? ==> err == old(err) && stream == old(stream) && wr.faults == old(wr.faults)
        invariant err.None? ==> stream == old(stream) + s[..nn]
        invariant old(err).None? && err.Some? ==> stream == old(stream) + s && wr.faults < old(wr.faults)
        decreases |s| - nn, wpos, err.None?
      {
        var n := Spill(s[nn..]);
        Pieces(old(stream), s, nn, n);
        nn := nn + n;
      }
      if err.Some? || nn == |s| {
        assert s[..|s|] == s;
        return nn, err;
      }
      Append(s[nn..]);
      Pieces(old(stream), s, nn, |s| - nn);
      nn, e := |s|, None;
    }
  }

  // Writing p piecewise: what precedes nn, the next n bytes, the remainder.
  lemma Pieces(a: seq<Byte>, p: seq<Byte>, nn: nat, n: nat)
    requires nn + n <= |p|
    ensures (a + p[..nn]) + p[nn..][..n] == a + p[..nn + n]
    ensures (a + p[..nn]) + p[nn..] == a + p
  {
    assert p[..nn] + p[nn..][..n] == p[..nn + n];
    assert p[..nn] + p[nn..] == p;
  }

  lemma Split(a: seq<Byte>, q: seq<Byte>, n: nat)
    requires n <= |q|
    ensures (a + q[..n]) + q[n..] == a + q
  {
    assert q[..n] + q[n..] == q;
  }
}
