// credis.Encoder: utils/resparse/credis/encoder.go, over ByteWriter.
module Encoder {
  import opened Bytes
  import opened Decimal
  import Itoa
  import opened Writer
  import opened Resp

  // What can be seen of a writer.
  datatype View = View(err: Option<Error>, stream: seq<Byte>, sent: seq<Byte>, faults: nat)

  // Emission of e between two views. Without a sink failure all bytes of e were
  // accepted and the outcome r is e's; with one, r is that failure and the sink
  // holds a prefix of what was accepted before followed by e.
  ghost predicate Emits(w0: View, w1: View, e: Emitted, r: Option<Error>) {
    && w1.faults <= w0.faults
    && if w1.err.None? then
         w1.stream == w0.stream + e.bytes && r == if e.ok then None else Some(BadType)
       else
         r == w1.err && w1.faults < w0.faults && Prefix(w1.sent, w0.stream + e.bytes)
  }

  // Emissions compose; the second happens only if the first went well.
  lemma EmitsThen(w0: View, w1: View, w2: View, e1: Emitted, e2: Emitted, r1: Option<Error>, r2: Option<Error>)
    requires Emits(w0, w1, e1, r1)
    requires if r1.Some? then w2 == w1 && r2 == r1 else Emits(w1, w2, e2, r2)
    ensures Emits(w0, w2, e1.Then(e2), r2)
  {
    if e1.ok {
      assert w0.stream + (e1.bytes + e2.bytes) == w0.stream + e1.bytes + e2.bytes;
    }
  }

  lemma ItemsSplit(a: seq<Resp>, i: nat)
    requires i < |a|
    ensures EmitItems(a[i..]) == EmitResp(a[i]).Then(EmitItems(a[i + 1..]))
  {
    assert a[i..][1..] == a[i + 1..];
  }

  lemma EmitNothing(done: Emitted, none: seq<Resp>)
    requires done.ok && none == []
    ensures done.Then(EmitItems(none)) == done
  {
    assert done.bytes + [] == done.bytes;
  }

  class RespEncoder {
    const bw: ByteWriter
    const table: Itoa.Table
    var err: Option<Error>

    ghost predicate Valid()
      reads this, bw, bw.buf, bw.wr, table, table.offset
    {
      && Ready()
      && (err.None? ==> bw.err.None?)
    }

    ghost predicate Ready()
      reads bw, bw.buf, bw.wr, table, table.offset
    {
      && bw.Valid() && table.Valid()
      && bw.buf as object != table.offset
    }

    ghost function Now(): View
      reads bw, bw.wr
    {
      View(bw.err, bw.stream, bw.wr.data, bw.wr.faults)
    }

    constructor (bw: ByteWriter)
      requires bw.Valid() && bw.err.None?
      ensures Valid() && this.bw == bw && err.None? && fresh(table) && fresh(table.offset)
    {
      this.bw, err := bw, None;
      table := new Itoa.Table();
    }

    // Encode one message, optionally pushing everything to the sink.
    method Encode(r: Resp, flush: bool) returns (e: Option<Error>)
      requires Valid()
      modifies this, bw, bw.buf, bw.wr
      ensures Valid()
      ensures old(err).Some? ==> e == Some(UseOfFailed) && Now() == old(Now()) && err == old(err)
      ensures old(err).None? ==> Emits(old(Now()), Now(), EmitResp(r), e) && err == e
      ensures old(err).None? && e.None? && flush ==> bw.wr.data == bw.stream
    {
      if err.Some? {
        return Some(UseOfFailed);
      }
      err := EncodeResp(r);
      if err.None? && flush {
        err := bw.Flush();
      }
      e := err;
    }

    method EncodeResp(r: Resp) returns (e: Option<Error>)
      requires Ready() && bw.err.None?
      modifies bw, bw.buf, bw.wr
      ensures Ready() && Emits(old(Now()), Now(), EmitResp(r), e)
      decreases r, 2
    {
      ghost var w0 := Now();
      e := bw.WriteByte(r.typ);
      ghost var w1, r1, head := Now(), e, Emitted([r.typ], true);
      if e.Some? {
      } else if IsText(r.typ) {
        e := EncodeTextBytes(Contents(r.value));
        EmitsThen(w0, w1, Now(), head, Emitted(Line(Contents(r.value)), true), r1, e);
      } else if r.typ == TYPE_BULK {
        e := EncodeBulkBytes(r.value);
        EmitsThen(w0, w1, Now(), head, Emitted(EmitBulk(r.value), true), r1, e);
      } else if r.typ == TYPE_ARRAY {
        e := EncodeArray(r.elems);
        EmitsThen(w0, w1, Now(), head, EmitArray(r.elems), r1, e);
      } else {
        e := Some(BadType);
      }
    }

    method EncodeArray(elems: Elems) returns (e: Option<Error>)
      requires Ready() && bw.err.None?
      modifies bw, bw.buf, bw.wr
      ensures Ready() && Emits(old(Now()), Now(), EmitArray(elems), e)
      decreases elems, 1
    {
      hide EmitResp, EmitItems;
      match elems
      case NoElems =>
        e := EncodeInt(-1);
      case Elems(a) =>
        ghost var w0 := Now();
        e := EncodeInt(|a|);
        ghost var done := Emitted(Line(Dec(|a|)), true);
        ghost var w1, r1, all := Now(), e, done.Then(EmitItems(a));
        if e.Some? {
          EmitsThen(w0, w1, w1, done, EmitItems(a), r1, e);
          return;
        }
        for i := 0 to |a|
          invariant Ready() && bw.err.None?
          invariant done.ok && Emits(w0, Now(), done, None)
          invariant all == done.Then(EmitItems(a[i..]))
        {
          ItemsSplit(a, i);
          w1 := Now();
          e := EncodeResp(a[i]);
          EmitsThen(w0, w1, Now(), done, EmitResp(a[i]), None, e);
          done := done.Then(EmitResp(a[i]));
          if e.Some? {
            EmitsThen(w0, Now(), Now(), done, EmitItems(a[i + 1..]), e, e);
            return;
          }
        }
        EmitNothing(done, a[|a|..]);
        e := None;
    }

    method EncodeTextBytes(b: seq<Byte>) returns (e: Option<Error>)
      requires Ready() && bw.err.None?
      modifies bw, bw.buf, bw.wr
      ensures Ready() && Emits(old(Now()), Now(), Emitted(Line(b), true), e)
    {
      ghost var w0 := Now();
      var _, e1 := bw.Write(b);
      ghost var w1 := Now();
      e := e1;
      if e.None? {
        var _, e2 := bw.WriteString(CRLF);
        e := e2;
      }
      EmitsThen(w0, w1, Now(), Emitted(b, true), Emitted(CRLF, true), e1, e);
    }

    method EncodeInt(v: int) returns (e: Option<Error>)
      requires Ready() && bw.err.None?
      modifies bw, bw.buf, bw.wr
      ensures Ready() && Emits(old(Now()), Now(), Emitted(Line(Dec(v)), true), e)
    {
      ghost var w0 := Now();
      var s := table.Itoa(v);
      var _, e1 := bw.WriteString(s);
      ghost var w1 := Now();
      e := e1;
      if e.None? {
        var _, e2 := bw.WriteString(CRLF);
        e := e2;
      }
      EmitsThen(w0, w1, Now(), Emitted(Dec(v), true), Emitted(CRLF, true), e1, e);
    }

    method EncodeBulkBytes(b: Option<seq<Byte>>) returns (e: Option<Error>)
      requires Ready() && bw.err.None?
      modifies bw, bw.buf, bw.wr
      ensures Ready() && Emits(old(Now()), Now(), Emitted(EmitBulk(b), true), e)
    {
      if b.None? {
        e := EncodeInt(-1);
      } else {
        ghost var w0 := Now();
        e := EncodeInt(|b.value|);
        ghost var w1, r1 := Now(), e;
        if e.None? {
          e := EncodeTextBytes(b.value);
        }
        EmitsThen(w0, w1, Now(), Emitted(Line(Dec(|b.value|)), true), Emitted(Line(b.value), true), r1, e);
      }
    }
  }
}
