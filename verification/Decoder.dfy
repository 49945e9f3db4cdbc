// credis.Decoder: utils/resparse/credis/decoder.go, over ByteReader.
module Decoder {
  import opened Bytes
  import opened Decimal
  import opened Reader
  import opened Resp

  // Reading the items of an array one by one: `done` of them, then the others.
  ghost function Prepend(done: seq<Resp>, t: Taken<seq<Resp>>): Taken<seq<Resp>> {
    match t
    case Took(a, rest) => Took(done + a, rest)
    case Failed(e) => Failed(e)
  }

  lemma PrependStep(done: seq<Resp>, n: nat, s: seq<Byte>, io: Input)
    requires n > 0
    ensures match ParseResp(s, io)
            case Failed(e) => Prepend(done, ParseItems(n, s, io)) == Failed(e)
            case Took(r, s1) =>
              Prepend(done, ParseItems(n, s, io)) == Prepend(done + [r], ParseItems(n - 1, s1, io))
  {
    match ParseResp(s, io)
    case Failed(_) =>
    case Took(r, s1) =>
      match ParseItems(n - 1, s1, io)
      case Failed(_) =>
      case Took(a, _) => assert done + ([r] + a) == done + [r] + a;
  }

  lemma PrependNone(t: Taken<seq<Resp>>)
    ensures Prepend([], t) == t
  {
    assert t.Took? ==> [] + t.value == t.value;
  }

  lemma PrependDone(a: seq<Resp>, s: seq<Byte>, io: Input)
    ensures Prepend(a, ParseItems(0, s, io)) == Took(a, s)
  {
    assert a + [] == a;
  }

  class RespDecoder {
    const br: ByteReader
    var err: Option<Error>

    ghost predicate Valid()
      reads this, br, br.buf, br.rd
    {
      br.Valid() && (err.None? ==> br.err.None?)
    }

    ghost function Io(): Input
      reads this, br
    {
      Input(br.buf.Length, br.rd.end)
    }

    constructor (br: ByteReader)
      requires br.Valid() && br.err.None?
      ensures Valid() && this.br == br && err.None?
    {
      this.br, err := br, None;
    }

    // Decode the next message. The result is ParseResp's on the undelivered
    // stream, for every buffer size and every cutting of the stream; only a
    // source that keeps returning nothing can interfere. An error is final.
    method Decode() returns (r: Result<Resp>)
      requires Valid()
      modifies this, br, br.buf, br.rd
      ensures Valid()
      ensures old(err).Some? ==> r == Err(UseOfFailed) && err == old(err) && br.unread == old(br.unread)
      ensures old(err).None? ==> br.Did(None, old(br.unread), ParseResp(old(br.unread), Io()), r)
      ensures old(err).None? ==> err == if r.Err? then Some(r.error) else None
    {
      if err.Some? {
        return Err(UseOfFailed);
      }
      r := DecodeResp();
      if r.Err? {
        err := Some(r.error);
      }
    }

    method DecodeResp() returns (r: Result<Resp>)
      requires br.Valid() && br.err.None?
      modifies br, br.buf, br.rd
      ensures br.Did(None, old(br.unread), ParseResp(old(br.unread), Io()), r)
      decreases |br.unread|, 0
    {
      ghost var s := br.unread;
      var b := br.ReadByte();
      if b.Err? {
        return Err(b.error);
      }
      ghost var s1 := br.unread;
      if IsText(b.value) {
        var v := DecodeTextBytes();
        SuffixTrans(br.unread, s1, s);
        return if v.Err? then Err(v.error) else Ok(Resp(b.value, Some(v.value), NoElems));
      } else if b.value == TYPE_BULK {
        var v := DecodeBulkBytes();
        SuffixTrans(br.unread, s1, s);
        return if v.Err? then Err(v.error) else Ok(Resp(b.value, v.value, NoElems));
      } else if b.value == TYPE_ARRAY {
        var a := DecodeArray();
        SuffixTrans(br.unread, s1, s);
        return if a.Err? then Err(a.error) else Ok(Resp(b.value, None, a.value));
      }
      r := Err(BadType);
    }

    method DecodeTextBytes() returns (r: Result<seq<Byte>>)
      requires br.Valid() && br.err.None?
      modifies br, br.buf, br.rd
      ensures br.Did(None, old(br.unread), ParseText(old(br.unread), Io()), r)
    {
      var b := br.ReadBytes(LF);
      r := if b.Err? then Err(b.error) else StripCrlf(b.value);
    }

    method DecodeInt() returns (r: Result<Int64>)
      requires br.Valid() && br.err.None?
      modifies br, br.buf, br.rd
      ensures br.Did(None, old(br.unread), ParseNumber(old(br.unread), Io()), r)
    {
      var b, _ := br.ReadSlice(LF);
      if b.Err? {
        return Err(b.error);
      }
      var text := StripCrlf(b.value);
      if text.Err? {
        return Err(text.error);
      }
      r := Btoi64(text.value);
    }

    method DecodeBulkBytes() returns (r: Result<Option<seq<Byte>>>)
      requires br.Valid() && br.err.None?
      modifies br, br.buf, br.rd
      ensures br.Did(None, old(br.unread), ParseBulk(old(br.unread), Io()), r)
    {
      hide ParseNumber, ParseBody;
      ghost var s := br.unread;
      var n := DecodeInt();
      ghost var s1 := br.unread;
      if n.Err? {
        return Err(n.error);
      }
      if n.value < -1 {
        return Err(BadBulkLen);
      } else if n.value > MAX_BULK_LEN {
        return Err(BulkTooLong);
      } else if n.value == -1 {
        return Ok(None);
      }
      r := ReadBody(n.value);
      SuffixTrans(br.unread, s1, s);
    }

    // The bytes of a bulk, with their line end.
    method ReadBody(n: nat) returns (r: Result<Option<seq<Byte>>>)
      requires br.Valid() && br.err.None?
      modifies br, br.buf, br.rd
      ensures br.Did(None, old(br.unread), ParseBody(n, old(br.unread), Io()), r)
    {
      var b := br.ReadFull(n + 2);
      if b.Err? {
        return Err(b.error);
      }
      if b.value[n] != CR || b.value[n + 1] != LF {
        return Err(BadCrlf);
      }
      r := Ok(Some(b.value[..n]));
    }

    method DecodeArray() returns (r: Result<Elems>)
      requires br.Valid() && br.err.None?
      modifies br, br.buf, br.rd
      ensures br.Did(None, old(br.unread), ParseArray(old(br.unread), Io()), r)
      decreases |br.unread|, 1
    {
      ghost var s := br.unread;
      var n := DecodeInt();
      ghost var s1 := br.unread;
      if n.Err? {
        return Err(n.error);
      }
      if n.value < -1 {
        return Err(BadArrayLen);
      } else if n.value > MAX_ARRAY_LEN {
        return Err(ArrayTooLong);
      } else if n.value == -1 {
        return Ok(NoElems);
      }
      var items := DecodeItems(n.value);
      SuffixTrans(br.unread, s1, s);
      r := if items.Err? then Err(items.error) else Ok(Elems(items.value));
    }

    // decodeArray's loop: n messages in a row.
    method DecodeItems(n: nat) returns (r: Result<seq<Resp>>)
      requires br.Valid() && br.err.None?
      modifies br, br.buf, br.rd
      ensures br.Did(None, old(br.unread), ParseItems(n, old(br.unread), Io()), r)
      decreases |br.unread|, 1
    {
      hide ParseResp, ParseItems, Prepend;
      ghost var s, io := br.unread, Io();
      ghost var all := ParseItems(n, s, io);
      var a: seq<Resp> := [];
      PrependNone(all);
      for i := 0 to n
        invariant br.Valid() && br.err.None? && |a| == i && Suffix(br.unread, s)
        invariant all == Prepend(a, ParseItems(n - i, br.unread, io))
      {
        ghost var u := br.unread;
        PrependStep(a, n - i, u, io);
        var m := DecodeResp();
        SuffixTrans(br.unread, u, s);
        if m.Err? {
          return Err(m.error);
        }
        a := a + [m.value];
      }
      PrependDone(a, br.unread, io);
      r := Ok(a);
    }

    // The next command.
    method DecodeMultiBulk() returns (r: Result<Elems>)
      requires Valid()
      modifies this, br, br.buf, br.rd
      ensures Valid()
      ensures old(err).Some? ==> r == Err(UseOfFailed) && err == old(err) && br.unread == old(br.unread)
      ensures old(err).None? ==> br.Did(None, old(br.unread), ParseMultiBulk(old(br.unread), Io()), r)
      ensures old(err).None? ==> err == if r.Err? then Some(r.error) else None
    {
      if err.Some? {
        return Err(UseOfFailed);
      }
      r := ReadMultiBulk();
      if r.Err? {
        err := Some(r.error);
      }
    }

    method ReadMultiBulk() returns (r: Result<Elems>)
      requires br.Valid() && br.err.None?
      modifies br, br.buf, br.rd
      ensures br.Did(None, old(br.unread), ParseMultiBulk(old(br.unread), Io()), r)
    {
      hide ParseInline, ParseNumber, ParseBulks;
      ghost var s := br.unread;
      var b := br.PeekByte();
      if b.Err? {
        return Err(b.error);
      }
      if b.value != TYPE_ARRAY {
        r := DecodeSingleLineMultiBulk();
        return;
      }
      var head := br.ReadByte();
      ghost var s1 := br.unread;
      if head.Err? {
        return Err(head.error);
      }
      var n := DecodeInt();
      ghost var s2 := br.unread;
      SuffixTrans(s2, s1, s);
      if n.Err? {
        return Err(n.error);
      }
      if n.value <= 0 {
        return Err(BadArrayLen);
      } else if n.value > MAX_ARRAY_LEN {
        return Err(ArrayTooLong);
      }
      var items := DecodeBulks(n.value);
      SuffixTrans(br.unread, s2, s);
      r := if items.Err? then Err(items.error) else Ok(Elems(items.value));
    }

    method DecodeBulks(n: nat) returns (r: Result<seq<Resp>>)
      requires br.Valid() && br.err.None?
      modifies br, br.buf, br.rd
      ensures br.Did(None, old(br.unread), ParseBulks(n, old(br.unread), Io()), r)
    {
      hide ParseResp, ParseBulks, Prepend;
      ghost var s, io := br.unread, Io();
      ghost var all := ParseBulks(n, s, io);
      var a: seq<Resp> := [];
      PrependNone(all);
      for i := 0 to n
        invariant br.Valid() && br.err.None? && |a| == i && Suffix(br.unread, s)
        invariant all == Prepend(a, ParseBulks(n - i, br.unread, io))
      {
        ghost var u := br.unread;
        BulksPrepend(a, n - i, u, io);
        var m := DecodeResp();
        SuffixTrans(br.unread, u, s);
        if m.Err? {
          return Err(m.error);
        }
        if m.value.typ != TYPE_BULK {
          return Err(BadMultiBulkContent);
        }
        a := a + [m.value];
      }
      BulksDone(a, br.unread, io);
      r := Ok(a);
    }

    // A command typed as one line: its words.
    method DecodeSingleLineMultiBulk() returns (r: Result<Elems>)
      requires br.Valid() && br.err.None?
      modifies br, br.buf, br.rd
      ensures br.Did(None, old(br.unread), ParseInline(old(br.unread), Io()), r)
    {
      var text := DecodeTextBytes();
      if text.Err? {
        return Err(text.error);
      }
      if text.value == [] {
        return Ok(NoElems);
      }
      var words := SplitWords(text.value);
      if words == [] {
        return Err(BadMultiBulkLen);
      }
      r := Ok(Elems(Bulks(words)));
    }
  }

  // The scan of decodeSingleLineMultiBulk: l starts the current word, r looks
  // for its end.
  method SplitWords(b: seq<Byte>) returns (words: seq<seq<Byte>>)
    ensures words == Fields(b)
  {
    hide Fields;
    var l, r := 0, 0;
    words := [];
    assert b[0..] == b;
    while r <= |b|
      invariant l <= r <= |b| + 1
      invariant forall i :: l <= i < r && i < |b| ==> b[i] != SPACE
      invariant Fields(b) == words + FieldsFrom(b, l)
      invariant r == |b| + 1 ==> l == r
    {
      if r == |b| || b[r] == SPACE {
        FieldsCut(b, l, r);
        if l < r {
          words := words + [b[l..r]];
        }
        l := r + 1;
      }
      r := r + 1;
    }
  }

  ghost function FieldsFrom(b: seq<Byte>, l: nat): seq<seq<Byte>> {
    if l <= |b| then Fields(b[l..]) else []
  }

  // The word that ends at r comes first, then the fields after it.
  lemma FieldsCut(b: seq<Byte>, l: nat, r: nat)
    requires l <= r <= |b| && forall i :: l <= i < r ==> b[i] != SPACE
    requires r == |b| || b[r] == SPACE
    ensures FieldsFrom(b, l) == (if l < r then [b[l..r]] else []) + FieldsFrom(b, r + 1)
  {
    var c := b[l..];
    IndexOfIs(c, SPACE, r - l);
    assert c[..r - l] == b[l..r];
    assert r < |b| ==> c[r - l + 1..] == b[r + 1..];
  }

  lemma BulksPrepend(done: seq<Resp>, n: nat, s: seq<Byte>, io: Input)
    requires n > 0
    ensures match ParseResp(s, io)
            case Failed(e) => Prepend(done, ParseBulks(n, s, io)) == Failed(e)
            case Took(r, s1) =>
              Prepend(done, ParseBulks(n, s, io)) ==
              if r.typ != TYPE_BULK then Failed(BadMultiBulkContent)
              else Prepend(done + [r], ParseBulks(n - 1, s1, io))
  {
    match ParseResp(s, io)
    case Failed(_) =>
    case Took(r, s1) =>
      match ParseBulks(n - 1, s1, io)
      case Failed(_) =>
      case Took(a, _) => assert done + ([r] + a) == done + [r] + a;
  }

  lemma BulksDone(a: seq<Resp>, s: seq<Byte>, io: Input)
    ensures Prepend(a, ParseBulks(0, s, io)) == Took(a, s)
  {
    assert a + [] == a;
  }
}
