// Encoder and decoder back to back: messages pushed through a writer of any
// size, cut up arbitrarily by the transport, and decoded through a reader of
// any sufficient size.
module RoundTrip {
  import opened Bytes
  import opened Reader
  import opened Writer
  import opened Resp
  import Encoder
  import Decoder

  // Messages within the limits, free of line feeds in text, arrive unchanged
  // through every reader buffer of at least eleven bytes.
  lemma {:induction false} CanonicalAtEleven(r: Resp, cap: nat)
    requires cap >= 11
    ensures Canonical(r, cap) <==> Canonical(r, 11)
    decreases r, 1
  {
    if r.typ == TYPE_BULK && r.value.Some? {
      ElevenIsEnough(|r.value.value|, MAX_BULK_LEN, cap);
      ElevenIsEnough(|r.value.value|, MAX_BULK_LEN, 11);
    } else if r.typ == TYPE_ARRAY && r.elems.Elems? {
      ElevenIsEnough(|r.elems.items|, MAX_ARRAY_LEN, cap);
      ElevenIsEnough(|r.elems.items|, MAX_ARRAY_LEN, 11);
      AllCanonicalAtEleven(r.elems.items, cap);
    }
  }

  lemma {:induction false} AllCanonicalAtEleven(a: seq<Resp>, cap: nat)
    requires cap >= 11
    ensures AllCanonical(a, cap) <==> AllCanonical(a, 11)
    decreases a, 0
  {
    if a != [] {
      CanonicalAtEleven(a[0], cap);
      AllCanonicalAtEleven(a[1..], cap);
    }
  }

  // Encode every message, flush, and let a decoder read them back.
  method SendAll(msgs: seq<Resp>, wsize: nat) returns (wire: seq<Byte>)
    requires AllCanonical(msgs, 11)
    ensures EmitItems(msgs).ok && wire == EmitItems(msgs).bytes
  {
    var sink := new Sink(0);
    var bw := new ByteWriter(sink, wsize);
    var enc := new Encoder.RespEncoder(bw);
    ItemsRoundTrip(msgs, [], Input(11, Eof));
    for i := 0 to |msgs|
      invariant enc.Valid() && enc.err.None? && sink.faults == 0
      invariant fresh(bw) && fresh(bw.buf) && fresh(sink) && fresh(enc)
      invariant EmitItems(msgs[..i]).ok && bw.stream == EmitItems(msgs[..i]).bytes
    {
      EmitSnoc(msgs, i);
      AllCanonicalAt(msgs, i, 11);
      RespRoundTrip(msgs[i], [], Input(11, Eof));
      var _ := enc.Encode(msgs[i], false);
    }
    var _ := bw.Flush();
    assert msgs[..|msgs|] == msgs;
    wire := sink.data;
  }

  lemma {:induction false} AllCanonicalAt(a: seq<Resp>, i: nat, cap: nat)
    requires AllCanonical(a, cap) && i < |a|
    ensures Canonical(a[i], cap)
  {
    if i > 0 {
      AllCanonicalAt(a[1..], i - 1, cap);
    }
  }

  // Decode n messages of a stream that holds them.
  method ReceiveAll(wire: seq<Byte>, n: nat, rsize: nat, end: SourceEnd)
    returns (msgs: seq<Resp>, ghost left: seq<Byte>)
    requires rsize > 0 && ParseItems(n, wire, Input(rsize, end)).Took?
    ensures ParseItems(n, wire, Input(rsize, end)) == Took(msgs, left)
    ensures msgs == ParseItems(n, wire, Input(rsize, end)).value
  {
    hide ParseItems, ParseResp;
    var source := new Source(wire, 0, end);
    var br := new ByteReader(source, rsize);
    var dec := new Decoder.RespDecoder(br);
    ghost var io := Input(rsize, end);
    ghost var all := ParseItems(n, wire, io);
    Decoder.PrependNone(all);
    msgs := [];
    for i := 0 to n
      invariant dec.Valid() && dec.err.None? && dec.Io() == io && br.steady
      invariant fresh(br) && fresh(br.buf) && fresh(source) && fresh(dec)
      invariant |msgs| == i && all == Decoder.Prepend(msgs, ParseItems(n - i, br.unread, io))
    {
      Decoder.PrependStep(msgs, n - i, br.unread, io);
      var m := dec.Decode();
      msgs := msgs + [m.value];
    }
    Decoder.PrependDone(msgs, br.unread, io);
    left := br.unread;
  }

  // The end-to-end law: what is sent arrives, message by message, and nothing
  // of the stream is left over.
  method Transport(msgs: seq<Resp>, wsize: nat, rsize: nat, end: SourceEnd)
    returns (got: seq<Resp>, ghost left: seq<Byte>)
    requires AllCanonical(msgs, 11) && rsize >= 11
    ensures got == msgs && left == []
  {
    var wire := SendAll(msgs, wsize);
    AllCanonicalAtEleven(msgs, rsize);
    ItemsRoundTrip(msgs, [], Input(rsize, end));
    assert wire + [] == wire;
    got, left := ReceiveAll(wire, |msgs|, rsize, end);
  }
}
