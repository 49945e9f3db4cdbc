// Commands and number replies on a node connection: utils/rediscluster/node.go.
module Command {
  import opened Bytes
  import opened Decimal
  import opened Reader
  import opened Resp
  import opened FixedWidth

  // The argument kinds writeCommand distinguishes; floats are not modelled.
  datatype Arg = IntArg(n: Int64) | BytesArg(b: seq<Byte>) | UnknownArg

  function Rendered(a: Arg): seq<Byte> {
    match a
    case IntArg(n) => Dec(n)
    case BytesArg(b) => b
    case UnknownArg => []
  }

  // The command as a list of words: what the server should see.
  function Words(cmd: seq<Byte>, args: seq<Arg>): (w: seq<seq<Byte>>)
    ensures |w| == |args| + 1
  {
    [cmd] + seq(|args|, i requires 0 <= i < |args| => Rendered(args[i]))
  }

  class Conn {
    // Everything handed to conn.bw so far.
    var out: seq<Byte>
    const lenScratch: array<Byte>

    constructor ()
      ensures Valid() && fresh(lenScratch) && out == []
    {
      lenScratch := new Byte[32];
      out := [];
    }

    ghost predicate Valid() { lenScratch.Length == 32 }

    method WriteLen(prefix: Byte, n: nat)
      requires Valid() && n <= MAX_INT64
      modifies this, lenScratch
      ensures out == old(out) + ([prefix] + Line(Dec(n)))
    {
      var i := FormatLen(prefix, n);
      out := out + lenScratch[i..];
    }

    // Formats n backwards in the scratch space, between prefix and CRLF. Every
    // length Go can have fits.
    method FormatLen(prefix: Byte, n: nat) returns (i: nat)
      requires Valid() && n <= MAX_INT64
      modifies lenScratch
      ensures i <= 32 && lenScratch[i..] == [prefix] + Line(Dec(n))
    {
      hide Digits;
      lenScratch[31], lenScratch[30] := LF, CR;
      Pow19();
      DigitsWidth(n, 19);
      i := 29;
      var m := n;
      ghost var tail: seq<Byte> := [];
      while true
        invariant i + |tail| == 29
        invariant lenScratch[i + 1..] == tail + CRLF
        invariant Digits(n) == Digits(m) + tail
        decreases m
      {
        DigitsStep(m, tail);
        Put(i, ZERO + m % 10);
        Assoc([ZERO + m % 10], tail, CRLF);
        tail := [ZERO + m % 10] + tail;
        i, m := i - 1, m / 10;
        if m == 0 {
          break;
        }
      }
      Put(i, prefix);
    }

    // One byte in front of those already there.
    method Put(i: nat, c: Byte)
      requires Valid() && i < 32
      modifies lenScratch
      ensures lenScratch[i..] == [c] + old(lenScratch[i + 1..])
    {
      lenScratch[i] := c;
    }

    method WriteBytes(p: seq<Byte>)
      requires Valid() && |p| <= MAX_INT64
      modifies this, lenScratch
      ensures out == old(out) + EmitResp(Bulk(p)).bytes
    {
      WriteLen(TYPE_BULK, |p|);
      out := out + p;
      out := out + CRLF;
      Glue(old(out), [TYPE_BULK], Line(Dec(|p|)), p, CRLF);
    }

    // Writes the array of bulks made of the command and its arguments; stops at
    // the first argument of an unknown kind.
    method WriteCommand(cmd: seq<Byte>, args: seq<Arg>) returns (ok: bool)
      requires Valid() && Fits(cmd, args)
      modifies this, lenScratch
      ensures ok <==> FirstUnknown(args) == |args|
      ensures out == old(out) + CommandHead(|args|) + EmitItems(Bulks(Words(cmd, args[..FirstUnknown(args)]))).bytes
    {
      hide EmitItems, EmitResp, Words;
      WriteLen(TYPE_ARRAY, |args| + 1);
      ghost var o := out;
      WriteBytes(cmd);
      WordsOne(cmd);
      assert args[..0] == [];
      var i := 0;
      while i < |args| && !args[i].UnknownArg?
        invariant i <= FirstUnknown(args)
        invariant out == o + EmitItems(Bulks(Words(cmd, args[..i]))).bytes
      {
        if args[i].IntArg? {
          DecFits(args[i].n);
          WriteBytes(Dec(args[i].n));
        } else {
          WriteBytes(args[i].b);
        }
        WordsSnoc(cmd, args, i, o);
        i := i + 1;
      }
      ok := i == |args|;
    }
  }

  // What Go lengths allow.
  predicate Fits(cmd: seq<Byte>, args: seq<Arg>) {
    && |cmd| <= MAX_INT64 && |args| < MAX_INT64
    && forall i :: 0 <= i < |args| && args[i].BytesArg? ==> |args[i].b| <= MAX_INT64
  }

  function FirstUnknown(args: seq<Arg>): (k: nat)
    ensures k <= |args| && forall i :: 0 <= i < k ==> !args[i].UnknownArg?
    ensures k < |args| ==> args[k].UnknownArg?
  {
    if args == [] || args[0].UnknownArg? then 0 else 1 + FirstUnknown(args[1..])
  }

  function CommandHead(n: nat): seq<Byte> { [TYPE_ARRAY] + Line(Dec(n + 1)) }

  lemma Glue(o: seq<Byte>, a: seq<Byte>, b: seq<Byte>, c: seq<Byte>, d: seq<Byte>)
    ensures o + (a + b) + c + d == o + (a + (b + (c + d)))
  {
  }

  lemma DecFits(n: Int64)
    ensures |Dec(n)| <= MAX_INT64
  {
    Pow19();
    assert Pow10(20) == 10 * Pow10(19);
    DigitsWidth(if n < 0 then 0 - n else n, 20);
  }

  lemma WordsOne(cmd: seq<Byte>)
    ensures EmitItems(Bulks(Words(cmd, []))) == EmitResp(Bulk(cmd))
  {
    var b := Bulks(Words(cmd, []));
    assert b == [Bulk(cmd)];
    assert EmitItems(b[1..]).bytes == [];
    assert EmitResp(Bulk(cmd)).bytes + [] == EmitResp(Bulk(cmd)).bytes;
  }

  lemma {:induction false} BulksOk(words: seq<seq<Byte>>)
    ensures EmitItems(Bulks(words)).ok
  {
    if words != [] {
      BulksOk(words[1..]);
      assert Bulks(words)[1..] == Bulks(words[1..]);
    }
  }

  lemma WordsSnoc(cmd: seq<Byte>, args: seq<Arg>, i: nat, o: seq<Byte>)
    requires i < |args|
    ensures o + EmitItems(Bulks(Words(cmd, args[..i + 1]))).bytes
            == o + EmitItems(Bulks(Words(cmd, args[..i]))).bytes + EmitResp(Bulk(Rendered(args[i]))).bytes
  {
    hide EmitItems, EmitResp;
    var all := Bulks(Words(cmd, args[..i + 1]));
    assert all[..i + 1] == Bulks(Words(cmd, args[..i]));
    assert all[..i + 2] == all;
    BulksOk(Words(cmd, args[..i]));
    EmitSnoc(all, i + 1);
  }

  lemma WordsShow(cmd: seq<Byte>, args: seq<Arg>)
    ensures var w := Words(cmd, args);
            && w[0] == cmd
            && forall i :: 0 <= i < |args| ==>
                 match args[i]
                 case IntArg(n) => ParseInt(w[i + 1]) == Ok(n)
                 case BytesArg(b) => w[i + 1] == b
                 case UnknownArg => true
  {
    forall i | 0 <= i < |args| && args[i].IntArg?
      ensures ParseInt(Words(cmd, args)[i + 1]) == Ok(args[i].n)
    {
      ParseDec(args[i].n);
    }
    hide ParseInt, Dec;
  }

  // A command without unknown arguments, within the limits, is one canonical
  // message, and the command decoder returns its words.
  lemma CommandRoundTrip(cmd: seq<Byte>, args: seq<Arg>, t: seq<Byte>, io: Input)
    requires FirstUnknown(args) == |args|
    requires Canonical(Resp(TYPE_ARRAY, None, Elems(Bulks(Words(cmd, args)))), io.cap)
    ensures var wire := CommandHead(|args|) + EmitItems(Bulks(Words(cmd, args))).bytes;
            ParseMultiBulk(wire + t, io) == Took(Elems(Bulks(Words(cmd, args))), t)
    // The words are the command and, argument by argument, its bytes or its number.
    ensures var w := Words(cmd, args);
            && |w| == |args| + 1 && w[0] == cmd
            && forall i :: 0 <= i < |args| ==>
                 match args[i]
                 case IntArg(n) => ParseInt(w[i + 1]) == Ok(n)
                 case BytesArg(b) => w[i + 1] == b
                 case UnknownArg => false
  {
    WordsShow(cmd, args);
    hide EmitItems, ParseMultiBulk, Words, AllCanonical;
    MultiBulkRoundTrip(Bulks(Words(cmd, args)), t, io);
  }

  // Moving the last digit of m in front of the digits already there.
  lemma DigitsStep(m: nat, tail: seq<Byte>)
    ensures m < 10 ==> Digits(m) + tail == [ZERO + m % 10] + tail
    ensures m >= 10 ==> Digits(m) + tail == Digits(m / 10) + ([ZERO + m % 10] + tail)
  {
  }

  // ---- number replies ----

  // parseInt: like strconv.ParseInt, but without '+' and without a range check.
  method ParseIntReply(p: seq<Byte>) returns (r: Result<int>)
    ensures r == IntReply(p)
  {
    if p == [] {
      return Err(BadNumber);
    }
    var negate, q := false, p;
    if p[0] == MINUS {
      negate, q := true, p[1..];
      if q == [] {
        return Err(BadNumber);
      }
    }
    NoDigits(q);
    WrapFixes(0, INT64);
    hide Wrap, Value, AllDigits;
    var n, i := 0, 0;
    while i < |q|
      invariant i <= |q| && AllDigits(q[..i]) && n == Wrap(Value(q[..i]), INT64)
    {
      if !IsDigit(q[i]) {
        NotDigits(q, i);
        return Err(BadNumber);
      }
      WrapGrow(q, i);
      n := Wrap(Wrap(n * 10, INT64) + (q[i] - ZERO), INT64);
      i := i + 1;
    }
    assert q[..i] == q;
    if negate {
      WrapMulAdd(Value(q), -1, 0, INT64);
      n := Wrap(-n, INT64);
    }
    r := Ok(n);
  }

  lemma WrapDigit(v: int, d: int)
    ensures Wrap(Wrap(Wrap(v, INT64) * 10, INT64) + d, INT64) == Wrap(v * 10 + d, INT64)
  {
    hide Wrap;
    WrapMulAdd(v, 10, d, INT64);
    WrapAdd(Wrap(v, INT64) * 10, d, INT64);
  }

  // One digit more in 64 bits.
  lemma WrapGrow(p: seq<Byte>, i: nat)
    requires i < |p| && AllDigits(p[..i]) && IsDigit(p[i])
    ensures AllDigits(p[..i + 1])
    ensures Wrap(Wrap(Wrap(Value(p[..i]), INT64) * 10, INT64) + (p[i] - ZERO), INT64) == Wrap(Value(p[..i + 1]), INT64)
  {
    hide Wrap;
    assert p[..i + 1][..i] == p[..i];
    WrapDigit(Value(p[..i]), p[i] - ZERO);
  }

  lemma NotDigits(p: seq<Byte>, i: nat)
    requires i < |p| && !IsDigit(p[i])
    ensures !AllDigits(p)
  {
  }

  function IntReply(p: seq<Byte>): Result<int> {
    var q := if p != [] && p[0] == MINUS then p[1..] else p;
    if q == [] || !AllDigits(q) then Err(BadNumber)
    else Ok(Wrap(if p[0] == MINUS then 0 - Value(q) else Value(q), INT64))
  }

  // It agrees with strconv.ParseInt exactly on inputs without a leading plus
  // whose value fits 64 bits (or that are no numbers at all).
  lemma IntReplyAgrees(p: seq<Byte>)
    ensures IntReply(p) == ParseInt(p) <==> !Misread(p)
  {
    hide Wrap, Value;
    if p != [] && p[0] != PLUS && AllDigits(Body(p)) {
      WrapFixes(if p[0] == MINUS then 0 - Value(Body(p)) else Value(Body(p)), INT64);
    } else if p != [] && p[0] == PLUS {
      assert !IsDigit(p[0]);
    }
  }

  predicate Misread(p: seq<Byte>) {
    && p != [] && Body(p) != [] && AllDigits(Body(p))
    && if p[0] == PLUS then Value(Body(p)) <= MAX_INT64
       else if p[0] == MINUS then Value(Body(p)) > 0 - MIN_INT64
       else Value(Body(p)) > MAX_INT64
  }

  lemma Pow19()
    ensures Pow10(19) > MAX_INT64
  {
    PowNine();
    assert Pow10(12) == 1000 * Pow10(9);
    assert Pow10(15) == 1000 * Pow10(12);
    assert Pow10(18) == 1000 * Pow10(15);
  }
}
