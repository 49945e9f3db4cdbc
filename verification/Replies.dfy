// How a node connection reads replies: readLine, parseLen and readReply of
// utils/rediscluster/node.go. It is a second reader of the wire format, more
// lenient than the decoder; which of the encoder's messages it reads back is
// stated exactly.
module Replies {
  import opened Bytes
  import opened Decimal
  import opened FixedWidth
  import opened Reader
  import opened Resp
  import opened Command

  // Nil stands for nil bulks and nil arrays alike.
  datatype Reply =
    | Text(s: seq<Byte>) | Failure(s: seq<Byte>) | Number(n: int)
    | Binary(b: seq<Byte>) | Nil | Items(rs: seq<Reply>)

  // ---- what reading means on the stream still to come ----

  // A line ends at the first line feed that a carriage return precedes; a piece
  // that is a line feed alone is an error.
  function TakeReplyLine(s: seq<Byte>, end: SourceEnd): (t: Taken<seq<Byte>>)
    ensures t.Took? ==> |t.rest| < |s|
    decreases |s|
  {
    match TakeLine(s, LF, end)
    case Failed(e) => Failed(e)
    case Took(p, rest) =>
      if |p| < 2 then Failed(BadCrlf)
      else if p[|p| - 2] == CR then Took(p[..|p| - 2], rest)
      else match TakeReplyLine(rest, end)
        case Failed(e) => Failed(e)
        case Took(more, rest') => Took(p + more, rest')
  }

  const NIL_LEN: seq<Byte> := [MINUS, ZERO + 1]

  // Digits are accumulated without a range check.
  function LenOf(p: seq<Byte>): Result<int> {
    if p == NIL_LEN then Ok(-1)
    else if p == [] || !AllDigits(p) then Err(BadNumber)
    else Ok(Wrap(Value(p), INT64))
  }

  function TakeReply(s: seq<Byte>, end: SourceEnd): (t: Taken<Reply>)
    ensures t.Took? ==> |t.rest| < |s|
    decreases |s|, 0, 0
  {
    match TakeReplyLine(s, end)
    case Failed(e) => Failed(e)
    case Took(line, rest) =>
      if line == [] then Failed(BadType)
      else if line[0] == TYPE_STRING then Took(Text(line[1..]), rest)
      else if line[0] == TYPE_ERROR then Took(Failure(line[1..]), rest)
      else if line[0] == TYPE_INT then
        match IntReply(line[1..])
        case Err(e) => Failed(e)
        case Ok(n) => Took(Number(n), rest)
      else if line[0] == TYPE_BULK then
        match LenOf(line[1..])
        case Err(e) => Failed(e)
        case Ok(n) => if n < 0 then Took(Nil, rest) else TakeBinary(n, rest, end)
      else if line[0] == TYPE_ARRAY then
        match LenOf(line[1..])
        case Err(e) => Failed(e)
        case Ok(n) =>
          if n < 0 then Took(Nil, rest)
          else match TakeReplies(n, rest, end)
            case Failed(e) => Failed(e)
            case Took(rs, rest') => Took(Items(rs), rest')
      else Failed(BadType)
  }

  // n bytes and an empty line.
  function TakeBinary(n: nat, s: seq<Byte>, end: SourceEnd): (t: Taken<Reply>)
    ensures t.Took? ==> |t.rest| < |s|
  {
    match TakeFull(s, n, end)
    case Failed(e) => Failed(e)
    case Took(b, rest) =>
      match TakeReplyLine(rest, end)
      case Failed(e) => Failed(e)
      case Took(line, rest') => if line != [] then Failed(BadCrlf) else Took(Binary(b), rest')
  }

  function TakeReplies(n: nat, s: seq<Byte>, end: SourceEnd): (t: Taken<seq<Reply>>)
    ensures t.Took? ==> |t.rest| <= |s| && |t.value| == n
    decreases |s|, 1, n
  {
    if n == 0 then Took([], s) else
    match TakeReply(s, end)
    case Failed(e) => Failed(e)
    case Took(r, s1) =>
      match TakeReplies(n - 1, s1, end)
      case Failed(e) => Failed(e)
      case Took(rs, s2) => Took([r] + rs, s2)
  }

  // ---- the connection ----

  // The library's buffered reader on the connection.
  class Stream {
    var unread: seq<Byte>
    const end: SourceEnd

    constructor (data: seq<Byte>, end: SourceEnd)
      ensures unread == data && this.end == end
    {
      unread, this.end := data, end;
    }

    // The read did to the stream what `taken` says.
    ghost predicate Did<T>(taken: Taken<T>, r: Result<T>)
      reads this
    {
      match taken
      case Took(v, rest) => r == Ok(v) && unread == rest
      case Failed(e) => r == Err(e)
    }

    method ReadBytes(d: Byte) returns (r: Result<seq<Byte>>)
      modifies this
      ensures Did(TakeLine(old(unread), d, end), r)
    {
      var k := IndexOf(unread, d);
      if k < |unread| {
        r, unread := Ok(unread[..k + 1]), unread[k + 1..];
      } else {
        r, unread := Err(end), [];
      }
    }

    method ReadFull(n: nat) returns (r: Result<seq<Byte>>)
      modifies this
      ensures Did(TakeFull(old(unread), n, end), r)
    {
      if n <= |unread| {
        r, unread := Ok(unread[..n]), unread[n..];
      } else {
        r, unread := Err(if end.Eof? && unread != [] then UnexpectedEof else end), [];
      }
    }
  }

  // Continuing a line after the pieces read so far.
  ghost function LineAfter(done: seq<Byte>, t: Taken<seq<Byte>>): Taken<seq<Byte>> {
    match t
    case Failed(e) => Failed(e)
    case Took(more, rest) => Took(done + more, rest)
  }

  lemma LineAfterPiece(done: seq<Byte>, s: seq<Byte>, end: SourceEnd)
    ensures match TakeLine(s, LF, end)
            case Failed(e) => LineAfter(done, TakeReplyLine(s, end)) == Failed(e)
            case Took(p, rest) =>
              LineAfter(done, TakeReplyLine(s, end)) ==
              if |p| < 2 then Failed(BadCrlf)
              else if p[|p| - 2] == CR then Took(done + p[..|p| - 2], rest)
              else LineAfter(done + p, TakeReplyLine(rest, end))
  {
    match TakeLine(s, LF, end)
    case Failed(_) =>
    case Took(p, rest) =>
      match TakeReplyLine(rest, end)
      case Failed(_) =>
      case Took(more, _) => assert done + (p + more) == done + p + more;
  }

  // Continuing an array after the replies read so far.
  ghost function ItemsAfter(done: seq<Reply>, t: Taken<seq<Reply>>): Taken<seq<Reply>> {
    match t
    case Failed(e) => Failed(e)
    case Took(more, rest) => Took(done + more, rest)
  }

  lemma ItemsAfterOne(done: seq<Reply>, n: nat, s: seq<Byte>, end: SourceEnd)
    requires n > 0
    ensures match TakeReply(s, end)
            case Failed(e) => ItemsAfter(done, TakeReplies(n, s, end)) == Failed(e)
            case Took(r, s1) =>
              ItemsAfter(done, TakeReplies(n, s, end)) == ItemsAfter(done + [r], TakeReplies(n - 1, s1, end))
  {
    match TakeReply(s, end)
    case Failed(_) =>
    case Took(r, s1) =>
      match TakeReplies(n - 1, s1, end)
      case Failed(_) =>
      case Took(more, _) => assert done + ([r] + more) == done + [r] + more;
  }

  lemma AfterEnds(done: seq<Reply>, s: seq<Byte>, end: SourceEnd)
    ensures ItemsAfter(done, TakeReplies(0, s, end)) == Took(done, s)
    ensures forall t :: ItemsAfter([], t) == t
  {
    assert done + [] == done;
    forall t: Taken<seq<Reply>>
      ensures ItemsAfter([], t) == t
    {
      assert t.Took? ==> [] + t.value == t.value;
    }
  }

  class ReplyConn {
    const br: Stream

    constructor (br: Stream)
      ensures this.br == br
    {
      this.br := br;
    }

    method ReadLine() returns (r: Result<seq<Byte>>)
      modifies br
      ensures br.Did(TakeReplyLine(old(br.unread), br.end), r)
    {
      hide TakeReplyLine, TakeLine;
      ghost var all := TakeReplyLine(br.unread, br.end);
      var line: seq<Byte> := [];
      assert LineAfter([], all) == all by { assert all.Took? ==> [] + all.value == all.value; }
      while true
        invariant all == LineAfter(line, TakeReplyLine(br.unread, br.end))
        decreases |br.unread|
      {
        ghost var s := br.unread;
        LineAfterPiece(line, s, br.end);
        LineIsSome(s, br.end);
        var p := br.ReadBytes(LF);
        if p.Err? {
          return Err(p.error);
        }
        var n := |p.value| - 2;
        if n < 0 {
          return Err(BadCrlf);
        }
        if p.value[n] == CR {
          return Ok(line + p.value[..n]);
        }
        line := line + p.value;
      }
    }

    // One digit after the other, in 64 bits.
    method ParseLen(p: seq<Byte>) returns (r: Result<int>)
      ensures r == LenOf(p)
    {
      if |p| == 0 {
        return Err(BadNumber);
      }
      if p[0] == MINUS && |p| == 2 && p[1] == ZERO + 1 {
        assert p == NIL_LEN;
        return Ok(-1);
      }
      NoDigits(p);
      WrapFixes(0, INT64);
      hide Wrap, Value, AllDigits;
      var n := 0;
      for i := 0 to |p|
        invariant AllDigits(p[..i]) && n == Wrap(Value(p[..i]), INT64)
      {
        if !IsDigit(p[i]) {
          NotDigits(p, i);
          return Err(BadNumber);
        }
        WrapGrow(p, i);
        n := Wrap(Wrap(n * 10, INT64) + (p[i] - ZERO), INT64);
      }
      assert p[..|p|] == p;
      r := Ok(n);
    }

    method ReadReply() returns (r: Result<Reply>)
      modifies br
      ensures br.Did(TakeReply(old(br.unread), br.end), r)
      decreases |br.unread|, 0
    {
      hide TakeReplyLine, LenOf, IntReply, TakeBinary, TakeReplies;
      var l := ReadLine();
      if l.Err? {
        return Err(l.error);
      }
      var line := l.value;
      if |line| == 0 {
        return Err(BadType);
      }
      if line[0] == TYPE_STRING {
        return Ok(Text(line[1..]));
      } else if line[0] == TYPE_ERROR {
        return Ok(Failure(line[1..]));
      } else if line[0] == TYPE_INT {
        var n := ParseIntReply(line[1..]);
        return if n.Err? then Err(n.error) else Ok(Number(n.value));
      } else if line[0] == TYPE_BULK {
        var n := ParseLen(line[1..]);
        if n.Err? {
          return Err(n.error);
        }
        if n.value < 0 {
          return Ok(Nil);
        }
        r := ReadBinary(n.value);
      } else if line[0] == TYPE_ARRAY {
        var n := ParseLen(line[1..]);
        if n.Err? {
          return Err(n.error);
        }
        if n.value < 0 {
          return Ok(Nil);
        }
        var items := ReadItems(n.value);
        r := if items.Err? then Err(items.error) else Ok(Items(items.value));
      } else {
        r := Err(BadType);
      }
    }

    method ReadBinary(n: nat) returns (r: Result<Reply>)
      modifies br
      ensures br.Did(TakeBinary(n, old(br.unread), br.end), r)
    {
      hide TakeReplyLine;
      var b := br.ReadFull(n);
      if b.Err? {
        return Err(b.error);
      }
      var l := ReadLine();
      if l.Err? {
        return Err(l.error);
      }
      r := if |l.value| != 0 then Err(BadCrlf) else Ok(Binary(b.value));
    }

    method ReadItems(n: nat) returns (r: Result<seq<Reply>>)
      modifies br
      ensures br.Did(TakeReplies(n, old(br.unread), br.end), r)
      decreases |br.unread|, 1
    {
      hide TakeReply, TakeReplies, ItemsAfter;
      ghost var all, s0 := TakeReplies(n, br.unread, br.end), br.unread;
      var a: seq<Reply> := [];
      AfterEnds(a, br.unread, br.end);
      for i := 0 to n
        invariant |a| == i && |br.unread| <= |s0|
        invariant all == ItemsAfter(a, TakeReplies(n - i, br.unread, br.end))
      {
        ItemsAfterOne(a, n - i, br.unread, br.end);
        var m := ReadReply();
        if m.Err? {
          return Err(m.error);
        }
        a := a + [m.value];
      }
      AfterEnds(a, br.unread, br.end);
      r := Ok(a);
    }
  }

  lemma LineIsSome(s: seq<Byte>, end: SourceEnd)
    ensures var t := TakeLine(s, LF, end);
            t.Took? ==> |t.rest| < |s|
  {
  }

  // ---- which lines are read back ----

  // A line feed does not come first, nor after a carriage return or line feed.
  predicate GoodAt(line: seq<Byte>, i: nat)
    requires i < |line|
  {
    line[i] == LF ==> i > 0 && line[i - 1] != CR && line[i - 1] != LF
  }

  predicate Readable(line: seq<Byte>) { forall i :: 0 <= i < |line| ==> GoodAt(line, i) }

  lemma ReadableSplit(line: seq<Byte>, k: nat)
    requires k < |line| && k == IndexOf(line, LF)
    ensures Readable(line) <==> k > 0 && line[k - 1] != CR && Readable(line[k + 1..])
  {
    var tail := line[k + 1..];
    FirstLf(line, k);
    hide IndexOf, GoodAt;
    forall j | 0 <= j < |tail|
      ensures GoodAt(tail, j) <==> GoodAt(line, k + 1 + j)
    {
      GoodAtShift(line, k, j);
    }
    if Readable(line) {
      assert GoodAt(line, k);
    } else {
      var i :| 0 <= i < |line| && !GoodAt(line, i);
      assert i > k ==> !GoodAt(tail, i - k - 1);
    }
  }

  lemma FirstLf(line: seq<Byte>, k: nat)
    requires k < |line| && k == IndexOf(line, LF)
    ensures forall i :: 0 <= i < k ==> GoodAt(line, i)
    ensures GoodAt(line, k) <==> k > 0 && line[k - 1] != CR
    ensures line[k] == LF
  {
  }

  lemma GoodAtShift(line: seq<Byte>, k: nat, j: nat)
    requires k + 1 + j < |line| && line[k] == LF
    ensures GoodAt(line[k + 1..], j) <==> GoodAt(line, k + 1 + j)
  {
  }

  // A printed line is read back if and only if it is readable; where its value
  // comes back, so does what follows it.
  lemma {:induction false} LineRoundTrip(line: seq<Byte>, t: seq<Byte>, end: SourceEnd)
    ensures var p := TakeReplyLine(Line(line) + t, end);
            && (Readable(line) ==> p == Took(line, t))
            && (p.Took? && p.value == line ==> Readable(line) && p.rest == t)
    decreases |line|
  {
    var k := IndexOf(line, LF);
    if k == |line| {
      LineFirst(line, t);
      assert Line(line)[..|line|] == line;
    } else {
      ReadableSplit(line, k);
      LinePieces(line, k, t, end);
      if k > 0 && line[k - 1] != CR {
        hide Readable, TakeReplyLine, IndexOf;
        LineRoundTrip(line[k + 1..], t, end);
        assert line[..k + 1] + line[k + 1..] == line;
        var tail := TakeReplyLine(Line(line[k + 1..]) + t, end);
        if tail.Took? {
          assert (line[..k + 1] + tail.value)[k + 1..] == tail.value;
        }
      }
    }
  }

  // Reading a line with a line feed inside: its first piece decides.
  lemma LinePieces(line: seq<Byte>, k: nat, t: seq<Byte>, end: SourceEnd)
    requires k < |line| && k == IndexOf(line, LF)
    ensures var tail := TakeReplyLine(Line(line[k + 1..]) + t, end);
            TakeReplyLine(Line(line) + t, end)
            == if k == 0 then Failed(BadCrlf)
               else if line[k - 1] == CR then Took(line[..k - 1], Line(line[k + 1..]) + t)
               else match tail
                 case Failed(e) => Failed(e)
                 case Took(more, rest) => Took(line[..k + 1] + more, rest)
  {
    FirstPiece(line, k, t);
    hide IndexOf;
    assert TakeLine(Line(line) + t, LF, end) == Took(line[..k + 1], Line(line[k + 1..]) + t);
    assert k > 0 ==> line[..k + 1][..k - 1] == line[..k - 1];
  }

  // The piece up to the first line feed of a line.
  lemma FirstPiece(line: seq<Byte>, k: nat, t: seq<Byte>)
    requires k < |line| && k == IndexOf(line, LF)
    ensures var s := Line(line) + t;
            IndexOf(s, LF) == k && s[..k + 1] == line[..k + 1] && s[k + 1..] == Line(line[k + 1..]) + t
  {
    hide IndexOf;
    IndexOfPrefix(line, CRLF + t, LF);
    TakeFront(line, CRLF + t, k + 1);
    Assoc(line, CRLF, t);
    Assoc(line[k + 1..], CRLF, t);
  }

  // ---- which messages are read back ----

  // Lengths that Go can have.
  predicate GoSized(r: Resp)
    decreases r, 1
  {
    && (r.value.Some? ==> |r.value.value| <= MAX_INT64)
    && (r.elems.Elems? ==> |r.elems.items| <= MAX_INT64 && AllSized(r.elems.items))
  }

  predicate AllSized(a: seq<Resp>)
    decreases a, 0
  {
    a == [] || (GoSized(a[0]) && AllSized(a[1..]))
  }

  // The reply shows the message.
  predicate Shows(x: Reply, r: Resp)
    decreases r, 1
  {
    if r.typ == TYPE_STRING then x == Text(Contents(r.value))
    else if r.typ == TYPE_ERROR then x == Failure(Contents(r.value))
    else if r.typ == TYPE_INT then x.Number? && IntReply(Contents(r.value)) == Ok(x.n)
    else if r.typ == TYPE_BULK then x == if r.value.None? then Nil else Binary(r.value.value)
    else if r.typ == TYPE_ARRAY then
      match r.elems
      case NoElems => x == Nil
      case Elems(a) => x.Items? && AllShow(x.rs, a)
    else false
  }

  predicate AllShow(xs: seq<Reply>, a: seq<Resp>)
    decreases a, 0
  {
    if a == [] then xs == [] else xs != [] && Shows(xs[0], a[0]) && AllShow(xs[1..], a[1..])
  }

  // The text lines are readable and the numbers are numbers.
  predicate Legible(r: Resp)
    decreases r, 1
  {
    if r.typ == TYPE_STRING || r.typ == TYPE_ERROR then Readable([r.typ] + Contents(r.value))
    else if r.typ == TYPE_INT then IntReply(Contents(r.value)).Ok?
    else if r.typ == TYPE_BULK then true
    else r.typ == TYPE_ARRAY && (r.elems.NoElems? || AllLegible(r.elems.items))
  }

  predicate AllLegible(a: seq<Resp>)
    decreases a, 0
  {
    a == [] || (Legible(a[0]) && AllLegible(a[1..]))
  }

  // A length is read as itself exactly when it is a digit string in range; a
  // longer one may even count as nil.
  lemma LenAgrees(p: seq<Byte>)
    ensures (p != [] && AllDigits(p) && LenOf(p) == Ok(Value(p))) <==> (p != [] && AllDigits(p) && Value(p) <= MAX_INT64)
  {
    if p != [] && AllDigits(p) {
      assert p != NIL_LEN by { assert NIL_LEN[0] == MINUS && !IsDigit(MINUS); }
      WrapFixes(Value(p), INT64);
    }
  }

  // A digit string counts as nil exactly where its value, cut to 64 bits, has
  // the sign bit set.
  lemma OversizedLength(n: nat)
    ensures LenOf(Digits(n)).Ok? && (LenOf(Digits(n)).value < 0 <==> n % 0x1_0000_0000_0000_0000 > MAX_INT64)
  {
    ValueDigits(n);
    NotNil(Digits(n));
    WrapNegative(n, INT64);
    hide Wrap, Digits;
  }

  lemma NotNil(p: seq<Byte>)
    requires AllDigits(p)
    ensures p != NIL_LEN
  {
    assert NIL_LEN[0] == MINUS && !IsDigit(MINUS);
  }

  // So a bulk or an array announced with 2^63 elements is read as nil, without
  // an error, and what belongs to it is left on the stream.
  lemma OversizedIsNil(typ: Byte, t: seq<Byte>, end: SourceEnd)
    requires typ == TYPE_BULK || typ == TYPE_ARRAY
    ensures TakeReply([typ] + Line(Digits(0x8000_0000_0000_0000)) + t, end) == Took(Nil, t)
  {
    hide Digits, LenOf, TakeReplyLine, Readable;
    OversizedLength(0x8000_0000_0000_0000);
    var p := Digits(0x8000_0000_0000_0000);
    NumbersAreReadable(typ, p);
    HeadLine(typ, p, t, end);
    assert ([typ] + p)[1..] == p;
  }

  lemma NumbersAreReadable(typ: Byte, p: seq<Byte>)
    requires typ != LF && (IntReply(p).Ok? || LenOf(p).Ok?)
    ensures Readable([typ] + p)
  {
    hide Wrap;
    assert forall i :: 0 <= i < |p| ==> p[i] == MINUS || IsDigit(p[i]) by {
      if p != [] && p[0] == MINUS {
        assert forall i :: 1 <= i < |p| ==> p[i] == p[1..][i - 1];
      }
    }
  }

  // The head line of a message, and what comes after it.
  lemma HeadLine(typ: Byte, text: seq<Byte>, t: seq<Byte>, end: SourceEnd)
    ensures var p := TakeReplyLine([typ] + Line(text) + t, end);
            && (Readable([typ] + text) ==> p == Took([typ] + text, t))
            && (p.Took? && p.value == [typ] + text ==> Readable([typ] + text) && p.rest == t)
  {
    assert [typ] + Line(text) + t == Line([typ] + text) + t;
    LineRoundTrip([typ] + text, t, end);
  }

  lemma LenHead(typ: Byte, n: int, t: seq<Byte>, end: SourceEnd)
    requires typ == TYPE_BULK || typ == TYPE_ARRAY
    requires -1 <= n <= MAX_INT64
    ensures TakeReplyLine([typ] + Line(Dec(n)) + t, end) == Took([typ] + Dec(n), t)
    ensures LenOf(Dec(n)) == Ok(n)
  {
    if n == -1 {
      assert Dec(-1) == NIL_LEN;
    } else {
      ValueDigits(n);
      LenAgrees(Dec(n));
    }
    NumbersAreReadable(typ, Dec(n));
    HeadLine(typ, Dec(n), t, end);
  }

  lemma TextReply(r: Resp, t: seq<Byte>, end: SourceEnd)
    requires IsText(r.typ)
    ensures var p := TakeReply(EmitResp(r).bytes + t, end);
            && (Legible(r) ==> p.Took? && Shows(p.value, r) && p.rest == t)
            && (p.Took? && Shows(p.value, r) ==> Legible(r) && p.rest == t)
  {
    hide TakeReplyLine, IntReply;
    var text := Contents(r.value);
    assert EmitResp(r).bytes == [r.typ] + Line(text);
    HeadLine(r.typ, text, t, end);
    var p := TakeReplyLine([r.typ] + Line(text) + t, end);
    assert ([r.typ] + text)[1..] == text;
    if IntReply(text).Ok? {
      NumbersAreReadable(r.typ, text);
    }
    if p.Took? && p.value != [] {
      FirstStays(r.typ, Line(text) + t, end);
      assert [r.typ] + Line(text) + t == [r.typ] + (Line(text) + t);
      assert p.value == [p.value[0]] + p.value[1..];
    }
  }

  // A line starts with the byte the stream starts with.
  lemma FirstStays(c: Byte, s: seq<Byte>, end: SourceEnd)
    ensures var p := TakeReplyLine([c] + s, end);
            p.Took? && p.value != [] ==> p.value[0] == c
  {
  }

  lemma BulkReply(r: Resp, t: seq<Byte>, end: SourceEnd)
    requires r.typ == TYPE_BULK && GoSized(r)
    ensures var p := TakeReply(EmitResp(r).bytes + t, end);
            p.Took? && Shows(p.value, r) && p.rest == t
  {
    hide TakeReplyLine, LenOf, Dec;
    match r.value
    case None =>
      assert EmitResp(r).bytes + t == [r.typ] + Line(Dec(-1)) + t;
      LenHead(r.typ, -1, t, end);
      assert ([r.typ] + Dec(-1))[1..] == Dec(-1);
    case Some(b) =>
      var u := Line(b) + t;
      assert EmitResp(r).bytes + t == [r.typ] + Line(Dec(|b|)) + u;
      LenHead(r.typ, |b|, u, end);
      assert ([r.typ] + Dec(|b|))[1..] == Dec(|b|);
      assert u[..|b|] == b && u[|b|..] == Line([]) + t;
      LineRoundTrip([], t, end);
  }

  // Main theorem: whatever follows it on the wire, a message printed by the
  // encoder is shown by the reply that is read if and only if it is of known
  // types and legible. Exactly its bytes are consumed then.
  lemma {:induction false} ReplyRoundTrip(r: Resp, t: seq<Byte>, end: SourceEnd)
    requires GoSized(r)
    ensures var e := EmitResp(r);
            var p := TakeReply(e.bytes + t, end);
            && (Legible(r) ==> e.ok && p.Took? && Shows(p.value, r) && p.rest == t)
            && (e.ok && p.Took? && Shows(p.value, r) ==> Legible(r) && p.rest == t)
    decreases r, 1
  {
    if IsText(r.typ) {
      TextReply(r, t, end);
    } else if r.typ == TYPE_BULK {
      BulkReply(r, t, end);
    } else if r.typ == TYPE_ARRAY {
      match r.elems
      case NoElems =>
        NilArrayReply(r, t, end);
      case Elems(a) =>
        RepliesRoundTrip(a, t, end);
        ArrayReply(r, t, end);
    }
  }

  lemma NilArrayReply(r: Resp, t: seq<Byte>, end: SourceEnd)
    requires r.typ == TYPE_ARRAY && r.elems.NoElems?
    ensures TakeReply(EmitResp(r).bytes + t, end) == Took(Nil, t)
  {
    hide TakeReplyLine, LenOf, Dec;
    assert EmitResp(r).bytes + t == [r.typ] + Line(Dec(-1)) + t;
    LenHead(r.typ, -1, t, end);
    assert ([r.typ] + Dec(-1))[1..] == Dec(-1);
  }

  // An array is read as its items are, after its head line.
  lemma ArrayReply(r: Resp, t: seq<Byte>, end: SourceEnd)
    requires r.typ == TYPE_ARRAY && r.elems.Elems? && |r.elems.items| <= MAX_INT64
    ensures var a := r.elems.items;
            var items := TakeReplies(|a|, EmitItems(a).bytes + t, end);
            EmitResp(r).ok == EmitItems(a).ok
            && TakeReply(EmitResp(r).bytes + t, end)
               == match items case Failed(e) => Failed(e) case Took(rs, rest) => Took(Items(rs), rest)
  {
    hide TakeReplyLine, LenOf, Dec, EmitItems, TakeReplies;
    var a := r.elems.items;
    var u := EmitItems(a).bytes + t;
    assert EmitResp(r).bytes + t == [r.typ] + Line(Dec(|a|)) + u;
    LenHead(r.typ, |a|, u, end);
    assert ([r.typ] + Dec(|a|))[1..] == Dec(|a|);
  }

  // The same for any sequence of messages.
  lemma {:induction false} RepliesRoundTrip(a: seq<Resp>, t: seq<Byte>, end: SourceEnd)
    requires AllSized(a)
    ensures var e := EmitItems(a);
            var p := TakeReplies(|a|, e.bytes + t, end);
            && (AllLegible(a) ==> e.ok && p.Took? && AllShow(p.value, a) && p.rest == t)
            && (e.ok && p.Took? && AllShow(p.value, a) ==> AllLegible(a) && p.rest == t)
    decreases a, 0
  {
    if a == [] {
      assert EmitItems(a).bytes + t == t;
    } else {
      hide TakeReply, EmitResp, Shows, Legible, GoSized;
      var head, tail := EmitResp(a[0]), EmitItems(a[1..]);
      ReplyRoundTrip(a[0], tail.bytes + t, end);
      RepliesRoundTrip(a[1..], t, end);
      if head.ok {
        EmitStep(a, t);
        RepliesStep(|a|, head.bytes + (tail.bytes + t), end);
      }
    }
  }

  lemma RepliesStep(n: nat, s: seq<Byte>, end: SourceEnd)
    requires n > 0
    ensures var p, q := TakeReply(s, end), TakeReplies(n, s, end);
            && (q.Took? <==> p.Took? && TakeReplies(n - 1, p.rest, end).Took?)
            && (q.Took? ==> var more := TakeReplies(n - 1, p.rest, end);
                            q.value != [] && q.value[0] == p.value && q.value[1..] == more.value && q.rest == more.rest)
  {
    hide TakeReply;
    var p := TakeReply(s, end);
    if p.Took? {
      var more := TakeReplies(n - 1, p.rest, end);
      assert more.Took? ==> ([p.value] + more.value)[1..] == more.value;
    }
  }
}
