// The wire format of utils/resparse/credis: what the encoder prints and what
// the decoder accepts, as functions on byte sequences, and when decoding undoes
// encoding.
module Resp {
  import opened Bytes
  import opened Decimal
  import opened Reader

  const TYPE_STRING: Byte := 43
  const TYPE_ERROR: Byte := 45
  const TYPE_INT: Byte := 58
  const TYPE_BULK: Byte := 36
  const TYPE_ARRAY: Byte := 42

  const MAX_BULK_LEN := 1024 * 1024 * 512
  const MAX_ARRAY_LEN := 1024 * 1024

  // resp.go's struct: a type byte and two slices, either of which may be nil.
  datatype Resp = Resp(typ: Byte, value: Option<seq<Byte>>, elems: Elems)
  datatype Elems = NoElems | Elems(items: seq<Resp>)

  predicate IsText(typ: Byte) { typ == TYPE_STRING || typ == TYPE_ERROR || typ == TYPE_INT }

  // ---- printing ----

  // The bytes pushed into the writer, and whether the tree had known types
  // only: the encoder stops at the first unknown one.
  datatype Emitted = Emitted(bytes: seq<Byte>, ok: bool) {
    function Then(next: Emitted): Emitted {
      if ok then Emitted(bytes + next.bytes, next.ok) else this
    }
  }

  function Line(s: seq<Byte>): seq<Byte> { s + CRLF }

  function Contents(v: Option<seq<Byte>>): seq<Byte> { if v.Some? then v.value else [] }

  function EmitBulk(v: Option<seq<Byte>>): seq<Byte> {
    if v.None? then Line(Dec(-1)) else Line(Dec(|v.value|)) + Line(v.value)
  }

  function EmitResp(r: Resp): Emitted
    decreases r, 1
  {
    var head := Emitted([r.typ], true);
    if IsText(r.typ) then head.Then(Emitted(Line(Contents(r.value)), true))
    else if r.typ == TYPE_BULK then head.Then(Emitted(EmitBulk(r.value), true))
    else if r.typ == TYPE_ARRAY then head.Then(EmitArray(r.elems))
    else Emitted([r.typ], false)
  }

  function EmitArray(elems: Elems): Emitted
    decreases elems, 1
  {
    match elems
    case NoElems => Emitted(Line(Dec(-1)), true)
    case Elems(a) => Emitted(Line(Dec(|a|)), true).Then(EmitItems(a))
  }

  function EmitItems(a: seq<Resp>): Emitted
    decreases a, 0
  {
    if a == [] then Emitted([], true) else EmitResp(a[0]).Then(EmitItems(a[1..]))
  }

  // What each kind of message looks like on the wire (Redis serialization
  // protocol specification).
  lemma TextForm(v: seq<Byte>)
    ensures EmitResp(Resp(43, Some(v), NoElems)) == Emitted(Ascii("+") + v + Ascii("\r\n"), true)
    ensures EmitResp(Resp(45, Some(v), NoElems)) == Emitted(Ascii("-") + v + Ascii("\r\n"), true)
    ensures EmitResp(Resp(58, Some(v), NoElems)) == Emitted(Ascii(":") + v + Ascii("\r\n"), true)
  {
    Marks();
    hide Ascii;
  }

  lemma BulkForm(v: seq<Byte>)
    ensures EmitResp(Resp(36, Some(v), NoElems))
            == Emitted(Ascii("$") + Dec(|v|) + Ascii("\r\n") + v + Ascii("\r\n"), true)
    ensures EmitResp(Resp(36, None, NoElems)) == Emitted(Ascii("$") + Dec(-1) + Ascii("\r\n"), true)
  {
    Marks();
    hide Ascii, Dec;
  }

  lemma ArrayForm(a: seq<Resp>)
    ensures EmitResp(Resp(42, None, Elems(a)))
            == Emitted(Ascii("*") + Dec(|a|) + Ascii("\r\n") + EmitItems(a).bytes, EmitItems(a).ok)
    ensures EmitResp(Resp(42, None, NoElems)) == Emitted(Ascii("*") + Dec(-1) + Ascii("\r\n"), true)
  {
    Marks();
    hide Ascii, Dec, EmitItems;
  }

  lemma Marks()
    ensures Ascii("\r\n") == [13, 10] && Ascii(" ") == [32]
    ensures Ascii("+") == [43] && Ascii("-") == [45] && Ascii(":") == [58] && Ascii("$") == [36] && Ascii("*") == [42]
  {
  }

  // Printing one message more.
  lemma {:induction false} EmitSnoc(a: seq<Resp>, i: nat)
    requires i < |a| && EmitItems(a[..i]).ok
    ensures EmitItems(a[..i + 1]) == EmitItems(a[..i]).Then(EmitResp(a[i]))
    decreases i
  {
    hide EmitResp;
    if i == 0 {
      assert a[..1] == [a[0]] && a[..1][1..] == [];
      assert EmitResp(a[0]).bytes + [] == EmitResp(a[0]).bytes;
    } else {
      assert a[..i][1..] == a[1..][..i - 1];
      EmitSnoc(a[1..], i - 1);
      assert a[..i + 1][1..] == a[1..][..i] && a[..i][1..] == a[1..][..i - 1];
      var x, y, z := EmitResp(a[0]), EmitItems(a[1..][..i - 1]), EmitResp(a[i]);
      assert x.ok ==> x.bytes + (y.bytes + z.bytes) == x.bytes + y.bytes + z.bytes;
    }
  }

  // ---- parsing ----

  // The decoder's surroundings: its buffer size and how its source ends.
  datatype Input = Input(cap: nat, end: SourceEnd)

  function StripCrlf(b: seq<Byte>): Result<seq<Byte>> {
    if |b| < 2 || b[|b| - 2] != CR then Err(BadCrlf) else Ok(b[..|b| - 2])
  }

  function ParseText(s: seq<Byte>, io: Input): (t: Taken<seq<Byte>>)
    ensures t.Took? ==> |t.rest| < |s|
  {
    match TakeLine(s, LF, io.end)
    case Failed(e) => Failed(e)
    case Took(b, rest) =>
      match StripCrlf(b)
      case Err(e) => Failed(e)
      case Ok(text) => Took(text, rest)
  }

  function ParseNumber(s: seq<Byte>, io: Input): (t: Taken<Int64>)
    ensures t.Took? ==> |t.rest| < |s|
  {
    match TakeSlice(s, LF, io.cap, io.end)
    case Failed(e) => Failed(e)
    case Took(b, rest) =>
      match StripCrlf(b)
      case Err(e) => Failed(e)
      case Ok(text) =>
        match ParseInt(text)
        case Err(e) => Failed(e)
        case Ok(n) => Took(n, rest)
  }

  function ParseBulk(s: seq<Byte>, io: Input): (t: Taken<Option<seq<Byte>>>)
    ensures t.Took? ==> |t.rest| < |s|
  {
    match ParseNumber(s, io)
    case Failed(e) => Failed(e)
    case Took(n, s1) =>
      if n < -1 then Failed(BadBulkLen)
      else if n > MAX_BULK_LEN then Failed(BulkTooLong)
      else if n == -1 then Took(None, s1)
      else ParseBody(n, s1, io)
  }

  // n bytes and a line end.
  function ParseBody(n: nat, s: seq<Byte>, io: Input): (t: Taken<Option<seq<Byte>>>)
    ensures t.Took? ==> |t.rest| < |s|
  {
    match TakeFull(s, n + 2, io.end)
    case Failed(e) => Failed(e)
    case Took(b, rest) =>
      if b[n] != CR || b[n + 1] != LF then Failed(BadCrlf) else Took(Some(b[..n]), rest)
  }

  function ParseResp(s: seq<Byte>, io: Input): (t: Taken<Resp>)
    ensures t.Took? ==> |t.rest| < |s|
    decreases |s|, 0, 0
  {
    match TakeByte(s, io.end)
    case Failed(e) => Failed(e)
    case Took(typ, s1) =>
      if IsText(typ) then
        match ParseText(s1, io)
        case Failed(e) => Failed(e)
        case Took(v, rest) => Took(Resp(typ, Some(v), NoElems), rest)
      else if typ == TYPE_BULK then
        match ParseBulk(s1, io)
        case Failed(e) => Failed(e)
        case Took(v, rest) => Took(Resp(typ, v, NoElems), rest)
      else if typ == TYPE_ARRAY then
        match ParseArray(s1, io)
        case Failed(e) => Failed(e)
        case Took(a, rest) => Took(Resp(typ, None, a), rest)
      else Failed(BadType)
  }

  function ParseArray(s: seq<Byte>, io: Input): (t: Taken<Elems>)
    ensures t.Took? ==> |t.rest| < |s|
    decreases |s|, 1, 0
  {
    match ParseNumber(s, io)
    case Failed(e) => Failed(e)
    case Took(n, s1) =>
      if n < -1 then Failed(BadArrayLen)
      else if n > MAX_ARRAY_LEN then Failed(ArrayTooLong)
      else if n == -1 then Took(NoElems, s1)
      else match ParseItems(n, s1, io)
        case Failed(e) => Failed(e)
        case Took(a, s2) => Took(Elems(a), s2)
  }

  // n messages, one after the other.
  function ParseItems(n: nat, s: seq<Byte>, io: Input): (t: Taken<seq<Resp>>)
    ensures t.Took? ==> |t.rest| <= |s| && |t.value| == n
    decreases |s|, 2, n
  {
    if n == 0 then Took([], s) else
    match ParseResp(s, io)
    case Failed(e) => Failed(e)
    case Took(r, s1) =>
      match ParseItems(n - 1, s1, io)
      case Failed(e) => Failed(e)
      case Took(a, s2) => Took([r] + a, s2)
  }

  // ---- commands: an array of bulks, or one line of words ----

  // The maximal runs of non-space bytes.
  function Fields(b: seq<Byte>): seq<seq<Byte>> {
    var k := IndexOf(b, SPACE);
    (if k > 0 then [b[..k]] else []) + (if k < |b| then Fields(b[k + 1..]) else [])
  }

  function Bulk(b: seq<Byte>): Resp { Resp(TYPE_BULK, Some(b), NoElems) }

  function Bulks(words: seq<seq<Byte>>): seq<Resp> { seq(|words|, i requires 0 <= i < |words| => Bulk(words[i])) }

  function ParseInline(s: seq<Byte>, io: Input): Taken<Elems> {
    match ParseText(s, io)
    case Failed(e) => Failed(e)
    case Took(b, rest) =>
      if b == [] then Took(NoElems, rest)
      else if Fields(b) == [] then Failed(BadMultiBulkLen)
      else Took(Elems(Bulks(Fields(b))), rest)
  }

  // n bulk messages; any other kind is refused as soon as it is met.
  function ParseBulks(n: nat, s: seq<Byte>, io: Input): Taken<seq<Resp>> {
    if n == 0 then Took([], s) else
    match ParseResp(s, io)
    case Failed(e) => Failed(e)
    case Took(r, s1) =>
      if r.typ != TYPE_BULK then Failed(BadMultiBulkContent) else
      match ParseBulks(n - 1, s1, io)
      case Failed(e) => Failed(e)
      case Took(a, s2) => Took([r] + a, s2)
  }

  function ParseMultiBulk(s: seq<Byte>, io: Input): Taken<Elems> {
    if s == [] then Failed(io.end)
    else if s[0] != TYPE_ARRAY then ParseInline(s, io)
    else match ParseNumber(s[1..], io)
      case Failed(e) => Failed(e)
      case Took(n, s1) =>
        if n <= 0 then Failed(BadArrayLen)
        else if n > MAX_ARRAY_LEN then Failed(ArrayTooLong)
        else match ParseBulks(n, s1, io)
          case Failed(e) => Failed(e)
          case Took(a, s2) => Took(Elems(a), s2)
  }

  // Words joined by single spaces.
  function Joined(words: seq<seq<Byte>>): seq<Byte> {
    if words == [] then [] else if |words| == 1 then words[0] else words[0] + Ascii(" ") + Joined(words[1..])
  }

  // Splitting undoes joining, for non-empty words without spaces.
  lemma {:induction false} FieldsOfJoined(words: seq<seq<Byte>>)
    requires forall i :: 0 <= i < |words| ==> words[i] != [] && SPACE !in words[i]
    ensures Fields(Joined(words)) == words
  {
    Marks();
    if |words| == 1 {
      IndexOfIs(words[0], SPACE, |words[0]|);
      assert Fields(words[0]) == [words[0][..|words[0]|]] + [];
      assert words[0][..|words[0]|] == words[0];
    } else if words != [] {
      hide Fields, IndexOf, Ascii;
      var w, tail := words[0], Joined(words[1..]);
      CutAtSpace(w, tail);
      FieldsOfJoined(words[1..]);
      FieldsStep(w + [SPACE] + tail);
      assert words == [w] + words[1..];
    }
  }

  lemma FieldsStep(b: seq<Byte>)
    ensures var k := IndexOf(b, SPACE);
            0 < k < |b| ==> Fields(b) == [b[..k]] + Fields(b[k + 1..])
  {
  }

  lemma CutAtSpace(w: seq<Byte>, tail: seq<Byte>)
    requires SPACE !in w
    ensures var j := w + [SPACE] + tail;
            IndexOf(j, SPACE) == |w| && j[..|w|] == w && j[|w| + 1..] == tail
  {
    IndexOfIs(w + [SPACE] + tail, SPACE, |w|);
  }

  // Every field is a non-empty word without spaces.
  lemma {:induction false} FieldsAreWords(b: seq<Byte>)
    ensures forall w :: w in Fields(b) ==> w != [] && SPACE !in w
  {
    var k := IndexOf(b, SPACE);
    if k < |b| {
      FieldsAreWords(b[k + 1..]);
    }
  }

  // Reading n bulks is reading n messages that all turn out to be bulks.
  lemma {:induction false} BulksAreItems(a: seq<Resp>, s: seq<Byte>, t: seq<Byte>, io: Input)
    requires ParseItems(|a|, s, io) == Took(a, t)
    requires forall i :: 0 <= i < |a| ==> a[i].typ == TYPE_BULK
    ensures ParseBulks(|a|, s, io) == Took(a, t)
  {
    hide ParseItems, ParseResp, ParseBulks;
    if a == [] {
      NoBulks(s, t, io);
    } else {
      assert forall i :: 0 <= i < |a[1..]| ==> a[1..][i] == a[i + 1];
      ItemsStep(a, s, t, io);
      var s1 := ParseResp(s, io).rest;
      BulksAreItems(a[1..], s1, t, io);
      BulksStep(a, s, s1, t, io);
    }
  }

  lemma NoBulks(s: seq<Byte>, t: seq<Byte>, io: Input)
    ensures ParseItems(0, s, io) == Took([], s) && ParseBulks(0, s, io) == Took([], s)
  {
  }

  lemma BulksStep(a: seq<Resp>, s: seq<Byte>, s1: seq<Byte>, t: seq<Byte>, io: Input)
    requires a != [] && a[0].typ == TYPE_BULK && ParseResp(s, io) == Took(a[0], s1)
    requires ParseBulks(|a| - 1, s1, io) == Took(a[1..], t)
    ensures ParseBulks(|a|, s, io) == Took(a, t)
  {
    hide ParseResp;
    assert a == [a[0]] + a[1..];
  }

  // ---- decoding undoes encoding ----

  // A length that the decoder accepts and whose line fits its buffer.
  predicate GoodLength(n: nat, max: nat, cap: nat) {
    n <= max && |Dec(n)| + 2 <= cap
  }

  // The messages that survive the wire: known types, the unused slice nil,
  // text without line feeds, lengths within the limits.
  predicate Canonical(r: Resp, cap: nat)
    decreases r, 1
  {
    if IsText(r.typ) then r.elems.NoElems? && r.value.Some? && LF !in r.value.value
    else if r.typ == TYPE_BULK then
      r.elems.NoElems? && if r.value.None? then 4 <= cap else GoodLength(|r.value.value|, MAX_BULK_LEN, cap)
    else if r.typ == TYPE_ARRAY then
      r.value.None? && match r.elems
                       case NoElems => 4 <= cap
                       case Elems(a) => GoodLength(|a|, MAX_ARRAY_LEN, cap) && AllCanonical(a, cap)
    else false
  }

  predicate AllCanonical(a: seq<Resp>, cap: nat)
    decreases a, 0
  {
    a == [] || (Canonical(a[0], cap) && AllCanonical(a[1..], cap))
  }

  // The first line of text + CRLF + t, when text holds no line feed.
  lemma LineFirst(text: seq<Byte>, t: seq<Byte>)
    requires LF !in text
    ensures IndexOf(Line(text) + t, LF) == |text| + 1
    ensures (Line(text) + t)[..|text| + 2] == Line(text) && (Line(text) + t)[|text| + 2..] == t
    ensures StripCrlf(Line(text)) == Ok(text)
  {
    IndexOfIs(Line(text) + t, LF, |text| + 1);
  }

  // A printed number is read back, and the rest left alone, exactly when its
  // line fits the buffer.
  lemma NumberRoundTrip(n: int, t: seq<Byte>, io: Input)
    ensures MIN_INT64 <= n <= MAX_INT64 && |Dec(n)| + 2 <= io.cap ==>
              ParseNumber(Line(Dec(n)) + t, io) == Took(n, t)
    ensures |Dec(n)| + 2 > io.cap ==> ParseNumber(Line(Dec(n)) + t, io) == Failed(BufferFull)
    ensures match ParseNumber(Line(Dec(n)) + t, io)
            case Took(m, rest) => m == n && rest == t
            case Failed(_) => true
  {
    LineFirst(Dec(n), t);
    var m: nat := if n < 0 then -n else n;
    ValueDigits(m);
    assert Body(Dec(n)) == Digits(m);
  }

  lemma TextRoundTrip(text: seq<Byte>, t: seq<Byte>, io: Input)
    ensures LF !in text ==> ParseText(Line(text) + t, io) == Took(text, t)
    ensures ParseText(Line(text) + t, io).Took? && ParseText(Line(text) + t, io).value == text ==> LF !in text
  {
    if LF !in text {
      LineFirst(text, t);
    } else {
      // The line ends inside the text, so it is too short to give it back.
      var s := Line(text) + t;
      assert s[..|text|] == text;
      var k := IndexOf(text, LF);
      IndexOfPrefix(text, CRLF + t, LF);
      assert s == text + (CRLF + t);
      assert IndexOf(s, LF) < |text|;
    }
  }

  lemma BulkRoundTrip(v: Option<seq<Byte>>, t: seq<Byte>, io: Input)
    ensures var good := if v.None? then 4 <= io.cap else GoodLength(|v.value|, MAX_BULK_LEN, io.cap);
            var p := ParseBulk(EmitBulk(v) + t, io);
            (good ==> p == Took(v, t)) && (p.Took? ==> good && p.rest == t)
  {
    match v
    case None =>
      assert Dec(-1) == [MINUS, ZERO + 1];
      NumberRoundTrip(-1, t, io);
      hide ParseNumber;
    case Some(b) =>
      var u := Line(b) + t;
      assert EmitBulk(v) + t == Line(Dec(|b|)) + u;
      NumberRoundTrip(|b|, u, io);
      BulkContents(b, t, io);
      hide ParseNumber, TakeFull, Dec;
  }

  lemma BulkContents(b: seq<Byte>, t: seq<Byte>, io: Input)
    ensures TakeFull(Line(b) + t, |b| + 2, io.end) == Took(Line(b), t)
    ensures |Line(b)| == |b| + 2 && Line(b)[..|b|] == b && Line(b)[|b|] == CR && Line(b)[|b| + 1] == LF
  {
    var u := Line(b) + t;
    assert u[..|b| + 2] == Line(b) && u[|b| + 2..] == t;
  }

  // Main theorem of the wire format. For every message, whatever follows it:
  // the message is canonical for this decoder if and only if the encoder prints
  // it without error and the decoder reads back that same message.
  // It then consumes exactly the message's bytes.
  lemma {:induction false} RespRoundTrip(r: Resp, t: seq<Byte>, io: Input)
    ensures var e := EmitResp(r);
            var p := ParseResp(e.bytes + t, io);
            && (Canonical(r, io.cap) ==> e.ok && p == Took(r, t))
            && (e.ok && p.Took? && p.value == r ==> Canonical(r, io.cap) && p.rest == t)
    decreases r, 1
  {
    var e := EmitResp(r);
    var body := e.bytes[1..] + t;
    assert (e.bytes + t)[1..] == body;
    if IsText(r.typ) {
      assert body == Line(Contents(r.value)) + t;
      TextRoundTrip(Contents(r.value), t, io);
    } else if r.typ == TYPE_BULK {
      assert body == EmitBulk(r.value) + t;
      BulkRoundTrip(r.value, t, io);
    } else if r.typ == TYPE_ARRAY {
      ArrayRoundTrip(r, body, t, io);
    }
  }

  lemma {:induction false} ArrayRoundTrip(r: Resp, body: seq<Byte>, t: seq<Byte>, io: Input)
    requires r.typ == TYPE_ARRAY && body == EmitResp(r).bytes[1..] + t
    ensures var p := ParseArray(body, io);
            && (Canonical(r, io.cap) ==> EmitResp(r).ok && p == Took(r.elems, t))
            && (EmitResp(r).ok && p.Took? && p.value == r.elems && r.value.None? ==>
                  Canonical(r, io.cap) && p.rest == t)
    decreases r, 0
  {
    match r.elems
    case NoElems =>
      assert body == Line(Dec(-1)) + t;
      NumberRoundTrip(-1, t, io);
    case Elems(a) =>
      var items := EmitItems(a).bytes;
      assert body == Line(Dec(|a|)) + (items + t);
      NumberRoundTrip(|a|, items + t, io);
      ItemsRoundTrip(a, t, io);
  }

  // The same for any sequence of messages: their concatenation decodes to them.
  lemma {:induction false} ItemsRoundTrip(a: seq<Resp>, t: seq<Byte>, io: Input)
    ensures var e := EmitItems(a);
            var p := ParseItems(|a|, e.bytes + t, io);
            && (AllCanonical(a, io.cap) ==> e.ok && p == Took(a, t))
            && (e.ok && p.Took? && p.value == a ==> AllCanonical(a, io.cap) && p.rest == t)
    decreases a, 0
  {
    if a == [] {
      assert EmitItems(a).bytes + t == t;
    } else {
      var head, tail := EmitResp(a[0]), EmitItems(a[1..]);
      var s := head.bytes + (tail.bytes + t);
      RespRoundTrip(a[0], tail.bytes + t, io);
      ItemsRoundTrip(a[1..], t, io);
      if head.ok {
        EmitStep(a, t);
        ItemsStep(a, s, t, io);
      }
    }
  }

  lemma EmitStep(a: seq<Resp>, t: seq<Byte>)
    requires a != [] && EmitResp(a[0]).ok
    ensures EmitItems(a).ok == EmitItems(a[1..]).ok
    ensures EmitItems(a).bytes + t == EmitResp(a[0]).bytes + (EmitItems(a[1..]).bytes + t)
  {
  }

  // Reading back a is reading back its head and then its tail.
  lemma ItemsStep(a: seq<Resp>, s: seq<Byte>, t: seq<Byte>, io: Input)
    requires a != []
    ensures var p, q := ParseResp(s, io), ParseItems(|a|, s, io);
            && (p.Took? && p.value == a[0] && ParseItems(|a| - 1, p.rest, io) == Took(a[1..], t) ==> q == Took(a, t))
            && (q.Took? && q.value == a ==>
                  p.Took? && p.value == a[0] && ParseItems(|a| - 1, p.rest, io) == Took(a[1..], q.rest))
  {
    assert a == [a[0]] + a[1..];
  }

  lemma HeadAndTail(c: Byte, a: seq<Byte>, b: seq<Byte>, t: seq<Byte>)
    ensures var s := [c] + a + b + t;
            s != [] && s[0] == c && s[1..] == a + (b + t)
  {
  }

  // ---- what is refused ----

  lemma UnknownTypeRefused(c: Byte, t: seq<Byte>, io: Input)
    requires c !in [43, 45, 58, 36, 42]
    ensures ParseResp([c] + t, io) == Failed(BadType)
  {
  }

  // Lengths below -1 and above the limits, in a line that fits the buffer.
  lemma LengthsRefused(n: Int64, t: seq<Byte>, io: Input)
    requires |Dec(n)| + 2 <= io.cap
    ensures n < -1 ==> ParseBulk(Line(Dec(n)) + t, io) == Failed(BadBulkLen)
    ensures n < -1 ==> ParseArray(Line(Dec(n)) + t, io) == Failed(BadArrayLen)
    ensures n > 536_870_912 ==> ParseBulk(Line(Dec(n)) + t, io) == Failed(BulkTooLong)
    ensures n > 1_048_576 ==> ParseArray(Line(Dec(n)) + t, io) == Failed(ArrayTooLong)
    ensures n <= 0 ==> ParseMultiBulk([42] + (Line(Dec(n)) + t), io) == Failed(BadArrayLen)
    ensures n > 1_048_576 ==> ParseMultiBulk([42] + (Line(Dec(n)) + t), io) == Failed(ArrayTooLong)
  {
    NumberRoundTrip(n, t, io);
    assert ([42 as Byte] + (Line(Dec(n)) + t))[1..] == Line(Dec(n)) + t;
    hide ParseNumber, Dec;
  }

  // A line that ends without carriage return.
  lemma BareLineRefused(text: seq<Byte>, t: seq<Byte>, io: Input)
    requires LF !in text && (text == [] || text[|text| - 1] != 13)
    ensures ParseText(text + [10] + t, io) == Failed(BadCrlf)
  {
    IndexOfIs(text + [10] + t, LF, |text|);
    assert (text + [10] + t)[..|text| + 1] == text + [10];
    hide IndexOf;
  }

  // A bulk that is not followed by a line end, or not there in full.
  lemma BulkEndRefused(b: seq<Byte>, x: Byte, y: Byte, t: seq<Byte>, io: Input)
    requires GoodLength(|b|, MAX_BULK_LEN, io.cap) && (x != 13 || y != 10)
    ensures ParseBulk(Line(Dec(|b|)) + (b + [x, y] + t), io) == Failed(BadCrlf)
  {
    var u := b + [x, y] + t;
    NumberRoundTrip(|b|, u, io);
    assert u[..|b| + 2] == b + [x, y];
    hide ParseNumber, Dec;
  }

  lemma ShortBulkRefused(n: nat, u: seq<Byte>, io: Input)
    requires GoodLength(n, MAX_BULK_LEN, io.cap) && |u| < n + 2
    ensures ParseBulk(Line(Dec(n)) + u, io) == Failed(if io.end.Eof? && u != [] then UnexpectedEof else io.end)
  {
    NumberRoundTrip(n, u, io);
    hide ParseNumber, Dec;
  }

  // A command line of spaces only.
  lemma BlankLineRefused(k: nat, t: seq<Byte>, io: Input)
    requires k > 0
    ensures ParseMultiBulk(Line(seq(k, _ => 32)) + t, io) == Failed(BadMultiBulkLen)
  {
    var text: seq<Byte> := seq(k, _ => 32);
    TextRoundTrip(text, t, io);
    NoFields(k);
    assert (Line(text) + t)[0] == 32;
    hide ParseText, Fields;
  }

  lemma {:induction false} NoFields(k: nat)
    ensures Fields(seq(k, _ => 32)) == []
  {
    if k > 0 {
      var b: seq<Byte> := seq(k, _ => 32);
      IndexOfIs(b, SPACE, 0);
      assert b[1..] == seq(k - 1, _ => 32);
      NoFields(k - 1);
    }
  }

  // An array of bulks is read back by the command reader too.
  lemma MultiBulkRoundTrip(a: seq<Resp>, t: seq<Byte>, io: Input)
    requires a != [] && forall i :: 0 <= i < |a| ==> a[i].typ == TYPE_BULK
    requires GoodLength(|a|, MAX_ARRAY_LEN, io.cap) && AllCanonical(a, io.cap)
    ensures ParseMultiBulk([TYPE_ARRAY] + Line(Dec(|a|)) + EmitItems(a).bytes + t, io) == Took(Elems(a), t)
  {
    hide ParseItems, ParseBulks, ParseNumber, EmitItems, Dec, AllCanonical;
    var rest := EmitItems(a).bytes + t;
    HeadAndTail(TYPE_ARRAY, Line(Dec(|a|)), EmitItems(a).bytes, t);
    NumberRoundTrip(|a|, rest, io);
    ItemsRoundTrip(a, t, io);
    BulksAreItems(a, rest, t, io);
  }

  // A line of words, with single spaces between them, is read as these words.
  lemma InlineRoundTrip(words: seq<seq<Byte>>, t: seq<Byte>, io: Input)
    requires forall i :: 0 <= i < |words| ==> words[i] != [] && SPACE !in words[i] && LF !in words[i]
    requires words != [] ==> words[0][0] != TYPE_ARRAY
    ensures ParseMultiBulk(Line(Joined(words)) + t, io)
            == Took(if words == [] then NoElems else Elems(Bulks(words)), t)
  {
    var text := Joined(words);
    JoinedBytes(words);
    FieldsOfJoined(words);
    TextRoundTrip(text, t, io);
    assert (Line(text) + t)[0] == if words == [] then CR else words[0][0];
    hide ParseText, Fields, Joined;
  }

  lemma {:induction false} JoinedBytes(words: seq<seq<Byte>>)
    requires forall i :: 0 <= i < |words| ==> words[i] != [] && LF !in words[i]
    ensures LF !in Joined(words)
    ensures if words == [] then Joined(words) == [] else Joined(words) != [] && Joined(words)[0] == words[0][0]
  {
    if |words| > 1 {
      JoinedBytes(words[1..]);
    }
  }

  // Eleven bytes hold every length line there is: the limits alone decide.
  lemma {:induction false} ElevenIsEnough(n: nat, max: nat, cap: nat)
    requires max == 536_870_912 || max == 1_048_576
    requires cap >= 11
    ensures GoodLength(n, max, cap) <==> n <= max
  {
    PowNine();
    if n <= max {
      DigitsWidth(n, 9);
    }
  }
}
