// The slot of a key: utils/rediscluster/crc16.go, and hash in cluster.go.
//
// The checksum is the one of the Redis cluster specification, appendix A: the
// remainder of the message, followed by sixteen zero bits, on division by
// x^16 + x^12 + x^5 + 1 over the integers modulo 2.
module Slots {
  import opened Bytes

  type Key = seq<bv8>

  const OPEN: bv8 := 0x7B
  const CLOSE: bv8 := 0x7D

  // ---- sixteen coefficients in a word ----

  const POLY: bv16 := 0x1021

  function Xor(a: bv16, b: bv16): bv16 { a ^ b }

  function Shl(a: bv16): bv16 { a << 1 }

  predicate Top(a: bv16) { a & 0x8000 != 0 }

  lemma XorComm(a: bv16, b: bv16)
    ensures Xor(a, b) == Xor(b, a)
  {
  }

  lemma XorAssoc(a: bv16, b: bv16, c: bv16)
    ensures Xor(Xor(a, b), c) == Xor(a, Xor(b, c))
  {
  }

  lemma XorSelf(a: bv16)
    ensures Xor(a, a) == 0 && Xor(a, 0) == a
  {
  }

  lemma XorOne(p: bv16, q: bv16, k: bv16)
    ensures Xor(Xor(p, k), q) == Xor(Xor(p, q), k)
  {
    hide Xor;
    XorAssoc(p, k, q);
    XorAssoc(p, q, k);
    XorComm(k, q);
  }

  lemma XorBoth(p: bv16, q: bv16, k: bv16)
    ensures Xor(Xor(p, k), Xor(q, k)) == Xor(p, q)
  {
    hide Xor;
    XorOne(p, Xor(q, k), k);
    XorAssoc(p, Xor(q, k), k);
    XorAssoc(q, k, k);
    XorSelf(k);
    XorSelf(q);
  }

  lemma ShlXor(a: bv16, b: bv16)
    ensures Shl(Xor(a, b)) == Xor(Shl(a), Shl(b))
  {
  }

  lemma TopSame(a: bv16, b: bv16)
    requires a & 0x8000 == b & 0x8000
    ensures (a ^ b) & 0x8000 == 0
  {
  }

  lemma TopDiffers(a: bv16, b: bv16)
    requires a & 0x8000 == 0 && b & 0x8000 != 0
    ensures (a ^ b) & 0x8000 != 0
  {
  }

  lemma TopXor(a: bv16, b: bv16)
    ensures Top(Xor(a, b)) <==> Top(a) != Top(b)
  {
    assert a & 0x8000 == 0 || a & 0x8000 == 0x8000;
    assert b & 0x8000 == 0 || b & 0x8000 == 0x8000;
    if a & 0x8000 == b & 0x8000 {
      TopSame(a, b);
    } else if a & 0x8000 == 0 {
      TopDiffers(a, b);
    } else {
      TopDiffers(b, a);
      XorComm(a, b);
    }
  }

  // ---- long division, bit by bit ----

  // Bring down a zero: multiply the remainder by x and reduce it.
  function TimesX(r: bv16): bv16 { if Top(r) then Xor(Shl(r), POLY) else Shl(r) }

  // Bring down the next bit of the message.
  function Down(r: bv16, bit: bool): bv16 { Xor(TimesX(r), if bit then 1 else 0) }

  function Divide(r: bv16, bits: seq<bool>): bv16
    decreases |bits|
  {
    if bits == [] then r else Divide(Down(r, bits[0]), bits[1..])
  }

  function BitsOf(b: bv8): seq<bool> {
    [b & 0x80 != 0, b & 0x40 != 0, b & 0x20 != 0, b & 0x10 != 0,
     b & 0x08 != 0, b & 0x04 != 0, b & 0x02 != 0, b & 0x01 != 0]
  }

  function Message(s: Key): seq<bool> {
    if s == [] then [] else BitsOf(s[0]) + Message(s[1..])
  }

  function Zeros(n: nat): (z: seq<bool>)
    ensures |z| == n && forall i :: 0 <= i < n ==> !z[i]
  {
    if n == 0 then [] else [false] + Zeros(n - 1)
  }

  function Crc(s: Key): bv16 { Divide(0, Message(s) + Zeros(16)) }

  // ---- the byte-wise form ----

  function Times8(r: bv16): bv16 {
    TimesX(TimesX(TimesX(TimesX(TimesX(TimesX(TimesX(TimesX(r))))))))
  }

  // The rows of crc16tab, sixteen entries each.
  function Row(r: bv16): (row: seq<bv16>)
    ensures |row| == 16
  {
    match r
    case 0 =>
      [0x0000, 0x1021, 0x2042, 0x3063, 0x4084, 0x50a5, 0x60c6, 0x70e7,
       0x8108, 0x9129, 0xa14a, 0xb16b, 0xc18c, 0xd1ad, 0xe1ce, 0xf1ef]
    case 1 =>
      [0x1231, 0x0210, 0x3273, 0x2252, 0x52b5, 0x4294, 0x72f7, 0x62d6,
       0x9339, 0x8318, 0xb37b, 0xa35a, 0xd3bd, 0xc39c, 0xf3ff, 0xe3de]
    case 2 =>
      [0x2462, 0x3443, 0x0420, 0x1401, 0x64e6, 0x74c7, 0x44a4, 0x5485,
       0xa56a, 0xb54b, 0x8528, 0x9509, 0xe5ee, 0xf5cf, 0xc5ac, 0xd58d]
    case 3 =>
      [0x3653, 0x2672, 0x1611, 0x0630, 0x76d7, 0x66f6, 0x5695, 0x46b4,
       0xb75b, 0xa77a, 0x9719, 0x8738, 0xf7df, 0xe7fe, 0xd79d, 0xc7bc]
    case 4 =>
      [0x48c4, 0x58e5, 0x6886, 0x78a7, 0x0840, 0x1861, 0x2802, 0x3823,
       0xc9cc, 0xd9ed, 0xe98e, 0xf9af, 0x8948, 0x9969, 0xa90a, 0xb92b]
    case 5 =>
      [0x5af5, 0x4ad4, 0x7ab7, 0x6a96, 0x1a71, 0x0a50, 0x3a33, 0x2a12,
       0xdbfd, 0xcbdc, 0xfbbf, 0xeb9e, 0x9b79, 0x8b58, 0xbb3b, 0xab1a]
    case 6 =>
      [0x6ca6, 0x7c87, 0x4ce4, 0x5cc5, 0x2c22, 0x3c03, 0x0c60, 0x1c41,
       0xedae, 0xfd8f, 0xcdec, 0xddcd, 0xad2a, 0xbd0b, 0x8d68, 0x9d49]
    case 7 =>
      [0x7e97, 0x6eb6, 0x5ed5, 0x4ef4, 0x3e13, 0x2e32, 0x1e51, 0x0e70,
       0xff9f, 0xefbe, 0xdfdd, 0xcffc, 0xbf1b, 0xaf3a, 0x9f59, 0x8f78]
    case 8 =>
      [0x9188, 0x81a9, 0xb1ca, 0xa1eb, 0xd10c, 0xc12d, 0xf14e, 0xe16f,
       0x1080, 0x00a1, 0x30c2, 0x20e3, 0x5004, 0x4025, 0x7046, 0x6067]
    case 9 =>
      [0x83b9, 0x9398, 0xa3fb, 0xb3da, 0xc33d, 0xd31c, 0xe37f, 0xf35e,
       0x02b1, 0x1290, 0x22f3, 0x32d2, 0x4235, 0x5214, 0x6277, 0x7256]
    case 10 =>
      [0xb5ea, 0xa5cb, 0x95a8, 0x8589, 0xf56e, 0xe54f, 0xd52c, 0xc50d,
       0x34e2, 0x24c3, 0x14a0, 0x0481, 0x7466, 0x6447, 0x5424, 0x4405]
    case 11 =>
      [0xa7db, 0xb7fa, 0x8799, 0x97b8, 0xe75f, 0xf77e, 0xc71d, 0xd73c,
       0x26d3, 0x36f2, 0x0691, 0x16b0, 0x6657, 0x7676, 0x4615, 0x5634]
    case 12 =>
      [0xd94c, 0xc96d, 0xf90e, 0xe92f, 0x99c8, 0x89e9, 0xb98a, 0xa9ab,
       0x5844, 0x4865, 0x7806, 0x6827, 0x18c0, 0x08e1, 0x3882, 0x28a3]
    case 13 =>
      [0xcb7d, 0xdb5c, 0xeb3f, 0xfb1e, 0x8bf9, 0x9bd8, 0xabbb, 0xbb9a,
       0x4a75, 0x5a54, 0x6a37, 0x7a16, 0x0af1, 0x1ad0, 0x2ab3, 0x3a92]
    case 14 =>
      [0xfd2e, 0xed0f, 0xdd6c, 0xcd4d, 0xbdaa, 0xad8b, 0x9de8, 0x8dc9,
       0x7c26, 0x6c07, 0x5c64, 0x4c45, 0x3ca2, 0x2c83, 0x1ce0, 0x0cc1]
    case _ =>
      [0xef1f, 0xff3e, 0xcf5d, 0xdf7c, 0xaf9b, 0xbfba, 0x8fd9, 0x9ff8,
       0x6e17, 0x7e36, 0x4e55, 0x5e74, 0x2e93, 0x3eb2, 0x0ed1, 0x1ef0]
  }

  function Table(i: bv16): bv16
    requires i < 256
  {
    Row(i >> 4)[(i & 15) as int]
  }

  lemma Rows0(r: bv16, j: bv16)
    requires 0 <= r <= 1 && j < 16
    ensures Row(r)[j as int] == Times8((r << 12) ^ (j << 8))
  {
  }

  lemma Rows1(r: bv16, j: bv16)
    requires 2 <= r <= 3 && j < 16
    ensures Row(r)[j as int] == Times8((r << 12) ^ (j << 8))
  {
  }

  lemma Rows2(r: bv16, j: bv16)
    requires 4 <= r <= 5 && j < 16
    ensures Row(r)[j as int] == Times8((r << 12) ^ (j << 8))
  {
  }

  lemma Rows3(r: bv16, j: bv16)
    requires 6 <= r <= 7 && j < 16
    ensures Row(r)[j as int] == Times8((r << 12) ^ (j << 8))
  {
  }

  lemma Rows4(r: bv16, j: bv16)
    requires 8 <= r <= 9 && j < 16
    ensures Row(r)[j as int] == Times8((r << 12) ^ (j << 8))
  {
  }

  lemma Rows5(r: bv16, j: bv16)
    requires 10 <= r <= 11 && j < 16
    ensures Row(r)[j as int] == Times8((r << 12) ^ (j << 8))
  {
  }

  lemma Rows6(r: bv16, j: bv16)
    requires 12 <= r <= 13 && j < 16
    ensures Row(r)[j as int] == Times8((r << 12) ^ (j << 8))
  {
  }

  lemma Rows7(r: bv16, j: bv16)
    requires 14 <= r <= 15 && j < 16
    ensures Row(r)[j as int] == Times8((r << 12) ^ (j << 8))
  {
  }

  // Every table entry is the remainder it stands for.
  lemma TableIsDivision(i: bv16)
    requires i < 256
    ensures Table(i) == Times8(i << 8)
  {
    hide Times8, Row;
    var r, j := i >> 4, i & 15;
    Nibbles(i, r, j);
    if r <= 1 { Rows0(r, j); }
    else if r <= 3 { Rows1(r, j); }
    else if r <= 5 { Rows2(r, j); }
    else if r <= 7 { Rows3(r, j); }
    else if r <= 9 { Rows4(r, j); }
    else if r <= 11 { Rows5(r, j); }
    else if r <= 13 { Rows6(r, j); }
    else { Rows7(r, j); }
  }

  lemma Nibbles(i: bv16, r: bv16, j: bv16)
    requires i < 256 && r == i >> 4 && j == i & 15
    ensures r < 16 && j < 16 && i << 8 == (r << 12) ^ (j << 8)
  {
  }

  lemma TimesXLinear(a: bv16, b: bv16)
    ensures TimesX(Xor(a, b)) == Xor(TimesX(a), TimesX(b))
  {
    TopXor(a, b);
    ShlXor(a, b);
    XorOne(Shl(a), Shl(b), POLY);
    XorBoth(Shl(a), Shl(b), POLY);
    XorAssoc(Shl(a), Shl(b), POLY);
    hide Top, Xor, Shl;
  }

  lemma Times8Linear(a: bv16, b: bv16)
    ensures Times8(Xor(a, b)) == Xor(Times8(a), Times8(b))
  {
    hide TimesX, Xor;
    var a1, b1 := TimesX(a), TimesX(b); var a2, b2 := TimesX(a1), TimesX(b1);
    var a3, b3 := TimesX(a2), TimesX(b2); var a4, b4 := TimesX(a3), TimesX(b3);
    var a5, b5 := TimesX(a4), TimesX(b4); var a6, b6 := TimesX(a5), TimesX(b5);
    var a7, b7 := TimesX(a6), TimesX(b6);
    TimesXLinear(a, b); TimesXLinear(a1, b1); TimesXLinear(a2, b2); TimesXLinear(a3, b3);
    TimesXLinear(a4, b4); TimesXLinear(a5, b5); TimesXLinear(a6, b6); TimesXLinear(a7, b7);
  }

  // Without a top bit there is nothing to reduce.
  lemma TimesXLow(r: bv16)
    requires r < 0x8000
    ensures TimesX(r) == r << 1
  {
    assert r & 0x8000 == 0;
  }

  lemma Times8Low(r: bv16)
    requires r < 0x100
    ensures Times8(r) == r << 8
  {
    hide TimesX;
    ShiftsLow(r);
    TimesXLow(r); TimesXLow(r << 1); TimesXLow(r << 2); TimesXLow(r << 3);
    TimesXLow(r << 4); TimesXLow(r << 5); TimesXLow(r << 6); TimesXLow(r << 7);
  }

  lemma ShiftsLow(r: bv16)
    requires r < 0x100
    ensures r < 0x8000 && r << 1 < 0x8000 && r << 2 < 0x8000 && r << 3 < 0x8000 && r << 4 < 0x8000
    ensures r << 5 < 0x8000 && r << 6 < 0x8000 && r << 7 < 0x8000
    ensures (r << 1) << 1 == r << 2 && (r << 2) << 1 == r << 3 && (r << 3) << 1 == r << 4
    ensures (r << 4) << 1 == r << 5 && (r << 5) << 1 == r << 6 && (r << 6) << 1 == r << 7 && (r << 7) << 1 == r << 8
  {
  }

  // One turn of crc16's loop ...
  function Turn(crc: bv16, n: bv16): bv16 {
    (crc << 8) ^ Table(((crc >> 8) ^ n) & 0xFF)
  }

  // ... divides by eight more bits: the high byte is reduced through the table,
  // the low byte moves up.
  lemma TurnDivides(crc: bv16, n: bv16)
    requires n < 256
    ensures Turn(crc, n) == Times8(Xor(crc, n << 8))
  {
    var i := ((crc >> 8) ^ n) & 0xFF;
    var low := crc & 0xFF;
    Ranges(crc, n);
    HighAndLow(crc, n);
    hide Times8, Table, Xor;
    TableIsDivision(i);
    Times8Linear(i << 8, low);
    Times8Low(low);
    XorComm(Times8(i << 8), low << 8);
    TurnIsXor(crc, n);
  }

  lemma TurnIsXor(crc: bv16, n: bv16)
    ensures Turn(crc, n) == Xor(crc << 8, Table(((crc >> 8) ^ n) & 0xFF))
  {
    hide Table;
  }

  lemma Ranges(crc: bv16, n: bv16)
    ensures ((crc >> 8) ^ n) & 0xFF < 256 && crc & 0xFF < 0x100 && crc << 8 == (crc & 0xFF) << 8
  {
  }

  lemma HighAndLow(crc: bv16, n: bv16)
    requires n < 256
    ensures Xor(crc, n << 8) == Xor((((crc >> 8) ^ n) & 0xFF) << 8, crc & 0xFF)
  {
    Halves(crc);
    HighPart(crc, n);
    hide Xor;
    XorOne(crc & 0xFF00, n << 8, crc & 0xFF);
  }

  lemma Halves(crc: bv16)
    ensures crc == Xor(crc & 0xFF00, crc & 0xFF)
  {
  }

  lemma HighPart(crc: bv16, n: bv16)
    requires n < 256
    ensures (((crc >> 8) ^ n) & 0xFF) << 8 == Xor(crc & 0xFF00, n << 8)
  {
  }

  function Turns(crc: bv16, s: Key): bv16
    decreases |s|
  {
    if s == [] then crc else Turns(Turn(crc, s[0] as bv16), s[1..])
  }

  // ---- the two agree ----

  function Times16(r: bv16): bv16 { Times8(Times8(r)) }

  lemma SixteenThenOne(r: bv16)
    ensures Times16(TimesX(r)) == TimesX(Times16(r))
  {
    hide TimesX;
  }

  // Division that adds each bit at the top.
  function Early(c: bv16, bit: bool): bv16 { TimesX(Xor(c, if bit then 0x8000 else 0)) }

  function DivideEarly(c: bv16, bits: seq<bool>): bv16
    decreases |bits|
  {
    if bits == [] then c else DivideEarly(Early(c, bits[0]), bits[1..])
  }

  // Sixteen zeros later, bringing a bit down at the bottom has become adding it
  // at the top.
  lemma LateBit(r: bv16, bit: bool)
    ensures Times16(Down(r, bit)) == Early(Times16(r), bit)
  {
    hide Times8, TimesX, Xor;
    var low: bv16, top: bv16 := if bit then 1 else 0, if bit then 0x8000 else 0;
    LateOne(low, top);
    Times8Linear(TimesX(r), low);
    Times8Linear(Times8(TimesX(r)), Times8(low));
    TimesXLinear(Times16(r), top);
    SixteenThenOne(r);
  }

  lemma LateOne(low: bv16, top: bv16)
    requires (low == 1 && top == 0x8000) || (low == 0 && top == 0)
    ensures Times16(low) == TimesX(top)
  {
    assert TimesX(0x8000) == 0x1021;
    assert Times8(1) == 0x100;
    assert Times8(0x100) == 0x1021;
    assert Times8(0) == 0 && TimesX(0) == 0;
  }

  lemma {:induction false} LateIsEarly(r: bv16, bits: seq<bool>)
    ensures Times16(Divide(r, bits)) == DivideEarly(Times16(r), bits)
    decreases |bits|
  {
    hide Down, Early, Times16;
    if bits != [] {
      LateBit(r, bits[0]);
      LateIsEarly(Down(r, bits[0]), bits[1..]);
    }
  }

  lemma {:induction false} DivideAppend(r: bv16, a: seq<bool>, b: seq<bool>)
    ensures Divide(r, a + b) == Divide(Divide(r, a), b)
    decreases |a|
  {
    hide Down;
    if a == [] {
      assert a + b == b;
    } else {
      assert (a + b)[1..] == a[1..] + b;
      DivideAppend(Down(r, a[0]), a[1..], b);
    }
  }

  lemma DivideZero(r: bv16, n: nat)
    requires n >= 1
    ensures Divide(r, Zeros(n)) == Divide(TimesX(r), Zeros(n - 1))
  {
    hide TimesX, Xor;
    XorSelf(TimesX(r));
    assert Zeros(n)[1..] == Zeros(n - 1);
  }

  lemma EightZeros(r: bv16, n: nat)
    requires n >= 8
    ensures Divide(r, Zeros(n)) == Divide(Times8(r), Zeros(n - 8))
  {
    hide TimesX, Divide;
    var r1 := TimesX(r); var r2 := TimesX(r1); var r3 := TimesX(r2); var r4 := TimesX(r3);
    var r5 := TimesX(r4); var r6 := TimesX(r5); var r7 := TimesX(r6);
    DivideZero(r, n); DivideZero(r1, n - 1); DivideZero(r2, n - 2); DivideZero(r3, n - 3);
    DivideZero(r4, n - 4); DivideZero(r5, n - 5); DivideZero(r6, n - 6); DivideZero(r7, n - 7);
  }

  // The top bit of m goes in now, the others later.
  lemma OneBit(c: bv16, m: bv16)
    ensures TimesX(Xor(c, m)) == Xor(Early(c, m & 0x8000 != 0), m << 1)
  {
    var top, low := m & 0x8000, m & 0x7FFF;
    TopBit(m);
    LowBits(m);
    TopAndLow(m);
    hide TimesX, Xor;
    TimesXLow(low);
    XorAssoc(c, top, low);
    TimesXLinear(Xor(c, top), low);
  }

  lemma TopBit(m: bv16)
    ensures m & 0x8000 == if m & 0x8000 != 0 then 0x8000 else 0
  {
  }

  lemma LowBits(m: bv16)
    ensures m & 0x7FFF < 0x8000 && (m & 0x7FFF) << 1 == m << 1
  {
  }

  lemma TopAndLow(m: bv16)
    ensures m == Xor(m & 0x8000, m & 0x7FFF)
  {
  }

  // Dividing by eight bits, from the top.
  function Early8(c: bv16, s: seq<bool>): bv16
    requires |s| == 8
  {
    Early(Early(Early(Early(Early(Early(Early(Early(c, s[0]), s[1]), s[2]), s[3]), s[4]), s[5]), s[6]), s[7])
  }

  lemma Early8IsTimes8(c: bv16, b: bv8)
    ensures Early8(c, BitsOf(b)) == Times8(Xor(c, b as bv16 << 8))
  {
    hide TimesX, Early, Xor;
    var m := b as bv16 << 8;
    BitsAt(b, m);
    var c1 := Early(c, b & 0x80 != 0); var c2 := Early(c1, b & 0x40 != 0);
    var c3 := Early(c2, b & 0x20 != 0); var c4 := Early(c3, b & 0x10 != 0);
    var c5 := Early(c4, b & 0x08 != 0); var c6 := Early(c5, b & 0x04 != 0);
    var c7 := Early(c6, b & 0x02 != 0); var c8 := Early(c7, b & 0x01 != 0);
    OneBit(c, m); OneBit(c1, m << 1); OneBit(c2, m << 2); OneBit(c3, m << 3);
    OneBit(c4, m << 4); OneBit(c5, m << 5); OneBit(c6, m << 6); OneBit(c7, m << 7);
    XorSelf(c8);
  }

  lemma BitsAt(b: bv8, m: bv16)
    requires m == b as bv16 << 8
    ensures m & 0x8000 != 0 <==> b & 0x80 != 0
    ensures (m << 1) & 0x8000 != 0 <==> b & 0x40 != 0
    ensures (m << 2) & 0x8000 != 0 <==> b & 0x20 != 0
    ensures (m << 3) & 0x8000 != 0 <==> b & 0x10 != 0
    ensures (m << 4) & 0x8000 != 0 <==> b & 0x08 != 0
    ensures (m << 5) & 0x8000 != 0 <==> b & 0x04 != 0
    ensures (m << 6) & 0x8000 != 0 <==> b & 0x02 != 0
    ensures (m << 7) & 0x8000 != 0 <==> b & 0x01 != 0
    ensures (m << 1) << 1 == m << 2 && (m << 2) << 1 == m << 3 && (m << 3) << 1 == m << 4
    ensures (m << 4) << 1 == m << 5 && (m << 5) << 1 == m << 6 && (m << 6) << 1 == m << 7 && (m << 7) << 1 == 0
  {
  }

  lemma EarlyStep(c: bv16, bits: seq<bool>, i: nat, rest: seq<bool>)
    requires i < |bits|
    ensures DivideEarly(c, bits[i..] + rest) == DivideEarly(Early(c, bits[i]), bits[i + 1..] + rest)
  {
    hide Early;
    assert (bits[i..] + rest)[1..] == bits[i + 1..] + rest;
  }

  // One byte of early division is one turn of the loop.
  lemma ByteEarly(c: bv16, b: bv8, rest: seq<bool>)
    ensures DivideEarly(c, BitsOf(b) + rest) == DivideEarly(Turn(c, b as bv16), rest)
  {
    ByteFits(b);
    Early8IsTimes8(c, b);
    TurnDivides(c, b as bv16);
    hide Early8, DivideEarly, Times8, Turn, Xor;
    EightEarly(c, BitsOf(b), rest);
  }

  lemma EightEarly(c: bv16, s: seq<bool>, rest: seq<bool>)
    requires |s| == 8
    ensures DivideEarly(c, s + rest) == DivideEarly(Early8(c, s), rest)
  {
    hide Early, DivideEarly;
    assert s[0..] == s && s[8..] + rest == rest;
    var c1 := Early(c, s[0]); var c2 := Early(c1, s[1]); var c3 := Early(c2, s[2]); var c4 := Early(c3, s[3]);
    var c5 := Early(c4, s[4]); var c6 := Early(c5, s[5]); var c7 := Early(c6, s[6]);
    EarlyStep(c, s, 0, rest); EarlyStep(c1, s, 1, rest); EarlyStep(c2, s, 2, rest); EarlyStep(c3, s, 3, rest);
    EarlyStep(c4, s, 4, rest); EarlyStep(c5, s, 5, rest); EarlyStep(c6, s, 6, rest); EarlyStep(c7, s, 7, rest);
  }

  lemma ByteFits(b: bv8)
    ensures b as bv16 < 256
  {
  }

  lemma {:induction false} TurnsAreEarly(c: bv16, s: Key)
    ensures Turns(c, s) == DivideEarly(c, Message(s))
    decreases |s|
  {
    hide Turn, Early, BitsOf;
    if s != [] {
      ByteEarly(c, s[0], Message(s[1..]));
      TurnsAreEarly(Turn(c, s[0] as bv16), s[1..]);
    }
  }

  // The table-driven loop computes the remainder.
  lemma TurnsAreCrc(s: Key)
    ensures Turns(0, s) == Crc(s)
  {
    hide Turns, Zeros, DivideEarly, Message, Times8;
    LateOne(0, 0);
    DivideSixteen(Divide(0, Message(s)));
    DivideAppend(0, Message(s), Zeros(16));
    LateIsEarly(0, Message(s));
    TurnsAreEarly(0, s);
  }

  lemma DivideSixteen(r: bv16)
    ensures Divide(r, Zeros(16)) == Times16(r)
  {
    hide Times8;
    EightZeros(r, 16);
    EightZeros(Times8(r), 8);
    assert Zeros(0) == [];
  }

  // ---- Go's iteration over a string: runes, not bytes ----

  predicate Cont(b: bv8) { 0x80 <= b <= 0xBF }

  predicate Two(a: bv8, b: bv8) { 0xC2 <= a <= 0xDF && Cont(b) }

  predicate Three(a: bv8, b: bv8, c: bv8) {
    0xE0 <= a <= 0xEF && Cont(b) && Cont(c) && (a == 0xE0 ==> b >= 0xA0) && (a == 0xED ==> b <= 0x9F)
  }

  predicate Four(a: bv8, b: bv8, c: bv8, d: bv8) {
    0xF0 <= a <= 0xF4 && Cont(b) && Cont(c) && Cont(d) && (a == 0xF0 ==> b >= 0x90) && (a == 0xF4 ==> b <= 0x8F)
  }

  function Join2(a: bv8, b: bv8): bv32 { ((a & 0x1F) as bv32 << 6) | (b & 0x3F) as bv32 }

  function Join3(a: bv8, b: bv8, c: bv8): bv32 {
    ((a & 0x0F) as bv32 << 12) | ((b & 0x3F) as bv32 << 6) | (c & 0x3F) as bv32
  }

  function Join4(a: bv8, b: bv8, c: bv8, d: bv8): bv32 {
    ((a & 0x07) as bv32 << 18) | ((b & 0x3F) as bv32 << 12) | ((c & 0x3F) as bv32 << 6) | (d & 0x3F) as bv32
  }

  // The length in bytes of the UTF-8 sequence at the head of s (RFC 3629,
  // section 4), or 1 where there is none.
  function RuneSize(s: Key): (n: nat)
    requires s != []
    ensures 1 <= n <= |s|
  {
    if |s| >= 2 && Two(s[0], s[1]) then 2
    else if |s| >= 3 && Three(s[0], s[1], s[2]) then 3
    else if |s| >= 4 && Four(s[0], s[1], s[2], s[3]) then 4
    else 1
  }

  // The code point at the head of s, or U+FFFD where the bytes are no UTF-8.
  function Rune(s: Key): bv32
    requires s != []
  {
    match RuneSize(s)
    case 1 => if s[0] < 0x80 then s[0] as bv32 else 0xFFFD
    case 2 => Join2(s[0], s[1])
    case 3 => Join3(s[0], s[1], s[2])
    case _ =>
      assert RuneSize(s) == 4;
      Join4(s[0], s[1], s[2], s[3])
  }

  // Unicode scalar values and their UTF-8 (section 3 of RFC 3629).
  predicate Scalar(c: bv32) { c < 0xD800 || 0xE000 <= c <= 0x10FFFF }

  function Low(c: bv32): bv8 { (c & 0xFF) as bv8 }

  function Lead2(c: bv32): bv8 { 0xC0 | Low(c >> 6) }

  function Lead3(c: bv32): bv8 { 0xE0 | Low(c >> 12) }

  function Lead4(c: bv32): bv8 { 0xF0 | Low(c >> 18) }

  function Tail0(c: bv32): bv8 { 0x80 | Low(c & 0x3F) }

  function Tail6(c: bv32): bv8 { 0x80 | Low((c >> 6) & 0x3F) }

  function Tail12(c: bv32): bv8 { 0x80 | Low((c >> 12) & 0x3F) }

  function Utf8(c: bv32): (s: Key)
    ensures s != []
  {
    if c < 0x80 then [Low(c)]
    else if c < 0x800 then [Lead2(c), Tail0(c)]
    else if c < 0x1_0000 then [Lead3(c), Tail6(c), Tail0(c)]
    else [Lead4(c), Tail12(c), Tail6(c), Tail0(c)]
  }

  lemma One(c: bv32)
    requires c < 0x80
    ensures Low(c) < 0x80 && Low(c) as bv32 == c
  {
  }

  lemma Cut2(c: bv32)
    requires 0x80 <= c < 0x800
    ensures var a, b := Lead2(c), Tail0(c);
            Two(a, b) && Join2(a, b) == c
  {
  }

  lemma Cut3Bytes(c: bv32)
    requires 0x800 <= c < 0xD800 || 0xE000 <= c < 0x1_0000
    ensures Three(Lead3(c), Tail6(c), Tail0(c))
  {
  }

  lemma Cut3Join(c: bv32)
    requires c <= 0xFFFF
    ensures Join3(Lead3(c), Tail6(c), Tail0(c)) == c
  {
  }

  lemma Cut4Bytes(c: bv32)
    requires 0x1_0000 <= c <= 0x10FFFF
    ensures Four(Lead4(c), Tail12(c), Tail6(c), Tail0(c))
  {
  }

  lemma Cut4Join(c: bv32)
    requires c <= 0x1F_FFFF
    ensures Join4(Lead4(c), Tail12(c), Tail6(c), Tail0(c)) == c
  {
  }

  lemma Paste2(a: bv8, b: bv8)
    requires Two(a, b)
    ensures var c := Join2(a, b);
            0x80 <= c < 0x800 && Lead2(c) == a && Tail0(c) == b
  {
  }

  lemma Paste3(a: bv8, b: bv8, d: bv8)
    requires Three(a, b, d)
    ensures var c := Join3(a, b, d);
            && (0x800 <= c < 0xD800 || 0xE000 <= c < 0x1_0000)
            && Lead3(c) == a && Tail6(c) == b && Tail0(c) == d
  {
  }

  lemma Paste4(a: bv8, b: bv8, d: bv8, e: bv8)
    requires Four(a, b, d, e)
    ensures var c := Join4(a, b, d, e);
            && 0x1_0000 <= c <= 0x10FFFF && Lead4(c) == a
            && Tail12(c) == b && Tail6(c) == d && Tail0(c) == e
  {
  }

  // The first byte tells the lengths apart.
  lemma SizeIs(s: Key)
    requires s != []
    ensures RuneSize(s) == 2 <==> |s| >= 2 && Two(s[0], s[1])
    ensures RuneSize(s) == 3 <==> |s| >= 3 && Three(s[0], s[1], s[2])
    ensures RuneSize(s) == 4 <==> |s| >= 4 && Four(s[0], s[1], s[2], s[3])
    ensures s[0] < 0x80 ==> RuneSize(s) == 1
  {
  }

  // The rune at the head of a text that starts with the UTF-8 of c is c ...
  lemma RuneOfUtf8(c: bv32, rest: Key)
    requires Scalar(c)
    ensures RuneSize(Utf8(c) + rest) == |Utf8(c)| && Rune(Utf8(c) + rest) == c
  {
    var s := Utf8(c) + rest;
    SizeIs(s);
    if c < 0x80 {
      One(c);
    } else if c < 0x800 {
      Cut2(c);
    } else if c < 0x1_0000 {
      Cut3Bytes(c);
      Cut3Join(c);
    } else {
      Cut4Bytes(c);
      Cut4Join(c);
    }
    hide Low, Lead2, Lead3, Lead4, Tail0, Tail6, Tail12, Two, Three, Four, Join2, Join3, Join4;
  }

  lemma Utf8OfTwo(s: Key)
    requires |s| >= 2 && Two(s[0], s[1])
    ensures Scalar(Join2(s[0], s[1])) && Utf8(Join2(s[0], s[1])) == s[..2]
  {
    Paste2(s[0], s[1]);
    hide Low, Lead2, Lead3, Lead4, Tail0, Tail6, Tail12, Two, Join2;
  }

  lemma Utf8OfThree(s: Key)
    requires |s| >= 3 && Three(s[0], s[1], s[2])
    ensures Scalar(Join3(s[0], s[1], s[2])) && Utf8(Join3(s[0], s[1], s[2])) == s[..3]
  {
    Paste3(s[0], s[1], s[2]);
    hide Low, Lead2, Lead3, Lead4, Tail0, Tail6, Tail12, Three, Join3;
  }

  lemma Utf8OfFour(s: Key)
    requires |s| >= 4 && Four(s[0], s[1], s[2], s[3])
    ensures Scalar(Join4(s[0], s[1], s[2], s[3])) && Utf8(Join4(s[0], s[1], s[2], s[3])) == s[..4]
  {
    Paste4(s[0], s[1], s[2], s[3]);
    hide Low, Lead2, Lead3, Lead4, Tail0, Tail6, Tail12, Four, Join4;
  }

  lemma Utf8OfOne(a: bv8)
    requires a < 0x80
    ensures Scalar(a as bv32) && Utf8(a as bv32) == [a]
  {
    Same(a);
    hide Low;
  }

  lemma RuneIs(s: Key)
    requires s != []
    ensures match RuneSize(s)
            case 1 => Rune(s) == if s[0] < 0x80 then s[0] as bv32 else 0xFFFD
            case 2 => |s| >= 2 && Two(s[0], s[1]) && Rune(s) == Join2(s[0], s[1])
            case 3 => |s| >= 3 && Three(s[0], s[1], s[2]) && Rune(s) == Join3(s[0], s[1], s[2])
            case 4 => |s| >= 4 && Four(s[0], s[1], s[2], s[3]) && Rune(s) == Join4(s[0], s[1], s[2], s[3])
            case _ => false
  {
    hide Two, Three, Four, Join2, Join3, Join4;
  }

  // ... and any other text yields one byte and U+FFFD.
  lemma Utf8OfRune(s: Key)
    requires s != []
    ensures if RuneSize(s) > 1 || s[0] < 0x80 then Scalar(Rune(s)) && Utf8(Rune(s)) == s[..RuneSize(s)]
            else Rune(s) == 0xFFFD
  {
    SizeIs(s);
    RuneIs(s);
    hide Two, Three, Four, Join2, Join3, Join4, RuneSize, Rune, Utf8, Scalar;
    var n := RuneSize(s);
    if n == 2 {
      Utf8OfTwo(s);
    } else if n == 3 {
      Utf8OfThree(s);
    } else if n == 4 {
      Utf8OfFour(s);
    } else if s[0] < 0x80 {
      Utf8OfOne(s[0]);
      assert s[..1] == [s[0]];
    }
  }

  lemma Same(a: bv8)
    requires a < 0x80
    ensures a as bv32 < 0x80 && Low(a as bv32) == a
  {
  }

  // What the loop of crc16 feeds to the checksum: the low byte of each rune.
  function Fed(s: Key): (f: Key)
    ensures |f| <= |s|
  {
    if s == [] then [] else [(Rune(s) & 0xFF) as bv8] + Fed(s[RuneSize(s)..])
  }

  // ASCII, or 0xFD: never part of UTF-8, and the low byte of the replacement for
  // what is not.
  predicate Plain(b: bv8) { b < 0x80 || b == 0xFD }

  // A plain first byte is fed as it is, another is not; a rune of several bytes
  // shortens what is fed.
  lemma FedFirst(s: Key)
    requires s != []
    ensures RuneSize(s) == 1 ==> ((Rune(s) & 0xFF) as bv8 == s[0] <==> Plain(s[0]))
    ensures RuneSize(s) > 1 ==> !Plain(s[0]) && |Fed(s)| < |s|
  {
    assert (0xFFFD as bv32 & 0xFF) as bv8 == 0xFD;
    hide Fed;
    FedLength(s);
  }

  lemma FedLength(s: Key)
    requires s != []
    ensures |Fed(s)| <= |s| - RuneSize(s) + 1
  {
    hide Rune, RuneSize;
  }

  // The bytes are fed as they are exactly when each is plain.
  lemma {:induction false} FedAsIs(s: Key)
    ensures Fed(s) == s <==> forall i :: 0 <= i < |s| ==> Plain(s[i])
  {
    if s != [] {
      FedFirst(s);
      FedAsIs(s[1..]);
      hide Rune, RuneSize, Plain;
      assert s == [s[0]] + s[1..];
      if RuneSize(s) == 1 {
        assert Fed(s)[1..] == Fed(s[1..]);
        assert (forall i :: 0 <= i < |s| ==> Plain(s[i])) <==>
               Plain(s[0]) && forall i :: 0 <= i < |s[1..]| ==> Plain(s[1..][i]);
      }
    }
  }

  // The loop body of crc16.
  function Feed(crc: bv16, n: bv32): bv16 {
    (crc << 8) ^ Table(((crc >> 8) ^ (n & 0xFFFF) as bv16) & 0xFF)
  }

  // Only the low byte of the rune reaches the table.
  lemma FeedIsTurn(crc: bv16, n: bv32)
    ensures Feed(crc, n) == Turn(crc, ((n & 0xFF) as bv8) as bv16)
  {
    LowByte(crc, n);
    hide Table;
  }

  lemma LowByte(crc: bv16, n: bv32)
    ensures ((crc >> 8) ^ (n & 0xFFFF) as bv16) & 0xFF == ((crc >> 8) ^ ((n & 0xFF) as bv8) as bv16) & 0xFF
  {
  }

  lemma FedStep(crc: bv16, s: Key)
    requires s != []
    ensures Turns(crc, Fed(s)) == Turns(Feed(crc, Rune(s)), Fed(s[RuneSize(s)..]))
  {
    FeedIsTurn(crc, Rune(s));
    hide Feed, Turn, Rune, RuneSize;
    assert Fed(s)[1..] == Fed(s[RuneSize(s)..]);
  }

  // crc16: the standard checksum, but of the runes' low bytes.
  method Crc16(buf: Key) returns (crc: bv16)
    ensures crc == Crc(Fed(buf))
  {
    hide Feed, Turns, Fed, Rune, Crc;
    crc := 0;
    var i := 0;
    assert buf[0..] == buf;
    while i < |buf|
      invariant i <= |buf|
      invariant Turns(0, Fed(buf)) == Turns(crc, Fed(buf[i..]))
    {
      ghost var rest := buf[i..];
      FedStep(crc, rest);
      crc := Feed(crc, Rune(buf[i..]));
      i := i + RuneSize(buf[i..]);
      assert buf[i..] == rest[RuneSize(rest)..];
    }
    NothingFed(crc);
    TurnsAreCrc(Fed(buf));
  }

  lemma NothingFed(crc: bv16)
    ensures Turns(crc, Fed([])) == crc
  {
  }

  // ---- hash: the slot of a key ----

  // The part of the key that decides its slot (Redis cluster specification,
  // section "Hash tags"): what stands between the first '{' and the first '}'
  // after it, if there is something there, and the whole key otherwise.
  function Tag(key: Key): Key {
    var s := IndexOf(key, OPEN);
    if s == |key| then key else
    var e := IndexOf(key[s + 1..], CLOSE);
    if e == |key| - s - 1 || e == 0 then key else key[s + 1..][..e]
  }

  function Slot(key: Key): (slot: bv16)
    ensures slot < 16384
  {
    Mask(Crc(Fed(Tag(key))))
  }

  function Mask(crc: bv16): (slot: bv16)
    ensures slot < 16384
  {
    crc & 0x3FFF
  }

  lemma MaskSplits(crc: bv16)
    ensures crc as nat == (crc >> 14) as nat * 16384 + (crc & 0x3FFF) as nat
  {
  }

  lemma MaskBelow(crc: bv16)
    ensures (crc & 0x3FFF) as nat < 16384
  {
  }

  lemma RemainderIs(n: nat, q: nat, r: nat)
    requires n == q * 16384 + r && r < 16384
    ensures n % 16384 == r
  {
  }

  lemma MaskIsRemainder(crc: bv16)
    ensures Mask(crc) as nat == crc as nat % 16384
  {
    MaskSplits(crc);
    MaskBelow(crc);
    RemainderIs(crc as nat, (crc >> 14) as nat, (crc & 0x3FFF) as nat);
  }

  // The slot is the checksum of the deciding part modulo 16384.
  lemma SlotIsRemainder(key: Key)
    ensures Slot(key) as nat == Crc(Fed(Tag(key))) as nat % 16384
  {
    hide Crc, Fed, Tag;
    MaskIsRemainder(Crc(Fed(Tag(key))));
  }

  method Hash(key: Key) returns (slot: bv16)
    ensures slot == Slot(key)
    ensures slot as nat == Crc(Fed(Tag(key))) as nat % 16384
  {
    slot := Scan(key);
    SlotIsRemainder(key);
  }

  // The two loops of hash.
  method Scan(key: Key) returns (slot: bv16)
    ensures slot == Slot(key)
  {
    hide Crc, Fed, Mask;
    var s := 0;
    while s < |key|
      invariant s <= |key| && forall i :: 0 <= i < s ==> key[i] != OPEN
    {
      if key[s] == OPEN {
        break;
      }
      s := s + 1;
    }
    IndexOfIs(key, OPEN, s);
    if s == |key| {
      var crc := Crc16(key);
      return Mask(crc);
    }
    ghost var rest := key[s + 1..];
    var e := s + 1;
    while e < |key|
      invariant s + 1 <= e <= |key| && forall i :: 0 <= i < e - s - 1 ==> rest[i] != CLOSE
    {
      if key[e] == CLOSE {
        break;
      }
      e := e + 1;
    }
    IndexOfIs(rest, CLOSE, e - s - 1);
    if e == |key| || e == s + 1 {
      var crc := Crc16(key);
      return Mask(crc);
    }
    assert key[s + 1..e] == rest[..e - s - 1];
    var crc := Crc16(key[s + 1..e]);
    slot := Mask(crc);
  }

  // The key "a{tag}b".
  function Tagged(a: Key, tag: Key, b: Key): Key { a + [0x7B] + tag + [0x7D] + b }

  // Keys with the same tag share a slot, whatever surrounds the tag.
  lemma SameTagSameSlot(a: Key, b: Key, a': Key, b': Key, tag: Key)
    requires tag != [] && 0x7D !in tag && 0x7B !in a && 0x7B !in a'
    ensures Slot(Tagged(a, tag, b)) == Slot(Tagged(a', tag, b'))
  {
    hide Crc, Fed;
    TagOfTagged(a, tag, b);
    TagOfTagged(a', tag, b');
  }

  lemma TagOfTagged(a: Key, tag: Key, b: Key)
    requires tag != [] && 0x7D !in tag && 0x7B !in a
    ensures Tag(Tagged(a, tag, b)) == tag
  {
    var key := Tagged(a, tag, b);
    IndexOfIs(key, OPEN, |a|);
    assert key[|a| + 1..] == tag + [CLOSE] + b;
    IndexOfIs(tag + [CLOSE] + b, CLOSE, |tag|);
  }

  // Without '{', without '}' after the first one, or with nothing between the
  // two, the whole key decides.
  lemma UntaggedIsWhole(key: Key)
    requires 0x7B !in key
    ensures Tag(key) == key
  {
    IndexOfIs(key, OPEN, |key|);
  }

  lemma UnclosedIsWhole(a: Key, b: Key)
    requires 0x7B !in a && 0x7D !in b
    ensures Tag(a + [0x7B] + b) == a + [0x7B] + b
  {
    var key := a + [0x7B] + b;
    IndexOfIs(key, OPEN, |a|);
    assert key[|a| + 1..] == b;
    IndexOfIs(b, CLOSE, |b|);
  }

  lemma EmptyTagIsWhole(a: Key, b: Key)
    requires 0x7B !in a
    ensures Tag(Tagged(a, [], b)) == Tagged(a, [], b)
  {
    var key := Tagged(a, [], b);
    IndexOfIs(key, OPEN, |a|);
    assert key[|a| + 1..] == [0x7D] + b;
    IndexOfIs([0x7D] + b, CLOSE, 0);
  }

  // Where the deciding part of the key is of ASCII and 0xFD bytes the slot is the
  // specification's, whatever the other bytes are ...
  lemma SlotIsStandard(key: Key)
    requires forall i :: 0 <= i < |Tag(key)| ==> Plain(Tag(key)[i])
    ensures Slot(key) as nat == Crc(Tag(key)) as nat % 16384
  {
    SlotIsRemainder(key);
    hide Crc, Fed;
    FedAsIs(Tag(key));
  }

  // ... and on others it need not be: "\u00e9" is fed as the single byte 0xE9.
  lemma SlotNotStandard()
    ensures Slot([0xC3, 0xA9]) as nat != Crc([0xC3, 0xA9]) as nat % 16384
  {
    var key: Key := [0xC3, 0xA9];
    FedAccent();
    TurnsAccent();
    TurnsAreCrc([0xE9]);
    TurnsAreCrc(key);
    UntaggedIsWhole(key);
    SlotIsRemainder(key);
    NumbersDiffer();
    hide Crc, Fed, Turns;
  }

  // "foo" lies in slot 12182.
  lemma SlotOfFoo()
    ensures Slot([0x66, 0x6F, 0x6F]) as nat == 12182
  {
    var key: Key := [0x66, 0x6F, 0x6F];
    FooIsFedAsIs(key);
    TurnsFoo();
    NumberOfFoo();
    hide *;
    TurnsAreCrc(key);
    SlotIsRemainder(key);
  }

  lemma FooIsFedAsIs(key: Key)
    requires key == [0x66, 0x6F, 0x6F]
    ensures Fed(Tag(key)) == key
  {
    hide Fed, Tag;
    UntaggedIsWhole(key);
    FedAsIs(key);
  }

  lemma NumberOfFoo()
    ensures 0xaf96 as bv16 as nat % 16384 == 12182
  {
  }

  lemma TurnsFoo()
    ensures Turns(0, [0x66, 0x6F, 0x6F]) == 0xaf96
  {
    assert Turn(0, 0x66) == 0x0c60;
    assert Turn(0x0c60, 0x6F) == 0x3cc5;
    assert Turn(0x3cc5, 0x6F) == 0xaf96;
    hide Turn;
    var key: Key := [0x66, 0x6F, 0x6F];
    assert key[1..] == [0x6F, 0x6F] && [0x6F as bv8, 0x6F][1..] == [0x6F] && [0x6F as bv8][1..] == [];
  }

  lemma NumbersDiffer()
    ensures 0x6c07 as bv16 as nat % 16384 == 11271 && 0x67c4 as bv16 as nat % 16384 == 10180
  {
  }

  lemma FedAccent()
    ensures Fed([0xC3, 0xA9]) == [0xE9]
  {
    var key: Key := [0xC3, 0xA9];
    assert RuneSize(key) == 2 && Rune(key) == 0xE9;
    assert key[2..] == [];
    assert (0xE9 as bv32 & 0xFF) as bv8 == 0xE9;
  }

  lemma TurnsAccent()
    ensures Turns(0, [0xE9]) == 0x6c07 && Turns(0, [0xC3, 0xA9]) == 0x67c4
  {
    assert Turn(0, 0xE9) == 0x6c07;
    assert Turn(0, 0xC3) == 0xe92f;
    assert Turn(0xe92f, 0xA9) == 0x67c4;
    hide Turn;
    var key: Key := [0xC3, 0xA9];
    assert key[1..] == [0xA9] && [0xE9 as bv8][1..] == [] && [0xA9 as bv8][1..] == [];
  }

  // The slot as an index of the slot table.
  function SlotIndex(key: Key): (i: nat)
    ensures i < 16384
  {
    Slot(key) as nat
  }

  // hash, giving the slot as an index.
  method HashIndex(key: Key) returns (i: nat)
    ensures i == SlotIndex(key)
  {
    hide Slot;
    var slot := Hash(key);
    i := slot as nat;
  }
}
