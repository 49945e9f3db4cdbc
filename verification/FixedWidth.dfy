// Fixed-width integers: m values starting at lo, arithmetic modulo m.
module FixedWidth {
  datatype Width = Width(lo: int, m: nat)

  type Fixed = w: Width | w.m > 0 witness Width(0, 1)

  // The value of the type that is congruent to x.
  function Wrap(x: int, w: Fixed): (r: int)
    ensures w.lo <= r < w.lo + w.m
  {
    (x - w.lo) % w.m + w.lo
  }

  // Wrapping moves x by a multiple of m ...
  lemma WrapIsShift(x: int, w: Fixed)
    ensures Wrap(x, w) == x - (x - w.lo) / w.m * w.m
  {
  }

  lemma DivModUnique(x: int, m: int, q: int, r: int)
    requires m > 0 && 0 <= r < m && x == q * m + r
    ensures x % m == r
  {
    var d := q - x / m;
    assert d * m == x % m - r;
    MulBound(d, m);
  }

  lemma MulBound(d: int, m: int)
    requires m > 0
    ensures d > 0 ==> d * m >= m
    ensures d < 0 ==> d * m <= -m
  {
  }

  // ... and no multiple of m changes the result.
  lemma WrapShifted(x: int, k: int, w: Fixed)
    ensures Wrap(x + k * w.m, w) == Wrap(x, w)
  {
    var q, r := (x - w.lo) / w.m, (x - w.lo) % w.m;
    assert x + k * w.m - w.lo == (q + k) * w.m + r by {
      assert (q + k) * w.m == q * w.m + k * w.m;
    }
    DivModUnique(x + k * w.m - w.lo, w.m, q + k, r);
  }

  // Values of the type are their own wrapping, and no others are.
  lemma WrapFixes(x: int, w: Fixed)
    ensures Wrap(x, w) == x <==> w.lo <= x < w.lo + w.m
  {
    if w.lo <= x < w.lo + w.m {
      DivModUnique(x - w.lo, w.m, 0, x - w.lo);
    }
  }

  // The upper half of the residues of a signed width stands for the negatives.
  lemma WrapNegative(n: nat, w: Fixed)
    requires w.lo < 0 && w.m == 2 * (0 - w.lo)
    ensures Wrap(n, w) < 0 <==> n % w.m >= 0 - w.lo
  {
    var q, r := n / w.m, n % w.m;
    assert n == q * w.m + r;
    if r >= 0 - w.lo {
      assert (q + 1) * w.m == q * w.m + w.m;
      WrapShifted(r - w.m, q + 1, w);
      WrapFixes(r - w.m, w);
    } else {
      WrapShifted(r, q, w);
      WrapFixes(r, w);
    }
    hide Wrap;
  }

  // Wrapping early or late is the same.
  lemma WrapAdd(a: int, b: int, w: Fixed)
    ensures Wrap(Wrap(a, w) + b, w) == Wrap(a + b, w)
  {
    var k := (a - w.lo) / w.m;
    WrapIsShift(a, w);
    assert Wrap(a, w) + b == a + b + (-k) * w.m by {
      assert (-k) * w.m == -(k * w.m);
    }
    WrapShifted(a + b, -k, w);
  }

  lemma MulOut(a: int, k: int, m: int, c: int)
    ensures (a - k * m) * c == a * c + -(k * c) * m
  {
    var km := k * m;
    assert (a - km) * c == a * c - km * c;
    assert km * c == (k * c) * m by {
      assert (k * m) * c == k * (m * c);
      assert (k * c) * m == k * (c * m);
    }
    assert -(k * c) * m == -((k * c) * m);
  }

  lemma WrapMulAdd(a: int, c: int, d: int, w: Fixed)
    ensures Wrap(Wrap(a, w) * c + d, w) == Wrap(a * c + d, w)
  {
    var k := (a - w.lo) / w.m;
    WrapIsShift(a, w);
    MulOut(a, k, w.m, c);
    WrapShifted(a * c + d, -(k * c), w);
  }

  const INT64: Fixed := Width(-0x8000_0000_0000_0000, 0x1_0000_0000_0000_0000)
}
