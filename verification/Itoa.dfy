// The precomputed decimal table of utils/resparse/credis/encoder.go.
module Itoa {
  import opened Bytes
  import opened Decimal

  const MIN_ITOA := -128
  const MAX_ITOA := 32768
  const TABLE_SIZE: nat := MAX_ITOA - MIN_ITOA + 1

  // The table's text: the decimals of MIN_ITOA, MIN_ITOA + 1, ... (k of them).
  ghost function Run(k: nat): seq<Byte> {
    if k == 0 then [] else Run(k - 1) + Dec(MIN_ITOA + k - 1)
  }

  lemma RunStep(k: nat)
    ensures Run(0) == [] && Run(k + 1) == Run(k) + Dec(MIN_ITOA + k)
  {
  }

  // Six bytes are enough for each entry, so offsets fit a uint32.
  lemma {:induction false} RunBound(k: nat)
    requires k <= TABLE_SIZE
    ensures |Run(k)| <= 6 * k
  {
    if k > 0 {
      RunBound(k - 1);
      var n := MIN_ITOA + k - 1;
      assert Pow10(2) == 100 && Pow10(5) == 1000 * Pow10(2);
      DigitsWidth(if n < 0 then -n else n, 5);
    }
  }

  lemma {:induction false} RunPrefix(j: nat, k: nat)
    requires j <= k
    ensures |Run(j)| <= |Run(k)| && Run(k)[..|Run(j)|] == Run(j)
  {
    if j < k {
      RunPrefix(j, k - 1);
      assert Run(k)[..|Run(j)|] == Run(k - 1)[..|Run(j)|];
    }
  }

  // Entry j of the table is the decimal of MIN_ITOA + j.
  lemma RunEntry(j: nat, k: nat)
    requires j < k
    ensures |Run(j)| <= |Run(j + 1)| <= |Run(k)|
    ensures Run(k)[|Run(j)|..|Run(j + 1)|] == Dec(MIN_ITOA + j)
  {
    RunPrefix(j + 1, k);
    assert Run(k)[|Run(j)|..|Run(j + 1)|] == Run(k)[..|Run(j + 1)|][|Run(j)|..];
  }

  // Go's uint32 conversion; the identity on what fits.
  function Uint32(n: nat): (r: nat)
    ensures n < 0x1_0000_0000 ==> r == n
  {
    n % 0x1_0000_0000
  }

  class Table {
    const offset: array<nat>
    var buffer: seq<Byte>

    ghost predicate Valid()
      reads this, offset
    {
      && offset.Length == TABLE_SIZE
      && buffer == Run(offset.Length)
      && forall j :: 0 <= j < offset.Length ==> offset[j] == |Run(j)|
    }

    constructor ()
      ensures Valid() && fresh(offset)
    {
      hide Dec, Run;
      RunStep(0);
      var off := new nat[TABLE_SIZE];
      var b := [];
      for i := 0 to off.Length
        invariant b == Run(i)
        invariant forall j :: 0 <= j < i ==> off[j] == |Run(j)|
      {
        RunBound(i);
        RunStep(i);
        off[i] := Uint32(|b|);
        b := b + Dec(i + MIN_ITOA);
      }
      offset, buffer := off, b;
    }

    // Table lookup and fallback both print the decimal of i.
    method Itoa(i: int) returns (s: seq<Byte>)
      requires Valid()
      ensures s == Dec(i)
    {
      if MIN_ITOA <= i <= MAX_ITOA {
        RunEntry(i - MIN_ITOA, offset.Length);
        var beg := offset[i - MIN_ITOA];
        if i == MAX_ITOA {
          return buffer[beg..];
        }
        var end := offset[i - MIN_ITOA + 1];
        return buffer[beg..end];
      }
      s := Dec(i);
    }
  }
}
