// Bytes, failures and the small sequence vocabulary shared by all modules.
module Bytes {
  type Byte = b: int | 0 <= b < 256

  const LF: Byte := 10
  const CR: Byte := 13
  const SPACE: Byte := 32
  const PLUS: Byte := 43
  const MINUS: Byte := 45
  const CRLF: seq<Byte> := [CR, LF]

  // The bytes of an ASCII text.
  function Ascii(s: string): (b: seq<Byte>)
    requires forall i :: 0 <= i < |s| ==> s[i] as int < 128
    ensures |b| == |s|
  {
    seq(|s|, i requires 0 <= i < |s| => s[i] as int)
  }

  datatype Option<+T> = None | Some(value: T)

  // Go's `error` values. Eof and Broken come from a byte source, SinkFailed
  // from a byte sink; the others are raised by the code itself.
  datatype Error =
    | Eof | Broken(code: nat) | SinkFailed(code: nat)
    | UnexpectedEof | NoProgress | BufferFull | ShortWrite
    | BadType | BadCrlf | BadNumber
    | BadBulkLen | BulkTooLong | BadArrayLen | ArrayTooLong
    | BadMultiBulkLen | BadMultiBulkContent
    | UseOfFailed

  datatype Result<+T> = Ok(value: T) | Err(error: Error)

  // Index of the first occurrence of d, or |s| when there is none.
  function IndexOf<T(==)>(s: seq<T>, d: T): (k: nat)
    ensures k <= |s|
    ensures k < |s| ==> s[k] == d
    ensures forall i :: 0 <= i < k ==> s[i] != d
  {
    if s == [] then 0 else if s[0] == d then 0 else 1 + IndexOf(s[1..], d)
  }

  // IndexOf is the only index with its three properties.
  lemma IndexOfIs<T>(s: seq<T>, d: T, k: nat)
    requires k <= |s|
    requires k < |s| ==> s[k] == d
    requires forall i :: 0 <= i < k ==> s[i] != d
    ensures IndexOf(s, d) == k
  {
  }

  // The delimiter is found in a prefix exactly when it is found there in the whole.
  lemma IndexOfPrefix<T>(s: seq<T>, t: seq<T>, d: T)
    ensures IndexOf(s, d) < |s| ==> IndexOf(s + t, d) == IndexOf(s, d)
    ensures IndexOf(s, d) == |s| ==> IndexOf(s + t, d) >= |s|
  {
    forall i | 0 <= i < IndexOf(s, d)
      ensures (s + t)[i] != d
    {
      assert (s + t)[i] == s[i];
    }
    if IndexOf(s, d) < |s| {
      IndexOfIs(s + t, d, IndexOf(s, d));
    }
  }

  // a is what is left of b after some bytes were taken from its front.
  predicate Suffix(a: seq<Byte>, b: seq<Byte>) {
    |a| <= |b| && b[|b| - |a|..] == a
  }

  lemma SuffixTrans(a: seq<Byte>, b: seq<Byte>, c: seq<Byte>)
    requires Suffix(a, b) && Suffix(b, c)
    ensures Suffix(a, c)
  {
    assert c[|c| - |a|..] == c[|c| - |b|..][|b| - |a|..];
  }
}
