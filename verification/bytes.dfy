/** Byte strings and the integer conversions the firmware applies to them. */
module Bytes {

  newtype byte = b: int | 0 <= b < 256

  /** Python's `sum(bs)` over a bytes object. */
  function Sum(s: seq<byte>): nat
  {
    if s == [] then 0 else s[0] as nat + Sum(s[1..])
  }

  lemma {:induction false} SumAppend(a: seq<byte>, b: seq<byte>)
    ensures Sum(a + b) == Sum(a) + Sum(b)
  {
    if a == [] {
      assert a + b == b;
    } else {
      assert (a + b)[1..] == a[1..] + b;
      SumAppend(a[1..], b);
    }
  }

  /** Replacing one byte changes the sum by exactly the difference of the two values. */
  lemma {:induction false} SumUpdate(s: seq<byte>, q: nat, v: byte)
    requires q < |s|
    ensures Sum(s[q := v]) == Sum(s) - s[q] as int + v as int
  {
    if q == 0 {
      assert s[q := v][1..] == s[1..];
    } else {
      assert s[q := v][1..] == s[1..][q - 1 := v];
      SumUpdate(s[1..], q - 1, v);
    }
  }

  /** `sum(bs).to_bytes(1, "big")` with MicroPython's truncation: the low byte of the sum. */
  function Checksum(s: seq<byte>): byte
  {
    (Sum(s) % 256) as byte
  }

  /** Python's `int.from_bytes(bs, "big")`; the empty string gives 0. */
  function FromBytesBig(s: seq<byte>): nat
  {
    if s == [] then 0 else FromBytesBig(s[..|s| - 1]) * 256 + s[|s| - 1] as nat
  }

  /** `n.to_bytes(2, "big")`, keeping the two low-order bytes of `n`. */
  function ToBytesBig2(n: nat): (r: seq<byte>)
    ensures |r| == 2 && FromBytesBig(r) == n % 65536
  {
    var hi, lo := (n / 256) % 256, n % 256;
    PairValue(hi as byte, lo as byte);
    assert hi * 256 + lo == n % 65536 by {
      DivModSplit(n);
    }
    [hi as byte, lo as byte]
  }

  lemma PairValue(a: byte, b: byte)
    ensures FromBytesBig([a, b]) == a as nat * 256 + b as nat
  {
    assert [a, b][..1] == [a];
    assert [a][..0] == [];
    assert FromBytesBig([a]) == a as nat;
  }

  lemma DivModSplit(n: nat)
    ensures ((n / 256) % 256) * 256 + n % 256 == n % 65536
  {
    var q := n / 256;
    assert n == q * 256 + n % 256;
    assert q == (q / 256) * 256 + q % 256;
    assert n == (q / 256) * 65536 + (q % 256) * 256 + n % 256;
    assert 0 <= (q % 256) * 256 + n % 256 < 65536;
  }

  /** A two-byte big-endian field read back and re-encoded gives the same two bytes. */
  lemma TwoByteField(s: seq<byte>)
    requires |s| == 2
    ensures FromBytesBig(s) == s[0] as nat * 256 + s[1] as nat
    ensures FromBytesBig(s) < 65536 && ToBytesBig2(FromBytesBig(s)) == s
  {
    assert s == [s[0], s[1]];
    PairValue(s[0], s[1]);
    var n := s[0] as nat * 256 + s[1] as nat;
    assert n / 256 == s[0] as nat && n % 256 == s[1] as nat;
  }
}
