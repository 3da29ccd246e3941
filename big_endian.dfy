/** Bytes and fixed-width big-endian integers: the reference meaning of the
    byte sequences the encoding layer produces. */
module BigEndian {

  type Byte = b: int | 0 <= b < 256

  function Pow256(k: nat): (p: nat)
    ensures p >= 1
  {
    if k == 0 then 1 else 256 * Pow256(k - 1)
  }

  lemma {:induction false} Pow256Monotone(i: nat, j: nat)
    requires i <= j
    ensures Pow256(i) <= Pow256(j)
  {
    if i < j {
      Pow256Monotone(i, j - 1);
    }
  }

  /** The number a byte sequence denotes, most significant byte first. */
  function Value(b: seq<Byte>): nat {
    if b == [] then 0 else Value(b[..|b| - 1]) * 256 + b[|b| - 1]
  }

  function Zeros(k: nat): (z: seq<Byte>)
    ensures |z| == k
  {
    seq(k, _ => 0)
  }

  /** One more leading zero byte. */
  lemma ZerosCons(k: nat, b: seq<Byte>)
    ensures Zeros(k + 1) + b == [0] + (Zeros(k) + b)
  {
    assert Zeros(k + 1) == [0] + Zeros(k);
  }

  /** The reference encoding: `n` written in exactly `k` bytes, most
      significant first (only the low `k` bytes when `n` does not fit). */
  function Encode(n: nat, k: nat): (b: seq<Byte>)
    ensures |b| == k
  {
    if k == 0 then [] else Encode(n / 256, k - 1) + [n % 256]
  }

  /** Every `k`-byte sequence denotes a number below 256^k. */
  lemma {:induction false} ValueBound(b: seq<Byte>)
    ensures Value(b) < Pow256(|b|)
  {
    if b != [] {
      ValueBound(b[..|b| - 1]);
    }
  }

  /** A sequence whose first byte is not zero denotes at least 256^(k-1). */
  lemma {:induction false} ValueLowerBound(b: seq<Byte>)
    requires |b| >= 1 && b[0] != 0
    ensures Value(b) >= Pow256(|b| - 1)
  {
    if |b| > 1 {
      ValueLowerBound(b[..|b| - 1]);
    }
  }

  /** A shortest encoding: at least one byte, and no leading zero byte
      unless it is the single byte of zero. */
  predicate IsMinimal(b: seq<Byte>) {
    |b| >= 1 && (|b| > 1 ==> b[0] != 0)
  }

  /** A shortest encoding longer than `k` bytes denotes at least 256^k. */
  lemma LongerIsLarger(b: seq<Byte>, k: nat)
    requires IsMinimal(b)
    ensures |b| > k >= 1 ==> Value(b) >= Pow256(k)
  {
    if |b| > k >= 1 {
      ValueLowerBound(b);
      Pow256Monotone(k, |b| - 1);
    }
  }

  /** Each number has exactly one shortest encoding. */
  lemma MinimalUnique(b1: seq<Byte>, b2: seq<Byte>)
    requires IsMinimal(b1) && IsMinimal(b2) && Value(b1) == Value(b2)
    ensures b1 == b2
  {
    ValueBound(b1);
    ValueBound(b2);
    LongerIsLarger(b1, |b2|);
    LongerIsLarger(b2, |b1|);
    EncodeUnique(b1);
    EncodeUnique(b2);
  }

  /** Leading zero bytes do not change the value. */
  lemma {:induction false} ValueLeadingZeros(k: nat, b: seq<Byte>)
    ensures Value(Zeros(k) + b) == Value(b)
  {
    if b == [] {
      assert Zeros(k) + b == Zeros(k);
      if k > 0 {
        assert Zeros(k)[..k - 1] == Zeros(k - 1);
        ValueLeadingZeros(k - 1, []);
        assert Zeros(k - 1) + [] == Zeros(k - 1);
      }
    } else {
      var p := b[..|b| - 1];
      assert (Zeros(k) + b)[..k + |b| - 1] == Zeros(k) + p;
      ValueLeadingZeros(k, p);
    }
  }

  /** Encoding a number that fits reads back as that number. */
  lemma {:induction false} EncodeValue(n: nat, k: nat)
    requires n < Pow256(k)
    ensures Value(Encode(n, k)) == n
  {
    if k > 0 {
      var b := Encode(n, k);
      assert b[..k - 1] == Encode(n / 256, k - 1);
      EncodeValue(n / 256, k - 1);
    }
  }

  /** A byte sequence is the encoding, at its own width, of the number it
      denotes: big-endian encoding at a fixed width is unique. */
  lemma {:induction false} EncodeUnique(b: seq<Byte>)
    ensures b == Encode(Value(b), |b|)
  {
    if b != [] {
      var p, x := b[..|b| - 1], b[|b| - 1];
      EncodeUnique(p);
      var n := Value(b);
      assert n == Value(p) * 256 + x;
      assert n / 256 == Value(p) && n % 256 == x;
      assert b == p + [x];
    }
  }

  /** Zero is encoded as all-zero bytes at every width. */
  lemma {:induction false} EncodeZero(k: nat)
    ensures Encode(0, k) == Zeros(k)
  {
    if k > 0 {
      EncodeZero(k - 1);
      assert Zeros(k) == Zeros(k - 1) + [0];
    }
  }
}
