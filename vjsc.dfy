/** The parts of the vjsc library that the encoding layer calls, stated by
    what they are taken to do: decode hexadecimal text into bytes, wrap bytes
    into a byte-tree leaf, and expose a modular group's modulus byte length
    and element constructor. */
module Vjsc {
  import opened HexDigits
  import opened BigEndian
  import opened Outcomes

  /** vjsc's `eio.ByteTree`: a leaf holding bytes, or a node holding an
      ordered sequence of byte trees. `eio.ByteTree.asByteTree(bytes)` is
      `Leaf(bytes)`. */
  datatype ByteTree = Leaf(bytes: seq<Byte>) | Node(children: seq<ByteTree>)

  /** Decodes digit text two digits at a time, the last pair giving the
      last byte (a lone leading digit is not reached on even-length text). */
  function DecodePairs(hex: string): (b: seq<Byte>)
    ensures |b| == |hex| / 2
  {
    if |hex| < 2 then []
    else DecodePairs(hex[..|hex| - 2]) + [DigitValue(hex[|hex| - 2]) * 16 + DigitValue(hex[|hex| - 1])]
  }

  /** vjsc's `util.hexToByteArray`: text of odd length is first given one
      leading `0` digit, then each pair of digits becomes a byte. */
  function HexToByteArray(hex: string): (b: seq<Byte>)
    requires IsLowerHex(hex)
    ensures |b| == (|hex| + 1) / 2
  {
    if |hex| % 2 == 1 then DecodePairs("0" + hex) else DecodePairs(hex)
  }

  /** Decoding preserves the number: the bytes, read big endian, denote
      what the digits denote. */
  lemma {:induction false} DecodePairsValue(hex: string)
    requires |hex| % 2 == 0
    ensures Value(DecodePairs(hex)) == HexValue(hex)
  {
    if hex != [] {
      var p := hex[..|hex| - 2];
      var b := DecodePairs(hex);
      assert b[..|b| - 1] == DecodePairs(p);
      assert hex[..|hex| - 1][..|hex| - 2] == p;
      DecodePairsValue(p);
    }
  }

  /** `HexToByteArray` preserves the number. */
  lemma {:induction false} HexToByteArrayValue(hex: string)
    requires IsLowerHex(hex)
    ensures Value(HexToByteArray(hex)) == HexValue(hex)
  {
    if |hex| % 2 == 1 {
      var evened := "0" + hex;
      assert |evened| == |hex| + 1;
      assert HexToByteArray(hex) == DecodePairs(evened);
      LeadingZeroDigit(hex);
      DecodePairsValue(evened);
    } else {
      DecodePairsValue(hex);
    }
  }

  /** The first byte comes from the first two digits. */
  lemma {:induction false} DecodePairsFirst(hex: string)
    requires |hex| % 2 == 0 && |hex| >= 2
    ensures DecodePairs(hex)[0] == DigitValue(hex[0]) * 16 + DigitValue(hex[1])
  {
    if |hex| > 2 {
      DecodePairsFirst(hex[..|hex| - 2]);
    }
  }

  /** Two more zero digits in front add one zero byte in front. */
  lemma {:induction false} DecodeZeroPair(hex: string)
    requires |hex| % 2 == 0
    ensures DecodePairs("00" + hex) == [0] + DecodePairs(hex)
  {
    if hex != [] {
      var p := hex[..|hex| - 2];
      assert ("00" + hex)[..|hex|] == "00" + p;
      DecodeZeroPair(p);
    }
  }

  /** `2p` zero digits in front of even-length text decode to `p` zero bytes
      in front of its decoding. */
  lemma {:induction false} DecodeZeroDigits(p: nat, hex: string)
    requires |hex| % 2 == 0
    ensures DecodePairs(ZeroDigits(2 * p) + hex) == Zeros(p) + DecodePairs(hex)
  {
    if p == 0 {
      assert ZeroDigits(0) + hex == hex;
      assert Zeros(0) + DecodePairs(hex) == DecodePairs(hex);
    } else {
      var rest := ZeroDigits(2 * (p - 1)) + hex;
      DecodeZeroDigits(p - 1, hex);
      ZeroDigitsCons(2 * (p - 1), hex);
      assert |rest| % 2 == 0;
      DecodeZeroPair(rest);
      ZerosCons(p - 1, DecodePairs(hex));
    }
  }

  /** Zero digit pairs in front of even-length digit text become zero bytes
      in front of its decoding: the padding `strDecToByteTree` relies on. */
  lemma HexToByteArrayZeroPairs(p: nat, even: string)
    requires IsLowerHex(even) && |even| % 2 == 0
    ensures IsLowerHex(ZeroDigits(2 * p) + even)
    ensures HexToByteArray(ZeroDigits(2 * p) + even) == Zeros(p) + HexToByteArray(even)
  {
    ZeroPairsInFront(p, even);
    DecodeZeroDigits(p, even);
  }

  /** The decoding of a minimal digit string has no leading zero byte,
      unless it is the single byte of a one- or two-digit string. */
  lemma LeadingByteOfCanonical(hex: string)
    requires IsCanonicalHex(hex)
    ensures var b := HexToByteArray(hex); |b| > 1 ==> b[0] != 0
  {
    if |hex| % 2 == 1 {
      if |hex| > 1 {
        DecodePairsFirst("0" + hex);
        assert ("0" + hex)[1] == hex[0];
      }
    } else {
      DecodePairsFirst(hex);
    }
  }

  /** vjsc's `arithm.ModPGroup`, reduced to what the encoding layer uses:
      the byte length of its modulus and `toElement`, which turns a byte tree
      into a group element or fails (a failure it throws is `Err(Thrown(..))`). */
  datatype ModPGroup<E> = ModPGroup(modulusByteLength: nat, toElement: ByteTree -> Result<E>)
}
