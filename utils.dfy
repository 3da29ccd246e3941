/** The number-encoding helpers of src/crypto/utils.ts: a non-negative integer
    becomes minimal lower-case hexadecimal text, then a big-endian byte array,
    then a byte-tree leaf of a fixed number of bytes (or the "too big" error),
    and finally an element of a modular group. Also the small helpers of the
    same file: whitespace removal and the `null` / `Error` type tests. */
module CryptoUtils {
  import opened Outcomes
  import opened HexDigits
  import opened BigEndian
  import opened Vjsc

  // ---------------------------------------------------------------------
  // Decimal integer to hexadecimal text and bytes

  /** `strDecToHex`: `BigInt(n).toString(16)`, minimal lower-case digits. */
  function StrDecToHex(n: nat): (hex: string)
    ensures IsCanonicalHex(hex)
    ensures HexValue(hex) == n
    ensures hex == "0" <==> n == 0
  {
    if n < 16 then [DigitChar(n)] else StrDecToHex(n / 16) + [DigitChar(n % 16)]
  }

  /** Appending a digit to the text of a positive number multiplies it by
      16 and adds the digit. */
  lemma StrDecToHexAppend(q: nat, c: char)
    requires q >= 1 && IsHexDigit(c)
    ensures StrDecToHex(q * 16 + DigitValue(c)) == StrDecToHex(q) + [c]
  {
    DivModDigit(q, DigitValue(c));
    DigitCharOfValue(c);
  }

  /** Reading a minimal digit string and converting back gives the string:
      `StrDecToHex` is the inverse of `HexValue` on minimal digit strings. */
  lemma {:induction false} StrDecToHexOfValue(s: string)
    requires IsCanonicalHex(s)
    ensures StrDecToHex(HexValue(s)) == s
  {
    var k := |s|;
    if k == 1 {
      DigitCharOfValue(s[0]);
    } else {
      var p, c := s[..k - 1], s[k - 1];
      assert HexValue(s) == HexValue(p) * 16 + DigitValue(c);
      LeadingDigitPositive(p);
      StrDecToHexOfValue(p);
      StrDecToHexAppend(HexValue(p), c);
      assert s == p + [c];
    }
  }

  /** `strDecToByteArray`: the hexadecimal text decoded by `hexToByteArray`,
      which gives odd-length text one leading `0` digit. The result is the
      shortest big-endian encoding of `n`: one byte per two digits, no leading
      zero byte unless it is the single byte of zero. */
  function StrDecToByteArray(n: nat): (bytes: seq<Byte>)
    ensures Value(bytes) == n
    ensures |bytes| == (|StrDecToHex(n)| + 1) / 2
    ensures IsMinimal(bytes)
  {
    var hex := StrDecToHex(n);
    HexToByteArrayValue(hex);
    LeadingByteOfCanonical(hex);
    HexToByteArray(hex)
  }

  /** `StrDecToByteArray` is the inverse of `Value` on shortest encodings. */
  lemma StrDecToByteArrayOfValue(b: seq<Byte>)
    requires IsMinimal(b)
    ensures StrDecToByteArray(Value(b)) == b
  {
    MinimalUnique(StrDecToByteArray(Value(b)), b);
  }

  /** The natural byte length is the least `L >= 1` with `n < 256^L`. */
  lemma NaturalLengthBounds(n: nat)
    ensures var len := |StrDecToByteArray(n)|;
      len >= 1 && n < Pow256(len) && (len > 1 ==> Pow256(len - 1) <= n)
  {
    var b := StrDecToByteArray(n);
    ValueBound(b);
    if |b| > 1 {
      ValueLowerBound(b);
    }
  }

  // ---------------------------------------------------------------------
  // Fixed-size byte tree

  /** Reference meaning of `strDecToByteTree(n, treeSize)`: the leaf holding
      `n` in exactly `treeSize` big-endian bytes when it fits in at least one
      byte's worth of room, the "too big" error otherwise. */
  function FixedWidthLeaf(n: nat, treeSize: int): Result<ByteTree> {
    if treeSize < 1 || Pow256(treeSize) <= n then Err(NumberTooBig)
    else Ok(Leaf(Encode(n, treeSize)))
  }

  /** The source's test "even-length hex has more than treeSize bytes" is
      exactly the reference's "does not fit". */
  lemma FitsIff(n: nat, treeSize: int)
    ensures FixedWidthLeaf(n, treeSize).Ok? <==> |StrDecToByteArray(n)| <= treeSize
  {
    NaturalLengthBounds(n);
    var len := |StrDecToByteArray(n)|;
    if len <= treeSize {
      Pow256Monotone(len, treeSize);
    } else if treeSize >= 1 {
      Pow256Monotone(treeSize, len - 1);
    }
  }

  /** When it fits, the fixed-width leaf is the natural encoding with zero
      bytes added in front. */
  lemma PaddedNatural(n: nat, treeSize: int)
    requires |StrDecToByteArray(n)| <= treeSize
    ensures FixedWidthLeaf(n, treeSize)
      == Ok(Leaf(Zeros(treeSize - |StrDecToByteArray(n)|) + StrDecToByteArray(n)))
  {
    FitsIff(n, treeSize);
    var natural := StrDecToByteArray(n);
    var padded := Zeros(treeSize - |natural|) + natural;
    ValueLeadingZeros(treeSize - |natural|, natural);
    EncodeUnique(padded);
  }

  /** The source's first step towards whole bytes: one `0` digit in front
      of odd-length text. */
  function WholeBytes(hex: string): (even: string)
    requires IsLowerHex(hex)
    ensures IsLowerHex(even) && |even| % 2 == 0
    ensures HexValue(even) == HexValue(hex)
  {
    if |hex| % 2 == 1 then LeadingZeroDigit(hex); "0" + hex else hex
  }

  /** Made even, the hexadecimal text decodes to the natural encoding, two
      digits per byte. */
  lemma WholeBytesDecodes(n: nat)
    ensures var even := WholeBytes(StrDecToHex(n));
      HexToByteArray(even) == StrDecToByteArray(n) && |even| / 2 == |StrDecToByteArray(n)|
  {
    var hex := StrDecToHex(n);
    assert StrDecToByteArray(n) == HexToByteArray(hex);
  }

  /** The even text with "00" added once per missing byte decodes to the
      fixed-width leaf. */
  lemma PaddedHexIsFixedWidth(n: nat, treeSize: int)
    requires |StrDecToByteArray(n)| <= treeSize
    ensures var even := WholeBytes(StrDecToHex(n));
      var padded := ZeroDigits(2 * (treeSize - |even| / 2)) + even;
      IsLowerHex(padded) && FixedWidthLeaf(n, treeSize) == Ok(Leaf(HexToByteArray(padded)))
  {
    var even := WholeBytes(StrDecToHex(n));
    WholeBytesDecodes(n);
    HexToByteArrayZeroPairs(treeSize - |even| / 2, even);
    PaddedNatural(n, treeSize);
  }

  /** `strDecToByteTree`: make the hexadecimal text even, refuse it when it
      holds more than `treeSize` bytes, otherwise prepend "00" once per missing
      byte and decode into a leaf. */
  method StrDecToByteTree(n: nat, treeSize: int) returns (r: Result<ByteTree>)
    ensures r == FixedWidthLeaf(n, treeSize)
  {
    var hex := StrDecToHex(n);
    // make the length even so that it counts whole bytes
    if |hex| % 2 == 1 {
      hex := "0" + hex;
    }
    if |hex| / 2 > treeSize {
      WholeBytesDecodes(n);
      FitsIff(n, treeSize);
      return Err(NumberTooBig);
    }
    ghost var even := hex;
    var paddingSize := treeSize - |hex| / 2;
    var i := 0;
    assert ZeroDigits(0) + even == even;
    while i < paddingSize
      invariant 0 <= i <= paddingSize
      invariant hex == ZeroDigits(2 * i) + even
    {
      ZeroDigitsCons(2 * i, even);
      hex := "00" + hex;
      i := i + 1;
    }
    assert even == WholeBytes(StrDecToHex(n));
    WholeBytesDecodes(n);
    PaddedHexIsFixedWidth(n, treeSize);
    r := Ok(Leaf(HexToByteArray(hex)));
  }

  /** A successful encoding has exactly `treeSize` bytes and reads back, big
      endian, as the input: nothing is ever truncated. */
  lemma FixedWidthLeafRoundTrip(n: nat, treeSize: int)
    requires FixedWidthLeaf(n, treeSize).Ok?
    ensures FixedWidthLeaf(n, treeSize).value.Leaf?
    ensures |FixedWidthLeaf(n, treeSize).value.bytes| == treeSize
    ensures Value(FixedWidthLeaf(n, treeSize).value.bytes) == n
  {
    EncodeValue(n, treeSize);
  }

  /** A refusal is never a lost value: no sequence of `treeSize` bytes could
      have held the input. */
  lemma OversizeIsUnrepresentable(n: nat, treeSize: nat, b: seq<Byte>)
    requires FixedWidthLeaf(n, treeSize).Err?
    requires |b| == treeSize >= 1
    ensures Value(b) != n
  {
    ValueBound(b);
  }

  /** The size check is inclusive: a value whose natural encoding needs
      exactly `treeSize` bytes is accepted, padded with nothing. */
  lemma ExactFitAccepted(n: nat)
    ensures FixedWidthLeaf(n, |StrDecToByteArray(n)|) == Ok(Leaf(StrDecToByteArray(n)))
  {
    var natural := StrDecToByteArray(n);
    PaddedNatural(n, |natural|);
    assert Zeros(0) + natural == natural;
  }

  /** At width `k` the largest accepted value is 256^k - 1. */
  lemma InclusiveBoundary(k: nat)
    requires k >= 1
    ensures FixedWidthLeaf(Pow256(k) - 1, k).Ok?
    ensures FixedWidthLeaf(Pow256(k), k) == Err(NumberTooBig)
  {
  }

  /** Zero is encoded as `treeSize` zero bytes for every `treeSize >= 1`,
      and a size below one refuses every value, zero included. */
  lemma ZeroIsAllZeros(treeSize: int)
    ensures treeSize >= 1 ==> FixedWidthLeaf(0, treeSize) == Ok(Leaf(Zeros(treeSize)))
    ensures treeSize < 1 ==> forall n: nat :: FixedWidthLeaf(n, treeSize) == Err(NumberTooBig)
  {
    if treeSize >= 1 {
      EncodeZero(treeSize);
    }
  }

  /** Worked examples: 255 in two bytes is `00 ff`; 256 does not fit in one. */
  lemma Examples()
    ensures StrDecToHex(255) == "ff"
    ensures FixedWidthLeaf(255, 2) == Ok(Leaf([0, 255]))
    ensures FixedWidthLeaf(256, 1) == Err(NumberTooBig)
  {
    assert StrDecToHex(15) == "f";
    assert Pow256(2) == 65536;
    assert Encode(0, 1) == [0];
    assert Encode(255, 2) == Encode(0, 1) + [255] == [0, 255];
    assert FixedWidthLeaf(255, 2) == Ok(Leaf(Encode(255, 2)));
  }

  // ---------------------------------------------------------------------
  // Group element

  /** `strDecToModPGroupElement`: encode `n` in the group's modulus byte
      length; an oversize failure is returned as it is and the group is not
      consulted; otherwise the outcome of `toElement` on the padded leaf is
      returned, a thrown failure included. */
  function StrDecToModPGroupElement<E>(n: nat, group: ModPGroup<E>): (r: Result<E>)
    ensures |StrDecToByteArray(n)| > group.modulusByteLength ==> r == Err(NumberTooBig)
    ensures |StrDecToByteArray(n)| <= group.modulusByteLength ==>
      r == group.toElement(Leaf(Zeros(group.modulusByteLength - |StrDecToByteArray(n)|)
                                + StrDecToByteArray(n)))
  {
    var byteTree := FixedWidthLeaf(n, group.modulusByteLength);
    FitsIff(n, group.modulusByteLength);
    if byteTree.Err? then
      Err(byteTree.error)
    else
      PaddedNatural(n, group.modulusByteLength);
      group.toElement(byteTree.value)
  }

  /** The group is consulted only on a leaf of exactly its modulus byte
      length that holds `n`; an oversize value is refused identically
      whatever the group's element constructor would have done. */
  lemma ElementInput<E>(n: nat, group: ModPGroup<E>, other: ByteTree -> Result<E>)
    ensures FixedWidthLeaf(n, group.modulusByteLength).Err? ==>
      StrDecToModPGroupElement(n, group) == Err(NumberTooBig)
      == StrDecToModPGroupElement(n, ModPGroup(group.modulusByteLength, other))
    ensures FixedWidthLeaf(n, group.modulusByteLength).Ok? ==>
      exists t: ByteTree :: t.Leaf? && |t.bytes| == group.modulusByteLength
        && Value(t.bytes) == n && StrDecToModPGroupElement(n, group) == group.toElement(t)
  {
    var len := group.modulusByteLength;
    FitsIff(n, len);
    if FixedWidthLeaf(n, len).Ok? {
      var t := FixedWidthLeaf(n, len).value;
      FixedWidthLeafRoundTrip(n, len);
      PaddedNatural(n, len);
      assert StrDecToModPGroupElement(n, group) == group.toElement(t);
    }
  }

  /** Round trip through the group: if the group's elements read back as
      the number their bytes denote, a successful conversion reads back as
      the input. */
  lemma ElementRoundTrip<E>(n: nat, group: ModPGroup<E>, toInteger: E -> nat)
    requires forall t: ByteTree :: t.Leaf? && group.toElement(t).Ok? ==>
      toInteger(group.toElement(t).value) == Value(t.bytes)
    ensures StrDecToModPGroupElement(n, group).Ok? ==>
      toInteger(StrDecToModPGroupElement(n, group).value) == n
  {
    ElementInput(n, group, group.toElement);
  }

  /** A failure of the group's element constructor reaches the caller
      unchanged, and is never mistaken for the oversize error when the
      constructor does not itself report that error. */
  lemma ElementFailurePropagates<E>(n: nat, group: ModPGroup<E>)
    requires forall t: ByteTree :: group.toElement(t) != Err(NumberTooBig)
    ensures StrDecToModPGroupElement(n, group) == Err(NumberTooBig)
      <==> |StrDecToByteArray(n)| > group.modulusByteLength
  {
    if |StrDecToByteArray(n)| <= group.modulusByteLength {
      FittingElementNotTooBig(n, group);
    }
  }

  /** On a value that fits, the result is whatever the group's constructor
      returns for the padded leaf. */
  lemma FittingElementNotTooBig<E>(n: nat, group: ModPGroup<E>)
    requires |StrDecToByteArray(n)| <= group.modulusByteLength
    requires forall t: ByteTree :: group.toElement(t) != Err(NumberTooBig)
    ensures StrDecToModPGroupElement(n, group) != Err(NumberTooBig)
  {
    var natural := StrDecToByteArray(n);
    var t := Leaf(Zeros(group.modulusByteLength - |natural|) + natural);
    var r := StrDecToModPGroupElement(n, group);
    assert r == group.toElement(t);
    assert group.toElement(t) != Err(NumberTooBig);
  }
}
