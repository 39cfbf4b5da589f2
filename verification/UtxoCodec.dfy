/** The stored form of an entry of the unspent output set (blockchain/chainio.go). */
module UtxoCodec {
  import opened Wrappers
  import opened Transactions
  import opened Buffers
  import opened Vlq
  import opened ScriptCodec
  import opened TxOutCodec
  import opened UtxoEntries
  import opened GoArithmetic

  const U32: nat := 0x1_0000_0000

  // The unspentness bitmap: bit j of byte i stands for output 2 + 8i + j.

  /** The unspent outputs with lo <= index < hi, in increasing order. */
  function UnspentIn(e: UtxoEntry, lo: nat, hi: nat): seq<nat>
    decreases hi - lo
  {
    if lo >= hi then [] else (if e.IsUnspent(lo) then [lo] else []) + UnspentIn(e, lo + 1, hi)
  }

  lemma {:induction false} UnspentSplit(e: UtxoEntry, lo: nat, mid: nat, hi: nat)
    requires lo <= mid <= hi
    ensures UnspentIn(e, lo, hi) == UnspentIn(e, lo, mid) + UnspentIn(e, mid, hi)
    decreases mid - lo
  {
    if lo < mid {
      UnspentSplit(e, lo + 1, mid, hi);
    }
  }

  /** The low k bits of a bitmap byte whose bit 0 stands for output `base`. */
  function Bits(e: UtxoEntry, base: nat, k: nat): nat
    decreases k
  {
    if k == 0 then 0 else (if e.IsUnspent(base) then 1 else 0) + 2 * Bits(e, base + 1, k - 1)
  }

  function DecodeBits(b: nat, base: nat, k: nat): seq<nat>
    decreases k
  {
    if k == 0 then [] else (if b % 2 == 1 then [base] else []) + DecodeBits(b / 2, base + 1, k - 1)
  }

  lemma {:induction false} BitsRoundTrip(e: UtxoEntry, base: nat, k: nat)
    ensures Bits(e, base, k) < Pow2(k)
    ensures DecodeBits(Bits(e, base, k), base, k) == UnspentIn(e, base, base + k)
    decreases k
  {
    if k > 0 {
      BitsRoundTrip(e, base + 1, k - 1);
    }
  }

  lemma ByteRange(e: UtxoEntry, base: nat)
    ensures Bits(e, base, 8) < 256
  {
    BitsRoundTrip(e, base, 8);
    PowerEight();
  }

  lemma PowerEight()
    ensures Pow2(8) == 256
  {}

  function BitmapByte(e: UtxoEntry, i: nat): Byte {
    ByteRange(e, 2 + 8 * i);
    Bits(e, 2 + 8 * i, 8)
  }

  function Bitmap(e: UtxoEntry, n: nat): (r: Bytes)
    ensures |r| == n
  {
    if n == 0 then [] else Bitmap(e, n - 1) + [BitmapByte(e, n - 1)]
  }

  function DecodeBitmap(s: Bytes): seq<nat> {
    if s == [] then [] else DecodeBitmap(s[..|s| - 1]) + DecodeBits(s[|s| - 1], 2 + 8 * (|s| - 1), 8)
  }

  lemma EightBits(e: UtxoEntry, base: nat)
    ensures Bits(e, base, 8) ==
      Digit(e, base) + 2 * Digit(e, base + 1) + 4 * Digit(e, base + 2) + 8 * Digit(e, base + 3)
      + 16 * Digit(e, base + 4) + 32 * Digit(e, base + 5) + 64 * Digit(e, base + 6) + 128 * Digit(e, base + 7)
  {
    assert Bits(e, base + 7, 1) == Digit(e, base + 7);
    assert Bits(e, base + 6, 2) == Digit(e, base + 6) + 2 * Bits(e, base + 7, 1);
    assert Bits(e, base + 5, 3) == Digit(e, base + 5) + 2 * Bits(e, base + 6, 2);
    assert Bits(e, base + 4, 4) == Digit(e, base + 4) + 2 * Bits(e, base + 5, 3);
    assert Bits(e, base + 3, 5) == Digit(e, base + 3) + 2 * Bits(e, base + 4, 4);
    assert Bits(e, base + 2, 6) == Digit(e, base + 2) + 2 * Bits(e, base + 3, 5);
    assert Bits(e, base + 1, 7) == Digit(e, base + 1) + 2 * Bits(e, base + 2, 6);
  }

  function Digit(e: UtxoEntry, i: nat): nat {
    if e.IsUnspent(i) then 1 else 0
  }

  /** A byte made of the bits below place k, the one there and those above. */
  lemma BitOf(b: Byte, k: nat, low: nat, digit: nat, high: nat)
    requires k < 8 && digit <= 1 && low < [1, 2, 4, 8, 16, 32, 64, 128][k]
    requires b == low + [1, 2, 4, 8, 16, 32, 64, 128][k] * (digit + 2 * high)
    ensures Bit(b, k) == (digit == 1)
  {
    ModUnique(b, [1, 2, 4, 8, 16, 32, 64, 128][k], digit + 2 * high, low);
  }

  lemma ByteBit(e: UtxoEntry, i: nat, j: nat)
    requires j < 8
    ensures Bit(BitmapByte(e, i), j) <==> e.IsUnspent(2 + 8 * i + j)
  {
    if j < 4 {
      LowBit(e, i, j);
    } else {
      HighBit(e, i, j);
    }
  }

  lemma LowBit(e: UtxoEntry, i: nat, j: nat)
    requires j < 4
    ensures Bit(BitmapByte(e, i), j) <==> e.IsUnspent(2 + 8 * i + j)
  {
    hide Bits, Bit;
    var base, b := 2 + 8 * i, BitmapByte(e, i);
    EightBits(e, base);
    var d0, d1, d2, d3 := Digit(e, base), Digit(e, base + 1), Digit(e, base + 2), Digit(e, base + 3);
    var above := Digit(e, base + 4) + 2 * Digit(e, base + 5) + 4 * Digit(e, base + 6) + 8 * Digit(e, base + 7);
    if j == 0 {
      BitOf(b, 0, 0, d0, d1 + 2 * d2 + 4 * d3 + 8 * above);
    } else if j == 1 {
      BitOf(b, 1, d0, d1, d2 + 2 * d3 + 4 * above);
    } else if j == 2 {
      BitOf(b, 2, d0 + 2 * d1, d2, d3 + 2 * above);
    } else {
      BitOf(b, 3, d0 + 2 * d1 + 4 * d2, d3, above);
    }
  }

  lemma HighBit(e: UtxoEntry, i: nat, j: nat)
    requires 4 <= j < 8
    ensures Bit(BitmapByte(e, i), j) <==> e.IsUnspent(2 + 8 * i + j)
  {
    hide Bits, Bit;
    var base, b := 2 + 8 * i, BitmapByte(e, i);
    EightBits(e, base);
    var d4, d5, d6, d7 := Digit(e, base + 4), Digit(e, base + 5), Digit(e, base + 6), Digit(e, base + 7);
    var below := Digit(e, base) + 2 * Digit(e, base + 1) + 4 * Digit(e, base + 2) + 8 * Digit(e, base + 3);
    if j == 4 {
      BitOf(b, 4, below, d4, d5 + 2 * d6 + 4 * d7);
    } else if j == 5 {
      BitOf(b, 5, below + 16 * d4, d5, d6 + 2 * d7);
    } else if j == 6 {
      BitOf(b, 6, below + 16 * d4 + 32 * d5, d6, d7);
    } else {
      BitOf(b, 7, below + 16 * d4 + 32 * d5 + 64 * d6, d7, 0);
    }
  }

  /** Bit j of byte i of the bitmap stands for output 2 + 8i + j. */
  lemma {:induction false} BitmapBit(e: UtxoEntry, n: nat, i: nat, j: nat)
    requires i < n && j < 8
    ensures Bit(Bitmap(e, n)[i], j) <==> e.IsUnspent(2 + 8 * i + j)
  {
    hide BitmapByte, Bit;
    if i < n - 1 {
      BitmapBit(e, n - 1, i, j);
    } else {
      ByteBit(e, i, j);
    }
  }

  lemma ByteRoundTrip(e: UtxoEntry, i: nat)
    ensures DecodeBits(BitmapByte(e, i), 2 + 8 * i, 8) == UnspentIn(e, 2 + 8 * i, 2 + 8 * (i + 1))
  {
    hide DecodeBits, UnspentIn, Bits;
    BitsRoundTrip(e, 2 + 8 * i, 8);
  }

  lemma {:induction false} BitmapRoundTrip(e: UtxoEntry, n: nat)
    ensures DecodeBitmap(Bitmap(e, n)) == UnspentIn(e, 2, 2 + 8 * n)
  {
    hide BitmapByte, DecodeBits, UnspentIn;
    if n > 0 {
      BitmapRoundTrip(e, n - 1);
      ByteRoundTrip(e, n - 1);
      UnspentSplit(e, 2, 2 + 8 * (n - 1), 2 + 8 * n);
      assert Bitmap(e, n)[..n - 1] == Bitmap(e, n - 1);
    } else {
      UnspentNone(e, 2);
    }
  }

  lemma UnspentNone(e: UtxoEntry, lo: nat)
    ensures UnspentIn(e, lo, lo) == []
  {}

  // The header code: two bits for outputs 0 and 1 and the number of bitmap bytes, less one when
  // neither of the two outputs is unspent.

  function HeaderCode(e: UtxoEntry, bitmapBytes: nat): nat
    requires e.IsUnspent(0) || e.IsUnspent(1) || bitmapBytes > 0
  {
    4 * (bitmapBytes - (if e.IsUnspent(0) || e.IsUnspent(1) then 0 else 1))
    + (if e.IsUnspent(0) then 1 else 0) + (if e.IsUnspent(1) then 2 else 0)
  }

  function BitmapBytesOf(code: nat): nat {
    code / 4 + (if code % 4 == 0 then 1 else 0)
  }

  /** Outputs 0 and 1 as the header code gives them. */
  function FirstTwo(code: nat): seq<nat> {
    (if code % 2 == 1 then [0] else []) + (if code / 2 % 2 == 1 then [1] else [])
  }

  /** The lowest bits of the header code say whether outputs 0 and 1 are unspent, the others how many
      bytes the bitmap has, less the one there must be when both are spent. */
  lemma HeaderCodeBits(e: UtxoEntry, bitmapBytes: nat)
    requires e.IsUnspent(0) || e.IsUnspent(1) || bitmapBytes > 0
    ensures var code := HeaderCode(e, bitmapBytes);
            && (code % 2 == 1 <==> e.IsUnspent(0)) && (code / 2 % 2 == 1 <==> e.IsUnspent(1))
            && bitmapBytes == code / 4 + (if e.IsUnspent(0) || e.IsUnspent(1) then 0 else 1)
  {}

  lemma CodeParts(k: nat, r: nat)
    requires r < 4
    ensures (4 * k + r) / 4 == k && (4 * k + r) % 4 == r
    ensures (4 * k + r) % 2 == r % 2 && (4 * k + r) / 2 % 2 == r / 2
  {}

  lemma HeaderCodeRoundTrip(e: UtxoEntry, bitmapBytes: nat)
    requires e.IsUnspent(0) || e.IsUnspent(1) || bitmapBytes > 0
    ensures BitmapBytesOf(HeaderCode(e, bitmapBytes)) == bitmapBytes
    ensures FirstTwo(HeaderCode(e, bitmapBytes)) == UnspentIn(e, 0, 2)
  {
    var r := (if e.IsUnspent(0) then 1 else 0) + (if e.IsUnspent(1) then 2 else 0);
    CodeParts(bitmapBytes - (if r == 0 then 1 else 0), r);
    FirstTwoUnspent(e);
  }

  lemma FirstTwoUnspent(e: UtxoEntry)
    ensures UnspentIn(e, 0, 2) == (if e.IsUnspent(0) then [0] else []) + (if e.IsUnspent(1) then [1] else [])
  {
    assert UnspentIn(e, 2, 2) == [];
    assert UnspentIn(e, 1, 2) == if e.IsUnspent(1) then [1] else [];
  }

  // Entries.

  ghost predicate StorableOutput(o: UtxoOutput) {
    && 0 <= o.amount < U64 / 2 && Amounts.Compressed(o.amount) < U64
    && o.scriptVersion < U16 && |o.pkScript| < U64 / 8
    && (o.compressed ==> SelfDelimiting(o.pkScript))
  }

  ghost predicate Storable(e: UtxoEntry) {
    && e.txVersion < U16 && e.header.height < U32 && e.header.index < U32
    && (forall i :: i in e.sparseOutputs ==> i < U32 - 6 && StorableOutput(e.sparseOutputs[i]))
  }

  /** What loading a stored entry gives: only its unspent outputs, their scripts compressed. */
  function LoadedOutput(curve: Curve, o: UtxoOutput): UtxoOutput {
    UtxoOutput(o.amount, o.scriptVersion, if o.compressed then o.pkScript else Compress(curve, o.pkScript), true, false)
  }

  function Loaded(curve: Curve, e: UtxoEntry): UtxoEntry {
    UtxoEntry(map i | i in e.sparseOutputs && e.IsUnspent(i) :: LoadedOutput(curve, e.sparseOutputs[i]),
              e.header.(stakeExtra := if e.header.txType == SStx then e.header.stakeExtra else []),
              e.txVersion, false)
  }

  function EncodeOne(curve: Curve, o: UtxoOutput): (r: Bytes)
    ensures |r| > 0
  {
    EncodeTxOut(curve, o.amount % U64, o.scriptVersion, o.pkScript, o.compressed, true)
  }

  /** The unspent outputs with lo <= index < hi, in increasing order. */
  function EncodeRange(curve: Curve, e: UtxoEntry, lo: nat, hi: nat): Bytes
    decreases hi - lo
  {
    if lo >= hi then []
    else (if e.IsUnspent(lo) then EncodeOne(curve, e.sparseOutputs[lo]) else []) + EncodeRange(curve, e, lo + 1, hi)
  }

  function DecodeList(s: Bytes, indexes: seq<nat>): (r: Result<(map<nat, UtxoOutput>, nat), DecodeError>)
    ensures r.Ok? ==> r.value.1 <= |s|
  {
    if indexes == [] then Ok((map[], 0)) else
    match DecodeTxOut(s, true)
    case Err(e) => Err(e)
    case Ok(out) =>
      match DecodeList(s[out.size..], indexes[1..])
      case Err(e) => Err(e)
      case Ok((rest, n)) =>
        Ok((map[indexes[0] := UtxoOutput(out.amount, out.version, out.script, true, false)] + rest, out.size + n))
  }

  function LoadedRange(curve: Curve, e: UtxoEntry, lo: nat, hi: nat): map<nat, UtxoOutput> {
    map i: nat | lo <= i < hi && e.IsUnspent(i) :: LoadedOutput(curve, e.sparseOutputs[i])
  }

  lemma OneRoundTrip(curve: Curve, o: UtxoOutput, rest: Bytes)
    requires StorableOutput(o)
    ensures DecodeTxOut(EncodeOne(curve, o) + rest, true) ==
            Ok(DecodedTxOut(o.amount, o.scriptVersion, LoadedOutput(curve, o).pkScript, |EncodeOne(curve, o)|))
  {
    hide EncodeTxOut, DecodeTxOut, Compress, SelfDelimiting, Amounts.Compressed;
    Amounts.Fits(o.amount);
    TxOutRoundTrip(curve, o.amount, o.scriptVersion, o.pkScript, o.compressed, true, rest);
  }

  lemma {:induction false} RangeRoundTrip(curve: Curve, e: UtxoEntry, lo: nat, hi: nat, tail: Bytes)
    requires forall i :: i in e.sparseOutputs ==> StorableOutput(e.sparseOutputs[i])
    ensures DecodeList(EncodeRange(curve, e, lo, hi) + tail, UnspentIn(e, lo, hi)) ==
            Ok((LoadedRange(curve, e, lo, hi), |EncodeRange(curve, e, lo, hi)|))
    decreases hi - lo
  {
    hide EncodeOne, DecodeTxOut, StorableOutput, LoadedOutput, DecodeList;
    if lo >= hi {
      DecodeNothing(tail);
      assert [] + tail == tail;
      assert LoadedRange(curve, e, lo, hi) == map[];
    } else {
      RangeRoundTrip(curve, e, lo + 1, hi, tail);
      var rest, m := EncodeRange(curve, e, lo + 1, hi), LoadedRange(curve, e, lo + 1, hi);
      if e.IsUnspent(lo) {
        assert LoadedRange(curve, e, lo, hi) == map[lo := LoadedOutput(curve, e.sparseOutputs[lo])] + m;
        ListStep(curve, e.sparseOutputs[lo], lo, UnspentIn(e, lo + 1, hi), rest, tail, m);
      } else {
        assert [] + rest == rest && [] + UnspentIn(e, lo + 1, hi) == UnspentIn(e, lo + 1, hi);
        assert LoadedRange(curve, e, lo, hi) == m;
      }
    }
  }

  lemma DecodeNothing(tail: Bytes)
    ensures DecodeList(tail, []) == Ok((map[], 0))
  {}

  /** Reading one more output at the front of the list. */
  lemma ListStep(curve: Curve, o: UtxoOutput, i: nat, indexes: seq<nat>, rest: Bytes, tail: Bytes,
                 m: map<nat, UtxoOutput>)
    requires StorableOutput(o) && DecodeList(rest + tail, indexes) == Ok((m, |rest|))
    ensures DecodeList(EncodeOne(curve, o) + rest + tail, [i] + indexes) ==
            Ok((map[i := LoadedOutput(curve, o)] + m, |EncodeOne(curve, o) + rest|))
  {
    hide EncodeOne, DecodeTxOut, StorableOutput, LoadedOutput;
    OneRoundTrip(curve, o, rest + tail);
    Assoc(EncodeOne(curve, o), rest, tail);
    DropPrefix(EncodeOne(curve, o), rest + tail);
    assert ([i] + indexes)[1..] == indexes;
    LoadedFields(curve, o);
  }

  lemma LoadedFields(curve: Curve, o: UtxoOutput)
    ensures LoadedOutput(curve, o) ==
      UtxoOutput(o.amount, o.scriptVersion, LoadedOutput(curve, o).pkScript, true, false)
  {}

  function FlagsOf(e: UtxoEntry): Byte {
    EncodeFlags(e.header.isCoinBase, e.header.hasExpiry, e.header.txType, false)
  }

  function EncodeHead(e: UtxoEntry, code: nat): Bytes {
    Encode(e.txVersion) + Encode(e.header.height) + Encode(e.header.index) + Encode(FlagsOf(e)) + Encode(code)
  }

  function ExtraOf(e: UtxoEntry): Bytes {
    if e.header.txType == SStx then e.header.stakeExtra else []
  }

  /** The bitmap must reach the highest unspent output and, when outputs 0 and 1 are spent, be
      there at all. */
  ghost predicate Reaches(e: UtxoEntry, bitmapBytes: nat) {
    && (e.IsUnspent(0) || e.IsUnspent(1) || bitmapBytes > 0)
    && forall i: nat :: e.IsUnspent(i) ==> i < 2 + 8 * bitmapBytes
  }

  function EncodeEntry(curve: Curve, e: UtxoEntry, bitmapBytes: nat): Bytes
    requires e.IsUnspent(0) || e.IsUnspent(1) || bitmapBytes > 0
  {
    EncodeHead(e, HeaderCode(e, bitmapBytes)) + Bitmap(e, bitmapBytes)
    + EncodeRange(curve, e, 0, 2 + 8 * bitmapBytes) + ExtraOf(e)
  }

  /** The outputs follow one another by index: behind those below an unspent one comes that one, with its
      amount, then those above. */
  lemma {:induction false} OutputPlace(curve: Curve, e: UtxoEntry, lo: nat, hi: nat, i: nat)
    requires lo <= i < hi && e.IsUnspent(i) && StorableOutput(e.sparseOutputs[i])
    ensures var o := e.sparseOutputs[i];
            EncodeRange(curve, e, lo, hi) ==
            EncodeRange(curve, e, lo, i)
            + EncodeTxOut(curve, o.amount, o.scriptVersion, o.pkScript, o.compressed, true)
            + EncodeRange(curve, e, i + 1, hi)
    decreases i - lo
  {
    hide EncodeTxOut, EncodeOne, StorableOutput;
    var rest := EncodeRange(curve, e, i + 1, hi);
    OneIs(curve, e.sparseOutputs[i]);
    if lo < i {
      OutputPlace(curve, e, lo + 1, hi, i);
      var own := if e.IsUnspent(lo) then EncodeOne(curve, e.sparseOutputs[lo]) else [];
      var one := EncodeOne(curve, e.sparseOutputs[i]);
      Assoc(own, EncodeRange(curve, e, lo + 1, i), one + rest);
      Assoc(own, EncodeRange(curve, e, lo + 1, i), one);
      Assoc(EncodeRange(curve, e, lo + 1, i), one, rest);
      Assoc(EncodeRange(curve, e, lo, i), one, rest);
    } else {
      assert [] + EncodeOne(curve, e.sparseOutputs[i]) == EncodeOne(curve, e.sparseOutputs[i]);
    }
  }

  lemma OneIs(curve: Curve, o: UtxoOutput)
    requires StorableOutput(o)
    ensures EncodeOne(curve, o) == EncodeTxOut(curve, o.amount, o.scriptVersion, o.pkScript, o.compressed, true)
  {
    hide EncodeTxOut, SelfDelimiting;
  }

  /** Only the second output is unspent, a million atoms paid to a public key hash: the entry of the test
      with this name, for any hash. */
  lemma SecondOutputExample(curve: Curve, hash: Bytes, e: UtxoEntry)
    requires |hash| == 20
    requires e.header == Header(55555, 1, false, false, Regular, []) && e.txVersion == 1
    requires e.sparseOutputs ==
      map[1 := UtxoOutput(1000000, 0, [0x76, 0xa9, 0x14] + hash + [0x88, 0xac], false, false)]
    ensures EncodeEntry(curve, e, 0) == [0x01, 0x82, 0xb1, 0x03, 0x01, 0x00, 0x02, 0x07, 0x00, 0x00] + hash
  {
    hide Encode, Compress, Amounts.Compressed;
    FormsAre(curve, hash, []);
    ExampleNumbers();
    TxOutLayout(curve, 1000000, 0, [0x76, 0xa9, 0x14] + hash + [0x88, 0xac]);
    assert EncodeRange(curve, e, 1, 2) == EncodeOne(curve, e.sparseOutputs[1]) + EncodeRange(curve, e, 2, 2);
    assert EncodeRange(curve, e, 0, 2) == [0x07, 0x00, 0x00] + hash;
  }

  lemma ExampleNumbers()
    ensures Encode(0) == [0x00] && Encode(1) == [0x01] && Encode(2) == [0x02] && Encode(7) == [0x07]
    ensures Encode(55555) == [0x82, 0xb1, 0x03]
    ensures Amounts.Compressed(1000000) == 7
  {
    hide Groups, Amounts.Compressed;
    Last(0, true);
    Last(1, true);
    Last(2, true);
    Last(7, true);
    Last(55555, true);
    Last(433, false);
    Last(2, false);
    Amounts.CompressedIs(1, 6);
  }

  /** A field that must not be the last thing in the buffer. */
  function DecodeField(s: Bytes): Result<(nat, Bytes), DecodeError> {
    var (v, n) := Decode(s);
    if n >= |s| then Err(UnexpectedEnd) else Ok((v, s[n..]))
  }

  lemma FieldRoundTrip(v: nat, rest: Bytes)
    requires v < U64 && rest != []
    ensures DecodeField(Encode(v) + rest) == Ok((v, rest))
  {
    hide Encode, Decode;
    RoundTrip(v, rest);
    DropPrefix(Encode(v), rest);
  }

  datatype Fields = Fields(version: nat, height: nat, index: nat, flags: nat, code: nat, rest: Bytes)

  function DecodeHead(s: Bytes): Result<Fields, DecodeError> {
    match DecodeField(s) case Err(e) => Err(e) case Ok((version, s1)) =>
    match DecodeField(s1) case Err(e) => Err(e) case Ok((height, s2)) =>
    match DecodeField(s2) case Err(e) => Err(e) case Ok((index, s3)) =>
    match DecodeField(s3) case Err(e) => Err(e) case Ok((flags, s4)) =>
    match DecodeField(s4) case Err(e) => Err(e) case Ok((code, s5)) =>
    Ok(Fields(version, height, index, flags, code, s5))
  }

  lemma HeadRoundTrip(e: UtxoEntry, code: nat, rest: Bytes)
    requires e.txVersion < U16 && e.header.height < U32 && e.header.index < U32 && code < U64 && rest != []
    ensures DecodeHead(EncodeHead(e, code) + rest) ==
            Ok(Fields(e.txVersion, e.header.height, e.header.index, FlagsOf(e), code, rest))
  {
    hide Encode, DecodeField, EncodeFlags;
    var a, b, c, d, f := Encode(e.txVersion), Encode(e.header.height), Encode(e.header.index), Encode(FlagsOf(e)),
      Encode(code);
    Assoc(a + b + c + d, f, rest);
    Assoc(a + b + c, d, f + rest);
    Assoc(a + b, c, d + (f + rest));
    Assoc(a, b, c + (d + (f + rest)));
    FieldRoundTrip(e.txVersion, b + (c + (d + (f + rest))));
    FieldRoundTrip(e.header.height, c + (d + (f + rest)));
    FieldRoundTrip(e.header.index, d + (f + rest));
    FieldRoundTrip(FlagsOf(e), f + rest);
    FieldRoundTrip(code, rest);
  }

  /** The body behind the header code: bitmap, outputs and ticket data. */
  function DecodeBody(f: Fields): Result<UtxoEntry, DecodeError> {
    var n := BitmapBytesOf(f.code);
    if |f.rest| < n then Err(UnexpectedEnd) else
    var (isCoinBase, hasExpiry, txType, _) := DecodeFlags(f.flags % 256);
    match DecodeList(f.rest[n..], FirstTwo(f.code) + DecodeBitmap(f.rest[..n]))
    case Err(e) => Err(e)
    case Ok((outputs, k)) =>
      var extra := if txType == SStx then f.rest[n..][k..] else [];
      Ok(UtxoEntry(outputs, Header(f.height % U32, f.index % U32, isCoinBase, hasExpiry, txType, extra),
                   f.version % U16, false))
  }

  function DecodeEntry(s: Bytes): Result<UtxoEntry, DecodeError> {
    match DecodeHead(s)
    case Err(e) => Err(e)
    case Ok(f) => DecodeBody(f)
  }

  lemma BodyRoundTrip(curve: Curve, e: UtxoEntry, n: nat)
    requires Storable(e) && Reaches(e, n)
    ensures DecodeBody(Fields(e.txVersion, e.header.height, e.header.index, FlagsOf(e), HeaderCode(e, n),
                              Bitmap(e, n) + (EncodeRange(curve, e, 0, 2 + 8 * n) + ExtraOf(e))))
            == Ok(Loaded(curve, e))
  {
    hide Bitmap, DecodeBitmap, EncodeRange, DecodeList, HeaderCode, BitmapBytesOf, FirstTwo, EncodeFlags, DecodeFlags;
    hide StorableOutput, LoadedOutput, UnspentIn, LoadedRange;
    var list, extra := EncodeRange(curve, e, 0, 2 + 8 * n), ExtraOf(e);
    HeaderCodeRoundTrip(e, n);
    BitmapRoundTrip(e, n);
    UnspentSplit(e, 0, 2, 2 + 8 * n);
    FlagsRoundTrip(e.header.isCoinBase, e.header.hasExpiry, e.header.txType, false);
    RangeRoundTrip(curve, e, 0, 2 + 8 * n, extra);
    DropPrefix(Bitmap(e, n), list + extra);
    DropPrefix(list, extra);
    SameOutputs(curve, e, n);
  }

  lemma SameOutputs(curve: Curve, e: UtxoEntry, n: nat)
    requires Reaches(e, n)
    ensures LoadedRange(curve, e, 0, 2 + 8 * n) == Loaded(curve, e).sparseOutputs
  {
    hide LoadedOutput;
  }

  /** Reading a stored entry gives exactly its unspent outputs and header fields. */
  lemma EntryRoundTrip(curve: Curve, e: UtxoEntry, n: nat)
    requires Storable(e) && Reaches(e, n) && n < U32 && !e.IsFullySpent()
    ensures DecodeEntry(EncodeEntry(curve, e, n)) == Ok(Loaded(curve, e))
  {
    hide EncodeHead, DecodeHead, DecodeBody, Bitmap, EncodeRange, StorableOutput, Loaded, FlagsOf;
    var code := HeaderCode(e, n);
    var list, extra := EncodeRange(curve, e, 0, 2 + 8 * n), ExtraOf(e);
    BodyRoundTrip(curve, e, n);
    var i :| i in e.sparseOutputs && !e.sparseOutputs[i].spent;
    assert e.IsUnspent(i);
    RangeNonEmpty(curve, e, 0, 2 + 8 * n, i);
    Assoc(EncodeHead(e, code) + Bitmap(e, n), list, extra);
    Assoc(EncodeHead(e, code), Bitmap(e, n), list + extra);
    HeadRoundTrip(e, code, Bitmap(e, n) + (list + extra));
  }

  lemma {:induction false} RangeNonEmpty(curve: Curve, e: UtxoEntry, lo: nat, hi: nat, i: nat)
    requires lo <= i < hi && e.IsUnspent(i)
    ensures EncodeRange(curve, e, lo, hi) != []
    decreases i - lo
  {
    hide EncodeOne;
    if lo < i {
      RangeNonEmpty(curve, e, lo + 1, hi, i);
    }
  }

  // Writing.

  ghost predicate IsHighest(e: UtxoEntry, high: nat) {
    high in e.sparseOutputs && forall i :: i in e.sparseOutputs ==> i <= high
  }

  method HighestIndex(e: UtxoEntry) returns (high: nat)
    requires e.sparseOutputs != map[]
    ensures IsHighest(e, high)
  {
    var keys := e.sparseOutputs.Keys;
    high :| high in keys;
    while keys != {}
      invariant high in e.sparseOutputs && keys <= e.sparseOutputs.Keys
      invariant forall i :: i in e.sparseOutputs && i !in keys ==> i <= high
      decreases keys
    {
      var k :| k in keys;
      if k > high {
        high := k;
      }
      keys := keys - {k};
    }
  }

  /** The number of bitmap bytes the writer uses reaches every unspent output. */
  lemma HighestReaches(e: UtxoEntry, high: nat)
    requires IsHighest(e, high) && !e.IsFullySpent()
    ensures Reaches(e, (high + 6) / 8)
  {
    var i :| i in e.sparseOutputs && !e.sparseOutputs[i].spent;
    assert e.IsUnspent(i) && i <= high;
  }

  lemma HeaderCodeEnds(e: UtxoEntry, high: nat)
    requires IsHighest(e, high)
    ensures e.IsFullySpent() && high < 2 <==> !e.IsUnspent(0) && !e.IsUnspent(1) && (high + 6) / 8 == 0
    ensures !e.IsFullySpent() ==> Reaches(e, (high + 6) / 8)
  {
    if !e.IsFullySpent() {
      HighestReaches(e, high);
    }
  }

  method UtxoEntryHeaderCode(e: UtxoEntry, high: nat) returns (r: Result<(nat, nat), DecodeError>)
    requires high < U32 - 6
    ensures var n := (high + 6) / 8;
            r == if !e.IsUnspent(0) && !e.IsUnspent(1) && n == 0 then Err(Mismatch) else Ok((HeaderCode(e, n), n))
    ensures IsHighest(e, high) ==> (r.Err? <==> e.IsFullySpent() && high < 2)
    ensures IsHighest(e, high) && !e.IsFullySpent() ==> r.Ok? && Reaches(e, r.value.1)
  {
    if IsHighest(e, high) {
      HeaderCodeEnds(e, high);
    }
    var numBitmapBytes: nat := (high + 6) % U32 / 8;
    var adjustment := 0;
    if !e.IsUnspent(0) && !e.IsUnspent(1) {
      if numBitmapBytes == 0 {
        return Err(Mismatch);
      }
      adjustment := 1;
    }
    var headerCode: nat := (numBitmapBytes - adjustment) * 4;
    if e.IsUnspent(0) {
      headerCode := headerCode + 1;
    }
    if e.IsUnspent(1) {
      headerCode := headerCode + 2;
    }
    return Ok((headerCode, numBitmapBytes));
  }

  method HeadSize(e: UtxoEntry, code: nat) returns (size: nat)
    requires e.txVersion < U16 && e.header.height < U32 && e.header.index < U32 && code < U64
    ensures size == |EncodeHead(e, code)|
  {
    hide Encode;
    var a := SerializeSizeVLQ(e.txVersion);
    var b := SerializeSizeVLQ(e.header.height);
    var c := SerializeSizeVLQ(e.header.index);
    var d := SerializeSizeVLQ(FlagsOf(e));
    var f := SerializeSizeVLQ(code);
    size := a + b + c + d + f;
  }

  method PutHead(target: array<Byte>, e: UtxoEntry, code: nat) returns (size: nat)
    requires e.txVersion < U16 && e.header.height < U32 && e.header.index < U32 && code < U64
    requires |EncodeHead(e, code)| <= target.Length
    modifies target
    ensures size == |EncodeHead(e, code)|
    ensures Filled(target[..], old(target[..]), 0, EncodeHead(e, code))
  {
    hide Filled, Encode, FlagsOf;
    ghost var before := target[..];
    size := PutVLQ(target, 0, e.txVersion);
    ghost var done, now := Encode(e.txVersion), target[..];
    var n := PutVLQ(target, size, e.header.height);
    FilledMore(now, target[..], before, 0, done, Encode(e.header.height));
    size, done, now := size + n, done + Encode(e.header.height), target[..];
    n := PutVLQ(target, size, e.header.index);
    FilledMore(now, target[..], before, 0, done, Encode(e.header.index));
    size, done, now := size + n, done + Encode(e.header.index), target[..];
    n := PutVLQ(target, size, FlagsOf(e));
    FilledMore(now, target[..], before, 0, done, Encode(FlagsOf(e)));
    size, done, now := size + n, done + Encode(FlagsOf(e)), target[..];
    n := PutVLQ(target, size, code);
    FilledMore(now, target[..], before, 0, done, Encode(code));
    size := size + n;
  }

  method PutBitmap(target: array<Byte>, at: nat, e: UtxoEntry, numBitmapBytes: nat)
    requires at + numBitmapBytes <= target.Length
    modifies target
    ensures Filled(target[..], old(target[..]), at, Bitmap(e, numBitmapBytes))
  {
    hide Filled, BitmapByte;
    FilledNothing(target[..], at);
    for i := 0 to numBitmapBytes
      invariant Filled(target[..], old(target[..]), at, Bitmap(e, i))
    {
      var unspentBits := BuildByte(e, i);
      ghost var now := target[..];
      PutByte(target, at + i, unspentBits);
      SingleByte(now, at + i, unspentBits);
      FilledMore(now, target[..], old(target[..]), at, Bitmap(e, i), [unspentBits]);
    }
  }

  lemma SingleByte(buf: Bytes, at: nat, b: Byte)
    requires at < |buf|
    ensures Filled(buf[at := b], buf, at, [b])
  {}

  /** Set bit j for every unspent output 2 + 8i + j. */
  method BuildByte(e: UtxoEntry, i: nat) returns (b: Byte)
    ensures b == BitmapByte(e, i)
  {
    hide Bits;
    var bits, weight := 0, 1;
    NoBits(e, 2 + i * 8);
    for j := 0 to 8
      invariant weight == Pow2(j) && bits == Bits(e, 2 + i * 8, j)
    {
      BitsSnoc(e, 2 + i * 8, j);
      if e.IsUnspent(2 + i * 8 + j) {
        bits := bits + weight;
      }
      weight := weight * 2;
    }
    ByteRange(e, 2 + i * 8);
    b := bits;
  }

  lemma NoBits(e: UtxoEntry, base: nat)
    ensures Bits(e, base, 0) == 0
  {}

  /** Setting bit k on top of the k bits below it. */
  lemma {:induction false} BitsSnoc(e: UtxoEntry, base: nat, k: nat)
    ensures Bits(e, base, k + 1) == Bits(e, base, k) + (if e.IsUnspent(base + k) then Pow2(k) else 0)
    decreases k
  {
    if k > 0 {
      BitsSnoc(e, base + 1, k - 1);
    }
  }

  method PutRange(target: array<Byte>, at: nat, curve: Curve, e: UtxoEntry, count: nat) returns (size: nat)
    requires Storable(e) && at + |EncodeRange(curve, e, 0, count)| <= target.Length
    modifies target
    ensures size == |EncodeRange(curve, e, 0, count)|
    ensures Filled(target[..], old(target[..]), at, EncodeRange(curve, e, 0, count))
  {
    hide Filled, EncodeTxOut, SelfDelimiting, Amounts.Compressed;
    ghost var all, done: Bytes := EncodeRange(curve, e, 0, count), [];
    FilledNothing(target[..], at);
    size := 0;
    for i := 0 to count
      invariant size == |done|
      invariant all == done + EncodeRange(curve, e, i, count)
      invariant Filled(target[..], old(target[..]), at, done)
    {
      if e.IsUnspent(i) {
        var out := e.sparseOutputs[i];
        assert StorableOutput(out);
        ghost var now := target[..];
        Assoc(done, EncodeOne(curve, out), EncodeRange(curve, e, i + 1, count));
        var n := PutCompressedTxOut(target, at + size, curve, out.amount % U64, out.scriptVersion, out.pkScript,
                                    out.compressed, true);
        FilledMore(now, target[..], old(target[..]), at, done, EncodeOne(curve, out));
        size, done := size + n, done + EncodeOne(curve, out);
      }
    }
    assert all == done;
  }

  method RangeSize(curve: Curve, e: UtxoEntry, count: nat) returns (size: nat)
    requires Storable(e)
    ensures size == |EncodeRange(curve, e, 0, count)|
  {
    hide EncodeTxOut, SelfDelimiting, Amounts.Compressed;
    ghost var all := |EncodeRange(curve, e, 0, count)|;
    size := 0;
    for i := 0 to count
      invariant size + |EncodeRange(curve, e, i, count)| == all
    {
      if e.IsUnspent(i) {
        var out := e.sparseOutputs[i];
        assert StorableOutput(out);
        var n := CompressedTxOutSize(curve, out.amount % U64, out.scriptVersion, out.pkScript, out.compressed, true);
        size := size + n;
      }
    }
  }

  /** The computed size is exactly what is written; a fully spent entry has no stored form (None). */
  method SerializeUtxoEntry(curve: Curve, e: UtxoEntry) returns (r: Result<Option<Bytes>, DecodeError>)
    requires Storable(e)
    ensures e.IsFullySpent() ==> r == Ok(None)
    ensures !e.IsFullySpent() ==>
      exists n: nat :: n < U32 && Reaches(e, n) && r == Ok(Some(EncodeEntry(curve, e, n)))
  {
    hide Filled, EncodeHead, Bitmap, EncodeRange, StorableOutput;
    if e.IsFullySpent() {
      return Ok(None);
    }
    var high := HighestIndex(e);
    HighestReaches(e, high);
    var code := UtxoEntryHeaderCode(e, high);
    if code.Err? {
      assert false;
    }
    var (headerCode, numBitmapBytes) := code.value;
    var count := 2 + 8 * numBitmapBytes;
    var headSize := HeadSize(e, headerCode);
    var listSize := RangeSize(curve, e, count);
    var serialized := new Byte[headSize + numBitmapBytes + listSize + |ExtraOf(e)|](_ => 0);
    ghost var blank := serialized[..];
    ghost var head, bitmap, list := EncodeHead(e, headerCode), Bitmap(e, numBitmapBytes),
      EncodeRange(curve, e, 0, count);
    var offset := PutHead(serialized, e, headerCode);
    ghost var now := serialized[..];
    PutBitmap(serialized, offset, e, numBitmapBytes);
    FilledMore(now, serialized[..], blank, 0, head, bitmap);
    offset, now := offset + numBitmapBytes, serialized[..];
    var n := PutRange(serialized, offset, curve, e, count);
    FilledMore(now, serialized[..], blank, 0, head + bitmap, list);
    offset, now := offset + n, serialized[..];
    Copy(serialized, offset, ExtraOf(e));
    FilledMore(now, serialized[..], blank, 0, head + bitmap + list, ExtraOf(e));
    FilledAll(serialized[..], blank, head + bitmap + list + ExtraOf(e));
    assert serialized[..] == EncodeEntry(curve, e, numBitmapBytes);
    return Ok(Some(serialized[..]));
  }

  // Reading.

  lemma DropDrop(s: Bytes, a: nat, b: nat)
    requires a + b <= |s|
    ensures s[a..][b..] == s[a + b..]
  {}

  /** Read a field that must not be the last thing in the buffer. */
  method ReadField(s: Bytes, start: nat) returns (r: Result<(nat, nat), DecodeError>)
    requires start <= |s|
    ensures r.Err? ==> DecodeField(s[start..]) == Err(r.error)
    ensures r.Ok? ==> start <= r.value.1 <= |s| && DecodeField(s[start..]) == Ok((r.value.0, s[r.value.1..]))
  {
    hide Decode;
    var v, bytesRead := DeserializeVLQ(s[start..]);
    var offset := start + bytesRead;
    if offset >= |s| {
      return Err(UnexpectedEnd);
    }
    DropDrop(s, start, bytesRead);
    r := Ok((v, offset));
  }

  method ReadHead(s: Bytes) returns (r: Result<(Fields, nat), DecodeError>)
    ensures r.Err? ==> DecodeHead(s) == Err(r.error)
    ensures r.Ok? ==> r.value.1 <= |s| && r.value.0.rest == s[r.value.1..] && DecodeHead(s) == Ok(r.value.0)
  {
    hide DecodeField;
    assert s[0..] == s;
    var version := ReadField(s, 0);
    if version.Err? { return Err(version.error); }
    var height := ReadField(s, version.value.1);
    if height.Err? { return Err(height.error); }
    var index := ReadField(s, height.value.1);
    if index.Err? { return Err(index.error); }
    var flags := ReadField(s, index.value.1);
    if flags.Err? { return Err(flags.error); }
    var code := ReadField(s, flags.value.1);
    if code.Err? { return Err(code.error); }
    r := Ok((Fields(version.value.0, height.value.0, index.value.0, flags.value.0, code.value.0, s[code.value.1..]),
             code.value.1));
  }

  lemma DecodeBitsStep(b: nat, base: nat, k: nat)
    requires k > 0
    ensures DecodeBits(b, base, k) == (if b % 2 == 1 then [base] else []) + DecodeBits(b / 2, base + 1, k - 1)
  {}

  /** The outputs of one bitmap byte, lowest bit first. */
  method ReadBitmapByte(unspentBits: Byte, i: nat, before: seq<nat>) returns (outputIndexes: seq<nat>)
    ensures outputIndexes == before + DecodeBits(unspentBits, 2 + 8 * i, 8)
  {
    hide DecodeBits;
    outputIndexes := before;
    var bits: nat, j := unspentBits, 0;
    while j < 8
      invariant 0 <= j <= 8
      invariant outputIndexes + DecodeBits(bits, 2 + 8 * i + j, 8 - j) == before + DecodeBits(unspentBits, 2 + 8 * i, 8)
      decreases 8 - j
    {
      DecodeBitsStep(bits, 2 + 8 * i + j, 8 - j);
      if bits % 2 != 0 {
        outputIndexes := outputIndexes + [2 + i * 8 + j];
      }
      bits := bits / 2;
      j := j + 1;
    }
    NoMoreBits(bits, 2 + 8 * i + 8);
  }

  lemma NoMoreBits(b: nat, base: nat)
    ensures DecodeBits(b, base, 0) == []
  {}

  /** The indexes the header code and the bitmap give. */
  method ReadIndexes(s: Bytes, start: nat, code: nat) returns (outputIndexes: seq<nat>)
    requires start + BitmapBytesOf(code) <= |s|
    ensures outputIndexes == FirstTwo(code) + DecodeBitmap(s[start..][..BitmapBytesOf(code)])
  {
    hide DecodeBits;
    outputIndexes := [];
    if code % 2 != 0 {
      outputIndexes := outputIndexes + [0];
    }
    if code / 2 % 2 != 0 {
      outputIndexes := outputIndexes + [1];
    }
    ghost var bitmap := s[start..][..BitmapBytesOf(code)];
    for i := 0 to BitmapBytesOf(code)
      invariant outputIndexes == FirstTwo(code) + DecodeBitmap(bitmap[..i])
    {
      assert bitmap[..i + 1][..i] == bitmap[..i] && bitmap[i] == s[start + i];
      outputIndexes := ReadBitmapByte(s[start + i], i, outputIndexes);
    }
    assert bitmap[..BitmapBytesOf(code)] == bitmap;
  }

  /** What is left to read after some outputs have been read. */
  function Resume(s: Bytes, indexes: seq<nat>, done: map<nat, UtxoOutput>, read: nat):
    Result<(map<nat, UtxoOutput>, nat), DecodeError>
  {
    match DecodeList(s, indexes)
    case Err(e) => Err(e)
    case Ok((rest, n)) => Ok((done + rest, read + n))
  }

  lemma ResumeStart(s: Bytes, indexes: seq<nat>)
    ensures Resume(s, indexes, map[], 0) == DecodeList(s, indexes)
  {
    if DecodeList(s, indexes).Ok? {
      assert map[] + DecodeList(s, indexes).value.0 == DecodeList(s, indexes).value.0;
    }
  }

  lemma ResumeFails(s: Bytes, indexes: seq<nat>, done: map<nat, UtxoOutput>, read: nat)
    requires indexes != [] && DecodeTxOut(s, true).Err?
    ensures Resume(s, indexes, done, read) == Err(DecodeTxOut(s, true).error)
  {}

  lemma ResumeStep(s: Bytes, indexes: seq<nat>, done: map<nat, UtxoOutput>, read: nat)
    requires indexes != [] && DecodeTxOut(s, true).Ok?
    ensures var out := DecodeTxOut(s, true).value;
            Resume(s, indexes, done, read) ==
            Resume(s[out.size..], indexes[1..],
                   done[indexes[0] := UtxoOutput(out.amount, out.version, out.script, true, false)], read + out.size)
  {
    hide DecodeTxOut;
    var out := DecodeTxOut(s, true).value;
    var o := UtxoOutput(out.amount, out.version, out.script, true, false);
    var more := DecodeList(s[out.size..], indexes[1..]);
    if more.Ok? {
      assert done + (map[indexes[0] := o] + more.value.0) == done[indexes[0] := o] + more.value.0;
    }
  }

  lemma ResumeEnd(s: Bytes, done: map<nat, UtxoOutput>, read: nat)
    ensures Resume(s, [], done, read) == Ok((done, read))
  {
    assert done + map[] == done;
  }

  /** The outputs one after the other. */
  method ReadOutputs(s: Bytes, start: nat, outputIndexes: seq<nat>)
    returns (r: Result<(map<nat, UtxoOutput>, nat), DecodeError>)
    requires start <= |s|
    ensures r.Err? ==> DecodeList(s[start..], outputIndexes) == Err(r.error)
    ensures r.Ok? ==>
      start <= r.value.1 <= |s| && DecodeList(s[start..], outputIndexes) == Ok((r.value.0, r.value.1 - start))
  {
    hide DecodeList, DecodeTxOut, Resume;
    var outputs: map<nat, UtxoOutput>, offset: nat := map[], start;
    ResumeStart(s[start..], outputIndexes);
    assert outputIndexes[0..] == outputIndexes;
    for i := 0 to |outputIndexes|
      invariant start <= offset <= |s|
      invariant Resume(s[offset..], outputIndexes[i..], outputs, offset - start) ==
        DecodeList(s[start..], outputIndexes)
    {
      var out := DecodeTxOut(s[offset..], true);
      if out.Err? {
        ResumeFails(s[offset..], outputIndexes[i..], outputs, offset - start);
        return Err(out.error);
      }
      ResumeStep(s[offset..], outputIndexes[i..], outputs, offset - start);
      DropDrop(s, offset, out.value.size);
      assert outputIndexes[i..][1..] == outputIndexes[i + 1..];
      outputs := outputs[outputIndexes[i] := UtxoOutput(out.value.amount, out.value.version, out.value.script, true,
                                                        false)];
      offset := offset + out.value.size;
    }
    assert outputIndexes[|outputIndexes|..] == [];
    ResumeEnd(s[offset..], outputs, offset - start);
    r := Ok((outputs, offset));
  }

  /** Read a stored entry. */
  method DeserializeUtxoEntry(s: Bytes) returns (r: Result<UtxoEntry, DecodeError>)
    ensures r == DecodeEntry(s)
  {
    hide DecodeHead, DecodeList, DecodeBitmap, FirstTwo, DecodeFlags;
    var head := ReadHead(s);
    if head.Err? {
      return Err(head.error);
    }
    var (f, offset) := head.value;
    var (isCoinBase, hasExpiry, txType, _) := DecodeFlags(f.flags % 256);
    var numBitmapBytes := f.code / 4;
    if f.code % 2 == 0 && f.code / 2 % 2 == 0 {
      numBitmapBytes := numBitmapBytes + 1;
    }
    LowBits(f.code);
    if |s| - offset < numBitmapBytes {
      return Err(UnexpectedEnd);
    }
    var outputIndexes := ReadIndexes(s, offset, f.code);
    DropDrop(s, offset, numBitmapBytes);
    offset := offset + numBitmapBytes;
    var outputs := ReadOutputs(s, offset, outputIndexes);
    if outputs.Err? {
      return Err(outputs.error);
    }
    DropDrop(s, offset, outputs.value.1 - offset);
    var stakeExtra := if txType == SStx then s[outputs.value.1..] else [];
    r := Ok(UtxoEntry(outputs.value.0, Header(f.height % U32, f.index % U32, isCoinBase, hasExpiry, txType, stakeExtra),
                      f.version % U16, false));
  }

  lemma LowBits(code: nat)
    ensures code % 2 == 0 && code / 2 % 2 == 0 <==> code % 4 == 0
  {}
}
