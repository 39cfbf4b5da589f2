/** Compressed transaction outputs, flag bytes (blockchain/compress.go) and minimal outputs
    (blockchain/chainio.go). */
module TxOutCodec {
  import opened Wrappers
  import opened Transactions
  import opened Buffers
  import opened Vlq
  import opened ScriptCodec
  import Amounts

  const U16: nat := 65536

  datatype DecodeError = UnexpectedEnd | NegativeSize | Mismatch

  /** The bytes of an output; the script is compressed here unless it already is. */
  function EncodeTxOut(curve: Curve, amount: nat, version: nat, script: Bytes,
                       preCompressed: bool, hasAmount: bool): (r: Bytes)
    ensures |r| > 0
  {
    EncodeHead(amount, version, hasAmount) + (if preCompressed then script else Compress(curve, script))
  }

  function EncodeHead(amount: nat, version: nat, hasAmount: bool): (r: Bytes)
    ensures |r| > 0
  {
    (if hasAmount then Encode(Amounts.CompressU64(amount)) else []) + Encode(version)
  }

  /** The amount goes first when it is kept, then the version of the script, then the script. */
  lemma TxOutLayout(curve: Curve, amount: nat, version: nat, script: Bytes)
    requires Amounts.Compressed(amount) < U64
    ensures EncodeTxOut(curve, amount, version, script, false, true) ==
            Encode(Amounts.Compressed(amount)) + Encode(version) + Compress(curve, script)
    ensures EncodeTxOut(curve, amount, version, script, true, true) ==
            Encode(Amounts.Compressed(amount)) + Encode(version) + script
    ensures EncodeTxOut(curve, amount, version, script, false, false) == Encode(version) + Compress(curve, script)
    ensures EncodeTxOut(curve, amount, version, script, true, false) == Encode(version) + script
  {
    hide Encode, Compress, Amounts.Compressed;
    assert [] + Encode(version) == Encode(version);
    Amounts.Fits(amount);
  }

  method CompressedTxOutSize(curve: Curve, amount: nat, version: nat, script: Bytes,
                             preCompressed: bool, hasAmount: bool) returns (size: nat)
    requires amount < U64 && version < U16 && |script| < U64 / 8
    ensures size == |EncodeTxOut(curve, amount, version, script, preCompressed, hasAmount)|
  {
    size := SerializeSizeVLQ(version);
    if hasAmount {
      var compressed := Amounts.CompressTxOutAmount(amount);
      var n := SerializeSizeVLQ(compressed);
      size := size + n;
    }
    if preCompressed {
      size := size + |script|;
    } else {
      var n := CompressedScriptSize(curve, script);
      size := size + n;
    }
  }

  method PutCompressedTxOut(target: array<Byte>, at: nat, curve: Curve, amount: nat, version: nat, script: Bytes,
                            preCompressed: bool, hasAmount: bool) returns (size: nat)
    requires amount < U64 && version < U16 && |script| < U64 / 8
    requires at + |EncodeTxOut(curve, amount, version, script, preCompressed, hasAmount)| <= target.Length
    modifies target
    ensures size == |EncodeTxOut(curve, amount, version, script, preCompressed, hasAmount)|
    ensures Filled(target[..], old(target[..]), at,
                   EncodeTxOut(curve, amount, version, script, preCompressed, hasAmount))
  {
    hide Filled, Encode, Compress, Amounts.CompressU64;
    ghost var c := if preCompressed then script else Compress(curve, script);
    size := PutAmountAndVersion(target, at, amount, version, hasAmount);
    ghost var now := target[..];
    var n := |script|;
    if preCompressed {
      Copy(target, at + size, script);
    } else {
      n := PutCompressedScript(target, at + size, curve, script);
    }
    FilledMore(now, target[..], old(target[..]), at, EncodeHead(amount, version, hasAmount), c);
    size := size + n;
  }

  method PutAmountAndVersion(target: array<Byte>, at: nat, amount: nat, version: nat, hasAmount: bool)
    returns (size: nat)
    requires amount < U64 && version < U16
    requires at + |EncodeHead(amount, version, hasAmount)| <= target.Length
    modifies target
    ensures size == |EncodeHead(amount, version, hasAmount)|
    ensures Filled(target[..], old(target[..]), at, EncodeHead(amount, version, hasAmount))
  {
    hide Filled, Encode, Amounts.CompressU64;
    FilledNothing(target[..], at);
    ghost var done: Bytes := [];
    size := 0;
    if hasAmount {
      var compressed := Amounts.CompressTxOutAmount(amount);
      size := PutVLQ(target, at, compressed);
      done := Encode(compressed);
    }
    ghost var now := target[..];
    var n := PutVLQ(target, at + size, version);
    FilledMore(now, target[..], old(target[..]), at, done, Encode(version));
    size := size + n;
  }

  datatype DecodedTxOut = DecodedTxOut(amount: int, version: nat, script: Bytes, size: nat)

  /** Decode an output at the front of `s`, leaving the script compressed. */
  function DecodeTxOut(s: Bytes, hasAmount: bool): (r: Result<DecodedTxOut, DecodeError>)
    ensures r.Ok? ==> 0 < r.value.size <= |s|
  {
    var (compressed, n) := if hasAmount then Decode(s) else (0, 0);
    if hasAmount && n == 0 then Err(UnexpectedEnd) else
    var amount := if hasAmount then ToInt64(Amounts.DecompressU64(compressed)) else 0;
    match DecodeVersionAndScript(s[n..])
    case Err(e) => Err(e)
    case Ok(d) => Ok(DecodedTxOut(amount, d.version, d.script, n + d.size))
  }

  function DecodeVersionAndScript(s: Bytes): (r: Result<DecodedTxOut, DecodeError>)
    ensures r.Ok? ==> 0 < r.value.size <= |s|
  {
    var (version, k) := Decode(s);
    if k == 0 then Err(UnexpectedEnd) else
    var afterVersion := s[k..];
    var scriptSize := DecodeSize(afterVersion);
    if scriptSize < 0 then Err(NegativeSize)
    else if |afterVersion| < scriptSize then Err(UnexpectedEnd)
    else Ok(DecodedTxOut(0, version % U16, afterVersion[..scriptSize], k + scriptSize))
  }

  lemma VersionAndScriptRoundTrip(version: nat, c: Bytes, tail: Bytes)
    requires version < U16 && DecodeSize(c + tail) == |c|
    ensures DecodeVersionAndScript(Encode(version) + (c + tail)) ==
            Ok(DecodedTxOut(0, version, c, |Encode(version)| + |c|))
  {
    hide Encode, Decode, DecodeSize;
    RoundTrip(version, c + tail);
    DropPrefix(Encode(version), c + tail);
    DropPrefix(c, tail);
  }

  /** A compressed script the decoder can delimit whatever follows it. */
  ghost predicate SelfDelimiting(c: Bytes) {
    forall tail: Bytes :: DecodeSize(c + tail) == |c|
  }

  /** In all four cases of the two flags, what was written decodes to the same amount, version and
      compressed script and to its exact length, whatever follows. */
  lemma TxOutRoundTrip(curve: Curve, amount: nat, version: nat, script: Bytes,
                       preCompressed: bool, hasAmount: bool, tail: Bytes)
    requires amount < U64 / 2 && Amounts.Compressed(amount) < U64 && version < U16 && |script| < U64 / 8
    requires preCompressed ==> SelfDelimiting(script)
    ensures var e := EncodeTxOut(curve, amount, version, script, preCompressed, hasAmount);
            DecodeTxOut(e + tail, hasAmount) ==
            Ok(DecodedTxOut(if hasAmount then amount else 0, version,
                            if preCompressed then script else Compress(curve, script), |e|))
  {
    hide Encode, Compress, Decode, DecodeSize, DecodeVersionAndScript, DecodeTxOut, ToInt64;
    hide Amounts.Compressed, Amounts.CompressU64, Amounts.DecompressU64;
    hide HoldsScript, ExtractPubKeyHash, ExtractScriptHash, ExtractPubKey;
    var a := if hasAmount then Encode(Amounts.CompressU64(amount)) else [];
    var v := Encode(version);
    var c := if preCompressed then script else Compress(curve, script);
    if !preCompressed {
      Delimits(curve, script, tail);
    }
    VersionAndScriptRoundTrip(version, c, tail);
    Assoc(a + v, c, tail);
    Assoc(a, v, c + tail);
    if hasAmount {
      RoundTrip(Amounts.CompressU64(amount), v + (c + tail));
      AmountBack(amount);
    }
    DecodeParts(a, v + (c + tail), hasAmount, Amounts.CompressU64(amount), DecodedTxOut(0, version, c, |v| + |c|));
  }

  lemma AmountBack(amount: nat)
    requires amount < U64 / 2 && Amounts.Compressed(amount) < U64
    ensures ToInt64(Amounts.DecompressU64(Amounts.CompressU64(amount))) == amount
  {
    Amounts.FitsRoundTrip(amount);
    Amounts.Fits(amount);
  }

  lemma DecodeParts(head: Bytes, rest: Bytes, hasAmount: bool, compressed: nat, d: DecodedTxOut)
    requires if hasAmount then head != [] && Decode(head + rest) == (compressed, |head|) else head == []
    requires DecodeVersionAndScript(rest) == Ok(d)
    ensures DecodeTxOut(head + rest, hasAmount) ==
            Ok(DecodedTxOut(if hasAmount then ToInt64(Amounts.DecompressU64(compressed)) else 0,
                            d.version, d.script, |head| + d.size))
  {
    hide Decode, DecodeVersionAndScript, ToInt64, Amounts.DecompressU64;
    DropPrefix(head, rest);
  }

  // The flag byte.

  function TypeCode(t: TxType): nat {
    match t case Regular => 0 case SStx => 1 case SSGen => 2 case SSRtx => 3
  }

  function TypeOf(code: nat): TxType {
    if code == 0 then Regular else if code == 1 then SStx else if code == 2 then SSGen else SSRtx
  }

  /** Bit 0 coinbase, bit 1 expiry, bits 2-3 transaction type, bit 4 fully spent. */
  function EncodeFlags(isCoinBase: bool, hasExpiry: bool, txType: TxType, fullySpent: bool): Byte {
    TypeCode(txType) * 4 + (if isCoinBase then 1 else 0) + (if hasExpiry then 2 else 0) + (if fullySpent then 16 else 0)
  }

  function DecodeFlags(b: Byte): (bool, bool, TxType, bool) {
    (b % 2 != 0, b / 2 % 2 != 0, TypeOf(b / 4 % 4), b / 16 % 2 != 0)
  }

  lemma FlagsRoundTrip(isCoinBase: bool, hasExpiry: bool, txType: TxType, fullySpent: bool)
    ensures DecodeFlags(EncodeFlags(isCoinBase, hasExpiry, txType, fullySpent)) ==
            (isCoinBase, hasExpiry, txType, fullySpent)
  {}

  /** Bit k of a byte, counting from the lowest. */
  function Bit(b: Byte, k: nat): bool
    requires k < 8
  {
    b / [1, 2, 4, 8, 16, 32, 64, 128][k] % 2 == 1
  }

  /** The bits of the flag byte: coinbase, expiry, the number of the transaction type in two bits, fully
      spent. */
  lemma FlagBits(isCoinBase: bool, hasExpiry: bool, txType: TxType, fullySpent: bool)
    ensures var b := EncodeFlags(isCoinBase, hasExpiry, txType, fullySpent);
            && Bit(b, 0) == isCoinBase && Bit(b, 1) == hasExpiry && Bit(b, 4) == fullySpent
            && Bit(b, 2) == (txType == SStx || txType == SSRtx)
            && Bit(b, 3) == (txType == SSGen || txType == SSRtx)
            && !Bit(b, 5) && !Bit(b, 6) && !Bit(b, 7)
  {}

  // Minimal outputs: the self-delimiting copy of a ticket's outputs.

  function EncodeOutput(out: TxOut): Bytes
    requires 0 <= out.value
  {
    Encode(Amounts.CompressU64(out.value)) + Encode(out.version) + Encode(|out.pkScript|) + out.pkScript
  }

  predicate InRange(outs: seq<TxOut>) {
    && |outs| < U64 / 2
    && forall i :: 0 <= i < |outs| ==>
         0 <= outs[i].value < U64 / 2 && outs[i].version < U16 && |outs[i].pkScript| < 0x1_0000_0000
  }

  function EncodeOutputs(outs: seq<TxOut>): Bytes
    requires InRange(outs)
  {
    if outs == [] then [] else EncodeOutputs(outs[..|outs| - 1]) + EncodeOutput(outs[|outs| - 1])
  }

  function EncodeMinimal(outs: seq<TxOut>): (r: Bytes)
    requires InRange(outs)
    ensures |r| > 0
  {
    Encode(|outs|) + EncodeOutputs(outs)
  }

  method SerializeSizeForMinimalOutputs(outs: seq<TxOut>) returns (size: nat)
    requires InRange(outs)
    ensures size == |EncodeMinimal(outs)|
  {
    hide Encode, EncodeOutputs, EncodeOutput;
    size := SerializeSizeVLQ(|outs|);
    NoOutputs(outs);
    for i := 0 to |outs|
      invariant size == |Encode(|outs|)| + |EncodeOutputs(outs[..i])|
    {
      OutputsSnoc(outs, i);
      var n := SerializeSizeOutput(outs[i]);
      size := size + n;
    }
    assert outs[..|outs|] == outs;
  }

  method SerializeSizeOutput(out: TxOut) returns (size: nat)
    requires 0 <= out.value < U64 / 2 && out.version < U16 && |out.pkScript| < U64 / 8
    ensures size == |EncodeOutput(out)|
  {
    hide Encode, Amounts.CompressU64;
    var compressed := Amounts.CompressTxOutAmount(out.value);
    var a := SerializeSizeVLQ(compressed);
    var v := SerializeSizeVLQ(out.version);
    var n := SerializeSizeVLQ(|out.pkScript|);
    size := a + v + n + |out.pkScript|;
  }

  /** After their number the outputs follow in order, each with its amount, version, size and script. */
  lemma MinimalLayout(outs: seq<TxOut>, out: TxOut)
    requires InRange(outs + [out]) && out.value >= 0 && Amounts.Compressed(out.value) < U64
    ensures EncodeMinimal([]) == [0]
    ensures InRange(outs) && |Encode(|outs|)| <= |EncodeMinimal(outs)|
    ensures EncodeMinimal(outs + [out]) ==
            Encode(|outs| + 1) + EncodeMinimal(outs)[|Encode(|outs|)|..]
            + (Encode(Amounts.Compressed(out.value)) + Encode(out.version) + Encode(|out.pkScript|) + out.pkScript)
  {
    hide Encode, Amounts.Compressed;
    Last(0, true);
    assert Encode(0) == [0] by {
      EncodeGroups(0);
    }
    Amounts.Fits(out.value);
    assert forall i :: 0 <= i < |outs| ==> outs[i] == (outs + [out])[i];
    assert (outs + [out])[..|outs|] == outs;
  }

  lemma NoOutputs(outs: seq<TxOut>)
    requires InRange(outs)
    ensures InRange(outs[..0]) && EncodeOutputs(outs[..0]) == []
  {}

  lemma OutputsSnoc(outs: seq<TxOut>, i: nat)
    requires InRange(outs) && i < |outs|
    ensures InRange(outs[..i]) && InRange(outs[..i + 1])
    ensures EncodeOutputs(outs[..i + 1]) == EncodeOutputs(outs[..i]) + EncodeOutput(outs[i])
  {
    hide EncodeOutput;
    assert outs[..i + 1][..i] == outs[..i];
  }

  method PutOutput(target: array<Byte>, at: nat, out: TxOut) returns (size: nat)
    requires 0 <= out.value < U64 / 2 && out.version < U16 && |out.pkScript| < U64 / 8
    requires at + |EncodeOutput(out)| <= target.Length
    modifies target
    ensures size == |EncodeOutput(out)|
    ensures Filled(target[..], old(target[..]), at, EncodeOutput(out))
  {
    hide Filled, Encode, Amounts.CompressU64;
    ghost var before := target[..];
    var compressed := Amounts.CompressTxOutAmount(out.value);
    size := PutTwo(target, at, compressed, out.version);
    ghost var done, now := Encode(compressed) + Encode(out.version), target[..];
    var n := PutVLQ(target, at + size, |out.pkScript|);
    FilledMore(now, target[..], before, at, done, Encode(|out.pkScript|));
    size, done, now := size + n, done + Encode(|out.pkScript|), target[..];
    Copy(target, at + size, out.pkScript);
    FilledMore(now, target[..], before, at, done, out.pkScript);
    size := size + |out.pkScript|;
  }

  method PutTwo(target: array<Byte>, at: nat, a: nat, b: nat) returns (size: nat)
    requires a < U64 && b < U64 && at + |Encode(a)| + |Encode(b)| <= target.Length
    modifies target
    ensures size == |Encode(a) + Encode(b)|
    ensures Filled(target[..], old(target[..]), at, Encode(a) + Encode(b))
  {
    hide Filled, Encode;
    ghost var before := target[..];
    size := PutVLQ(target, at, a);
    ghost var now := target[..];
    var n := PutVLQ(target, at + size, b);
    FilledMore(now, target[..], before, at, Encode(a), Encode(b));
    size := size + n;
  }

  lemma {:induction false} PrefixLength(outs: seq<TxOut>, i: nat)
    requires InRange(outs) && i <= |outs|
    ensures InRange(outs[..i]) && |EncodeOutputs(outs[..i])| <= |EncodeOutputs(outs)|
    decreases |outs|
  {
    if i < |outs| {
      PrefixLength(outs[..|outs| - 1], i);
      assert outs[..|outs| - 1][..i] == outs[..i];
    } else {
      assert outs[..i] == outs;
    }
  }

  method PutTxToMinimalOutputs(target: array<Byte>, outs: seq<TxOut>) returns (size: nat)
    requires InRange(outs) && |EncodeMinimal(outs)| <= target.Length
    modifies target
    ensures size == |EncodeMinimal(outs)|
    ensures Filled(target[..], old(target[..]), 0, EncodeMinimal(outs))
  {
    hide Filled, Encode, EncodeOutput;
    ghost var before, head := target[..], Encode(|outs|);
    assert head + EncodeOutputs(outs[..0]) == head;
    size := PutVLQ(target, 0, |outs|);
    for i := 0 to |outs|
      invariant size == |head| + |EncodeOutputs(outs[..i])| <= target.Length
      invariant Filled(target[..], before, 0, head + EncodeOutputs(outs[..i]))
    {
      PrefixLength(outs, i + 1);
      assert outs[..i + 1][..i] == outs[..i];
      ghost var now := target[..];
      var n := PutOutput(target, size, outs[i]);
      FilledMore(now, target[..], before, 0, head + EncodeOutputs(outs[..i]), EncodeOutput(outs[i]));
      Assoc(head, EncodeOutputs(outs[..i]), EncodeOutput(outs[i]));
      size := size + n;
    }
    assert outs[..|outs|] == outs;
  }

  /** A buffer of exactly the computed size holds exactly the minimal outputs. */
  method MinimalOutputs(outs: seq<TxOut>) returns (r: Bytes)
    requires InRange(outs)
    ensures r == EncodeMinimal(outs)
  {
    hide Filled, EncodeMinimal, InRange;
    var size := SerializeSizeForMinimalOutputs(outs);
    var target := new Byte[size](_ => 0);
    ghost var blank := target[..];
    size := PutTxToMinimalOutputs(target, outs);
    FilledAll(target[..], blank, EncodeMinimal(outs));
    r := target[..];
  }

  /** The size of one stored output, without building it. */
  function OutputSize(s: Bytes): (r: Result<nat, DecodeError>)
    ensures r.Ok? ==> r.value <= |s|
  {
    var (_, a) := Decode(s);
    if a == 0 then Err(UnexpectedEnd) else
    var afterAmount := s[a..];
    var (_, v) := Decode(afterAmount);
    if v == 0 then Err(UnexpectedEnd) else
    var afterVersion := afterAmount[v..];
    var (scriptSize, n) := Decode(afterVersion);
    if n == 0 || |afterVersion| - n < scriptSize then Err(UnexpectedEnd)
    else Ok(a + v + n + scriptSize)
  }

  function OutputsSize(s: Bytes, count: nat): (r: Result<nat, DecodeError>)
    ensures r.Ok? ==> r.value <= |s|
    decreases count
  {
    if count == 0 then Ok(0) else
    match OutputSize(s)
    case Err(e) => Err(e)
    case Ok(n) =>
      match OutputsSize(s[n..], count - 1)
      case Err(e) => Err(e)
      case Ok(m) => Ok(n + m)
  }

  /** The iterations of a loop to a stored count converted to a signed integer: none when it turns
      negative. */
  function Iterations(count: nat): nat {
    if count < U64 / 2 then count else 0
  }

  /** The size of the minimal outputs at the front of `s`. */
  function MinimalSize(s: Bytes): (r: Result<nat, DecodeError>)
    ensures r.Ok? ==> r.value <= |s|
  {
    var (count, n) := Decode(s);
    if n == 0 then Err(UnexpectedEnd) else
    match OutputsSize(s[n..], Iterations(count))
    case Err(e) => Err(e)
    case Ok(m) => Ok(n + m)
  }

  method ReadOutputSize(s: Bytes) returns (r: Result<nat, DecodeError>)
    ensures r == OutputSize(s)
  {
    hide Decode;
    var amount, offset := DeserializeVLQ(s);
    if offset == 0 {
      return Err(UnexpectedEnd);
    }
    var version, bytesRead := DeserializeVLQ(s[offset..]);
    if bytesRead == 0 {
      return Err(UnexpectedEnd);
    }
    assert s[offset..][bytesRead..] == s[offset + bytesRead..];
    offset := offset + bytesRead;
    var scriptSize;
    scriptSize, bytesRead := DeserializeVLQ(s[offset..]);
    if bytesRead == 0 || |s| - offset - bytesRead < scriptSize {
      return Err(UnexpectedEnd);
    }
    return Ok(offset + bytesRead + scriptSize);
  }

  method ReadDeserializeSizeOfMinimalOutputs(s: Bytes) returns (r: Result<nat, DecodeError>)
    ensures r == MinimalSize(s)
  {
    hide Decode, OutputSize;
    var numOutputs, offset := DeserializeVLQ(s);
    if offset == 0 {
      return Err(UnexpectedEnd);
    }
    ghost var start, count := offset, Iterations(numOutputs);
    ghost var all := OutputsSize(s[offset..], count);
    var signed: int := if numOutputs < U64 / 2 then numOutputs else numOutputs - U64;
    var i := 0;
    while i < signed
      invariant 0 <= i <= count
      invariant start <= offset <= |s|
      invariant all == match OutputsSize(s[offset..], count - i)
                       case Err(e) => Err(e)
                       case Ok(m) => Ok(offset - start + m)
    {
      var n := ReadOutputSize(s[offset..]);
      if n.Err? {
        return n;
      }
      assert s[offset..][n.value..] == s[offset + n.value..];
      offset := offset + n.value;
      i := i + 1;
    }
    return Ok(offset);
  }

  lemma OutputRoundTrip(out: TxOut, tail: Bytes)
    requires 0 <= out.value < U64 / 2 && out.version < U16 && |out.pkScript| < U64 / 8
    ensures OutputSize(EncodeOutput(out) + tail) == Ok(|EncodeOutput(out)|)
  {
    hide Encode, Decode, Amounts.CompressU64;
    var a, v, n := Encode(Amounts.CompressU64(out.value)), Encode(out.version), Encode(|out.pkScript|);
    var rest := out.pkScript + tail;
    Assoc(a + v + n, out.pkScript, tail);
    Assoc(a + v, n, rest);
    Assoc(a, v, n + rest);
    DropPrefix(a, v + (n + rest));
    DropPrefix(v, n + rest);
    RoundTrip(Amounts.CompressU64(out.value), v + (n + rest));
    RoundTrip(out.version, n + rest);
    RoundTrip(|out.pkScript|, rest);
  }

  lemma {:induction false} OutputsRoundTrip(outs: seq<TxOut>, more: nat, tail: Bytes)
    requires InRange(outs)
    ensures OutputsSize(EncodeOutputs(outs) + tail, |outs| + more) ==
            match OutputsSize(tail, more)
            case Err(e) => Err(e)
            case Ok(m) => Ok(|EncodeOutputs(outs)| + m)
    decreases |outs|
  {
    hide OutputSize, OutputsSize, EncodeOutput;
    if outs == [] {
      assert [] + tail == tail;
      AddNothing(tail, more);
    } else {
      var init, last := outs[..|outs| - 1], outs[|outs| - 1];
      OutputsRoundTrip(init, more + 1, EncodeOutput(last) + tail);
      OutputRoundTrip(last, tail);
      Assoc(EncodeOutputs(init), EncodeOutput(last), tail);
      OneMoreSize(EncodeOutput(last), tail, more);
    }
  }

  lemma AddNothing(tail: Bytes, more: nat)
    ensures OutputsSize(tail, more) == match OutputsSize(tail, more) case Err(e) => Err(e) case Ok(m) => Ok(0 + m)
  {
    hide OutputsSize;
  }

  lemma OneMoreSize(output: Bytes, tail: Bytes, more: nat)
    requires OutputSize(output + tail) == Ok(|output|)
    ensures OutputsSize(output + tail, more + 1) ==
      match OutputsSize(tail, more) case Err(e) => Err(e) case Ok(m) => Ok(|output| + m)
  {
    hide OutputSize;
    DropPrefix(output, tail);
  }

  /** Minimal outputs delimit themselves: their size is found again whatever follows. */
  lemma MinimalRoundTrip(outs: seq<TxOut>, tail: Bytes)
    requires InRange(outs)
    ensures MinimalSize(EncodeMinimal(outs) + tail) == Ok(|EncodeMinimal(outs)|)
  {
    hide Encode, Decode, EncodeOutputs, EncodeOutput, OutputsSize, MinimalSize;
    var head, body := Encode(|outs|), EncodeOutputs(outs);
    OutputsExact(outs, tail);
    RoundTrip(|outs|, body + tail);
    DropPrefix(head, body + tail);
    Assoc(head, body, tail);
    MinimalSizeParts(head + (body + tail), |outs|, |head|, |body|);
  }

  lemma OutputsExact(outs: seq<TxOut>, tail: Bytes)
    requires InRange(outs)
    ensures OutputsSize(EncodeOutputs(outs) + tail, |outs|) == Ok(|EncodeOutputs(outs)|)
  {
    hide OutputSize, EncodeOutputs;
    OutputsRoundTrip(outs, 0, tail);
  }

  lemma MinimalSizeParts(s: Bytes, count: nat, n: nat, m: nat)
    requires Decode(s) == (count, n) && n > 0 && count < U64 / 2 && OutputsSize(s[n..], count) == Ok(m)
    ensures MinimalSize(s) == Ok(n + m)
  {
    hide Decode, OutputsSize;
  }

  // Reading minimal outputs back.

  /** What the staking rules see of an output. */
  datatype MinimalOutput = MinimalOutput(value: int, version: nat, pkScript: Bytes)

  /** One output and its size; none where the source would read beyond the buffer and panic. */
  function DecodeOutput(s: Bytes): (r: Option<(MinimalOutput, nat)>)
    ensures r.Some? ==> r.value.1 <= |s|
  {
    var (amount, a) := Decode(s);
    var (version, v) := Decode(s[a..]);
    var (size, n) := Decode(s[a..][v..]);
    var rest := s[a..][v..][n..];
    if size > |rest| || size >= U64 / 2 then None
    else Some((MinimalOutput(ToInt64(Amounts.DecompressU64(amount)), version % U16, rest[..size]), a + v + n + size))
  }

  function DecodeOutputs(s: Bytes, count: nat): (r: Option<(seq<MinimalOutput>, nat)>)
    ensures r.Some? ==> r.value.1 <= |s| && |r.value.0| == count
    decreases count
  {
    hide DecodeOutput;
    if count == 0 then Some(([], 0)) else
    match DecodeOutput(s)
    case None => None
    case Some((out, n)) =>
      match DecodeOutputs(s[n..], count - 1)
      case None => None
      case Some((outs, m)) => Some(([out] + outs, n + m))
  }

  /** The outputs at the front of `s` and their size. */
  function DecodeMinimal(s: Bytes): (r: Option<(seq<MinimalOutput>, nat)>)
    ensures r.Some? ==> r.value.1 <= |s|
  {
    var (count, n) := Decode(s);
    if count >= U64 / 2 then None else
    match DecodeOutputs(s[n..], count)
    case None => None
    case Some((outs, m)) => Some((outs, n + m))
  }

  lemma Sliced(s: Bytes, at: nat, size: nat)
    requires at + size <= |s|
    ensures s[at..at + size] == s[at..][..size]
  {}

  method ReadOutput(s: Bytes) returns (r: Option<(MinimalOutput, nat)>)
    ensures r == DecodeOutput(s)
  {
    hide Decode, Amounts.DecompressU64, ToInt64, DecodeOutput;
    var amountComp, offset := DeserializeVLQ(s);
    ghost var a := offset;
    var amount := Amounts.DecompressTxOutAmount(amountComp);
    var version, bytesRead := DeserializeVLQ(s[offset..]);
    ghost var v := bytesRead;
    offset := offset + bytesRead;
    var scriptSize;
    scriptSize, bytesRead := DeserializeVLQ(s[offset..]);
    offset := offset + bytesRead;
    OutputParts(s, amountComp, a, version, v, scriptSize, bytesRead);
    if scriptSize > |s| - offset || scriptSize >= U64 / 2 {
      return None;
    }
    var pkScript := s[offset..offset + scriptSize];
    r := Some((MinimalOutput(ToInt64(amount), version % U16, pkScript), offset + scriptSize));
  }

  /** The reader's offsets are those of the parts. */
  lemma OutputParts(s: Bytes, amount: nat, a: nat, version: nat, v: nat, size: nat, n: nat)
    requires Decode(s) == (amount, a) && Decode(s[a..]) == (version, v) && a + v <= |s|
      && Decode(s[a + v..]) == (size, n)
    ensures a + v + n <= |s|
    ensures DecodeOutput(s) ==
      if size > |s| - (a + v + n) || size >= U64 / 2 then None
      else Some((MinimalOutput(ToInt64(Amounts.DecompressU64(amount)), version % U16, s[a + v + n..a + v + n + size]),
                 a + v + n + size))
  {
    hide Decode, Amounts.DecompressU64, ToInt64;
    assert s[a..][v..] == s[a + v..];
    assert s[a + v..][n..] == s[a + v + n..];
    if size <= |s| - (a + v + n) {
      Sliced(s, a + v + n, size);
    }
  }

  method DeserializeToMinimalOutputs(s: Bytes) returns (r: Option<(seq<MinimalOutput>, nat)>)
    ensures r == DecodeMinimal(s)
  {
    hide Decode, DecodeOutput, DecodeOutputs, MoreOutputs;
    var numOutputs, offset := DeserializeVLQ(s);
    if numOutputs >= U64 / 2 {
      return None;
    }
    var minOuts := [];
    ghost var all := MoreOutputs(s, offset, numOutputs, []);
    MoreStarts(s, offset, numOutputs);
    for i := 0 to numOutputs
      invariant 0 <= offset <= |s| && all == MoreOutputs(s, offset, numOutputs - i, minOuts)
    {
      var out := ReadOutput(s[offset..]);
      MoreStep(s, offset, numOutputs - i, minOuts);
      if out.None? {
        return None;
      }
      minOuts := minOuts + [out.value.0];
      offset := offset + out.value.1;
    }
    MoreEnds(s, offset, minOuts);
    return Some((minOuts, offset));
  }

  /** The outputs read so far and those still to come from the offset on, and where they end. */
  function MoreOutputs(s: Bytes, offset: nat, count: nat, minOuts: seq<MinimalOutput>):
    Option<(seq<MinimalOutput>, nat)>
    requires offset <= |s|
  {
    match DecodeOutputs(s[offset..], count)
    case None => None
    case Some((outs, m)) => Some((minOuts + outs, offset + m))
  }

  lemma MoreStarts(s: Bytes, offset: nat, count: nat)
    requires Decode(s) == (count, offset) && count < U64 / 2
    ensures offset <= |s| && MoreOutputs(s, offset, count, []) == DecodeMinimal(s)
  {
    hide Decode, DecodeOutputs;
    var all := DecodeOutputs(s[offset..], count);
    assert all.Some? ==> [] + all.value.0 == all.value.0;
  }

  lemma MoreStep(s: Bytes, offset: nat, count: nat, minOuts: seq<MinimalOutput>)
    requires offset <= |s| && count > 0
    ensures match DecodeOutput(s[offset..])
            case None => MoreOutputs(s, offset, count, minOuts) == None
            case Some((out, n)) =>
              MoreOutputs(s, offset, count, minOuts) == MoreOutputs(s, offset + n, count - 1, minOuts + [out])
  {
    hide DecodeOutput;
    match DecodeOutput(s[offset..]) {
      case None =>
      case Some((out, n)) =>
        assert s[offset..][n..] == s[offset + n..];
        var rest := DecodeOutputs(s[offset + n..], count - 1);
        assert rest.Some? ==> minOuts + ([out] + rest.value.0) == minOuts + [out] + rest.value.0;
    }
  }

  lemma MoreEnds(s: Bytes, offset: nat, minOuts: seq<MinimalOutput>)
    requires offset <= |s|
    ensures MoreOutputs(s, offset, 0, minOuts) == Some((minOuts, offset))
  {
    assert minOuts + [] == minOuts;
  }

  /** What is read of an output is its value, version and script. */
  function MinimalOf(out: TxOut): MinimalOutput {
    MinimalOutput(out.value, out.version, out.pkScript)
  }

  lemma OutputReadBack(out: TxOut, tail: Bytes)
    requires 0 <= out.value < U64 / 2 && Amounts.Compressed(out.value) < U64
    requires out.version < U16 && |out.pkScript| < U64 / 8
    ensures DecodeOutput(EncodeOutput(out) + tail) == Some((MinimalOf(out), |EncodeOutput(out)|))
  {
    hide Encode, Decode, Amounts.CompressU64, Amounts.DecompressU64, Amounts.Compressed;
    var a, v, n := Encode(Amounts.CompressU64(out.value)), Encode(out.version), Encode(|out.pkScript|);
    var rest := out.pkScript + tail;
    Assoc(a + v + n, out.pkScript, tail);
    Assoc(a + v, n, rest);
    Assoc(a, v, n + rest);
    DropPrefix(a, v + (n + rest));
    DropPrefix(v, n + rest);
    DropPrefix(n, rest);
    RoundTrip(Amounts.CompressU64(out.value), v + (n + rest));
    RoundTrip(out.version, n + rest);
    RoundTrip(|out.pkScript|, rest);
    Amounts.FitsRoundTrip(out.value);
    SmallSigned(out.value);
    assert rest[..|out.pkScript|] == out.pkScript;
  }

  lemma SmallSigned(v: nat)
    requires v < U64 / 2
    ensures ToInt64(v) == v
  {}

  /** The outputs have the values, versions and scripts of a transaction's outputs, all of them in order. */
  predicate AreOutputs(minOuts: seq<MinimalOutput>, outs: seq<TxOut>) {
    && |minOuts| == |outs|
    && forall k :: 0 <= k < |outs| ==>
         minOuts[k].value == outs[k].value && minOuts[k].version == outs[k].version
           && minOuts[k].pkScript == outs[k].pkScript
  }

  lemma {:induction false} OutputsReadBack(outs: seq<TxOut>, tail: Bytes)
    requires InRange(outs) && forall i :: 0 <= i < |outs| ==> Amounts.Compressed(outs[i].value) < U64
    ensures var r := DecodeOutputs(EncodeOutputs(outs) + tail, |outs|);
            r.Some? && AreOutputs(r.value.0, outs) && r.value.1 == |EncodeOutputs(outs)|
    decreases |outs|
  {
    hide Amounts.Compressed, EncodeOutput, DecodeOutput;
    if outs == [] {
      assert EncodeOutputs(outs) + tail == tail;
    } else {
      var first, rest := outs[0], outs[1..];
      FirstOutput(outs);
      Assoc(EncodeOutput(first), EncodeOutputs(rest), tail);
      OutputReadBack(first, EncodeOutputs(rest) + tail);
      DropPrefix(EncodeOutput(first), EncodeOutputs(rest) + tail);
      OutputsReadBack(rest, tail);
    }
  }

  /** Encoding goes through the outputs in order. */
  lemma {:induction false} FirstOutput(outs: seq<TxOut>)
    requires InRange(outs) && outs != []
    ensures EncodeOutputs(outs) == EncodeOutput(outs[0]) + EncodeOutputs(outs[1..])
    decreases |outs|
  {
    hide EncodeOutput;
    var init, last := outs[..|outs| - 1], outs[|outs| - 1];
    if init != [] {
      FirstOutput(init);
      assert outs[1..][..|outs| - 2] == init[1..];
      Assoc(EncodeOutput(outs[0]), EncodeOutputs(init[1..]), EncodeOutput(last));
    } else {
      assert outs[1..] == [] && EncodeOutputs(init) == [];
      assert [] + EncodeOutput(last) == EncodeOutput(last) + [];
    }
  }

  /** Reading minimal outputs gives back every output with its value, version and script, whatever
      follows them. */
  lemma MinimalReadBack(outs: seq<TxOut>, tail: Bytes)
    requires InRange(outs) && forall i :: 0 <= i < |outs| ==> Amounts.Compressed(outs[i].value) < U64
    ensures var r := DecodeMinimal(EncodeMinimal(outs) + tail);
            r.Some? && AreOutputs(r.value.0, outs) && r.value.1 == |EncodeMinimal(outs)|
  {
    hide Encode, Decode, EncodeOutputs, DecodeOutputs, AreOutputs, Amounts.Compressed;
    var head, body := Encode(|outs|), EncodeOutputs(outs);
    OutputsReadBack(outs, tail);
    RoundTrip(|outs|, body + tail);
    DropPrefix(head, body + tail);
    Assoc(head, body, tail);
  }
}
