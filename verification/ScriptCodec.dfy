/** The domain specific compression of public key scripts (blockchain/compress.go). */
module ScriptCodec {
  import opened Wrappers
  import opened Transactions
  import opened Buffers
  import opened Vlq

  const OP_DATA_20: Byte := 0x14
  const OP_DATA_33: Byte := 0x21
  const OP_DATA_65: Byte := 0x41
  const OP_DUP: Byte := 0x76
  const OP_EQUAL: Byte := 0x87
  const OP_EQUALVERIFY: Byte := 0x88
  const OP_HASH160: Byte := 0xa9
  const OP_CHECKSIG: Byte := 0xac

  const PAY_TO_PUBKEY_HASH: Byte := 0
  const PAY_TO_SCRIPT_HASH: Byte := 1
  const PAY_TO_PUBKEY_COMP_EVEN: Byte := 2
  const PAY_TO_PUBKEY_COMP_ODD: Byte := 3
  const PAY_TO_PUBKEY_UNCOMP_EVEN: Byte := 4
  const PAY_TO_PUBKEY_UNCOMP_ODD: Byte := 5
  const NUM_SPECIAL_SCRIPTS: nat := 64

  /** What the curve library does with serialized public keys: decide validity, and give the
      uncompressed form of a key that parses. */
  datatype Curve = Curve(valid: Bytes -> bool, uncompressed: Bytes -> Option<Bytes>)

  function CompressedKey(key: Bytes): Bytes
    requires |key| == 65
  {
    [if key[64] % 2 == 1 then 3 else 2] + key[1..33]
  }

  /** Valid uncompressed keys are recovered from their x coordinate and the oddness of y. */
  ghost predicate RecoversKeys(curve: Curve) {
    forall key: Bytes :: |key| == 65 && key[0] == 4 && curve.valid(key) ==>
      curve.uncompressed(CompressedKey(key)) == Some(key)
  }

  function ExtractPubKeyHash(script: Bytes): (r: Option<Bytes>)
    ensures r.Some? ==>
      && |r.value| == 20
      && script == [OP_DUP, OP_HASH160, OP_DATA_20] + r.value + [OP_EQUALVERIFY, OP_CHECKSIG]
  {
    if |script| == 25 && script[0] == OP_DUP && script[1] == OP_HASH160 && script[2] == OP_DATA_20 &&
       script[23] == OP_EQUALVERIFY && script[24] == OP_CHECKSIG
    then Some(script[3..23]) else None
  }

  function ExtractScriptHash(script: Bytes): (r: Option<Bytes>)
    ensures r.Some? ==> |r.value| == 20 && script == [OP_HASH160, OP_DATA_20] + r.value + [OP_EQUAL]
  {
    if |script| == 23 && script[0] == OP_HASH160 && script[1] == OP_DATA_20 && script[22] == OP_EQUAL
    then Some(script[2..22]) else None
  }

  /** The key of a pay-to-pubkey script that pays to a valid key. */
  function ExtractPubKey(curve: Curve, script: Bytes): (r: Option<Bytes>)
    ensures r.Some? ==>
      && curve.valid(r.value)
      && (if |r.value| == 33 then r.value[0] in {2, 3} && script == [OP_DATA_33] + r.value + [OP_CHECKSIG]
          else |r.value| == 65 && r.value[0] == 4 && script == [OP_DATA_65] + r.value + [OP_CHECKSIG])
  {
    if |script| == 35 && script[0] == OP_DATA_33 && script[34] == OP_CHECKSIG &&
       (script[1] == 2 || script[1] == 3) && curve.valid(script[1..34])
    then Some(script[1..34])
    else if |script| == 67 && script[0] == OP_DATA_65 && script[66] == OP_CHECKSIG && script[1] == 4 &&
            curve.valid(script[1..66])
    then Some(script[1..66])
    else None
  }

  function KeyTag(key: Bytes): Byte
    requires (|key| == 33 && key[0] in {2, 3}) || (|key| == 65 && key[0] == 4)
  {
    if key[0] == 2 then PAY_TO_PUBKEY_COMP_EVEN
    else if key[0] == 3 then PAY_TO_PUBKEY_COMP_ODD
    else if key[64] % 2 == 1 then PAY_TO_PUBKEY_UNCOMP_ODD
    else PAY_TO_PUBKEY_UNCOMP_EVEN
  }

  function Compress(curve: Curve, script: Bytes): (r: Bytes)
    ensures |r| > 0
  {
    if ExtractPubKeyHash(script).Some? then [PAY_TO_PUBKEY_HASH] + ExtractPubKeyHash(script).value
    else if ExtractScriptHash(script).Some? then [PAY_TO_SCRIPT_HASH] + ExtractScriptHash(script).value
    else if ExtractPubKey(curve, script).Some? then
      var key := ExtractPubKey(curve, script).value;
      [KeyTag(key)] + key[1..33]
    else Encode(|script| + NUM_SPECIAL_SCRIPTS) + script
  }

  /** Each standard form keeps a tag and its hash or the x coordinate of its key.  The tag of a key is the
      first byte of its compressed form, two more when the key was written out in full. */
  lemma FormsAre(curve: Curve, hash: Bytes, key: Bytes)
    ensures |hash| == 20 ==>
      Compress(curve, [0x76, 0xa9, 0x14] + hash + [0x88, 0xac]) == [0] + hash
    ensures |hash| == 20 ==> Compress(curve, [0xa9, 0x14] + hash + [0x87]) == [1] + hash
    ensures |key| == 33 && (key[0] == 2 || key[0] == 3) && curve.valid(key) ==>
      Compress(curve, [0x21] + key + [0xac]) == key
    ensures |key| == 65 && key[0] == 4 && curve.valid(key) ==>
      Compress(curve, [0x41] + key + [0xac]) == [if key[64] % 2 == 0 then 4 else 5] + key[1..33]
  {
    if |hash| == 20 {
      HashForms(curve, hash);
    }
    if |key| == 33 && (key[0] == 2 || key[0] == 3) && curve.valid(key) {
      ShortKeyForm(curve, key);
    }
    if |key| == 65 && key[0] == 4 && curve.valid(key) {
      FullKeyForm(curve, key);
    }
  }

  lemma HashForms(curve: Curve, hash: Bytes)
    requires |hash| == 20
    ensures Compress(curve, [0x76, 0xa9, 0x14] + hash + [0x88, 0xac]) == [0] + hash
    ensures Compress(curve, [0xa9, 0x14] + hash + [0x87]) == [1] + hash
  {
    hide Encode, ExtractPubKey;
    assert ([0x76, 0xa9, 0x14] + hash + [0x88, 0xac])[3..23] == hash;
    assert ([0xa9, 0x14] + hash + [0x87])[2..22] == hash;
  }

  lemma ShortKeyForm(curve: Curve, key: Bytes)
    requires |key| == 33 && (key[0] == 2 || key[0] == 3) && curve.valid(key)
    ensures Compress(curve, [0x21] + key + [0xac]) == key
  {
    hide Encode;
    var script := [0x21] + key + [0xac];
    assert script[1..34] == key && ExtractPubKey(curve, script) == Some(key);
    assert [key[0]] + key[1..33] == key;
  }

  lemma FullKeyForm(curve: Curve, key: Bytes)
    requires |key| == 65 && key[0] == 4 && curve.valid(key)
    ensures Compress(curve, [0x41] + key + [0xac]) == [if key[64] % 2 == 0 then 4 else 5] + key[1..33]
  {
    hide Encode;
    var script := [0x41] + key + [0xac];
    assert script[1..66] == key && ExtractPubKey(curve, script) == Some(key);
  }

  /** A script of a standard form, with a valid key where it pays to one. */
  ghost predicate IsStandard(curve: Curve, script: Bytes) {
    || (exists hash: Bytes :: |hash| == 20 && script == [0x76, 0xa9, 0x14] + hash + [0x88, 0xac])
    || (exists hash: Bytes :: |hash| == 20 && script == [0xa9, 0x14] + hash + [0x87])
    || (exists key: Bytes :: |key| == 33 && (key[0] == 2 || key[0] == 3) && curve.valid(key)
                             && script == [0x21] + key + [0xac])
    || (exists key: Bytes :: |key| == 65 && key[0] == 4 && curve.valid(key) && script == [0x41] + key + [0xac])
  }

  /** Every other script, the empty one included, is kept whole after its size plus the number of tags
      reserved. */
  lemma OthersAreKept(curve: Curve, script: Bytes)
    requires !IsStandard(curve, script)
    ensures Compress(curve, script) == Encode(|script| + 64) + script
    ensures !IsStandard(curve, []) && Compress(curve, []) == [0x40]
  {
    hide Encode;
    assert Encode(64) == [0x40] by {
      Last(64, true);
      EncodeGroups(64);
    }
  }

  lemma EncodeGroups(n: nat)
    ensures Encode(n) == Groups(n, true)
  {}

  /** A key is recovered from its x coordinate, with the oddness of y in the first byte. */
  lemma RecoveryIs(curve: Curve, x: Bytes, odd: bool)
    requires |x| == 32
    ensures var key := curve.uncompressed([if odd then 3 else 2] + x);
            Expand(curve, if odd then 5 else 4, x) ==
            if key.Some? then Some([0x41] + key.value + [0xac]) else None
  {
    assert x[..32] == x;
  }

  method CompressedScriptSize(curve: Curve, script: Bytes) returns (size: nat)
    requires |script| + NUM_SPECIAL_SCRIPTS < U64
    ensures size == |Compress(curve, script)|
  {
    if ExtractPubKeyHash(script).Some? || ExtractScriptHash(script).Some? {
      return 21;
    }
    if ExtractPubKey(curve, script).Some? {
      return 33;
    }
    size := SerializeSizeVLQ(|script| + NUM_SPECIAL_SCRIPTS);
    size := size + |script|;
  }

  method PutCompressedScript(target: array<Byte>, at: nat, curve: Curve, script: Bytes) returns (size: nat)
    requires |script| + NUM_SPECIAL_SCRIPTS < U64
    requires at + |Compress(curve, script)| <= target.Length
    modifies target
    ensures size == |Compress(curve, script)|
    ensures Filled(target[..], old(target[..]), at, Compress(curve, script))
  {
    hide Filled, Encode, ExtractPubKeyHash, ExtractScriptHash, ExtractPubKey, KeyTag;
    var hash := ExtractPubKeyHash(script);
    if hash.Some? {
      PutTagged(target, at, PAY_TO_PUBKEY_HASH, hash.value);
      return 21;
    }
    hash := ExtractScriptHash(script);
    if hash.Some? {
      PutTagged(target, at, PAY_TO_SCRIPT_HASH, hash.value);
      return 21;
    }
    var key := ExtractPubKey(curve, script);
    if key.Some? {
      PutTagged(target, at, KeyTag(key.value), key.value[1..33]);
      return 33;
    }
    var vlqSizeLen := PutVLQ(target, at, |script| + NUM_SPECIAL_SCRIPTS);
    ghost var now := target[..];
    Copy(target, at + vlqSizeLen, script);
    FilledMore(now, target[..], old(target[..]), at, Encode(|script| + NUM_SPECIAL_SCRIPTS), script);
    size := vlqSizeLen + |script|;
  }

  method PutTagged(target: array<Byte>, at: nat, tag: Byte, data: Bytes)
    requires at + 1 + |data| <= target.Length
    modifies target
    ensures Filled(target[..], old(target[..]), at, [tag] + data)
  {
    PutByte(target, at, tag);
    ghost var now := target[..];
    assert now == Overlay(old(target[..]), at, [tag]);
    Copy(target, at + 1, data);
    FilledMore(now, target[..], old(target[..]), at, [tag], data);
  }

  /** A signed view of a 64-bit value. */
  function ToInt64(n: nat): int {
    var m := n % U64;
    if m < U64 / 2 then m else m - U64
  }

  /** The number of bytes the compressed script at the front of `s` takes; 0 when there is none. */
  function DecodeSize(s: Bytes): int {
    var (scriptSize, bytesRead) := Decode(s);
    if bytesRead == 0 then 0
    else if scriptSize <= 1 then 21
    else if scriptSize <= 5 then 33
    else ToInt64(scriptSize + U64 - NUM_SPECIAL_SCRIPTS + bytesRead)
  }

  /** What the caller must have established before decompressing: the data holds the script. */
  predicate HoldsScript(s: Bytes) {
    var (size, n) := Decode(s);
    if size <= 5 then n == 1 && |s| >= (if size <= 1 then 21 else 33)
    else size >= NUM_SPECIAL_SCRIPTS && n + (size - NUM_SPECIAL_SCRIPTS) <= |s|
  }

  /** The original script.  None stands for the nil script: no data, or a key that does not parse. */
  function Decompress(curve: Curve, s: Bytes): Option<Bytes>
    requires s != [] ==> HoldsScript(s)
  {
    if s == [] then None else
    var (size, n) := Decode(s);
    Expand(curve, size, s[n..])
  }

  /** Rebuild the script from its tag or size and the data that follows. */
  function Expand(curve: Curve, size: nat, data: Bytes): Option<Bytes>
    requires if size <= 5 then |data| >= (if size <= 1 then 20 else 32)
             else size >= NUM_SPECIAL_SCRIPTS && size - NUM_SPECIAL_SCRIPTS <= |data|
  {
    if size == 0 then
      Some([OP_DUP, OP_HASH160, OP_DATA_20] + data[..20] + [OP_EQUALVERIFY, OP_CHECKSIG])
    else if size == 1 then
      Some([OP_HASH160, OP_DATA_20] + data[..20] + [OP_EQUAL])
    else if size == 2 || size == 3 then
      Some([OP_DATA_33, size] + data[..32] + [OP_CHECKSIG])
    else if size == 4 || size == 5 then
      match curve.uncompressed([size - 2] + data[..32])
      case None => None
      case Some(key) => Some([OP_DATA_65] + key + [OP_CHECKSIG])
    else
      Some(data[..size - NUM_SPECIAL_SCRIPTS])
  }

  lemma GeneralSize(size: nat, n: nat)
    requires NUM_SPECIAL_SCRIPTS <= size && size - NUM_SPECIAL_SCRIPTS + n < U64 / 2
    ensures ToInt64(size + U64 - NUM_SPECIAL_SCRIPTS + n) == size - NUM_SPECIAL_SCRIPTS + n
  {
    var m: nat := size - NUM_SPECIAL_SCRIPTS + n;
    assert (m + U64) % U64 == m;
  }

  lemma TagDecodes(tag: Byte, rest: Bytes)
    requires tag < 128
    ensures Decode([tag] + rest) == (tag, 1)
  {
    DecodeLast(tag, rest, 0);
  }

  /** The front of a compressed script: one of the tags 0 to 5, or a size of at least 64, so the two
      forms never collide; and the decoder finds the exact length whatever follows. */
  lemma Delimits(curve: Curve, script: Bytes, tail: Bytes)
    requires |script| < U64 / 8
    ensures var c := Compress(curve, script);
            && DecodeSize(c + tail) == |c|
            && HoldsScript(c)
            && (Decode(c).0 <= 5 <==>
                ExtractPubKeyHash(script).Some? || ExtractScriptHash(script).Some?
                  || ExtractPubKey(curve, script).Some?)
  {
    hide ExtractPubKeyHash, ExtractScriptHash, ExtractPubKey, Encode, Decode, DecodeSize, HoldsScript, KeyTag;
    if ExtractPubKeyHash(script).Some? {
      TaggedDelimits(PAY_TO_PUBKEY_HASH, ExtractPubKeyHash(script).value, tail);
    } else if ExtractScriptHash(script).Some? {
      TaggedDelimits(PAY_TO_SCRIPT_HASH, ExtractScriptHash(script).value, tail);
    } else if ExtractPubKey(curve, script).Some? {
      var key := ExtractPubKey(curve, script).value;
      KeyTagRange(key);
      TaggedDelimits(KeyTag(key), key[1..33], tail);
    } else {
      GeneralDelimits(script, tail);
    }
  }

  lemma KeyTagRange(key: Bytes)
    requires (|key| == 33 && key[0] in {2, 3}) || (|key| == 65 && key[0] == 4)
    ensures 2 <= KeyTag(key) <= 5
  {}

  lemma TaggedDelimits(tag: Byte, data: Bytes, tail: Bytes)
    requires tag <= 5 && |data| == if tag <= 1 then 20 else 32
    ensures var c := [tag] + data; DecodeSize(c + tail) == |c| && HoldsScript(c) && Decode(c).0 == tag
  {
    hide Decode;
    var c := [tag] + data;
    TagDecodes(tag, data);
    TagDecodes(tag, data + tail);
    assert c + tail == [tag] + (data + tail);
  }

  lemma GeneralDelimits(script: Bytes, tail: Bytes)
    requires |script| < U64 / 8
    ensures var c := Encode(|script| + NUM_SPECIAL_SCRIPTS) + script;
            DecodeSize(c + tail) == |c| && HoldsScript(c) && Decode(c).0 > 5
  {
    hide Encode, Decode, ToInt64;
    var size := |script| + NUM_SPECIAL_SCRIPTS;
    var c := Encode(size) + script;
    RoundTrip(size, script);
    RoundTrip(size, script + tail);
    assert c + tail == Encode(size) + (script + tail);
    SizeBound(size);
    GeneralSize(size, |Encode(size)|);
    GeneralSize(size, 0);
  }

  lemma {:induction false} SizeBound(n: nat)
    ensures |Encode(n)| == |Groups(n, false)| <= 1 + n
  {
    if n > 127 {
      SizeBound(n / 128 - 1);
    }
  }

  lemma ExpandKey(curve: Curve, script: Bytes)
    requires RecoversKeys(curve) && ExtractPubKey(curve, script).Some?
    ensures var key := ExtractPubKey(curve, script).value;
            Expand(curve, KeyTag(key), key[1..33]) == Some(script)
  {
    var key := ExtractPubKey(curve, script).value;
    assert key[1..33][..32] == key[1..33];
    if |key| == 33 {
      assert KeyTag(key) == key[0];
      assert [OP_DATA_33, KeyTag(key)] + key[1..33] + [OP_CHECKSIG] == [OP_DATA_33] + key + [OP_CHECKSIG];
    } else {
      assert [KeyTag(key) - 2] + key[1..33] == CompressedKey(key);
    }
  }

  lemma CompressedLength(curve: Curve, script: Bytes)
    ensures |Compress(curve, script)| <= 2 * |script| + 100
  {
    hide Encode;
    SizeBound(|script| + NUM_SPECIAL_SCRIPTS);
  }

  /** Decompression undoes compression, for every script. */
  lemma DecompressUndoesCompress(curve: Curve, script: Bytes)
    requires RecoversKeys(curve) && |script| < U64 / 8
    ensures HoldsScript(Compress(curve, script)) && Decompress(curve, Compress(curve, script)) == Some(script)
  {
    Delimits(curve, script, []);
    var c := Compress(curve, script);
    if ExtractPubKeyHash(script).Some? {
      var hash := ExtractPubKeyHash(script).value;
      TagDecodes(PAY_TO_PUBKEY_HASH, hash);
      DropPrefix([PAY_TO_PUBKEY_HASH], hash);
      assert hash[..20] == hash;
    } else if ExtractScriptHash(script).Some? {
      var hash := ExtractScriptHash(script).value;
      TagDecodes(PAY_TO_SCRIPT_HASH, hash);
      DropPrefix([PAY_TO_SCRIPT_HASH], hash);
      assert hash[..20] == hash;
    } else if ExtractPubKey(curve, script).Some? {
      var key := ExtractPubKey(curve, script).value;
      TagDecodes(KeyTag(key), key[1..33]);
      DropPrefix([KeyTag(key)], key[1..33]);
      ExpandKey(curve, script);
    } else {
      var size := |script| + NUM_SPECIAL_SCRIPTS;
      RoundTrip(size, script);
      DropPrefix(Encode(size), script);
      assert script[..|script|] == script;
    }
  }
}
