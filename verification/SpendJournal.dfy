/** The transaction spend journal (blockchain/chainio.go): the outputs a block spends, stored last
    spent first in a format that does not say where one entry ends. */
module SpendJournal {
  import opened Wrappers
  import opened Transactions
  import opened Buffers
  import opened Vlq
  import opened ScriptCodec
  import opened TxOutCodec

  datatype SpentTxOut = SpentTxOut(
    amount: int,
    scriptVersion: nat,
    pkScript: Bytes,
    compressed: bool,
    txFullySpent: bool,
    txVersion: nat,
    height: nat,
    index: nat,
    isCoinBase: bool,
    hasExpiry: bool,
    txType: TxType,
    stakeExtra: Bytes)

  function FlagsOf(s: SpentTxOut): Byte {
    EncodeFlags(s.isCoinBase, s.hasExpiry, s.txType, s.txFullySpent)
  }

  /** The details that are stored only with the final spend of a transaction. */
  function EncodeDetails(s: SpentTxOut): Bytes {
    if !s.txFullySpent then []
    else Encode(s.txVersion) + (if s.txType == SStx then s.stakeExtra else [])
  }

  function EncodeStxo(curve: Curve, s: SpentTxOut): Bytes {
    Encode(FlagsOf(s)) + (EncodeTxOut(curve, 0, s.scriptVersion, s.pkScript, s.compressed, false) + EncodeDetails(s))
  }

  function EncodeEntry(curve: Curve, stxos: seq<SpentTxOut>): Bytes {
    if stxos == [] then []
    else EncodeStxo(curve, stxos[|stxos| - 1]) + EncodeEntry(curve, stxos[..|stxos| - 1])
  }

  /** What the fields of a spent output must look like to be stored. */
  ghost predicate Storable(s: SpentTxOut) {
    && s.scriptVersion < U16 && s.txVersion < U16 && |s.pkScript| < U64 / 8
    && (s.compressed ==> SelfDelimiting(s.pkScript))
    && (s.txType == SStx && s.txFullySpent ==> exists outs :: InRange(outs) && s.stakeExtra == EncodeMinimal(outs))
  }

  /** What reading the entry back gives: the script in compressed form, amount, height and index
      from the spending input, and the transaction's details only for a final spend. */
  function AsRead(curve: Curve, s: SpentTxOut, txIn: TxIn): SpentTxOut {
    SpentTxOut(txIn.valueIn, s.scriptVersion,
               if s.compressed then s.pkScript else Compress(curve, s.pkScript), true,
               s.txFullySpent, if s.txFullySpent then s.txVersion else 0,
               txIn.blockHeight, txIn.blockIndex,
               s.txFullySpent && s.isCoinBase, s.txFullySpent && s.hasExpiry,
               if s.txFullySpent then s.txType else Regular,
               if s.txFullySpent && s.txType == SStx then s.stakeExtra else [])
  }

  method SpentTxOutSerializeSize(curve: Curve, s: SpentTxOut) returns (size: nat)
    requires Storable(s)
    ensures size == |EncodeStxo(curve, s)|
  {
    hide Encode, EncodeTxOut, SelfDelimiting, InRange, EncodeMinimal;
    size := SerializeSizeVLQ(FlagsOf(s));
    var n := CompressedTxOutSize(curve, 0, s.scriptVersion, s.pkScript, s.compressed, false);
    size := size + n;
    if s.txFullySpent {
      n := SerializeSizeVLQ(s.txVersion);
      size := size + n;
      if s.txType == SStx {
        size := size + |s.stakeExtra|;
      }
    }
  }

  method PutSpentTxOut(target: array<Byte>, at: nat, curve: Curve, s: SpentTxOut) returns (size: nat)
    requires Storable(s) && at + |EncodeStxo(curve, s)| <= target.Length
    modifies target
    ensures size == |EncodeStxo(curve, s)|
    ensures Filled(target[..], old(target[..]), at, EncodeStxo(curve, s))
  {
    hide Filled, Encode, EncodeTxOut, SelfDelimiting, InRange, EncodeMinimal;
    ghost var before := target[..];
    ghost var out := EncodeTxOut(curve, 0, s.scriptVersion, s.pkScript, s.compressed, false);
    size := PutVLQ(target, at, FlagsOf(s));
    ghost var done, now := Encode(FlagsOf(s)), target[..];
    var n := PutCompressedTxOut(target, at + size, curve, 0, s.scriptVersion, s.pkScript, s.compressed, false);
    FilledMore(now, target[..], before, at, done, out);
    size, done, now := size + n, done + out, target[..];
    n := PutDetails(target, at + size, s);
    FilledMore(now, target[..], before, at, done, EncodeDetails(s));
    Assoc(Encode(FlagsOf(s)), out, EncodeDetails(s));
    size := size + n;
  }

  method PutDetails(target: array<Byte>, at: nat, s: SpentTxOut) returns (size: nat)
    requires s.txVersion < U16 && at + |EncodeDetails(s)| <= target.Length
    modifies target
    ensures size == |EncodeDetails(s)|
    ensures Filled(target[..], old(target[..]), at, EncodeDetails(s))
  {
    hide Filled, Encode;
    FilledNothing(target[..], at);
    size := 0;
    if s.txFullySpent {
      assert Encode(s.txVersion) + [] == Encode(s.txVersion);
      size := PutVLQ(target, at, s.txVersion);
      if s.txType == SStx {
        ghost var now := target[..];
        Copy(target, at + size, s.stakeExtra);
        FilledMore(now, target[..], old(target[..]), at, Encode(s.txVersion), s.stakeExtra);
        size := size + |s.stakeExtra|;
      }
    }
  }

  /** The details stored with a final spend: version, ticket outputs and their size. */
  function DecodeDetails(s: Bytes, txType: TxType): (r: Result<(nat, Bytes, nat), DecodeError>)
    ensures r.Ok? ==> r.value.2 <= |s|
  {
    var (version, n) := Decode(s);
    if n == 0 then Err(UnexpectedEnd)
    else if txType != SStx then Ok((version % U16, [], n))
    else
      match MinimalSize(s[n..])
      case Err(e) => Err(e)
      case Ok(m) => Ok((version % U16, s[n..][..m], n + m))
  }

  /** One entry at the front of `s` and the number of bytes it takes. */
  function DecodeStxo(s: Bytes, txIn: TxIn): (r: Result<(SpentTxOut, nat), DecodeError>)
    ensures r.Ok? ==> 0 < r.value.1 <= |s|
  {
    var (flags, n) := Decode(s);
    if n == 0 then Err(UnexpectedEnd) else
    match DecodeTxOut(s[n..], false)
    case Err(e) => Err(e)
    case Ok(out) =>
      var (isCoinBase, hasExpiry, txType, fullySpent) := DecodeFlags(flags % 256);
      var base := SpentTxOut(txIn.valueIn, out.version, out.script, true, false, 0,
                             txIn.blockHeight, txIn.blockIndex, false, false, Regular, []);
      if !fullySpent then Ok((base, n + out.size)) else
      match DecodeDetails(s[n..][out.size..], txType)
      case Err(e) => Err(e)
      case Ok(d) =>
        Ok((base.(txFullySpent := true, txVersion := d.0, isCoinBase := isCoinBase, hasExpiry := hasExpiry,
                  txType := txType, stakeExtra := d.1), n + out.size + d.2))
  }

  /** Read one entry per input, the last input first. */
  function DecodeEntry(s: Bytes, ins: seq<TxIn>): Result<(seq<SpentTxOut>, nat), DecodeError> {
    if ins == [] then Ok(([], 0)) else
    match DecodeStxo(s, ins[|ins| - 1])
    case Err(e) => Err(e)
    case Ok((last, n)) =>
      match DecodeEntry(s[n..], ins[..|ins| - 1])
      case Err(e) => Err(e)
      case Ok((rest, m)) => Ok((rest + [last], n + m))
  }

  // Which inputs of which transactions have an entry.

  /** A stakebase is the first input of a vote and spends nothing. */
  function FirstSpend(tx: Tx): nat {
    if tx.id.txType == SSGen then 1 else 0
  }

  function SpendsOf(tx: Tx): seq<TxIn> {
    if FirstSpend(tx) <= |tx.ins| then tx.ins[FirstSpend(tx)..] else []
  }

  function SpentInputs(txns: seq<Tx>): seq<TxIn> {
    if txns == [] then [] else SpentInputs(txns[..|txns| - 1]) + SpendsOf(txns[|txns| - 1])
  }

  /** The number of entries the reader expects; it counts one per vote, which is what a vote with
      its stakebase and its one ticket input has. */
  function CountStxos(txns: seq<Tx>): nat {
    if txns == [] then 0 else
    var last := txns[|txns| - 1];
    CountStxos(txns[..|txns| - 1]) + (if last.id.txType == SSGen then 1 else |last.ins|)
  }

  predicate VotesSpendOneTicket(txns: seq<Tx>) {
    forall i :: 0 <= i < |txns| && txns[i].id.txType == SSGen ==> |txns[i].ins| == 2
  }

  lemma {:induction false} CountIsSpends(txns: seq<Tx>)
    requires VotesSpendOneTicket(txns)
    ensures CountStxos(txns) == |SpentInputs(txns)|
  {
    if txns != [] {
      CountIsSpends(txns[..|txns| - 1]);
    }
  }

  method SerializeSpendJournalEntry(curve: Curve, stxos: seq<SpentTxOut>) returns (r: Result<Bytes, DecodeError>)
    requires forall i :: 0 <= i < |stxos| ==> Storable(stxos[i])
    ensures r == Ok(EncodeEntry(curve, stxos))
  {
    hide Filled, EncodeStxo, Storable;
    if stxos == [] {
      return Ok([]);
    }
    var size, sizes := 0, [];
    for i := 0 to |stxos|
      invariant |sizes| == i && forall k :: 0 <= k < i ==> sizes[k] == |EncodeStxo(curve, stxos[k])|
      invariant size == |EncodeEntry(curve, stxos[..i])|
    {
      assert stxos[..i + 1][..i] == stxos[..i];
      var sz := SpentTxOutSerializeSize(curve, stxos[i]);
      sizes := sizes + [sz];
      size := size + sz;
    }
    assert stxos[..|stxos|] == stxos;
    var serialized := new Byte[size](_ => 0);
    ghost var all, done, blank: Bytes := EncodeEntry(curve, stxos), [], serialized[..];
    FilledNothing(blank, 0);
    var i, offset := |stxos| - 1, 0;
    while i > -1
      invariant -1 <= i < |stxos| && offset == |done|
      invariant all == done + EncodeEntry(curve, stxos[..i + 1])
      invariant Filled(serialized[..], blank, 0, done)
      modifies serialized
    {
      var oldOffset := offset;
      ghost var now, part := serialized[..], EncodeStxo(curve, stxos[i]);
      assert stxos[..i + 1][..i] == stxos[..i];
      Assoc(done, part, EncodeEntry(curve, stxos[..i]));
      var n := PutSpentTxOut(serialized, offset, curve, stxos[i]);
      FilledMore(now, serialized[..], blank, 0, done, part);
      done := done + part;
      offset := offset + n;
      if offset - oldOffset != sizes[i] {
        return Err(Mismatch);
      }
      i := i - 1;
    }
    assert all == done;
    FilledAll(serialized[..], blank, done);
    return Ok(serialized[..]);
  }

  /** Read the journal entry of a block with its transactions: stake tree first, then the regular
      tree without its coinbase. */
  method DeserializeSpendJournalEntry(s: Bytes, txns: seq<Tx>) returns (r: Result<seq<SpentTxOut>, DecodeError>)
    requires VotesSpendOneTicket(txns)
    ensures s == [] ==> r == if SpentInputs(txns) == [] then Ok([]) else Err(Mismatch)
    ensures s != [] ==> r == match DecodeEntry(s, SpentInputs(txns))
                             case Err(e) => Err(e)
                             case Ok((stxos, _)) => Ok(stxos)
  {
    hide DecodeStxo, DecodeEntry, Continue;
    var numStxos := 0;
    for i := 0 to |txns|
      invariant numStxos == CountStxos(txns[..i])
    {
      assert txns[..i + 1][..i] == txns[..i];
      numStxos := numStxos + if txns[i].id.txType == SSGen then 1 else |txns[i].ins|;
    }
    assert txns[..|txns|] == txns;
    CountIsSpends(txns);
    if s == [] {
      return if numStxos != 0 then Err(Mismatch) else Ok([]);
    }
    ghost var all := DecodeEntry(s, SpentInputs(txns));
    var stxos, offset := [], 0;
    assert s[0..] == s;
    ContinueStart(s, SpentInputs(txns));
    assert txns[..|txns|] == txns;
    var txIdx := |txns| - 1;
    while txIdx > -1
      invariant -1 <= txIdx < |txns| && 0 <= offset <= |s|
      invariant all == Continue(s[offset..], SpentInputs(txns[..txIdx + 1]), stxos, offset)
    {
      assert txns[..txIdx + 1][..txIdx] == txns[..txIdx];
      var d := DeserializeTx(s, txns[txIdx], SpentInputs(txns[..txIdx]), stxos, offset);
      if d.Err? {
        return Err(d.error);
      }
      stxos, offset := d.value.0, d.value.1;
      txIdx := txIdx - 1;
    }
    assert txns[..0] == [];
    ContinueEnd(s[offset..], stxos, offset);
    return Ok(stxos);
  }

  /** Read the entries of one transaction, its last input first. */
  method DeserializeTx(s: Bytes, tx: Tx, ghost earlier: seq<TxIn>, readSoFar: seq<SpentTxOut>, start: nat)
    returns (r: Result<(seq<SpentTxOut>, nat), DecodeError>)
    requires start <= |s|
    ensures r.Ok? ==> r.value.1 <= |s|
    ensures match r
            case Err(e) => Continue(s[start..], earlier + SpendsOf(tx), readSoFar, start) == Err(e)
            case Ok((stxos, offset)) =>
              Continue(s[start..], earlier + SpendsOf(tx), readSoFar, start) ==
                Continue(s[offset..], earlier, stxos, offset)
  {
    hide DecodeStxo, Continue;
    ghost var all := Continue(s[start..], earlier + SpendsOf(tx), readSoFar, start);
    var stxos, offset := readSoFar, start;
    var isVote := tx.id.txType == SSGen;
    var txInIdx := |tx.ins| - 1;
    ghost var todo := SpendsOf(tx);
    while txInIdx > -1 && !(txInIdx == 0 && isVote)
      invariant -1 <= txInIdx < |tx.ins| && 0 <= offset <= |s|
      invariant todo == if FirstSpend(tx) <= txInIdx + 1 then tx.ins[FirstSpend(tx)..txInIdx + 1] else []
      invariant all == Continue(s[offset..], earlier + todo, stxos, offset)
    {
      todo := tx.ins[FirstSpend(tx)..txInIdx];
      Assoc3(earlier, todo, tx.ins[txInIdx]);
      assert tx.ins[FirstSpend(tx)..txInIdx + 1] == todo + [tx.ins[txInIdx]];
      ContinueStep(s, offset, earlier + todo, tx.ins[txInIdx], stxos);
      var d := DecodeStxo(s[offset..], tx.ins[txInIdx]);
      if d.Err? {
        return Err(d.error);
      }
      stxos := [d.value.0] + stxos;
      offset := offset + d.value.1;
      txInIdx := txInIdx - 1;
    }
    assert todo == [] && earlier + todo == earlier;
    return Ok((stxos, offset));
  }

  lemma Assoc3(a: seq<TxIn>, b: seq<TxIn>, x: TxIn)
    ensures a + (b + [x]) == (a + b) + [x]
  {}

  /** What reading the remaining inputs adds to what was read already. */
  function Continue(s: Bytes, ins: seq<TxIn>, stxos: seq<SpentTxOut>, offset: nat):
    Result<(seq<SpentTxOut>, nat), DecodeError>
  {
    match DecodeEntry(s, ins)
    case Err(e) => Err(e)
    case Ok((more, n)) => Ok((more + stxos, offset + n))
  }

  lemma ContinueStart(s: Bytes, ins: seq<TxIn>)
    ensures Continue(s, ins, [], 0) == DecodeEntry(s, ins)
  {
    var d := DecodeEntry(s, ins);
    assert d.Ok? ==> d.value.0 + [] == d.value.0;
  }

  lemma ContinueEnd(s: Bytes, stxos: seq<SpentTxOut>, offset: nat)
    ensures Continue(s, [], stxos, offset) == Ok((stxos, offset))
  {
    assert [] + stxos == stxos;
  }

  lemma ContinueStep(s: Bytes, offset: nat, rest: seq<TxIn>, txIn: TxIn, stxos: seq<SpentTxOut>)
    requires offset <= |s|
    ensures Continue(s[offset..], rest + [txIn], stxos, offset) ==
            match DecodeStxo(s[offset..], txIn)
            case Err(e) => Err(e)
            case Ok((last, n)) => Continue(s[offset + n..], rest, [last] + stxos, offset + n)
  {
    hide DecodeStxo;
    assert (rest + [txIn])[..|rest|] == rest;
    var d := DecodeStxo(s[offset..], txIn);
    if d.Ok? {
      var (last, n) := d.value;
      assert s[offset..][n..] == s[offset + n..];
      var more := DecodeEntry(s[offset + n..], rest);
      if more.Ok? {
        assert more.value.0 + [last] + stxos == more.value.0 + ([last] + stxos);
      }
    }
  }

  // The stored form.

  /** The entry starts with its last spent output and ends with its first. */
  lemma {:induction false} EntryOrder(curve: Curve, stxos: seq<SpentTxOut>, i: nat)
    requires i < |stxos|
    ensures EncodeEntry(curve, stxos) ==
            EncodeEntry(curve, stxos[i + 1..]) + EncodeStxo(curve, stxos[i]) + EncodeEntry(curve, stxos[..i])
  {
    hide EncodeStxo;
    var last := |stxos| - 1;
    var init := stxos[..last];
    if i < last {
      EntryOrder(curve, init, i);
      assert init[..i] == stxos[..i];
      assert stxos[i + 1..][..last - i - 1] == init[i + 1..];
    }
  }

  /** A byte of flags, the version and the script, and with the final spend of a transaction its version
      and, of a ticket, its outputs. */
  lemma StxoLayout(curve: Curve, s: SpentTxOut)
    ensures var e := EncodeStxo(curve, s);
            && Bit(e[0], 4) == s.txFullySpent && Bit(e[0], 0) == s.isCoinBase && Bit(e[0], 1) == s.hasExpiry
            && Bit(e[0], 2) == (s.txType == SStx || s.txType == SSRtx)
            && Bit(e[0], 3) == (s.txType == SSGen || s.txType == SSRtx)
            && e[1..] == Encode(s.scriptVersion) + (if s.compressed then s.pkScript else Compress(curve, s.pkScript))
                         + (if s.txFullySpent then Encode(s.txVersion) else [])
                         + (if s.txFullySpent && s.txType == SStx then s.stakeExtra else [])
  {
    hide Encode, Compress, EncodeFlags, Bit;
    FlagBits(s.isCoinBase, s.hasExpiry, s.txType, s.txFullySpent);
    ByteFlags(s);
    TxOutLayout(curve, 0, s.scriptVersion, s.pkScript);
    var out := EncodeTxOut(curve, 0, s.scriptVersion, s.pkScript, s.compressed, false);
    DropPrefix([FlagsOf(s)], out + EncodeDetails(s));
    if s.txFullySpent {
      Assoc(out, Encode(s.txVersion), if s.txType == SStx then s.stakeExtra else []);
    }
  }

  lemma ByteFlags(s: SpentTxOut)
    ensures Encode(FlagsOf(s)) == [FlagsOf(s)]
  {
    hide Groups;
    Last(FlagsOf(s), true);
  }

  // Round trip.

  lemma DetailsRoundTrip(s: SpentTxOut, tail: Bytes)
    requires Storable(s) && s.txFullySpent
    ensures DecodeDetails(EncodeDetails(s) + tail, s.txType) ==
            Ok((s.txVersion, if s.txType == SStx then s.stakeExtra else [], |EncodeDetails(s)|))
  {
    hide Encode, Decode, MinimalSize, SelfDelimiting, InRange, EncodeMinimal;
    var v := Encode(s.txVersion);
    var extra := if s.txType == SStx then s.stakeExtra else [];
    Assoc(v, extra, tail);
    RoundTrip(s.txVersion, extra + tail);
    DropPrefix(v, extra + tail);
    if s.txType == SStx {
      var outs :| InRange(outs) && s.stakeExtra == EncodeMinimal(outs);
      MinimalRoundTrip(outs, tail);
      DropPrefix(extra, tail);
    }
  }

  lemma StxoRoundTrip(curve: Curve, s: SpentTxOut, txIn: TxIn, tail: Bytes)
    requires Storable(s)
    ensures DecodeStxo(EncodeStxo(curve, s) + tail, txIn) == Ok((AsRead(curve, s, txIn), |EncodeStxo(curve, s)|))
  {
    hide Encode, Decode, EncodeTxOut, DecodeTxOut, EncodeDetails, DecodeDetails, Compress, SelfDelimiting;
    hide EncodeFlags, DecodeFlags, InRange, EncodeMinimal;
    var f, out, d := Encode(FlagsOf(s)), EncodeTxOut(curve, 0, s.scriptVersion, s.pkScript, s.compressed, false),
      EncodeDetails(s);
    FlagsRoundTrip(s.isCoinBase, s.hasExpiry, s.txType, s.txFullySpent);
    ZeroFits();
    Assoc(f, out + d, tail);
    Assoc(out, d, tail);
    RoundTrip(FlagsOf(s), out + (d + tail));
    DropPrefix(f, out + (d + tail));
    TxOutRoundTrip(curve, 0, s.scriptVersion, s.pkScript, s.compressed, false, d + tail);
    DropPrefix(out, d + tail);
    if s.txFullySpent {
      DetailsRoundTrip(s, tail);
    } else {
      NoDetails(s);
    }
  }

  lemma ZeroFits()
    ensures TxOutCodec.Amounts.Compressed(0) == 0
  {}

  lemma NoDetails(s: SpentTxOut)
    requires !s.txFullySpent
    ensures EncodeDetails(s) == []
  {}

  function AllAsRead(curve: Curve, stxos: seq<SpentTxOut>, ins: seq<TxIn>): (r: seq<SpentTxOut>)
    requires |stxos| == |ins|
    ensures |r| == |stxos| && forall i :: 0 <= i < |r| ==> r[i] == AsRead(curve, stxos[i], ins[i])
  {
    if stxos == [] then []
    else AllAsRead(curve, stxos[..|stxos| - 1], ins[..|ins| - 1]) + [AsRead(curve, stxos[|stxos| - 1], ins[|ins| - 1])]
  }

  /** Every spent output comes back in its own slot and the whole buffer is consumed. */
  lemma {:induction false} EntryRoundTrip(curve: Curve, stxos: seq<SpentTxOut>, ins: seq<TxIn>)
    requires |stxos| == |ins| && forall i :: 0 <= i < |stxos| ==> Storable(stxos[i])
    ensures DecodeEntry(EncodeEntry(curve, stxos), ins) ==
      Ok((AllAsRead(curve, stxos, ins), |EncodeEntry(curve, stxos)|))
    decreases |stxos|
  {
    hide EncodeStxo, DecodeStxo, Storable, AsRead;
    if stxos != [] {
      var init := stxos[..|stxos| - 1];
      var last := stxos[|stxos| - 1];
      EntryRoundTrip(curve, init, ins[..|ins| - 1]);
      StxoRoundTrip(curve, last, ins[|ins| - 1], EncodeEntry(curve, init));
      DropPrefix(EncodeStxo(curve, last), EncodeEntry(curve, init));
    }
  }

  /** The script of every entry read back decompresses to the script that was spent. */
  lemma ScriptsSurvive(curve: Curve, s: SpentTxOut, txIn: TxIn)
    requires RecoversKeys(curve) && !s.compressed && |s.pkScript| < U64 / 8
    ensures var r := AsRead(curve, s, txIn);
            r.compressed && HoldsScript(r.pkScript) && Decompress(curve, r.pkScript) == Some(s.pkScript)
  {
    DecompressUndoesCompress(curve, s.pkScript);
  }
}
