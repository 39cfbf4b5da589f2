/** Writing into pre-sized byte slices.  A slice target[at:] is the array and an offset. */
module Buffers {
  import opened Transactions

  /** The buffer after writing `data` at an offset; everything else is untouched. */
  function Overlay(buf: Bytes, at: nat, data: Bytes): (r: Bytes)
    requires at + |data| <= |buf|
    ensures |r| == |buf|
  {
    buf[..at] + data + buf[at + |data|..]
  }

  lemma OverlayAppend(buf: Bytes, at: nat, x: Bytes, y: Bytes)
    requires at + |x| + |y| <= |buf|
    ensures Overlay(Overlay(buf, at, x), at + |x|, y) == Overlay(buf, at, x + y)
  {
    assert Overlay(buf, at, x)[..at + |x|] == buf[..at] + x;
  }

  /** `now` is `before` with `data` written at an offset. */
  ghost predicate Filled(now: Bytes, before: Bytes, at: nat, data: Bytes) {
    at + |data| <= |before| && now == Overlay(before, at, data)
  }

  lemma FilledNothing(buf: Bytes, at: nat)
    requires at <= |buf|
    ensures Filled(buf, buf, at, [])
  {}

  /** Consecutive writes add up. */
  lemma FilledMore(now: Bytes, later: Bytes, before: Bytes, at: nat, x: Bytes, y: Bytes)
    requires Filled(now, before, at, x) && Filled(later, now, at + |x|, y)
    ensures Filled(later, before, at, x + y)
  {
    OverlayAppend(before, at, x, y);
  }

  lemma FilledAll(now: Bytes, before: Bytes, data: Bytes)
    requires Filled(now, before, 0, data) && |data| == |before|
    ensures now == data
  {}

  lemma Assoc(a: Bytes, b: Bytes, c: Bytes)
    ensures a + b + c == a + (b + c)
  {}

  lemma DropPrefix(a: Bytes, b: Bytes)
    ensures (a + b)[|a|..] == b && (a + b)[..|a|] == a
  {}

  lemma ReadFilled(now: Bytes, before: Bytes, at: nat, data: Bytes, i: nat)
    requires Filled(now, before, at, data) && i < |data|
    ensures at + i < |now| && now[at + i] == data[i]
  {}

  lemma SetFilled(now: Bytes, before: Bytes, at: nat, data: Bytes, i: nat, b: Byte)
    requires Filled(now, before, at, data) && i < |data|
    ensures at + i < |now| && Filled(now[at + i := b], before, at, data[i := b])
  {}

  lemma OverlaySet(buf: Bytes, at: nat, x: Bytes, b: Byte)
    requires at + |x| < |buf|
    ensures Overlay(buf, at, x)[at + |x| := b] == Overlay(buf, at, x + [b])
  {}

  method Copy(target: array<Byte>, at: nat, data: Bytes)
    requires at + |data| <= target.Length
    modifies target
    ensures Filled(target[..], old(target[..]), at, data)
  {
    forall i | 0 <= i < |data| {
      target[at + i] := data[i];
    }
    assert target[..at] == old(target[..at]);
    assert target[at..at + |data|] == data;
  }
}

/** Variable length quantities (blockchain/compress.go). */
module Vlq {
  import opened Transactions
  import opened Buffers

  const U64: int := 0x1_0000_0000_0000_0000

  /** Base-128 groups, most significant first; every group but the last carries the high bit, and
      one is subtracted each time a group is shifted out. */
  function Groups(n: nat, last: bool): (r: Bytes)
    ensures |r| > 0
  {
    (if n > 127 then Groups(n / 128 - 1, false) else []) + [n % 128 + (if last then 0 else 128)]
  }

  function Encode(n: nat): (r: Bytes)
    ensures |r| > 0
  {
    Groups(n, true)
  }

  function DecodeFrom(s: Bytes, n: nat): (nat, nat) {
    if s == [] then (n, 0) else
    var m := (n * 128 + s[0] % 128) % U64;
    if s[0] < 128 then (m, 1) else
    var (v, k) := DecodeFrom(s[1..], (m + 1) % U64);
    (v, k + 1)
  }

  /** The value at the front of `s` and the number of bytes it takes, in 64-bit arithmetic. */
  function Decode(s: Bytes): (r: (nat, nat))
    ensures r.0 < U64 && r.1 <= |s| && (s != [] ==> r.1 > 0)
  {
    DecodeBound(s, 0);
    DecodeFrom(s, 0)
  }

  /** The value of base-128 groups, most significant first, with one added each time a group is shifted
      in. */
  function GroupValue(s: Bytes): nat
    requires s != []
  {
    if |s| == 1 then s[0] % 128 else (GroupValue(s[..|s| - 1]) + 1) * 128 + s[|s| - 1] % 128
  }

  /** All bytes but the last carry the high bit. */
  predicate HighBits(s: Bytes) {
    forall i :: 0 <= i < |s| ==> (s[i] >= 128 <==> i < |s| - 1)
  }

  lemma GroupValueNext(s: Bytes, b: Byte)
    requires s != []
    ensures GroupValue(s + [b]) == (GroupValue(s) + 1) * 128 + b % 128
  {
    assert (s + [b])[..|s|] == s;
  }

  lemma {:induction false} GroupsValue(n: nat, last: bool)
    ensures GroupValue(Groups(n, last)) == n
  {
    hide GroupValue;
    var b := n % 128 + (if last then 0 else 128);
    if n > 127 {
      GroupsValue(n / 128 - 1, false);
      GroupValueNext(Groups(n / 128 - 1, false), b);
    } else {
      assert Groups(n, last) == [b];
      OneGroup(b);
    }
  }

  lemma OneGroup(b: Byte)
    ensures GroupValue([b]) == b % 128
  {}

  lemma {:induction false} GroupsBits(n: nat, last: bool)
    ensures forall i :: 0 <= i < |Groups(n, last)| ==>
      (Groups(n, last)[i] >= 128 <==> i < |Groups(n, last)| - 1 || !last)
  {
    if n > 127 {
      GroupsBits(n / 128 - 1, false);
    }
  }

  /** The encoding is the number in base 128 with the subtraction, and marks its end. */
  lemma EncodeIs(n: nat)
    ensures GroupValue(Encode(n)) == n && HighBits(Encode(n))
  {
    GroupsValue(n, true);
    GroupsBits(n, true);
  }

  lemma Last(n: nat, last: bool)
    ensures n <= 127 ==> Groups(n, last) == [n + (if last then 0 else 128)]
    ensures n > 127 ==> Groups(n, last) == Groups(n / 128 - 1, false) + [n % 128 + (if last then 0 else 128)]
  {}

  /** The examples of the documentation: the largest and smallest numbers of each length. */
  lemma DocumentedValues()
    ensures Encode(0) == [0x00] && Encode(127) == [0x7f]
    ensures Encode(128) == [0x80, 0x00] && Encode(129) == [0x80, 0x01] && Encode(255) == [0x80, 0x7f]
    ensures Encode(256) == [0x81, 0x00] && Encode(16511) == [0xff, 0x7f]
    ensures Encode(16512) == [0x80, 0x80, 0x00] && Encode(32895) == [0x80, 0xff, 0x7f]
    ensures Encode(2113663) == [0xff, 0xff, 0x7f] && Encode(270549119) == [0xff, 0xff, 0xff, 0x7f]
  {
    hide Groups;
    Last(0, true);
    Last(127, true);
    Last(0, false);
    Last(1, false);
    Last(127, false);
    Last(128, true);
    Last(129, true);
    Last(255, true);
    Last(256, true);
    Last(16511, true);
    Last(128, false);
    Last(255, false);
    Last(16512, true);
    Last(32895, true);
    Last(16511, false);
    Last(2113663, true);
    Last(2113663, false);
    Last(270549119, true);
  }

  lemma {:induction false} DecodeBound(s: Bytes, n: nat)
    ensures DecodeFrom(s, n).1 <= |s| && (s != [] ==> DecodeFrom(s, n).1 > 0)
    ensures n < U64 ==> DecodeFrom(s, n).0 < U64
  {
    if s != [] && s[0] >= 128 {
      DecodeBound(s[1..], ((n * 128 + s[0] % 128) % U64 + 1) % U64);
    }
  }

  method SerializeSizeVLQ(value: nat) returns (size: nat)
    requires value < U64
    ensures size == |Encode(value)|
  {
    size := 1;
    var n := value;
    while n > 127
      invariant |Encode(value)| == size - 1 + |Groups(n, false)|
    {
      size := size + 1;
      n := n / 128 - 1;
    }
  }

  function Reversed(s: Bytes): (r: Bytes)
    ensures |r| == |s| && forall k :: 0 <= k < |s| ==> r[k] == s[|s| - 1 - k]
  {
    if s == [] then [] else [s[|s| - 1]] + Reversed(s[..|s| - 1])
  }

  /** The data with its first and last i bytes exchanged end for end. */
  function Swapped(data: Bytes, i: nat): (r: Bytes)
    ensures |r| == |data|
  {
    seq(|data|, k requires 0 <= k < |data| => if i <= k < |data| - i then data[k] else data[|data| - 1 - k])
  }

  lemma SwappedStep(data: Bytes, i: nat)
    requires i < |data| - 1 - i
    ensures Swapped(data, i)[i] == data[i] && Swapped(data, i)[|data| - 1 - i] == data[|data| - 1 - i]
    ensures Swapped(data, i)[i := data[|data| - 1 - i]][|data| - 1 - i := data[i]] == Swapped(data, i + 1)
  {}

  lemma SwappedEnds(data: Bytes, i: nat)
    ensures Swapped(data, 0) == data
    ensures i >= |data| - 1 - i ==> Swapped(data, i) == Reversed(data)
  {
    hide Reversed;
    if i >= |data| - 1 - i {
      forall k | 0 <= k < |data| ensures Swapped(data, i)[k] == Reversed(data)[k] {}
    }
  }

  /** Reverse the bytes target[at:at+n], known to be `data`, in place. */
  method ReverseRange(target: array<Byte>, at: nat, n: nat, ghost before: Bytes, ghost data: Bytes)
    requires |data| == n && Filled(target[..], before, at, data)
    modifies target
    ensures Filled(target[..], before, at, Reversed(data))
  {
    hide Filled, Swapped;
    var i, j := 0, n - 1;
    SwappedEnds(data, 0);
    while i < j
      invariant 0 <= i && i + j == n - 1
      invariant Filled(target[..], before, at, Swapped(data, i))
    {
      ghost var cur := Swapped(data, i);
      SwappedStep(data, i);
      ReadFilled(target[..], before, at, cur, i);
      ReadFilled(target[..], before, at, cur, j);
      var x, y := target[at + i], target[at + j];
      SetFilled(target[..], before, at, cur, i, y);
      PutByte(target, at + i, y);
      SetFilled(target[..], before, at, cur[i := y], j, x);
      PutByte(target, at + j, x);
      i, j := i + 1, j - 1;
    }
    SwappedEnds(data, i);
  }

  method PutVLQ(target: array<Byte>, at: nat, value: nat) returns (size: nat)
    requires value < U64 && at + |Encode(value)| <= target.Length
    modifies target
    ensures size == |Encode(value)|
    ensures Filled(target[..], old(target[..]), at, Encode(value))
  {
    ghost var written;
    size, written := PutGroups(target, at, value);
    // Reverse the bytes so the most significant group comes first.
    ReverseRange(target, at, size, old(target[..]), written);
  }

  /** Write the groups of a value least significant first. */
  method PutGroups(target: array<Byte>, at: nat, value: nat) returns (size: nat, ghost written: Bytes)
    requires value < U64 && at + |Encode(value)| <= target.Length
    modifies target
    ensures size == |written| == |Encode(value)| && Encode(value) == Reversed(written)
    ensures target[..] == Overlay(old(target[..]), at, written)
  {
    var n, offset := value, 0;
    written := [];
    FilledNothing(target[..], at);
    while true
      invariant |written| == offset < |Encode(value)|
      invariant Encode(value) == Groups(n, offset == 0) + Reversed(written)
      invariant target[..] == Overlay(old(target[..]), at, written)
      decreases n
    {
      var b := n % 128 + (if offset == 0 then 0 else 128);
      OverlaySet(old(target[..]), at, written, b);
      GroupsSplit(n, offset == 0, Reversed(written));
      PutByte(target, at + offset, b);
      ReversedSnoc(written, b);
      written := written + [b];
      if n <= 127 {
        break;
      }
      n := n / 128 - 1;
      offset := offset + 1;
    }
    size := offset + 1;
  }

  method PutByte(target: array<Byte>, at: nat, b: Byte)
    requires at < target.Length
    modifies target
    ensures target[..] == old(target[..])[at := b]
  {
    target[at] := b;
  }

  lemma GroupsSplit(n: nat, last: bool, rest: Bytes)
    ensures var b := n % 128 + (if last then 0 else 128);
            Groups(n, last) + rest == (if n > 127 then Groups(n / 128 - 1, false) else []) + ([b] + rest)
  {}

  lemma ReversedSnoc(s: Bytes, b: Byte)
    ensures Reversed(s + [b]) == [b] + Reversed(s)
  {
    assert (s + [b])[..|s|] == s;
  }

  method DeserializeVLQ(s: Bytes) returns (n: nat, size: nat)
    ensures (n, size) == Decode(s)
  {
    n, size := 0, 0;
    while size < |s|
      invariant size <= |s|
      invariant Decode(s) == (DecodeFrom(s[size..], n).0, size + DecodeFrom(s[size..], n).1)
    {
      var val := s[size];
      assert s[size..][1..] == s[size + 1..];
      size := size + 1;
      n := (n * 128 + val % 128) % U64;
      if val < 128 {
        break;
      }
      n := (n + 1) % U64;
    }
  }

  // Encoding and decoding are inverse to each other.

  predicate IsContinuation(p: Bytes) {
    forall i :: 0 <= i < |p| ==> p[i] >= 128
  }

  /** The accumulator after reading a run of continuation bytes, over the integers. */
  function Acc(p: Bytes): nat {
    if p == [] then 0 else Acc(p[..|p| - 1]) * 128 + p[|p| - 1] % 128 + 1
  }

  lemma {:induction false} GroupsAcc(n: nat)
    ensures IsContinuation(Groups(n, false)) && Acc(Groups(n, false)) == n + 1
  {
    hide Acc, IsContinuation, Groups;
    var q, r := n / 128, n % 128;
    GroupsLast(n, q, r);
    AccNone();
    if n > 127 {
      GroupsAcc(q - 1);
      AccSnoc(Groups(q - 1, false), r + 128);
    } else {
      AccSnoc([], r + 128);
    }
  }

  lemma GroupsLast(n: nat, q: nat, r: nat)
    requires q == n / 128 && r == n % 128
    ensures n == q * 128 + r && r < 128 && (r + 128) % 128 == r && (n > 127 <==> q > 0)
    ensures Groups(n, false) == (if n > 127 then Groups(q - 1, false) else []) + [r + 128]
  {}

  lemma AccNone()
    ensures Acc([]) == 0 && IsContinuation([])
  {}

  lemma AccSnoc(p: Bytes, b: Byte)
    requires IsContinuation(p) && b >= 128
    ensures IsContinuation(p + [b]) && Acc(p + [b]) == Acc(p) * 128 + b % 128 + 1
  {
    assert (p + [b])[..|p|] == p;
  }

  /** Continuation bytes that reach n+1 are the groups of n. */
  lemma {:induction false} AccGroups(p: Bytes)
    requires IsContinuation(p) && p != []
    ensures Acc(p) > 0 && Groups(Acc(p) - 1, false) == p
  {
    var q := p[..|p| - 1];
    var n := Acc(p) - 1;
    assert p == q + [p[|p| - 1]];
    if q != [] {
      AccGroups(q);
      assert n / 128 == Acc(q);
    }
  }

  lemma DecodeStep(b: Byte, rest: Bytes, n: nat)
    requires b >= 128 && n * 128 + b % 128 + 1 < U64
    ensures DecodeFrom([b] + rest, n) ==
            (DecodeFrom(rest, n * 128 + b % 128 + 1).0, DecodeFrom(rest, n * 128 + b % 128 + 1).1 + 1)
  {
    var s, m := [b] + rest, n * 128 + b % 128;
    assert s[1..] == rest;
    assert m % U64 == m && (m + 1) % U64 == m + 1;
  }

  lemma DecodeLast(b: Byte, tail: Bytes, n: nat)
    requires b < 128 && n * 128 + b < U64
    ensures DecodeFrom([b] + tail, n) == (n * 128 + b, 1)
  {
    var m: nat := n * 128 + b;
    assert b % 128 == b && m % U64 == m;
  }

  lemma {:induction false} DecodeContinuation(p: Bytes, rest: Bytes)
    requires IsContinuation(p) && Acc(p) < U64
    ensures DecodeFrom(p + rest, 0) == (DecodeFrom(rest, Acc(p)).0, |p| + DecodeFrom(rest, Acc(p)).1)
  {
    if p == [] {
      assert p + rest == rest;
    } else {
      var q, b := p[..|p| - 1], p[|p| - 1];
      DecodeContinuation(q, [b] + rest);
      DecodeStep(b, rest, Acc(q));
      assert p + rest == q + ([b] + rest);
    }
  }

  function Prefix(n: nat): Bytes {
    if n > 127 then Groups(n / 128 - 1, false) else []
  }

  lemma PrefixAcc(n: nat)
    ensures IsContinuation(Prefix(n)) && Acc(Prefix(n)) == n / 128
  {
    hide Groups;
    if n > 127 {
      GroupsAcc(n / 128 - 1);
    }
  }

  lemma EncodeSplit(n: nat)
    ensures Encode(n) == Prefix(n) + [n % 128]
  {
    hide Acc, IsContinuation;
  }

  /** Every 64-bit value followed by anything decodes to itself and to its own length. */
  lemma RoundTrip(n: nat, tail: Bytes)
    requires n < U64
    ensures Decode(Encode(n) + tail) == (n, |Encode(n)|)
  {
    hide Encode, Prefix, Acc, DecodeFrom, IsContinuation;
    PrefixAcc(n);
    EncodeSplit(n);
    DecodeContinuation(Prefix(n), [n % 128] + tail);
    DecodeLast(n % 128, tail, n / 128);
    Assoc(Prefix(n), [n % 128], tail);
  }

  /** A complete byte string: continuation bytes and one final byte. */
  predicate IsComplete(s: Bytes) {
    s != [] && IsContinuation(s[..|s| - 1]) && s[|s| - 1] < 128
  }

  function ValueOf(s: Bytes): nat
    requires s != []
  {
    Acc(s[..|s| - 1]) * 128 + s[|s| - 1] % 128
  }

  /** Every complete byte string whose value fits in 64 bits is the encoding of what it decodes to,
      so each integer has exactly one representation. */
  lemma Canonical(s: Bytes)
    requires IsComplete(s) && ValueOf(s) < U64
    ensures Decode(s) == (ValueOf(s), |s|) && Encode(ValueOf(s)) == s
  {
    var p, b := s[..|s| - 1], s[|s| - 1];
    assert s == p + [b];
    DecodeContinuation(p, [b]);
    DecodeLast(b, [], Acc(p));
    assert [b] + [] == [b];
    if p != [] {
      AccGroups(p);
      assert ValueOf(s) / 128 - 1 == Acc(p) - 1;
    }
  }
}
