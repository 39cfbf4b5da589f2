/** Counting the choices of votes on an agenda (blockchain/votebits.go). */
module VoteBits {
  import opened Wrappers
  import opened BlockNodes
  import opened GoArithmetic
  import opened Counting

  datatype Choice = Choice(isAbstain: bool, isNo: bool)

  /** An agenda: its bits in a vote, its choices and the rules for deciding it. */
  datatype Agenda = Agenda(
    mask: bv16,
    choices: seq<Choice>,
    beginTime: int,
    endTime: int,
    quorum: nat,
    multiplier: nat,
    divisor: nat,
    interval: nat,
    stakeValidationHeight: nat)
  {
    predicate Ok() {
      divisor > 0 && interval > 0
    }

    /** The number of votes for one choice that decides the agenda, in 32 bits. */
    function ActivationThreshold(totalVotes: nat): nat
      requires divisor > 0
    {
      Uint32(totalVotes * multiplier) / divisor
    }
  }

  datatype ConditionTally = ConditionTally(count: nat, isAbstain: bool, isNo: bool)

  datatype VoteError = InvalidMask

  // Bits.  A shift to the right by n is n halvings.

  function Half(x: bv16): bv16 {
    x >> 1
  }

  function And(a: bv16, b: bv16): bv16 {
    a & b
  }

  predicate IsOdd(x: bv16) {
    x & 1 == 1
  }

  function Shr(x: bv16, n: nat): bv16 {
    if n == 0 then x else Half(Shr(x, n - 1))
  }

  lemma AndHalf(a: bv16, b: bv16)
    ensures And(Half(a), Half(b)) == Half(And(a, b))
  {}

  lemma HalfSmaller(x: bv16)
    requires x != 0
    ensures Half(x) < x && (!IsOdd(x) ==> Half(x) != 0)
  {}

  lemma {:induction false} ShrAnd(mask: bv16, bits: bv16, n: nat)
    ensures And(Shr(mask, n), Shr(bits, n)) == Shr(And(mask, bits), n)
  {
    hide Half, And;
    if n > 0 {
      ShrAnd(mask, bits, n - 1);
      AndHalf(Shr(mask, n - 1), Shr(bits, n - 1));
    }
  }

  /** The choice that some vote bits select: the bits under the mask, with the zero bits below the
      lowest bit of the mask dropped. */
  function Selected(mask: bv16, bits: bv16): bv16
    requires mask != 0
    decreases mask
  {
    HalfSmaller(mask);
    if IsOdd(mask) then And(mask, bits) else Selected(Half(mask), Half(bits))
  }

  /** The shift drops zero bits only. */
  ghost predicate DropsZeros(mask: bv16, shift: nat)
    requires mask != 0
  {
    Shr(mask, shift) != 0 && forall bits :: Selected(mask, bits) == Selected(Shr(mask, shift), Shr(bits, shift))
  }

  lemma DropOneMore(mask: bv16, shift: nat)
    requires mask != 0 && DropsZeros(mask, shift) && !IsOdd(Shr(mask, shift))
    ensures DropsZeros(mask, shift + 1)
  {
    hide Half, And, IsOdd;
    HalfSmaller(Shr(mask, shift));
  }

  lemma DroppedAll(mask: bv16, shift: nat, bits: bv16)
    requires mask != 0 && DropsZeros(mask, shift) && IsOdd(Shr(mask, shift))
    ensures Shr(And(mask, bits), shift) == Selected(mask, bits)
  {
    hide Half, And, IsOdd, Shr;
    ShrAnd(mask, bits, shift);
  }

  method CalcShift(mask: bv16) returns (shift: nat)
    requires mask != 0
    ensures DropsZeros(mask, shift) && IsOdd(Shr(mask, shift))
  {
    hide Half, And, IsOdd, Selected;
    shift := 0;
    var rest := mask;
    while !IsOdd(rest)
      invariant rest == Shr(mask, shift) && DropsZeros(mask, shift)
      decreases rest
    {
      DropOneMore(mask, shift);
      HalfSmaller(rest);
      shift := shift + 1;
      rest := Half(rest);
    }
  }

  // Votes.

  /** How many votes of the version select choice k. */
  function CountFor(votes: seq<Vote>, version: nat, mask: bv16, k: nat): nat
    requires mask != 0
  {
    if votes == [] then 0 else
    var last := votes[|votes| - 1];
    CountFor(votes[..|votes| - 1], version, mask, k) + (if last.version == version
                                                        && Selected(mask, last.bits) as nat == k then 1 else 0)
  }

  lemma {:induction false} CountForAppend(a: seq<Vote>, b: seq<Vote>, version: nat, mask: bv16, k: nat)
    requires mask != 0
    ensures CountFor(a + b, version, mask, k) == CountFor(a, version, mask, k) + CountFor(b, version, mask, k)
    decreases |b|
  {
    hide Selected;
    if b == [] {
      assert a + b == a;
    } else {
      CountForAppend(a, b[..|b| - 1], version, mask, k);
      assert (a + b)[..|a + b| - 1] == a + b[..|b| - 1];
    }
  }

  // What is counted.

  predicate HasBit(x: bv16, t: nat) {
    match t
    case 0 => x & 0x1 != 0
    case 1 => x & 0x2 != 0
    case 2 => x & 0x4 != 0
    case 3 => x & 0x8 != 0
    case 4 => x & 0x10 != 0
    case 5 => x & 0x20 != 0
    case 6 => x & 0x40 != 0
    case 7 => x & 0x80 != 0
    case 8 => x & 0x100 != 0
    case 9 => x & 0x200 != 0
    case 10 => x & 0x400 != 0
    case 11 => x & 0x800 != 0
    case 12 => x & 0x1000 != 0
    case 13 => x & 0x2000 != 0
    case 14 => x & 0x4000 != 0
    case 15 => x & 0x8000 != 0
    case _ => false
  }

  predicate IsLowestBit(mask: bv16, t: nat) {
    HasBit(mask, t) && forall s: nat :: s < t ==> !HasBit(mask, s)
  }

  /** The bits of c are those of the vote bits under the mask from bit t on. */
  ghost predicate IsReadFrom(c: bv16, mask: bv16, bits: bv16, t: nat) {
    forall j: nat :: HasBit(c, j) <==> HasBit(mask, t + j) && HasBit(bits, t + j)
  }

  /** The bits under the mask, read from the lowest bit of the mask on, are k. */
  ghost predicate IsChoice(mask: bv16, bits: bv16, k: nat) {
    exists t: nat, c: bv16 :: IsLowestBit(mask, t) && IsReadFrom(c, mask, bits, t) && c as nat == k
  }

  /** The vote has the version and is for choice k of the agenda. */
  ghost predicate IsVoteFor(vote: Vote, version: nat, mask: bv16, k: nat) {
    vote.version == version && IsChoice(mask, vote.bits, k)
  }

  lemma HalfBit(x: bv16, t: nat)
    ensures HasBit(Half(x), t) <==> HasBit(x, t + 1)
  {
    if t == 0 {
    } else if t == 1 {
    } else if t == 2 {
    } else if t == 3 {
    } else if t == 4 {
    } else if t == 5 {
    } else if t == 6 {
    } else if t == 7 {
    } else if t == 8 {
    } else if t == 9 {
    } else if t == 10 {
    } else if t == 11 {
    } else if t == 12 {
    } else if t == 13 {
    } else if t == 14 {
    } else {
      assert Half(x) & 0x8000 == 0;
    }
  }

  lemma OddBit(x: bv16)
    ensures IsOdd(x) <==> HasBit(x, 0)
  {}

  lemma SameBits(x: bv16, y: bv16)
    requires forall t: nat :: HasBit(x, t) <==> HasBit(y, t)
    ensures x == y
  {
    hide HasBit;
    SameUnderMasks(x, y);
    AllMasks(x, y);
  }

  lemma SameUnderMasks(x: bv16, y: bv16)
    ensures (HasBit(x, 0) <==> HasBit(y, 0)) ==> x & 0x1 == y & 0x1
    ensures (HasBit(x, 1) <==> HasBit(y, 1)) ==> x & 0x2 == y & 0x2
    ensures (HasBit(x, 2) <==> HasBit(y, 2)) ==> x & 0x4 == y & 0x4
    ensures (HasBit(x, 3) <==> HasBit(y, 3)) ==> x & 0x8 == y & 0x8
    ensures (HasBit(x, 4) <==> HasBit(y, 4)) ==> x & 0x10 == y & 0x10
    ensures (HasBit(x, 5) <==> HasBit(y, 5)) ==> x & 0x20 == y & 0x20
    ensures (HasBit(x, 6) <==> HasBit(y, 6)) ==> x & 0x40 == y & 0x40
    ensures (HasBit(x, 7) <==> HasBit(y, 7)) ==> x & 0x80 == y & 0x80
    ensures (HasBit(x, 8) <==> HasBit(y, 8)) ==> x & 0x100 == y & 0x100
    ensures (HasBit(x, 9) <==> HasBit(y, 9)) ==> x & 0x200 == y & 0x200
    ensures (HasBit(x, 10) <==> HasBit(y, 10)) ==> x & 0x400 == y & 0x400
    ensures (HasBit(x, 11) <==> HasBit(y, 11)) ==> x & 0x800 == y & 0x800
    ensures (HasBit(x, 12) <==> HasBit(y, 12)) ==> x & 0x1000 == y & 0x1000
    ensures (HasBit(x, 13) <==> HasBit(y, 13)) ==> x & 0x2000 == y & 0x2000
    ensures (HasBit(x, 14) <==> HasBit(y, 14)) ==> x & 0x4000 == y & 0x4000
    ensures (HasBit(x, 15) <==> HasBit(y, 15)) ==> x & 0x8000 == y & 0x8000
  {}

  lemma AllMasks(x: bv16, y: bv16)
    requires x & 0x1 == y & 0x1 && x & 0x2 == y & 0x2 && x & 0x4 == y & 0x4 && x & 0x8 == y & 0x8
    requires x & 0x10 == y & 0x10 && x & 0x20 == y & 0x20 && x & 0x40 == y & 0x40 && x & 0x80 == y & 0x80
    requires x & 0x100 == y & 0x100 && x & 0x200 == y & 0x200 && x & 0x400 == y & 0x400 && x & 0x800 == y & 0x800
    requires x & 0x1000 == y & 0x1000 && x & 0x2000 == y & 0x2000 && x & 0x4000 == y & 0x4000
      && x & 0x8000 == y & 0x8000
    ensures x == y
  {}

  lemma AndBit(a: bv16, b: bv16, t: nat)
    ensures HasBit(And(a, b), t) <==> HasBit(a, t) && HasBit(b, t)
  {
    if t == 0 {
    } else if t == 1 {
    } else if t == 2 {
    } else if t == 3 {
    } else if t == 4 {
    } else if t == 5 {
    } else if t == 6 {
    } else if t == 7 {
    } else if t == 8 {
    } else if t == 9 {
    } else if t == 10 {
    } else if t == 11 {
    } else if t == 12 {
    } else if t == 13 {
    } else if t == 14 {
    } else {
    }
  }

  /** The selected choice is what the bits under the mask are, read from its lowest bit on. */
  lemma {:induction false} SelectedIs(mask: bv16, bits: bv16, t: nat)
    requires mask != 0 && IsLowestBit(mask, t)
    ensures IsReadFrom(Selected(mask, bits), mask, bits, t)
    decreases mask
  {
    hide Half, And, IsOdd, HasBit, IsReadFrom;
    HalfSmaller(mask);
    OddBit(mask);
    if t > 0 {
      assert !HasBit(mask, 0);
      LowestOfHalf(mask, t);
      SelectedIs(Half(mask), Half(bits), t - 1);
      HalfRead(Selected(mask, bits), mask, bits, t);
    } else {
      ReadUnder(mask, bits);
    }
  }

  lemma ReadUnder(mask: bv16, bits: bv16)
    ensures IsReadFrom(And(mask, bits), mask, bits, 0)
  {
    hide HasBit, And;
    forall j: nat ensures HasBit(And(mask, bits), j) <==> HasBit(mask, 0 + j) && HasBit(bits, 0 + j) {
      AndBit(mask, bits, j);
    }
  }

  lemma HalfRead(c: bv16, mask: bv16, bits: bv16, t: nat)
    requires t > 0 && IsReadFrom(c, Half(mask), Half(bits), t - 1)
    ensures IsReadFrom(c, mask, bits, t)
  {
    hide Half, HasBit;
    forall j: nat ensures HasBit(c, j) <==> HasBit(mask, t + j) && HasBit(bits, t + j) {
      HalfBit(mask, t - 1 + j);
      HalfBit(bits, t - 1 + j);
      assert HasBit(c, j) <==> HasBit(Half(mask), t - 1 + j) && HasBit(Half(bits), t - 1 + j);
    }
  }

  lemma LowestOfHalf(mask: bv16, t: nat)
    requires 0 < t && !HasBit(mask, 0)
    ensures IsLowestBit(mask, t) <==> IsLowestBit(Half(mask), t - 1)
  {
    hide Half, HasBit;
    forall s: nat ensures HasBit(Half(mask), s) <==> HasBit(mask, s + 1) {
      HalfBit(mask, s);
    }
    if IsLowestBit(Half(mask), t - 1) {
      forall s: nat | s < t ensures !HasBit(mask, s) {
        if s > 0 {
          assert !HasBit(Half(mask), s - 1);
        }
      }
    }
  }

  lemma {:induction false} LowestBit(mask: bv16) returns (t: nat)
    requires mask != 0
    ensures IsLowestBit(mask, t)
    decreases mask
  {
    hide Half, IsOdd, HasBit;
    HalfSmaller(mask);
    OddBit(mask);
    if IsOdd(mask) {
      t := 0;
    } else {
      var s := LowestBit(Half(mask));
      t := s + 1;
      LowestOfHalf(mask, t);
    }
  }

  lemma OneLowest(mask: bv16, s: nat, t: nat)
    requires IsLowestBit(mask, s) && IsLowestBit(mask, t)
    ensures s == t
  {
    hide HasBit;
  }

  lemma VoteForIs(vote: Vote, version: nat, mask: bv16, k: nat)
    requires mask != 0
    ensures IsVoteFor(vote, version, mask, k) <==> vote.version == version && Selected(mask, vote.bits) as nat == k
  {
    hide Selected, IsLowestBit, IsReadFrom, IsChoice;
    var t := LowestBit(mask);
    SelectedIs(mask, vote.bits, t);
    OneChoice(mask, vote.bits, t, Selected(mask, vote.bits), k);
  }

  lemma OneChoice(mask: bv16, bits: bv16, t: nat, c: bv16, k: nat)
    requires IsLowestBit(mask, t) && IsReadFrom(c, mask, bits, t)
    ensures IsChoice(mask, bits, k) <==> c as nat == k
  {
    hide IsLowestBit, IsReadFrom;
    forall s: nat, d: bv16 | IsLowestBit(mask, s) && IsReadFrom(d, mask, bits, s) ensures d == c {
      OneLowest(mask, s, t);
      OneReading(d, c, mask, bits, t);
    }
  }

  lemma OneReading(d: bv16, c: bv16, mask: bv16, bits: bv16, t: nat)
    requires IsReadFrom(d, mask, bits, t) && IsReadFrom(c, mask, bits, t)
    ensures d == c
  {
    hide HasBit;
    SameBits(d, c);
  }

  /** The count of a choice is the number of votes for it. */
  lemma {:induction false} CountForIs(votes: seq<Vote>, version: nat, mask: bv16, k: nat)
    requires mask != 0
    ensures CountFor(votes, version, mask, k) == CountIf(votes, (v: Vote) => IsVoteFor(v, version, mask, k))
  {
    hide Selected, CountIf, IsVoteFor;
    var kind := (v: Vote) => IsVoteFor(v, version, mask, k);
    if votes == [] {
      CountNone(kind);
    } else {
      var init, last := votes[..|votes| - 1], votes[|votes| - 1];
      CountForIs(init, version, mask, k);
      CountIfSnoc(init, last, kind);
      VoteForIs(last, version, mask, k);
      assert init + [last] == votes;
    }
  }

  /** The tally of some votes: one entry per choice. */
  ghost predicate IsTallyOf(tally: seq<ConditionTally>, d: Agenda, votes: seq<Vote>, version: nat)
    requires d.mask != 0
  {
    && |tally| == |d.choices|
    && forall k :: 0 <= k < |tally| ==>
         tally[k] == ConditionTally(CountFor(votes, version, d.mask, k), d.choices[k].isAbstain, d.choices[k].isNo)
  }

  lemma NoVotes(tally: seq<ConditionTally>, d: Agenda, version: nat)
    requires d.mask != 0 && |tally| == |d.choices|
    requires forall k :: 0 <= k < |tally| ==> tally[k] == ConditionTally(0, d.choices[k].isAbstain, d.choices[k].isNo)
    ensures IsTallyOf(tally, d, [], version)
  {}

  /** One more vote counts for the choice it selects when it has the version, and for no other. */
  lemma TallyStep(tally: seq<ConditionTally>, more: seq<ConditionTally>, d: Agenda, votes: seq<Vote>, vote: Vote,
                  version: nat)
    requires d.mask != 0 && IsTallyOf(tally, d, votes, version) && |more| == |tally|
    requires forall k :: 0 <= k < |tally| ==>
      more[k] == if version == vote.version
        && Selected(d.mask, vote.bits) as nat == k then tally[k].(count := tally[k].count + 1) else tally[k]
    ensures IsTallyOf(more, d, votes + [vote], version)
  {
    hide Selected;
    var all := votes + [vote];
    assert all[..|all| - 1] == votes;
  }

  /** Tally the votes of one block; votes of other versions and votes for no choice are ignored. */
  method Condition(d: Agenda, node: BlockNode, version: nat) returns (r: Result<seq<ConditionTally>, VoteError>)
    ensures d.mask == 0 ==> r == Err(InvalidMask)
    ensures d.mask != 0 ==> r.Ok? && IsTallyOf(r.value, d, node.votes, version)
  {
    hide Selected, DropsZeros, IsOdd, And, IsTallyOf;
    if d.mask == 0 {
      return Err(InvalidMask);
    }
    var shift := CalcShift(d.mask);
    var tally := seq(|d.choices|,
                     i requires 0 <= i < |d.choices| => ConditionTally(0, d.choices[i].isAbstain, d.choices[i].isNo));
    NoVotes(tally, d, version);
    for i := 0 to |node.votes|
      invariant |tally| == |d.choices| && IsTallyOf(tally, d, node.votes[..i], version)
    {
      var vote := node.votes[i];
      ghost var before := tally;
      if version == vote.version {
        var idx := Shr(And(d.mask, vote.bits), shift) as nat;
        DroppedAll(d.mask, shift, vote.bits);
        if idx <= |d.choices| - 1 {
          tally := tally[idx := tally[idx].(count := tally[idx].count + 1)];
        }
      }
      TallyStep(before, tally, d, node.votes[..i], vote, version);
      assert node.votes[..i + 1] == node.votes[..i] + [vote];
    }
    assert node.votes[..|node.votes|] == node.votes;
    r := Ok(tally);
  }
}
