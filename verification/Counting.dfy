/** Counting votes and blocks of a kind by where they stand. */
module Counting {
  import opened BlockNodes

  /** How many of the votes are of a kind. */
  ghost function CountIf(votes: seq<Vote>, kind: Vote -> bool): nat {
    |set i | 0 <= i < |votes| && kind(votes[i])|
  }

  lemma CountIfSnoc(votes: seq<Vote>, vote: Vote, kind: Vote -> bool)
    ensures CountIf(votes + [vote], kind) == CountIf(votes, kind) + (if kind(vote) then 1 else 0)
  {
    var more := votes + [vote];
    var before := set i | 0 <= i < |votes| && kind(votes[i]);
    var all := set i | 0 <= i < |more| && kind(more[i]);
    var extra := if kind(vote) then {|votes|} else {};
    forall i ensures i in all <==> i in before + extra {
      assert 0 <= i < |votes| ==> more[i] == votes[i];
      assert more[|votes|] == vote;
    }
    assert all == before + extra;
  }

  lemma {:induction false} CountIfAppend(a: seq<Vote>, b: seq<Vote>, kind: Vote -> bool)
    ensures CountIf(a + b, kind) == CountIf(a, kind) + CountIf(b, kind)
    decreases |b|
  {
    hide CountIf;
    if b == [] {
      CountNone(kind);
      assert a + b == a;
    } else {
      var init, last := b[..|b| - 1], b[|b| - 1];
      CountIfAppend(a, init, kind);
      CountIfSnoc(init, last, kind);
      CountIfSnoc(a + init, last, kind);
      assert init + [last] == b && (a + init) + [last] == a + b;
    }
  }

  lemma CountNone(kind: Vote -> bool)
    ensures CountIf([], kind) == 0
  {
    var none: seq<Vote> := [];
    assert (set i | 0 <= i < |none| && kind(none[i])) == {};
  }

  lemma CountSame(votes: seq<Vote>, a: Vote -> bool, b: Vote -> bool)
    requires forall v :: a(v) <==> b(v)
    ensures CountIf(votes, a) == CountIf(votes, b)
  {
    assert (set i | 0 <= i < |votes| && a(votes[i])) == (set i | 0 <= i < |votes| && b(votes[i]));
  }

  /** How many votes in the blocks are of a kind. */
  ghost function CountVotes(w: seq<BlockNode>, kind: Vote -> bool): nat {
    |Places(w, kind)|
  }

  /** The m-th vote of block j is of the kind. */
  ghost function Places(w: seq<BlockNode>, kind: Vote -> bool): set<(int, int)> {
    set j, m | 0 <= j < |w| && 0 <= m < |w[j].votes| && kind(w[j].votes[m]) :: (j, m)
  }

  /** The places of such votes among the first k, and as places in block j. */
  ghost function Own(votes: seq<Vote>, kind: Vote -> bool, k: nat): set<int> {
    set m | 0 <= m < k && m < |votes| && kind(votes[m])
  }

  ghost function Pairs(votes: seq<Vote>, kind: Vote -> bool, j: int, k: nat): set<(int, int)> {
    set m | 0 <= m < k && m < |votes| && kind(votes[m]) :: (j, m)
  }

  lemma OwnNext(votes: seq<Vote>, kind: Vote -> bool, k: nat)
    requires k < |votes|
    ensures Own(votes, kind, k + 1) == Own(votes, kind, k) + if kind(votes[k]) then {k} else {}
    ensures k !in Own(votes, kind, k)
  {}

  lemma PairsNext(votes: seq<Vote>, kind: Vote -> bool, j: int, k: nat)
    requires k < |votes|
    ensures Pairs(votes, kind, j, k + 1) == Pairs(votes, kind, j, k) + if kind(votes[k]) then {(j, k)} else {}
    ensures (j, k) !in Pairs(votes, kind, j, k)
  {}

  lemma {:induction false} PairCount(votes: seq<Vote>, kind: Vote -> bool, j: int, k: nat)
    requires k <= |votes|
    ensures |Pairs(votes, kind, j, k)| == |Own(votes, kind, k)|
  {
    if k > 0 {
      hide Own, Pairs;
      PairCount(votes, kind, j, k - 1);
      OwnNext(votes, kind, k - 1);
      PairsNext(votes, kind, j, k - 1);
    }
  }

  lemma PlacesNext(w: seq<BlockNode>, b: BlockNode, kind: Vote -> bool)
    ensures Places(w + [b], kind) == Places(w, kind) + Pairs(b.votes, kind, |w|, |b.votes|)
    ensures Places(w, kind) !! Pairs(b.votes, kind, |w|, |b.votes|)
  {
    var more := w + [b];
    forall j, m | (j, m) in Places(more, kind)
      ensures (j, m) in Places(w, kind) + Pairs(b.votes, kind, |w|, |b.votes|)
    {
      assert j < |w| ==> more[j] == w[j];
    }
    forall j, m | (j, m) in Places(w, kind) ensures (j, m) in Places(more, kind) {
      assert more[j] == w[j];
    }
    forall j, m | (j, m) in Pairs(b.votes, kind, |w|, |b.votes|) ensures (j, m) in Places(more, kind) {
      assert more[|w|] == b;
    }
  }

  lemma CountVotesSnoc(w: seq<BlockNode>, b: BlockNode, kind: Vote -> bool)
    ensures CountVotes(w + [b], kind) == CountVotes(w, kind) + CountIf(b.votes, kind)
  {
    hide Places, Pairs;
    PairCount(b.votes, kind, |w|, |b.votes|);
    PlacesNext(w, b, kind);
    assert Own(b.votes, kind, |b.votes|) == set i | 0 <= i < |b.votes| && kind(b.votes[i]);
  }

  lemma CountEither(votes: seq<Vote>, a: Vote -> bool, b: Vote -> bool, both: Vote -> bool)
    requires forall v :: !(a(v) && b(v)) && (both(v) <==> a(v) || b(v))
    ensures CountIf(votes, both) == CountIf(votes, a) + CountIf(votes, b)
  {
    var x, y := set i | 0 <= i < |votes| && a(votes[i]), set i | 0 <= i < |votes| && b(votes[i]);
    assert (set i | 0 <= i < |votes| && both(votes[i])) == x + y && x !! y;
  }

  lemma NoPlaces(kind: Vote -> bool)
    ensures CountVotes([], kind) == 0
  {
    assert Places([], kind) == {};
  }

  /** How many of the blocks are of a kind. */
  ghost function CountNodes(w: seq<BlockNode>, kind: BlockNode -> bool): nat {
    |set j | 0 <= j < |w| && kind(w[j])|
  }

  lemma CountNodesSnoc(w: seq<BlockNode>, b: BlockNode, kind: BlockNode -> bool)
    ensures CountNodes(w + [b], kind) == CountNodes(w, kind) + (if kind(b) then 1 else 0)
  {
    var more := w + [b];
    var before := set j | 0 <= j < |w| && kind(w[j]);
    var all := set j | 0 <= j < |more| && kind(more[j]);
    var extra := if kind(b) then {|w|} else {};
    forall j ensures j in all <==> j in before + extra {
      assert 0 <= j < |w| ==> more[j] == w[j];
      assert more[|w|] == b;
    }
    assert all == before + extra;
  }

  lemma NoNodes(kind: BlockNode -> bool)
    ensures CountNodes([], kind) == 0
  {
    var none: seq<BlockNode> := [];
    assert (set j | 0 <= j < |none| && kind(none[j])) == {};
  }
}
