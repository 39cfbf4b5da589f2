/** Blocks whose parent is not known yet (blockchain/chain.go). */
module OrphanPools {
  import opened Wrappers
  import opened Transactions
  import opened BlockNodes

  /** A block as it arrives: its header fields with the hash of its parent, its votes and its
      transactions. */
  datatype RawBlock = RawBlock(
    hash: Hash,
    prevHash: Hash,
    work: Work,
    target: int,
    timestamp: int,
    blockVersion: int,
    stakeVersion: nat,
    votes: seq<Vote>,
    freshStake: nat,
    poolSize: nat,
    sbits: int,
    block: Block)

  datatype Orphan = Orphan(block: RawBlock, expiration: int)

  const MAX_ORPHAN_BLOCKS := 500
  const HOUR := 3600

  type Orphans = map<Hash, Orphan>
  type PrevOrphans = map<Hash, seq<Orphan>>

  predicate DistinctBlocks(list: seq<Orphan>) {
    forall i, j :: 0 <= i < j < |list| ==> list[i].block.hash != list[j].block.hash
  }

  predicate Pooled(orphans: Orphans, o: Orphan) {
    o.block.hash in orphans && orphans[o.block.hash] == o
  }

  predicate InList(prev: PrevOrphans, o: Orphan) {
    o.block.prevHash in prev && o in prev[o.block.prevHash]
  }

  /** A list of the index by parent: not empty, no block twice, only pooled children of that parent. */
  ghost predicate ListOk(orphans: Orphans, p: Hash, list: seq<Orphan>) {
    && list != [] && DistinctBlocks(list)
    && forall o :: o in list ==> o.block.prevHash == p && Pooled(orphans, o)
  }

  /** The index by parent lists exactly once each pooled orphan. */
  ghost predicate PoolOk(orphans: Orphans, prev: PrevOrphans) {
    && (forall h :: h in orphans ==> orphans[h].block.hash == h && InList(prev, orphans[h]))
    && (forall p :: p in prev ==> ListOk(orphans, p, prev[p]))
  }

  /** The hash of a block commits to its parent. */
  ghost predicate Commits(parentOf: Hash -> Hash, b: RawBlock) {
    parentOf(b.hash) == b.prevHash
  }

  function Without(list: seq<Orphan>, h: Hash): seq<Orphan> {
    if list == [] then [] else
    var init, last := list[..|list| - 1], list[|list| - 1];
    if last.block.hash == h then Without(init, h) else Without(init, h) + [last]
  }

  lemma {:induction false} WithoutSame(list: seq<Orphan>, h: Hash)
    requires forall i :: 0 <= i < |list| ==> list[i].block.hash != h
    ensures Without(list, h) == list
  {
    if list != [] {
      WithoutSame(list[..|list| - 1], h);
    }
  }

  lemma {:induction false} WithoutContents(list: seq<Orphan>, h: Hash)
    requires DistinctBlocks(list)
    ensures DistinctBlocks(Without(list, h))
    ensures forall o :: o in Without(list, h) <==> o in list && o.block.hash != h
  {
    if list != [] {
      WithoutContents(list[..|list| - 1], h);
      assert list == list[..|list| - 1] + [list[|list| - 1]];
    }
  }

  lemma {:induction false} WithoutSplit(a: seq<Orphan>, o: Orphan, b: seq<Orphan>)
    ensures Without(a + [o] + b, o.block.hash) == Without(a + b, o.block.hash)
    decreases |b|
  {
    if b == [] {
      assert a + [o] + b == a + [o] && a + b == a && (a + [o])[..|a|] == a;
    } else {
      var init, last := b[..|b| - 1], b[|b| - 1];
      WithoutSplit(a, o, init);
      assert (a + [o] + b)[..|a + [o] + b| - 1] == a + [o] + init;
      assert (a + b)[..|a + b| - 1] == a + init;
    }
  }

  /** Dropping a hash from both maps keeps them in step. */
  lemma Dropped(orphans: Orphans, prev: PrevOrphans, after: PrevOrphans, o: Orphan)
    requires PoolOk(orphans, prev)
    requires o.block.hash in orphans ==> orphans[o.block.hash].block.prevHash == o.block.prevHash
    requires forall p :: p != o.block.prevHash ==> (p in after <==> p in prev) && (p in prev ==> after[p] == prev[p])
    requires var p := o.block.prevHash; var left := Without(if p in prev then prev[p] else [], o.block.hash);
             if left == [] then p !in after else p in after && after[p] == left
    ensures PoolOk(orphans - {o.block.hash}, after)
  {
    hide DistinctBlocks;
    var p, h := o.block.prevHash, o.block.hash;
    var list := if p in prev then prev[p] else [];
    if p in prev {
      assert ListOk(orphans, p, prev[p]);
      WithoutContents(list, h);
    }
    var less := orphans - {h};
    forall k | k in less ensures InList(after, less[k]) {
      assert InList(prev, orphans[k]);
    }
    forall q | q in after ensures ListOk(less, q, after[q]) {
      assert ListOk(orphans, q, prev[q]);
      forall c | c in after[q] ensures Pooled(less, c) {
        assert Pooled(orphans, c);
      }
    }
  }

  lemma PooledHash(orphans: Orphans, prev: PrevOrphans, h: Hash)
    requires PoolOk(orphans, prev) && h in orphans
    ensures orphans[h].block.hash == h
  {}

  lemma Added(orphans: Orphans, prev: PrevOrphans, o: Orphan)
    requires PoolOk(orphans, prev) && o.block.hash !in orphans
    ensures var p := o.block.prevHash;
            PoolOk(orphans[o.block.hash := o], prev[p := (if p in prev then prev[p] else []) + [o]])
  {
    var p := o.block.prevHash;
    var list := if p in prev then prev[p] else [];
    var more, after := orphans[o.block.hash := o], prev[p := list + [o]];
    if p in prev {
      assert ListOk(orphans, p, prev[p]);
    }
    forall k | k in more ensures InList(after, more[k]) {
      if k in orphans {
        assert InList(prev, orphans[k]);
      }
    }
    forall q | q in after ensures ListOk(more, q, after[q]) {
      if q in prev {
        assert ListOk(orphans, q, prev[q]);
      }
    }
  }

  predicate Expired(o: Orphan, now: int) {
    now > o.expiration
  }

  function Unexpired(orphans: Orphans, now: int): set<Hash> {
    set h | h in orphans && !Expired(orphans[h], now)
  }

  /** What is left of the pool after adding a block: all orphans that have not expired but for at
      most one, which is dropped only when the pool was full. */
  ghost predicate KeepsUnexpired(before: Orphans, after: Orphans, now: int, added: Hash) {
    exists dropped: Option<Hash> :: KeepsAllBut(before, after, now, added, dropped)
  }

  ghost predicate KeepsAllBut(before: Orphans, after: Orphans, now: int, added: Hash, dropped: Option<Hash>) {
    && (forall h :: h != added ==> (h in after <==> h in Unexpired(before, now) && dropped != Some(h)))
    && (forall h :: h in after && h != added ==> after[h] == before[h])
    && (dropped.Some? ==> |Unexpired(before, now)| >= MAX_ORPHAN_BLOCKS)
  }

  /** No orphan in the pool expires earlier. */
  ghost predicate IsOldest(orphans: Orphans, h: Hash) {
    h in orphans && forall k :: k in orphans ==> orphans[h].expiration <= orphans[k].expiration
  }

  /** After a pass over the pool the pointer to the oldest orphan was kept, having seen none earlier, or
      points to an oldest orphan of the pool, earlier than the one it pointed to before. */
  ghost predicate Repointed(before: Option<Orphan>, orphans: Orphans, after: Option<Orphan>) {
    if after == before then
      (before.None? ==> orphans == map[]) && (before.Some? ==> NoneEarlier(orphans, before.value))
    else
      && after.Some? && Pooled(orphans, after.value) && IsOldest(orphans, after.value.block.hash)
      && (before.Some? ==> after.value.expiration < before.value.expiration)
  }

  ghost predicate NoneEarlier(orphans: Orphans, o: Orphan) {
    forall k :: k in orphans ==> o.expiration <= orphans[k].expiration
  }

  /** The pointer leads to an orphan of the pool: it is not set, or set to one that has left the pool but
      some orphan of the pool is earlier, or to a block that is in the pool, maybe again. */
  ghost predicate LeadsToPool(oldest: Option<Orphan>, orphans: Orphans) {
    oldest.Some? && NoneEarlier(orphans, oldest.value) ==> oldest.value.block.hash in orphans
  }

  /** The same for the oldest one of the pool. */
  ghost predicate LeadsToOldest(oldest: Option<Orphan>, orphans: Orphans) {
    oldest.Some? && NoneEarlier(orphans, oldest.value) ==> IsOldest(orphans, oldest.value.block.hash)
  }

  /** The orphans that have not expired. */
  function Remaining(orphans: Orphans, now: int): Orphans {
    map h | h in orphans && !Expired(orphans[h], now) :: orphans[h]
  }

  function Freed(orphans: Orphans, dropped: Option<Hash>): Orphans {
    if dropped.None? then orphans else orphans - {dropped.value}
  }

  /** From `kept` to `after` an oldest orphan was dropped and a block added. */
  ghost predicate DroppedOldest(kept: Orphans, after: Orphans, added: Hash) {
    exists h :: IsOldest(kept, h) && after.Keys == kept.Keys - {h} + {added}
  }

  class OrphanPool {
    ghost const parentOf: Hash -> Hash
    var orphans: Orphans
    var prevOrphans: PrevOrphans
    // The oldest orphan seen; it may have left the pool since.
    var oldestOrphan: Option<Orphan>

    ghost predicate Valid()
      reads this
    {
      && PoolOk(orphans, prevOrphans)
      && (forall h :: h in orphans ==> Commits(parentOf, orphans[h].block))
      && (oldestOrphan.Some? ==> Commits(parentOf, oldestOrphan.value.block))
    }

    constructor (ghost parentOf: Hash -> Hash)
      ensures Valid() && orphans == map[] && oldestOrphan == None && this.parentOf == parentOf
    {
      this.parentOf := parentOf;
      orphans, prevOrphans, oldestOrphan := map[], map[], None;
    }

    /** Take a block out of the pool; harmless when it is no longer there. */
    method RemoveOrphanBlock(orphan: Orphan)
      requires Valid() && Commits(parentOf, orphan.block)
      modifies this`orphans, this`prevOrphans
      ensures Valid() && orphans == old(orphans) - {orphan.block.hash}
      ensures forall p :: p != orphan.block.prevHash ==>
        (p in prevOrphans <==> p in old(prevOrphans)) && (p in prevOrphans ==> prevOrphans[p] == old(prevOrphans)[p])
      ensures var p := orphan.block.prevHash;
        (if p in prevOrphans then prevOrphans[p] else [])
        == Without(if p in old(prevOrphans) then old(prevOrphans)[p] else [], orphan.block.hash)
    {
      hide DistinctBlocks, PoolOk, Without;
      ghost var before, beforePrev := orphans, prevOrphans;
      var orphanHash, prevHash := orphan.block.hash, orphan.block.prevHash;
      if orphanHash in orphans {
        PooledHash(orphans, prevOrphans, orphanHash);
      }
      orphans := orphans - {orphanHash};
      var list := RemoveFromList(if prevHash in prevOrphans then prevOrphans[prevHash] else [], orphanHash);
      prevOrphans := prevOrphans[prevHash := list];
      if |prevOrphans[prevHash]| == 0 {
        prevOrphans := prevOrphans - {prevHash};
      }
      Dropped(before, beforePrev, prevOrphans, orphan);
    }

    /** Remove every entry with the hash, one at a time. */
    method RemoveFromList(children: seq<Orphan>, orphanHash: Hash) returns (list: seq<Orphan>)
      ensures list == Without(children, orphanHash)
    {
      hide Without;
      list := children;
      var i := 0;
      while i < |list|
        invariant 0 <= i <= |list|
        invariant forall k :: 0 <= k < i ==> list[k].block.hash != orphanHash
        invariant Without(list, orphanHash) == Without(children, orphanHash)
        decreases |list| - i
      {
        if list[i].block.hash == orphanHash {
          WithoutSplit(list[..i], list[i], list[i + 1..]);
          assert list == list[..i] + [list[i]] + list[i + 1..];
          list := list[..i] + list[i + 1..];
          i := i - 1;
        }
        i := i + 1;
      }
      WithoutSame(list, orphanHash);
    }

    /** Drop the orphans that have expired and remember the oldest of the others. */
    method RemoveExpired(now: int)
      requires Valid()
      modifies this
      ensures Valid()
      ensures forall h :: h in orphans <==> h in old(orphans) && !Expired(old(orphans)[h], now)
      ensures forall h :: h in orphans ==> orphans[h] == old(orphans)[h]
      ensures orphans == Remaining(old(orphans), now) && Repointed(old(oldestOrphan), orphans, oldestOrphan)
    {
      hide PoolOk, Repointed;
      ghost var before := orphans;
      NothingSeen(oldestOrphan);
      assert orphans - orphans.Keys == map[];
      var todo := orphans.Keys;
      while todo != {}
        invariant Valid() && todo <= orphans.Keys
        invariant forall h :: h in orphans <==> h in before && (h in todo || !Expired(before[h], now))
        invariant forall h :: h in orphans ==> orphans[h] == before[h]
        invariant Repointed(old(oldestOrphan), orphans - todo, oldestOrphan)
        decreases todo
      {
        var h :| h in todo;
        ghost var seen := orphans - todo;
        todo := todo - {h};
        var oBlock := orphans[h];
        PooledHash(orphans, prevOrphans, h);
        if Expired(oBlock, now) {
          RemoveOrphanBlock(oBlock);
          assert orphans - todo == seen;
        } else {
          SeenOne(old(oldestOrphan), seen, oldestOrphan, oBlock);
          assert orphans - todo == seen[h := oBlock];
          if oldestOrphan.None? || oBlock.expiration < oldestOrphan.value.expiration {
            oldestOrphan := Some(oBlock);
          }
        }
      }
      assert orphans - todo == orphans == Remaining(before, now);
    }

    /** Drop the oldest orphan when the pool is full. */
    method MakeRoom(ghost before: Option<Orphan>) returns (ghost dropped: Option<Hash>)
      requires Valid() && Repointed(before, orphans, oldestOrphan)
      modifies this
      ensures Valid()
      ensures dropped.None? <==> |old(orphans)| < MAX_ORPHAN_BLOCKS
      ensures orphans == Freed(old(orphans), dropped)
      ensures dropped.None? ==> oldestOrphan == old(oldestOrphan)
      ensures dropped.Some? ==>
        && (IsOldest(old(orphans), dropped.value) <==> LeadsToOldest(before, old(orphans)))
        && (dropped.value in old(orphans) <==> LeadsToPool(before, old(orphans)))
    {
      hide PoolOk, Without, Repointed, LeadsToPool, LeadsToOldest;
      dropped := None;
      if |orphans| + 1 > MAX_ORPHAN_BLOCKS {
        PointerSet(before, orphans, oldestOrphan);
        PointerLed(before, orphans, oldestOrphan.value);
        dropped := Some(oldestOrphan.value.block.hash);
        RemoveOrphanBlock(oldestOrphan.value);
        oldestOrphan := None;
      }
    }

    /** File a block that is not in the pool. */
    method Insert(block: RawBlock, now: int)
      requires Valid() && Commits(parentOf, block) && block.hash !in orphans
      modifies this
      ensures Valid() && orphans == old(orphans)[block.hash := Orphan(block, now + HOUR)]
      ensures oldestOrphan == old(oldestOrphan)
    {
      hide PoolOk, Commits;
      var oBlock := Orphan(block, now + HOUR);
      Added(orphans, prevOrphans, oBlock);
      orphans := orphans[block.hash := oBlock];
      var p := block.prevHash;
      prevOrphans := prevOrphans[p := (if p in prevOrphans then prevOrphans[p] else []) + [oBlock]];
    }

    /** Add a block to the pool, making room when it is full.  The orphan that goes is the oldest one, and
        the pool is within its limit, exactly when the pointer to the oldest orphan was not left behind by
        an orphan that has gone. */
    method AddOrphanBlock(block: RawBlock, now: int)
      requires Valid() && Commits(parentOf, block) && block.hash !in orphans
      modifies this
      ensures Valid() && block.hash in orphans && orphans[block.hash] == Orphan(block, now + HOUR)
      ensures KeepsUnexpired(old(orphans), orphans, now, block.hash)
      ensures RoomMade(Remaining(old(orphans), now), old(oldestOrphan), orphans, block.hash)
      ensures |Remaining(old(orphans), now)| < MAX_ORPHAN_BLOCKS ==>
        Repointed(old(oldestOrphan), Remaining(old(orphans), now), oldestOrphan)
    {
      hide *;
      ghost var before, pointer := orphans, oldestOrphan;
      RemoveExpired(now);
      ghost var kept := orphans;
      ghost var dropped := MakeRoom(pointer);
      KeptFromBefore(before, kept, dropped, now, block.hash);
      Insert(block, now);
      KeptUnexpired(before, kept, orphans, now, block.hash, dropped);
      Room(kept, pointer, orphans, block.hash, dropped);
    }
  }

  /** Three blocks arrive, the last when the first has expired.  The pointer stays at the first one, which
      is gone; unless it comes again, nothing is dropped the next time the pool is full. */
  method LeftBehindExample(ghost parentOf: Hash -> Hash, a: RawBlock, b: RawBlock, c: RawBlock)
    returns (pool: OrphanPool)
    requires a.hash != b.hash && b.hash != c.hash && a.hash != c.hash
    requires Commits(parentOf, a) && Commits(parentOf, b) && Commits(parentOf, c)
    ensures pool.orphans.Keys == {b.hash, c.hash} && !LeadsToPool(pool.oldestOrphan, pool.orphans)
  {
    hide Repointed, RoomMade, LeadsToPool, KeepsUnexpired, Remaining, Commits, OrphanPool.Valid;
    pool := new OrphanPool(parentOf);
    EmptyPool();
    pool.AddOrphanBlock(a, 0);
    NothingPointed(pool.oldestOrphan);
    var oa, ob := Orphan(a, HOUR), Orphan(b, 1 + HOUR);
    Roomy(map[], None, pool.orphans, a.hash);
    OnePooled(oa, 1);
    assert pool.orphans == map[a.hash := oa];
    pool.AddOrphanBlock(b, 1);
    OnePointed(None, oa, pool.oldestOrphan);
    Roomy(map[a.hash := oa], None, pool.orphans, b.hash);
    TwoPooled(oa, ob);
    pool.AddOrphanBlock(c, 1 + HOUR);
    OnePointed(Some(oa), ob, pool.oldestOrphan);
    Roomy(map[b.hash := ob], Some(oa), pool.orphans, c.hash);
    LedNowhere(oa, ob, Orphan(c, 1 + HOUR + HOUR));
  }

  lemma EmptyPool()
    ensures Remaining(map[], 0) == map[]
  {}

  lemma NothingPointed(oldest: Option<Orphan>)
    requires Repointed(None, map[], oldest)
    ensures oldest == None
  {}

  lemma Roomy(kept: Orphans, oldest: Option<Orphan>, after: Orphans, added: Hash)
    requires RoomMade(kept, oldest, after, added) && |kept| < 2
    ensures added in after && after == kept[added := after[added]]
  {}

  lemma OnePooled(o: Orphan, now: int)
    requires now <= o.expiration
    ensures Remaining(map[o.block.hash := o], now) == map[o.block.hash := o]
    ensures |map[o.block.hash := o]| == 1
  {}

  /** A pass over a pool of one points to it, unless it pointed to an earlier one. */
  lemma OnePointed(before: Option<Orphan>, o: Orphan, oldest: Option<Orphan>)
    requires Repointed(before, map[o.block.hash := o], oldest)
    requires before.Some? ==> before.value.expiration < o.expiration
    ensures oldest == if before.Some? then before else Some(o)
  {
    assert o.block.hash in map[o.block.hash := o];
  }

  lemma TwoPooled(a: Orphan, b: Orphan)
    requires a.block.hash != b.block.hash && a.expiration < b.expiration
    ensures Remaining(map[a.block.hash := a][b.block.hash := b], b.expiration) == map[b.block.hash := b]
    ensures |map[b.block.hash := b]| == 1
  {}

  lemma LedNowhere(a: Orphan, b: Orphan, c: Orphan)
    requires a.block.hash != b.block.hash && a.block.hash != c.block.hash
    requires a.expiration < b.expiration && a.expiration < c.expiration
    ensures !LeadsToPool(Some(a), map[b.block.hash := b][c.block.hash := c])
  {}

  lemma KeptFromBefore(before: Orphans, kept: Orphans, dropped: Option<Hash>, now: int, h: Hash)
    requires h !in before && kept == Remaining(before, now)
    ensures h !in kept && h !in Freed(kept, dropped)
  {}

  /** With room in the pool the block is just added; else an oldest orphan goes exactly when the pointer
      led there.  The pool stays within its limit exactly when it was, and the pointer led into it if there
      was no room. */
  ghost predicate RoomMade(kept: Orphans, oldest: Option<Orphan>, after: Orphans, added: Hash) {
    && added in after
    && (|kept| < MAX_ORPHAN_BLOCKS ==> after == kept[added := after[added]])
    && (|kept| >= MAX_ORPHAN_BLOCKS ==> (DroppedOldest(kept, after, added) <==> LeadsToOldest(oldest, kept)))
    && (|after| <= MAX_ORPHAN_BLOCKS <==>
          |kept| < MAX_ORPHAN_BLOCKS || (|kept| == MAX_ORPHAN_BLOCKS && LeadsToPool(oldest, kept)))
  }

  lemma Room(kept: Orphans, oldest: Option<Orphan>, after: Orphans, added: Hash, dropped: Option<Hash>)
    requires added !in kept && (dropped.None? <==> |kept| < MAX_ORPHAN_BLOCKS)
    requires added in after && after == Freed(kept, dropped)[added := after[added]]
    requires dropped.Some? ==>
      && (IsOldest(kept, dropped.value) <==> LeadsToOldest(oldest, kept))
      && (dropped.value in kept <==> LeadsToPool(oldest, kept))
    ensures RoomMade(kept, oldest, after, added)
  {
    hide IsOldest, LeadsToOldest, LeadsToPool, DroppedOldest;
    if dropped.None? {
      assert after.Keys == kept.Keys + {added} && |after.Keys| == |after| && |kept.Keys| == |kept|;
    } else {
      MadeRoom(kept, after, added, dropped.value);
    }
  }

  lemma NothingSeen(oldest: Option<Orphan>)
    ensures Repointed(oldest, map[], oldest)
  {}

  lemma SeenOne(before: Option<Orphan>, seen: Orphans, oldest: Option<Orphan>, o: Orphan)
    requires Repointed(before, seen, oldest) && o.block.hash !in seen
    ensures Repointed(before, seen[o.block.hash := o],
                      if oldest.None? || o.expiration < oldest.value.expiration then Some(o) else oldest)
  {}

  lemma PointerSet(before: Option<Orphan>, kept: Orphans, oldest: Option<Orphan>)
    requires Repointed(before, kept, oldest) && kept != map[]
    ensures oldest.Some?
  {}

  /** The pointer after the pass leads to the oldest orphan exactly when it did before. */
  lemma PointerLed(before: Option<Orphan>, kept: Orphans, oldest: Orphan)
    requires Repointed(before, kept, Some(oldest))
    ensures IsOldest(kept, oldest.block.hash) <==> LeadsToOldest(before, kept)
    ensures oldest.block.hash in kept <==> LeadsToPool(before, kept)
  {}

  lemma MadeRoom(kept: Orphans, after: Orphans, added: Hash, dropped: Hash)
    requires added !in kept && after.Keys == kept.Keys - {dropped} + {added}
    ensures DroppedOldest(kept, after, added) <==> IsOldest(kept, dropped)
    ensures |after| == |kept| + (if dropped in kept then 0 else 1)
  {
    assert |after| == |after.Keys| && |kept| == |kept.Keys|;
    if dropped in kept {
      assert after.Keys == (kept.Keys - {dropped}) + {added};
    } else {
      assert after.Keys == kept.Keys + {added};
    }
    if DroppedOldest(kept, after, added) {
      var h :| IsOldest(kept, h) && after.Keys == kept.Keys - {h} + {added};
      assert h !in after.Keys;
    }
  }

  lemma KeptUnexpired(before: Orphans, kept: Orphans, after: Orphans, now: int, added: Hash, dropped: Option<Hash>)
    requires added !in before && kept == Remaining(before, now)
    requires dropped.Some? ==> |kept| >= MAX_ORPHAN_BLOCKS
    requires added in after && after == Freed(kept, dropped)[added := after[added]]
    ensures KeepsUnexpired(before, after, now, added)
  {
    assert kept.Keys == Unexpired(before, now) && |kept.Keys| == |kept|;
    assert KeepsAllBut(before, after, now, added, dropped);
  }
}
