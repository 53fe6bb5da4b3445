/**
 Assembly of a downloaded chunk of the ledger (net/interface.go): snapshot blocks are accepted only in
 hash-linked order between the announced ends, account blocks only as continuations of their account's chain.
 */
module Chunk {
  import opened Common

  type Height = h: nat | h < U64
  type Hash = nat
  type Address = nat

  datatype HashHeight = HashHeight(hash: Hash, height: Height)
  datatype SnapshotBlock = SnapshotBlock(hash: Hash, prevHash: Hash, height: Height)
  datatype AccountBlock = AccountBlock(address: Address, hash: Hash, prevHash: Hash, height: Height)
  datatype Slot = Slot(snapshot: Option<SnapshotBlock>, accounts: seq<AccountBlock>)
  datatype Range = Range(first: HashHeight, last: HashHeight)

  /** Heights are 64-bit and wrap. */
  function Next(h: Height): Height { (h + 1) % U64 }

  function Prev(h: Height): (p: Height)
    ensures Next(p) == h
  {
    (h + U64 - 1) % U64
  }

  // ----- snapshot blocks -----

  /** The snapshot block at position `i` continues the one before it, or the start of the chunk. */
  predicate Follows(slots: seq<Slot>, start: HashHeight, i: nat)
    requires i < |slots|
  {
    && slots[i].snapshot.Some?
    && slots[i].snapshot.value.height == start.height + 1 + i
    && if i == 0 then slots[0].snapshot.value.prevHash == start.hash
       else slots[i - 1].snapshot.Some? && slots[i].snapshot.value.prevHash == slots[i - 1].snapshot.value.hash
  }

  /** All slots but the last hold linked snapshot blocks, and so does the last one once it holds a block. */
  ghost predicate Linked(slots: seq<Slot>, start: HashHeight)
  {
    && |slots| > 0
    && (forall i :: 0 <= i < |slots| - 1 ==> Follows(slots, start, i))
    && (slots[|slots| - 1].snapshot.Some? ==> Follows(slots, start, |slots| - 1))
  }

  /** The chunk is the whole hash-linked chain of snapshot blocks from after `start` up to `end`. */
  ghost predicate Complete(slots: seq<Slot>, start: HashHeight, end: HashHeight)
  {
    && |slots| == end.height - start.height > 0
    && (forall i :: 0 <= i < |slots| ==> Follows(slots, start, i))
    && Follows(slots, start, |slots| - 1)
    && slots[|slots| - 1].snapshot.value.hash == end.hash
  }

  /** Block hashes tell blocks apart. */
  ghost predicate Identified(slots: seq<Slot>, blockOf: Hash -> SnapshotBlock)
  {
    forall i :: 0 <= i < |slots| && slots[i].snapshot.Some? ==>
      blockOf(slots[i].snapshot.value.hash) == slots[i].snapshot.value
  }

  /** Where hashes tell blocks apart, the announced ends determine every snapshot block of a complete chunk. */
  lemma {:induction false} CompleteIsUnique(s: seq<Slot>, t: seq<Slot>, start: HashHeight, end: HashHeight,
                                            blockOf: Hash -> SnapshotBlock, i: nat)
    requires Complete(s, start, end) && Complete(t, start, end) && Identified(s, blockOf) && Identified(t, blockOf)
    requires i < |s|
    ensures s[i].snapshot == t[i].snapshot
    decreases |s| - i
  {
    assert Follows(s, start, i) && Follows(t, start, i);
    if i + 1 < |s| {
      CompleteIsUnique(s, t, start, end, blockOf, i + 1);
      assert Follows(s, start, i + 1) && Follows(t, start, i + 1);
    }
  }

  /** The block that the next snapshot block must continue. */
  function Tip(slots: seq<Slot>, start: HashHeight): HashHeight
  {
    if |slots| < 2 || slots[|slots| - 2].snapshot.None? then start
    else
      var b := slots[|slots| - 2].snapshot.value;
      HashHeight(b.hash, b.height)
  }

  lemma TipHeight(slots: seq<Slot>, start: HashHeight)
    requires Linked(slots, start)
    ensures Tip(slots, start).height == start.height + |slots| - 1
    ensures |slots| >= 2 ==> slots[|slots| - 2].snapshot.Some?
  {
    if |slots| >= 2 {
      assert Follows(slots, start, |slots| - 2);
    }
  }

  /** Replacing the last snapshot block, or account blocks anywhere, keeps the other links. */
  lemma KeepsLinks(slots: seq<Slot>, slots': seq<Slot>, start: HashHeight)
    requires Linked(slots, start) && |slots'| == |slots|
    requires forall i :: 0 <= i < |slots| - 1 ==> slots'[i].snapshot == slots[i].snapshot
    ensures forall i :: 0 <= i < |slots| - 1 ==> Follows(slots', start, i)
  {
    forall i | 0 <= i < |slots| - 1 ensures Follows(slots', start, i) {
      assert Follows(slots, start, i);
    }
  }

  lemma SetLast(slots: seq<Slot>, start: HashHeight, b: SnapshotBlock)
    requires Linked(slots, start)
    requires b.prevHash == Tip(slots, start).hash && b.height == Tip(slots, start).height + 1
    ensures var slots' := slots[|slots| - 1 := slots[|slots| - 1].(snapshot := Some(b))]; Linked(slots', start)
  {
    var slots' := slots[|slots| - 1 := slots[|slots| - 1].(snapshot := Some(b))];
    TipHeight(slots, start);
    KeepsLinks(slots, slots', start);
    assert Follows(slots', start, |slots| - 1);
  }

  lemma OpenSlot(slots: seq<Slot>, start: HashHeight)
    requires Linked(slots, start) && slots[|slots| - 1].snapshot.Some?
    ensures Linked(slots + [Slot(None, [])], start)
  {
    var slots' := slots + [Slot(None, [])];
    forall i | 0 <= i < |slots'| - 1 ensures Follows(slots', start, i) {
      assert Follows(slots, start, i);
    }
  }

  lemma PlaceSnapshot(slots: seq<Slot>, start: HashHeight, b: SnapshotBlock, capacity: nat)
    requires Linked(slots, start)
    requires b.prevHash == Tip(slots, start).hash && b.height == Tip(slots, start).height + 1
    ensures Linked(WithSnapshot(slots, b, capacity), start)
    ensures |slots| < capacity ==> Tip(WithSnapshot(slots, b, capacity), start) == HashHeight(b.hash, b.height)
    ensures var r := WithSnapshot(slots, b, capacity);
      |r| == (if |slots| < capacity then |slots| + 1 else |slots|) &&
        (r[|r| - 1].snapshot.None? <==> |slots| < capacity)
  {
    SetLast(slots, start, b);
    OpenSlot(slots[|slots| - 1 := slots[|slots| - 1].(snapshot := Some(b))], start);
  }

  lemma PlaceAccount(slots: seq<Slot>, start: HashHeight, b: AccountBlock)
    requires Linked(slots, start)
    ensures Linked(WithAccount(slots, b), start) && Tip(WithAccount(slots, b), start) == Tip(slots, start)
  {
    KeepsLinks(slots, WithAccount(slots, b), start);
  }

  // ----- account blocks -----

  /** The account blocks of the chunk in the order they were added. */
  function Accounts(slots: seq<Slot>): seq<AccountBlock>
  {
    if slots == [] then [] else Accounts(slots[..|slots| - 1]) + slots[|slots| - 1].accounts
  }

  function Of(blocks: seq<AccountBlock>, a: Address): seq<AccountBlock>
  {
    if blocks == [] then []
    else
      var last := blocks[|blocks| - 1];
      Of(blocks[..|blocks| - 1], a) + if last.address == a then [last] else []
  }

  /** The blocks form a hash-linked chain of consecutive heights, starting after `r.first` and ending at `r.last`. */
  ghost predicate IsChain(blocks: seq<AccountBlock>, r: Range)
  {
    && |blocks| > 0
    && blocks[0].prevHash == r.first.hash && blocks[0].height == Next(r.first.height)
    && (forall i :: 0 <= i < |blocks| - 1 ==>
          blocks[i + 1].prevHash == blocks[i].hash && blocks[i + 1].height == Next(blocks[i].height))
    && blocks[|blocks| - 1].hash == r.last.hash && blocks[|blocks| - 1].height == r.last.height
  }

  /** A range is kept for exactly the accounts with blocks in the chunk, and their blocks are its chain. */
  ghost predicate RangesAre(blocks: seq<AccountBlock>, ranges: map<Address, Range>)
  {
    forall a: Address ::
      if a in ranges then IsChain(Of(blocks, a), ranges[a]) else Of(blocks, a) == []
  }

  lemma AppendOf(blocks: seq<AccountBlock>, b: AccountBlock, a: Address)
    ensures Of(blocks + [b], a) == Of(blocks, a) + if b.address == a then [b] else []
  {
    assert (blocks + [b])[..|blocks|] == blocks;
  }

  lemma AppendRange(blocks: seq<AccountBlock>, ranges: map<Address, Range>, b: AccountBlock, r: Range)
    requires RangesAre(blocks, ranges) && IsChain(Of(blocks + [b], b.address), r)
    ensures RangesAre(blocks + [b], ranges[b.address := r])
  {
    forall a: Address
      ensures if a in ranges[b.address := r] then IsChain(Of(blocks + [b], a), ranges[b.address := r][a])
              else Of(blocks + [b], a) == []
    {
      AppendOf(blocks, b, a);
      assert a != b.address ==> Of(blocks + [b], a) == Of(blocks, a);
    }
  }

  lemma ExtendChain(blocks: seq<AccountBlock>, r: Range, b: AccountBlock)
    requires IsChain(blocks, r) && b.prevHash == r.last.hash && b.height == Next(r.last.height)
    ensures IsChain(blocks + [b], Range(r.first, HashHeight(b.hash, b.height)))
  {
  }

  /** The slots with a block appended to the account blocks of the last one. */
  function WithAccount(slots: seq<Slot>, b: AccountBlock): (r: seq<Slot>)
    requires |slots| > 0
    ensures |r| == |slots| && r[|r| - 1].snapshot == slots[|slots| - 1].snapshot
    ensures Accounts(r) == Accounts(slots) + [b]
  {
    var n := |slots| - 1;
    var r := slots[n := slots[n].(accounts := slots[n].accounts + [b])];
    assert r[..n] == slots[..n];
    r
  }

  /** The slots with the last snapshot block set, and a new slot opened below the capacity. */
  function WithSnapshot(slots: seq<Slot>, b: SnapshotBlock, capacity: nat): (r: seq<Slot>)
    requires |slots| > 0
    ensures Accounts(r) == Accounts(slots)
  {
    var n := |slots| - 1;
    var r := slots[n := slots[n].(snapshot := Some(b))];
    assert r[..n] == slots[..n];
    assert (r + [Slot(None, [])])[..n + 1] == r;
    if |slots| < capacity then r + [Slot(None, [])] else r
  }

  /** Sets the last snapshot block in place, and opens the next slot when there is room. */
  method SetLastSnapshot(slots: seq<Slot>, b: SnapshotBlock, capacity: nat) returns (r: seq<Slot>)
    requires |slots| > 0
    ensures r == WithSnapshot(slots, b, capacity)
  {
    var n := |slots|;
    r := slots[n - 1 := slots[n - 1].(snapshot := Some(b))];
    if n < capacity {
      r := r + [Slot(None, [])];
    }
  }

  /** An account's first block is always accepted, later ones only as continuations of its last block. */
  predicate Continues(ranges: map<Address, Range>, b: AccountBlock)
  {
    b.address in ranges ==>
      ranges[b.address].last.hash == b.prevHash && Next(ranges[b.address].last.height) == b.height
  }

  lemma ExtendsIff(chain: seq<AccountBlock>, r: Range, b: AccountBlock)
    requires IsChain(chain, r)
    ensures (exists r' :: IsChain(chain + [b], r')) <==> b.prevHash == r.last.hash && b.height == Next(r.last.height)
  {
    if b.prevHash == r.last.hash && b.height == Next(r.last.height) {
      ExtendChain(chain, r, b);
    }
    var n, longer := |chain| - 1, chain + [b];
    if r' :| IsChain(longer, r') {
      assert longer[n + 1].prevHash == longer[n].hash && longer[n + 1].height == Next(longer[n].height);
    }
  }

  lemma BeginsChain(b: AccountBlock)
    ensures exists r :: IsChain([b], r)
  {
    assert IsChain([b], Range(HashHeight(b.prevHash, Prev(b.height)), HashHeight(b.hash, b.height)));
  }

  /** With this block the account's blocks are a chain. */
  ghost predicate CanFollow(blocks: seq<AccountBlock>, b: AccountBlock)
  {
    exists r :: IsChain(Of(blocks + [b], b.address), r)
  }

  /** Nothing is accepted that breaks an account's chain, and nothing refused that continues it. */
  lemma ContinuesIff(blocks: seq<AccountBlock>, ranges: map<Address, Range>, b: AccountBlock)
    requires RangesAre(blocks, ranges)
    ensures Continues(ranges, b) <==> CanFollow(blocks, b)
  {
    AppendOf(blocks, b, b.address);
    if b.address in ranges {
      ExtendsIff(Of(blocks, b.address), ranges[b.address], b);
    } else {
      BeginsChain(b);
      assert Of(blocks, b.address) + [b] == [b];
    }
  }

  method ExtendRanges(ghost blocks: seq<AccountBlock>, ranges: map<Address, Range>, b: AccountBlock)
      returns (ok: bool, ranges': map<Address, Range>)
    requires RangesAre(blocks, ranges)
    ensures ok <==> Continues(ranges, b)
    ensures if ok then RangesAre(blocks + [b], ranges') else ranges' == ranges
  {
    AppendOf(blocks, b, b.address);
    var r;
    if b.address in ranges {
      r := ranges[b.address];
      if r.last.hash != b.prevHash || Next(r.last.height) != b.height {
        return false, ranges;
      }
      ExtendChain(Of(blocks, b.address), r, b);
      r := r.(last := HashHeight(b.hash, b.height));
    } else {
      r := Range(HashHeight(b.prevHash, Prev(b.height)), HashHeight(b.hash, b.height));
    }
    AppendRange(blocks, ranges, b, r);
    return true, ranges[b.address := r];
  }

  /** The slots of a chunk under construction between two ends. */
  ghost predicate Built(slots: seq<Slot>, start: HashHeight, end: HashHeight)
  {
    && start.height < end.height && Linked(slots, start)
    && |slots| <= end.height - start.height
    && (slots[|slots| - 1].snapshot.Some? ==> |slots| == end.height - start.height)
  }

  /** The snapshot block continues the chain. */
  predicate Extends(slots: seq<Slot>, start: HashHeight, b: SnapshotBlock)
  {
    b.prevHash == Tip(slots, start).hash && b.height == Next(Tip(slots, start).height)
  }

  lemma BuiltSnapshot(slots: seq<Slot>, start: HashHeight, end: HashHeight, b: SnapshotBlock)
    requires Built(slots, start, end) && Extends(slots, start, b)
    ensures b.height <= end.height && b.height == Tip(slots, start).height + 1
    ensures Built(WithSnapshot(slots, b, end.height - start.height), start, end)
    ensures |slots| < end.height - start.height ==>
              Tip(WithSnapshot(slots, b, end.height - start.height), start) == HashHeight(b.hash, b.height)
  {
    TipHeight(slots, start);
    PlaceSnapshot(slots, start, b, end.height - start.height);
  }

  lemma BuiltAccount(slots: seq<Slot>, start: HashHeight, end: HashHeight, b: AccountBlock)
    requires Built(slots, start, end)
    ensures Built(WithAccount(slots, b), start, end) && Tip(WithAccount(slots, b), start) == Tip(slots, start)
  {
    PlaceAccount(slots, start, b);
  }

  // ----- a whole chunk is assembled -----

  /** The hash-linked snapshot blocks after `start`, up to and including `end`. */
  ghost predicate IsSnapshotChain(blocks: seq<SnapshotBlock>, start: HashHeight, end: HashHeight)
  {
    && |blocks| == end.height - start.height > 0
    && (forall i :: 0 <= i < |blocks| ==> blocks[i].height == start.height + 1 + i)
    && blocks[0].prevHash == start.hash
    && (forall i :: 0 < i < |blocks| ==> blocks[i].prevHash == blocks[i - 1].hash)
    && blocks[|blocks| - 1].hash == end.hash
  }

  /** A block that arrives; an account block is kept or refused. */
  datatype Arrival = Snapshot(s: SnapshotBlock) | Account(a: AccountBlock, kept: bool)

  function SnapshotsOf(arrivals: seq<Arrival>): seq<SnapshotBlock>
  {
    if arrivals == [] then []
    else
      var last := arrivals[|arrivals| - 1];
      SnapshotsOf(arrivals[..|arrivals| - 1]) + if last.Snapshot? then [last.s] else []
  }

  /** The slots after all arrivals, from an empty chunk on. */
  function Assembled(start: HashHeight, capacity: nat, arrivals: seq<Arrival>): (r: seq<Slot>)
    ensures |r| > 0
  {
    if arrivals == [] then [Slot(None, [])]
    else
      var slots := Assembled(start, capacity, arrivals[..|arrivals| - 1]);
      match arrivals[|arrivals| - 1]
      case Snapshot(b) => if Extends(slots, start, b) then WithSnapshot(slots, b, capacity) else slots
      case Account(b, kept) => if kept then WithAccount(slots, b) else slots
  }

  /** The first `k` blocks of the chain are in place. */
  ghost predicate InPlace(slots: seq<Slot>, chain: seq<SnapshotBlock>, k: nat)
  {
    && k <= |chain| && |slots| == (if k < |chain| then k + 1 else k)
    && (forall i :: 0 <= i < k ==> slots[i].snapshot == Some(chain[i]))
    && (k < |chain| ==> slots[k].snapshot.None?)
  }

  lemma PlaceNext(slots: seq<Slot>, start: HashHeight, end: HashHeight, chain: seq<SnapshotBlock>, k: nat)
    requires IsSnapshotChain(chain, start, end) && k < |chain| && InPlace(slots, chain, k)
    ensures Extends(slots, start, chain[k])
    ensures InPlace(WithSnapshot(slots, chain[k], |chain|), chain, k + 1)
  {
    if k > 0 {
      assert slots[k - 1].snapshot == Some(chain[k - 1]);
    }
  }

  lemma {:induction false} PlaceAll(start: HashHeight, end: HashHeight, chain: seq<SnapshotBlock>,
                                    arrivals: seq<Arrival>)
    requires IsSnapshotChain(chain, start, end) && SnapshotsOf(arrivals) <= chain
    ensures InPlace(Assembled(start, |chain|, arrivals), chain, |SnapshotsOf(arrivals)|)
  {
    if arrivals != [] {
      var before := arrivals[..|arrivals| - 1];
      var k := |SnapshotsOf(before)|;
      assert SnapshotsOf(before) <= SnapshotsOf(arrivals);
      PlaceAll(start, end, chain, before);
      if arrivals[|arrivals| - 1].Snapshot? {
        assert chain[k] == SnapshotsOf(arrivals)[k];
        PlaceNext(Assembled(start, |chain|, before), start, end, chain, k);
      }
    }
  }

  /**
   Every chunk can be assembled: when the snapshot blocks that arrive are the chain between the announced ends, in
   order, with any account blocks among them, each is accepted and the chunk is complete with exactly these blocks.
   */
  lemma ChainCompletes(start: HashHeight, end: HashHeight, arrivals: seq<Arrival>)
    requires IsSnapshotChain(SnapshotsOf(arrivals), start, end)
    ensures var slots, chain := Assembled(start, end.height - start.height, arrivals), SnapshotsOf(arrivals);
      Complete(slots, start, end) && forall i :: 0 <= i < |chain| ==> slots[i].snapshot == Some(chain[i])
  {
    var chain := SnapshotsOf(arrivals);
    PlaceAll(start, end, chain, arrivals);
    var slots := Assembled(start, |chain|, arrivals);
    forall i | 0 <= i < |slots| ensures Follows(slots, start, i) {
      assert slots[i].snapshot == Some(chain[i]);
    }
  }

  // ----- the hashes of the chunk -----

  function BlockHashes(blocks: seq<AccountBlock>): set<Hash>
  {
    set b | b in blocks :: b.hash
  }

  function SlotHashes(s: Slot): set<Hash>
  {
    (if s.snapshot.Some? then {s.snapshot.value.hash} else {}) + BlockHashes(s.accounts)
  }

  lemma AppendHash(blocks: seq<AccountBlock>, b: AccountBlock)
    ensures BlockHashes(blocks + [b]) == BlockHashes(blocks) + {b.hash}
  {
    var more := blocks + [b];
    assert b in more;
    forall h | h in BlockHashes(blocks) ensures h in BlockHashes(more) {
      var c :| c in blocks && c.hash == h;
      assert c in more;
    }
  }

  /** The hashes of the snapshot and account blocks that are in the chunk. */
  function HashesOf(slots: seq<Slot>): set<Hash>
  {
    if slots == [] then {} else HashesOf(slots[..|slots| - 1]) + SlotHashes(slots[|slots| - 1])
  }

  /** The chunk without its last snapshot block. */
  function Unsealed(slots: seq<Slot>): seq<Slot>
    requires |slots| > 0
  {
    slots[|slots| - 1 := slots[|slots| - 1].(snapshot := None)]
  }

  lemma AccountHashes(slots: seq<Slot>, b: AccountBlock)
    requires |slots| > 0
    ensures HashesOf(WithAccount(slots, b)) == HashesOf(slots) + {b.hash}
  {
    var n := |slots| - 1;
    assert WithAccount(slots, b)[..n] == slots[..n];
    AppendHash(slots[n].accounts, b);
  }

  lemma LastHashes(slots: seq<Slot>, snapshot: Option<SnapshotBlock>)
    requires |slots| > 0
    ensures var n := |slots| - 1;
      HashesOf(slots[n := slots[n].(snapshot := snapshot)]) ==
      HashesOf(Unsealed(slots)) + if snapshot.Some? then {snapshot.value.hash} else {}
  {
    var n := |slots| - 1;
    assert slots[n := slots[n].(snapshot := snapshot)][..n] == slots[..n] == Unsealed(slots)[..n];
  }

  lemma SnapshotHashes(slots: seq<Slot>, b: SnapshotBlock, capacity: nat)
    requires |slots| > 0
    ensures HashesOf(WithSnapshot(slots, b, capacity)) == HashesOf(Unsealed(slots)) + {b.hash}
  {
    var n := |slots| - 1;
    LastHashes(slots, Some(b));
    OpenHashes(slots[n := slots[n].(snapshot := Some(b))]);
  }

  lemma SealedHashes(slots: seq<Slot>)
    requires |slots| > 0
    ensures HashesOf(slots) ==
            HashesOf(Unsealed(slots)) + (match slots[|slots| - 1].snapshot case None => {} case Some(c) => {c.hash})
  {
    var n := |slots| - 1;
    LastHashes(slots, slots[n].snapshot);
    assert slots[n := slots[n].(snapshot := slots[n].snapshot)] == slots;
  }

  /** An empty slot at the end adds no hash. */
  lemma OpenHashes(slots: seq<Slot>)
    ensures HashesOf(slots + [Slot(None, [])]) == HashesOf(slots)
  {
    assert (slots + [Slot(None, [])])[..|slots|] == slots;
    assert SlotHashes(Slot(None, [])) == {};
  }

  /**
   Setting the last snapshot block takes no hash out of the chunk: none is there yet, or its hash stays in the chunk.
   */
  predicate ReplacesNothing(slots: seq<Slot>, b: SnapshotBlock)
    requires |slots| > 0
  {
    match slots[|slots| - 1].snapshot
    case None => true
    case Some(c) => c.hash == b.hash || c.hash in HashesOf(Unsealed(slots))
  }

  /** The set of hashes stays exact if and only if nothing is replaced. */
  lemma HashesStayExactIff(slots: seq<Slot>, b: SnapshotBlock, capacity: nat)
    requires |slots| > 0
    ensures HashesOf(slots) + {b.hash} == HashesOf(WithSnapshot(slots, b, capacity)) <==> ReplacesNothing(slots, b)
    ensures HashesOf(WithSnapshot(slots, b, capacity)) <= HashesOf(slots) + {b.hash}
  {
    SnapshotHashes(slots, b, capacity);
    SealedHashes(slots);
  }

  /**
   Two different blocks for the only height of a chunk are both accepted, and the hash of the first one is left over.
   */
  lemma StaleHash()
    ensures var start, first, second := HashHeight(0, 0), SnapshotBlock(1, 0, 1), SnapshotBlock(2, 0, 1);
      var one := WithSnapshot([Slot(None, [])], first, 1);
      && Tip([Slot(None, [])], start) == Tip(one, start) == start
      && {first.hash, second.hash} != HashesOf(WithSnapshot(one, second, 1))
  {
    var first, second := SnapshotBlock(1, 0, 1), SnapshotBlock(2, 0, 1);
    var empty := [Slot(None, [])];
    var one := WithSnapshot(empty, first, 1);
    SnapshotHashes(one, second, 1);
    SealedHashes(one);
    assert Unsealed(one) == empty;
    assert empty[..0] == [] && HashesOf(empty) == HashesOf([]) + SlotHashes(Slot(None, []));
    assert SlotHashes(Slot(None, [])) == {};
    assert HashesOf(WithSnapshot(one, second, 1)) == {2};
    assert 1 in {first.hash, second.hash};
  }

  // ----- the chunk under construction -----

  class Assembly {
    const start: HashHeight
    const end: HashHeight
    var slots: seq<Slot>
    var ranges: map<Address, Range>
    var hashes: set<Hash>

    ghost predicate Valid()
      reads this
    {
      && Built(slots, start, end)
      && RangesAre(Accounts(slots), ranges)
      && HashesOf(slots) <= hashes
    }

    /** The set of hashes tells exactly which blocks are in the chunk. */
    ghost predicate HashesExact()
      reads this
    {
      hashes == HashesOf(slots)
    }

    constructor (start: HashHeight, end: HashHeight)
      requires start.height < end.height
      ensures Valid() && this.start == start && this.end == end
      ensures slots == [Slot(None, [])] && ranges == map[] && hashes == {} && HashesExact()
    {
      this.start, this.end := start, end;
      slots, ranges, hashes := [Slot(None, [])], map[], {};
      assert HashesOf([Slot(None, [])]) == HashesOf([]) + SlotHashes(Slot(None, []));
    }

    method AddSnapshotBlock(b: SnapshotBlock) returns (ok: bool)
      requires Valid()
      modifies this
      ensures Valid()
      ensures ok <==> Extends(old(slots), start, b)
      ensures hashes == old(hashes) + if ok then {b.hash} else {}
      ensures slots == if ok then WithSnapshot(old(slots), b, end.height - start.height) else old(slots)
      ensures ok && |old(slots)| < end.height - start.height ==> Tip(slots, start) == HashHeight(b.hash, b.height)
      ensures Accounts(slots) == old(Accounts(slots)) && ranges == old(ranges)
      ensures ok && old(HashesExact()) ==> (HashesExact() <==> ReplacesNothing(old(slots), b))
    {
      if !Extends(slots, start, b) {
        return false;
      }
      BuiltSnapshot(slots, start, end, b);
      if b.height > end.height {
        assert false;
      }
      HashesStayExactIff(slots, b, end.height - start.height);
      slots := SetLastSnapshot(slots, b, end.height - start.height);
      hashes := hashes + {b.hash};
      return true;
    }

    method AddAccountBlock(b: AccountBlock) returns (ok: bool)
      requires Valid()
      modifies this
      ensures Valid()
      ensures ok <==> Continues(old(ranges), b)
      ensures ok <==> CanFollow(old(Accounts(slots)), b)
      ensures slots == if ok then WithAccount(old(slots), b) else old(slots)
      ensures hashes == old(hashes) + if ok then {b.hash} else {}
      ensures Tip(slots, start) == old(Tip(slots, start)) && |slots| == |old(slots)|
      ensures old(HashesExact()) ==> HashesExact()
    {
      ContinuesIff(Accounts(slots), ranges, b);
      var ranges';
      ok, ranges' := ExtendRanges(Accounts(slots), ranges, b);
      if !ok {
        return;
      }
      BuiltAccount(slots, start, end, b);
      AccountHashes(slots, b);
      ranges := ranges';
      slots := WithAccount(slots, b);
      hashes := hashes + {b.hash};
    }

    /** The chunk is done exactly when it is the complete chain between the announced ends. */
    method Done() returns (ok: bool)
      requires Valid()
      ensures ok <==> Complete(slots, start, end)
    {
      var last := slots[|slots| - 1].snapshot;
      if last.None? {
        return false;
      }
      return last.value.hash == end.hash && last.value.height == end.height;
    }
  }
}
