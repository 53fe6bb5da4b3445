/**
 The storage view of one block execution (vm_db/unsaved.go, vm_db/storage.go,
 vm_db/storage_iterator.go): writes are kept aside, in front of the chain's storage, until the
 block is accepted. A write of the empty value is a deletion.
 */
module Storage {
  import opened Common
  import opened Opcodes
  import opened KeyOrder
  import opened Merge
  import opened MergedIterator

  // ----- the sorted in-memory table -----

  /** A sorted listing binds exactly the pairs it lists. */
  lemma ContentsBinds(entries: seq<Entry>, k: Key, v: Value)
    requires Sorted(entries)
    ensures (k in Contents(entries) && Contents(entries)[k] == v) <==> (k, v) in entries
  {
    if k in Contents(entries) && Contents(entries)[k] == v {
      var i :| 0 <= i < |entries| && KeysOf(entries)[i] == k;
      assert entries[i] == (k, v);
    }
  }

  lemma SameContents(a: seq<Entry>, m: map<Key, Value>)
    requires Sorted(a) && forall k, v :: (k, v) in a <==> k in m && m[k] == v
    ensures Contents(a) == m
  {
    forall k ensures k in Contents(a) <==> k in m {
      if k in Contents(a) { ContentsBinds(a, k, Contents(a)[k]); }
      if k in m { ContentsBinds(a, k, m[k]); }
    }
    forall k | k in m ensures Contents(a)[k] == m[k] { ContentsBinds(a, k, m[k]); }
  }

  /** The listing with `key` bound to `value`, given the position where the key is or belongs. */
  function Inserted(entries: seq<Entry>, p: nat, key: Key, value: Value): seq<Entry>
    requires p <= |entries|
  {
    entries[..p] + [(key, value)] + entries[if p < |entries| && entries[p].0 == key then p + 1 else p..]
  }

  lemma InsertedSorted(entries: seq<Entry>, key: Key, value: Value)
    requires Sorted(entries)
    ensures Sorted(Inserted(entries, SeekPosition(entries, key), key, value))
  {
    var p := SeekPosition(entries, key);
    var q := if p < |entries| && entries[p].0 == key then p + 1 else p;
    var ks := KeysOf(entries);
    SeekPositionSplits(entries, key);
    assert KeysOf(Inserted(entries, p, key, value)) == ks[..p] + [key] + ks[q..];
    forall i | 0 <= i < p ensures Precedes(true, ks[i], key) {
      assert Less(entries[i].0, key);
    }
    forall i | q <= i < |ks| ensures Precedes(true, key, ks[i]) { AfterSeek(entries, key, i); }
    OrderedAround(ks[..p], key, ks[q..]);
  }

  /** From the seek position on, an entry with another key comes after the key. */
  lemma AfterSeek(entries: seq<Entry>, key: Key, i: nat)
    requires Sorted(entries) && SeekPosition(entries, key) <= i < |entries|
    requires i == SeekPosition(entries, key) ==> entries[i].0 != key
    ensures Precedes(true, key, entries[i].0)
  {
    var p := SeekPosition(entries, key);
    SeekPositionSplits(entries, key);
    NoMoreOf(entries, key);
    assert entries[i] in entries[if entries[p].0 == key then p + 1 else p..];
    assert !Less(entries[i].0, key);
    LessTotal(key, entries[i].0);
  }

  lemma OrderedAround(left: seq<Key>, key: Key, right: seq<Key>)
    requires Ordered(true, left) && Ordered(true, right)
    requires forall i :: 0 <= i < |left| ==> Precedes(true, left[i], key)
    requires forall i :: 0 <= i < |right| ==> Precedes(true, key, right[i])
    ensures Ordered(true, left + [key] + right)
  {
    var s := left + [key] + right;
    forall i, j | 0 <= i < j < |s| ensures Precedes(true, s[i], s[j]) {
      if i < |left| < j {
        LessTransitive(left[i], key, right[j - |left| - 1]);
      }
    }
  }

  lemma InsertedBinds(entries: seq<Entry>, key: Key, value: Value, k: Key, v: Value)
    requires Sorted(entries)
    ensures (k, v) in Inserted(entries, SeekPosition(entries, key), key, value) <==>
            if k == key then v == value else (k, v) in entries
  {
    var p := SeekPosition(entries, key);
    var q := if p < |entries| && entries[p].0 == key then p + 1 else p;
    NoneBefore(entries, key);
    NoMoreOf(entries, key);
    if k != key {
      SplitMember(entries, p, q, (k, v));
    }
  }

  /** Leaving out the entry between `p` and `q` loses no other entry. */
  lemma SplitMember(entries: seq<Entry>, p: nat, q: nat, e: Entry)
    requires p <= q <= |entries| && q <= p + 1 && (p < q ==> entries[p] != e)
    ensures e in entries <==> e in entries[..p] || e in entries[q..]
  {
    assert entries == entries[..p] + entries[p..q] + entries[q..];
    assert p < q ==> entries[p..q] == [entries[p]];
  }

  lemma NoneBefore(entries: seq<Entry>, key: Key)
    requires Sorted(entries)
    ensures forall e :: e in entries[..SeekPosition(entries, key)] ==> e.0 != key
  {
    SeekPositionSplits(entries, key);
    LessTotal(key, key);
  }

  /** After the seek position (and the entry with the key, if it is there) no entry has the key. */
  lemma NoMoreOf(entries: seq<Entry>, key: Key)
    requires Sorted(entries)
    ensures var p := SeekPosition(entries, key);
      forall e :: e in entries[if p < |entries| && entries[p].0 == key then p + 1 else p..] ==> e.0 != key
  {
    var p := SeekPosition(entries, key);
    SeekPositionSplits(entries, key);
    PrecedesLaws();
    var q := if p < |entries| && entries[p].0 == key then p + 1 else p;
    forall i | q <= i < |entries| ensures entries[i].0 != key {
      if i > p {
        assert Precedes(true, KeysOf(entries)[p], KeysOf(entries)[i]);
        assert !Less(entries[p].0, key);
      }
    }
  }

  lemma InsertedContents(entries: seq<Entry>, key: Key, value: Value)
    requires Sorted(entries)
    ensures Contents(Inserted(entries, SeekPosition(entries, key), key, value)) == Contents(entries)[key := value]
  {
    var r := Inserted(entries, SeekPosition(entries, key), key, value);
    var m := Contents(entries)[key := value];
    InsertedSorted(entries, key, value);
    forall k, v ensures (k, v) in r <==> k in m && m[k] == v {
      InsertedBinds(entries, key, value, k, v);
      ContentsBinds(entries, k, v);
    }
    SameContents(r, m);
  }

  method Put(entries: seq<Entry>, key: Key, value: Value) returns (r: seq<Entry>)
    requires Sorted(entries)
    ensures Sorted(r) && Contents(r) == Contents(entries)[key := value]
  {
    var p := FirstAtOrAfter(entries, key);
    InsertedSorted(entries, key, value);
    InsertedContents(entries, key, value);
    r := Inserted(entries, p, key, value);
  }

  // ----- the write set -----

  type Token = nat
  type Address = nat
  /** The meta data of a contract, as it is stored. */
  type ContractMeta = seq<Byte>

  class Unsaved {
    var contractMetaMap: map<Address, ContractMeta>
    var storage: seq<Entry>
    var deletedKeys: set<Key>
    var storageDirty: bool
    var storageCache: seq<Entry>
    var balanceMap: map<Token, nat>
    var logList: seq<Log>
    var code: seq<Byte>

    /** The deleted keys are those written empty, and a clean cache shows the current writes. */
    ghost predicate Valid()
      reads this
    {
      && Sorted(storage)
      && (forall k :: k in deletedKeys <==> k in Writes() && Writes()[k] == [])
      && (!storageDirty ==> storageCache == storage)
    }

    ghost function Writes(): map<Key, Value>
      reads this
    {
      Contents(storage)
    }

    /** Nothing has been written. */
    ghost predicate IsEmpty()
      reads this
    {
      Writes() == map[] && balanceMap == map[] && logList == [] && code == [] && contractMetaMap == map[]
    }

    constructor ()
      ensures Valid() && IsEmpty()
    {
      storage, deletedKeys, storageDirty, storageCache := [], {}, false, [];
      balanceMap, logList, code, contractMetaMap := map[], [], [], map[];
    }

    method Reset()
      modifies this
      ensures Valid() && IsEmpty()
    {
      contractMetaMap := map[];
      code := [];
      logList := [];
      storage := [];
      deletedKeys := {};
      storageDirty := false;
      storageCache := [];
      balanceMap := map[];
    }

    /** All writes in key order, deletions included; recomputed only after a change. */
    method GetStorage() returns (list: seq<Entry>)
      requires Valid()
      modifies this`storageDirty, this`storageCache
      ensures Valid() && Sorted(list) && Contents(list) == Writes()
    {
      if storageDirty {
        storageCache := storage;
        storageDirty := false;
      }
      list := storageCache;
    }

    method SetValue(key: Key, value: Value)
      requires Valid()
      modifies this`storage, this`deletedKeys, this`storageDirty
      ensures Valid() && Writes() == old(Writes())[key := value]
    {
      storageDirty := true;
      if value == [] {
        deletedKeys := deletedKeys + {key};
      } else if key in deletedKeys {
        deletedKeys := deletedKeys - {key};
      }
      storage := Put(storage, key, value);
    }

    method SetCode(code: seq<Byte>)
      requires Valid()
      modifies this`code
      ensures Valid() && Writes() == old(Writes()) && this.code == code
    {
      this.code := code;
    }

    method AddLog(log: Log)
      requires Valid()
      modifies this`logList
      ensures Valid() && Writes() == old(Writes()) && logList == old(logList) + [log]
    {
      logList := logList + [log];
    }

    method GetValue(key: Key) returns (value: Value, found: bool)
      requires Valid()
      ensures found == (key in Writes())
      ensures value == if found then Writes()[key] else []
    {
      var p := FirstAtOrAfter(storage, key);
      PresentAtSeekPosition(storage, key);
      if p < |storage| && storage[p].0 == key {
        return storage[p].1, true;
      }
      if key in deletedKeys {
        return [], true;
      }
      return [], false;
    }
  }

  lemma PresentAtSeekPosition(entries: seq<Entry>, key: Key)
    requires Sorted(entries)
    ensures var p := SeekPosition(entries, key);
      && (key in Contents(entries) <==> p < |entries| && entries[p].0 == key)
      && (key in Contents(entries) ==> Contents(entries)[key] == entries[p].1)
  {
    var p := SeekPosition(entries, key);
    if p < |entries| && entries[p].0 == key {
      assert KeysOf(entries)[p] == key;
      ContentsBinds(entries, key, entries[p].1);
    } else {
      SeekPositionSplits(entries, key);
      LessTotal(key, key);
      NoMoreOf(entries, key);
      assert forall i :: 0 <= i < |entries| ==> KeysOf(entries)[i] != key by {
        forall i | 0 <= i < |entries| ensures entries[i].0 != key {
          if p <= i { assert entries[i] in entries[p..]; }
        }
      }
    }
  }

  // ----- listings restricted to a prefix -----

  function WithPrefix(entries: seq<Entry>, prefix: Key): seq<Entry>
  {
    if entries == [] then []
    else
      var n := |entries| - 1;
      WithPrefix(entries[..n], prefix) + if prefix <= entries[n].0 then [entries[n]] else []
  }

  lemma {:induction false} WithPrefixBinds(entries: seq<Entry>, prefix: Key)
    ensures forall e :: e in WithPrefix(entries, prefix) <==> e in entries && prefix <= e.0
  {
    if entries != [] {
      var n := |entries| - 1;
      WithPrefixBinds(entries[..n], prefix);
      assert entries == entries[..n] + [entries[n]];
    }
  }

  lemma {:induction false} WithPrefixSorted(entries: seq<Entry>, prefix: Key)
    requires Sorted(entries)
    ensures Sorted(WithPrefix(entries, prefix))
  {
    if entries != [] {
      var n := |entries| - 1;
      assert KeysOf(entries[..n]) == KeysOf(entries)[..n];
      WithPrefixSorted(entries[..n], prefix);
      WithPrefixBinds(entries[..n], prefix);
      var front := WithPrefix(entries[..n], prefix);
      forall i | 0 <= i < |front| ensures Precedes(true, front[i].0, entries[n].0) {
        assert front[i] in entries[..n];
        var m :| 0 <= m < n && entries[m] == front[i];
        assert Precedes(true, KeysOf(entries)[m], KeysOf(entries)[n]);
      }
    }
  }

  lemma WithPrefixContents(entries: seq<Entry>, prefix: Key, k: Key)
    requires Sorted(entries)
    ensures Sorted(WithPrefix(entries, prefix))
    ensures k in Contents(WithPrefix(entries, prefix)) <==> k in Contents(entries) && prefix <= k
    ensures k in Contents(WithPrefix(entries, prefix)) ==>
            Contents(WithPrefix(entries, prefix))[k] == Contents(entries)[k]
  {
    var r := WithPrefix(entries, prefix);
    WithPrefixSorted(entries, prefix);
    WithPrefixBinds(entries, prefix);
    if k in Contents(r) {
      ContentsBinds(r, k, Contents(r)[k]);
      ContentsBinds(entries, k, Contents(r)[k]);
    }
    if k in Contents(entries) && prefix <= k {
      ContentsBinds(entries, k, Contents(entries)[k]);
      ContentsBinds(r, k, Contents(entries)[k]);
    }
  }

  // ----- the view of one block execution -----

  /** What the chain holds for the account; a stored value is never empty. */
  datatype ChainState = ChainState(storage: seq<Entry>, balances: map<Token, nat>, code: seq<Byte>) {
    ghost predicate Valid()
    {
      Sorted(storage) && forall k :: k in Contents(storage) ==> Contents(storage)[k] != []
    }

    ghost function Read(k: Key): Value
    {
      if k in Contents(storage) then Contents(storage)[k] else []
    }

    function Balance(t: Token): nat
    {
      if t in balances then balances[t] else 0
    }
  }

  class VmDb {
    const chain: ChainState
    const uns: Unsaved

    ghost predicate Valid()
      reads this, uns
    {
      uns.Valid() && chain.Valid()
    }

    constructor (chain: ChainState)
      requires chain.Valid()
      ensures this.chain == chain && fresh(uns) && Valid() && uns.IsEmpty() && Untouched()
    {
      this.chain := chain;
      uns := new Unsaved();
    }

    /** The value of a key as the running block sees it: its own write, else the chain's. */
    ghost function Read(k: Key): Value
      reads this, uns
    {
      if k in uns.Writes() then uns.Writes()[k] else chain.Read(k)
    }

    ghost function Balance(t: Token): nat
      reads this, uns
    {
      if t in uns.balanceMap then uns.balanceMap[t] else chain.Balance(t)
    }

    /** Storage, logs, code and contract meta data read as they did before the block. */
    ghost predicate StateUntouched()
      reads this, uns
    {
      uns.Writes() == map[] && uns.logList == [] && uns.code == [] && uns.contractMetaMap == map[]
    }

    ghost predicate Untouched()
      reads this, uns
    {
      StateUntouched() && forall t :: Balance(t) == chain.Balance(t)
    }

    method GetValue(key: Key) returns (value: Value)
      requires Valid()
      ensures value == Read(key)
    {
      var found;
      value, found := uns.GetValue(key);
      if !found {
        value := GetOriginalValue(key);
      }
    }

    method GetOriginalValue(key: Key) returns (value: Value)
      requires Valid()
      ensures value == chain.Read(key)
    {
      var p := FirstAtOrAfter(chain.storage, key);
      PresentAtSeekPosition(chain.storage, key);
      value := if p < |chain.storage| && chain.storage[p].0 == key then chain.storage[p].1 else [];
    }

    /** Writing a key longer than 32 bytes is refused. */
    method SetValue(key: Key, value: Value) returns (ok: bool)
      requires Valid()
      modifies uns`storage, uns`deletedKeys, uns`storageDirty
      ensures Valid() && ok == (|key| <= 32)
      ensures ok ==> Read(key) == value && forall k :: k != key ==> Read(k) == old(Read(k))
      ensures uns.Writes() == if ok then old(uns.Writes())[key := value] else old(uns.Writes())
    {
      if |key| > 32 {
        return false;
      }
      uns.SetValue(key, value);
      return true;
    }

    method Reset()
      modifies uns
      requires chain.Valid()
      ensures Valid() && uns.IsEmpty() && Untouched()
    {
      uns.Reset();
    }

    /** Two sources, the writes first, with the written deletions as tombstones. */
    method NewStorageIterator(prefix: Key) returns (mi: Merged)
      requires Valid()
      ensures fresh(mi) && mi.Ready(true) && mi.prevKey == [] && mi.deleted == uns.deletedKeys
      ensures Listings(mi.sources) == SourceListings(this, prefix)
      ensures mi.Pending(true) == [KeysOf(WithPrefix(uns.storage, prefix)), KeysOf(WithPrefix(chain.storage, prefix))]
    {
      var iter := Cursor(WithPrefix(chain.storage, prefix), -1);
      var unsavedIter := Cursor(WithPrefix(uns.storage, prefix), -1);
      mi := new Merged([unsavedIter, iter], uns.deletedKeys);
    }
  }

  ghost function SourceListings(db: VmDb, prefix: Key): seq<seq<Entry>>
    reads db, db.uns
  {
    [WithPrefix(db.uns.storage, prefix), WithPrefix(db.chain.storage, prefix)]
  }

  /** The key is in the range of the iterator and reads as something. */
  ghost predicate Shows(db: VmDb, prefix: Key, k: Key)
    reads db, db.uns
  {
    prefix <= k && db.Read(k) != []
  }

  /** The pending keys are those of the two listings, from `low` on. */
  ghost predicate PendingFrom(db: VmDb, prefix: Key, low: Key, pending: seq<seq<Key>>)
    reads db, db.uns
  {
    && |pending| == 2
    && (forall x :: x in pending[0] <==> x in KeysOf(WithPrefix(db.uns.storage, prefix)) && !Less(x, low))
    && (forall x :: x in pending[1] <==> x in KeysOf(WithPrefix(db.chain.storage, prefix)) && !Less(x, low))
  }

  lemma LiveInTwo(deleted: set<Key>, pending: seq<seq<Key>>, k: Key)
    requires |pending| == 2
    ensures Live(deleted, pending, k) <==> k !in deleted && (k in pending[0] || k in pending[1])
  {
  }

  lemma MemberFrom(db: VmDb, prefix: Key, low: Key, pending: seq<seq<Key>>, k: Key)
    requires db.Valid() && PendingFrom(db, prefix, low, pending)
    ensures k in pending[0] <==> k in db.uns.Writes() && prefix <= k && !Less(k, low)
    ensures k in pending[1] <==> k in Contents(db.chain.storage) && prefix <= k && !Less(k, low)
  {
    WithPrefixContents(db.uns.storage, prefix, k);
    WithPrefixContents(db.chain.storage, prefix, k);
  }

  /** A key is live in the two sources exactly when it reads as non-empty through the overlay. */
  lemma LiveIsRead(db: VmDb, prefix: Key, low: Key, pending: seq<seq<Key>>, k: Key)
    requires db.Valid() && PendingFrom(db, prefix, low, pending)
    ensures Live(db.uns.deletedKeys, pending, k) <==> Shows(db, prefix, k) && !Less(k, low)
  {
    MemberFrom(db, prefix, low, pending, k);
    LiveInTwo(db.uns.deletedKeys, pending, k);
    assert k in db.uns.deletedKeys <==> k in db.uns.Writes() && db.uns.Writes()[k] == [];
    assert k in Contents(db.chain.storage) <==> db.chain.Read(k) != [];
  }

  /** The value in the first source that has a live key is the value read through the overlay. */
  lemma FirstSourceIsRead(db: VmDb, prefix: Key, low: Key, pending: seq<seq<Key>>, p: (int, Key))
    requires db.Valid() && PendingFrom(db, prefix, low, pending) && FromFirst(pending, p) && p.1 != []
    ensures ValueIn(SourceListings(db, prefix), p.0, p.1) == db.Read(p.1)
  {
    WithPrefixContents(db.uns.storage, prefix, p.1);
    WithPrefixContents(db.chain.storage, prefix, p.1);
    if p.0 == 1 {
      assert p.1 !in pending[0];
    }
  }

  /** What a listing of the view has to be: the given keys in order, each with the value it reads as. */
  ghost predicate ListsView(db: VmDb, fwd: bool, out: seq<Entry>, keys: iset<Key>)
    reads db, db.uns
  {
    && InKeyOrder(fwd, KeysOf(out))
    && (forall k :: k in KeysOf(out) <==> k in keys)
    && (forall e :: e in out && e.0 != [] ==> e.1 == db.Read(e.0))
  }

  lemma RunListsView(db: VmDb, prefix: Key, low: Key, fwd: bool, pending: seq<seq<Key>>, y: seq<(int, Key)>,
                     keys: iset<Key>)
    requires db.Valid() && PendingFrom(db, prefix, low, pending) && Delivers(fwd, pending, y, keys)
    ensures ListsView(db, fwd, EntriesOf(SourceListings(db, prefix), y), keys)
  {
    var out := EntriesOf(SourceListings(db, prefix), y);
    assert KeysOf(out) == YieldedKeys(y);
    OrderedIff(fwd, KeysOf(out));
    forall e | e in out && e.0 != [] ensures e.1 == db.Read(e.0) {
      var t :| 0 <= t < |out| && out[t] == e;
      assert FromFirst(pending, y[t]);
      FirstSourceIsRead(db, prefix, low, pending, y[t]);
    }
  }

  lemma SourcesSorted(db: VmDb, prefix: Key)
    requires db.Valid()
    ensures AllSorted(SourceListings(db, prefix))
  {
    WithPrefixSorted(db.uns.storage, prefix);
    WithPrefixSorted(db.chain.storage, prefix);
  }

  /** The non-empty keys in range, from `low` on, that read as something. */
  ghost function ShownKeys(db: VmDb, prefix: Key, low: Key): iset<Key>
    reads db, db.uns
  {
    iset k | k != [] && Shows(db, prefix, k) && !Bytewise(k, low)
  }

  // ----- forward -----

  /** A forward iteration lists exactly the non-empty keys that read as something, in key order, with their values. */
  method IterateForward(db: VmDb, prefix: Key) returns (out: seq<Entry>)
    requires db.Valid()
    ensures ListsView(db, true, out, ShownKeys(db, prefix, []))
  {
    var mi := db.NewStorageIterator(prefix);
    SourcesSorted(db, prefix);
    out := Drain(mi, true);
    ForwardListsView(db, prefix);
  }

  lemma ForwardListsView(db: VmDb, prefix: Key)
    requires db.Valid()
    ensures var pending := [KeysOf(WithPrefix(db.uns.storage, prefix)), KeysOf(WithPrefix(db.chain.storage, prefix))];
      ListsView(db, true, EntriesOf(SourceListings(db, prefix), Yields(true, db.uns.deletedKeys, pending, [])),
                ShownKeys(db, prefix, []))
  {
    var pending := [KeysOf(WithPrefix(db.uns.storage, prefix)), KeysOf(WithPrefix(db.chain.storage, prefix))];
    EmptyIsLeast();
    SourcesSorted(db, prefix);
    assert AllOrdered(true, pending) by {
      assert Sorted(SourceListings(db, prefix)[0]) && Sorted(SourceListings(db, prefix)[1]);
    }
    RunFresh(true, db.uns.deletedKeys, pending);
    ForwardKeys(db, prefix, pending);
    RunListsView(db, prefix, [], true, pending, Yields(true, db.uns.deletedKeys, pending, []),
                 ShownKeys(db, prefix, []));
  }

  lemma ForwardKeys(db: VmDb, prefix: Key, pending: seq<seq<Key>>)
    requires db.Valid() && PendingFrom(db, prefix, [], pending)
    ensures (iset k | Delivered(true, db.uns.deletedKeys, pending, k)) == ShownKeys(db, prefix, [])
  {
    forall k ensures Delivered(true, db.uns.deletedKeys, pending, k) <==> k in ShownKeys(db, prefix, []) {
      LiveIsRead(db, prefix, [], pending, k);
      LessIff(k, []);
    }
  }

  // ----- backward -----

  /** A backward iteration meets the empty key when one of the two sources has it beside another live key. */
  ghost predicate EmptyKeyListed(db: VmDb, prefix: Key)
    reads db, db.uns
  {
    Delivered(false, db.uns.deletedKeys, AllReversed(SourceListings(db, prefix)), [])
  }

  /** A backward iteration lists the same keys in the opposite order, with the empty key last when it is met. */
  method IterateBackward(db: VmDb, prefix: Key) returns (out: seq<Entry>)
    requires db.Valid()
    ensures ListsView(db, false, out,
                      iset k | k in ShownKeys(db, prefix, []) || (k == [] && EmptyKeyListed(db, prefix)))
  {
    out := RunBackward(db, prefix);
    BackwardListsView(db, prefix);
  }

  method RunBackward(db: VmDb, prefix: Key) returns (out: seq<Entry>)
    requires db.Valid()
    ensures out == EntriesOf(SourceListings(db, prefix),
                             Yields(false, db.uns.deletedKeys, AllReversed(SourceListings(db, prefix)), []))
  {
    var mi := db.NewStorageIterator(prefix);
    SourcesSorted(db, prefix);
    var ok := mi.Last();
    out := [];
    if ok {
      YieldsStep(false, mi.deleted, AllReversed(SourceListings(db, prefix)), [], mi.index, mi.prevKey);
      out := Collect(mi, false);
    }
  }

  lemma BackwardListsView(db: VmDb, prefix: Key)
    requires db.Valid()
    ensures var y := Yields(false, db.uns.deletedKeys, AllReversed(SourceListings(db, prefix)), []);
      ListsView(db, false, EntriesOf(SourceListings(db, prefix), y),
                iset k | k in ShownKeys(db, prefix, []) || (k == [] && EmptyKeyListed(db, prefix)))
  {
    var pending := AllReversed(SourceListings(db, prefix));
    ReversedPending(db, prefix);
    RunFresh(false, db.uns.deletedKeys, pending);
    BackwardKeys(db, prefix, pending);
    RunListsView(db, prefix, [], false, pending, Yields(false, db.uns.deletedKeys, pending, []),
                 iset k | Delivered(false, db.uns.deletedKeys, pending, k));
  }

  /** The current entry and everything after it in the direction of travel. */
  method Collect(mi: Merged, fwd: bool) returns (out: seq<Entry>)
    requires mi.Ready(fwd) && AllSorted(Listings(mi.sources))
    requires mi.index >= 0 && mi.sources[mi.index].slot == Some(mi.prevKey)
    modifies mi
    ensures out == EntriesOf(old(Listings(mi.sources)),
                             [(old(mi.index), old(mi.prevKey))] +
                             Yields(fwd, mi.deleted, old(mi.Pending(fwd)), old(mi.prevKey)))
  {
    ghost var listings, j := Listings(mi.sources), mi.index;
    ghost var y := Yields(fwd, mi.deleted, mi.Pending(fwd), mi.prevKey);
    assert Sorted(listings[j]);
    var k := mi.Key();
    var v := mi.Value();
    var rest := Drain(mi, fwd);
    EntriesCons(listings, j, k, y);
    out := [(k, v)] + rest;
  }

  lemma EntriesCons(listings: seq<seq<Entry>>, j: int, k: Key, y: seq<(int, Key)>)
    ensures EntriesOf(listings, [(j, k)] + y) == [(k, ValueIn(listings, j, k))] + EntriesOf(listings, y)
  {
  }

  lemma ReversedPending(db: VmDb, prefix: Key)
    requires db.Valid()
    ensures PendingFrom(db, prefix, [], AllReversed(SourceListings(db, prefix)))
    ensures AllOrdered(false, AllReversed(SourceListings(db, prefix)))
  {
    EmptyIsLeast();
    var listings := SourceListings(db, prefix);
    SourcesSorted(db, prefix);
    forall i | 0 <= i < 2
      ensures Ordered(false, Reversed(KeysOf(listings[i])))
      ensures forall x :: x in Reversed(KeysOf(listings[i])) <==> x in KeysOf(listings[i])
    {
      ReversedMembers(KeysOf(listings[i]));
    }
  }

  lemma ReversedMembers(s: seq<Key>)
    ensures Ordered(true, s) ==> Ordered(false, Reversed(s))
    ensures forall x :: x in Reversed(s) <==> x in s
  {
    forall x | x in s ensures x in Reversed(s) {
      var i :| 0 <= i < |s| && s[i] == x;
      assert Reversed(s)[|s| - 1 - i] == x;
    }
  }

  lemma BackwardKeys(db: VmDb, prefix: Key, pending: seq<seq<Key>>)
    requires db.Valid() && pending == AllReversed(SourceListings(db, prefix)) && PendingFrom(db, prefix, [], pending)
    ensures (iset k | Delivered(false, db.uns.deletedKeys, pending, k)) ==
            iset k | k in ShownKeys(db, prefix, []) || (k == [] && EmptyKeyListed(db, prefix))
  {
    EmptyIsLeast();
    forall k | k != [] ensures Delivered(false, db.uns.deletedKeys, pending, k) <==> k in ShownKeys(db, prefix, []) {
      LiveIsRead(db, prefix, [], pending, k);
      LessIff(k, []);
    }
  }

  // ----- from a key on -----

  /**
   Seek and the Next calls after it list exactly the non-empty keys from the sought one on,
   if and only if they do not start at a live empty key.
   */
  method IterateFrom(db: VmDb, prefix: Key, seekKey: Key) returns (out: seq<Entry>)
    requires db.Valid()
    ensures ListsView(db, true, out, ShownKeys(db, prefix, seekKey)) <==> !(seekKey == [] && Shows(db, prefix, []))
  {
    var mi := db.NewStorageIterator(prefix);
    SourcesSorted(db, prefix);
    ghost var pending := AllFrom(SourceListings(db, prefix), seekKey);
    ghost var y := SeekYields(db.uns.deletedKeys, pending);
    var ok := mi.Seek(seekKey);
    if ok {
      out := Collect(mi, true);
    } else {
      out := [];
    }
    assert out == EntriesOf(SourceListings(db, prefix), y);
    SeekPending(db, prefix, seekKey);
    SeekKeys(db, prefix, seekKey, pending, y);
  }

  lemma SeekPending(db: VmDb, prefix: Key, seekKey: Key)
    requires db.Valid()
    ensures PendingFrom(db, prefix, seekKey, AllFrom(SourceListings(db, prefix), seekKey))
    ensures AllOrdered(true, AllFrom(SourceListings(db, prefix), seekKey))
  {
    var listings := SourceListings(db, prefix);
    var pending := AllFrom(listings, seekKey);
    SourcesSorted(db, prefix);
    forall i | 0 <= i < 2
      ensures Ordered(true, pending[i])
      ensures forall x :: x in pending[i] <==> x in KeysOf(listings[i]) && !Less(x, seekKey)
    {
      SuffixMembers(listings[i], seekKey);
    }
  }

  lemma SuffixMembers(entries: seq<Entry>, seekKey: Key)
    requires Sorted(entries)
    ensures var s := KeysOf(entries)[SeekPosition(entries, seekKey)..];
      Ordered(true, s) && forall x :: x in s <==> x in KeysOf(entries) && !Less(x, seekKey)
  {
    var p := SeekPosition(entries, seekKey);
    SeekPositionSplits(entries, seekKey);
    var s := KeysOf(entries)[p..];
    forall x | x in KeysOf(entries) && !Less(x, seekKey) ensures x in s {
      var i :| 0 <= i < |entries| && KeysOf(entries)[i] == x;
      assert s[i - p] == x;
    }
    forall x | x in s ensures !Less(x, seekKey) {
      var i :| 0 <= i < |s| && s[i] == x;
      assert entries[p + i].0 == x;
    }
  }

  lemma SeekKeys(db: VmDb, prefix: Key, seekKey: Key, pending: seq<seq<Key>>, y: seq<(int, Key)>)
    requires db.Valid() && PendingFrom(db, prefix, seekKey, pending) && AllOrdered(true, pending)
    requires y == SeekYields(db.uns.deletedKeys, pending)
    ensures ListsView(db, true, EntriesOf(SourceListings(db, prefix), y), ShownKeys(db, prefix, seekKey))
            <==> !(seekKey == [] && Shows(db, prefix, []))
  {
    var deleted := db.uns.deletedKeys;
    var out := EntriesOf(SourceListings(db, prefix), y);
    assert KeysOf(out) == YieldedKeys(y);
    EmptyIsLeast();
    LiveIsRead(db, prefix, seekKey, pending, []);
    SeekExactIff(deleted, pending);
    if Live(deleted, pending, []) {
      SeekDeliversEmptyKey(deleted, pending);
    } else {
      forall k ensures (Live(deleted, pending, k) && k != []) <==> k in ShownKeys(db, prefix, seekKey) {
        LiveIsRead(db, prefix, seekKey, pending, k);
        LessIff(k, seekKey);
      }
      assert (iset k | Live(deleted, pending, k) && k != []) == ShownKeys(db, prefix, seekKey);
      RunListsView(db, prefix, seekKey, true, pending, y, ShownKeys(db, prefix, seekKey));
    }
  }
}
