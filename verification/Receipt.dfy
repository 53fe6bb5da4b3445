/**
 The receipt of a block (vm_db/state.go): a hash of the keys and values that the block has written, in
 key order and one after the other, which goes into the block and is compared by every node.
 */
module Receipt {
  import opened Opcodes
  import opened Words
  import opened KeyOrder
  import opened MergedIterator
  import opened Storage

  type Hash = seq<Byte>
  const ZERO_HASH: Hash := seq(32, _ => 0)

  /** Keys and values one after the other, with nothing between them. */
  function Joined(list: seq<Entry>): seq<Byte>
  {
    if list == [] then []
    else
      var n := |list| - 1;
      Joined(list[..n]) + list[n].0 + list[n].1
  }

  /** The one sorted listing of a map. */
  ghost function Listing(m: map<Key, Value>): (list: seq<Entry>)
    ensures Sorted(list) && Contents(list) == m
    decreases |m|
  {
    if m == map[] then []
    else
      var k :| k in m;
      var list := Listing(m - {k});
      ListedWith(list, m, k);
      Inserted(list, SeekPosition(list, k), k, m[k])
  }

  lemma ListedWith(list: seq<Entry>, m: map<Key, Value>, k: Key)
    requires Sorted(list) && k in m && Contents(list) == m - {k}
    ensures var r := Inserted(list, SeekPosition(list, k), k, m[k]); Sorted(r) && Contents(r) == m
  {
    InsertedSorted(list, k, m[k]);
    InsertedContents(list, k, m[k]);
    PutBack(m, k);
  }

  lemma PutBack<K, V>(m: map<K, V>, k: K)
    requires k in m
    ensures (m - {k})[k := m[k]] == m
  {
  }

  lemma ListingIs(list: seq<Entry>, m: map<Key, Value>)
    requires Sorted(list) && Contents(list) == m
    ensures Listing(m) == list
  {
    SortedUnique(list, Listing(m));
  }

  /** Two sorted listings with the same contents are the same. */
  lemma SortedUnique(a: seq<Entry>, b: seq<Entry>)
    requires Sorted(a) && Sorted(b) && Contents(a) == Contents(b)
    ensures a == b
  {
    OrderedUnique(true, KeysOf(a), KeysOf(b));
    forall i | 0 <= i < |a| ensures a[i] == b[i] {
      assert KeysOf(a)[i] == KeysOf(b)[i];
      assert Contents(a)[a[i].0] == a[i].1 && Contents(b)[b[i].0] == b[i].1;
    }
  }

  ghost function ReceiptOf(hash: seq<Byte> -> Hash, m: map<Key, Value>): Hash
  {
    if m == map[] then ZERO_HASH else hash(Joined(Listing(m)))
  }

  /** The receipt is a function of the written keys and their last values, however they came to be written. */
  method GetReceiptHash(uns: Unsaved, hash: seq<Byte> -> Hash) returns (h: Hash)
    requires uns.Valid()
    modifies uns`storageDirty, uns`storageCache
    ensures uns.Valid() && uns.Writes() == old(uns.Writes()) && h == ReceiptOf(hash, uns.Writes())
  {
    var kvList := uns.GetStorage();
    ListingIs(kvList, uns.Writes());
    if |kvList| == 0 {
      return ZERO_HASH;
    }
    assert kvList[0].0 in uns.Writes();
    var hashSource := Join(kvList);
    h := hash(hashSource);
  }

  method Join(kvList: seq<Entry>) returns (hashSource: seq<Byte>)
    ensures hashSource == Joined(kvList)
  {
    hashSource := [];
    for i := 0 to |kvList|
      invariant hashSource == Joined(kvList[..i])
    {
      assert kvList[..i + 1][..i] == kvList[..i];
      hashSource := hashSource + kvList[i].0;
      hashSource := hashSource + kvList[i].1;
    }
    assert kvList[..|kvList|] == kvList;
  }

  // ----- which writes a receipt stands for -----

  /** The lengths of the keys and values, in key order. */
  function Lengths(list: seq<Entry>): (r: seq<(nat, nat)>)
    ensures |r| == |list| && forall i :: 0 <= i < |r| ==> r[i] == (|list[i].0|, |list[i].1|)
  {
    seq(|list|, i requires 0 <= i < |list| => (|list[i].0|, |list[i].1|))
  }

  lemma SameEnds(p: seq<Byte>, a: Entry, q: seq<Byte>, b: Entry)
    requires p + a.0 + a.1 == q + b.0 + b.1 && |a.0| == |b.0| && |a.1| == |b.1|
    ensures p == q && a == b
  {
    var s := p + a.0 + a.1;
    var i, j := |p|, |p| + |a.0|;
    assert p == s[..i] && a.0 == s[i..j] && a.1 == s[j..];
    assert q == s[..i] && b.0 == s[i..j] && b.1 == s[j..];
  }

  lemma FrontAndLast<T>(a: seq<T>, b: seq<T>)
    requires |a| == |b| > 0 && a[..|a| - 1] == b[..|a| - 1] && a[|a| - 1] == b[|a| - 1]
    ensures a == b
  {
    assert a == a[..|a| - 1] + [a[|a| - 1]];
  }

  lemma {:induction false} JoinedUnique(a: seq<Entry>, b: seq<Entry>)
    requires Lengths(a) == Lengths(b) && Joined(a) == Joined(b)
    ensures a == b
  {
    if a != [] {
      var n := |a| - 1;
      assert |b| == |a| && Lengths(a)[n] == Lengths(b)[n];
      SameEnds(Joined(a[..n]), a[n], Joined(b[..n]), b[n]);
      assert Lengths(a[..n]) == Lengths(a)[..n] && Lengths(b[..n]) == Lengths(b)[..n];
      JoinedUnique(a[..n], b[..n]);
      FrontAndLast(a, b);
    }
  }

  /** The hashed bytes tell two sets of writes apart, unless keys and values are cut differently. */
  lemma SameWritesIff(m: map<Key, Value>, m': map<Key, Value>)
    ensures m == m' <==> Joined(Listing(m)) == Joined(Listing(m')) && Lengths(Listing(m)) == Lengths(Listing(m'))
  {
    if m == m' {
      SortedUnique(Listing(m), Listing(m'));
    } else if Joined(Listing(m)) == Joined(Listing(m')) && Lengths(Listing(m)) == Lengths(Listing(m')) {
      JoinedUnique(Listing(m), Listing(m'));
      assert false;
    }
  }

  ghost predicate FixedWidth(m: map<Key, Value>, n: nat, l: nat)
  {
    forall k :: k in m ==> |k| == n && |m[k]| == l
  }

  lemma {:induction false} JoinedLength(list: seq<Entry>, n: nat, l: nat)
    requires forall i :: 0 <= i < |list| ==> Lengths(list)[i] == (n, l)
    ensures |Joined(list)| == |list| * (n + l)
  {
    if list != [] {
      var last := |list| - 1;
      assert Lengths(list[..last]) == Lengths(list)[..last];
      assert Lengths(list)[last] == (n, l);
      JoinedLength(list[..last], n, l);
      OneMore(last, n + l);
    }
  }

  lemma OneMore(a: nat, width: nat)
    ensures a * width + width == (a + 1) * width
  {
  }

  lemma ListingLengths(m: map<Key, Value>, n: nat, l: nat)
    requires FixedWidth(m, n, l)
    ensures forall i :: 0 <= i < |Listing(m)| ==> Lengths(Listing(m))[i] == (n, l)
  {
    var list := Listing(m);
    forall i | 0 <= i < |list| ensures Lengths(list)[i] == (n, l) {
      assert list[i].0 in m && m[list[i].0] == list[i].1;
    }
  }

  /** With keys of one length and values of one length, the hashed bytes stand for one set of writes only. */
  lemma FixedWidthDetermines(m: map<Key, Value>, m': map<Key, Value>, n: nat, l: nat)
    requires FixedWidth(m, n, l) && FixedWidth(m', n, l) && n > 0
    requires Joined(Listing(m)) == Joined(Listing(m'))
    ensures m == m'
  {
    ListingLengths(m, n, l);
    ListingLengths(m', n, l);
    FixedLists(Listing(m), Listing(m'), n, l);
    SameWritesIff(m, m');
  }

  lemma FixedLists(a: seq<Entry>, b: seq<Entry>, n: nat, l: nat)
    requires forall i :: 0 <= i < |a| ==> Lengths(a)[i] == (n, l)
    requires forall i :: 0 <= i < |b| ==> Lengths(b)[i] == (n, l)
    requires n > 0 && Joined(a) == Joined(b)
    ensures Lengths(a) == Lengths(b)
  {
    JoinedLength(a, n, l);
    JoinedLength(b, n, l);
    SameMultiple(n + l, |a|, 0, |b|, 0);
  }

  lemma ListingOne(k: Key, v: Value)
    ensures Listing(map[k := v]) == [(k, v)]
  {
    var one: seq<Entry> := [(k, v)];
    assert KeysOf(one) == [k];
    SameContents(one, map[k := v]);
    ListingIs(one, map[k := v]);
  }

  lemma ListingTwo(k: Key, v: Value, k': Key, v': Value)
    requires Less(k, k')
    ensures Listing(map[k := v, k' := v']) == [(k, v), (k', v')]
  {
    var two: seq<Entry> := [(k, v), (k', v')];
    var m := map[k := v, k' := v'];
    LessTotal(k, k');
    assert KeysOf(two) == [k, k'];
    forall x, y ensures (x, y) in two <==> x in m && m[x] == y {
    }
    SameContents(two, m);
    ListingIs(two, m);
  }

  /** One write of a longer value, and two deletions: different writes with the same receipt. */
  lemma CutDifferently(hash: seq<Byte> -> Hash, k: Key, v: Key)
    requires Less(k, v)
    ensures map[k := v] != map[k := [], v := []]
    ensures ReceiptOf(hash, map[k := v]) == ReceiptOf(hash, map[k := [], v := []])
  {
    ReceiptOne(hash, k, v);
    ReceiptTwo(hash, k, [], v, []);
    NothingBetween(k, [], v, []);
    MoreKeys(k, v, v, [], []);
    LessTotal(k, v);
  }

  lemma MoreKeys(k: Key, v: Value, k': Key, x: Value, x': Value)
    ensures k != k' ==> map[k := v] != map[k := x, k' := x']
  {
    assert k' in map[k := x, k' := x'];
    assert k != k' ==> k' !in map[k := v];
  }

  lemma ReceiptOne(hash: seq<Byte> -> Hash, k: Key, v: Value)
    ensures ReceiptOf(hash, map[k := v]) == hash(k + v)
  {
    ListingOne(k, v);
    JoinedOne(k, v);
    assert k in map[k := v];
  }

  lemma ReceiptTwo(hash: seq<Byte> -> Hash, k: Key, v: Value, k': Key, v': Value)
    requires Less(k, k')
    ensures ReceiptOf(hash, map[k := v, k' := v']) == hash(k + v + k' + v')
  {
    ListingTwo(k, v, k', v');
    JoinedTwo(k, v, k', v');
    assert k' in map[k := v, k' := v'];
  }

  lemma NothingBetween(k: Key, v: Value, k': Key, v': Value)
    ensures v == [] && v' == [] ==> k + v + k' + v' == k + k'
  {
  }

  lemma JoinedOne(k: Key, v: Value)
    ensures Joined([(k, v)]) == k + v
  {
    var one: seq<Entry> := [(k, v)];
    assert one[..0] == [] && [] + k + v == k + v;
  }

  lemma JoinedTwo(k: Key, v: Value, k': Key, v': Value)
    ensures Joined([(k, v), (k', v')]) == k + v + k' + v'
  {
    var two: seq<Entry> := [(k, v), (k', v')];
    assert two[..1] == [(k, v)];
    JoinedOne(k, v);
  }
}
