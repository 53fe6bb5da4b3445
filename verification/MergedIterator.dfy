/**
 Merging several sorted iterators into one (common/db/merged_iterator.go).

 The specification part works on what is still pending in each source: the keys it would still
 deliver, in the direction of travel. The class part is the iterator itself, with a cursor, a
 look-ahead slot and a status per source, proved step by step to do what the specification does.
 */
module Merge {
  import opened Opcodes
  import opened KeyOrder

  // ----- one step, on the pending keys of every source -----

  /** A pending key that the iterator throws away: a tombstone, or the key it delivered last. */
  predicate Skipped(deleted: set<Key>, prev: Key, k: Key)
  {
    k in deleted || k == prev
  }

  function DropSkipped(deleted: set<Key>, prev: Key, s: seq<Key>): seq<Key>
  {
    if s != [] && Skipped(deleted, prev, s[0]) then DropSkipped(deleted, prev, s[1..]) else s
  }

  function DropAll(deleted: set<Key>, prev: Key, pending: seq<seq<Key>>): (r: seq<seq<Key>>)
    ensures |r| == |pending|
    ensures forall i :: 0 <= i < |r| ==> r[i] == DropSkipped(deleted, prev, pending[i])
  {
    seq(|pending|, i requires 0 <= i < |pending| => DropSkipped(deleted, prev, pending[i]))
  }

  /** The scan over the first `n` sources for the source to deliver from; an empty candidate is always replaced. */
  function Pick(fwd: bool, heads: seq<seq<Key>>, n: nat): (r: (int, Key))
    requires n <= |heads|
    ensures -1 <= r.0 < n
    ensures r.0 >= 0 ==> heads[r.0] != [] && r.1 == heads[r.0][0]
    ensures r.0 < 0 ==> r.1 == [] && forall i :: 0 <= i < n ==> heads[i] == []
  {
    if n == 0 then (-1, [])
    else
      var (j, fit) := Pick(fwd, heads, n - 1);
      if heads[n - 1] != [] && (Precedes(fwd, heads[n - 1][0], fit) || fit == [])
      then (n - 1, heads[n - 1][0]) else (j, fit)
  }

  function Popped(pending: seq<seq<Key>>, j: int): (r: seq<seq<Key>>)
    requires -1 <= j < |pending| && (j >= 0 ==> pending[j] != [])
    ensures |r| == |pending|
  {
    if j < 0 then pending else pending[j := pending[j][1..]]
  }

  /** The first key of every source is gone. */
  function Beheaded(pending: seq<seq<Key>>): (r: seq<seq<Key>>)
    ensures |r| == |pending|
    ensures forall i :: 0 <= i < |r| ==> r[i] == if pending[i] == [] then [] else pending[i][1..]
  {
    seq(|pending|, i requires 0 <= i < |pending| => if pending[i] == [] then [] else pending[i][1..])
  }

  function Total(pending: seq<seq<Key>>): nat
  {
    if pending == [] then 0 else |pending[0]| + Total(pending[1..])
  }

  lemma {:induction false} TotalUpdate(pending: seq<seq<Key>>, i: nat, s: seq<Key>)
    requires i < |pending|
    ensures Total(pending[i := s]) == Total(pending) - |pending[i]| + |s|
  {
    if i > 0 {
      assert pending[i := s][1..] == pending[1..][i - 1 := s];
      TotalUpdate(pending[1..], i - 1, s);
    }
  }

  lemma {:induction false} DropLength(deleted: set<Key>, prev: Key, s: seq<Key>)
    ensures |DropSkipped(deleted, prev, s)| <= |s|
  {
    if s != [] { DropLength(deleted, prev, s[1..]); }
  }

  lemma {:induction false} TotalDrop(deleted: set<Key>, prev: Key, pending: seq<seq<Key>>)
    ensures Total(DropAll(deleted, prev, pending)) <= Total(pending)
  {
    if pending != [] {
      DropLength(deleted, prev, pending[0]);
      assert DropAll(deleted, prev, pending)[1..] == DropAll(deleted, prev, pending[1..]);
      TotalDrop(deleted, prev, pending[1..]);
    }
  }

  // ----- a whole run -----

  /** Everything the iterator delivers from here on: source and key of each step. */
  ghost function Yields(fwd: bool, deleted: set<Key>, pending: seq<seq<Key>>, prev: Key): seq<(int, Key)>
    decreases Total(pending)
  {
    var rest := DropAll(deleted, prev, pending);
    var (j, k) := Pick(fwd, rest, |rest|);
    TotalDrop(deleted, prev, pending);
    if j < 0 then [] else
      TotalUpdate(rest, j, rest[j][1..]);
      [(j, k)] + Yields(fwd, deleted, Popped(rest, j), k)
  }

  ghost function YieldedKeys(y: seq<(int, Key)>): (ks: seq<Key>)
    ensures |ks| == |y| && forall i :: 0 <= i < |ks| ==> ks[i] == y[i].1
  {
    seq(|y|, i requires 0 <= i < |y| => y[i].1)
  }

  /** The key is still pending somewhere and is not a tombstone. */
  ghost predicate Live(deleted: set<Key>, pending: seq<seq<Key>>, k: Key)
  {
    k !in deleted && exists i :: 0 <= i < |pending| && k in pending[i]
  }

  ghost predicate AllOrdered(fwd: bool, pending: seq<seq<Key>>)
  {
    forall i :: 0 <= i < |pending| ==> Ordered(fwd, pending[i])
  }

  /** Nothing pending comes before `b`. */
  ghost predicate Beyond(fwd: bool, pending: seq<seq<Key>>, b: Key)
  {
    forall i, k :: 0 <= i < |pending| && k in pending[i] ==> k == b || Precedes(fwd, b, k)
  }

  lemma {:induction false} DropKeeps(fwd: bool, deleted: set<Key>, prev: Key, s: seq<Key>)
    requires Ordered(fwd, s)
    ensures var r := DropSkipped(deleted, prev, s);
      && Ordered(fwd, r)
      && (r != [] ==> !Skipped(deleted, prev, r[0]))
      && (forall k :: k in r ==> k in s)
      && (forall k :: k in s && !Skipped(deleted, prev, k) ==> k in r)
  {
    if s != [] && Skipped(deleted, prev, s[0]) {
      DropKeeps(fwd, deleted, prev, s[1..]);
      assert forall k :: k in s ==> k == s[0] || k in s[1..];
    }
  }

  lemma DropAllKeeps(fwd: bool, deleted: set<Key>, prev: Key, pending: seq<seq<Key>>)
    requires AllOrdered(fwd, pending)
    ensures var r := DropAll(deleted, prev, pending);
      && AllOrdered(fwd, r)
      && (forall i :: 0 <= i < |r| && r[i] != [] ==> !Skipped(deleted, prev, r[i][0]))
      && (forall i, k :: 0 <= i < |r| && k in r[i] ==> k in pending[i])
      && (forall i, k {:trigger k in pending[i]} :: 0 <= i < |r| && k in pending[i] && !Skipped(deleted, prev, k) ==>
            k in r[i])
  {
    var r := DropAll(deleted, prev, pending);
    forall i | 0 <= i < |r|
      ensures Ordered(fwd, r[i])
      ensures r[i] != [] ==> !Skipped(deleted, prev, r[i][0])
      ensures forall k :: k in r[i] ==> k in pending[i]
      ensures forall k :: k in pending[i] && !Skipped(deleted, prev, k) ==> k in r[i]
    {
      DropKeeps(fwd, deleted, prev, pending[i]);
    }
  }

  /** The scan finds a head that no other head precedes, and the first source that has it unless it is empty. */
  lemma {:induction false} PickIsFirst(fwd: bool, heads: seq<seq<Key>>, n: nat)
    requires n <= |heads|
    requires fwd ==> forall i :: 0 <= i < n && heads[i] != [] ==> heads[i][0] != []
    ensures var (j, k) := Pick(fwd, heads, n);
      && (forall i :: 0 <= i < n && heads[i] != [] ==> heads[i][0] == k || Precedes(fwd, k, heads[i][0]))
      && (k != [] ==> forall i :: 0 <= i < j && heads[i] != [] ==> heads[i][0] != k)
  {
    PrecedesLaws();
    if n > 0 {
      PickIsFirst(fwd, heads, n - 1);
      EmptyIsLeast();
    }
  }

  lemma EmptyIsLeast()
    ensures forall k: Key :: k == [] || Less([], k)
    ensures forall k: Key :: !Less(k, [])
  {
  }

  lemma HeadsAreFirst(fwd: bool, pending: seq<seq<Key>>, k: Key)
    requires AllOrdered(fwd, pending)
    requires forall i :: 0 <= i < |pending| && pending[i] != [] ==>
             pending[i][0] == k || Precedes(fwd, k, pending[i][0])
    ensures Beyond(fwd, pending, k)
  {
    PrecedesLaws();
    forall i, x | 0 <= i < |pending| && x in pending[i]
      ensures x == k || Precedes(fwd, k, x)
    {
      assert pending[i][0] == x || Precedes(fwd, pending[i][0], x);
    }
  }

  /** What one step leaves: the delivered key is gone from its source and nothing left precedes it. */
  lemma StepKeeps(fwd: bool, rest: seq<seq<Key>>, j: int, k: Key)
    requires AllOrdered(fwd, rest) && 0 <= j < |rest| && rest[j] != [] && rest[j][0] == k
    requires Beyond(fwd, rest, k)
    ensures var after := Popped(rest, j);
      && AllOrdered(fwd, after) && Beyond(fwd, after, k)
      && (forall i, x :: 0 <= i < |rest| && x != k ==> (x in rest[i] <==> x in after[i]))
      && (forall i, x :: 0 <= i < |rest| && x in after[i] ==> x in rest[i])
  {
    var after := Popped(rest, j);
    assert forall x :: x in rest[j] <==> x == k || x in rest[j][1..];
    forall i, x | 0 <= i < |rest| && x != k
      ensures x in rest[i] <==> x in after[i]
    {
    }
  }

  /** Source and key of a delivery agree with the pending keys: the first source that has the key. */
  ghost predicate FromFirst(pending: seq<seq<Key>>, p: (int, Key))
  {
    && 0 <= p.0 < |pending| && p.1 in pending[p.0]
    && (p.1 != [] ==> forall i :: 0 <= i < p.0 ==> p.1 !in pending[i])
  }

  /** What a run delivers: exactly the given keys, in order, each from the first source that has it. */
  ghost predicate Delivers(fwd: bool, pending: seq<seq<Key>>, y: seq<(int, Key)>, keys: iset<Key>)
  {
    && Ordered(fwd, YieldedKeys(y))
    && (forall k :: k in YieldedKeys(y) <==> k in keys)
    && (forall t :: 0 <= t < |y| ==> FromFirst(pending, y[t]))
  }

  ghost function LiveKeys(deleted: set<Key>, pending: seq<seq<Key>>, except: Key): iset<Key>
  {
    iset k | Live(deleted, pending, k) && k != except
  }

  /** Dropping loses only tombstones and the previous key, and the previous key is gone when nothing precedes it. */
  lemma BoundGone(fwd: bool, deleted: set<Key>, b: Key, pending: seq<seq<Key>>)
    requires AllOrdered(fwd, pending) && Beyond(fwd, pending, b)
    ensures forall k :: Live(deleted, DropAll(deleted, b, pending), k) <==> Live(deleted, pending, k) && k != b
    ensures Beyond(fwd, DropAll(deleted, b, pending), b)
    ensures forall i :: 0 <= i < |pending| ==> b !in DropAll(deleted, b, pending)[i]
  {
    PrecedesLaws();
    DropAllKeeps(fwd, deleted, b, pending);
    var rest := DropAll(deleted, b, pending);
    forall i | 0 <= i < |rest| ensures b !in rest[i] {
      if rest[i] != [] {
        assert rest[i][0] in pending[i];
        assert Precedes(fwd, b, rest[i][0]);
      }
    }
    forall k ensures Live(deleted, rest, k) <==> Live(deleted, pending, k) && k != b {
      if Live(deleted, pending, k) && k != b {
        var i :| 0 <= i < |pending| && k in pending[i];
        assert k in rest[i];
      }
    }
  }

  /** A first delivery followed by a run over what is left. */
  lemma Prepend(fwd: bool, deleted: set<Key>, prev: Key, pending: seq<seq<Key>>, rest: seq<seq<Key>>,
                j: int, k: Key, y: seq<(int, Key)>)
    requires rest == DropAll(deleted, prev, pending) && AllOrdered(fwd, pending)
    requires 0 <= j < |rest| && rest[j] != [] && (j, k) == Pick(fwd, rest, |rest|)
    requires fwd ==> forall i :: 0 <= i < |rest| && rest[i] != [] ==> rest[i][0] != []
    requires Delivers(fwd, Popped(rest, j), y, LiveKeys(deleted, Popped(rest, j), k))
    requires forall x :: Live(deleted, rest, x) ==> x == [] || x != prev
    ensures Delivers(fwd, pending, [(j, k)] + y, iset x | Live(deleted, rest, x))
  {
    assert YieldedKeys([(j, k)] + y) == [k] + YieldedKeys(y);
    PrependListing(fwd, deleted, prev, pending, rest, j, k, y);
    PrependSources(fwd, deleted, prev, pending, rest, j, k, y);
  }

  lemma PrependListing(fwd: bool, deleted: set<Key>, prev: Key, pending: seq<seq<Key>>, rest: seq<seq<Key>>,
                       j: int, k: Key, y: seq<(int, Key)>)
    requires rest == DropAll(deleted, prev, pending) && AllOrdered(fwd, pending)
    requires 0 <= j < |rest| && rest[j] != [] && (j, k) == Pick(fwd, rest, |rest|)
    requires fwd ==> forall i :: 0 <= i < |rest| && rest[i] != [] ==> rest[i][0] != []
    requires Delivers(fwd, Popped(rest, j), y, LiveKeys(deleted, Popped(rest, j), k))
    ensures Ordered(fwd, [k] + YieldedKeys(y))
    ensures forall x :: x in [k] + YieldedKeys(y) <==> Live(deleted, rest, x)
  {
    DropAllKeeps(fwd, deleted, prev, pending);
    AfterPick(fwd, rest, j, k);
    StepKeeps(fwd, rest, j, k);
    PrependOrder(fwd, deleted, Popped(rest, j), k, YieldedKeys(y));
    forall x ensures x in [k] + YieldedKeys(y) <==> Live(deleted, rest, x) {
      PrependKeys(deleted, rest, j, k, y, x);
    }
  }

  lemma PrependOrder(fwd: bool, deleted: set<Key>, after: seq<seq<Key>>, k: Key, ks: seq<Key>)
    requires Ordered(fwd, ks) && Beyond(fwd, after, k)
    requires forall x :: x in ks ==> x in LiveKeys(deleted, after, k)
    ensures Ordered(fwd, [k] + ks)
  {
    forall i | 0 <= i < |ks| ensures Precedes(fwd, k, ks[i]) {
      assert ks[i] in LiveKeys(deleted, after, k);
    }
  }

  lemma PrependSources(fwd: bool, deleted: set<Key>, prev: Key, pending: seq<seq<Key>>, rest: seq<seq<Key>>,
                       j: int, k: Key, y: seq<(int, Key)>)
    requires rest == DropAll(deleted, prev, pending) && AllOrdered(fwd, pending)
    requires 0 <= j < |rest| && rest[j] != [] && (j, k) == Pick(fwd, rest, |rest|)
    requires fwd ==> forall i :: 0 <= i < |rest| && rest[i] != [] ==> rest[i][0] != []
    requires Delivers(fwd, Popped(rest, j), y, LiveKeys(deleted, Popped(rest, j), k))
    requires forall x :: Live(deleted, rest, x) ==> x == [] || x != prev
    ensures forall t :: 0 <= t < |y| + 1 ==> FromFirst(pending, ([(j, k)] + y)[t])
  {
    DropAllKeeps(fwd, deleted, prev, pending);
    AfterPick(fwd, rest, j, k);
    StepKeeps(fwd, rest, j, k);
    FirstHasHead(fwd, deleted, prev, pending, rest, j, k);
    forall t | 0 <= t < |y| ensures FromFirst(pending, y[t]) {
      assert y[t].1 == YieldedKeys(y)[t];
      PrependKeys(deleted, rest, j, k, y, y[t].1);
      LaterFromFirst(deleted, prev, pending, rest, Popped(rest, j), k, y[t]);
    }
  }

  lemma PrependKeys(deleted: set<Key>, rest: seq<seq<Key>>, j: int, k: Key, y: seq<(int, Key)>, x: Key)
    requires 0 <= j < |rest| && rest[j] != [] && rest[j][0] == k && k !in deleted
    requires forall z :: z in YieldedKeys(y) <==> z in LiveKeys(deleted, Popped(rest, j), k)
    requires forall i, z :: 0 <= i < |rest| && z != k ==> (z in rest[i] <==> z in Popped(rest, j)[i])
    ensures x in [k] + YieldedKeys(y) <==> Live(deleted, rest, x)
    ensures x in YieldedKeys(y) ==> x != k && Live(deleted, rest, x)
  {
    var after := Popped(rest, j);
    if x == k {
      assert k in rest[j];
    } else {
      assert Live(deleted, rest, x) <==> Live(deleted, after, x);
    }
  }

  lemma FirstHasHead(fwd: bool, deleted: set<Key>, prev: Key, pending: seq<seq<Key>>, rest: seq<seq<Key>>, j: int,
                     k: Key)
    requires rest == DropAll(deleted, prev, pending) && AllOrdered(fwd, pending)
    requires 0 <= j < |rest| && rest[j] != [] && (j, k) == Pick(fwd, rest, |rest|)
    requires fwd ==> forall i :: 0 <= i < |rest| && rest[i] != [] ==> rest[i][0] != []
    ensures FromFirst(pending, (j, k))
  {
    PrecedesLaws();
    DropAllKeeps(fwd, deleted, prev, pending);
    PickIsFirst(fwd, rest, |rest|);
    if k != [] {
      forall i | 0 <= i < j ensures k !in rest[i] {
        assert rest[i] != [] ==> Precedes(fwd, k, rest[i][0]);
        assert forall m :: 0 < m < |rest[i]| ==> Precedes(fwd, rest[i][0], rest[i][m]);
      }
    }
  }

  lemma LaterFromFirst(deleted: set<Key>, prev: Key, pending: seq<seq<Key>>, rest: seq<seq<Key>>, after: seq<seq<Key>>,
                       k: Key, p: (int, Key))
    requires |pending| == |rest| == |after| && FromFirst(after, p)
    requires p.1 != k && p.1 !in deleted && (p.1 == [] || p.1 != prev)
    requires forall i, x :: 0 <= i < |rest| && x != k ==> (x in rest[i] <==> x in after[i])
    requires forall i, x :: 0 <= i < |rest| && x in rest[i] ==> x in pending[i]
    requires forall i, x {:trigger x in pending[i]} ::
               0 <= i < |rest| && x in pending[i] && !Skipped(deleted, prev, x) ==> x in rest[i]
    ensures FromFirst(pending, p)
  {
    if p.1 != [] {
      forall i | 0 <= i < p.0 ensures p.1 !in pending[i] {
        assert p.1 !in after[i] && p.1 !in rest[i];
      }
    }
  }

  /** After a key `b` has been delivered: every later live key, in order, and nothing else. */
  lemma {:induction false} RunAfter(fwd: bool, deleted: set<Key>, pending: seq<seq<Key>>, b: Key)
    requires AllOrdered(fwd, pending) && Beyond(fwd, pending, b)
    ensures Delivers(fwd, pending, Yields(fwd, deleted, pending, b), LiveKeys(deleted, pending, b))
    decreases Total(pending)
  {
    var rest := DropAll(deleted, b, pending);
    DropAllKeeps(fwd, deleted, b, pending);
    BoundGone(fwd, deleted, b, pending);
    var (j, k) := Pick(fwd, rest, |rest|);
    if j >= 0 {
      HeadsNotEmpty(fwd, rest, b);
      TotalDrop(deleted, b, pending);
      TotalUpdate(rest, j, rest[j][1..]);
      AfterPick(fwd, rest, j, k);
      RunAfter(fwd, deleted, Popped(rest, j), k);
      Prepend(fwd, deleted, b, pending, rest, j, k, Yields(fwd, deleted, Popped(rest, j), k));
    }
    assert (iset x | Live(deleted, rest, x)) == LiveKeys(deleted, pending, b);
  }

  lemma AfterPick(fwd: bool, rest: seq<seq<Key>>, j: int, k: Key)
    requires AllOrdered(fwd, rest) && 0 <= j && (j, k) == Pick(fwd, rest, |rest|)
    requires fwd ==> forall i :: 0 <= i < |rest| && rest[i] != [] ==> rest[i][0] != []
    ensures AllOrdered(fwd, Popped(rest, j)) && Beyond(fwd, Popped(rest, j), k) && Beyond(fwd, rest, k)
  {
    PickIsFirst(fwd, rest, |rest|);
    HeadsAreFirst(fwd, rest, k);
    StepKeeps(fwd, rest, j, k);
  }

  lemma HeadsNotEmpty(fwd: bool, rest: seq<seq<Key>>, b: Key)
    requires Beyond(fwd, rest, b) && forall i :: 0 <= i < |rest| ==> b !in rest[i]
    ensures fwd ==> forall i :: 0 <= i < |rest| && rest[i] != [] ==> rest[i][0] != []
  {
    EmptyIsLeast();
    if fwd {
      forall i | 0 <= i < |rest| && rest[i] != [] ensures rest[i][0] != [] {
        assert rest[i][0] in rest[i];
        assert Precedes(fwd, b, rest[i][0]);
      }
    }
  }

  /**
   The keys a fresh run delivers. Going forwards the empty key is never among them; going backwards
   it is, when its source also holds another live key.
   */
  ghost predicate Delivered(fwd: bool, deleted: set<Key>, pending: seq<seq<Key>>, k: Key)
  {
    k !in deleted && exists i :: 0 <= i < |pending| && k in pending[i] && Reached(fwd, deleted, pending[i], k)
  }

  ghost predicate Reached(fwd: bool, deleted: set<Key>, s: seq<Key>, k: Key)
  {
    k != [] || (!fwd && exists x :: x in s && x != [] && x !in deleted)
  }

  /** The first look at a source discards the empty key exactly when nothing live comes before it. */
  lemma {:induction false} FirstDrop(fwd: bool, deleted: set<Key>, s: seq<Key>, k: Key)
    requires Ordered(fwd, s) && k !in deleted
    ensures k in DropSkipped(deleted, [], s) <==> k in s && Reached(fwd, deleted, s, k)
  {
    PrecedesLaws();
    EmptyIsLeast();
    if s != [] {
      if Skipped(deleted, [], s[0]) {
        FirstDrop(fwd, deleted, s[1..], k);
        assert forall x :: x in s <==> x == s[0] || x in s[1..];
      } else if k == [] {
        assert s[0] in s && s[0] != [];
      }
    }
  }

  lemma FirstDropAll(fwd: bool, deleted: set<Key>, pending: seq<seq<Key>>, rest: seq<seq<Key>>)
    requires AllOrdered(fwd, pending) && rest == DropAll(deleted, [], pending)
    ensures forall k :: Delivered(fwd, deleted, pending, k) <==> Live(deleted, rest, k)
  {
    forall k | k !in deleted
      ensures Delivered(fwd, deleted, pending, k) <==> Live(deleted, rest, k)
    {
      forall i | 0 <= i < |pending|
        ensures k in rest[i] <==> k in pending[i] && Reached(fwd, deleted, pending[i], k)
      {
        FirstDrop(fwd, deleted, pending[i], k);
      }
    }
  }

  /** A run from a fresh iterator, whose previous key is the empty one. */
  lemma RunFresh(fwd: bool, deleted: set<Key>, pending: seq<seq<Key>>)
    requires AllOrdered(fwd, pending)
    ensures Delivers(fwd, pending, Yields(fwd, deleted, pending, []), iset k | Delivered(fwd, deleted, pending, k))
  {
    var rest := DropAll(deleted, [], pending);
    DropAllKeeps(fwd, deleted, [], pending);
    FirstDropAll(fwd, deleted, pending, rest);
    var (j, k) := Pick(fwd, rest, |rest|);
    if j >= 0 {
      AfterPick(fwd, rest, j, k);
      RunAfter(fwd, deleted, Popped(rest, j), k);
      Prepend(fwd, deleted, [], pending, rest, j, k, Yields(fwd, deleted, Popped(rest, j), k));
    }
    assert (iset x | Live(deleted, rest, x)) == iset x | Delivered(fwd, deleted, pending, x);
  }

  // ----- a run that starts with Seek -----

  /** Seek throws away tombstones only. */
  function DropTombstones(deleted: set<Key>, s: seq<Key>): seq<Key>
  {
    if s != [] && s[0] in deleted then DropTombstones(deleted, s[1..]) else s
  }

  function DropAllTombstones(deleted: set<Key>, pending: seq<seq<Key>>): (r: seq<seq<Key>>)
    ensures |r| == |pending|
    ensures forall i :: 0 <= i < |r| ==> r[i] == DropTombstones(deleted, pending[i])
  {
    seq(|pending|, i requires 0 <= i < |pending| => DropTombstones(deleted, pending[i]))
  }

  /** The delivery made by Seek itself and those of the Next calls after it. */
  ghost function SeekYields(deleted: set<Key>, pending: seq<seq<Key>>): seq<(int, Key)>
  {
    var rest := DropAllTombstones(deleted, pending);
    var (j, k) := Pick(true, rest, |rest|);
    if j < 0 then [] else [(j, k)] + Yields(true, deleted, Popped(rest, j), k)
  }

  lemma {:induction false} TombstonesOnly(deleted: set<Key>, s: seq<Key>)
    requires [] in deleted || [] !in s
    ensures DropTombstones(deleted, s) == DropSkipped(deleted, [], s)
  {
    if s != [] && s[0] in deleted {
      assert forall k :: k in s[1..] ==> k in s;
      TombstonesOnly(deleted, s[1..]);
    } else if s != [] {
      assert s[0] in s;
    }
  }

  /** Without a live empty key, a Seek run delivers every live key at or after the sought one, in order. */
  lemma RunSeek(deleted: set<Key>, pending: seq<seq<Key>>)
    requires AllOrdered(true, pending) && !Live(deleted, pending, [])
    ensures Delivers(true, pending, SeekYields(deleted, pending), iset k | Live(deleted, pending, k))
  {
    forall i | 0 <= i < |pending|
      ensures DropTombstones(deleted, pending[i]) == DropSkipped(deleted, [], pending[i])
    {
      TombstonesOnly(deleted, pending[i]);
    }
    assert DropAllTombstones(deleted, pending) == DropAll(deleted, [], pending);
    assert SeekYields(deleted, pending) == Yields(true, deleted, pending, []);
    RunFresh(true, deleted, pending);
    assert (iset k | Live(deleted, pending, k)) == iset k | Delivered(true, deleted, pending, k);
  }

  /** A source whose next key is the empty one stays where it is until the empty key is delivered. */
  lemma {:induction false} EmptyKeyComesOut(deleted: set<Key>, pending: seq<seq<Key>>, prev: Key, i: nat)
    requires i < |pending| && pending[i] != [] && pending[i][0] == [] && [] !in deleted
    requires prev != []
    ensures [] in YieldedKeys(Yields(true, deleted, pending, prev))
    decreases Total(pending)
  {
    var rest := DropAll(deleted, prev, pending);
    assert rest[i] == pending[i];
    var (j, k) := Pick(true, rest, |rest|);
    TotalDrop(deleted, prev, pending);
    TotalUpdate(rest, j, rest[j][1..]);
    var y := Yields(true, deleted, Popped(rest, j), k);
    if k == [] {
      assert YieldedKeys([(j, k)] + y)[0] == [];
    } else {
      EmptyKeyComesOut(deleted, Popped(rest, j), k, i);
      assert YieldedKeys([(j, k)] + y)[1..] == YieldedKeys(y);
    }
  }

  /** With a live empty key among the sources, a Seek run delivers it, which a forward run never does. */
  lemma SeekDeliversEmptyKey(deleted: set<Key>, pending: seq<seq<Key>>)
    requires AllOrdered(true, pending) && Live(deleted, pending, [])
    ensures [] in YieldedKeys(SeekYields(deleted, pending))
  {
    var i :| 0 <= i < |pending| && [] in pending[i];
    EmptyKeyFirst(pending[i]);
    var rest := DropAllTombstones(deleted, pending);
    assert rest[i] == pending[i];
    var (j, k) := Pick(true, rest, |rest|);
    YieldedFirst((j, k), Yields(true, deleted, Popped(rest, j), k));
    if k != [] {
      EmptyKeyComesOut(deleted, Popped(rest, j), k, i);
    }
  }

  lemma YieldedFirst(x: (int, Key), y: seq<(int, Key)>)
    ensures YieldedKeys([x] + y) == [x.1] + YieldedKeys(y)
  {
  }

  lemma EmptyKeyFirst(s: seq<Key>)
    requires Ordered(true, s) && [] in s
    ensures s[0] == []
  {
    EmptyIsLeast();
    var i :| 0 <= i < |s| && s[i] == [];
    assert i > 0 ==> Precedes(true, s[0], s[i]);
  }

  /**
   So a Seek run delivers exactly the live non-empty keys from the sought one on iff no live empty key is in range.
   */
  lemma SeekExactIff(deleted: set<Key>, pending: seq<seq<Key>>)
    requires AllOrdered(true, pending)
    ensures Delivers(true, pending, SeekYields(deleted, pending), iset k | Live(deleted, pending, k) && k != [])
            <==> !Live(deleted, pending, [])
  {
    if Live(deleted, pending, []) {
      SeekDeliversEmptyKey(deleted, pending);
    } else {
      RunSeek(deleted, pending);
      assert (iset k | Live(deleted, pending, k) && k != []) == iset k | Live(deleted, pending, k);
    }
  }

  /**
   And a backward run delivers exactly the live non-empty keys iff no source holds the empty key beside another live
   key.
   */
  lemma BackwardExactIff(deleted: set<Key>, pending: seq<seq<Key>>)
    requires AllOrdered(false, pending)
    ensures Delivers(false, pending, Yields(false, deleted, pending, []), iset k | Live(deleted, pending, k) && k != [])
            <==> !Delivered(false, deleted, pending, [])
  {
    RunFresh(false, deleted, pending);
    var all := iset k | Delivered(false, deleted, pending, k);
    if Delivered(false, deleted, pending, []) {
      assert [] in all;
      assert [] in YieldedKeys(Yields(false, deleted, pending, []));
    } else {
      assert (iset k | Live(deleted, pending, k) && k != []) == all;
    }
  }
}

/** The iterator object. */
module MergedIterator {
  import opened Common
  import opened Opcodes
  import opened KeyOrder
  import opened Merge

  datatype Status = Head | Middle | Tail

  /** A leveldb iterator over a sorted listing: before the first entry at -1, past the last at |entries|. */
  datatype Cursor = Cursor(entries: seq<Entry>, pos: int) {
    predicate Valid() { -1 <= pos <= |entries| }

    predicate AtEntry() { 0 <= pos < |entries| }

    function Move(fwd: bool): Cursor
    {
      if fwd then (if pos < |entries| then this.(pos := pos + 1) else this)
      else if pos >= 0 then this.(pos := pos - 1) else this
    }

    /** The keys still ahead in the direction of travel. */
    ghost function Ahead(fwd: bool): seq<Key>
    {
      if fwd then (if -1 <= pos < |entries| then KeysOf(entries)[pos + 1..] else [])
      else if 0 <= pos <= |entries| then Reversed(KeysOf(entries)[..pos]) else []
    }
  }

  ghost function Reversed(s: seq<Key>): (r: seq<Key>)
    ensures |r| == |s| && forall i :: 0 <= i < |s| ==> r[i] == s[|s| - 1 - i]
  {
    seq(|s|, i requires 0 <= i < |s| => s[|s| - 1 - i])
  }

  /** Moving a cursor takes the first key off what is ahead of it, or fails when nothing is. */
  lemma MoveTakes(c: Cursor, fwd: bool)
    requires c.Valid()
    ensures var c' := c.Move(fwd);
      && c'.Valid() && c'.entries == c.entries
      && (c'.AtEntry() <==> c.Ahead(fwd) != [])
      && (c'.AtEntry() ==> c.Ahead(fwd) == [c'.entries[c'.pos].0] + c'.Ahead(fwd))
      && (!c'.AtEntry() ==> c'.Ahead(fwd) == [])
  {
    var c' := c.Move(fwd);
    var ks := KeysOf(c.entries);
    if c'.AtEntry() {
      if fwd {
        assert ks[c'.pos..] == [ks[c'.pos]] + ks[c'.pos + 1..];
      } else {
        assert Reversed(ks[..c.pos]) == [ks[c'.pos]] + Reversed(ks[..c'.pos]);
      }
    }
  }

  /** One source of the merge: its cursor, how far it got, and a look-ahead slot. */
  datatype Source = Source(cursor: Cursor, status: Status, slot: Option<Key>) {
    /** The slot holds the key under the cursor. */
    ghost predicate Valid()
    {
      cursor.Valid() && (slot.Some? ==> cursor.AtEntry() && cursor.entries[cursor.pos].0 == slot.value)
    }

    /** What the source would still deliver: its slot and the keys ahead of its cursor. */
    ghost function Pending(fwd: bool): seq<Key>
    {
      (if slot.Some? then [slot.value] else []) + cursor.Ahead(fwd)
    }

    /** A source marked as finished has nothing pending. */
    ghost predicate Ready(fwd: bool)
    {
      Valid() && (status == End(fwd) ==> Pending(fwd) == [])
    }
  }

  function End(fwd: bool): Status { if fwd then Tail else Head }

  lemma DropHead(deleted: set<Key>, prev: Key, k: Key, rest: seq<Key>)
    ensures DropSkipped(deleted, prev, [k] + rest) ==
            if Skipped(deleted, prev, k) then DropSkipped(deleted, prev, rest) else [k] + rest
  {
    assert ([k] + rest)[1..] == rest;
  }

  /** `t` is `s` after its slot was filled with the next key that is not skipped, if there is one. */
  ghost predicate Refilled(fwd: bool, deleted: set<Key>, prevKey: Key, s: Source, t: Source)
  {
    && t.Ready(fwd) && t.cursor.entries == s.cursor.entries
    && t.Pending(fwd) == DropSkipped(deleted, prevKey, s.Pending(fwd))
    && (t.slot.None? <==> t.Pending(fwd) == [])
    && (t.status == s.status || t.status == End(fwd))
    && (s.status != End(fwd) && t.slot.None? ==> !t.cursor.AtEntry())
  }

  /** Fills an empty look-ahead slot from the cursor; the slot stays empty when nothing is ahead. */
  method Fetch(fwd: bool, s: Source) returns (t: Source)
    requires s.Valid() && s.slot.None?
    ensures t.Valid() && t.cursor.entries == s.cursor.entries
    ensures t.Pending(fwd) == s.Pending(fwd)
    ensures t.slot.None? ==> t.Pending(fwd) == [] && t.status == End(fwd) && !t.cursor.AtEntry()
    ensures t.slot.Some? ==> t.status == s.status
  {
    MoveTakes(s.cursor, fwd);
    var c := s.cursor.Move(fwd);
    if c.AtEntry() {
      t := Source(c, s.status, Some(c.entries[c.pos].0));
    } else {
      t := Source(c, End(fwd), None);
    }
  }

  lemma SlotFirst(fwd: bool, deleted: set<Key>, prevKey: Key, t: Source)
    requires t.slot.Some?
    ensures var u := t.(slot := None);
      && |u.Pending(fwd)| < |t.Pending(fwd)|
      && DropSkipped(deleted, prevKey, t.Pending(fwd)) ==
         if Skipped(deleted, prevKey, t.slot.value) then DropSkipped(deleted, prevKey, u.Pending(fwd))
         else t.Pending(fwd)
  {
    var u := t.(slot := None);
    assert u.Pending(fwd) == t.cursor.Ahead(fwd) && t.Pending(fwd) == [t.slot.value] + t.cursor.Ahead(fwd);
    DropHead(deleted, prevKey, t.slot.value, t.cursor.Ahead(fwd));
  }

  method Refill(fwd: bool, deleted: set<Key>, prevKey: Key, s: Source) returns (t: Source)
    requires s.Ready(fwd) && s.status != End(fwd)
    ensures Refilled(fwd, deleted, prevKey, s, t)
  {
    t := s;
    ghost var goal := DropSkipped(deleted, prevKey, s.Pending(fwd));
    while true
      invariant t.Valid() && t.cursor.entries == s.cursor.entries && t.status == s.status
      invariant DropSkipped(deleted, prevKey, t.Pending(fwd)) == goal
      decreases |t.Pending(fwd)|
    {
      if t.slot.None? {
        t := Fetch(fwd, t);
        if t.slot.None? {
          return;
        }
      }
      SlotFirst(fwd, deleted, prevKey, t);
      if !Skipped(deleted, prevKey, t.slot.value) {
        return;
      }
      t := t.(slot := None);
    }
  }

  /** A source that is finished in this direction is left alone. */
  method Advance(fwd: bool, deleted: set<Key>, prevKey: Key, s: Source) returns (t: Source)
    requires s.Ready(fwd)
    ensures Refilled(fwd, deleted, prevKey, s, t)
  {
    if s.status == End(fwd) {
      t := s;
    } else {
      t := Refill(fwd, deleted, prevKey, s);
    }
  }

  ghost function AllPending(fwd: bool, sources: seq<Source>): (p: seq<seq<Key>>)
    ensures |p| == |sources|
    ensures forall i :: 0 <= i < |p| ==> p[i] == sources[i].Pending(fwd)
  {
    seq(|sources|, i requires 0 <= i < |sources| => sources[i].Pending(fwd))
  }

  ghost function Listings(sources: seq<Source>): (s: seq<seq<Entry>>)
    ensures |s| == |sources| && forall i :: 0 <= i < |s| ==> s[i] == sources[i].cursor.entries
  {
    seq(|sources|, i requires 0 <= i < |sources| => sources[i].cursor.entries)
  }

  ghost predicate AllRefilled(fwd: bool, deleted: set<Key>, prevKey: Key, sources: seq<Source>, after: seq<Source>)
  {
    |after| <= |sources| && forall k :: 0 <= k < |after| ==> Refilled(fwd, deleted, prevKey, sources[k], after[k])
  }

  lemma OneMoreRefilled(fwd: bool, deleted: set<Key>, prevKey: Key, sources: seq<Source>, after: seq<Source>, t: Source)
    requires AllRefilled(fwd, deleted, prevKey, sources, after) && |after| < |sources|
    requires Refilled(fwd, deleted, prevKey, sources[|after|], t)
    ensures AllRefilled(fwd, deleted, prevKey, sources, after + [t])
  {
  }

  /** The scan has looked at the first `n` sources. */
  ghost predicate Picked(fwd: bool, heads: seq<seq<Key>>, n: nat, j: int, fit: Key)
  {
    n <= |heads| && (j, fit) == Pick(fwd, heads, n)
  }

  /** Looking at one more source, whose slot shows its next key. */
  method PickNext(fwd: bool, ghost heads: seq<seq<Key>>, i: nat, t: Source, j: int, fit: Key)
    returns (j': int, fit': Key)
    requires Picked(fwd, heads, i, j, fit)
    requires i < |heads| && heads[i] == t.Pending(fwd) && (t.slot.None? <==> heads[i] == [])
    ensures Picked(fwd, heads, i + 1, j', fit')
  {
    j', fit' := j, fit;
    if t.slot.Some? && (Precedes(fwd, t.slot.value, fit) || fit == []) {
      j', fit' := i, t.slot.value;
    }
  }

  /** The next source of the pass: its slot is refilled, and it may replace the source picked so far. */
  method Visit(fwd: bool, deleted: set<Key>, prevKey: Key, sources: seq<Source>, after: seq<Source>,
               ghost rest: seq<seq<Key>>, j: int, fit: Key)
    returns (after': seq<Source>, j': int, fit': Key)
    requires |after| < |sources| == |rest| && AllRefilled(fwd, deleted, prevKey, sources, after)
    requires sources[|after|].Ready(fwd)
    requires rest[|after|] == DropSkipped(deleted, prevKey, sources[|after|].Pending(fwd))
    requires Picked(fwd, rest, |after|, j, fit)
    ensures |after'| == |after| + 1 && AllRefilled(fwd, deleted, prevKey, sources, after')
    ensures Picked(fwd, rest, |after'|, j', fit')
  {
    var t := Advance(fwd, deleted, prevKey, sources[|after|]);
    j', fit' := PickNext(fwd, rest, |after|, t, j, fit);
    OneMoreRefilled(fwd, deleted, prevKey, sources, after, t);
    after' := after + [t];
  }

  /** One pass over the sources: each slot is refilled, and the source to deliver from is picked. */
  method Scan(fwd: bool, deleted: set<Key>, prevKey: Key, sources: seq<Source>)
    returns (after: seq<Source>, fitIndex: int, fitKey: Key)
    requires forall i :: 0 <= i < |sources| ==> sources[i].Ready(fwd)
    ensures |after| == |sources| && AllRefilled(fwd, deleted, prevKey, sources, after)
    ensures (fitIndex, fitKey) == Pick(fwd, DropAll(deleted, prevKey, AllPending(fwd, sources)), |after|)
  {
    after, fitIndex, fitKey := [], -1, [];
    ghost var rest := DropAll(deleted, prevKey, AllPending(fwd, sources));
    while |after| < |sources|
      invariant |after| <= |sources| && AllRefilled(fwd, deleted, prevKey, sources, after)
      invariant Picked(fwd, rest, |after|, fitIndex, fitKey)
    {
      after, fitIndex, fitKey := Visit(fwd, deleted, prevKey, sources, after, rest, fitIndex, fitKey);
    }
  }

  /** Emptying the slot of a source takes its first pending key away. */
  lemma PopDelivered(fwd: bool, sources: seq<Source>, j: nat)
    requires j < |sources| && sources[j].slot.Some?
    ensures AllPending(fwd, sources[j := sources[j].(slot := None)]) == Popped(AllPending(fwd, sources), j)
  {
    var s := sources[j];
    assert s.Pending(fwd)[1..] == s.(slot := None).Pending(fwd);
  }

  /** What a scan leaves behind: the skipped keys are gone from what is pending. */
  lemma ScanPending(fwd: bool, deleted: set<Key>, prevKey: Key, sources: seq<Source>, after: seq<Source>)
    requires |after| == |sources| && AllRefilled(fwd, deleted, prevKey, sources, after)
    ensures AllPending(fwd, after) == DropAll(deleted, prevKey, AllPending(fwd, sources))
  {
    var p, q := AllPending(fwd, after), DropAll(deleted, prevKey, AllPending(fwd, sources));
    forall i | 0 <= i < |after| ensures p[i] == q[i] {
      assert Refilled(fwd, deleted, prevKey, sources[i], after[i]);
    }
  }

  lemma ScanKeeps(fwd: bool, deleted: set<Key>, prevKey: Key, sources: seq<Source>, after: seq<Source>)
    requires |after| == |sources| && AllRefilled(fwd, deleted, prevKey, sources, after)
    ensures Listings(after) == Listings(sources)
    ensures forall i :: 0 <= i < |after| ==> after[i].Ready(fwd) && after[i].Valid()
  {
    forall i | 0 <= i < |after|
      ensures after[i].cursor.entries == sources[i].cursor.entries && after[i].Ready(fwd)
    {
      assert Refilled(fwd, deleted, prevKey, sources[i], after[i]);
    }
  }

  /** The sources with the slot that was delivered last emptied. */
  function Emptied(sources: seq<Source>, index: int): (r: seq<Source>)
    requires -1 <= index < |sources|
    ensures |r| == |sources|
  {
    if index >= 0 then sources[index := sources[index].(slot := None)] else sources
  }

  lemma EmptiedReady(fwd: bool, sources: seq<Source>, index: int)
    requires -1 <= index < |sources| && forall i :: 0 <= i < |sources| ==> sources[i].Ready(fwd)
    ensures forall i :: 0 <= i < |sources| ==> Emptied(sources, index)[i].Ready(fwd)
    ensures Listings(Emptied(sources, index)) == Listings(sources)
  {
  }

  lemma PickedSlot(fwd: bool, deleted: set<Key>, prevKey: Key, sources: seq<Source>, after: seq<Source>, j: int, k: Key)
    requires AllRefilled(fwd, deleted, prevKey, sources, after)
    requires (j, k) == Pick(fwd, AllPending(fwd, after), |after|)
    ensures j >= 0 ==> after[j].slot == Some(k)
  {
    if j >= 0 {
      assert Refilled(fwd, deleted, prevKey, sources[j], after[j]);
      assert k == after[j].Pending(fwd)[0];
    }
  }

  /** What is ahead of the cursors, whatever the slots hold. */
  ghost function AllAhead(fwd: bool, sources: seq<Source>): (p: seq<seq<Key>>)
    ensures |p| == |sources| && forall i :: 0 <= i < |p| ==> p[i] == sources[i].cursor.Ahead(fwd)
  {
    seq(|sources|, i requires 0 <= i < |sources| => sources[i].cursor.Ahead(fwd))
  }

  /** The keys of a listing in the direction of travel. */
  ghost function InOrder(fwd: bool, entries: seq<Entry>): (r: seq<Key>)
    ensures |r| == |entries|
  {
    if fwd then KeysOf(entries) else Reversed(KeysOf(entries))
  }

  /** What a cursor has behind it, the key it is at, and what it has ahead are the whole listing. */
  lemma BothSides(c: Cursor, fwd: bool)
    requires c.Valid()
    ensures |c.Ahead(!fwd)| <= |c.entries|
    ensures c.AtEntry() ==> |c.Ahead(!fwd)| < |c.entries| && InOrder(fwd, c.entries)[|c.Ahead(!fwd)|..] ==
                            [c.entries[c.pos].0] + c.Ahead(fwd)
    ensures !c.AtEntry() && c.Ahead(!fwd) == [] ==> InOrder(fwd, c.entries) == c.Ahead(fwd)
  {
  }

  /**
   What is pending in direction `dir` after a step the other way that found `rest` and delivered from source `j`:
   a source with nothing left starts from its beginning, the source that delivered goes on after the delivered key,
   and every other source repeats the key it had fetched.
   */
  ghost predicate Rewound(dir: bool, listings: seq<seq<Entry>>, rest: seq<seq<Key>>, j: int, pending: seq<seq<Key>>)
  {
    && |listings| == |rest| == |pending|
    && forall i :: 0 <= i < |rest| ==> RewoundSource(dir, listings[i], rest[i], i == j, pending[i])
  }

  ghost predicate RewoundSource(dir: bool, entries: seq<Entry>, rest: seq<Key>, delivered: bool, pending: seq<Key>)
  {
    var n := if rest == [] then 0 else if delivered then |rest| else |rest| - 1;
    n <= |entries| && pending == InOrder(dir, entries)[n..]
  }

  lemma SourceRewinds(dir: bool, deleted: set<Key>, s: Source, t: Source)
    requires s.status != End(!dir) && Refilled(!dir, deleted, [], s, t)
    ensures RewoundSource(dir, s.cursor.entries, t.Pending(!dir), false, t.Pending(dir))
    ensures t.slot.Some? ==> RewoundSource(dir, s.cursor.entries, t.Pending(!dir), true, t.(slot := None).Pending(dir))
  {
    BothSides(t.cursor, dir);
    assert t.(slot := None).Pending(dir) == t.cursor.Ahead(dir);
    if t.slot.Some? {
      assert t.Pending(!dir) == [t.slot.value] + t.cursor.Ahead(!dir);
      assert t.Pending(dir) == [t.slot.value] + t.cursor.Ahead(dir);
      var all := InOrder(dir, t.cursor.entries);
      var n := |t.cursor.Ahead(!dir)|;
      assert all[n + 1..] == all[n..][1..];
    } else {
      assert t.Pending(dir) == t.cursor.Ahead(dir);
    }
  }

  ghost predicate AllMiddle(sources: seq<Source>) { forall i :: 0 <= i < |sources| ==> sources[i].status == Middle }

  lemma ScanRewinds(dir: bool, deleted: set<Key>, before: seq<Source>, after: seq<Source>, j: int)
    requires |after| == |before| && AllRefilled(!dir, deleted, [], before, after)
    requires AllMiddle(before)
    requires -1 <= j < |after| && (j >= 0 ==> after[j].slot.Some?)
    ensures Rewound(dir, Listings(before), DropAll(deleted, [], AllPending(!dir, before)), j,
                    AllPending(dir, Emptied(after, j)))
  {
    var rest, pending := DropAll(deleted, [], AllPending(!dir, before)), AllPending(dir, Emptied(after, j));
    forall i | 0 <= i < |after|
      ensures RewoundSource(dir, Listings(before)[i], rest[i], i == j, pending[i])
    {
      assert Refilled(!dir, deleted, [], before[i], after[i]);
      SourceRewinds(dir, deleted, before[i], after[i]);
    }
  }

  lemma Turned(fwd: bool, before: seq<Source>, after: seq<Source>)
    requires |after| == |before| && forall i :: 0 <= i < |after| ==> after[i] == Source(before[i].cursor, Middle, None)
    ensures AllPending(fwd, after) == AllAhead(fwd, before) && Listings(after) == Listings(before)
  {
    forall i | 0 <= i < |after| ensures AllPending(fwd, after)[i] == AllAhead(fwd, before)[i] {
      assert after[i].Pending(fwd) == [] + before[i].cursor.Ahead(fwd);
    }
  }

  lemma ScanAhead(fwd: bool, deleted: set<Key>, prevKey: Key, before: seq<Source>, after: seq<Source>)
    requires |after| == |before| && AllRefilled(fwd, deleted, prevKey, before, after)
    ensures AllAhead(fwd, after) == Beheaded(DropAll(deleted, prevKey, AllPending(fwd, before)))
    ensures forall i :: 0 <= i < |after| ==> after[i].status == before[i].status || after[i].status == End(fwd)
  {
    ScanPending(fwd, deleted, prevKey, before, after);
    forall i | 0 <= i < |after|
      ensures AllAhead(fwd, after)[i] == Beheaded(AllPending(fwd, after))[i]
      ensures after[i].status == before[i].status || after[i].status == End(fwd)
    {
      assert Refilled(fwd, deleted, prevKey, before[i], after[i]);
    }
  }

  /**
   One step from `sources`, with the slot of `index` still to be emptied, leaves `after` and delivers `k` from source
   `j`.
   */
  ghost predicate Advanced(fwd: bool, deleted: set<Key>, prevKey: Key, sources: seq<Source>, index: int,
                           after: seq<Source>, j: int, k: Key)
    requires -1 <= index < |sources|
  {
    && |after| == |sources| && -1 <= j < |after| && Listings(after) == Listings(sources)
    && (forall i :: 0 <= i < |after| ==> after[i].Ready(fwd))
    && (forall i :: 0 <= i < |after| ==> after[i].status == sources[i].status || after[i].status == End(fwd))
    && (j >= 0 ==> after[j].slot == Some(k))
    && var rest := DropAll(deleted, prevKey, AllPending(fwd, Emptied(sources, index)));
       && (j, k) == Pick(fwd, rest, |rest|) && AllPending(fwd, Emptied(after, j)) == Popped(rest, j)
       && AllAhead(fwd, after) == Beheaded(rest)
       && (prevKey == [] && AllMiddle(sources) ==>
             Rewound(!fwd, Listings(sources), rest, j, AllPending(!fwd, Emptied(after, j))))
  }

  /** The work of one step: empty the delivered slot, refill every slot, pick the source to deliver from. */
  method StepSources(fwd: bool, deleted: set<Key>, prevKey: Key, sources: seq<Source>, index: int)
    returns (after: seq<Source>, j: int, k: Key)
    requires -1 <= index < |sources| && forall i :: 0 <= i < |sources| ==> sources[i].Ready(fwd)
    ensures Advanced(fwd, deleted, prevKey, sources, index, after, j, k)
  {
    EmptiedReady(fwd, sources, index);
    ghost var before := Emptied(sources, index);
    after, j, k := Scan(fwd, deleted, prevKey, Emptied(sources, index));
    ScanKeeps(fwd, deleted, prevKey, before, after);
    ScanDelivers(fwd, deleted, prevKey, before, after, j, k);
    ScanAhead(fwd, deleted, prevKey, before, after);
    EmptiedStatus(sources, index);
    if prevKey == [] && AllMiddle(sources) {
      ScanRewinds(!fwd, deleted, before, after, j);
    }
  }

  lemma EmptiedStatus(sources: seq<Source>, index: int)
    requires -1 <= index < |sources|
    ensures forall i :: 0 <= i < |sources| ==> Emptied(sources, index)[i].status == sources[i].status
  {
  }

  lemma ScanDelivers(fwd: bool, deleted: set<Key>, prevKey: Key, before: seq<Source>, after: seq<Source>, j: int,
                     k: Key)
    requires |after| == |before| && AllRefilled(fwd, deleted, prevKey, before, after)
    requires (j, k) == Pick(fwd, DropAll(deleted, prevKey, AllPending(fwd, before)), |after|)
    ensures AllPending(fwd, Emptied(after, j)) == Popped(DropAll(deleted, prevKey, AllPending(fwd, before)), j)
    ensures j >= 0 ==> after[j].slot == Some(k)
  {
    ScanPending(fwd, deleted, prevKey, before, after);
    PickedSlot(fwd, deleted, prevKey, before, after, j, k);
    if j >= 0 {
      PopDelivered(fwd, after, j);
    }
  }

  /**
   One step against the direction: the nearest key beyond the cursors is delivered, every source loses the first of its
   keys, and a later step in the iterator's own direction finds the sources rewound.
   */
  ghost predicate SteppedAgainst(fwd: bool, deleted: set<Key>, before: seq<Source>, after: seq<Source>, j: int, k: Key)
  {
    && |after| == |before| && -1 <= j < |after| && Listings(after) == Listings(before)
    && (forall i :: 0 <= i < |after| ==> after[i].Ready(!fwd))
    && (j >= 0 ==> after[j].slot == Some(k))
    && var rest := DropAll(deleted, [], AllAhead(fwd, before));
       && (j, k) == Pick(fwd, rest, |rest|) && AllAhead(fwd, after) == Beheaded(rest)
       && Rewound(!fwd, Listings(after), rest, j, AllPending(!fwd, Emptied(after, j)))
  }

  lemma TurnedStep(fwd: bool, deleted: set<Key>, before: seq<Source>, turned: seq<Source>, after: seq<Source>, j: int,
                   k: Key)
    requires |before| == |turned|
    requires forall i :: 0 <= i < |turned| ==> turned[i] == Source(before[i].cursor, Middle, None)
    requires Advanced(fwd, deleted, [], turned, -1, after, j, k)
    ensures SteppedAgainst(fwd, deleted, before, after, j, k)
  {
    Turned(fwd, before, turned);
    assert AllMiddle(turned);
    forall i | 0 <= i < |after| ensures after[i].Ready(!fwd) {
      assert after[i].Ready(fwd) && after[i].status != End(!fwd);
    }
  }

  /** The sources after a reset: no look-ahead, and no source marked as finished. */
  function Cleared(sources: seq<Source>): (r: seq<Source>)
    ensures |r| == |sources| && forall i :: 0 <= i < |r| ==> r[i] == Source(sources[i].cursor, Middle, None)
  {
    seq(|sources|, i requires 0 <= i < |sources| => Source(sources[i].cursor, Middle, None))
  }

  method TurnSources(fwd: bool, deleted: set<Key>, sources: seq<Source>) returns (after: seq<Source>, j: int, k: Key)
    requires forall i :: 0 <= i < |sources| ==> sources[i].Valid()
    ensures SteppedAgainst(fwd, deleted, sources, after, j, k)
  {
    var turned := Cleared(sources);
    after, j, k := StepSources(fwd, deleted, [], turned, -1);
    TurnedStep(fwd, deleted, sources, turned, after, j, k);
  }

  class Merged {
    const deleted: set<Key>
    var sources: seq<Source>
    var index: int
    var prevKey: Key
    var directionToNext: bool

    /** The source just delivered from still holds the delivered key in its slot. */
    ghost predicate Valid()
      reads this
    {
      && -1 <= index < |sources|
      && (forall i :: 0 <= i < |sources| ==> sources[i].Valid())
      && (index >= 0 && sources[index].slot.Some? ==> sources[index].slot.value == prevKey)
    }

    /** The sources as the next step finds them: the delivered slot is emptied first. */
    ghost function Rest(): seq<Source>
      requires Valid()
      reads this
    {
      Emptied(sources, index)
    }

    ghost function Pending(fwd: bool): seq<seq<Key>>
      requires Valid()
      reads this
    {
      AllPending(fwd, Rest())
    }

    ghost predicate Ready(fwd: bool)
      reads this
    {
      Valid() && directionToNext == fwd && forall i :: 0 <= i < |sources| ==> sources[i].Ready(fwd)
    }

    constructor (iters: seq<Cursor>, deleted: set<Key>)
      requires |iters| > 0 && forall i :: 0 <= i < |iters| ==> iters[i].pos == -1 && iters[i].Valid()
      ensures this.deleted == deleted && |sources| == |iters|
      ensures Ready(true) && prevKey == []
      ensures forall i :: 0 <= i < |iters| ==> sources[i].cursor == iters[i]
      ensures forall i :: 0 <= i < |iters| ==> Pending(true)[i] == KeysOf(iters[i].entries)
    {
      this.deleted := deleted;
      sources := seq(|iters|, i requires 0 <= i < |iters| => Source(iters[i], Head, None));
      index := 0;
      prevKey := [];
      directionToNext := true;
    }

    /**
     A step. In the iterator's direction it delivers the next pending key. Against it, all look-ahead is thrown away
     first, and thrown away again by the next such step: the nearest key beyond the cursors is delivered, and every
     source has lost the first of its keys, delivered or not. The direction itself stays, and a later step in it finds
     the sources rewound.
     */
    method Step(fwd: bool) returns (ok: bool)
      requires Ready(directionToNext)
      modifies this
      ensures Ready(directionToNext) && directionToNext == old(directionToNext)
      ensures Listings(sources) == old(Listings(sources))
      ensures fwd == directionToNext ==> Delivered(fwd, old(prevKey), old(Pending(fwd)), ok)
      ensures fwd != directionToNext ==>
                SteppedAgainst(fwd, deleted, old(sources), sources, index, prevKey) && ok == (index >= 0)
    {
      if directionToNext != fwd {
        ok := StepAgainst(fwd);
      } else {
        ok := StepOn(fwd);
      }
    }

    method StepAgainst(fwd: bool) returns (ok: bool)
      requires Ready(!fwd)
      modifies this`sources, this`index, this`prevKey
      ensures Ready(!fwd) && SteppedAgainst(fwd, deleted, old(sources), sources, index, prevKey) && ok == (index >= 0)
    {
      sources, index, prevKey := TurnSources(fwd, deleted, sources);
      ok := index >= 0;
    }

    /** A step in a direction in which every source is ready. */
    method StepOn(fwd: bool) returns (ok: bool)
      requires Valid() && forall i :: 0 <= i < |sources| ==> sources[i].Ready(fwd)
      modifies this`sources, this`index, this`prevKey
      ensures Advanced(fwd, deleted, old(prevKey), old(sources), old(index), sources, index, prevKey) &&
              ok == (index >= 0)
    {
      sources, index, prevKey := StepSources(fwd, deleted, prevKey, sources, index);
      ok := index >= 0;
    }

    /** The state after one step over the given pending keys. */
    ghost predicate Stepped(fwd: bool, previous: Key, pending: seq<seq<Key>>, ok: bool)
      reads this
    {
      var rest := DropAll(deleted, previous, pending);
      && Valid() && (forall i :: 0 <= i < |sources| ==> sources[i].Ready(fwd))
      && (index, prevKey) == Pick(fwd, rest, |rest|) && Pending(fwd) == Popped(rest, index)
      && ok == (index >= 0) && (ok ==> sources[index].slot == Some(prevKey))
    }

    ghost predicate Delivered(fwd: bool, previous: Key, pending: seq<seq<Key>>, ok: bool)
      reads this
    {
      directionToNext == fwd && Stepped(fwd, previous, pending, ok)
    }

    method Reset()
      modifies this`sources, this`index, this`prevKey
      ensures |sources| == |old(sources)|
      ensures forall i :: 0 <= i < |sources| ==> sources[i] == Source(old(sources[i].cursor), Middle, None)
      ensures index == -1 && prevKey == []
    {
      sources := Cleared(sources);
      index := -1;
      prevKey := [];
    }

    /** The current key; nil (the empty key) before the first step and after a failed one. */
    method Key() returns (k: Key)
      requires Valid()
      ensures k == if index < 0 || sources[index].slot.None? then [] else prevKey
    {
      k := if index < 0 || sources[index].slot.None? then [] else sources[index].slot.value;
    }

    /** The value under the current key, nil for the empty key. */
    method Value() returns (v: Value)
      requires Valid() && index >= 0 && sources[index].slot == Some(prevKey) && Sorted(sources[index].cursor.entries)
      ensures v == ValueIn(Listings(sources), index, prevKey)
    {
      var c := sources[index].cursor;
      assert KeysOf(c.entries)[c.pos] in KeysOf(c.entries);
      v := if sources[index].slot.value == [] then [] else c.entries[c.pos].1;
    }

    method Next() returns (ok: bool)
      requires Ready(true)
      modifies this
      ensures Delivered(true, old(prevKey), old(Pending(true)), ok)
      ensures Listings(sources) == old(Listings(sources))
    {
      ok := Step(true);
    }

    method Prev() returns (ok: bool)
      requires Ready(false)
      modifies this
      ensures Delivered(false, old(prevKey), old(Pending(false)), ok)
      ensures Listings(sources) == old(Listings(sources))
    {
      ok := Step(false);
    }

    /** Restarts at the end, so that the whole of every source is pending backwards, and takes one step back. */
    method Last() returns (ok: bool)
      requires Valid()
      modifies this
      ensures Listings(sources) == old(Listings(sources))
      ensures Delivered(false, [], AllReversed(Listings(sources)), ok)
    {
      ToEnd();
      ok := Prev();
    }

    method ToEnd()
      requires Valid()
      modifies this
      ensures Ready(false) && prevKey == [] && Listings(sources) == old(Listings(sources))
      ensures Pending(false) == AllReversed(Listings(sources))
    {
      Reset();
      directionToNext := false;
      sources := AllLast(sources);
    }

    /** Restarts at the sought key: tombstones are passed over and the least key found becomes current. */
    method Seek(seekKey: Key) returns (ok: bool)
      requires Valid()
      modifies this
      ensures Ready(true) && Listings(sources) == old(Listings(sources))
      ensures var rest := DropAllTombstones(deleted, AllFrom(Listings(sources), seekKey));
        && (index, prevKey) == Pick(true, rest, |rest|) && Pending(true) == Popped(rest, index)
        && ok == (index >= 0) && (ok ==> sources[index].slot == Some(prevKey))
    {
      Reset();
      directionToNext := true;
      sources, index, prevKey := SeekAll(deleted, sources, seekKey);
      ok := index >= 0;
      if ok {
        PopDelivered(true, sources, index);
      }
    }
  }

  // ----- restarting -----

  ghost function AllReversed(listings: seq<seq<Entry>>): (p: seq<seq<Key>>)
    ensures |p| == |listings| && forall i :: 0 <= i < |p| ==> p[i] == Reversed(KeysOf(listings[i]))
  {
    seq(|listings|, i requires 0 <= i < |listings| => Reversed(KeysOf(listings[i])))
  }

  ghost function AllFrom(listings: seq<seq<Entry>>, k: Key): (p: seq<seq<Key>>)
    ensures |p| == |listings|
    ensures forall i :: 0 <= i < |p| ==> p[i] == KeysOf(listings[i])[SeekPosition(listings[i], k)..]
  {
    seq(|listings|, i requires 0 <= i < |listings| => KeysOf(listings[i])[SeekPosition(listings[i], k)..])
  }

  method LastOf(c: Cursor) returns (t: Source)
    requires c.Valid()
    ensures t.Ready(false) && t.cursor.entries == c.entries
    ensures t.Pending(false) == Reversed(KeysOf(c.entries))
  {
    var n := |c.entries|;
    if n > 0 {
      t := Source(Cursor(c.entries, n - 1), Tail, Some(c.entries[n - 1].0));
    } else {
      t := Source(Cursor(c.entries, -1), Head, None);
    }
    assert t.Pending(false) == Reversed(KeysOf(c.entries));
  }

  method AllLast(sources: seq<Source>) returns (after: seq<Source>)
    requires forall i :: 0 <= i < |sources| ==> sources[i].Valid()
    ensures |after| == |sources| && Listings(after) == Listings(sources)
    ensures forall i :: 0 <= i < |after| ==> after[i].Ready(false)
    ensures AllPending(false, after) == AllReversed(Listings(sources))
  {
    after := [];
    for i := 0 to |sources|
      invariant |after| == i
      invariant forall k :: 0 <= k < i ==> after[k].Ready(false) && after[k].cursor.entries == sources[k].cursor.entries
      invariant forall k :: 0 <= k < i ==> after[k].Pending(false) == Reversed(KeysOf(sources[k].cursor.entries))
    {
      var t := LastOf(sources[i].cursor);
      after := after + [t];
    }
  }

  /** One source after a seek: it stands on its first key from `k` on that is not a tombstone, if there is one. */
  ghost predicate Sought(deleted: set<Key>, entries: seq<Entry>, k: Key, t: Source)
  {
    && t.Ready(true) && t.cursor.entries == entries
    && t.Pending(true) == DropTombstones(deleted, KeysOf(entries)[SeekPosition(entries, k)..])
    && (t.slot.None? <==> t.Pending(true) == [])
  }

  method SeekOne(deleted: set<Key>, c: Cursor, k: Key) returns (t: Source)
    requires c.Valid()
    ensures Sought(deleted, c.entries, k, t)
  {
    var p := FirstAtOrAfter(c.entries, k);
    ghost var ks := KeysOf(c.entries);
    ghost var goal := DropTombstones(deleted, ks[p..]);
    while p < |c.entries| && c.entries[p].0 in deleted
      invariant p <= |c.entries|
      invariant DropTombstones(deleted, ks[p..]) == goal
    {
      assert ks[p..][1..] == ks[p + 1..];
      p := p + 1;
    }
    t := SourceAt(c, p);
  }

  /** The source that stands on entry `p`, or past the end. */
  method SourceAt(c: Cursor, p: nat) returns (t: Source)
    requires p <= |c.entries|
    ensures t.Ready(true) && t.cursor.entries == c.entries
    ensures t.Pending(true) == KeysOf(c.entries)[p..]
    ensures t.slot.None? <==> t.Pending(true) == []
  {
    if p < |c.entries| {
      t := Source(Cursor(c.entries, p), Middle, Some(c.entries[p].0));
    } else {
      t := Source(Cursor(c.entries, p), Tail, None);
    }
    assert t.Pending(true) == KeysOf(c.entries)[p..];
  }

  ghost predicate AllSought(deleted: set<Key>, sources: seq<Source>, k: Key, after: seq<Source>)
  {
    |after| <= |sources| && forall m :: 0 <= m < |after| ==> Sought(deleted, sources[m].cursor.entries, k, after[m])
  }

  method SeekNext(deleted: set<Key>, sources: seq<Source>, k: Key, after: seq<Source>,
                  ghost rest: seq<seq<Key>>, j: int, fit: Key)
    returns (after': seq<Source>, j': int, fit': Key)
    requires |after| < |sources| == |rest| && AllSought(deleted, sources, k, after)
    requires sources[|after|].Valid()
    requires var entries := sources[|after|].cursor.entries;
      rest[|after|] == DropTombstones(deleted, KeysOf(entries)[SeekPosition(entries, k)..])
    requires Picked(true, rest, |after|, j, fit)
    ensures |after'| == |after| + 1 && AllSought(deleted, sources, k, after')
    ensures Picked(true, rest, |after'|, j', fit')
  {
    var t := SeekOne(deleted, sources[|after|].cursor, k);
    j', fit' := PickNext(true, rest, |after|, t, j, fit);
    after' := after + [t];
  }

  /** After seeking every source: the tombstones at the front are gone, and the picked slot shows its key. */
  lemma SoughtAll(deleted: set<Key>, sources: seq<Source>, k: Key, after: seq<Source>)
    requires |after| == |sources| && AllSought(deleted, sources, k, after)
    ensures Listings(after) == Listings(sources)
    ensures forall i :: 0 <= i < |after| ==> after[i].Ready(true) && after[i].Valid()
    ensures AllPending(true, after) == DropAllTombstones(deleted, AllFrom(Listings(sources), k))
    ensures forall i :: 0 <= i < |after| && after[i].Pending(true) != [] ==>
            after[i].slot == Some(after[i].Pending(true)[0])
  {
    var p, q := AllPending(true, after), DropAllTombstones(deleted, AllFrom(Listings(sources), k));
    forall i | 0 <= i < |after|
      ensures p[i] == q[i] && after[i].cursor.entries == sources[i].cursor.entries && after[i].Ready(true)
      ensures p[i] != [] ==> after[i].slot == Some(p[i][0])
    {
      assert Sought(deleted, sources[i].cursor.entries, k, after[i]);
    }
  }

  method SeekAll(deleted: set<Key>, sources: seq<Source>, k: Key)
    returns (after: seq<Source>, fitIndex: int, fitKey: Key)
    requires forall i :: 0 <= i < |sources| ==> sources[i].Valid()
    ensures |after| == |sources| && Listings(after) == Listings(sources)
    ensures forall i :: 0 <= i < |after| ==> after[i].Ready(true) && after[i].Valid()
    ensures AllPending(true, after) == DropAllTombstones(deleted, AllFrom(Listings(sources), k))
    ensures (fitIndex, fitKey) == Pick(true, AllPending(true, after), |after|)
    ensures fitIndex >= 0 ==> after[fitIndex].slot == Some(fitKey)
  {
    after, fitIndex, fitKey := [], -1, [];
    ghost var rest := DropAllTombstones(deleted, AllFrom(Listings(sources), k));
    while |after| < |sources|
      invariant |after| <= |sources| && AllSought(deleted, sources, k, after)
      invariant Picked(true, rest, |after|, fitIndex, fitKey)
    {
      after, fitIndex, fitKey := SeekNext(deleted, sources, k, after, rest, fitIndex, fitKey);
    }
    SoughtAll(deleted, sources, k, after);
  }

  // ----- draining -----

  /** The entries that a run's deliveries stand for, read from the listings of the sources. */
  ghost function EntriesOf(listings: seq<seq<Entry>>, y: seq<(int, Key)>): (e: seq<Entry>)
    ensures |e| == |y|
    ensures forall t :: 0 <= t < |y| ==> e[t] == (y[t].1, ValueIn(listings, y[t].0, y[t].1))
  {
    seq(|y|, t requires 0 <= t < |y| => (y[t].1, ValueIn(listings, y[t].0, y[t].1)))
  }

  ghost function ValueIn(listings: seq<seq<Entry>>, j: int, k: Key): Value
  {
    if k != [] && 0 <= j < |listings| && k in Contents(listings[j]) then Contents(listings[j])[k] else []
  }

  ghost predicate AllSorted(listings: seq<seq<Entry>>)
  {
    forall i :: 0 <= i < |listings| ==> Sorted(listings[i])
  }

  /** One more delivery moves from what is to come to what is done. */
  lemma OneMoreYield(fwd: bool, deleted: set<Key>, pending: seq<seq<Key>>, prev: Key, listings: seq<seq<Entry>>,
                     done: seq<(int, Key)>, j: int, k: Key)
    requires (j, k) == Pick(fwd, DropAll(deleted, prev, pending), |pending|) && j >= 0
    ensures var after := Popped(DropAll(deleted, prev, pending), j);
      && done + Yields(fwd, deleted, pending, prev) == (done + [(j, k)]) + Yields(fwd, deleted, after, k)
      && EntriesOf(listings, done + [(j, k)]) == EntriesOf(listings, done) + [(k, ValueIn(listings, j, k))]
      && Total(after) < Total(pending)
  {
    var rest := DropAll(deleted, prev, pending);
    TotalDrop(deleted, prev, pending);
    TotalUpdate(rest, j, rest[j][1..]);
    EntriesSnoc(listings, done, j, k);
    YieldsStep(fwd, deleted, pending, prev, j, k);
    Regroup(done, (j, k), Yields(fwd, deleted, Popped(rest, j), k));
  }

  lemma Regroup<T>(done: seq<T>, x: T, rest: seq<T>)
    ensures done + ([x] + rest) == (done + [x]) + rest
  {
  }

  lemma YieldsStep(fwd: bool, deleted: set<Key>, pending: seq<seq<Key>>, prev: Key, j: int, k: Key)
    requires (j, k) == Pick(fwd, DropAll(deleted, prev, pending), |pending|) && j >= 0
    ensures Yields(fwd, deleted, pending, prev) ==
            [(j, k)] + Yields(fwd, deleted, Popped(DropAll(deleted, prev, pending), j), k)
  {
  }

  lemma EntriesSnoc(listings: seq<seq<Entry>>, done: seq<(int, Key)>, j: int, k: Key)
    ensures EntriesOf(listings, done + [(j, k)]) == EntriesOf(listings, done) + [(k, ValueIn(listings, j, k))]
  {
  }

  /** Steps until the iterator is exhausted, collecting key and value after each step. */
  method Drain(mi: Merged, fwd: bool) returns (out: seq<Entry>)
    requires mi.Ready(fwd) && AllSorted(Listings(mi.sources))
    modifies mi
    ensures out == EntriesOf(old(Listings(mi.sources)), Yields(fwd, mi.deleted, old(mi.Pending(fwd)), old(mi.prevKey)))
  {
    out := [];
    ghost var listings := Listings(mi.sources);
    ghost var all := Yields(fwd, mi.deleted, mi.Pending(fwd), mi.prevKey);
    ghost var done: seq<(int, Key)> := [];
    ghost var pending, prev := mi.Pending(fwd), mi.prevKey;
    while true
      invariant mi.Ready(fwd) && Listings(mi.sources) == listings
      invariant pending == mi.Pending(fwd) && prev == mi.prevKey
      invariant all == done + Yields(fwd, mi.deleted, pending, prev)
      invariant out == EntriesOf(listings, done)
      decreases Total(pending)
    {
      var ok := mi.Step(fwd);
      if !ok {
        assert all == done;
        return;
      }
      OneMoreYield(fwd, mi.deleted, pending, prev, listings, done, mi.index, mi.prevKey);
      pending, prev := mi.Pending(fwd), mi.prevKey;
      done := done + [(mi.index, mi.prevKey)];
      var k := mi.Key();
      assert Sorted(listings[mi.index]);
      var v := mi.Value();
      out := out + [(k, v)];
    }
  }
}
