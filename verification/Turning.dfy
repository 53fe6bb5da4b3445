/**
 Steps of a merged iterator against its direction (common/db/merged_iterator.go). Every such step first throws all
 look-ahead away, so that keys which other sources had fetched are passed over. Stated here is which keys a step loses,
 from which sources the others still come, what a step back in the iterator's own direction finds, and what a whole run
 against the direction delivers.
 */
module Turning {
  import opened Opcodes
  import opened KeyOrder
  import opened Merge
  import opened MergedIterator

  // ----- the keys that one step loses -----

  /** The key is the first of some source. */
  ghost predicate IsFirst(rest: seq<seq<Key>>, x: Key)
  {
    exists i :: 0 <= i < |rest| && rest[i] != [] && rest[i][0] == x
  }

  /** The key comes behind the first one in some source. */
  ghost predicate ComesAgain(rest: seq<seq<Key>>, x: Key)
  {
    exists m :: 0 <= m < |rest| && x in Beheaded(rest)[m]
  }

  lemma LiveSplits(deleted: set<Key>, rest: seq<seq<Key>>, x: Key)
    ensures Live(deleted, Beheaded(rest), x) <==> x !in deleted && ComesAgain(rest, x)
    ensures Live(deleted, rest, x) <==> x !in deleted && (IsFirst(rest, x) || ComesAgain(rest, x))
  {
    if Live(deleted, rest, x) {
      var i :| 0 <= i < |rest| && x in rest[i];
      assert rest[i][0] == x || x in Beheaded(rest)[i];
    }
    if ComesAgain(rest, x) {
      var m :| 0 <= m < |rest| && x in Beheaded(rest)[m];
      assert x in rest[m];
    }
  }

  /** The sources as a step against the direction finds them: no first key is empty or deleted. */
  ghost predicate Found(fwd: bool, deleted: set<Key>, rest: seq<seq<Key>>)
  {
    AllOrdered(fwd, rest) && forall i :: 0 <= i < |rest| && rest[i] != [] ==> !Skipped(deleted, [], rest[i][0])
  }

  lemma DropFinds(fwd: bool, deleted: set<Key>, pending: seq<seq<Key>>)
    requires AllOrdered(fwd, pending)
    ensures Found(fwd, deleted, DropAll(deleted, [], pending))
  {
    DropAllKeeps(fwd, deleted, [], pending);
  }

  lemma NearestOnce(fwd: bool, deleted: set<Key>, rest: seq<seq<Key>>)
    requires Found(fwd, deleted, rest)
    ensures !ComesAgain(rest, Pick(fwd, rest, |rest|).1)
  {
    var (j, k) := Pick(fwd, rest, |rest|);
    PickIsFirst(fwd, rest, |rest|);
    PrecedesLaws();
    forall m, t | 0 <= m < |rest| && 0 < t < |rest[m]| ensures rest[m][t] != k {
      assert Precedes(fwd, rest[m][0], rest[m][t]);
    }
  }

  /** A step against the direction loses exactly the first keys that come again nowhere; one of them is delivered. */
  lemma LostExactly(fwd: bool, deleted: set<Key>, pending: seq<seq<Key>>, x: Key)
    requires AllOrdered(fwd, pending)
    ensures var rest := DropAll(deleted, [], pending);
      Live(deleted, rest, x) && !Live(deleted, Beheaded(rest), x) <==> IsFirst(rest, x) && !ComesAgain(rest, x)
  {
    DropFinds(fwd, deleted, pending);
    LiveSplits(deleted, DropAll(deleted, [], pending), x);
  }

  /** Of the keys to come, only the delivered one is gone. */
  ghost predicate LosesNothing(deleted: set<Key>, rest: seq<seq<Key>>, k: Key)
  {
    forall x :: Live(deleted, Beheaded(rest), x) <==> Live(deleted, rest, x) && x != k
  }

  /** A step against the direction loses no key if and only if every first key is the delivered one or comes again. */
  lemma BeheadedIff(fwd: bool, deleted: set<Key>, pending: seq<seq<Key>>)
    requires AllOrdered(fwd, pending)
    ensures var rest := DropAll(deleted, [], pending);
      var k := Pick(fwd, rest, |rest|).1;
      LosesNothing(deleted, rest, k) <==>
      forall i :: 0 <= i < |rest| && rest[i] != [] ==> rest[i][0] == k || ComesAgain(rest, rest[i][0])
  {
    var rest := DropAll(deleted, [], pending);
    var (j, k) := Pick(fwd, rest, |rest|);
    DropFinds(fwd, deleted, pending);
    NearestOnce(fwd, deleted, rest);
    forall x
      ensures Live(deleted, Beheaded(rest), x) <==> x !in deleted && ComesAgain(rest, x)
      ensures Live(deleted, rest, x) <==> x !in deleted && (IsFirst(rest, x) || ComesAgain(rest, x))
    {
      LiveSplits(deleted, rest, x);
    }
    if LosesNothing(deleted, rest, k) {
      forall i | 0 <= i < |rest| && rest[i] != [] ensures rest[i][0] == k || ComesAgain(rest, rest[i][0]) {
        assert IsFirst(rest, rest[i][0]);
      }
    }
  }

  /** A key that only the farther source holds is passed over. */
  lemma KeyIsLost()
    ensures var pending: seq<seq<Key>> := [[[2]], [[1]]];
      var rest := DropAll({}, [], pending);
      && AllOrdered(true, pending) && Pick(true, rest, 2) == (1, [1])
      && Live({}, rest, [2]) && !Live({}, Beheaded(rest), [2])
  {
    var pending: seq<seq<Key>> := [[[2]], [[1]]];
    var rest := DropAll({}, [], pending);
    assert rest == pending;
    assert Less([1], [2]);
    assert [2] in rest[0];
    assert Beheaded(rest)[0] == [] && Beheaded(rest)[1] == [];
    assert Pick(true, rest, 1) == (0, [2]);
  }

  // ----- the sources that the others come from -----

  /** Every key that is left comes from the source it came from before. */
  ghost predicate KeepsSources(rest: seq<seq<Key>>)
  {
    forall i: int, x: Key :: FromFirst(Beheaded(rest), (i, x)) ==> FromFirst(rest, (i, x))
  }

  lemma {:induction false} FirstSource(pending: seq<seq<Key>>, m: nat, x: Key) returns (i: nat)
    requires m < |pending| && x in pending[m]
    ensures i <= m && x in pending[i] && forall h :: 0 <= h < i ==> x !in pending[h]
    decreases m
  {
    i := m;
    if h :| 0 <= h < m && x in pending[h] {
      i := FirstSource(pending, h, x);
    }
  }

  lemma OnceInOrder(fwd: bool, s: seq<Key>)
    requires Ordered(fwd, s) && s != []
    ensures s[0] !in s[1..]
  {
    PrecedesLaws();
    forall t | 0 < t < |s| ensures s[t] != s[0] {
      assert Precedes(fwd, s[0], s[t]);
    }
  }

  /** The sources stay right if and only if no first key comes again while its own source was the first to have it. */
  lemma KeepsSourcesIff(fwd: bool, deleted: set<Key>, pending: seq<seq<Key>>)
    requires AllOrdered(fwd, pending)
    ensures var rest := DropAll(deleted, [], pending);
      KeepsSources(rest) <==>
      forall i :: 0 <= i < |rest| && rest[i] != [] && ComesAgain(rest, rest[i][0]) ==>
                    exists h :: 0 <= h < i && rest[i][0] in rest[h]
  {
    var rest := DropAll(deleted, [], pending);
    DropFinds(fwd, deleted, pending);
    if KeepsSources(rest) {
      forall i | 0 <= i < |rest| && rest[i] != [] && ComesAgain(rest, rest[i][0])
        ensures exists h :: 0 <= h < i && rest[i][0] in rest[h]
      {
        EarlierSource(fwd, deleted, rest, i);
      }
    } else {
      var i: int, x: Key :| FromFirst(Beheaded(rest), (i, x)) && !FromFirst(rest, (i, x));
      assert x in rest[i];
      var g :| 0 <= g < i && x in rest[g];
      var h := FirstSource(rest, g, x);
      assert x !in Beheaded(rest)[h];
      assert rest[h][0] == x && ComesAgain(rest, rest[h][0]);
    }
  }

  lemma EarlierSource(fwd: bool, deleted: set<Key>, rest: seq<seq<Key>>, i: nat)
    requires Found(fwd, deleted, rest) && KeepsSources(rest)
    requires i < |rest| && rest[i] != [] && ComesAgain(rest, rest[i][0])
    ensures exists h :: 0 <= h < i && rest[i][0] in rest[h]
  {
    var x := rest[i][0];
    var m :| 0 <= m < |rest| && x in Beheaded(rest)[m];
    var h := FirstSource(Beheaded(rest), m, x);
    assert FromFirst(Beheaded(rest), (h, x));
    assert FromFirst(rest, (h, x));
    OnceInOrder(fwd, rest[i]);
    assert x in rest[i] && h != i;
  }

  /** A key that the first source held comes from the second one afterwards, with the value there. */
  lemma SourceChanges()
    ensures var pending: seq<seq<Key>> := [[[2], [3]], [[1], [2]]];
      var rest := DropAll({}, [], pending);
      && AllOrdered(true, pending) && Pick(true, rest, 2) == (1, [1])
      && FromFirst(rest, (0, [2])) && FromFirst(Beheaded(rest), (1, [2]))
  {
    var pending: seq<seq<Key>> := [[[2], [3]], [[1], [2]]];
    var rest := DropAll({}, [], pending);
    assert rest == pending;
    assert Less([1], [2]) && Less([2], [3]);
    assert Beheaded(rest)[0] == [[3]] && Beheaded(rest)[1] == [[2]];
    assert Pick(true, rest, 1) == (0, [2]);
    assert [2] in rest[0];
  }

  // ----- turning back -----

  /** What is left of every source ends its listing. */
  ghost predicate AreEnds(fwd: bool, listings: seq<seq<Entry>>, rest: seq<seq<Key>>)
  {
    && |rest| == |listings|
    && forall i :: 0 <= i < |rest| ==> IsEnd(InOrder(fwd, listings[i]), rest[i])
  }

  ghost predicate IsEnd(all: seq<Key>, s: seq<Key>) { |s| <= |all| && all[|all| - |s|..] == s }

  lemma {:induction false} DropIsEnd(deleted: set<Key>, all: seq<Key>, s: seq<Key>)
    requires IsEnd(all, s)
    ensures IsEnd(all, DropSkipped(deleted, [], s))
  {
    if s != [] && Skipped(deleted, [], s[0]) {
      assert all[|all| - |s[1..]|..] == all[|all| - |s|..][1..];
      DropIsEnd(deleted, all, s[1..]);
    }
  }

  lemma AheadIsEnd(fwd: bool, c: Cursor)
    requires c.Valid()
    ensures IsEnd(InOrder(fwd, c.entries), c.Ahead(fwd))
  {
    if fwd { EndForward(KeysOf(c.entries), c.pos); } else { EndBackward(KeysOf(c.entries), c.pos); }
  }

  lemma EndForward(ks: seq<Key>, pos: int)
    requires -1 <= pos <= |ks|
    ensures IsEnd(ks, if pos < |ks| then ks[pos + 1..] else [])
  {
  }

  lemma EndBackward(ks: seq<Key>, pos: int)
    requires -1 <= pos <= |ks|
    ensures IsEnd(Reversed(ks), if pos >= 0 then Reversed(ks[..pos]) else [])
  {
    if pos >= 0 { ReversedEnd(ks, pos); }
  }

  lemma ReversedEnd(ks: seq<Key>, p: nat)
    requires p <= |ks|
    ensures Reversed(ks)[|ks| - p..] == Reversed(ks[..p])
  {
  }

  lemma Opposite(dir: bool, a: Key, b: Key)
    ensures Precedes(!dir, a, b) ==> a != b && !Precedes(dir, a, b)
  {
    LessTotal(a, b);
  }

  /** What a step finds ends the listings, for every iterator. */
  lemma FoundAreEnds(fwd: bool, deleted: set<Key>, sources: seq<Source>)
    requires forall i :: 0 <= i < |sources| ==> sources[i].Valid()
    ensures AreEnds(fwd, Listings(sources), DropAll(deleted, [], AllAhead(fwd, sources)))
  {
    forall i | 0 <= i < |sources|
      ensures IsEnd(InOrder(fwd, Listings(sources)[i]), DropAll(deleted, [], AllAhead(fwd, sources))[i])
    {
      AheadIsEnd(fwd, sources[i].cursor);
      DropIsEnd(deleted, InOrder(fwd, sources[i].cursor.entries), sources[i].cursor.Ahead(fwd));
    }
  }

  /** The keys that are not deleted come, in direction `dir`, at or after `k`. */
  ghost predicate NoneBefore(dir: bool, deleted: set<Key>, s: seq<Key>, k: Key)
  {
    forall x :: x in s && x !in deleted ==> x == k || Precedes(dir, k, x)
  }

  lemma InOrderOrdered(dir: bool, entries: seq<Entry>)
    requires Sorted(entries)
    ensures Ordered(dir, InOrder(dir, entries))
  {
    if !dir {
      var ks := KeysOf(entries);
      forall i, j | 0 <= i < j < |ks| ensures Precedes(false, Reversed(ks)[i], Reversed(ks)[j]) {
        assert Precedes(true, ks[|ks| - 1 - j], ks[|ks| - 1 - i]);
      }
    }
  }

  lemma InOrderBackwards(dir: bool, entries: seq<Entry>, i: nat)
    requires i < |entries|
    ensures InOrder(dir, entries)[i] == InOrder(!dir, entries)[|entries| - 1 - i]
  {
  }

  lemma RewoundFrom(dir: bool, entries: seq<Entry>, rest: seq<Key>, delivered: bool, pending: seq<Key>)
    requires Sorted(entries) && IsEnd(InOrder(!dir, entries), rest) && rest != []
    requires RewoundSource(dir, entries, rest, delivered, pending)
    ensures forall x :: x in pending ==> x == rest[0] || Precedes(dir, rest[0], x)
    ensures !delivered ==> rest[0] in pending
  {
    var all := InOrder(dir, entries);
    var n := |rest| - 1;
    InOrderOrdered(dir, entries);
    InOrderBackwards(dir, entries, n);
    assert all[n] == rest[0];
    forall t | n < t < |all| ensures Precedes(dir, all[n], all[t]) {
    }
    if !delivered {
      assert pending[0] == all[n];
    }
  }

  /**
   After one step against the direction that delivered `k`, a step back in the iterator's own direction `dir` finds
   nothing before `k` if and only if every other source stands at `k` too, or has run out and holds nothing before it.
   */
  lemma TurnBackIff(dir: bool, deleted: set<Key>, listings: seq<seq<Entry>>, rest: seq<seq<Key>>,
                    pending: seq<seq<Key>>)
    requires AllSorted(listings) && AreEnds(!dir, listings, rest) && Found(!dir, deleted, rest)
    requires var (j, _) := Pick(!dir, rest, |rest|); j >= 0 && Rewound(dir, listings, rest, j, pending)
    ensures var (j, k) := Pick(!dir, rest, |rest|);
      (forall i :: 0 <= i < |pending| ==> NoneBefore(dir, deleted, pending[i], k)) <==>
      forall i :: 0 <= i < |rest| && i != j ==>
                    if rest[i] == [] then NoneBefore(dir, deleted, InOrder(dir, listings[i]), k) else rest[i][0] == k
  {
    var (j, k) := Pick(!dir, rest, |rest|);
    forall i | 0 <= i < |rest|
      ensures i == j ==> NoneBefore(dir, deleted, pending[i], k)
      ensures i != j ==> (NoneBefore(dir, deleted, pending[i], k) <==>
                          if rest[i] == [] then NoneBefore(dir, deleted, InOrder(dir, listings[i]), k)
                          else rest[i][0] == k)
    {
      TurnBackSource(dir, deleted, listings, rest, pending, i);
    }
  }

  lemma TurnBackSource(dir: bool, deleted: set<Key>, listings: seq<seq<Entry>>, rest: seq<seq<Key>>,
                       pending: seq<seq<Key>>, i: nat)
    requires AllSorted(listings) && AreEnds(!dir, listings, rest) && Found(!dir, deleted, rest) && i < |rest|
    requires var (j, _) := Pick(!dir, rest, |rest|); j >= 0 && Rewound(dir, listings, rest, j, pending)
    ensures var (j, k) := Pick(!dir, rest, |rest|);
      && (i == j ==> NoneBefore(dir, deleted, pending[i], k))
      && (i != j ==> (NoneBefore(dir, deleted, pending[i], k) <==>
                      if rest[i] == [] then NoneBefore(dir, deleted, InOrder(dir, listings[i]), k)
                      else rest[i][0] == k))
  {
    var (j, k) := Pick(!dir, rest, |rest|);
    assert Sorted(listings[i]) && IsEnd(InOrder(!dir, listings[i]), rest[i]);
    assert RewoundSource(dir, listings[i], rest[i], i == j, pending[i]);
    if rest[i] == [] {
      assert InOrder(dir, listings[i])[0..] == InOrder(dir, listings[i]);
    } else {
      RewoundFrom(dir, listings[i], rest[i], i == j, pending[i]);
      FirstKeys(!dir, deleted, rest, i);
      Opposite(dir, k, rest[i][0]);
      if i != j && rest[i][0] != k {
        assert rest[i][0] in pending[i] && !(rest[i][0] == k || Precedes(dir, k, rest[i][0]));
      }
    }
  }

  lemma FirstKeys(fwd: bool, deleted: set<Key>, rest: seq<seq<Key>>, i: nat)
    requires Found(fwd, deleted, rest) && i < |rest| && rest[i] != []
    ensures var k := Pick(fwd, rest, |rest|).1; rest[i][0] == k || Precedes(fwd, k, rest[i][0])
    ensures rest[i][0] !in deleted
  {
    PickIsFirst(fwd, rest, |rest|);
  }

  // ----- a whole run against the direction -----

  lemma {:induction false} TotalBeheaded(rest: seq<seq<Key>>)
    ensures Total(Beheaded(rest)) <= Total(rest)
    ensures (exists i :: 0 <= i < |rest| && rest[i] != []) ==> Total(Beheaded(rest)) < Total(rest)
  {
    if rest != [] {
      assert Beheaded(rest)[1..] == Beheaded(rest[1..]);
      TotalBeheaded(rest[1..]);
      if i :| 0 < i < |rest| && rest[i] != [] { assert rest[1..][i - 1] != []; }
    }
  }

  /** Everything that steps against the direction deliver. */
  ghost function TurnYields(fwd: bool, deleted: set<Key>, pending: seq<seq<Key>>): seq<(int, Key)>
    decreases Total(pending)
  {
    var rest := DropAll(deleted, [], pending);
    var (j, k) := Pick(fwd, rest, |rest|);
    TotalDrop(deleted, [], pending);
    if j < 0 then [] else
      TotalBeheaded(rest);
      [(j, k)] + TurnYields(fwd, deleted, Beheaded(rest))
  }

  /** The keys of a source that are neither deleted nor empty. */
  function LiveSeq(deleted: set<Key>, s: seq<Key>): seq<Key>
  {
    if s == [] then []
    else (if Skipped(deleted, [], s[0]) then [] else [s[0]]) + LiveSeq(deleted, s[1..])
  }

  ghost function Lives(deleted: set<Key>, pending: seq<seq<Key>>): (r: seq<seq<Key>>)
    ensures |r| == |pending| && forall i :: 0 <= i < |r| ==> r[i] == LiveSeq(deleted, pending[i])
  {
    seq(|pending|, i requires 0 <= i < |pending| => LiveSeq(deleted, pending[i]))
  }

  lemma {:induction false} LiveSeqOf(deleted: set<Key>, s: seq<Key>)
    ensures var r := DropSkipped(deleted, [], s);
      LiveSeq(deleted, s) == if r == [] then [] else [r[0]] + LiveSeq(deleted, r[1..])
  {
    if s != [] && Skipped(deleted, [], s[0]) { LiveSeqOf(deleted, s[1..]); }
  }

  lemma {:induction false} LiveSeqHas(fwd: bool, deleted: set<Key>, s: seq<Key>)
    requires Ordered(fwd, s)
    ensures forall x :: x in LiveSeq(deleted, s) <==> x in s && !Skipped(deleted, [], x)
    ensures Ordered(fwd, LiveSeq(deleted, s))
  {
    if s != [] {
      LiveSeqHas(fwd, deleted, s[1..]);
      assert s == [s[0]] + s[1..];
      forall t | 0 <= t < |LiveSeq(deleted, s[1..])| ensures Precedes(fwd, s[0], LiveSeq(deleted, s[1..])[t]) {
        var x := LiveSeq(deleted, s[1..])[t];
        assert x in s[1..];
      }
    }
  }

  /** The sources without the first `t` keys of each. */
  ghost function Rows(lives: seq<seq<Key>>, t: nat): (r: seq<seq<Key>>)
    ensures |r| == |lives| && forall i :: 0 <= i < |r| ==> r[i] == RowOf(lives[i], t)
  {
    seq(|lives|, i requires 0 <= i < |lives| => RowOf(lives[i], t))
  }

  ghost function RowOf(s: seq<Key>, t: nat): seq<Key> { if t < |s| then s[t..] else [] }

  /** The nearest of the keys that are `t`-th in their sources, and the first source that has it there. */
  ghost function RowPick(fwd: bool, lives: seq<seq<Key>>, t: nat): (int, Key)
  {
    Pick(fwd, Rows(lives, t), |lives|)
  }

  lemma {:induction false} PickHeads(fwd: bool, a: seq<seq<Key>>, b: seq<seq<Key>>, n: nat)
    requires n <= |a| == |b|
    requires forall i :: 0 <= i < n ==> (a[i] == [] <==> b[i] == []) && (a[i] != [] ==> a[i][0] == b[i][0])
    ensures Pick(fwd, a, n) == Pick(fwd, b, n)
  {
    if n > 0 { PickHeads(fwd, a, b, n - 1); }
  }

  lemma FirstRow(fwd: bool, deleted: set<Key>, pending: seq<seq<Key>>)
    ensures var rest := DropAll(deleted, [], pending);
      RowPick(fwd, Lives(deleted, pending), 0) == Pick(fwd, rest, |rest|)
  {
    var rest, lives := DropAll(deleted, [], pending), Lives(deleted, pending);
    forall i | 0 <= i < |rest|
      ensures (Rows(lives, 0)[i] == [] <==> rest[i] == []) && (rest[i] != [] ==> Rows(lives, 0)[i][0] == rest[i][0])
    {
      LiveSeqOf(deleted, pending[i]);
    }
    PickHeads(fwd, Rows(lives, 0), rest, |rest|);
  }

  lemma LaterRow(fwd: bool, deleted: set<Key>, pending: seq<seq<Key>>, t: nat)
    ensures RowPick(fwd, Lives(deleted, Beheaded(DropAll(deleted, [], pending))), t) ==
            RowPick(fwd, Lives(deleted, pending), t + 1)
  {
    LaterRows(deleted, pending, t);
  }

  lemma LaterRows(deleted: set<Key>, pending: seq<seq<Key>>, t: nat)
    ensures Rows(Lives(deleted, Beheaded(DropAll(deleted, [], pending))), t) == Rows(Lives(deleted, pending), t + 1)
  {
    var rest, lives := DropAll(deleted, [], pending), Lives(deleted, pending);
    var later := Lives(deleted, Beheaded(rest));
    forall i | 0 <= i < |rest| ensures RowOf(later[i], t) == RowOf(lives[i], t + 1) {
      LiveSeqOf(deleted, pending[i]);
      if rest[i] != [] { RowOfTail(rest[i][0], later[i], t); }
    }
  }

  lemma RowOfTail(x: Key, s: seq<Key>, t: nat)
    ensures RowOf([x] + s, t + 1) == RowOf(s, t)
  {
  }

  /**
   What the `t`-th step against the direction delivers: the nearest of the keys that are `t`-th among the live ones of
   their sources. It goes on as long as some source has that many.
   */
  lemma {:induction false} TurnRunAt(fwd: bool, deleted: set<Key>, pending: seq<seq<Key>>, t: nat)
    ensures DeliversAt(TurnYields(fwd, deleted, pending), t, RowPick(fwd, Lives(deleted, pending), t))
    decreases t
  {
    if t == 0 {
      TurnFirst(fwd, deleted, pending);
    } else {
      TurnRunAt(fwd, deleted, Beheaded(DropAll(deleted, [], pending)), t - 1);
      TurnLater(fwd, deleted, pending, t - 1);
    }
  }

  lemma TurnLater(fwd: bool, deleted: set<Key>, pending: seq<seq<Key>>, t: nat)
    requires var next := Beheaded(DropAll(deleted, [], pending));
      DeliversAt(TurnYields(fwd, deleted, next), t, RowPick(fwd, Lives(deleted, next), t))
    ensures DeliversAt(TurnYields(fwd, deleted, pending), t + 1, RowPick(fwd, Lives(deleted, pending), t + 1))
  {
    var next := Beheaded(DropAll(deleted, [], pending));
    TurnFirst(fwd, deleted, pending);
    NoRow(fwd, Lives(deleted, pending), t + 1);
    LaterRow(fwd, deleted, pending, t);
    DeliversLater(TurnYields(fwd, deleted, pending), RowPick(fwd, Lives(deleted, pending), 0),
                  TurnYields(fwd, deleted, next), t, RowPick(fwd, Lives(deleted, pending), t + 1));
  }

  /** The delivery at `t` is the given one, and there is none if that has no source. */
  ghost predicate DeliversAt(y: seq<(int, Key)>, t: nat, r: (int, Key))
  {
    (t < |y| <==> r.0 >= 0) && (t < |y| ==> y[t] == r)
  }

  lemma DeliversLater(y: seq<(int, Key)>, first: (int, Key), later: seq<(int, Key)>, t: nat, r: (int, Key))
    requires y == if first.0 < 0 then [] else [first] + later
    requires first.0 < 0 ==> r.0 < 0
    requires DeliversAt(later, t, r)
    ensures DeliversAt(y, t + 1, r)
  {
  }

  lemma TurnFirst(fwd: bool, deleted: set<Key>, pending: seq<seq<Key>>)
    ensures var y, r := TurnYields(fwd, deleted, pending), RowPick(fwd, Lives(deleted, pending), 0);
      y == if r.0 < 0 then [] else [r] + TurnYields(fwd, deleted, Beheaded(DropAll(deleted, [], pending)))
  {
    FirstRow(fwd, deleted, pending);
  }

  lemma NoRow(fwd: bool, lives: seq<seq<Key>>, t: nat)
    ensures RowPick(fwd, lives, 0).0 < 0 ==> RowPick(fwd, lives, t).0 < 0
  {
    if RowPick(fwd, lives, 0).0 < 0 { NoRows(fwd, lives, t); }
  }

  lemma NoRows(fwd: bool, lives: seq<seq<Key>>, t: nat)
    requires RowPick(fwd, lives, 0).0 < 0
    ensures RowPick(fwd, lives, t).0 < 0
  {
    assert forall i :: 0 <= i < |lives| ==> Rows(lives, 0)[i] == [];
    assert forall i :: 0 <= i < |lives| ==> lives[i] == [] && Rows(lives, t)[i] == [];
  }

  /** Every source is in order and has no empty key. */
  ghost predicate LiveRows(fwd: bool, lives: seq<seq<Key>>)
  {
    AllOrdered(fwd, lives) && forall i, t :: 0 <= i < |lives| && 0 <= t < |lives[i]| ==> lives[i][t] != []
  }

  lemma LivesAreRows(fwd: bool, deleted: set<Key>, pending: seq<seq<Key>>)
    requires AllOrdered(fwd, pending)
    ensures LiveRows(fwd, Lives(deleted, pending))
  {
    var lives := Lives(deleted, pending);
    forall i | 0 <= i < |lives| ensures Ordered(fwd, lives[i]) && [] !in lives[i] {
      LiveSeqHas(fwd, deleted, pending[i]);
    }
    forall i, t | 0 <= i < |lives| && 0 <= t < |lives[i]| ensures lives[i][t] != [] {
      assert lives[i][t] in lives[i];
    }
  }

  lemma RowHas(fwd: bool, lives: seq<seq<Key>>, t: nat)
    ensures var (j, k) := RowPick(fwd, lives, t); j >= 0 ==> j < |lives| && t < |lives[j]| && lives[j][t] == k
  {
  }

  lemma RowNearest(fwd: bool, lives: seq<seq<Key>>, i: nat, t: nat)
    requires LiveRows(fwd, lives) && i < |lives| && t < |lives[i]|
    ensures var (j, k) := RowPick(fwd, lives, t);
      && 0 <= j < |lives| && t < |lives[j]| && k == lives[j][t]
      && (lives[i][t] == k || Precedes(fwd, k, lives[i][t]))
  {
    var rows := Rows(lives, t);
    assert rows[i][0] == lives[i][t];
    forall h | 0 <= h < |rows| && rows[h] != [] ensures rows[h][0] != [] {
      assert rows[h][0] == lives[h][t];
    }
    PickIsFirst(fwd, rows, |rows|);
  }

  /** The nearest keys of earlier rows come before every key of a later one. */
  lemma RowsAscend(fwd: bool, lives: seq<seq<Key>>, s: nat, i: nat, t: nat)
    requires LiveRows(fwd, lives) && i < |lives| && s < t < |lives[i]|
    ensures RowPick(fwd, lives, s).0 >= 0 && Precedes(fwd, RowPick(fwd, lives, s).1, lives[i][t])
  {
    RowNearest(fwd, lives, i, s);
    assert Precedes(fwd, lives[i][s], lives[i][t]);
    PrecedesLaws();
  }

  /** A run against the direction is in order, and delivers live keys only. */
  lemma TurnRunOrdered(fwd: bool, deleted: set<Key>, pending: seq<seq<Key>>)
    requires AllOrdered(fwd, pending)
    ensures var y := TurnYields(fwd, deleted, pending);
      Ordered(fwd, YieldedKeys(y)) && forall t :: 0 <= t < |y| ==> Live(deleted, pending, y[t].1) && y[t].1 != []
  {
    var y, lives := TurnYields(fwd, deleted, pending), Lives(deleted, pending);
    LivesAreRows(fwd, deleted, pending);
    forall t | 0 <= t < |y|
      ensures Live(deleted, pending, y[t].1) && y[t].1 != []
      ensures forall s :: 0 <= s < t ==> Precedes(fwd, y[s].1, y[t].1)
    {
      TurnRunAt(fwd, deleted, pending, t);
      var j := y[t].0;
      RowHas(fwd, lives, t);
      LiveSeqHas(fwd, deleted, pending[j]);
      assert lives[j][t] in lives[j];
      forall s | 0 <= s < t ensures Precedes(fwd, y[s].1, y[t].1) {
        TurnRunAt(fwd, deleted, pending, s);
        RowsAscend(fwd, lives, s, j, t);
      }
    }
  }

  /** The key is `u`-th in some source, for a `u` after `t`. */
  ghost predicate InLaterRow(lives: seq<seq<Key>>, t: nat, x: Key)
  {
    exists m, u :: 0 <= m < |lives| && t < u < |lives[m]| && lives[m][u] == x
  }

  /** Every key is the nearest of its row, or comes again in a later one. */
  ghost predicate Aligned(fwd: bool, lives: seq<seq<Key>>)
  {
    forall i, t :: 0 <= i < |lives| && 0 <= t < |lives[i]| ==>
                     lives[i][t] == RowPick(fwd, lives, t).1 || InLaterRow(lives, t, lives[i][t])
  }

  lemma {:induction false} AlignedIsDelivered(fwd: bool, deleted: set<Key>, pending: seq<seq<Key>>, i: nat, t: nat,
                                              bound: nat)
    requires var lives := Lives(deleted, pending);
      && LiveRows(fwd, lives) && Aligned(fwd, lives) && i < |lives| && t < |lives[i]|
      && forall h :: 0 <= h < |lives| ==> |lives[h]| <= bound
    ensures Lives(deleted, pending)[i][t] in YieldedKeys(TurnYields(fwd, deleted, pending))
    decreases bound - t
  {
    var lives, y := Lives(deleted, pending), TurnYields(fwd, deleted, pending);
    var x := lives[i][t];
    if x == RowPick(fwd, lives, t).1 {
      RowNearest(fwd, lives, i, t);
      TurnRunAt(fwd, deleted, pending, t);
      assert YieldedKeys(y)[t] == x;
    } else {
      var m, u :| 0 <= m < |lives| && t < u < |lives[m]| && lives[m][u] == x;
      AlignedIsDelivered(fwd, deleted, pending, m, u, bound);
    }
  }

  lemma DeliveredIsAligned(fwd: bool, deleted: set<Key>, pending: seq<seq<Key>>, i: nat, t: nat)
    requires var lives := Lives(deleted, pending); LiveRows(fwd, lives) && i < |lives| && t < |lives[i]|
    requires Lives(deleted, pending)[i][t] in YieldedKeys(TurnYields(fwd, deleted, pending))
    ensures var lives := Lives(deleted, pending);
      lives[i][t] == RowPick(fwd, lives, t).1 || InLaterRow(lives, t, lives[i][t])
  {
    var lives, y := Lives(deleted, pending), TurnYields(fwd, deleted, pending);
    var x := lives[i][t];
    var s :| 0 <= s < |y| && YieldedKeys(y)[s] == x;
    TurnRunAt(fwd, deleted, pending, s);
    AlignedAt(fwd, lives, i, t, s);
  }

  lemma AlignedAt(fwd: bool, lives: seq<seq<Key>>, i: nat, t: nat, s: nat)
    requires LiveRows(fwd, lives) && i < |lives| && t < |lives[i]|
    requires RowPick(fwd, lives, s).0 >= 0 && RowPick(fwd, lives, s).1 == lives[i][t]
    ensures lives[i][t] == RowPick(fwd, lives, t).1 || InLaterRow(lives, t, lives[i][t])
  {
    RowHas(fwd, lives, s);
    if s < t {
      RowsAscend(fwd, lives, s, i, t);
      LessTotal(lives[i][t], lives[i][t]);
    }
  }

  lemma {:induction false} LongestOf(lives: seq<seq<Key>>) returns (bound: nat)
    ensures forall h :: 0 <= h < |lives| ==> |lives[h]| <= bound
  {
    bound := 0;
    if lives != [] {
      var b := LongestOf(lives[1..]);
      bound := if b < |lives[0]| then |lives[0]| else b;
      forall h | 0 <= h < |lives| ensures |lives[h]| <= bound {
        if h > 0 { assert lives[h] == lives[1..][h - 1]; }
      }
    }
  }

  /** A run against the direction delivers every live non-empty key if and only if the sources are aligned. */
  lemma TurnRunExactIff(fwd: bool, deleted: set<Key>, pending: seq<seq<Key>>)
    requires AllOrdered(fwd, pending)
    ensures (forall x :: x != [] && Live(deleted, pending, x) ==> x in YieldedKeys(TurnYields(fwd, deleted, pending)))
            <==>
            Aligned(fwd, Lives(deleted, pending))
  {
    var lives, keys := Lives(deleted, pending), YieldedKeys(TurnYields(fwd, deleted, pending));
    LivesAreRows(fwd, deleted, pending);
    if Aligned(fwd, lives) {
      var bound := LongestOf(lives);
      forall x | x != [] && Live(deleted, pending, x) ensures x in keys {
        var i :| 0 <= i < |pending| && x in pending[i];
        LiveSeqHas(fwd, deleted, pending[i]);
        var t :| 0 <= t < |lives[i]| && lives[i][t] == x;
        AlignedIsDelivered(fwd, deleted, pending, i, t, bound);
      }
    }
    if forall x :: x != [] && Live(deleted, pending, x) ==> x in keys {
      forall i, t | 0 <= i < |lives| && 0 <= t < |lives[i]|
        ensures lives[i][t] == RowPick(fwd, lives, t).1 || InLaterRow(lives, t, lives[i][t])
      {
        LiveSeqHas(fwd, deleted, pending[i]);
        assert lives[i][t] in lives[i];
        assert Live(deleted, pending, lives[i][t]);
        DeliveredIsAligned(fwd, deleted, pending, i, t);
      }
    }
  }

  lemma OneMoreTurn(fwd: bool, deleted: set<Key>, pending: seq<seq<Key>>, listings: seq<seq<Entry>>,
                    done: seq<(int, Key)>, j: int, k: Key)
    requires (j, k) == Pick(fwd, DropAll(deleted, [], pending), |pending|) && j >= 0
    ensures var after := Beheaded(DropAll(deleted, [], pending));
      && done + TurnYields(fwd, deleted, pending) == (done + [(j, k)]) + TurnYields(fwd, deleted, after)
      && EntriesOf(listings, done + [(j, k)]) == EntriesOf(listings, done) + [(k, ValueIn(listings, j, k))]
      && Total(after) < Total(pending)
  {
    var rest := DropAll(deleted, [], pending);
    TotalDrop(deleted, [], pending);
    TotalBeheaded(rest);
    EntriesSnoc(listings, done, j, k);
    Regroup(done, (j, k), TurnYields(fwd, deleted, Beheaded(rest)));
  }

  /** Stepping against the direction until the end yields exactly those entries. */
  method DrainAgainst(mi: Merged, fwd: bool) returns (out: seq<Entry>)
    requires mi.Ready(!fwd) && AllSorted(Listings(mi.sources))
    modifies mi
    ensures out == EntriesOf(old(Listings(mi.sources)), TurnYields(fwd, mi.deleted, AllAhead(fwd, old(mi.sources))))
  {
    out := [];
    ghost var listings := Listings(mi.sources);
    ghost var pending := AllAhead(fwd, mi.sources);
    ghost var all := TurnYields(fwd, mi.deleted, pending);
    ghost var done: seq<(int, Key)> := [];
    while true
      invariant mi.Ready(!fwd) && Listings(mi.sources) == listings && pending == AllAhead(fwd, mi.sources)
      invariant all == done + TurnYields(fwd, mi.deleted, pending)
      invariant out == EntriesOf(listings, done)
      decreases Total(pending)
    {
      var ok := mi.Step(fwd);
      if !ok {
        assert all == done;
        return;
      }
      OneMoreTurn(fwd, mi.deleted, pending, listings, done, mi.index, mi.prevKey);
      pending := AllAhead(fwd, mi.sources);
      done := done + [(mi.index, mi.prevKey)];
      var k := mi.Key();
      assert Sorted(listings[mi.index]);
      var v := mi.Value();
      out := out + [(k, v)];
    }
  }
}
