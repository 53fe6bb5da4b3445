/** Byte-string keys in the order of leveldb's default comparer, and sorted listings of them. */
module KeyOrder {
  import opened Opcodes

  type Key = seq<Byte>
  type Value = seq<Byte>
  type Entry = (Key, Value)

  /** Lexicographic order on bytes. */
  predicate Less(a: Key, b: Key)
  {
    b != [] && (a == [] || a[0] < b[0] || (a[0] == b[0] && Less(a[1..], b[1..])))
  }

  /** `a` is a proper beginning of `b`, or the first byte in which they differ is smaller in `a`. */
  ghost predicate Bytewise(a: Key, b: Key)
  {
    (a != b && a <= b) || exists i :: 0 <= i < |a| && i < |b| && a[..i] == b[..i] && a[i] < b[i]
  }

  lemma {:induction false} LessIff(a: Key, b: Key)
    ensures Less(a, b) <==> Bytewise(a, b)
  {
    if a != [] && b != [] {
      LessIff(a[1..], b[1..]);
      assert a == [a[0]] + a[1..] && b == [b[0]] + b[1..];
      if a[0] == b[0] {
        SameFirst(a, b);
      } else if a[0] < b[0] {
        assert a[..0] == b[..0];
      }
    }
  }

  lemma SameFirst(a: Key, b: Key)
    requires a != [] && b != [] && a[0] == b[0]
    ensures Bytewise(a, b) <==> Bytewise(a[1..], b[1..])
  {
    var a', b' := a[1..], b[1..];
    assert a == [a[0]] + a' && b == [b[0]] + b';
    if i :| 0 <= i < |a| && i < |b| && a[..i] == b[..i] && a[i] < b[i] {
      assert a'[..i - 1] == a[..i][1..] && b'[..i - 1] == b[..i][1..];
    }
    if i :| 0 <= i < |a'| && i < |b'| && a'[..i] == b'[..i] && a'[i] < b'[i] {
      assert a[..i + 1] == [a[0]] + a'[..i] && b[..i + 1] == [b[0]] + b'[..i];
    }
    if a' != b' && a' <= b' { assert b[..|a|] == [b[0]] + b'[..|a'|]; }
    if a != b && a <= b { assert b'[..|a'|] == b[..|a|][1..]; }
  }

  /** In bytewise order going forward, in the opposite order going backward. */
  ghost predicate InKeyOrder(fwd: bool, s: seq<Key>)
  {
    forall i, j :: 0 <= i < j < |s| ==> if fwd then Bytewise(s[i], s[j]) else Bytewise(s[j], s[i])
  }

  lemma LessTotal(a: Key, b: Key)
    ensures Less(a, b) || Less(b, a) || a == b
    ensures !(Less(a, b) && Less(b, a)) && !Less(a, a)
  {
    if a != [] && b != [] && a[0] == b[0] {
      LessTotal(a[1..], b[1..]);
      assert a == [a[0]] + a[1..] && b == [b[0]] + b[1..];
    }
    if a != [] { LessTotal(a[1..], a[1..]); }
  }

  lemma LessTransitive(a: Key, b: Key, c: Key)
    requires Less(a, b) && Less(b, c)
    ensures Less(a, c)
  {
    if a != [] && a[0] == b[0] && b[0] == c[0] {
      LessTransitive(a[1..], b[1..], c[1..]);
    }
  }

  /** `a` comes before `b` when iterating forwards (`fwd`) or backwards. */
  predicate Precedes(fwd: bool, a: Key, b: Key)
  {
    if fwd then Less(a, b) else Less(b, a)
  }

  lemma PrecedesLaws()
    ensures forall fwd, a, b :: Precedes(fwd, a, b) || Precedes(fwd, b, a) || a == b
    ensures forall fwd, a, b :: !(Precedes(fwd, a, b) && Precedes(fwd, b, a))
    ensures forall fwd, a, b, c :: Precedes(fwd, a, b) && Precedes(fwd, b, c) ==> Precedes(fwd, a, c)
  {
    forall fwd, a, b
      ensures Precedes(fwd, a, b) || Precedes(fwd, b, a) || a == b
      ensures !(Precedes(fwd, a, b) && Precedes(fwd, b, a))
    {
      LessTotal(a, b);
    }
    forall fwd, a, b, c | Precedes(fwd, a, b) && Precedes(fwd, b, c)
      ensures Precedes(fwd, a, c)
    {
      if fwd { LessTransitive(a, b, c); } else { LessTransitive(c, b, a); }
    }
  }

  ghost predicate Ordered(fwd: bool, s: seq<Key>)
  {
    forall i, j :: 0 <= i < j < |s| ==> Precedes(fwd, s[i], s[j])
  }

  lemma OrderedIff(fwd: bool, s: seq<Key>)
    ensures Ordered(fwd, s) <==> InKeyOrder(fwd, s)
  {
    forall i, j | 0 <= i < j < |s|
      ensures Precedes(fwd, s[i], s[j]) <==> if fwd then Bytewise(s[i], s[j]) else Bytewise(s[j], s[i])
    {
      LessIff(s[i], s[j]);
      LessIff(s[j], s[i]);
    }
  }

  function KeysOf(entries: seq<Entry>): (ks: seq<Key>)
    ensures |ks| == |entries| && forall i :: 0 <= i < |ks| ==> ks[i] == entries[i].0
  {
    seq(|entries|, i requires 0 <= i < |entries| => entries[i].0)
  }

  ghost predicate Sorted(entries: seq<Entry>)
  {
    Ordered(true, KeysOf(entries))
  }

  /** The map that a sorted listing stands for. */
  ghost function Contents(entries: seq<Entry>): (m: map<Key, Value>)
    ensures forall k :: k in m <==> k in KeysOf(entries)
    ensures Sorted(entries) ==> forall i :: 0 <= i < |entries| ==> entries[i].0 in m && m[entries[i].0] == entries[i].1
  {
    if entries == [] then map[]
    else
      var n := |entries| - 1;
      PrecedesLaws();
      assert KeysOf(entries) == KeysOf(entries[..n]) + [entries[n].0];
      Contents(entries[..n])[entries[n].0 := entries[n].1]
  }

  /** Two sorted listings of the same keys are the same. */
  lemma {:induction false} OrderedUnique(fwd: bool, a: seq<Key>, b: seq<Key>)
    requires Ordered(fwd, a) && Ordered(fwd, b)
    requires forall k :: k in a <==> k in b
    ensures a == b
  {
    PrecedesLaws();
    if a != [] && b != [] {
      assert a[0] in b && b[0] in a;
      assert a[0] == b[0];
      forall k ensures k in a[1..] <==> k in b[1..] {
        if k in a[1..] { assert k in a; assert k != a[0]; }
        if k in b[1..] { assert k in b; assert k != b[0]; }
      }
      OrderedUnique(fwd, a[1..], b[1..]);
    } else {
      HasMember(a);
      HasMember(b);
    }
  }

  lemma HasMember(s: seq<Key>)
    ensures s != [] ==> exists k :: k in s
  {
    if s != [] { assert s[0] in s; }
  }

  /** Index of the first entry whose key is not below `k`, as the leveldb Seek finds it. */
  method FirstAtOrAfter(entries: seq<Entry>, k: Key) returns (p: nat)
    ensures p <= |entries|
    ensures p == SeekPosition(entries, k)
  {
    p := 0;
    while p < |entries| && Less(entries[p].0, k)
      invariant p <= |entries|
      invariant SeekPosition(entries, k) == p + SeekPosition(entries[p..], k)
    {
      assert entries[p..][1..] == entries[p + 1..];
      p := p + 1;
    }
  }

  function SeekPosition(entries: seq<Entry>, k: Key): (p: nat)
    ensures p <= |entries|
  {
    if entries == [] || !Less(entries[0].0, k) then 0 else 1 + SeekPosition(entries[1..], k)
  }

  /** Everything from the seek position on is at or after the sought key, everything before is below it. */
  lemma {:induction false} SeekPositionSplits(entries: seq<Entry>, k: Key)
    requires Sorted(entries)
    ensures forall i :: 0 <= i < SeekPosition(entries, k) ==> Less(entries[i].0, k)
    ensures forall i :: SeekPosition(entries, k) <= i < |entries| ==> !Less(entries[i].0, k)
  {
    PrecedesLaws();
    if entries != [] {
      if Less(entries[0].0, k) {
        assert KeysOf(entries[1..]) == KeysOf(entries)[1..];
        SeekPositionSplits(entries[1..], k);
        assert forall i :: 0 < i < |entries| ==> entries[i] == entries[1..][i - 1];
      } else {
        forall i | 0 <= i < |entries| ensures !Less(entries[i].0, k) {
          NotLess(entries, k, i);
        }
      }
    }
  }

  lemma NotLess(entries: seq<Entry>, k: Key, i: nat)
    requires Sorted(entries) && i < |entries| && !Less(entries[0].0, k)
    ensures !Less(entries[i].0, k)
  {
    if i > 0 && Less(entries[i].0, k) {
      assert Precedes(true, KeysOf(entries)[0], KeysOf(entries)[i]);
      LessTransitive(entries[0].0, entries[i].0, k);
    }
  }
}
