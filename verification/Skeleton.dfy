/**
 The vote on the sync skeleton (net/skeleton.go): peers send lists of hash points, which are merged into a
 tree, and the branch that is heaviest at every fork is followed to its end. A node of the tree is named by
 the hashes on the path to it.
 */
module Skeleton {
  type Hash = nat
  type PeerId = nat
  type Path = seq<Hash>

  datatype Point = Point(hash: Hash, height: nat)
  datatype Branch = Branch(points: seq<Point>, peer: PeerId)
  datatype Node = Node(point: Point, peers: set<PeerId>)
  type Tree = map<Path, Node>

  function Hashes(points: seq<Point>): (r: Path)
    ensures |r| == |points|
  {
    seq(|points|, i requires 0 <= i < |points| => points[i].hash)
  }

  predicate Begins(b: Branch, path: Path) { path <= Hashes(b.points) }

  /** The peers that sent a list starting with the path. */
  function Voters(sent: seq<Branch>, path: Path): set<PeerId>
  {
    set b | b in sent && Begins(b, path) :: b.peer
  }

  /** A node exists exactly for the beginnings of sent lists, with exactly their senders, and a sent point. */
  ghost predicate NodeIs(tree: Tree, sent: seq<Branch>, path: Path)
  {
    && (path in tree <==> path != [] && exists b :: b in sent && Begins(b, path))
    && (path in tree ==>
          && tree[path].peers == Voters(sent, path)
          && exists b :: b in sent && Begins(b, path) && tree[path].point == b.points[|path| - 1])
  }

  ghost predicate Reflects(tree: Tree, sent: seq<Branch>)
  {
    forall path :: NodeIs(tree, sent, path)
  }

  lemma BeginsShorter(points: seq<Point>, n: nat, peer: PeerId, path: Path)
    requires n < |points|
    ensures Begins(Branch(points[..n + 1], peer), path) <==>
            Begins(Branch(points[..n], peer), path) || path == Hashes(points[..n + 1])
  {
    var longer, shorter := Hashes(points[..n + 1]), Hashes(points[..n]);
    assert longer[..n] == shorter;
    if path <= longer && |path| == n + 1 {
      assert path == longer;
    }
    if path <= shorter {
      assert path == longer[..|path|];
    }
  }

  lemma VotersOf(sent: seq<Branch>, b: Branch, path: Path)
    ensures Voters(sent + [b], path) == Voters(sent, path) + if Begins(b, path) then {b.peer} else {}
  {
    var all := sent + [b];
    forall p | p in Voters(sent, path) ensures p in Voters(all, path) {
      var c :| c in sent && Begins(c, path) && c.peer == p;
      assert c in all;
    }
    assert b in all;
  }

  /** A path begins some list of `sent + [b]`. */
  lemma AnyOf(sent: seq<Branch>, b: Branch, path: Path)
    ensures (exists c :: c in sent + [b] && Begins(c, path)) <==>
            (exists c :: c in sent && Begins(c, path)) || Begins(b, path)
  {
    assert b in sent + [b];
    if c :| c in sent && Begins(c, path) {
      assert c in sent + [b];
    }
  }

  function Visit(tree: Tree, path: Path, point: Point, sender: PeerId): Tree
  {
    if path in tree then tree[path := tree[path].(peers := tree[path].peers + {sender})]
    else tree[path := Node(point, {sender})]
  }

  lemma VisitOther(tree: Tree, sent: seq<Branch>, b: Branch, b': Branch, path: Path)
    requires NodeIs(tree, sent + [b], path) && b.peer == b'.peer
    requires Begins(b', path) <==> Begins(b, path)
    requires path != [] && Begins(b, path) ==> b'.points[|path| - 1] == b.points[|path| - 1]
    ensures NodeIs(tree, sent + [b'], path)
  {
    AnyOf(sent, b, path);
    AnyOf(sent, b', path);
    VotersOf(sent, b, path);
    VotersOf(sent, b', path);
    if path in tree {
      var c :| c in sent + [b] && Begins(c, path) && tree[path].point == c.points[|path| - 1];
      assert c in sent || c == b;
      assert b' in sent + [b'];
      if c in sent { assert c in sent + [b']; }
    }
  }

  lemma VisitPath(tree: Tree, sent: seq<Branch>, b: Branch, b': Branch, path: Path)
    requires NodeIs(tree, sent + [b], path) && b.peer == b'.peer && path != []
    requires !Begins(b, path) && Begins(b', path)
    ensures NodeIs(Visit(tree, path, b'.points[|path| - 1], b'.peer), sent + [b'], path)
  {
    var tree' := Visit(tree, path, b'.points[|path| - 1], b'.peer);
    AnyOf(sent, b, path);
    AnyOf(sent, b', path);
    VotersOf(sent, b, path);
    VotersOf(sent, b', path);
    assert b' in sent + [b'];
    if path in tree {
      var c :| c in sent + [b] && Begins(c, path) && tree[path].point == c.points[|path| - 1];
      assert c in sent + [b'];
      assert tree'[path].point == c.points[|path| - 1];
    } else {
      assert Voters(sent, path) == {};
    }
  }

  /** Visiting the node after the first `n` points turns a vote for `n` points into a vote for one more. */
  lemma VisitExtends(tree: Tree, sent: seq<Branch>, points: seq<Point>, n: nat, sender: PeerId)
    requires n < |points| && Reflects(tree, sent + [Branch(points[..n], sender)])
    ensures Reflects(Visit(tree, Hashes(points[..n + 1]), points[n], sender), sent + [Branch(points[..n + 1], sender)])
  {
    var b, b', here := Branch(points[..n], sender), Branch(points[..n + 1], sender), Hashes(points[..n + 1]);
    var tree' := Visit(tree, here, points[n], sender);
    forall path ensures NodeIs(tree', sent + [b'], path) {
      BeginsShorter(points, n, sender, path);
      assert NodeIs(tree, sent + [b], path);
      if path == here {
        VisitPath(tree, sent, b, b', path);
      } else {
        VisitOther(tree, sent, b, b', path);
        assert path in tree' <==> path in tree;
      }
    }
  }

  /** A vote for nothing changes nothing. */
  lemma EmptyVote(tree: Tree, sent: seq<Branch>, sender: PeerId)
    requires Reflects(tree, sent)
    ensures Reflects(tree, sent + [Branch([], sender)])
  {
    forall path ensures NodeIs(tree, sent + [Branch([], sender)], path) {
      assert NodeIs(tree, sent, path);
      AnyOf(sent, Branch([], sender), path);
      VotersOf(sent, Branch([], sender), path);
      if path in tree {
        var c :| c in sent && Begins(c, path) && tree[path].point == c.points[|path| - 1];
        assert c in sent + [Branch([], sender)];
      }
    }
  }

  // ----- the best branch -----

  function Children(tree: Tree, path: Path): set<Hash>
  {
    set p | p in tree && |p| == |path| + 1 && path <= p :: p[|path|]
  }

  lemma ChildrenAre(tree: Tree, path: Path, h: Hash)
    ensures h in Children(tree, path) <==> path + [h] in tree
  {
    if h in Children(tree, path) {
      var p :| p in tree && |p| == |path| + 1 && path <= p && p[|path|] == h;
      assert p == path + [h];
    }
    if path + [h] in tree {
      assert (path + [h])[|path|] == h && path <= path + [h];
    }
  }

  /** The path leads through the tree, and no other node has more peers than the one it takes after `i` steps. */
  ghost predicate BestStep(tree: Tree, path: Path, i: nat)
    requires i < |path|
  {
    && path[..i + 1] in tree
    && forall h :: path[..i] + [h] in tree ==> |tree[path[..i] + [h]].peers| <= |tree[path[..i + 1]].peers|
  }

  ghost predicate BestSteps(tree: Tree, path: Path)
  {
    forall i :: 0 <= i < |path| ==> BestStep(tree, path, i)
  }

  /** The path is heaviest at every fork and cannot be continued. */
  ghost predicate Best(tree: Tree, path: Path)
  {
    BestSteps(tree, path) && forall h :: path + [h] !in tree
  }

  lemma NextIsNode(tree: Tree, sent: seq<Branch>, path: Path, b: Branch)
    requires Reflects(tree, sent) && b in sent && Begins(b, path) && |path| < |b.points|
    ensures path + [b.points[|path|].hash] in tree
  {
    var next := path + [b.points[|path|].hash];
    assert next <= Hashes(b.points);
    assert NodeIs(tree, sent, next);
  }

  /** A list that begins with a path that cannot be continued ends with it. */
  lemma EndsThere(tree: Tree, sent: seq<Branch>, path: Path, b: Branch)
    requires Reflects(tree, sent) && b in sent && Begins(b, path) && forall h :: path + [h] !in tree
    ensures Hashes(b.points) == path
  {
    if |path| < |b.points| {
      NextIsNode(tree, sent, path, b);
      assert false;
    }
  }

  /** What is chosen is a whole list that some peer sent; only when no peer sent a point is it empty. */
  lemma BestIsSent(tree: Tree, sent: seq<Branch>, path: Path)
    requires Reflects(tree, sent) && Best(tree, path)
    ensures if path == [] then forall b :: b in sent ==> b.points == []
            else exists b :: b in sent && Hashes(b.points) == path
  {
    if path == [] {
      forall b | b in sent ensures b.points == [] { EndsThere(tree, sent, path, b); }
    } else {
      var n := |path|;
      assert BestStep(tree, path, n - 1) && path[..n] == path;
      assert NodeIs(tree, sent, path);
      var b :| b in sent && Begins(b, path);
      EndsThere(tree, sent, path, b);
    }
  }

  ghost predicate OneListEach(sent: seq<Branch>)
  {
    forall b, c :: b in sent && c in sent && b.peer == c.peer ==> b == c
  }

  lemma SubsetSize<T>(a: set<T>, b: set<T>)
    requires a <= b
    ensures |a| <= |b|
  {
    if a != {} {
      var x :| x in a;
      SubsetSize(a - {x}, b - {x});
    }
  }

  lemma CommonVoter(sent: seq<Branch>, p: Path, q: Path, x: PeerId)
    requires OneListEach(sent) && |p| == |q| && x in Voters(sent, p) && x in Voters(sent, q)
    ensures p == q
  {
    var b :| b in sent && Begins(b, p) && b.peer == x;
    var c :| c in sent && Begins(c, q) && c.peer == x;
    assert p == Hashes(b.points)[..|p|] && q == Hashes(c.points)[..|q|];
  }

  lemma ForksAreDisjoint(sent: seq<Branch>, p: Path, q: Path)
    requires OneListEach(sent) && |p| == |q| && p != q
    ensures |Voters(sent, p)| + |Voters(sent, q)| <= |Voters(sent, [])|
  {
    var a, b := Voters(sent, p), Voters(sent, q);
    if x :| x in a && x in b {
      CommonVoter(sent, p, q, x);
      assert false;
    }
    assert a !! b;
    VotersShrink(sent, [], p);
    VotersShrink(sent, [], q);
    SubsetSize(a + b, Voters(sent, []));
  }

  lemma VotersShrink(sent: seq<Branch>, p: Path, q: Path)
    requires p <= q
    ensures Voters(sent, q) <= Voters(sent, p)
  {
  }

  /** Below the root, whoever voted for a node voted for its parent. */
  lemma ParentsHaveTheirChildrensPeers(tree: Tree, sent: seq<Branch>, path: Path, h: Hash)
    requires Reflects(tree, sent) && path != [] && path + [h] in tree
    ensures path in tree && tree[path + [h]].peers <= tree[path].peers
  {
    assert NodeIs(tree, sent, path) && NodeIs(tree, sent, path + [h]);
    var b :| b in sent && Begins(b, path + [h]);
    assert Begins(b, path);
    VotersShrink(sent, path, path + [h]);
  }

  lemma {:induction false} FollowsMajority(tree: Tree, sent: seq<Branch>, path: Path, list: Path, i: nat)
    requires Reflects(tree, sent) && OneListEach(sent) && Best(tree, path)
    requires 2 * |Voters(sent, list)| > |Voters(sent, [])| && i <= |list|
    ensures i <= |path| && path[..i] == list[..i]
  {
    if i > 0 {
      var here, there := list[..i - 1], list[..i];
      FollowsMajority(tree, sent, path, list, i - 1);
      VotersShrink(sent, there, list);
      SubsetSize(Voters(sent, list), Voters(sent, there));
      assert here + [list[i - 1]] == there;
      assert NodeIs(tree, sent, there);
      assert there in tree by {
        var x :| x in Voters(sent, list);
        assert exists b :: b in sent && Begins(b, list) && b.peer == x;
      }
      assert path[..|path|] == path;
      if |path| == i - 1 {
        assert false;
      }
      assert BestStep(tree, path, i - 1);
      assert path[..i - 1] + [list[i - 1]] in tree;
      assert NodeIs(tree, sent, path[..i]);
      if path[..i] != there {
        ForksAreDisjoint(sent, path[..i], there);
        assert false;
      }
    }
  }

  /** When every peer sends one list and more than half of them agree on a beginning, the choice begins with it. */
  lemma MajorityWins(tree: Tree, sent: seq<Branch>, path: Path, list: Path)
    requires Reflects(tree, sent) && OneListEach(sent) && Best(tree, path)
    requires 2 * |Voters(sent, list)| > |Voters(sent, [])|
    ensures list <= path
  {
    FollowsMajority(tree, sent, path, list, |list|);
    assert list[..|list|] == list;
  }

  // ----- the tree -----

  ghost function Longest(sent: seq<Branch>): nat
  {
    if sent == [] then 0
    else
      var l, r := |sent[0].points|, Longest(sent[1..]);
      if l < r then r else l
  }

  lemma {:induction false} LongestIs(sent: seq<Branch>, b: Branch)
    requires b in sent
    ensures |b.points| <= Longest(sent)
  {
    if b != sent[0] { LongestIs(sent[1..], b); }
  }

  lemma DepthBound(tree: Tree, sent: seq<Branch>, path: Path)
    requires Reflects(tree, sent) && path in tree
    ensures |path| <= Longest(sent)
  {
    assert NodeIs(tree, sent, path);
    var b :| b in sent && Begins(b, path);
    LongestIs(sent, b);
  }

  lemma PointHash(tree: Tree, sent: seq<Branch>, path: Path)
    requires Reflects(tree, sent) && path in tree
    ensures path != [] && tree[path].point.hash == path[|path| - 1] && tree[path].peers != {}
  {
    assert NodeIs(tree, sent, path);
    var b :| b in sent && Begins(b, path) && tree[path].point == b.points[|path| - 1];
    assert Hashes(b.points)[|path| - 1] == path[|path| - 1];
    assert b.peer in Voters(sent, path);
  }

  lemma NonEmpty<T>(s: set<T>)
    requires s != {}
    ensures |s| > 0
  {
    var x :| x in s;
    SubsetSize({x}, s);
  }

  /** A child with the most peers; which one of several such is left open. */
  method Heaviest(tree: Tree, path: Path, ghost sent: seq<Branch>) returns (best: Hash)
    requires Reflects(tree, sent) && Children(tree, path) != {}
    ensures path + [best] in tree
    ensures forall h :: path + [h] in tree ==> |tree[path + [h]].peers| <= |tree[path + [best]].peers|
  {
    var rest, weight: nat := Children(tree, path), 0;
    best := 0;
    while rest != {}
      invariant rest <= Children(tree, path)
      invariant weight > 0 ==> path + [best] in tree && weight == |tree[path + [best]].peers|
      invariant forall h :: h in Children(tree, path) - rest ==>
                path + [h] in tree && |tree[path + [h]].peers| <= weight
      invariant weight == 0 ==> rest == Children(tree, path)
      decreases |rest|
    {
      var h :| h in rest;
      ChildrenAre(tree, path, h);
      PointHash(tree, sent, path + [h]);
      NonEmpty(tree[path + [h]].peers);
      if |tree[path + [h]].peers| > weight {
        weight := |tree[path + [h]].peers|;
        best := h;
      }
      rest := rest - {h};
    }
    forall h | path + [h] in tree ensures h in Children(tree, path) { ChildrenAre(tree, path, h); }
  }

  predicate PointAt(tree: Tree, path: Path, list: seq<Point>, i: nat)
  {
    i < |path| == |list| && path[..i + 1] in tree && tree[path[..i + 1]].point == list[i]
  }

  lemma ExtendPoints(tree: Tree, path: Path, list: seq<Point>, h: Hash, i: nat)
    requires path + [h] in tree && |path| == |list| && i <= |path| && (i < |path| ==> PointAt(tree, path, list, i))
    ensures PointAt(tree, path + [h], list + [tree[path + [h]].point], i)
  {
    var next := path + [h];
    if i < |path| { assert next[..i + 1] == path[..i + 1]; } else { assert next[..i + 1] == next; }
  }

  lemma ExtendBest(tree: Tree, path: Path, h: Hash)
    requires BestSteps(tree, path) && path + [h] in tree
    requires forall g :: path + [g] in tree ==> |tree[path + [g]].peers| <= |tree[path + [h]].peers|
    ensures BestSteps(tree, path + [h])
  {
    var next := path + [h];
    forall i | 0 <= i < |next| ensures BestStep(tree, next, i) {
      if i < |path| {
        assert BestStep(tree, path, i) && next[..i] == path[..i] && next[..i + 1] == path[..i + 1];
      } else {
        assert next[..i] == path && next[..i + 1] == next;
      }
    }
  }

  class HashHeightTree {
    var tree: Tree
    ghost var sent: seq<Branch>

    ghost predicate Valid()
      reads this
    {
      Reflects(tree, sent)
    }

    constructor ()
      ensures Valid() && sent == []
    {
      tree, sent := map[], [];
    }

    method AddBranch(points: seq<Point>, sender: PeerId)
      requires Valid()
      modifies this
      ensures Valid() && sent == old(sent) + [Branch(points, sender)]
    {
      EmptyVote(tree, sent, sender);
      var path: Path := [];
      assert points[..0] == [];
      for i := 0 to |points|
        invariant path == Hashes(points[..i]) && sent == old(sent)
        invariant Reflects(tree, sent + [Branch(points[..i], sender)])
      {
        VisitExtends(tree, sent, points, i, sender);
        path := path + [points[i].hash];
        assert path == Hashes(points[..i + 1]);
        tree := Visit(tree, path, points[i], sender);
      }
      assert points[..|points|] == points;
      sent := sent + [Branch(points, sender)];
    }

    method BestBranch() returns (list: seq<Point>)
      requires Valid()
      ensures Best(tree, Hashes(list))
      ensures forall i :: 0 <= i < |list| ==> PointAt(tree, Hashes(list), list, i)
    {
      list := [];
      var path: Path := [];
      while Children(tree, path) != {}
        invariant path == Hashes(list) && BestSteps(tree, path) && |path| <= Longest(sent)
        invariant forall i :: 0 <= i < |list| ==> PointAt(tree, path, list, i)
        decreases Longest(sent) - |path|
      {
        var h := Heaviest(tree, path, sent);
        var next := path + [h];
        DepthBound(tree, sent, next);
        PointHash(tree, sent, next);
        ExtendBest(tree, path, h);
        forall i | 0 <= i < |list| + 1 ensures PointAt(tree, next, list + [tree[next].point], i) {
          ExtendPoints(tree, path, list, h, i);
        }
        list := list + [tree[next].point];
        assert Hashes(list) == next;
        path := next;
      }
      forall h ensures path + [h] !in tree { ChildrenAre(tree, path, h); }
    }
  }
}
