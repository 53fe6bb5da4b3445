/**
 The sync planner (net/sync_cache_reader.go): cutting a skeleton of (height, hash) points into
 download tasks, and planning the downloads around the chunks that are already cached.
 */
module SyncPlanner {
  import opened Common

  type Hash = nat

  datatype Mark = Mark(height: nat, hash: Hash)
  datatype Point = Point(mark: Mark, size: nat)

  /** The heights from..to, with the hash of block `to` and of the block before `from`. */
  datatype Segment = Segment(from: nat, to: nat, hash: Hash, prevHash: Hash, points: seq<Mark>)

  const MAX_HEIGHTS := 2000
  const MAX_SIZE := 0x20_0000

  // ----- what a plan has to satisfy -----

  ghost predicate Ascending(list: seq<Point>)
  {
    forall i, j :: 0 <= i < j < |list| ==> list[i].mark.height < list[j].mark.height
  }

  ghost predicate OnList(list: seq<Point>, height: int, hash: Hash)
  {
    exists i :: 0 <= i < |list| && list[i].mark.height == height && list[i].mark.hash == hash
  }

  /** The segment hangs on two points of the list: its predecessor block and its last block. */
  ghost predicate Linked(list: seq<Point>, s: Segment)
  {
    OnList(list, s.from - 1, s.prevHash) && OnList(list, s.to, s.hash)
  }

  /** Number of segments that contain height `h`. */
  ghost function Count(ts: seq<Segment>, h: nat): nat
  {
    if ts == [] then 0 else (if ts[0].from <= h <= ts[0].to then 1 else 0) + Count(ts[1..], h)
  }

  ghost function Within(lo: nat, hi: nat, h: nat): nat
  {
    if lo < h <= hi then 1 else 0
  }

  lemma {:induction false} CountConcat(a: seq<Segment>, b: seq<Segment>, h: nat)
    ensures Count(a + b, h) == Count(a, h) + Count(b, h)
  {
    if a == [] {
      assert a + b == b;
    } else {
      assert (a + b)[1..] == a[1..] + b;
      CountConcat(a[1..], b, h);
    }
  }

  lemma CountSnoc(a: seq<Segment>, s: Segment, h: nat)
    ensures Count(a + [s], h) == Count(a, h) + if s.from <= h <= s.to then 1 else 0
  {
    CountConcat(a, [s], h);
  }

  /**
   Exact cover: every height of (lo, hi] lies in exactly one segment, and no other height in any.
   */
  ghost predicate ExactCover(ts: seq<Segment>, lo: nat, hi: nat)
  {
    forall h: nat :: Count(ts, h) == Within(lo, hi, h)
  }

  /** The sizes of the points above height `lo` and not above `hi`. */
  function SizeBetween(list: seq<Point>, lo: int, hi: int): nat
  {
    if list == [] then 0
    else
      var p := list[|list| - 1];
      SizeBetween(list[..|list| - 1], lo, hi) + if lo < p.mark.height <= hi then p.size else 0
  }

  /** No sum of sizes that the construction forms wraps around. */
  ghost predicate NoWrap(list: seq<Point>)
  {
    forall i :: 0 < i < |list| ==> list[i].size + MAX_SIZE < U64 && (i > 1 ==> list[i - 1].size + list[i].size < U64)
  }

  /** The segment is one step of the list. */
  ghost predicate OneStep(list: seq<Point>, s: Segment)
  {
    exists i :: 0 < i < |list| && list[i - 1].mark.height + 1 == s.from && list[i].mark.height == s.to
  }

  /** At most 2000 heights and 2 MB, unless the list itself makes the step that large. */
  ghost predicate Bounded(list: seq<Point>, s: Segment)
  {
    OneStep(list, s) ||
    (s.to < s.from + 2000 && (NoWrap(list) ==> SizeBetween(list, s.from - 1, s.to) <= 0x20_0000))
  }

  /** The segment together with point `k` would be too long or, with `extra` bytes more, too large. */
  ghost predicate Exceeds(list: seq<Point>, s: Segment, k: nat, extra: nat)
    requires k < |list|
  {
    || list[k].mark.height - s.from + 1 > 2000
    || extra + SizeBetween(list, s.from - 1, list[k].mark.height) > 0x20_0000
  }

  /** The next point of the list could not have been added. */
  ghost predicate CutNeeded(list: seq<Point>, s: Segment, extra: nat)
  {
    forall k :: 0 < k < |list| && list[k - 1].mark.height == s.to ==> Exceeds(list, s, k, extra)
  }

  /** The first step of the list alone is too long or too large. */
  ghost predicate OversizeFirst(list: seq<Point>)
  {
    |list| > 1 && (list[1].mark.height - list[0].mark.height > 2000 || list[1].size > 0x20_0000)
  }

  /** What is counted too much for task `j`: after a first step that is too large its size is counted again. */
  ghost function Extra(list: seq<Point>, j: nat): nat
  {
    if j == 1 && OversizeFirst(list) then list[1].size else 0
  }

  function MarksOf(points: seq<Point>): (r: seq<Mark>)
    ensures |r| == |points|
  {
    seq(|points|, i requires 0 <= i < |points| => points[i].mark)
  }

  /** The points `c` to `e` of the list; after a cut the predecessor comes first, and point `c` twice. */
  ghost predicate PointsFrom(list: seq<Point>, s: Segment, c: nat, e: nat)
    requires s.from > 0
  {
    c <= e < |list| && s.points == PointsBefore(list, s, c) + MarksOf(list[c..e + 1])
  }

  function PointsBefore(list: seq<Point>, s: Segment, c: nat): seq<Mark>
    requires s.from > 0 && c < |list|
  {
    if c == 0 then [] else [Mark(s.from - 1, s.prevHash), list[c].mark]
  }

  ghost predicate HasPoints(list: seq<Point>, s: Segment)
    requires s.from > 0
  {
    exists c: nat, e: nat :: PointsFrom(list, s, c, e) && list[e].mark.height == s.to
  }

  ghost predicate GoodTasks(list: seq<Point>, ts: seq<Segment>)
  {
    forall t :: t in ts ==> Linked(list, t) && Bounded(list, t) && 1 <= t.from <= t.to + 1
  }

  // ----- constructTasks -----

  /** The segment under construction ends at point `i` of the list and continues a plan up to `s.from - 1`. */
  ghost predicate Open(list: seq<Point>, i: nat, s: Segment)
  {
    i < |list| && s.to == list[i].mark.height && s.hash == list[i].mark.hash &&
    1 <= s.from <= s.to + 1 && Linked(list, s) && Bounded(list, s)
  }

  /**
   What the construction has established before point `i`: a plan up to the open segment, which is none at the start.
   */
  ghost predicate Building(list: seq<Point>, i: nat, ts: seq<Segment>, seg: Segment, hasChunk: bool)
  {
    && 0 < i <= |list| && Ascending(list) && GoodTasks(list, ts)
    && seg.from > 0 && OnList(list, seg.from - 1, seg.prevHash) && list[0].mark.height < seg.from
    && ExactCover(ts, list[0].mark.height, seg.from - 1)
    && (hasChunk <==> i > 1)
    && (if hasChunk then Open(list, i - 1, seg) else seg.from == list[0].mark.height + 1 && ts == [])
  }

  /** The counted size of the open segment, and that every cut so far was needed by what was counted. */
  ghost predicate Weighed(list: seq<Point>, i: nat, ts: seq<Segment>, seg: Segment, size: nat)
    requires 0 < i <= |list|
  {
    && (if i == 1 then size == 0 && ts == []
        else && size == Extra(list, |ts|) + SizeBetween(list, seg.from - 1, list[i - 1].mark.height)
             && (size <= MAX_SIZE || Alone(list, i, |ts|, seg, size)))
    && (forall j :: 0 <= j < |ts| ==> CutNeeded(list, ts[j], Extra(list, j)))
    && (OversizeFirst(list) && i > 1 ==>
          |ts| > 0 && if |ts| == 1 then seg.from == list[1].mark.height + 1 else Recounts(list, ts[1]))
  }

  /** The open segment is the last step alone, or nothing yet after a first step that was too large. */
  ghost predicate Alone(list: seq<Point>, i: nat, n: nat, seg: Segment, size: nat)
    requires 1 < i <= |list|
  {
    && size == list[i - 1].size
    && seg.from == list[if n == 1 && OversizeFirst(list) then i - 1 else i - 2].mark.height + 1
  }

  /** What is planned after a first step that is too large: it is empty, or small enough together with that step. */
  ghost predicate Recounts(list: seq<Point>, s: Segment)
    requires |list| > 1
  {
    var h := list[1].mark.height;
    s.from == h + 1 && (s.to == h || list[1].size + SizeBetween(list, h, s.to) <= MAX_SIZE)
  }

  /** Some points fit one task, but not when the size of the first step is counted again. */
  ghost predicate Recounted(list: seq<Point>)
  {
    && OversizeFirst(list)
    && exists k :: 1 < k < |list| && list[k].mark.height - list[1].mark.height <= MAX_HEIGHTS
                   && SizeBetween(list, list[1].mark.height, list[k].mark.height) <= MAX_SIZE
                      < list[1].size + SizeBetween(list, list[1].mark.height, list[k].mark.height)
  }

  /** All tasks but the last could not have been larger. */
  ghost predicate AllCutsNeeded(list: seq<Point>, ts: seq<Segment>)
  {
    forall j :: 0 <= j < |ts| - 1 ==> CutNeeded(list, ts[j], 0)
  }

  /** What the construction has established before point `i`, the open segment having begun at point `c`. */
  ghost predicate Constructing(list: seq<Point>, i: nat, ts: seq<Segment>, seg: Segment, size: nat, hasChunk: bool,
                               c: nat)
  {
    && Building(list, i, ts, seg, hasChunk) && PointsFrom(list, seg, c, i - 1)
    && (forall t :: t in ts ==> HasPoints(list, t)) && (NoWrap(list) ==> Weighed(list, i, ts, seg, size))
  }

  /**
   The tasks cover the list, hang on it and list its points. None is larger than the limits allow, and each but the last
   could not have been extended, if and only if no task was cut because the size of a first step was counted twice.
   */
  method ConstructTasks(list: seq<Point>) returns (ts: seq<Segment>)
    requires |list| > 0 && Ascending(list)
    ensures Constructed(list, ts)
  {
    ts := [];
    var first := list[0].mark;
    var seg := Segment(first.height + 1, 0, 0, first.hash, [first]);
    var size := 0;
    var hasChunk := false;
    ghost var c := 0;
    assert OnList(list, first.height, first.hash);
    assert MarksOf(list[0..1]) == [first];
    for i := 1 to |list|
      invariant size >= 0 && c >= 0 && Constructing(list, i, ts, seg, size, hasChunk, c)
    {
      ts, seg, size, c := AddPoint(list, i, ts, seg, size, hasChunk, c);
      hasChunk := true;
    }
    FinishTasks(list, ts, seg, size, hasChunk, c);
    var last := list[|list| - 1].mark;
    seg := seg.(to := last.height, hash := last.hash);
    ts := ts + [seg];
  }

  /** What is promised of the tasks. */
  ghost predicate Constructed(list: seq<Point>, ts: seq<Segment>)
    requires |list| > 0
  {
    && |ts| > 0 && GoodTasks(list, ts) && (forall t :: t in ts ==> HasPoints(list, t))
    && ExactCover(ts, list[0].mark.height, list[|list| - 1].mark.height)
    && (NoWrap(list) ==>
          && (forall j :: 0 <= j < |ts| - 1 ==> CutNeeded(list, ts[j], Extra(list, j)))
          && (AllCutsNeeded(list, ts) <==> !Recounted(list)))
  }

  lemma FinishTasks(list: seq<Point>, ts: seq<Segment>, seg: Segment, size: nat, hasChunk: bool, c: nat)
    requires |list| > 0 && Constructing(list, |list|, ts, seg, size, hasChunk, c)
    ensures var last := list[|list| - 1].mark; Constructed(list, ts + [seg.(to := last.height, hash := last.hash)])
  {
    var last := list[|list| - 1].mark;
    var seg' := seg.(to := last.height, hash := last.hash);
    assert OnList(list, seg'.to, seg'.hash);
    if |list| == 1 { SizeEmpty(list, last.height, last.height); }
    ExtendCover(ts, seg', list[0].mark.height);
    PointsKept(list, seg, seg', c, |list| - 1);
    if NoWrap(list) { LastTask(list, ts, seg', size); }
  }

  lemma PointsKept(list: seq<Point>, s: Segment, s': Segment, c: nat, e: nat)
    requires s.from > 0 && PointsFrom(list, s, c, e) && s' == s.(to := list[e].mark.height, hash := s'.hash)
    ensures HasPoints(list, s')
  {
    assert PointsFrom(list, s', c, e);
  }

  /** The segment that point `i` is to be added to. */
  ghost predicate Prepared(list: seq<Point>, i: nat, ts: seq<Segment>, seg: Segment, size: nat, c: nat)
  {
    && 0 < i < |list| && c <= i && Ascending(list) && GoodTasks(list, ts)
    && (forall t :: t in ts ==> HasPoints(list, t))
    && list[0].mark.height < seg.from <= list[i].mark.height + 1 && OnList(list, seg.from - 1, seg.prevHash)
    && ExactCover(ts, list[0].mark.height, seg.from - 1)
    && (list[i].mark.height - seg.from + 1 <= MAX_HEIGHTS || seg.from == list[i - 1].mark.height + 1)
    && seg.points == PointsBefore(list, seg, c) + MarksOf(list[c..i])
    && (NoWrap(list) ==> Weighed(list, i + 1, ts, seg, size))
  }

  lemma ExtendSegment(list: seq<Point>, i: nat, ts: seq<Segment>, seg: Segment, size: nat, c: nat)
    requires Prepared(list, i, ts, seg, size, c)
    ensures var hp := list[i].mark;
      var seg' := seg.(to := hp.height, hash := hp.hash, points := seg.points + [hp]);
      Constructing(list, i + 1, ts, seg', size, true, c)
  {
    var hp := list[i].mark;
    var seg' := seg.(to := hp.height, hash := hp.hash, points := seg.points + [hp]);
    assert OnList(list, seg'.to, seg'.hash);
    MoreMarks(list, c, i);
    assert PointsFrom(list, seg', c, i);
    ExtendedIsBounded(list, i, ts, seg', size);
  }

  lemma ExtendedIsBounded(list: seq<Point>, i: nat, ts: seq<Segment>, seg: Segment, size: nat)
    requires 0 < i < |list| && seg.to == list[i].mark.height && seg.from > 0
    requires seg.to - seg.from + 1 <= MAX_HEIGHTS || seg.from == list[i - 1].mark.height + 1
    requires NoWrap(list) ==> Weighed(list, i + 1, ts, seg, size)
    ensures Bounded(list, seg)
  {
    if seg.from == list[i - 1].mark.height + 1 {
      assert OneStep(list, seg);
    } else if NoWrap(list) {
      WeighedIsBounded(list, i + 1, ts, seg, size);
    }
  }

  /** One more point: the segment under construction is finished when it would grow too long or too large. */
  method AddPoint(list: seq<Point>, i: nat, ts: seq<Segment>, seg: Segment, size: nat, hasChunk: bool, ghost c: nat)
    returns (ts': seq<Segment>, seg': Segment, size': nat, ghost c': nat)
    requires i < |list| && Constructing(list, i, ts, seg, size, hasChunk, c)
    ensures Constructing(list, i + 1, ts', seg', size', true, c')
  {
    ts', seg', c' := ts, seg, c;
    var hp := list[i].mark;
    size' := (size + list[i].size) % U64;
    if hp.height - seg.from + 1 > MAX_HEIGHTS || size' > MAX_SIZE {
      ts', seg' := CutSegment(list, i, ts, seg, size, hasChunk, c);
      size', c' := list[i].size, i;
    } else {
      GrowPrepares(list, i, ts, seg, size, hasChunk, c);
    }
    ExtendSegment(list, i, ts', seg', size', c');
    seg' := seg'.(to := hp.height, hash := hp.hash, points := seg'.points + [hp]);
  }

  lemma GrowPrepares(list: seq<Point>, i: nat, ts: seq<Segment>, seg: Segment, size: nat, hasChunk: bool, c: nat)
    requires i < |list| && Constructing(list, i, ts, seg, size, hasChunk, c)
    requires list[i].mark.height - seg.from + 1 <= MAX_HEIGHTS && (size + list[i].size) % U64 <= MAX_SIZE
    ensures Prepared(list, i, ts, seg, (size + list[i].size) % U64, c)
  {
    if NoWrap(list) {
      SumsFit(list, i, ts, seg, size);
      GrowWeighs(list, i, ts, seg, size, hasChunk);
    }
  }

  /** The segment that begins after a cut. */
  function Fresh(cut: Segment, hp: Mark): Segment
  {
    Segment(cut.to + 1, 0, 0, cut.hash, [Mark(cut.to, cut.hash), hp])
  }

  /**
   The segment joins the tasks, and a new one begins with point `i`; a first step that is too large is a task itself.
   */
  method CutSegment(list: seq<Point>, i: nat, ts: seq<Segment>, seg: Segment, ghost size: nat, hasChunk: bool,
                    ghost c: nat)
    returns (ts': seq<Segment>, seg': Segment)
    requires i < |list| && Constructing(list, i, ts, seg, size, hasChunk, c)
    requires list[i].mark.height - seg.from + 1 > MAX_HEIGHTS || (size + list[i].size) % U64 > MAX_SIZE
    ensures Prepared(list, i, ts', seg', list[i].size, i)
  {
    var hp := list[i].mark;
    var cut := seg;
    if !hasChunk {
      cut := seg.(to := hp.height, hash := hp.hash, points := seg.points + [hp]);
      FirstCutPrepares(list, seg, size, c);
    } else {
      CutPrepares(list, i, ts, seg, size, c);
    }
    ts' := ts + [cut];
    seg' := Fresh(cut, hp);
  }

  lemma CutPrepares(list: seq<Point>, i: nat, ts: seq<Segment>, seg: Segment, size: nat, c: nat)
    requires i < |list| && Constructing(list, i, ts, seg, size, true, c)
    requires list[i].mark.height - seg.from + 1 > MAX_HEIGHTS || (size + list[i].size) % U64 > MAX_SIZE
    ensures Prepared(list, i, ts + [seg], Fresh(seg, list[i].mark), list[i].size, i)
  {
    PointsKept(list, seg, seg, c, i - 1);
    ExtendCover(ts, seg, list[0].mark.height);
    if NoWrap(list) {
      SumsFit(list, i, ts, seg, size);
      CutWeighs(list, i, ts, seg, size, Fresh(seg, list[i].mark));
    }
    OneMoreTask(list, ts, seg);
    PreparedAfter(list, i, ts + [seg], seg);
  }

  lemma OneMoreTask(list: seq<Point>, ts: seq<Segment>, seg: Segment)
    requires GoodTasks(list, ts) && forall t :: t in ts ==> HasPoints(list, t)
    requires Linked(list, seg) && Bounded(list, seg) && 1 <= seg.from <= seg.to + 1 && HasPoints(list, seg)
    ensures GoodTasks(list, ts + [seg]) && forall t :: t in ts + [seg] ==> HasPoints(list, t)
  {
  }

  lemma FirstCutPrepares(list: seq<Point>, seg: Segment, size: nat, c: nat)
    requires 1 < |list| && Constructing(list, 1, [], seg, size, false, c)
    requires list[1].mark.height - seg.from + 1 > MAX_HEIGHTS || (size + list[1].size) % U64 > MAX_SIZE
    ensures var hp := list[1].mark;
      var cut := seg.(to := hp.height, hash := hp.hash, points := seg.points + [hp]);
      Prepared(list, 1, [] + [cut], Fresh(cut, hp), list[1].size, 1)
  {
    var hp := list[1].mark;
    var cut := seg.(to := hp.height, hash := hp.hash, points := seg.points + [hp]);
    FirstIsOpen(list, 1, cut);
    MoreMarks(list, 0, 1);
    assert PointsFrom(list, cut, 0, 1);
    PointsKept(list, cut, cut, 0, 1);
    ExtendCover([], cut, list[0].mark.height);
    if NoWrap(list) {
      SumsFit(list, 1, [], seg, size);
      FirstCutWeighs(list, cut, Fresh(cut, hp));
    }
    PreparedAfter(list, 1, [] + [cut], cut);
  }

  lemma PreparedAfter(list: seq<Point>, i: nat, ts: seq<Segment>, cut: Segment)
    requires 0 < i < |list| && Ascending(list) && GoodTasks(list, ts) && (forall t :: t in ts ==> HasPoints(list, t))
    requires list[0].mark.height <= cut.to && OnList(list, cut.to, cut.hash)
    requires cut.to == list[i - 1].mark.height || cut.to == list[i].mark.height
    requires ExactCover(ts, list[0].mark.height, cut.to)
    requires NoWrap(list) ==> Weighed(list, i + 1, ts, Fresh(cut, list[i].mark), list[i].size)
    ensures Prepared(list, i, ts, Fresh(cut, list[i].mark), list[i].size, i)
  {
    assert MarksOf(list[i..i]) == [];
  }

  lemma MoreMarks(list: seq<Point>, c: nat, i: nat)
    requires c <= i < |list|
    ensures MarksOf(list[c..i + 1]) == MarksOf(list[c..i]) + [list[i].mark]
  {
  }

  // ----- counting sizes -----

  lemma {:induction false} SizeEmpty(list: seq<Point>, lo: int, hi: int)
    requires hi <= lo
    ensures SizeBetween(list, lo, hi) == 0
  {
    if list != [] { SizeEmpty(list[..|list| - 1], lo, hi); }
  }

  lemma {:induction false} SizeMono(list: seq<Point>, lo: int, hi: int, hi': int)
    requires hi <= hi'
    ensures SizeBetween(list, lo, hi) <= SizeBetween(list, lo, hi')
  {
    if list != [] { SizeMono(list[..|list| - 1], lo, hi, hi'); }
  }

  /** Heights between the last point and `hi` add nothing. */
  lemma {:induction false} SizeCapped(list: seq<Point>, lo: int, hi: int, hi': int)
    requires hi <= hi' && forall k :: 0 <= k < |list| ==> list[k].mark.height <= hi
    ensures SizeBetween(list, lo, hi) == SizeBetween(list, lo, hi')
  {
    if list != [] { SizeCapped(list[..|list| - 1], lo, hi, hi'); }
  }

  /** One more point. */
  lemma {:induction false} SizeNext(list: seq<Point>, i: nat, lo: int)
    requires Ascending(list) && 0 < i < |list| && lo < list[i].mark.height
    ensures SizeBetween(list, lo, list[i].mark.height) == SizeBetween(list, lo, list[i - 1].mark.height) + list[i].size
    decreases |list|
  {
    var front := list[..|list| - 1];
    if i < |list| - 1 {
      SizeNext(front, i, lo);
    } else {
      SizeCapped(front, lo, list[i - 1].mark.height, list[i].mark.height);
    }
  }

  lemma SumsFit(list: seq<Point>, i: nat, ts: seq<Segment>, seg: Segment, size: nat)
    requires 0 < i < |list| && NoWrap(list) && Weighed(list, i, ts, seg, size)
    ensures size + list[i].size < U64
  {
  }

  /** The size counted with point `i`. */
  lemma CountedWith(list: seq<Point>, i: nat, ts: seq<Segment>, seg: Segment, size: nat, hasChunk: bool)
    requires i < |list| && Building(list, i, ts, seg, hasChunk) && Weighed(list, i, ts, seg, size)
    ensures size + list[i].size == Extra(list, |ts|) + SizeBetween(list, seg.from - 1, list[i].mark.height)
  {
    SizeNext(list, i, seg.from - 1);
    if i == 1 { SizeEmpty(list, seg.from - 1, list[0].mark.height); }
  }

  lemma GrowWeighs(list: seq<Point>, i: nat, ts: seq<Segment>, seg: Segment, size: nat, hasChunk: bool)
    requires i < |list| && Building(list, i, ts, seg, hasChunk) && Weighed(list, i, ts, seg, size)
    requires list[i].mark.height - seg.from + 1 <= MAX_HEIGHTS && size + list[i].size <= MAX_SIZE
    ensures Weighed(list, i + 1, ts, seg, size + list[i].size)
  {
    CountedWith(list, i, ts, seg, size, hasChunk);
  }

  lemma CutWeighs(list: seq<Point>, i: nat, ts: seq<Segment>, seg: Segment, size: nat, next: Segment)
    requires i < |list| && Building(list, i, ts, seg, true) && Weighed(list, i, ts, seg, size)
    requires list[i].mark.height - seg.from + 1 > MAX_HEIGHTS || size + list[i].size > MAX_SIZE
    requires next.from == seg.to + 1
    ensures Weighed(list, i + 1, ts + [seg], next, list[i].size)
  {
    CountedWith(list, i, ts, seg, size, true);
    CutIsNeeded(list, i, seg, Extra(list, |ts|));
    NextAlone(list, i);
    if OversizeFirst(list) && |ts| == 1 { RecountsWhenCut(list, i, seg, size); }
    forall j | 0 <= j < |ts| + 1 ensures CutNeeded(list, (ts + [seg])[j], Extra(list, j)) {
      assert j < |ts| ==> (ts + [seg])[j] == ts[j];
    }
  }

  lemma CutIsNeeded(list: seq<Point>, i: nat, seg: Segment, extra: nat)
    requires Ascending(list) && 0 < i < |list| && seg.to == list[i - 1].mark.height && Exceeds(list, seg, i, extra)
    ensures CutNeeded(list, seg, extra)
  {
    forall k | 0 < k < |list| && list[k - 1].mark.height == seg.to ensures Exceeds(list, seg, k, extra) {
      assert k == i;
    }
  }

  /** The size of one step. */
  lemma NextAlone(list: seq<Point>, i: nat)
    requires Ascending(list) && 0 < i < |list|
    ensures SizeBetween(list, list[i - 1].mark.height, list[i].mark.height) == list[i].size
  {
    SizeNext(list, i, list[i - 1].mark.height);
    SizeEmpty(list, list[i - 1].mark.height, list[i - 1].mark.height);
  }

  lemma RecountsWhenCut(list: seq<Point>, i: nat, seg: Segment, size: nat)
    requires 1 < i <= |list| && Ascending(list) && OversizeFirst(list) && seg.to == list[i - 1].mark.height
    requires seg.from == list[1].mark.height + 1
    requires size == list[1].size + SizeBetween(list, seg.from - 1, seg.to)
    requires size <= MAX_SIZE || seg.from == list[i - 1].mark.height + 1
    ensures Recounts(list, seg)
  {
  }

  lemma FirstCutWeighs(list: seq<Point>, cut: Segment, next: Segment)
    requires Ascending(list) && OversizeFirst(list) && cut.from == list[0].mark.height + 1
    requires cut.to == list[1].mark.height && next.from == cut.to + 1
    ensures Weighed(list, 2, [cut], next, list[1].size)
  {
    NextAlone(list, 1);
    SizeEmpty(list, list[1].mark.height, list[1].mark.height);
    forall k | 0 < k < |list| && list[k - 1].mark.height == cut.to ensures Exceeds(list, cut, k, 0) {
      assert k == 2;
      SizeMono(list, list[0].mark.height, list[1].mark.height, list[2].mark.height);
    }
  }

  lemma WeighedIsBounded(list: seq<Point>, i: nat, ts: seq<Segment>, seg: Segment, size: nat)
    requires 1 < i <= |list| && Weighed(list, i, ts, seg, size) && seg.from > 0
    requires seg.to == list[i - 1].mark.height && seg.to < seg.from + MAX_HEIGHTS
    ensures Bounded(list, seg)
  {
    if size > MAX_SIZE && seg.from != list[i - 1].mark.height + 1 {
      assert OneStep(list, seg);
    } else if size > MAX_SIZE {
      SizeEmpty(list, seg.from - 1, seg.to);
    }
  }

  lemma LastTask(list: seq<Point>, ts: seq<Segment>, seg: Segment, size: nat)
    requires |list| > 0 && Ascending(list) && Weighed(list, |list|, ts, seg, size) && GoodTasks(list, ts + [seg])
    requires seg.to == list[|list| - 1].mark.height
    ensures forall j :: 0 <= j < |ts| ==> CutNeeded(list, (ts + [seg])[j], Extra(list, j))
    ensures AllCutsNeeded(list, ts + [seg]) <==> !Recounted(list)
  {
    var all := ts + [seg];
    forall j | 0 <= j < |ts| ensures all[j] == ts[j] {
    }
    if OversizeFirst(list) {
      if |ts| == 1 { RecountsWhenCut(list, |list|, seg, size); }
      assert all[1] in all;
      RecountDecides(list, all[1]);
    }
  }

  /** Whether what is planned after a first step that is too large was cut too early. */
  lemma RecountDecides(list: seq<Point>, s: Segment)
    requires Ascending(list) && OversizeFirst(list) && Recounts(list, s) && OnList(list, s.to, s.hash)
    requires s.from <= s.to + 1 && CutNeeded(list, s, list[1].size)
    ensures CutNeeded(list, s, 0) <==> !Recounted(list)
  {
    var e :| 0 <= e < |list| && list[e].mark.height == s.to && list[e].mark.hash == s.hash;
    assert e >= 1;
    if Recounted(list) {
      var k :| 1 < k < |list| && list[k].mark.height - list[1].mark.height <= MAX_HEIGHTS
               && SizeBetween(list, list[1].mark.height, list[k].mark.height) <= MAX_SIZE
                  < list[1].size + SizeBetween(list, list[1].mark.height, list[k].mark.height);
      if k <= e { SizeMono(list, list[1].mark.height, list[k].mark.height, list[e].mark.height); }
      assert e < k;
      SizeMono(list, list[1].mark.height, list[e + 1].mark.height, list[k].mark.height);
      assert list[e + 1 - 1].mark.height == s.to && !Exceeds(list, s, e + 1, 0);
    } else {
      forall k | 0 < k < |list| && list[k - 1].mark.height == s.to ensures Exceeds(list, s, k, 0) {
        assert k == e + 1 && Exceeds(list, s, k, list[1].size);
      }
    }
  }

  /** Such a list: a long first step of 1.5 MB, then half a megabyte, then one byte more. */
  lemma RecountHappens()
    ensures var list := [Point(Mark(0, 0), 0), Point(Mark(3000, 1), 0x18_0000), Point(Mark(3100, 2), 0x8_0000),
                         Point(Mark(3200, 3), 1)];
      Ascending(list) && NoWrap(list) && Recounted(list)
  {
    var list := [Point(Mark(0, 0), 0), Point(Mark(3000, 1), 0x18_0000), Point(Mark(3100, 2), 0x8_0000),
                 Point(Mark(3200, 3), 1)];
    NextAlone(list, 2);
    SizeNext(list, 3, 3000);
    assert SizeBetween(list, list[1].mark.height, list[3].mark.height) == 0x8_0001;
  }

  lemma FirstIsOpen(list: seq<Point>, i: nat, seg: Segment)
    requires i == 1 < |list| && Ascending(list) && seg.from == list[0].mark.height + 1 &&
             OnList(list, seg.from - 1, seg.prevHash)
    requires seg.to == list[i].mark.height && seg.hash == list[i].mark.hash
    ensures Open(list, i, seg)
  {
    assert OnList(list, seg.to, seg.hash);
  }

  lemma ExtendCover(ts: seq<Segment>, s: Segment, lo: nat)
    requires 1 <= s.from <= s.to + 1 && lo < s.from
    requires ExactCover(ts, lo, s.from - 1)
    ensures ExactCover(ts + [s], lo, s.to)
  {
    forall h: nat
      ensures Count(ts + [s], h) == Within(lo, s.to, h)
    {
      CountSnoc(ts, s, h);
      assert Count(ts, h) == Within(lo, s.from - 1, h);
    }
  }

  // ----- compareCache: which cached segments are kept -----

  ghost predicate SortedDisjoint(segments: seq<Segment>)
  {
    forall i, j :: 0 <= i < j < |segments| ==> segments[i].to < segments[j].from
  }

  /** The scan from point `start` on stopped at `index`, and found the ends of the segment that lie between. */
  ghost predicate Scanned(list: seq<Point>, s: Segment, start: nat, index: nat, fromOK: bool, toOK: bool)
  {
    && start <= index <= |list|
    && (forall k :: start <= k < index ==> list[k].mark.height < s.to)
    && (index < |list| ==> list[index].mark.height >= s.to)
    && (fromOK <==> exists k :: start <= k <= index && k < |list|
                      && s.from == list[k].mark.height + 1 && s.prevHash == list[k].mark.hash)
    && (toOK <==> index < |list| && list[index].mark == Mark(s.to, s.hash))
  }

  /** Looks for the two ends of a cached segment from point `start` on, up to the first point at or past its end. */
  method ScanSegment(list: seq<Point>, s: Segment, start: nat) returns (fromOK: bool, toOK: bool, index: nat)
    requires start <= |list| && Ascending(list)
    ensures Scanned(list, s, start, index, fromOK, toOK)
  {
    fromOK, toOK, index := false, false, start;
    while index < |list|
      invariant start <= index <= |list|
      invariant forall k :: start <= k < index ==> list[k].mark.height < s.to
      invariant fromOK <==> exists k :: start <= k < index
                              && s.from == list[k].mark.height + 1 && s.prevHash == list[k].mark.hash
      invariant !toOK
    {
      var p := list[index].mark;
      if s.from == p.height + 1 && s.prevHash == p.hash {
        fromOK := true;
      }
      if s.to == p.height && s.hash == p.hash {
        toOK := true;
      }
      if p.height >= s.to {
        return;
      }
      index := index + 1;
    }
  }

  predicate Overlaps(list: seq<Point>, s: Segment)
    requires |list| > 0
  {
    list[0].mark.height < s.to && s.from <= list[|list| - 1].mark.height
  }

  ghost predicate Kept(list: seq<Point>, segments: seq<Segment>, kept: seq<Segment>)
    requires |list| > 0
  {
    && SortedDisjoint(kept)
    && forall s :: s in kept ==> s in segments && s.from <= s.to + 1 && Overlaps(list, s) && Linked(list, s)
  }

  /** A cache as the downloader leaves it: sorted, without overlaps, and no segment ending before its predecessor. */
  ghost predicate Tidy(segments: seq<Segment>)
  {
    SortedDisjoint(segments) && forall s :: s in segments ==> s.from <= s.to + 1
  }

  /** The cached segments that overlap the list and hang on it (`linked`), or overlap it and do not. */
  ghost function Select(list: seq<Point>, segments: seq<Segment>, linked: bool): seq<Segment>
    requires |list| > 0
  {
    if segments == [] then []
    else
      var s := segments[|segments| - 1];
      Select(list, segments[..|segments| - 1], linked) +
      if Overlaps(list, s) && Linked(list, s) == linked then [s] else []
  }

  lemma SelectStep(list: seq<Point>, segments: seq<Segment>, n: nat, linked: bool)
    requires |list| > 0 && n < |segments|
    ensures Select(list, segments[..n + 1], linked) == Select(list, segments[..n], linked) +
              if Overlaps(list, segments[n]) && Linked(list, segments[n]) == linked then [segments[n]] else []
  {
    assert segments[..n + 1][..n] == segments[..n];
  }

  /** In a sorted cache nothing after a segment that is too high overlaps the list. */
  lemma {:induction false} SelectTooHigh(list: seq<Point>, segments: seq<Segment>, n: nat, m: nat, linked: bool)
    requires |list| > 0 && n <= m <= |segments| && n < |segments|
    requires Tidy(segments)
    requires segments[n].from > list[|list| - 1].mark.height
    ensures Select(list, segments[..m], linked) == Select(list, segments[..n], linked)
    decreases m
  {
    if n < m {
      SelectStep(list, segments, m - 1, linked);
      SelectTooHigh(list, segments, n, m - 1, linked);
      assert segments[n] in segments;
    }
  }

  predicate TooLow(list: seq<Point>, s: Segment)
    requires |list| > 0
  {
    s.to <= list[0].mark.height
  }

  predicate TooHigh(list: seq<Point>, s: Segment)
    requires |list| > 0
  {
    !TooLow(list, s) && s.from > list[|list| - 1].mark.height
  }

  /** How far the cached segments reach that are not too low. */
  function Reach(list: seq<Point>, segments: seq<Segment>): nat
    requires |list| > 0
  {
    if segments == [] then 0
    else
      var s, before := segments[|segments| - 1], Reach(list, segments[..|segments| - 1]);
      if TooLow(list, s) || s.to < before then before else s.to
  }

  /** Kept after the segments `before`: it hangs on the list, and starts after all of them end. */
  ghost predicate Keeps(list: seq<Point>, before: seq<Segment>, s: Segment)
    requires |list| > 0
  {
    s.from <= s.to + 1 && Linked(list, s) && Reach(list, before) < s.from
  }

  /** What is kept (`keep`) or deleted of a cache without segments that are too high. */
  ghost function Choose(list: seq<Point>, segments: seq<Segment>, keep: bool): seq<Segment>
    requires |list| > 0
  {
    if segments == [] then []
    else
      var s, before := segments[|segments| - 1], segments[..|segments| - 1];
      Choose(list, before, keep) + if !TooLow(list, s) && Keeps(list, before, s) == keep then [s] else []
  }

  /** The number of cached segments from the `n`-th on, and `n`, up to the first that is too high. */
  function FirstTooHigh(list: seq<Point>, segments: seq<Segment>, n: nat): (r: nat)
    requires |list| > 0 && n <= |segments|
    ensures n <= r <= |segments|
    decreases |segments| - n
  {
    if n < |segments| && !TooHigh(list, segments[n]) then FirstTooHigh(list, segments, n + 1) else n
  }

  /** The choice from any cache: what comes before the first segment that is too high decides. */
  ghost function Choice(list: seq<Point>, segments: seq<Segment>, keep: bool): seq<Segment>
    requires |list| > 0
  {
    Choose(list, segments[..FirstTooHigh(list, segments, 0)], keep)
  }

  lemma {:induction false} StopsAt(list: seq<Point>, segments: seq<Segment>, m: nat, n: nat)
    requires |list| > 0 && m <= n <= |segments| && forall i :: m <= i < n ==> !TooHigh(list, segments[i])
    requires n < |segments| ==> TooHigh(list, segments[n])
    ensures FirstTooHigh(list, segments, m) == n
    decreases n - m
  {
    if m < n { StopsAt(list, segments, m + 1, n); }
  }

  lemma ChooseStep(list: seq<Point>, segments: seq<Segment>, n: nat, keep: bool)
    requires |list| > 0 && n < |segments|
    ensures var s, before := segments[n], segments[..n];
      && Choose(list, segments[..n + 1], keep) ==
         Choose(list, before, keep) + (if !TooLow(list, s) && Keeps(list, before, s) == keep then [s] else [])
      && Reach(list, segments[..n + 1]) ==
         if TooLow(list, s) || s.to < Reach(list, before) then Reach(list, before) else s.to
  {
    assert segments[..n + 1][..n] == segments[..n];
  }

  /** The points before `index` are exactly those below `reach`. */
  ghost predicate AtReach(list: seq<Point>, index: nat, reach: nat)
  {
    && index <= |list| && (forall k :: 0 <= k < index ==> list[k].mark.height < reach)
    && (index < |list| ==> reach <= list[index].mark.height)
  }

  lemma FoundIffKeeps(list: seq<Point>, s: Segment, start: nat, index: nat, reach: nat, fromOK: bool, toOK: bool)
    requires Ascending(list) && AtReach(list, start, reach) && Scanned(list, s, start, index, fromOK, toOK)
    ensures fromOK && toOK <==> s.from <= s.to + 1 && Linked(list, s) && reach < s.from
    ensures AtReach(list, index, if s.to < reach then reach else s.to)
  {
    if fromOK && toOK {
      var k :| start <= k <= index && k < |list| && s.from == list[k].mark.height + 1 &&
        s.prevHash == list[k].mark.hash;
      assert list[k].mark.height == s.from - 1 &&
             list[start].mark.height <= list[k].mark.height <= list[index].mark.height;
    }
    if s.from <= s.to + 1 && Linked(list, s) && reach < s.from {
      var i :| 0 <= i < |list| && list[i].mark.height == s.from - 1 && list[i].mark.hash == s.prevHash;
      var m :| 0 <= m < |list| && list[m].mark.height == s.to && list[m].mark.hash == s.hash;
      assert start <= i <= m;
      assert m == index;
    }
  }

  /** After the first `n` cached segments, none of them too high, the choice is that of the inputs. */
  ghost predicate ChosenExactly(list: seq<Point>, segments: seq<Segment>, n: nat, index: nat,
                                kept: seq<Segment>, deleted: seq<Segment>)
  {
    && |list| > 0 && n <= |segments| && AtReach(list, index, Reach(list, segments[..n]))
    && (forall i :: 0 <= i < n ==> !TooHigh(list, segments[i]))
    && kept == Choose(list, segments[..n], true) && deleted == Choose(list, segments[..n], false)
  }

  lemma PassExactly(list: seq<Point>, segments: seq<Segment>, n: nat, index: nat, kept: seq<Segment>,
                    deleted: seq<Segment>)
    requires ChosenExactly(list, segments, n, index, kept, deleted) && n < |segments| && TooLow(list, segments[n])
    ensures ChosenExactly(list, segments, n + 1, index, kept, deleted)
  {
    ChooseStep(list, segments, n, true);
    ChooseStep(list, segments, n, false);
  }

  lemma StopExactly(list: seq<Point>, segments: seq<Segment>, n: nat, index: nat, kept: seq<Segment>,
                    deleted: seq<Segment>)
    requires ChosenExactly(list, segments, n, index, kept, deleted) && (n < |segments| ==> TooHigh(list, segments[n]))
    ensures kept == Choice(list, segments, true) && deleted == Choice(list, segments, false)
  {
    StopsAt(list, segments, 0, n);
  }

  lemma ConsiderExactly(list: seq<Point>, segments: seq<Segment>, n: nat, start: nat, kept: seq<Segment>,
                        deleted: seq<Segment>, index: nat, fromOK: bool, toOK: bool)
    requires Ascending(list) && ChosenExactly(list, segments, n, start, kept, deleted) && n < |segments|
    requires Overlaps(list, segments[n]) && Scanned(list, segments[n], start, index, fromOK, toOK)
    ensures ChosenExactly(list, segments, n + 1, index, if fromOK && toOK then kept + [segments[n]] else kept,
                          if fromOK && toOK then deleted else deleted + [segments[n]])
  {
    FoundIffKeeps(list, segments[n], start, index, Reach(list, segments[..n]), fromOK, toOK);
    ChooseStep(list, segments, n, true);
    ChooseStep(list, segments, n, false);
  }

  /** One cached segment: passed over when too low, the end of the choice when too high, considered otherwise. */
  method ChooseOne(list: seq<Point>, segments: seq<Segment>, n: nat, start: nat, kept: seq<Segment>,
                   deleted: seq<Segment>)
    returns (kept': seq<Segment>, deleted': seq<Segment>, index: nat, stop: bool)
    requires Ascending(list) && n < |segments| && ChosenExactly(list, segments, n, start, kept, deleted)
    ensures stop <==> TooHigh(list, segments[n])
    ensures ChosenExactly(list, segments, if stop then n else n + 1, index, kept', deleted')
  {
    var s := segments[n];
    kept', deleted', index, stop := kept, deleted, start, false;
    if s.to <= list[0].mark.height {
      PassExactly(list, segments, n, index, kept, deleted);
    } else if s.from > list[|list| - 1].mark.height {
      stop := true;
    } else {
      var fromOK, toOK;
      fromOK, toOK, index := ScanSegment(list, s, start);
      ConsiderExactly(list, segments, n, start, kept, deleted, index, fromOK, toOK);
      if fromOK && toOK {
        kept' := kept + [s];
      } else {
        deleted' := deleted + [s];
      }
    }
  }

  /**
   Whatever order the cache lists them in, the kept segments are disjoint and hang on the list: of those before the
   first one that is too high, exactly the linked ones that start after all earlier ones end are kept, and the others
   that are not too low are deleted. When the cache is sorted and free of overlaps, exactly the segments whose two ends
   are on the list are kept, and every other one that overlaps the list is deleted.
   */
  method ChooseSegments(segments: seq<Segment>, list: seq<Point>)
    returns (kept: seq<Segment>, deleted: seq<Segment>)
    requires |list| > 0 && Ascending(list)
    ensures Kept(list, segments, kept)
    ensures kept == Choice(list, segments, true) && deleted == Choice(list, segments, false)
    ensures Tidy(segments) ==>
              kept == Select(list, segments, true) && deleted == Select(list, segments, false)
  {
    kept, deleted := [], [];
    var index, n := 0, 0;
    var stop := false;
    assert segments[..0] == [];
    while n < |segments| && !stop
      invariant 0 <= n <= |segments| && 0 <= index && ChosenExactly(list, segments, n, index, kept, deleted)
      invariant stop ==> n < |segments| && TooHigh(list, segments[n])
      decreases |segments| - n, !stop
    {
      kept, deleted, index, stop := ChooseOne(list, segments, n, index, kept, deleted);
      if !stop {
        n := n + 1;
      }
    }
    StopExactly(list, segments, n, index, kept, deleted);
    ChoiceIsKept(list, segments);
    if Tidy(segments) {
      TidyChoice(list, segments);
    }
  }

  // ----- what the choice is -----

  /** Kept so far, and ending where the choice has reached. */
  lemma {:induction false} ChooseKeeps(list: seq<Point>, segments: seq<Segment>, n: nat)
    requires |list| > 0 && n <= |segments| && forall i :: 0 <= i < n ==> !TooHigh(list, segments[i])
    ensures Kept(list, segments, Choose(list, segments[..n], true))
    ensures forall s :: s in Choose(list, segments[..n], true) ==> s.to <= Reach(list, segments[..n])
  {
    if n > 0 {
      ChooseKeeps(list, segments, n - 1);
      ChooseStep(list, segments, n - 1, true);
      var before, s := Choose(list, segments[..n - 1], true), segments[n - 1];
      if !TooLow(list, s) && Keeps(list, segments[..n - 1], s) {
        KeptSnoc(list, segments, before, s);
      }
    }
  }

  lemma KeptSnoc(list: seq<Point>, segments: seq<Segment>, kept: seq<Segment>, s: Segment)
    requires |list| > 0 && Kept(list, segments, kept)
    requires s in segments && s.from <= s.to + 1 && Overlaps(list, s) && Linked(list, s)
    requires forall k :: k in kept ==> k.to < s.from
    ensures Kept(list, segments, kept + [s])
  {
  }

  lemma {:induction false} NoneTooHigh(list: seq<Point>, segments: seq<Segment>, n: nat)
    requires |list| > 0 && n <= |segments|
    ensures var r := FirstTooHigh(list, segments, n);
      (forall i :: n <= i < r ==> !TooHigh(list, segments[i])) && (r < |segments| ==> TooHigh(list, segments[r]))
    decreases |segments| - n
  {
    if n < |segments| && !TooHigh(list, segments[n]) { NoneTooHigh(list, segments, n + 1); }
  }

  lemma ChoiceIsKept(list: seq<Point>, segments: seq<Segment>)
    requires |list| > 0
    ensures Kept(list, segments, Choice(list, segments, true))
  {
    NoneTooHigh(list, segments, 0);
    ChooseKeeps(list, segments, FirstTooHigh(list, segments, 0));
  }

  lemma {:induction false} ReachIsAnEnd(list: seq<Point>, segments: seq<Segment>)
    requires |list| > 0
    ensures Reach(list, segments) == 0 || exists i :: 0 <= i < |segments| && segments[i].to == Reach(list, segments)
  {
    if segments != [] { ReachIsAnEnd(list, segments[..|segments| - 1]); }
  }

  lemma OnListFrom(list: seq<Point>, s: Segment)
    ensures Linked(list, s) ==> s.from > 0
  {
  }

  lemma {:induction false} TidyChoose(list: seq<Point>, segments: seq<Segment>, n: nat, keep: bool)
    requires |list| > 0 && n <= |segments| && Tidy(segments) && forall i :: 0 <= i < n ==> !TooHigh(list, segments[i])
    ensures Choose(list, segments[..n], keep) == Select(list, segments[..n], keep)
  {
    if n > 0 {
      TidyChoose(list, segments, n - 1, keep);
      ChooseStep(list, segments, n - 1, keep);
      SelectStep(list, segments, n - 1, keep);
      TidyKeeps(list, segments, n - 1);
    }
  }

  /** In a tidy cache a segment starts after all earlier ones end, so that it is kept if it hangs on the list. */
  lemma TidyKeeps(list: seq<Point>, segments: seq<Segment>, n: nat)
    requires |list| > 0 && n < |segments| && Tidy(segments) && !TooHigh(list, segments[n])
    ensures !TooLow(list, segments[n]) <==> Overlaps(list, segments[n])
    ensures Keeps(list, segments[..n], segments[n]) <==> Linked(list, segments[n])
  {
    var s := segments[n];
    assert s in segments;
    if Linked(list, s) {
      OnListFrom(list, s);
      ReachIsAnEnd(list, segments[..n]);
    }
  }

  /** From a cache that is sorted and without overlaps, exactly the segments that hang on the list. */
  lemma TidyChoice(list: seq<Point>, segments: seq<Segment>)
    requires |list| > 0 && Tidy(segments)
    ensures Choice(list, segments, true) == Select(list, segments, true)
    ensures Choice(list, segments, false) == Select(list, segments, false)
  {
    var n := FirstTooHigh(list, segments, 0);
    NoneTooHigh(list, segments, 0);
    assert segments[..|segments|] == segments;
    forall keep: bool ensures Choice(list, segments, keep) == Select(list, segments, keep) {
      TidyChoose(list, segments, n, keep);
      if n < |segments| { SelectTooHigh(list, segments, n, |segments|, keep); }
    }
  }

  // ----- compareCache: merging what is kept, and planning around it -----

  /** Disjoint and never adjacent. */
  ghost predicate Separated(segments: seq<Segment>)
  {
    forall i, j :: 0 <= i < j < |segments| ==> segments[i].to + 1 < segments[j].from
  }

  /** The predecessor and the last block are points of the list, the predecessor not its last one. */
  ghost predicate EndsOnList(list: seq<Point>, s: Segment)
  {
    && |list| > 0 && 1 <= s.from <= s.to + 1 && s.from <= list[|list| - 1].mark.height
    && (exists i :: 0 <= i < |list| && list[i].mark.height + 1 == s.from)
    && (exists i :: 0 <= i < |list| && list[i].mark.height == s.to)
  }

  predicate IsEmpty(s: Segment) { s.from == s.to + 1 }

  /** The last heights of the segments without blocks. */
  ghost function EmptyEnds(segments: seq<Segment>): set<nat>
  {
    if segments == [] then {}
    else
      var last := segments[|segments| - 1];
      EmptyEnds(segments[..|segments| - 1]) + if IsEmpty(last) then {last.to} else {}
  }

  /** Those of them that touch no segment with blocks: neither the height itself nor the next one is covered. */
  ghost function LoneEnds(segments: seq<Segment>): set<nat>
  {
    set h | h in EmptyEnds(segments) && Count(segments, h) == 0 && Count(segments, h + 1) == 0
  }

  lemma EmptyEndsSnoc(segments: seq<Segment>, s: Segment)
    ensures EmptyEnds(segments + [s]) == EmptyEnds(segments) + if IsEmpty(s) then {s.to} else {}
  {
    assert (segments + [s])[..|segments|] == segments;
  }

  ghost predicate EndsBy(segments: seq<Segment>, x: nat) { forall i :: 0 <= i < |segments| ==> segments[i].to <= x }

  lemma {:induction false} BeyondEnd(segments: seq<Segment>, x: nat, h: nat)
    requires EndsBy(segments, x)
    ensures h > x ==> Count(segments, h) == 0 && h !in EmptyEnds(segments)
  {
    if segments != [] {
      var n := |segments| - 1;
      BeyondEnd(segments[..n], x, h);
      assert segments == segments[..n] + [segments[n]];
      CountSnoc(segments[..n], segments[n], h);
    }
  }

  ghost predicate AllOnList(list: seq<Point>, merged: seq<Segment>)
  {
    forall i :: 0 <= i < |merged| ==> EndsOnList(list, merged[i])
  }

  ghost predicate SameHeights(a: seq<Segment>, b: seq<Segment>) { forall h: nat :: Count(a, h) == Count(b, h) }

  /**
   What merging keeps: separated, on the list, ending where the kept segments so far end, covering the same
   heights, and with empty segments left exactly for the lone ones.
   */
  ghost predicate MergeOf(list: seq<Point>, merged: seq<Segment>, kept: seq<Segment>)
  {
    && Separated(merged) && (kept == [] <==> merged == [])
    && AllOnList(list, merged) && SameHeights(merged, kept) && EmptyEnds(merged) == LoneEnds(kept)
    && (kept != [] ==> var last := merged[|merged| - 1]; last.to == kept[|kept| - 1].to && EndsBy(kept, last.to))
  }

  lemma AppendSeparated(list: seq<Point>, merged: seq<Segment>, s: Segment)
    requires Separated(merged) && AllOnList(list, merged) && EndsOnList(list, s)
    requires merged == [] || merged[|merged| - 1].to + 1 < s.from
    ensures Separated(merged + [s]) && AllOnList(list, merged + [s])
  {
    forall i | 0 <= i < |merged| ensures merged[i].to + 1 < s.from {
      assert EndsOnList(list, merged[|merged| - 1]);
    }
  }

  lemma AppendHeights(merged: seq<Segment>, kept: seq<Segment>, s: Segment)
    requires SameHeights(merged, kept)
    ensures SameHeights(merged + [s], kept + [s])
  {
    forall h: nat ensures Count(merged + [s], h) == Count(kept + [s], h) {
      CountSnoc(merged, s, h);
      CountSnoc(kept, s, h);
    }
  }

  /** A segment that starts past the next height adds itself, if empty, to the lone ones and takes none away. */
  lemma LoneAfterGap(kept: seq<Segment>, x: nat, s: Segment, h: nat)
    requires EndsBy(kept, x) && x + 1 < s.from <= s.to + 1
    ensures h in LoneEnds(kept + [s]) <==> h in LoneEnds(kept) || (IsEmpty(s) && h == s.to)
  {
    EmptyEndsSnoc(kept, s);
    CountSnoc(kept, s, h);
    CountSnoc(kept, s, h + 1);
    BeyondEnd(kept, x, h);
    BeyondEnd(kept, x, h + 1);
  }

  lemma LoneFirst(s: Segment, h: nat)
    requires s.from <= s.to + 1
    ensures h in LoneEnds([s]) <==> IsEmpty(s) && h == s.to
  {
    EmptyEndsSnoc([], s);
    CountSnoc([], s, h);
    CountSnoc([], s, h + 1);
    assert [] + [s] == [s];
  }

  lemma MergeNew(list: seq<Point>, merged: seq<Segment>, kept: seq<Segment>, s: Segment)
    requires MergeOf(list, merged, kept) && EndsOnList(list, s)
    requires merged == [] || merged[|merged| - 1].to + 1 < s.from
    ensures MergeOf(list, merged + [s], kept + [s])
  {
    AppendSeparated(list, merged, s);
    AppendHeights(merged, kept, s);
    EmptyEndsSnoc(merged, s);
    forall h: nat ensures h in LoneEnds(kept + [s]) <==> h in LoneEnds(kept) || (IsEmpty(s) && h == s.to) {
      if kept == [] {
        LoneFirst(s, h);
        assert kept + [s] == [s];
      } else {
        LoneAfterGap(kept, merged[|merged| - 1].to, s, h);
      }
    }
  }

  /** The last merged segment takes in the segment that follows it. */
  function Grown(front: seq<Segment>, last: Segment, s: Segment): seq<Segment> { front + [last.(to := s.to)] }

  predicate Adjoins(last: Segment, s: Segment) { last.to + 1 == s.from <= s.to + 1 && last.from <= last.to + 1 }

  lemma GrownSeparated(list: seq<Point>, front: seq<Segment>, last: Segment, s: Segment)
    requires Separated(front + [last]) && AllOnList(list, front + [last]) && EndsOnList(list, s) && Adjoins(last, s)
    ensures Separated(Grown(front, last, s)) && AllOnList(list, Grown(front, last, s))
  {
    var merged, merged' := front + [last], Grown(front, last, s);
    assert EndsOnList(list, merged[|front|]);
    forall i | 0 <= i < |merged'| ensures EndsOnList(list, merged'[i]) {
      assert EndsOnList(list, merged[i]);
    }
    assert forall i :: 0 <= i < |front| ==> merged'[i] == merged[i];
  }

  lemma GrownHeights(front: seq<Segment>, last: Segment, kept: seq<Segment>, s: Segment)
    requires SameHeights(front + [last], kept) && Adjoins(last, s)
    ensures SameHeights(Grown(front, last, s), kept + [s])
  {
    forall h: nat ensures Count(Grown(front, last, s), h) == Count(kept + [s], h) {
      CountSnoc(front, last, h);
      CountSnoc(front, last.(to := s.to), h);
      CountSnoc(kept, s, h);
    }
  }

  /** A segment that follows the last one: with blocks it takes the empty end there away, without it changes nothing. */
  lemma LoneAdjacent(kept: seq<Segment>, s: Segment, h: nat)
    requires 1 <= s.from <= s.to + 1 && EndsBy(kept, s.from - 1)
    ensures h in LoneEnds(kept + [s]) <==>
            if !IsEmpty(s) then h in LoneEnds(kept) && h != s.from - 1
            else h in LoneEnds(kept) || (h == s.to && Count(kept, h) == 0)
  {
    LoneSnoc(kept, s, h);
    BeyondEnd(kept, s.from - 1, h);
    BeyondEnd(kept, s.from - 1, h + 1);
  }

  lemma LoneSnoc(kept: seq<Segment>, s: Segment, h: nat)
    ensures h in LoneEnds(kept + [s]) <==>
            && (h in EmptyEnds(kept) || (IsEmpty(s) && h == s.to))
            && Count(kept, h) == 0 && !(s.from <= h <= s.to) && Count(kept, h + 1) == 0 && !(s.from <= h + 1 <= s.to)
  {
    EmptyEndsSnoc(kept, s);
    CountSnoc(kept, s, h);
    CountSnoc(kept, s, h + 1);
  }

  lemma GrownEmpty(front: seq<Segment>, last: Segment, kept: seq<Segment>, s: Segment)
    requires Adjoins(last, s) && Separated(front + [last]) && EndsBy(kept, last.to)
    requires SameHeights(front + [last], kept) && EmptyEnds(front + [last]) == LoneEnds(kept)
    ensures EmptyEnds(Grown(front, last, s)) == LoneEnds(kept + [s])
  {
    EmptyEndsSnoc(front, last);
    EmptyEndsSnoc(front, last.(to := s.to));
    forall h: nat ensures h in EmptyEnds(Grown(front, last, s)) <==> h in LoneEnds(kept + [s]) {
      LoneAdjacent(kept, s, h);
      CountSnoc(front, last, h);
      FrontEnds(front, last, h);
    }
  }

  lemma FrontEnds(front: seq<Segment>, last: Segment, h: nat)
    requires Separated(front + [last]) && last.from <= last.to + 1
    ensures h >= last.to ==> h !in EmptyEnds(front) && Count(front, h) == 0
  {
    var merged := front + [last];
    if front != [] {
      forall i | 0 <= i < |front| ensures front[i].to < last.to { assert merged[i].to + 1 < merged[|front|].from; }
      assert front[0].to < last.to;
      BeyondEnd(front, last.to - 1, h);
    }
  }

  lemma MergeAdjacent(list: seq<Point>, front: seq<Segment>, last: Segment, kept: seq<Segment>, s: Segment)
    requires MergeOf(list, front + [last], kept) && EndsOnList(list, s)
    requires last.to + 1 == s.from
    ensures MergeOf(list, Grown(front, last, s), kept + [s])
  {
    var merged := front + [last];
    assert merged[|merged| - 1] == last && EndsOnList(list, merged[|front|]);
    GrownSeparated(list, front, last, s);
    GrownHeights(front, last, kept, s);
    GrownEmpty(front, last, kept, s);
  }

  method MergeOne(ghost list: seq<Point>, merged: seq<Segment>, ghost kept: seq<Segment>, s: Segment)
    returns (merged': seq<Segment>)
    requires MergeOf(list, merged, kept) && EndsOnList(list, s) && (merged != [] ==> merged[|merged| - 1].to < s.from)
    ensures MergeOf(list, merged', kept + [s])
  {
    if merged == [] || merged[|merged| - 1].to + 1 != s.from {
      MergeNew(list, merged, kept, s);
      merged' := merged + [s];
    } else {
      var last := merged[|merged| - 1];
      assert merged == merged[..|merged| - 1] + [last];
      MergeAdjacent(list, merged[..|merged| - 1], last, kept, s);
      merged' := merged[..|merged| - 1] + [last.(to := s.to)];
    }
  }

  lemma MergeNone(list: seq<Point>)
    ensures MergeOf(list, [], [])
  {
    assert EmptyEnds([]) == {} && LoneEnds([]) == {};
  }

  lemma MergeOrder(list: seq<Point>, merged: seq<Segment>, kept: seq<Segment>, n: nat)
    requires n < |kept| && SortedDisjoint(kept) && MergeOf(list, merged, kept[..n])
    ensures merged != [] ==> merged[|merged| - 1].to < kept[n].from
  {
    if merged != [] { assert kept[..n][n - 1] == kept[n - 1]; }
  }

  method MergeSegments(list: seq<Point>, kept: seq<Segment>) returns (merged: seq<Segment>)
    requires SortedDisjoint(kept)
    requires forall s :: s in kept ==> EndsOnList(list, s)
    ensures MergeOf(list, merged, kept)
  {
    merged := [];
    MergeNone(list);
    for n := 0 to |kept|
      invariant MergeOf(list, merged, kept[..n])
    {
      MergeOrder(list, merged, kept, n);
      assert kept[n] in kept;
      merged := MergeOne(list, merged, kept[..n], kept[n]);
      assert kept[..n + 1] == kept[..n] + [kept[n]];
    }
    assert kept[..|kept|] == kept;
  }

  // ----- compareCache: segments without blocks -----

  /** The height lies after `from`, up to the next point of the list. */
  ghost predicate InGap(list: seq<Point>, from: nat, h: nat)
  {
    from < h && forall k :: 0 <= k < |list| && list[k].mark.height > from ==> h <= list[k].mark.height
  }

  /** The height lies between one of the given heights and the next point. */
  ghost predicate AfterOne(list: seq<Point>, ends: set<nat>, h: nat)
  {
    exists e :: e in ends && InGap(list, e, h)
  }

  /** Heights the plan leaves out: those between a lone empty segment and the next point. */
  ghost predicate Missed(list: seq<Point>, kept: seq<Segment>, h: nat)
  {
    AfterOne(list, LoneEnds(kept), h)
  }

  // ----- compareCache: the jumps of the plan -----

  /** Height of the block before the segment. */
  function Before(s: Segment): int { s.from - 1 }

  /** The map from the height before a merged segment to its last height. */
  ghost predicate IsJumpMap(merged: seq<Segment>, n: nat, jumps: map<int, nat>)
    requires n <= |merged|
  {
    && (forall i :: 0 <= i < n ==> Before(merged[i]) in jumps && jumps[Before(merged[i])] == merged[i].to)
    && (forall k :: k in jumps ==> exists i :: 0 <= i < n && Before(merged[i]) == k)
  }

  method JumpMap(merged: seq<Segment>) returns (jumps: map<int, nat>)
    requires Separated(merged) && forall i :: 0 <= i < |merged| ==> merged[i].from <= merged[i].to + 1
    ensures IsJumpMap(merged, |merged|, jumps)
  {
    jumps := map[];
    for n := 0 to |merged|
      invariant IsJumpMap(merged, n, jumps)
    {
      assert forall i :: 0 <= i < n ==> Before(merged[i]) != Before(merged[n]);
      jumps := jumps[Before(merged[n]) := merged[n].to];
    }
  }

  /**
   What the plan jumps over at a merged segment: its heights, or for an empty one, whose end is not past its
   predecessor, the heights up to the next point.
   */
  ghost predicate IsJump(list: seq<Point>, m: Segment, w: Segment)
  {
    && w.from == m.from <= w.to
    && (if IsEmpty(m) then InGap(list, m.to, w.to) else w.to == m.to)
    && (exists i :: 0 <= i < |list| && list[i].mark.height + 1 == w.from)
    && (exists i :: 0 <= i < |list| && list[i].mark.height == w.to)
  }

  ghost predicate AreJumps(list: seq<Point>, merged: seq<Segment>, wide: seq<Segment>)
  {
    && |list| > 0 && Ascending(list) && Separated(merged) && |wide| == |merged| && SortedDisjoint(wide)
    && forall i :: 0 <= i < |wide| ==> IsJump(list, merged[i], wide[i])
  }

  lemma JumpOf(list: seq<Point>, m: Segment) returns (w: Segment)
    requires Ascending(list) && EndsOnList(list, m)
    ensures IsJump(list, m, w)
  {
    if IsEmpty(m) {
      var i :| 0 <= i < |list| && list[i].mark.height == m.to;
      w := m.(to := list[i + 1].mark.height);
      assert list[i + 1].mark.height == w.to;
    } else {
      w := m;
    }
  }

  lemma JumpsApart(list: seq<Point>, m: Segment, w: Segment, m': Segment)
    requires IsJump(list, m, w) && EndsOnList(list, m') && m.to + 1 < m'.from
    ensures w.to < m'.from
  {
    var i :| 0 <= i < |list| && list[i].mark.height + 1 == m'.from;
  }

  lemma {:induction false} JumpsOf(list: seq<Point>, merged: seq<Segment>) returns (wide: seq<Segment>)
    requires |list| > 0 && Ascending(list) && Separated(merged) && AllOnList(list, merged)
    ensures AreJumps(list, merged, wide)
  {
    if merged == [] {
      wide := [];
    } else {
      var n := |merged| - 1;
      var front := JumpsOf(list, merged[..n]);
      assert EndsOnList(list, merged[n]);
      var w := JumpOf(list, merged[n]);
      wide := front + [w];
      forall i | 0 <= i < n ensures wide[i].to < w.from {
        assert IsJump(list, merged[..n][i], front[i]);
        JumpsApart(list, merged[i], wide[i], merged[n]);
      }
      forall i | 0 <= i < |wide| ensures IsJump(list, merged[i], wide[i]) {
        assert i < n ==> IsJump(list, merged[..n][i], front[i]);
      }
    }
  }

  lemma GapIsJump(list: seq<Point>, m: Segment, w: Segment, h: nat)
    requires IsJump(list, m, w) && IsEmpty(m)
    ensures InGap(list, m.to, h) <==> w.from <= h <= w.to
  {
    var i :| 0 <= i < |list| && list[i].mark.height == w.to;
    assert list[i].mark.height > m.to;
  }

  /** The jumps cover the heights of the merged segments and the gaps after the empty ones. */
  lemma {:induction false} JumpsCount(list: seq<Point>, merged: seq<Segment>, wide: seq<Segment>, n: nat, h: nat)
    requires AreJumps(list, merged, wide) && n <= |wide| == |merged|
    ensures Count(wide[..n], h) == Count(merged[..n], h) + if AfterOne(list, EmptyEnds(merged[..n]), h) then 1 else 0
  {
    if n == 0 {
      assert wide[..0] == [] && merged[..0] == [];
      assert !AfterOne(list, {}, h);
    } else {
      JumpsCount(list, merged, wide, n - 1, h);
      EarlierGap(list, merged, wide, n - 1, h);
      JumpsCountStep(list, merged[..n - 1], wide[..n - 1], merged[n - 1], wide[n - 1], h);
      TakeOneMore(wide, n - 1);
      TakeOneMore(merged, n - 1);
    }
  }

  lemma TakeOneMore<T>(s: seq<T>, n: nat)
    requires n < |s|
    ensures s[..n + 1] == s[..n] + [s[n]]
  {
  }

  lemma JumpsCountStep(list: seq<Point>, merged: seq<Segment>, wide: seq<Segment>, m: Segment, w: Segment, h: nat)
    requires IsJump(list, m, w) && (AfterOne(list, EmptyEnds(merged), h) ==> h < w.from)
    requires Count(wide, h) == Count(merged, h) + if AfterOne(list, EmptyEnds(merged), h) then 1 else 0
    ensures Count(wide + [w], h) == Count(merged + [m], h) + if AfterOne(list, EmptyEnds(merged + [m]), h) then 1 else 0
  {
    CountSnoc(wide, w, h);
    CountSnoc(merged, m, h);
    EmptyEndsSnoc(merged, m);
    JumpCountsOnce(list, EmptyEnds(merged), m, w, h);
  }

  lemma JumpCountsOnce(list: seq<Point>, ends: set<nat>, m: Segment, w: Segment, h: nat)
    requires IsJump(list, m, w) && (AfterOne(list, ends, h) ==> h < w.from)
    ensures (if w.from <= h <= w.to then 1 else 0) + (if AfterOne(list, ends, h) then 1 else 0) ==
            (if m.from <= h <= m.to then 1 else 0) +
            (if AfterOne(list, ends + (if IsEmpty(m) then {m.to} else {}), h) then 1 else 0)
  {
    AfterOneMore(list, ends, m, w, h);
  }

  lemma AfterOneMore(list: seq<Point>, ends: set<nat>, m: Segment, w: Segment, h: nat)
    requires IsJump(list, m, w)
    ensures AfterOne(list, ends + (if IsEmpty(m) then {m.to} else {}), h) <==>
            AfterOne(list, ends, h) || (IsEmpty(m) && w.from <= h <= w.to)
  {
    var more := ends + if IsEmpty(m) then {m.to} else {};
    if IsEmpty(m) { GapIsJump(list, m, w, h); }
    if AfterOne(list, ends, h) {
      var e :| e in ends && InGap(list, e, h);
      assert e in more;
    }
    if IsEmpty(m) && w.from <= h <= w.to { assert m.to in more; }
  }

  /** A height in the gap of an earlier jump lies before the next one. */
  lemma EarlierGap(list: seq<Point>, merged: seq<Segment>, wide: seq<Segment>, n: nat, h: nat)
    requires AreJumps(list, merged, wide) && n < |wide|
    ensures IsJump(list, merged[n], wide[n])
    ensures AfterOne(list, EmptyEnds(merged[..n]), h) ==> h < wide[n].from
  {
    if AfterOne(list, EmptyEnds(merged[..n]), h) {
      var e :| e in EmptyEnds(merged[..n]) && InGap(list, e, h);
      var i := EndOf(merged[..n], e);
      assert IsJump(list, merged[i], wide[i]);
      GapIsJump(list, merged[i], wide[i], h);
    }
  }

  lemma {:induction false} EndOf(segments: seq<Segment>, e: nat) returns (i: nat)
    requires e in EmptyEnds(segments)
    ensures i < |segments| && IsEmpty(segments[i]) && segments[i].to == e
  {
    var n := |segments| - 1;
    if IsEmpty(segments[n]) && segments[n].to == e {
      i := n;
    } else {
      i := EndOf(segments[..n], e);
    }
  }

  /** Heights up to `upTo` are covered by the tasks so far and the first `c` jumps. */
  ghost predicate CoveredTo(ts: seq<Segment>, wide: seq<Segment>, c: nat, lo: nat, upTo: nat)
    requires c <= |wide|
  {
    forall h: nat :: Count(ts, h) + Count(wide[..c], h) == Within(lo, upTo, h)
  }

  lemma CoverTasks(ts: seq<Segment>, more: seq<Segment>, wide: seq<Segment>, c: nat, lo: nat, mid: nat, hi: nat)
    requires c <= |wide| && lo <= mid <= hi
    requires CoveredTo(ts, wide, c, lo, mid) && ExactCover(more, mid, hi)
    ensures CoveredTo(ts + more, wide, c, lo, hi)
  {
    forall h: nat ensures Count(ts + more, h) + Count(wide[..c], h) == Within(lo, hi, h) {
      CountConcat(ts, more, h);
      assert Count(more, h) == Within(mid, hi, h);
    }
  }

  lemma CoverSegment(ts: seq<Segment>, wide: seq<Segment>, c: nat, lo: nat)
    requires c < |wide| && lo < wide[c].from <= wide[c].to
    requires CoveredTo(ts, wide, c, lo, wide[c].from - 1)
    ensures CoveredTo(ts, wide, c + 1, lo, wide[c].to)
  {
    forall h: nat ensures Count(ts, h) + Count(wide[..c + 1], h) == Within(lo, wide[c].to, h) {
      assert wide[..c + 1] == wide[..c] + [wide[c]];
      CountSnoc(wide[..c], wide[c], h);
    }
  }

  lemma SublistLinked(list: seq<Point>, a: nat, b: nat, height: int, hash: Hash)
    requires a <= b <= |list| && OnList(list[a..b], height, hash)
    ensures OnList(list, height, hash)
  {
    var i :| 0 <= i < b - a && list[a..b][i].mark.height == height && list[a..b][i].mark.hash == hash;
    assert list[a + i].mark.height == height;
  }

  lemma {:induction false} SizeWithoutTail(list: seq<Point>, b: nat, lo: int, hi: int)
    requires b <= |list| && forall k :: b <= k < |list| ==> hi < list[k].mark.height
    ensures SizeBetween(list[..b], lo, hi) == SizeBetween(list, lo, hi)
    decreases |list|
  {
    if b == |list| {
      assert list[..b] == list;
    } else {
      var front := list[..|list| - 1];
      SizeWithoutTail(front, b, lo, hi);
      assert front[..b] == list[..b];
    }
  }

  lemma {:induction false} SizeWithoutFront(list: seq<Point>, a: nat, lo: int, hi: int)
    requires a <= |list| && forall k :: 0 <= k < a ==> list[k].mark.height <= lo
    ensures SizeBetween(list[a..], lo, hi) == SizeBetween(list, lo, hi)
    decreases |list|
  {
    if a < |list| {
      var front := list[..|list| - 1];
      SizeWithoutFront(front, a, lo, hi);
      assert list[a..][..|list| - a - 1] == front[a..];
    } else {
      NothingAbove(list, lo, hi);
    }
  }

  lemma {:induction false} NothingAbove(list: seq<Point>, lo: int, hi: int)
    requires forall k :: 0 <= k < |list| ==> list[k].mark.height <= lo
    ensures SizeBetween(list, lo, hi) == 0
  {
    if list != [] { NothingAbove(list[..|list| - 1], lo, hi); }
  }

  lemma SublistSize(list: seq<Point>, a: nat, b: nat, lo: int, hi: int)
    requires a < b <= |list| && Ascending(list) && list[a].mark.height <= lo && hi <= list[b - 1].mark.height
    ensures SizeBetween(list[a..b], lo, hi) == SizeBetween(list, lo, hi)
  {
    SizeWithoutTail(list, b, lo, hi);
    SizeWithoutFront(list[..b], a, lo, hi);
    assert list[..b][a..] == list[a..b];
  }

  lemma SublistNoWrap(list: seq<Point>, a: nat, b: nat)
    requires a < b <= |list| && NoWrap(list)
    ensures NoWrap(list[a..b])
  {
    forall i | 0 < i < b - a
      ensures list[a..b][i].size + MAX_SIZE < U64 && (i > 1 ==> list[a..b][i - 1].size + list[a..b][i].size < U64)
    {
      assert list[a..b][i] == list[a + i] && list[a..b][i - 1] == list[a + i - 1];
    }
  }

  lemma SublistBounded(list: seq<Point>, a: nat, b: nat, t: Segment)
    requires a < b <= |list| && Ascending(list) && Bounded(list[a..b], t)
    requires list[a].mark.height <= t.from - 1 && t.to <= list[b - 1].mark.height
    ensures Bounded(list, t)
  {
    if OneStep(list[a..b], t) {
      SublistOneStep(list, a, b, t);
    } else if NoWrap(list) {
      SublistNoWrap(list, a, b);
      SublistSize(list, a, b, t.from - 1, t.to);
    }
  }

  lemma SublistOneStep(list: seq<Point>, a: nat, b: nat, t: Segment)
    requires a < b <= |list| && OneStep(list[a..b], t)
    ensures OneStep(list, t)
  {
    var k :| 0 < k < b - a && list[a..b][k - 1].mark.height + 1 == t.from && list[a..b][k].mark.height == t.to;
    var i := a + k;
    assert list[i - 1].mark.height + 1 == t.from && list[i].mark.height == t.to;
  }

  lemma SublistEnds(list: seq<Point>, a: nat, b: nat, height: int, hash: Hash)
    requires a < b <= |list| && Ascending(list) && OnList(list[a..b], height, hash)
    ensures list[a].mark.height <= height <= list[b - 1].mark.height
  {
    var k :| 0 <= k < b - a && list[a..b][k].mark.height == height && list[a..b][k].mark.hash == hash;
    assert list[a + k].mark.height == height;
  }

  lemma SublistGood(list: seq<Point>, a: nat, b: nat, ts: seq<Segment>)
    requires a < b <= |list| && Ascending(list) && GoodTasks(list[a..b], ts)
    ensures GoodTasks(list, ts)
  {
    forall t | t in ts ensures Linked(list, t) && Bounded(list, t) {
      SublistLinked(list, a, b, t.from - 1, t.prevHash);
      SublistLinked(list, a, b, t.to, t.hash);
      SublistEnds(list, a, b, t.from - 1, t.prevHash);
      SublistEnds(list, a, b, t.to, t.hash);
      SublistBounded(list, a, b, t);
    }
  }

  /** The jumps from `c` on start at or after `height`, those before `c` end by `done`. */
  ghost predicate Split(wide: seq<Segment>, c: nat, done: nat, height: nat)
  {
    && c <= |wide|
    && (forall j :: 0 <= j < c ==> wide[j].to <= done)
    && (forall j :: c <= j < |wide| ==> height <= Before(wide[j]))
  }

  /** Outside any jump: everything up to point `start` is covered. */
  ghost predicate Outside(list: seq<Point>, wide: seq<Segment>, ts: seq<Segment>, index: nat, start: nat, c: nat,
                          done: nat)
  {
    && index <= |list| && start < |list| && start <= index && c <= |wide|
    && CoveredTo(ts, wide, c, list[0].mark.height, list[start].mark.height)
    && (index < |list| ==> done <= list[index].mark.height && Split(wide, c, done, list[index].mark.height))
    && (index == |list| ==> c == |wide|)
  }

  /** Inside jump `c - 1`: everything up to its end is covered, and the end is still to come. */
  ghost predicate Inside(list: seq<Point>, wide: seq<Segment>, ts: seq<Segment>, index: nat, c: nat, done: nat)
  {
    && 0 < index < |list| && 0 < c <= |wide|
    && wide[c - 1].to == done && list[index - 1].mark.height < done
    && CoveredTo(ts, wide, c, list[0].mark.height, done)
    && Split(wide, c, done, done)
  }

  lemma HeightOf(list: seq<Point>, merged: seq<Segment>, wide: seq<Segment>, c: nat) returns (i: nat, j: nat)
    requires AreJumps(list, merged, wide) && c < |wide|
    ensures i < j < |list| && list[i].mark.height == Before(wide[c]) && list[j].mark.height == wide[c].to
  {
    assert IsJump(list, merged[c], wide[c]);
    i :| 0 <= i < |list| && list[i].mark.height + 1 == wide[c].from;
    j :| 0 <= j < |list| && list[j].mark.height == wide[c].to;
  }

  /** A point before the end of the current jump is passed over. */
  lemma PassOver(list: seq<Point>, merged: seq<Segment>, wide: seq<Segment>, ts: seq<Segment>, index: nat, c: nat,
                 done: nat)
    requires AreJumps(list, merged, wide) && Inside(list, wide, ts, index, c, done)
    requires list[index].mark.height < done
    ensures Inside(list, wide, ts, index + 1, c, done)
  {
    var i, j := HeightOf(list, merged, wide, c - 1);
  }

  /** The first point not before the end of the current jump is its end. */
  lemma Leave(list: seq<Point>, merged: seq<Segment>, wide: seq<Segment>, ts: seq<Segment>, index: nat, c: nat,
              done: nat)
    requires AreJumps(list, merged, wide) && Inside(list, wide, ts, index, c, done)
    requires list[index].mark.height >= done
    ensures Outside(list, wide, ts, index, index, c, done)
  {
    var i, j := HeightOf(list, merged, wide, c - 1);
    assert index == j;
  }

  /** No jump starts here, so the plan moves to the next point. */
  lemma MoveOn(list: seq<Point>, merged: seq<Segment>, wide: seq<Segment>, jumps: map<int, nat>, ts: seq<Segment>,
               index: nat, start: nat, c: nat, done: nat)
    requires AreJumps(list, merged, wide) && IsJumpMap(merged, |merged|, jumps)
    requires index < |list| && Outside(list, wide, ts, index, start, c, done)
    requires list[index].mark.height !in jumps
    ensures Outside(list, wide, ts, index + 1, start, c, done)
  {
    forall k | c <= k < |wide|
      ensures index + 1 < |list| && list[index + 1].mark.height <= Before(wide[k])
    {
      StartsLater(list, merged, wide, jumps, index, k);
    }
    if c < |wide| { StartsLater(list, merged, wide, jumps, index, c); }
  }

  lemma StartsLater(list: seq<Point>, merged: seq<Segment>, wide: seq<Segment>, jumps: map<int, nat>, index: nat,
                    k: nat)
    requires AreJumps(list, merged, wide) && IsJumpMap(merged, |merged|, jumps)
    requires index < |list| && list[index].mark.height !in jumps && k < |wide| &&
             list[index].mark.height <= Before(wide[k])
    ensures index + 1 < |list| && list[index + 1].mark.height <= Before(wide[k])
  {
    var i, j := HeightOf(list, merged, wide, k);
    assert IsJump(list, merged[k], wide[k]);
    assert Before(merged[k]) in jumps;
    assert i > index;
  }

  lemma SplitNext(wide: seq<Segment>, c: nat, done: nat, height: nat)
    requires SortedDisjoint(wide) && Split(wide, c, done, height) && c < |wide|
    requires done < wide[c].to
    ensures Split(wide, c + 1, wide[c].to, wide[c].to)
  {
  }

  /** The jump found in the map at a point outside all jumps is the next one. */
  lemma FoundJump(list: seq<Point>, merged: seq<Segment>, wide: seq<Segment>, jumps: map<int, nat>, height: nat, c: nat,
                  done: nat)
    requires AreJumps(list, merged, wide) && IsJumpMap(merged, |merged|, jumps)
    requires done <= height && Split(wide, c, done, height)
    requires height in jumps
    ensures c < |wide| && Before(wide[c]) == height && jumps[height] == merged[c].to
  {
    var i :| 0 <= i < |merged| && Before(merged[i]) == height;
    assert IsJump(list, merged[i], wide[i]);
    assert i >= c;
    assert IsJump(list, merged[c], wide[c]);
    assert height <= Before(wide[c]);
  }

  /** Download tasks for the points start..index, added to a plan that reaches point `start`. */
  method PlanGap(list: seq<Point>, ghost wide: seq<Segment>, ts: seq<Segment>, start: nat, index: nat, ghost c: nat)
    returns (ts': seq<Segment>)
    requires start <= index < |list| && Ascending(list) && GoodTasks(list, ts) && c <= |wide|
    requires CoveredTo(ts, wide, c, list[0].mark.height, list[start].mark.height)
    ensures GoodTasks(list, ts')
    ensures CoveredTo(ts', wide, c, list[0].mark.height, list[index].mark.height)
  {
    var gap := list[start..index + 1];
    assert gap[0] == list[start] && gap[|gap| - 1] == list[index] && Ascending(gap);
    var more := ConstructTasks(gap);
    GapPlanned(list, wide, ts, more, start, index, c);
    ts' := ts + more;
  }

  lemma GapPlanned(list: seq<Point>, wide: seq<Segment>, ts: seq<Segment>, more: seq<Segment>, start: nat, index: nat,
                   c: nat)
    requires start <= index < |list| && Ascending(list) && GoodTasks(list, ts) && c <= |wide|
    requires CoveredTo(ts, wide, c, list[0].mark.height, list[start].mark.height)
    requires GoodTasks(list[start..index + 1], more)
    requires ExactCover(more, list[start].mark.height, list[index].mark.height)
    ensures GoodTasks(list, ts + more)
    ensures CoveredTo(ts + more, wide, c, list[0].mark.height, list[index].mark.height)
  {
    SublistGood(list, start, index + 1, more);
    CoverTasks(ts, more, wide, c, list[0].mark.height, list[start].mark.height, list[index].mark.height);
  }

  /** With everything planned up to a point where a merged segment starts, the plan enters the jump. */
  lemma Enter(list: seq<Point>, merged: seq<Segment>, wide: seq<Segment>, jumps: map<int, nat>, ts: seq<Segment>,
              index: nat, c: nat, done: nat)
    requires AreJumps(list, merged, wide) && IsJumpMap(merged, |merged|, jumps)
    requires index < |list| && done <= list[index].mark.height && Split(wide, c, done, list[index].mark.height)
    requires CoveredTo(ts, wide, c, list[0].mark.height, list[index].mark.height)
    requires list[index].mark.height in jumps
    ensures c < |wide| && Inside(list, wide, ts, index + 1, c + 1, wide[c].to)
    ensures SameEnd(list, index + 1, jumps[list[index].mark.height], wide[c].to)
  {
    FoundJump(list, merged, wide, jumps, list[index].mark.height, c, done);
    var i, j := HeightOf(list, merged, wide, c);
    SplitNext(wide, c, done, list[index].mark.height);
    CoverSegment(ts, wide, c, list[0].mark.height);
    assert IsJump(list, merged[c], wide[c]);
  }

  /** The end the code has noted separates the points to come as the end of the jump does. */
  ghost predicate SameEnd(list: seq<Point>, index: nat, segmentEnd: nat, done: nat)
  {
    segmentEnd <= done &&
    forall k :: index <= k < |list| ==> (list[k].mark.height >= segmentEnd <==> list[k].mark.height >= done)
  }

  ghost predicate PlanState(list: seq<Point>, wide: seq<Segment>, ts: seq<Segment>, index: nat, start: nat,
                            c: nat, inSegment: bool, segmentEnd: nat, done: nat)
  {
    && segmentEnd <= done
    && if inSegment then Inside(list, wide, ts, index, c, done) && SameEnd(list, index, segmentEnd, done)
       else Outside(list, wide, ts, index, start, c, done)
  }

  /** One point of the list. */
  method PlanPoint(list: seq<Point>, ghost merged: seq<Segment>, ghost wide: seq<Segment>, jumps: map<int, nat>,
                   ts: seq<Segment>, index: nat, start: nat, ghost c: nat, inSegment: bool, segmentEnd: nat,
                   ghost done: nat)
    returns (ts': seq<Segment>, start': nat, ghost c': nat, inSegment': bool, segmentEnd': nat, ghost done': nat)
    requires AreJumps(list, merged, wide) && IsJumpMap(merged, |merged|, jumps) && GoodTasks(list, ts)
    requires index < |list| && PlanState(list, wide, ts, index, start, c, inSegment, segmentEnd, done)
    ensures GoodTasks(list, ts')
    ensures PlanState(list, wide, ts', index + 1, start', c', inSegment', segmentEnd', done')
  {
    ts', start', c', inSegment', segmentEnd', done' := ts, start, c, inSegment, segmentEnd, done;
    var height := list[index].mark.height;
    if height < segmentEnd {
      PassOver(list, merged, wide, ts, index, c, done);
      return;
    }
    if inSegment {
      Leave(list, merged, wide, ts, index, c, done);
      start' := index;
    }
    inSegment' := false;
    if height in jumps {
      if index > 0 {
        ts' := PlanGap(list, wide, ts, start', index, c);
      }
      Enter(list, merged, wide, jumps, ts', index, c, done);
      inSegment', segmentEnd', c', done' := true, jumps[height], c + 1, wide[c].to;
    } else {
      MoveOn(list, merged, wide, jumps, ts, index, start', c, done);
    }
  }

  method PlanAround(list: seq<Point>, ghost merged: seq<Segment>, ghost wide: seq<Segment>, jumps: map<int, nat>)
    returns (ts: seq<Segment>)
    requires AreJumps(list, merged, wide) && IsJumpMap(merged, |merged|, jumps)
    ensures GoodTasks(list, ts)
    ensures CoveredTo(ts, wide, |wide|, list[0].mark.height, list[|list| - 1].mark.height)
  {
    ts := [];
    var start, segmentEnd, inSegment := 0, 0, false;
    ghost var c, done := 0, 0;
    PlanStart(list, merged, wide);
    for index := 0 to |list|
      invariant GoodTasks(list, ts) && start >= 0 && c >= 0 && segmentEnd >= 0 && done >= 0
      invariant PlanState(list, wide, ts, index, start, c, inSegment, segmentEnd, done)
    {
      ts, start, c, inSegment, segmentEnd, done :=
        PlanPoint(list, merged, wide, jumps, ts, index, start, c, inSegment, segmentEnd, done);
    }
    ts := PlanGap(list, wide, ts, start, |list| - 1, c);
  }

  lemma PlanStart(list: seq<Point>, merged: seq<Segment>, wide: seq<Segment>)
    requires AreJumps(list, merged, wide)
    ensures Outside(list, wide, [], 0, 0, 0, 0)
  {
    forall k | 0 <= k < |wide|
      ensures list[0].mark.height <= Before(wide[k])
    {
      var i, j := HeightOf(list, merged, wide, k);
    }
    assert wide[..0] == [];
  }

  // ----- the plan -----

  /** The heights of the list, each covered once, but for those missed. */
  ghost predicate CoverBut(list: seq<Point>, ts: seq<Segment>, kept: seq<Segment>)
    requires |list| > 0
  {
    forall h: nat :: Count(ts + kept, h) + (if Missed(list, kept, h) then 1 else 0)
                     == Within(list[0].mark.height, list[|list| - 1].mark.height, h)
  }

  /**
   Non-empty download tasks and kept cached segments cover the heights after the first point up to the last one,
   each height at most once, and every task hangs on the list by its hashes. The heights left out are exactly those
   between a lone empty segment and the next point, so the cover is exact if and only if there is no such segment.
   */
  method CompareCache(segments: seq<Segment>, list: seq<Point>)
    returns (ts: seq<Segment>, kept: seq<Segment>, deleted: seq<Segment>)
    requires |list| > 0 && Ascending(list)
    ensures CoverBut(list, ts, kept)
    ensures ExactCover(ts + kept, list[0].mark.height, list[|list| - 1].mark.height) <==>
            LoneEnds(Choice(list, segments, true)) == {}
    ensures GoodTasks(list, ts)
    ensures Kept(list, segments, kept)
    ensures kept == Choice(list, segments, true) && deleted == Choice(list, segments, false)
    ensures Tidy(segments) ==>
              kept == Select(list, segments, true) && deleted == Select(list, segments, false)
  {
    kept, deleted := ChooseSegments(segments, list);
    if kept == [] {
      ts := ConstructTasks(list);
      assert ts + kept == ts;
    } else {
      KeptEnds(list, segments, kept);
      var merged := MergeSegments(list, kept);
      MergedOrder(list, merged);
      var jumps := JumpMap(merged);
      ghost var wide := JumpsOf(list, merged);
      ts := PlanAround(list, merged, wide, jumps);
      PlanCovers(list, ts, merged, wide, kept);
    }
    ExactIffNoneLone(list, ts, kept);
  }

  lemma MergedOrder(list: seq<Point>, merged: seq<Segment>)
    requires AllOnList(list, merged)
    ensures forall i :: 0 <= i < |merged| ==> merged[i].from <= merged[i].to + 1
  {
    forall i | 0 <= i < |merged| ensures merged[i].from <= merged[i].to + 1 { assert EndsOnList(list, merged[i]); }
  }

  lemma KeptEnds(list: seq<Point>, segments: seq<Segment>, kept: seq<Segment>)
    requires |list| > 0 && Kept(list, segments, kept)
    ensures forall s :: s in kept ==> EndsOnList(list, s)
  {
    forall s | s in kept ensures EndsOnList(list, s) {
      var i :| 0 <= i < |list| && list[i].mark.height == s.from - 1;
      assert list[i].mark.height + 1 == s.from;
    }
  }

  lemma PlanCoversAt(list: seq<Point>, ts: seq<Segment>, merged: seq<Segment>, wide: seq<Segment>, kept: seq<Segment>,
                     h: nat)
    requires AreJumps(list, merged, wide) && SameHeights(merged, kept) && EmptyEnds(merged) == LoneEnds(kept)
    ensures Count(ts + kept, h) + (if Missed(list, kept, h) then 1 else 0) == Count(ts, h) + Count(wide, h)
  {
    assert wide[..|wide|] == wide && merged[..|merged|] == merged;
    CountConcat(ts, kept, h);
    JumpsCount(list, merged, wide, |wide|, h);
  }

  lemma PlanCovers(list: seq<Point>, ts: seq<Segment>, merged: seq<Segment>, wide: seq<Segment>, kept: seq<Segment>)
    requires AreJumps(list, merged, wide) && SameHeights(merged, kept) && EmptyEnds(merged) == LoneEnds(kept)
    requires CoveredTo(ts, wide, |wide|, list[0].mark.height, list[|list| - 1].mark.height)
    ensures CoverBut(list, ts, kept)
  {
    assert wide[..|wide|] == wide;
    forall h: nat
      ensures Count(ts + kept, h) + (if Missed(list, kept, h) then 1 else 0)
              == Within(list[0].mark.height, list[|list| - 1].mark.height, h)
    {
      PlanCoversAt(list, ts, merged, wide, kept, h);
    }
  }

  lemma ExactIffNoneLone(list: seq<Point>, ts: seq<Segment>, kept: seq<Segment>)
    requires |list| > 0 && CoverBut(list, ts, kept)
    ensures ExactCover(ts + kept, list[0].mark.height, list[|list| - 1].mark.height) <==> LoneEnds(kept) == {}
  {
    if e :| e in LoneEnds(kept) {
      assert InGap(list, e, e + 1);
      assert Missed(list, kept, e + 1);
      assert Count(ts + kept, e + 1) + 1 == Within(list[0].mark.height, list[|list| - 1].mark.height, e + 1);
    }
  }

  /**
   Every inner point of every list gives an input that fails: a cached segment without blocks there leaves out the
   heights up to the next point.
   */
  lemma EmptySegmentLeavesGap(list: seq<Point>, k: nat, s: Segment)
    requires Ascending(list) && 0 < k < |list| - 1
    requires s.from == list[k].mark.height + 1 && s.to == list[k].mark.height &&
             s.prevHash == s.hash == list[k].mark.hash
    ensures Tidy([s]) && Select(list, [s], true) == [s] && Missed(list, [s], list[k + 1].mark.height)
  {
    assert Linked(list, s) && Overlaps(list, s);
    SelectStep(list, [s], 0, true);
    assert [s][..0] == [] && [s][..1] == [s];
    LoneFirst(s, s.to);
    assert InGap(list, s.to, list[k + 1].mark.height);
  }
}
