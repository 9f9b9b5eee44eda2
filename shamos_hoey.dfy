/** The Shamos-Hoey sweep: an event queue holding one LEFT and one RIGHT event
    per segment, a sweep line keeping the open segments in an ordered set, and
    the driver that pops events in point order and tests neighbours in that set.
    Coordinates are integers; the sign tests are exact. */
module ShamosHoey {
  import opened Geometry
  import opened Options

  /* ---------------------------------------------------------------------- */
  /* Distance and the crossing test                                         */
  /* ---------------------------------------------------------------------- */

  /** distance(p, s1, s2), with the formula exactly as the code writes it: its
      last factor subtracts p.y from s1.x. */
  function Distance(p: Point, s1: Point, s2: Point): (d: int)
    ensures p == s2 ==> d == 0
    ensures p.x == s1.x && p.x == s2.x ==> d == 0
  {
    (s1.x - p.x) * (s2.y - p.y) - (s2.x - p.x) * (s1.x - p.y)
  }

  /** distance(p, s): the three-point form on the segment's two endpoints. */
  function SegmentDistance(p: Point, s: Segment): (d: int)
    ensures d == Distance(p, s.first, s.last)
    ensures p == s.last ==> d == 0
  {
    Distance(p, s.first, s.last)
  }

  /** A segment on the sweep line: its input index and its endpoints ordered so
      that left is not after right. */
  datatype SLSegment = SLSegment(edge: nat, left: Point, right: Point)

  predicate SharesEndpoint(s1: SLSegment, s2: SLSegment)
  {
    s1.left == s2.left || s1.right == s2.right || s1.left == s2.right || s1.right == s2.left
  }

  /** The first sign test: do the two distances it takes have the same strict sign? */
  predicate SameSide(a: SLSegment, b: SLSegment)
  {
    Distance(a.left, a.right, b.left) * Distance(a.left, a.right, b.right) > 0
  }

  /** intersect: false when the segments share an endpoint; otherwise true
      unless one of the two sign tests finds both distances with one strict sign. */
  function Intersect(s1: SLSegment, s2: SLSegment): (r: bool)
    ensures SharesEndpoint(s1, s2) ==> !r
    ensures r ==> Distance(s1.left, s1.right, s2.left) * Distance(s1.left, s1.right, s2.right) <= 0
    ensures r ==> Distance(s2.left, s2.right, s1.left) * Distance(s2.left, s2.right, s1.right) <= 0
  {
    if SharesEndpoint(s1, s2) then false
    else if SameSide(s1, s2) then false
    else if SameSide(s2, s1) then false
    else true
  }

  /** The crossing test is symmetric: the endpoint check is, and the two sign tests trade places. */
  lemma IntersectSymmetric(s1: SLSegment, s2: SLSegment)
    ensures Intersect(s1, s2) == Intersect(s2, s1)
  {
  }

  /** A segment never crosses itself, nor any segment with the same endpoints. */
  lemma IntersectIrreflexive(s1: SLSegment, s2: SLSegment)
    requires s1.left == s2.left && s1.right == s2.right
    ensures !Intersect(s1, s2)
  {
  }

  /* ---------------------------------------------------------------------- */
  /* Normalised segments and their order                                    */
  /* ---------------------------------------------------------------------- */

  /** convert: the segment with its endpoints put in point order, tagged with its index. */
  function Convert(index: nat, segment: Segment): (r: SLSegment)
    ensures r.edge == index
    ensures (r.left, r.right) == (segment.first, segment.last)
         || (r.left, r.right) == (segment.last, segment.first)
    ensures !CompareLt(r.right, r.left)
    ensures segment.first != segment.last ==> CompareLt(r.left, r.right)
  {
    if CompareLt(segment.first, segment.last) then SLSegment(index, segment.first, segment.last)
    else SLSegment(index, segment.last, segment.first)
  }

  /** Two sweep-line segments with the same endpoints: the comparator cannot tell them apart. */
  predicate SameKey(a: SLSegment, b: SLSegment)
  {
    a.left == b.left && a.right == b.right
  }

  /** SLSegmentComparator: by left endpoint, then by right endpoint; the index
      is ignored. Under the point order this is the lexicographic order on the
      pair (left, right). */
  predicate SLLess(s1: SLSegment, s2: SLSegment)
    ensures SLLess(s1, s2) <==>
              CompareLt(s1.left, s2.left) || (s1.left == s2.left && CompareLt(s1.right, s2.right))
  {
    if CompareLt(s1.left, s2.left) then true
    else if CompareGt(s1.left, s2.left) then false
    else if CompareLt(s1.right, s2.right) then true
    else false
  }

  /** The comparator is a strict order whose equivalence is SameKey, so the
      ordered set holds at most one segment per pair of endpoints. */
  lemma SLOrder(a: SLSegment, b: SLSegment, c: SLSegment)
    ensures SLLess(a, b) ==> !SLLess(b, a) && !SameKey(a, b)
    ensures SLLess(a, b) && SLLess(b, c) ==> SLLess(a, c)
    ensures SameKey(a, b) <==> !SLLess(a, b) && !SLLess(b, a)
    ensures SLLess(a, b) && SameKey(b, c) ==> SLLess(a, c)
  {
  }

  /** The sweep-line order of a sequence: strictly increasing under the comparator. */
  ghost predicate StrictlySorted(t: seq<SLSegment>)
  {
    forall i, j :: 0 <= i < j < |t| ==> SLLess(t[i], t[j])
  }

  /** A strictly sorted sequence never holds two comparator-equal segments. */
  lemma SortedKeysDistinct(t: seq<SLSegment>, i: nat, j: nat)
    requires StrictlySorted(t)
    requires i < |t| && j < |t| && i != j
    ensures !SameKey(t[i], t[j])
  {
    if i < j { SLOrder(t[i], t[j], t[j]); } else { SLOrder(t[j], t[i], t[i]); }
  }

  predicate HasKey(t: seq<SLSegment>, s: SLSegment)
  {
    exists k :: 0 <= k < |t| && SameKey(t[k], s)
  }

  /** Removing the position that holds s's key from a sorted sequence keeps it
      sorted and removes exactly the segments with s's key. */
  lemma EraseAt(t: seq<SLSegment>, p: nat, s: SLSegment)
    requires StrictlySorted(t) && p < |t| && SameKey(t[p], s)
    ensures StrictlySorted(t[..p] + t[p + 1..])
    ensures |t[..p] + t[p + 1..]| == |t| - 1
    ensures forall x :: x in t[..p] + t[p + 1..] <==> x in t && !SameKey(x, s)
    ensures !HasKey(t[..p] + t[p + 1..], s)
  {
    var t' := t[..p] + t[p + 1..];
    RemoveAtIndex(t, p);
    EraseAtMembers(t, p, s);
    forall k | 0 <= k < |t'| ensures !SameKey(t'[k], s) {
      assert t'[k] in t';
    }
  }

  /** The positions of a sequence with position p removed. */
  lemma RemoveAtIndex(t: seq<SLSegment>, p: nat)
    requires p < |t|
    ensures |t[..p] + t[p + 1..]| == |t| - 1
    ensures forall i :: 0 <= i < |t| - 1 ==> (t[..p] + t[p + 1..])[i] == if i < p then t[i] else t[i + 1]
    ensures StrictlySorted(t) ==> StrictlySorted(t[..p] + t[p + 1..])
  {
  }

  lemma EraseAtMembers(t: seq<SLSegment>, p: nat, s: SLSegment)
    requires StrictlySorted(t) && p < |t| && SameKey(t[p], s)
    ensures forall x :: x in t[..p] + t[p + 1..] <==> x in t && !SameKey(x, s)
  {
    var t' := t[..p] + t[p + 1..];
    RemoveAtIndex(t, p);
    forall x | x in t' ensures x in t {
      var i :| 0 <= i < |t'| && t'[i] == x;
      if i < p { assert t[i] == x; } else { assert t[i + 1] == x; }
    }
    forall x | x in t ensures x in t' <==> !SameKey(x, s) {
      var k :| 0 <= k < |t| && t[k] == x;
      if k < p {
        SortedKeysDistinct(t, k, p);
        assert t'[k] == x;
      } else if k > p {
        SortedKeysDistinct(t, k, p);
        assert t'[k - 1] == x;
      } else {
        forall i | 0 <= i < |t'| ensures t'[i] != x {
          if i < p { SortedKeysDistinct(t, i, p); } else { SortedKeysDistinct(t, i + 1, p); }
        }
      }
    }
  }

  /** Without s's key in the sequence, no element has it. */
  lemma NoKeyNoMember(t: seq<SLSegment>, s: SLSegment)
    requires !HasKey(t, s)
    ensures forall x :: x in t ==> !SameKey(x, s)
  {
    forall x | x in t ensures !SameKey(x, s) {
      var k :| 0 <= k < |t| && t[k] == x;
    }
  }

  /** The set after inserting s: unchanged when it holds s's key, otherwise s
      put at the search position. */
  function InsertKey(t: seq<SLSegment>, s: SLSegment): seq<SLSegment>
  {
    var p := LowerBound(t, s);
    if p < |t| && SameKey(t[p], s) then t else t[..p] + [s] + t[p..]
  }

  /** The set after erasing s's key: the search position removed when it
      holds that key, otherwise the set unchanged. */
  function EraseKey(t: seq<SLSegment>, s: SLSegment): seq<SLSegment>
  {
    var p := LowerBound(t, s);
    if p < |t| && SameKey(t[p], s) then t[..p] + t[p + 1..] else t
  }

  /** The first position whose segment is not before s (the search an ordered set does). */
  function LowerBound(t: seq<SLSegment>, s: SLSegment): (k: nat)
    ensures k <= |t|
    ensures forall j :: 0 <= j < k ==> SLLess(t[j], s)
    ensures StrictlySorted(t) ==> forall j :: k <= j < |t| ==> !SLLess(t[j], s)
  {
    if t == [] then 0
    else if SLLess(t[0], s) then 1 + LowerBound(t[1..], s)
    else
      assert StrictlySorted(t) ==> forall j :: 0 < j < |t| ==> SLLess(t[0], t[j]);
      0
  }

  /** In a sorted sequence a segment with s's key, if any, sits at LowerBound(t, s). */
  lemma LowerBoundFindsKey(t: seq<SLSegment>, s: SLSegment)
    requires StrictlySorted(t)
    ensures HasKey(t, s) <==> LowerBound(t, s) < |t| && SameKey(t[LowerBound(t, s)], s)
  {
    var p := LowerBound(t, s);
    forall j | 0 <= j < |t| && j != p ensures !SameKey(t[j], s) {
      if j < p { SLOrder(t[j], s, s); } else { SLOrder(t[p], t[j], s); }
    }
  }

  /* ---------------------------------------------------------------------- */
  /* Events and the event queue                                             */
  /* ---------------------------------------------------------------------- */

  datatype EventType = Left | Right

  datatype Event = Event(edge: nat, point: Point, kind: EventType)

  /** EventComparator: the priority queue's "less" relation, which is
      compare_gt on the points so that the smallest point is on top. */
  predicate EventComparator(e1: Event, e2: Event)
    ensures EventComparator(e1, e2) <==> CompareLt(e2.point, e1.point)
  {
    CompareGt(e1.point, e2.point)
  }

  /** The LEFT event of segment i: at its point-order-smaller endpoint. */
  function LeftEvent(i: nat, s: Segment): Event
  {
    Event(i, Convert(i, s).left, Left)
  }

  /** The RIGHT event of segment i: at its other endpoint. */
  function RightEvent(i: nat, s: Segment): Event
  {
    Event(i, Convert(i, s).right, Right)
  }

  /** The two events the constructor builds for segment i, as it builds them:
      e1 at the first point and e2 at the last, typed by compare_lt(first, last). */
  function SegmentEvents(i: nat, s: Segment): (r: (Event, Event))
    ensures multiset{r.0, r.1} == multiset{LeftEvent(i, s), RightEvent(i, s)}
    ensures r.0.point == s.first && r.1.point == s.last
  {
    if CompareLt(s.first, s.last) then (Event(i, s.first, Left), Event(i, s.last, Right))
    else (Event(i, s.first, Right), Event(i, s.last, Left))
  }

  /** The events of the first k segments. */
  function EventsUpTo(segments: seq<Segment>, k: nat): multiset<Event>
    requires k <= |segments|
  {
    if k == 0 then multiset{}
    else EventsUpTo(segments, k - 1) + multiset{LeftEvent(k - 1, segments[k - 1]), RightEvent(k - 1, segments[k - 1])}
  }

  /** Pushing the two events the constructor builds for segment i extends the events of the first i segments. */
  lemma EventsUpToStep(segments: seq<Segment>, i: nat)
    requires i < |segments|
    ensures EventsUpTo(segments, i + 1)
         == EventsUpTo(segments, i) + multiset{SegmentEvents(i, segments[i]).0} + multiset{SegmentEvents(i, segments[i]).1}
  {
    var pair := SegmentEvents(i, segments[i]);
    assert multiset{pair.0} + multiset{pair.1} == multiset{pair.0, pair.1};
  }

  /** The events of the first k segments are 2k events. */
  lemma {:induction false} EventsUpToSize(segments: seq<Segment>, k: nat)
    requires k <= |segments|
    ensures |EventsUpTo(segments, k)| == 2 * k
  {
    if k > 0 {
      EventsUpToSize(segments, k - 1);
    }
  }

  /** Every event of the first k segments is the LEFT or the RIGHT event of an index below k. */
  lemma {:induction false} EventsUpToMembers(segments: seq<Segment>, k: nat, e: Event)
    requires k <= |segments|
    requires e in EventsUpTo(segments, k)
    ensures e.edge < k
    ensures e == LeftEvent(e.edge, segments[e.edge]) || e == RightEvent(e.edge, segments[e.edge])
  {
    var prev := EventsUpTo(segments, k - 1);
    if e in prev {
      EventsUpToMembers(segments, k - 1, e);
    }
  }

  /** Every index below k has exactly one LEFT and exactly one RIGHT event among
      the events of the first k segments. */
  lemma {:induction false} EventsUpToOnce(segments: seq<Segment>, k: nat, i: nat)
    requires i < k <= |segments|
    ensures EventsUpTo(segments, k)[LeftEvent(i, segments[i])] == 1
    ensures EventsUpTo(segments, k)[RightEvent(i, segments[i])] == 1
  {
    var l, r := LeftEvent(i, segments[i]), RightEvent(i, segments[i]);
    if i == k - 1 {
      if l in EventsUpTo(segments, k - 1) {
        EventsUpToMembers(segments, k - 1, l);
      }
      if r in EventsUpTo(segments, k - 1) {
        EventsUpToMembers(segments, k - 1, r);
      }
    } else {
      EventsUpToOnce(segments, k - 1, i);
    }
  }

  /** A priority queue of events; pop yields an event with the least point. */
  class EventQueue {
    /** The queued events (the heap's contents, without its layout). */
    var events: multiset<Event>

    /** Builds one LEFT and one RIGHT event per segment and pushes them. */
    constructor (segments: seq<Segment>)
      ensures events == EventsUpTo(segments, |segments|)
    {
      events := multiset{};
      new;
      var i := 0;
      while i < |segments|
        invariant 0 <= i <= |segments|
        invariant events == EventsUpTo(segments, i)
      {
        var pair := SegmentEvents(i, segments[i]);
        EventsUpToStep(segments, i);
        Push(pair.0);
        Push(pair.1);
        i := i + 1;
      }
    }

    predicate IsEmpty()
      reads this
      ensures IsEmpty() <==> |events| == 0
    {
      events == multiset{}
    }

    method Push(e: Event)
      modifies this
      ensures events == old(events) + multiset{e}
    {
      events := events + multiset{e};
    }

    /** top() followed by pop(): removes and returns an event that no queued
        event precedes; among equal points the choice is left open. */
    method Pop() returns (e: Event)
      requires !IsEmpty()
      modifies this
      ensures e in old(events)
      ensures forall f :: f in old(events) ==> !EventComparator(e, f)
      ensures events == old(events) - multiset{e}
    {
      LeastEventExists(events);
      e :| e in events && NoneBefore(events, e);
      events := events - multiset{e};
    }
  }

  /** No event of m has a point before e's. */
  predicate NoneBefore(m: multiset<Event>, e: Event)
  {
    forall f :: f in m ==> !CompareLt(f.point, e.point)
  }
  /** A non-empty queue holds an event that no queued event precedes. */
  lemma {:induction false} LeastEventExists(m: multiset<Event>)
    requires m != multiset{}
    ensures exists e :: e in m && NoneBefore(m, e)
    decreases |m|
  {
    var x :| x in m;
    var rest := m - multiset{x};
    assert |rest| < |m|;
    if rest == multiset{} {
      assert m == multiset{x};
    } else {
      LeastEventExists(rest);
      var y :| y in rest && NoneBefore(rest, y);
      var least := if CompareLt(x.point, y.point) then x else y;
      assert NoneBefore(m, least) by {
      forall f | f in m ensures !CompareLt(f.point, least.point) {
        assert f == x || f in rest;
        PointOrder(f.point, x.point, y.point);
        PointOrder(f.point, y.point, x.point);
      }
      }
    }
  }

  /* ---------------------------------------------------------------------- */
  /* The sweep line                                                         */
  /* ---------------------------------------------------------------------- */

  /** The open segments: a map from index to raw segment, and the ordered set
      of their normalised forms, kept as a strictly increasing sequence. */
  class SweepLine {
    var segments: map<nat, Segment>
    var tree: seq<SLSegment>

    ghost predicate Valid()
      reads this
    {
      StrictlySorted(tree)
    }

    constructor ()
      ensures Valid()
      ensures segments == map[] && tree == []
    {
      segments, tree := map[], [];
    }

    /** get: the stored segment of an index, normalised; None where at() throws. */
    function Get(index: nat): (r: Option<SLSegment>)
      reads this
      ensures r.Some? <==> index in segments
      ensures r.Some? ==> r.value == Convert(index, segments[index])
    {
      if index in segments then Some(Convert(index, segments[index])) else None
    }

    /** insert: stores the raw segment, then inserts the normalised one unless
        a comparator-equal segment is already in the set; returns its position
        and whether it was inserted. */
    method Insert(index: nat, segment: Segment) returns (pos: nat, inserted: bool)
      requires Valid()
      modifies this
      ensures Valid()
      ensures segments == old(segments)[index := segment]
      ensures inserted <==> !HasKey(old(tree), Convert(index, segment))
      ensures pos < |tree| && SameKey(tree[pos], Convert(index, segment))
      ensures pos == LowerBound(old(tree), Convert(index, segment))
      ensures inserted ==> tree == old(tree)[..pos] + [Convert(index, segment)] + old(tree)[pos..]
      ensures !inserted ==> tree == old(tree)
      ensures tree == InsertKey(old(tree), Convert(index, segment))
    {
      var s := Convert(index, segment);
      segments := segments[index := segment];
      pos := LowerBound(tree, s);
      LowerBoundFindsKey(tree, s);
      if pos < |tree| && SameKey(tree[pos], s) {
        inserted := false;
      } else {
        ghost var t := tree;
        forall j | pos <= j < |t| ensures SLLess(s, t[j]) {
          SLOrder(s, t[pos], t[j]);
          SLOrder(t[pos], s, s);
        }
        tree := tree[..pos] + [s] + tree[pos..];
        inserted := true;
      }
    }

    /** find: the position of the index's normalised segment, |tree| (the end)
        when the set has none; None where get() throws. */
    function Find(index: nat): (r: Option<nat>)
      reads this
      requires Valid()
      ensures r.Some? <==> index in segments
      ensures r.Some? ==> r.value <= |tree|
      ensures r.Some? ==> (r.value < |tree| <==> HasKey(tree, Convert(index, segments[index])))
      ensures r.Some? && r.value < |tree| ==> SameKey(tree[r.value], Convert(index, segments[index]))
      ensures r.Some? && r.value < |tree| ==> r.value == LowerBound(tree, Convert(index, segments[index]))
    {
      match Get(index)
      case None => None
      case Some(s) =>
        LowerBoundFindsKey(tree, s);
        var p := LowerBound(tree, s);
        if p < |tree| && SameKey(tree[p], s) then Some(p) else Some(|tree|)
    }

    /** erase: drops the index from the map and its normalised segment from the
        set, returning how many set elements went; None where get() throws, and
        then nothing changes. */
    method Erase(index: nat) returns (r: Option<nat>)
      requires Valid()
      modifies this
      ensures Valid()
      ensures index !in old(segments) ==> r == None && segments == old(segments) && tree == old(tree)
      ensures index in old(segments) ==>
                var key := Convert(index, old(segments)[index]);
                && segments == old(segments) - {index}
                && r == Some(if HasKey(old(tree), key) then 1 else 0)
                && !HasKey(tree, key)
                && |tree| == |old(tree)| - r.value
                && (forall x :: x in tree <==> x in old(tree) && !SameKey(x, key))
                && tree == EraseKey(old(tree), key)
    {
      var g := Get(index);
      if g.None? {
        return None;
      }
      var s := g.value;
      segments := segments - {index};
      var p := LowerBound(tree, s);
      LowerBoundFindsKey(tree, s);
      if p < |tree| && SameKey(tree[p], s) {
        EraseAt(tree, p, s);
        tree := tree[..p] + tree[p + 1..];
        r := Some(1);
      } else {
        NoKeyNoMember(tree, s);
        r := Some(0);
      }
    }

    /** size: the number of segments in the ordered set. */
    function Size(): (n: nat)
      reads this
      ensures n == |tree|
      ensures n == 0 <==> tree == []
    {
      |tree|
    }
  }

  /* ---------------------------------------------------------------------- */
  /* The driver                                                             */
  /* ---------------------------------------------------------------------- */

  /** Some two different input segments cross, by the crossing test on their normalised forms. */
  ghost predicate Crossing(segments: seq<Segment>)
  {
    exists i, j :: 0 <= i < |segments| && 0 <= j < |segments| && i != j
      && Intersect(Convert(i, segments[i]), Convert(j, segments[j]))
  }

  /** A sufficient condition for the code to reach neither an exception nor
      undefined behaviour: no segment has zero length, and no two segments
      normalise to the same pair of endpoints. Some inputs outside it are
      answered without error as well. */
  ghost predicate WellFormed(segments: seq<Segment>)
  {
    && (forall i :: 0 <= i < |segments| ==> segments[i].first != segments[i].last)
    && (forall i, j :: 0 <= i < j < |segments| ==> !SameKey(Convert(i, segments[i]), Convert(j, segments[j])))
  }

  /** Which segments are open: a segment is open once its LEFT event has left
      the queue and until its RIGHT event does; a RIGHT event never leaves before
      its LEFT event; the map holds exactly the open segments, unchanged. */
  ghost predicate OpenSegments(segments: seq<Segment>, queued: multiset<Event>, open: map<nat, Segment>)
  {
    && (forall i :: 0 <= i < |segments| && RightEvent(i, segments[i]) !in queued ==>
          LeftEvent(i, segments[i]) !in queued)
    && (forall i :: i in open <==>
          0 <= i < |segments| && LeftEvent(i, segments[i]) !in queued && RightEvent(i, segments[i]) in queued)
    && (forall i :: i in open ==> open[i] == segments[i])
  }

  /** The ordered set holds exactly the normalised forms of the open segments. */
  ghost predicate TreeOfOpen(segments: seq<Segment>, open: map<nat, Segment>, t: seq<SLSegment>)
  {
    && StrictlySorted(t)
    && (forall x :: x in t ==>
          x.edge in open && x.edge < |segments| && x == Convert(x.edge, segments[x.edge]))
    && (forall i :: i in open ==> 0 <= i < |segments| && Convert(i, segments[i]) in t)
  }

  /** Two different positions of the ordered set whose segments cross witness a Crossing. */
  lemma CrossingFromTree(segments: seq<Segment>, open: map<nat, Segment>, t: seq<SLSegment>, a: nat, b: nat)
    requires TreeOfOpen(segments, open, t)
    requires a < |t| && b < |t| && a != b
    requires Intersect(t[a], t[b])
    ensures Crossing(segments)
  {
    SortedKeysDistinct(t, a, b);
    var i, j := t[a].edge, t[b].edge;
    assert Intersect(Convert(i, segments[i]), Convert(j, segments[j]));
  }

  /** A segment that is not open yet has no comparator-equal segment in the set. */
  lemma KeyAbsentBeforeInsert(segments: seq<Segment>, open: map<nat, Segment>, t: seq<SLSegment>, i: nat)
    requires WellFormed(segments) && TreeOfOpen(segments, open, t)
    requires i < |segments| && i !in open
    ensures !HasKey(t, Convert(i, segments[i]))
  {
    forall k | 0 <= k < |t| ensures !SameKey(t[k], Convert(i, segments[i])) {
      var j := t[k].edge;
      if j < i {
        assert !SameKey(Convert(j, segments[j]), Convert(i, segments[i]));
      } else {
        assert !SameKey(Convert(i, segments[i]), Convert(j, segments[j]));
      }
    }
  }

  /** Inserting the normalised form of a newly opened segment keeps the set in step with the open segments. */
  lemma TreeAfterInsert(segments: seq<Segment>, open: map<nat, Segment>, t: seq<SLSegment>,
                        i: nat, pos: nat, t': seq<SLSegment>)
    requires TreeOfOpen(segments, open, t)
    requires i < |segments| && pos <= |t|
    requires StrictlySorted(t')
    requires t' == t[..pos] + [Convert(i, segments[i])] + t[pos..]
    ensures TreeOfOpen(segments, open[i := segments[i]], t')
  {
    assert t == t[..pos] + t[pos..];
    assert forall x :: x in t' <==> x in t || x == Convert(i, segments[i]);
  }

  /** Erasing the normalised form of a closing segment keeps the set in step with the open segments. */
  lemma TreeAfterErase(segments: seq<Segment>, open: map<nat, Segment>, t: seq<SLSegment>,
                       i: nat, t': seq<SLSegment>)
    requires WellFormed(segments) && TreeOfOpen(segments, open, t)
    requires i in open
    requires StrictlySorted(t')
    requires forall x :: x in t' <==> x in t && !SameKey(x, Convert(i, segments[i]))
    ensures TreeOfOpen(segments, open - {i}, t')
  {
    var c := Convert(i, segments[i]);
    forall j | j in open && j != i ensures Convert(j, segments[j]) in t' {
      if j < i {
        assert !SameKey(Convert(j, segments[j]), c);
      } else {
        assert !SameKey(c, Convert(j, segments[j]));
      }
    }
  }

  /** Popping the LEFT event of a segment that is not open opens it. */
  lemma OpenAfterLeft(segments: seq<Segment>, queued: multiset<Event>, open: map<nat, Segment>,
                      i: nat, queued': multiset<Event>)
    requires OpenSegments(segments, queued, open)
    requires i < |segments| && LeftEvent(i, segments[i]) in queued
    requires queued == queued' + multiset{LeftEvent(i, segments[i])}
    requires LeftEvent(i, segments[i]) !in queued'
    ensures i !in open
    ensures OpenSegments(segments, queued', open[i := segments[i]])
  {
    assert RightEvent(i, segments[i]) in queued';
  }

  /** The RIGHT event of a segment pops only after its LEFT event, so the segment is open. */
  lemma OpenAtRight(segments: seq<Segment>, queued: multiset<Event>, open: map<nat, Segment>, i: nat)
    requires WellFormed(segments) && OpenSegments(segments, queued, open)
    requires i < |segments| && RightEvent(i, segments[i]) in queued
    requires forall f :: f in queued ==> !CompareLt(f.point, RightEvent(i, segments[i]).point)
    ensures i in open
  {
    assert CompareLt(LeftEvent(i, segments[i]).point, RightEvent(i, segments[i]).point);
  }

  /** Popping the RIGHT event of an open segment closes it. */
  lemma OpenAfterRight(segments: seq<Segment>, queued: multiset<Event>, open: map<nat, Segment>,
                       i: nat, queued': multiset<Event>)
    requires OpenSegments(segments, queued, open)
    requires i in open
    requires queued == queued' + multiset{RightEvent(i, segments[i])}
    requires RightEvent(i, segments[i]) !in queued'
    ensures OpenSegments(segments, queued', open - {i})
  {
  }

  /** The popped events so far, in non-decreasing point order, none of them
      after a still-queued event; together with the queue they are all events. */
  ghost predicate SweptInOrder(trace: seq<Event>, queued: multiset<Event>, all: multiset<Event>)
  {
    && multiset(trace) + queued == all
    && InPointOrder(trace)
    && (forall f, t :: f in queued && t in trace ==> !CompareLt(f.point, t.point))
  }

  /** The events of a trace are in non-decreasing point order. */
  ghost predicate InPointOrder(trace: seq<Event>)
  {
    forall a, b :: 0 <= a < b < |trace| ==> !CompareLt(trace[b].point, trace[a].point)
  }

  /** Popping a least event keeps the trace in order. */
  lemma PopInOrder(trace: seq<Event>, queued: multiset<Event>, all: multiset<Event>,
                   e: Event, queued': multiset<Event>)
    requires SweptInOrder(trace, queued, all)
    requires e in queued && NoneBefore(queued, e)
    requires queued == queued' + multiset{e}
    ensures SweptInOrder(trace + [e], queued', all)
  {
    var trace' := trace + [e];
    assert multiset(trace') == multiset(trace) + multiset{e};
    forall a, b | 0 <= a < b < |trace'| ensures !CompareLt(trace'[b].point, trace'[a].point) {
      if b < |trace| {
        assert trace'[a] == trace[a] && trace'[b] == trace[b];
      } else {
        assert trace'[a] in trace;
      }
    }
    forall f, t | f in queued' && t in trace' ensures !CompareLt(f.point, t.point) {
      assert f in queued;
      if t != e {
        assert t in trace;
      }
    }
  }

  /** A popped event is the LEFT or the RIGHT event of some input segment, and
      it is queued only once. */
  lemma PoppedEvent(segments: seq<Segment>, queued: multiset<Event>, e: Event, queued': multiset<Event>)
    requires queued <= EventsUpTo(segments, |segments|)
    requires queued == queued' + multiset{e}
    ensures e.edge < |segments|
    ensures e == LeftEvent(e.edge, segments[e.edge]) || e == RightEvent(e.edge, segments[e.edge])
    ensures e !in queued'
  {
    var all := EventsUpTo(segments, |segments|);
    assert e in all;
    EventsUpToMembers(segments, |segments|, e);
    EventsUpToOnce(segments, |segments|, e.edge);
    assert queued[e] <= all[e] == 1;
  }

  /** The ordered set after event e, when e reports nothing: a LEFT event
      inserts its normalised segment at the search position unless that key is
      present; a RIGHT event erases the segment with its key, if any. */
  ghost function EventTree(segments: seq<Segment>, t: seq<SLSegment>, e: Event): seq<SLSegment>
  {
    if e.edge >= |segments| then t
    else
      var s := Convert(e.edge, segments[e.edge]);
      if e.kind == Left then InsertKey(t, s) else EraseKey(t, s)
  }

  /** The neighbour test shamos_hoey runs for event e on the ordered set t as it
      stands before the event, with p the search position of e's segment s.
      A LEFT event tests the element insert returns against the elements just
      before and just after it: that is s with neighbours t[p - 1] and t[p] when
      s is inserted at p, and the comparator-equal t[p] with neighbours t[p - 1]
      and t[p + 1] when the set already holds it. A RIGHT event's segment sits
      at p, and the elements just before and just after it are tested against
      each other. */
  ghost function EventHit(segments: seq<Segment>, t: seq<SLSegment>, e: Event): bool
  {
    if e.edge >= |segments| then false
    else
      var s := Convert(e.edge, segments[e.edge]);
      var p := LowerBound(t, s);
      if e.kind == Left then
        if p < |t| && SameKey(t[p], s) then
          (0 < p && Intersect(t[p], t[p - 1])) || (p + 1 < |t| && Intersect(t[p], t[p + 1]))
        else
          (0 < p && Intersect(s, t[p - 1])) || (p < |t| && Intersect(s, t[p]))
      else
        0 < p && p + 1 < |t| && Intersect(t[p - 1], t[p + 1])
  }

  /** The ordered set after replaying the popped events, from an empty set. */
  ghost function ReplayTree(segments: seq<Segment>, trace: seq<Event>): seq<SLSegment>
  {
    if trace == [] then []
    else EventTree(segments, ReplayTree(segments, trace[..|trace| - 1]), trace[|trace| - 1])
  }

  /** Whether replaying the popped events, from an empty set, reaches a
      neighbour test that passes. */
  ghost function Reported(segments: seq<Segment>, trace: seq<Event>): bool
  {
    if trace == [] then false
    else
      var prefix := trace[..|trace| - 1];
      Reported(segments, prefix) || EventHit(segments, ReplayTree(segments, prefix), trace[|trace| - 1])
  }

  /** Replaying one more popped event: the set takes that event's step, and
      the sweep has reported once it had, or once that event's test passes. */
  lemma ReplayStep(segments: seq<Segment>, trace: seq<Event>, e: Event)
    ensures ReplayTree(segments, trace + [e]) == EventTree(segments, ReplayTree(segments, trace), e)
    ensures Reported(segments, trace + [e])
        == (Reported(segments, trace) || EventHit(segments, ReplayTree(segments, trace), e))
  {
    assert (trace + [e])[..|trace|] == trace;
  }

  /** A LEFT event whose key is not in the set is inserted at the search
      position p; its test is the crossing test of its segment against the
      elements at p - 1 and p + 1 of the set after the insert. */
  lemma LeftEventHit(segments: seq<Segment>, t: seq<SLSegment>, i: nat, p: nat, t': seq<SLSegment>)
    requires i < |segments| && !HasKey(t, Convert(i, segments[i]))
    requires p == LowerBound(t, Convert(i, segments[i]))
    requires t' == t[..p] + [Convert(i, segments[i])] + t[p..]
    ensures p < |t'|
    ensures EventHit(segments, t, LeftEvent(i, segments[i]))
        == ((0 < p && Intersect(t'[p], t'[p - 1])) || (p + 1 < |t'| && Intersect(t'[p], t'[p + 1])))
  {
    InsertedNeighbours(t, Convert(i, segments[i]), p);
    assert !(p < |t| && SameKey(t[p], Convert(i, segments[i])));
  }

  /** Inserting s at position p: s sits at p, with t[p - 1] before it and t[p] after it. */
  lemma InsertedNeighbours(t: seq<SLSegment>, s: SLSegment, p: nat)
    requires p <= |t|
    ensures |t[..p] + [s] + t[p..]| == |t| + 1
    ensures (t[..p] + [s] + t[p..])[p] == s
    ensures 0 < p ==> (t[..p] + [s] + t[p..])[p - 1] == t[p - 1]
    ensures p < |t| ==> (t[..p] + [s] + t[p..])[p + 1] == t[p]
  {
  }

  /** A RIGHT event whose key sits at the search position p erases position p;
      its test looks at t[p - 1] and t[p + 1]. */
  lemma RightEventStep(segments: seq<Segment>, t: seq<SLSegment>, i: nat, p: nat)
    requires i < |segments| && p == LowerBound(t, Convert(i, segments[i]))
    requires p < |t| && SameKey(t[p], Convert(i, segments[i]))
    ensures EventTree(segments, t, RightEvent(i, segments[i])) == t[..p] + t[p + 1..]
    ensures EventHit(segments, t, RightEvent(i, segments[i]))
        == (0 < p && p + 1 < |t| && Intersect(t[p - 1], t[p + 1]))
  {
  }

  /** The LEFT branch of shamos_hoey: inserts segment i and tests it against
      the segments just before and just after it in the ordered set. */
  method SweepLeft(segments: seq<Segment>, sl: SweepLine, i: nat) returns (found: bool)
    requires WellFormed(segments) && i < |segments|
    requires sl.Valid() && TreeOfOpen(segments, sl.segments, sl.tree) && i !in sl.segments
    modifies sl
    ensures found == EventHit(segments, old(sl.tree), LeftEvent(i, segments[i]))
    ensures sl.tree == EventTree(segments, old(sl.tree), LeftEvent(i, segments[i]))
    ensures found ==> Crossing(segments)
    ensures sl.Valid() && sl.segments == old(sl.segments)[i := segments[i]]
    ensures TreeOfOpen(segments, sl.segments, sl.tree)
  {
    KeyAbsentBeforeInsert(segments, sl.segments, sl.tree, i);
    ghost var open, t := sl.segments, sl.tree;
    var pos, inserted := sl.Insert(i, segments[i]);
    TreeAfterInsert(segments, open, t, i, pos, sl.tree);
    LeftEventHit(segments, t, i, pos, sl.tree);
    if pos > 0 && Intersect(sl.tree[pos], sl.tree[pos - 1]) {
      CrossingFromTree(segments, sl.segments, sl.tree, pos, pos - 1);
      return true;
    }
    if pos + 1 < |sl.tree| && Intersect(sl.tree[pos], sl.tree[pos + 1]) {
      CrossingFromTree(segments, sl.segments, sl.tree, pos, pos + 1);
      return true;
    }
    return false;
  }

  /** The RIGHT branch of shamos_hoey: tests the segments just before and just
      after segment i against each other, then erases segment i. */
  method SweepRight(segments: seq<Segment>, sl: SweepLine, i: nat) returns (found: bool)
    requires WellFormed(segments)
    requires sl.Valid() && TreeOfOpen(segments, sl.segments, sl.tree)
    requires i in sl.segments && i < |segments| && sl.segments[i] == segments[i]
    modifies sl
    ensures found == EventHit(segments, old(sl.tree), RightEvent(i, segments[i]))
    ensures found ==> Crossing(segments)
    ensures !found ==> sl.tree == EventTree(segments, old(sl.tree), RightEvent(i, segments[i]))
    ensures !found ==> sl.Valid() && sl.segments == old(sl.segments) - {i}
    ensures !found ==> TreeOfOpen(segments, sl.segments, sl.tree)
  {
    OpenKeyPresent(segments, sl.segments, sl.tree, i);
    var it := sl.Find(i);
    var pos := it.value;
    RightEventStep(segments, sl.tree, i, pos);
    if pos > 0 && pos + 1 < |sl.tree| && Intersect(sl.tree[pos - 1], sl.tree[pos + 1]) {
      CrossingFromTree(segments, sl.segments, sl.tree, pos - 1, pos + 1);
      return true;
    }
    EraseOpen(segments, sl, i);
    return false;
  }

  /** An open segment's key is in the set. */
  lemma OpenKeyPresent(segments: seq<Segment>, open: map<nat, Segment>, t: seq<SLSegment>, i: nat)
    requires TreeOfOpen(segments, open, t) && i in open
    ensures i < |segments| && HasKey(t, Convert(i, segments[i]))
  {
    var k :| 0 <= k < |t| && t[k] == Convert(i, segments[i]);
    assert SameKey(t[k], Convert(i, segments[i]));
  }

  /** The erase of the RIGHT branch: the set takes the RIGHT event's step and
      still holds exactly the open segments. */
  method EraseOpen(segments: seq<Segment>, sl: SweepLine, i: nat)
    requires WellFormed(segments)
    requires sl.Valid() && TreeOfOpen(segments, sl.segments, sl.tree)
    requires i in sl.segments && i < |segments| && sl.segments[i] == segments[i]
    modifies sl
    ensures sl.tree == EventTree(segments, old(sl.tree), RightEvent(i, segments[i]))
    ensures sl.Valid() && sl.segments == old(sl.segments) - {i}
    ensures TreeOfOpen(segments, sl.segments, sl.tree)
  {
    ghost var open, t := sl.segments, sl.tree;
    var erased := sl.Erase(i);
    TreeAfterErase(segments, open, t, i, sl.tree);
  }

  /** The state shamos_hoey keeps between two events. */
  ghost predicate SweepState(segments: seq<Segment>, sl: SweepLine, eq: EventQueue, trace: seq<Event>)
    reads sl, eq
  {
    && WellFormed(segments)
    && sl.Valid()
    && SweptInOrder(trace, eq.events, EventsUpTo(segments, |segments|))
    && OpenSegments(segments, eq.events, sl.segments)
    && TreeOfOpen(segments, sl.segments, sl.tree)
  }

  /** One iteration of shamos_hoey's loop: pops the next event e and handles it;
      the answer is e's neighbour test on the ordered set as it was. */
  method SweepEvent(segments: seq<Segment>, sl: SweepLine, eq: EventQueue, ghost trace: seq<Event>)
    returns (found: bool, e: Event)
    requires SweepState(segments, sl, eq, trace) && !eq.IsEmpty()
    modifies sl, eq
    ensures found == EventHit(segments, old(sl.tree), e)
    ensures !found ==> sl.tree == EventTree(segments, old(sl.tree), e)
    ensures found ==> Crossing(segments)
    ensures SweptInOrder(trace + [e], eq.events, EventsUpTo(segments, |segments|))
    ensures !found ==> SweepState(segments, sl, eq, trace + [e])
    ensures |eq.events| < old(|eq.events|)
  {
    ghost var all := EventsUpTo(segments, |segments|);
    ghost var queued := eq.events;
    e := eq.Pop();
    ghost var rest := eq.events;
    assert queued == rest + multiset{e};
    assert |rest| < |queued|;
    PopInOrder(trace, queued, all, e, rest);
    PoppedEvent(segments, queued, e, rest);
    found := HandleEvent(segments, sl, e, queued, rest);
    assert eq.events == rest;
  }

  /** The body of shamos_hoey's loop after the pop: a LEFT event goes to the
      LEFT branch and a RIGHT event to the RIGHT branch. */
  method HandleEvent(segments: seq<Segment>, sl: SweepLine, e: Event,
                     ghost queued: multiset<Event>, ghost rest: multiset<Event>) returns (found: bool)
    requires WellFormed(segments) && sl.Valid()
    requires OpenSegments(segments, queued, sl.segments) && TreeOfOpen(segments, sl.segments, sl.tree)
    requires e.edge < |segments|
    requires e == LeftEvent(e.edge, segments[e.edge]) || e == RightEvent(e.edge, segments[e.edge])
    requires e in queued && NoneBefore(queued, e)
    requires queued == rest + multiset{e} && e !in rest
    modifies sl
    ensures found == EventHit(segments, old(sl.tree), e)
    ensures !found ==> sl.tree == EventTree(segments, old(sl.tree), e)
    ensures found ==> Crossing(segments)
    ensures !found ==> sl.Valid() && OpenSegments(segments, rest, sl.segments) && TreeOfOpen(segments, sl.segments, sl.tree)
  {
    var i := e.edge;
    if e.kind == Left {
      OpenAfterLeft(segments, queued, sl.segments, i, rest);
      found := SweepLeft(segments, sl, i);
    } else {
      OpenAtRight(segments, queued, sl.segments, i);
      ghost var open := sl.segments;
      found := SweepRight(segments, sl, i);
      if !found {
        OpenAfterRight(segments, queued, open, i, rest);
      }
    }
  }

  /** shamos_hoey: pops the events in point order; a LEFT event inserts its
      segment and tests it against both neighbours, a RIGHT event tests its two
      neighbours against each other and erases its segment. The answer is
      whether replaying the popped events reaches a passing neighbour test, and
      the sweep stops at the first one; that answer is true only when two
      different input segments pass the crossing test. The ghost trace lists
      the popped events in non-decreasing point order; no event still queued
      has a point before a popped one, so the trace is the order in which the
      queue yields its events (up to ties); it is all of them when nothing was
      found. */
  method ShamosHoey(segments: seq<Segment>) returns (found: bool, ghost trace: seq<Event>)
    requires WellFormed(segments)
    ensures found == Reported(segments, trace)
    ensures found ==> trace != [] && !Reported(segments, trace[..|trace| - 1])
    ensures found ==> Crossing(segments)
    ensures |segments| <= 1 ==> !found
    ensures InPointOrder(trace)
    ensures multiset(trace) <= EventsUpTo(segments, |segments|)
    ensures forall f, t :: f in EventsUpTo(segments, |segments|) - multiset(trace) && t in trace ==>
              !CompareLt(f.point, t.point)
    ensures !found ==> multiset(trace) == EventsUpTo(segments, |segments|)
  {
    var n := |segments|;
    ghost var all := EventsUpTo(segments, n);
    var sl := new SweepLine();
    var eq := new EventQueue(segments);
    trace := [];
    InitialSweepState(segments, sl, eq);
    NoCrossingBelowTwo(segments);
    found := false;
    while !eq.IsEmpty()
      invariant SweepState(segments, sl, eq, trace)
      invariant sl.tree == ReplayTree(segments, trace)
      invariant !Reported(segments, trace)
      decreases |eq.events|
    {
      var e;
      found, e := SweepEvent(segments, sl, eq, trace);
      ReplayStep(segments, trace, e);
      assert (trace + [e])[..|trace|] == trace;
      trace := trace + [e];
      if found {
        return;
      }
    }
  }

  /** Before the first pop, with every event queued and nothing open, the sweep state holds. */
  lemma InitialSweepState(segments: seq<Segment>, sl: SweepLine, eq: EventQueue)
    requires WellFormed(segments)
    requires sl.segments == map[] && sl.tree == []
    requires eq.events == EventsUpTo(segments, |segments|)
    ensures SweepState(segments, sl, eq, [])
  {
    forall i | 0 <= i < |segments|
      ensures RightEvent(i, segments[i]) in eq.events && LeftEvent(i, segments[i]) in eq.events
    {
      EventsUpToOnce(segments, |segments|, i);
    }
  }

  /** Zero or one segment cannot cross, since a crossing needs two different indices. */
  lemma NoCrossingBelowTwo(segments: seq<Segment>)
    ensures |segments| <= 1 ==> !Crossing(segments)
  {
  }

}
