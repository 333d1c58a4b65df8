/** GradientPoint: a mutable control point of the ramp (position and colour),
    its value snapshot, and the position-ordered view of a list of points. */
module Points {
  import opened Colors
  import opened Sorting

  /** The ICommand objects a point forwards to the editor (BeginEditCommand,
      EndEditCommand); only their identity matters here. */
  class EditCommand {
    constructor () {}
  }

  /** What a point holds at one moment: the data the ramp is computed from. */
  datatype ControlPoint = ControlPoint(position: real, color: Color)

  function PositionOf(p: ControlPoint): real { p.position }

  class GradientPoint {
    var position: real
    var color: Color
    var beginEditCommand: EditCommand?
    var endEditCommand: EditCommand?

    /** GradientPoint(position, color): stores exactly the given values. */
    constructor (position: real, color: Color)
      ensures this.position == position && this.color == color
      ensures beginEditCommand == null && endEditCommand == null
    {
      this.position := position;
      this.color := color;
      beginEditCommand := null;
      endEditCommand := null;
    }

    /** GradientPoint(): position 0 and the field initialiser's colour, White. */
    constructor Default()
      ensures position == 0.0 && color == White
      ensures beginEditCommand == null && endEditCommand == null
    {
      position := 0.0;
      color := White;
      beginEditCommand := null;
      endEditCommand := null;
    }

    /** GradientPoint(other): a new object with all four properties of other. */
    constructor Copy(other: GradientPoint)
      ensures position == other.position && color == other.color
      ensures beginEditCommand == other.beginEditCommand && endEditCommand == other.endEditCommand
    {
      position := other.position;
      color := other.color;
      beginEditCommand := other.beginEditCommand;
      endEditCommand := other.endEditCommand;
    }

    /** The Position setter: writes the position field and nothing else. */
    method SetPosition(p: real)
      modifies this`position
      ensures position == p
    {
      position := p;
    }

    /** The Color setter: writes the colour field and nothing else. */
    method SetColor(c: Color)
      modifies this`color
      ensures color == c
    {
      color := c;
    }

    function Value(): (v: ControlPoint)
      reads this
      ensures v.position == position && v.color == color
    {
      ControlPoint(position, color)
    }
  }

  /** The values of a list of points, in list order. */
  function Snapshot(ps: seq<GradientPoint>): (r: seq<ControlPoint>)
    reads ps
    ensures |r| == |ps|
    ensures forall i :: 0 <= i < |ps| ==> r[i] == ps[i].Value()
  {
    seq(|ps|, i requires 0 <= i < |ps| reads ps => ps[i].Value())
  }

  /** The snapshot of a concatenation is the concatenation of the snapshots. */
  lemma SnapshotConcat(a: seq<GradientPoint>, b: seq<GradientPoint>)
    ensures Snapshot(a + b) == Snapshot(a) + Snapshot(b)
  {
    assert forall i :: 0 <= i < |a + b| ==> Snapshot(a + b)[i] == (Snapshot(a) + Snapshot(b))[i];
  }

  /** A snapshot changes only when one of its points does. */
  twostate lemma SnapshotFramed(ps: seq<GradientPoint>)
    requires unchanged(ps)
    ensures Snapshot(ps) == old(Snapshot(ps))
  {
  }

  /** The positions of a list of points, as a lookup the sort can use. */
  function PositionKey(ps: seq<GradientPoint>): (key: GradientPoint -> real)
    reads ps
    ensures forall p :: p in ps ==> key(p) == p.position
  {
    var m := map p | p in ps :: p.position;
    p => if p in m then m[p] else 0.0
  }

  /** The points ordered by position: the same objects, stably ordered by
      their current positions. */
  function SortedRefs(ps: seq<GradientPoint>): (r: seq<GradientPoint>)
    reads ps
    ensures |r| == |ps| && multiset(r) == multiset(ps)
    ensures forall i :: 0 <= i < |r| ==> r[i] in ps
    ensures forall i, j :: 0 <= i < j < |r| ==> r[i].position <= r[j].position
  {
    var key := PositionKey(ps);
    var r := SortBy(ps, key);
    KeyOrderIsPositionOrder(ps, r, key);
    assert forall i :: 0 <= i < |r| ==> r[i] in multiset(ps);
    r
  }

  lemma KeyOrderIsPositionOrder(ps: seq<GradientPoint>, r: seq<GradientPoint>, key: GradientPoint -> real)
    requires multiset(r) == multiset(ps) && SortedBy(r, key)
    requires forall p :: p in ps ==> key(p) == p.position
    ensures forall i, j :: 0 <= i < j < |r| ==> r[i].position <= r[j].position
  {
    forall i, j | 0 <= i < j < |r| ensures r[i].position <= r[j].position {
      assert r[i] in multiset(ps) && r[j] in multiset(ps);
    }
  }

  /** Ordering the points and then taking their values is ordering their
      values: the sort compares nothing but positions. */
  lemma SortedRefsSnapshot(ps: seq<GradientPoint>)
    ensures Snapshot(SortedRefs(ps)) == SortBy(Snapshot(ps), PositionOf)
  {
    SortSnapshot(ps, ps, PositionKey(ps));
  }

  lemma {:induction false} SortSnapshot(s: seq<GradientPoint>, ps: seq<GradientPoint>, key: GradientPoint -> real)
    requires forall p :: p in s ==> p in ps
    requires forall p :: p in ps ==> key(p) == p.position
    ensures Snapshot(SortBy(s, key)) == SortBy(Snapshot(s), PositionOf)
  {
    if s != [] {
      var rest := SortBy(s[1..], key);
      SortSnapshot(s[1..], ps, key);
      SnapshotTail(s);
      forall p | p in rest ensures p in ps {
        assert p in multiset(rest);
      }
      InsertSnapshot(s[0], rest, ps, key);
    }
  }

  lemma {:induction false} InsertSnapshot(x: GradientPoint, s: seq<GradientPoint>, ps: seq<GradientPoint>, key: GradientPoint -> real)
    requires x in ps && forall p :: p in s ==> p in ps
    requires forall p :: p in ps ==> key(p) == p.position
    ensures Snapshot(Insert(x, s, key)) == Insert(x.Value(), Snapshot(s), PositionOf)
  {
    if s == [] || key(x) <= key(s[0]) {
      InsertInFront(x, s, key);
    } else {
      assert s[0] in ps;
      InsertSnapshot(x, s[1..], ps, key);
      InsertBehind(x, s, key);
    }
  }

  lemma InsertInFront(x: GradientPoint, s: seq<GradientPoint>, key: GradientPoint -> real)
    requires s == [] || (key(x) <= key(s[0]) && key(x) == x.position && key(s[0]) == s[0].position)
    ensures Snapshot(Insert(x, s, key)) == Insert(x.Value(), Snapshot(s), PositionOf)
  {
    assert Insert(x, s, key) == [x] + s;
    assert Insert(x.Value(), Snapshot(s), PositionOf) == [x.Value()] + Snapshot(s);
    SnapshotCons(x, s);
  }

  lemma InsertBehind(x: GradientPoint, s: seq<GradientPoint>, key: GradientPoint -> real)
    requires s != [] && key(x) > key(s[0]) && key(x) == x.position && key(s[0]) == s[0].position
    requires Snapshot(Insert(x, s[1..], key)) == Insert(x.Value(), Snapshot(s[1..]), PositionOf)
    ensures Snapshot(Insert(x, s, key)) == Insert(x.Value(), Snapshot(s), PositionOf)
  {
    var v := Snapshot(s);
    InsertUnfold(x, s, key);
    SnapshotTail(s);
    InsertUnfold(x.Value(), v, PositionOf);
    SnapshotCons(s[0], Insert(x, s[1..], key));
  }

  lemma SnapshotTail(s: seq<GradientPoint>)
    requires s != []
    ensures Snapshot(s[1..]) == Snapshot(s)[1..]
  {
  }

  lemma SnapshotCons(p: GradientPoint, r: seq<GradientPoint>)
    ensures Snapshot([p] + r) == [p.Value()] + Snapshot(r)
  {
    SnapshotConcat([p], r);
    assert Snapshot([p]) == [p.Value()];
  }

  /** An ordering of the points with strictly increasing positions is the
      order OrderBy produces. */
  lemma SortedRefsOfStrictOrder(ps: seq<GradientPoint>, order: seq<GradientPoint>)
    requires multiset(order) == multiset(ps)
    requires forall i, j :: 0 <= i < j < |order| ==> order[i].position < order[j].position
    ensures SortedRefs(ps) == order
  {
    var key := PositionKey(ps);
    var r := SortedRefs(ps);
    assert SortedBy(r, key);
    forall i, j | 0 <= i < j < |order| ensures key(order[i]) < key(order[j]) {
      assert order[i] in multiset(ps) && order[j] in multiset(ps);
    }
    StrictOrderIsUnique(order, r, key);
  }
}
