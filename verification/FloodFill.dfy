/**
 The icon corner cutter: a flood from the border over pixels close to the surround
 colour, then a one-pixel feather of the hard edge the flood leaves.
 */
module FloodFill {
  import opened Bytes
  import opened Sequences

  const TOLERANCE: int := 14

  datatype Point = Point(x: int, y: int)

  /** A picture of h rows of w pixels, three or four bytes each. */
  datatype Picture = Picture(w: nat, h: nat, bpp: nat, rows: seq<seq<Byte>>) {
    /** Every pixel has its three colours. */
    ghost predicate Valid()
    {
      (bpp == 3 || bpp == 4) && |rows| == h && forall y :: 0 <= y < h ==> Offset(bpp, w) <= |rows[y]| + (bpp - 3)
    }

    /** What the PNG reader hands over: full rows, of which the last may lack up to a pixel. */
    ghost predicate AsRead()
    {
      && (bpp == 3 || bpp == 4) && |rows| == h
      && (forall y :: 0 <= y < h - 1 ==> |rows[y]| == Offset(bpp, w))
      && (h > 0 ==> |rows[h - 1]| <= Offset(bpp, w) <= |rows[h - 1]| + bpp)
    }

    /** The last pixel's colours are there. */
    predicate Whole()
      requires |rows| == h
    {
      h > 0 ==> Offset(bpp, w) <= |rows[h - 1]| + (bpp - 3)
    }

    predicate Has(p: Point) { 0 <= p.x < w && 0 <= p.y < h }
  }

  /** Where pixel x starts in its row. */
  function Offset(bpp: nat, x: int): int
  {
    if bpp == 3 then 3 * x else 4 * x
  }

  datatype Colour = Colour(r: Byte, g: Byte, b: Byte)

  function ColourAt(pic: Picture, p: Point): Colour
    requires pic.Valid() && pic.Has(p)
  {
    var line, at := pic.rows[p.y], Offset(pic.bpp, p.x);
    Colour(line[at], line[at + 1], line[at + 2])
  }

  function Distance(a: int, b: int): nat { if a < b then b - a else a - b }

  predicate CloseEnough(pic: Picture, base: Colour, p: Point)
    requires pic.Valid() && pic.Has(p)
  {
    var c := ColourAt(pic, p);
    Distance(c.r, base.r) <= TOLERANCE && Distance(c.g, base.g) <= TOLERANCE && Distance(c.b, base.b) <= TOLERANCE
  }

  /** Red, green and blue by number. */
  function Channel(c: Colour, i: nat): int { if i == 0 then c.r else if i == 1 then c.g else c.b }

  /** Close enough means within fourteen of the surround in each of the pixel's three bytes. */
  lemma CloseExactly(pic: Picture, base: Colour, p: Point)
    requires pic.Valid() && pic.Has(p)
    ensures CloseEnough(pic, base, p) <==>
            forall i :: 0 <= i < 3 ==>
              -14 <= pic.rows[p.y][Offset(pic.bpp, p.x) + i] - Channel(base, i) <= 14
  {
    var line, at := pic.rows[p.y], Offset(pic.bpp, p.x);
    assert Channel(base, 0) == base.r && Channel(base, 1) == base.g && Channel(base, 2) == base.b;
    if forall i :: 0 <= i < 3 ==> -14 <= line[at + i] - Channel(base, i) <= 14 {
      assert -14 <= line[at + 0] - Channel(base, 0) <= 14;
      assert -14 <= line[at + 1] - Channel(base, 1) <= 14;
      assert -14 <= line[at + 2] - Channel(base, 2) <= 14;
    }
  }

  // --- What the flood is for ---

  /** A pixel the flood may enter. */
  ghost predicate Open(pic: Picture, base: Colour, p: Point)
    requires pic.Valid()
  {
    pic.Has(p) && CloseEnough(pic, base, p)
  }

  ghost predicate OnBorder(pic: Picture, p: Point)
  {
    p.x == 0 || p.x == pic.w - 1 || p.y == 0 || p.y == pic.h - 1
  }

  ghost predicate Adjacent(p: Point, q: Point)
  {
    Distance(p.x, q.x) + Distance(p.y, q.y) == 1
  }

  /** A walk of close-enough pixels from the border, each a step from the last. */
  ghost predicate Path(pic: Picture, base: Colour, path: seq<Point>)
    requires pic.Valid()
  {
    && |path| > 0
    && OnBorder(pic, path[0])
    && (forall i :: 0 <= i < |path| ==> Open(pic, base, path[i]))
    && (forall i {:trigger path[i]} :: 0 < i < |path| ==> Adjacent(path[i - 1], path[i]))
  }

  ghost predicate Outside(pic: Picture, base: Colour, p: Point)
    requires pic.Valid()
  {
    exists path :: Path(pic, base, path) && path[|path| - 1] == p
  }

  lemma BorderOutside(pic: Picture, base: Colour, p: Point)
    requires pic.Valid() && Open(pic, base, p) && OnBorder(pic, p)
    ensures Outside(pic, base, p)
  {
    assert Path(pic, base, [p]);
  }

  lemma NeighbourOutside(pic: Picture, base: Colour, p: Point, q: Point)
    requires pic.Valid() && Outside(pic, base, p) && Adjacent(p, q) && Open(pic, base, q)
    ensures Outside(pic, base, q)
  {
    var path :| Path(pic, base, path) && path[|path| - 1] == p;
    var longer := path + [q];
    forall i | 0 < i < |longer| ensures Adjacent(longer[i - 1], longer[i]) {
      if i < |path| { assert longer[i] == path[i]; }
    }
    assert Path(pic, base, longer) && longer[|longer| - 1] == q;
  }

  /** The open border pixels are all marked. */
  ghost predicate BorderIn(pic: Picture, base: Colour, order: seq<Point>)
    requires pic.Valid()
  {
    forall p {:trigger p in order} {:trigger Open(pic, base, p)} ::
      Open(pic, base, p) && OnBorder(pic, p) ==> p in order
  }

  /** Every open neighbour of p is marked. */
  ghost predicate Surrounded(pic: Picture, base: Colour, order: seq<Point>, p: Point)
    requires pic.Valid()
  {
    forall q {:trigger Adjacent(p, q)} {:trigger q in order} :: Adjacent(p, q) && Open(pic, base, q) ==> q in order
  }

  /** Marks closed under open neighbours and holding the open border hold everything outside. */
  lemma {:induction false} ClosedHoldsPath(pic: Picture, base: Colour, order: seq<Point>, path: seq<Point>, k: nat)
    requires pic.Valid() && Path(pic, base, path) && k < |path|
    requires BorderIn(pic, base, order) && forall p :: p in order ==> Surrounded(pic, base, order, p)
    ensures path[k] in order
    decreases k
  {
    hide Open, Adjacent, OnBorder;
    if k > 0 {
      ClosedHoldsPath(pic, base, order, path, k - 1);
      assert Adjacent(path[k - 1], path[k]);
    }
  }

  // --- The mask ---

  /** A pixel's place in the flat mask. */
  function At(w: nat, p: Point): int { p.y * w + p.x }

  lemma AtBound(w: nat, h: nat, p: Point)
    requires 0 <= p.x < w && 0 <= p.y < h
    ensures 0 <= At(w, p) < h * w
  {
    assert (p.y + 1) * w <= h * w;
  }

  lemma AtInjective(w: nat, p: Point, q: Point)
    requires 0 <= p.x < w && 0 <= q.x < w && At(w, p) == At(w, q)
    ensures p == q
  {
    if p.y < q.y { RowAfter(w, p.y, q.y); }
    if q.y < p.y { RowAfter(w, q.y, p.y); }
  }

  lemma RowAfter(w: nat, a: int, b: int)
    requires a < b
    ensures a * w + w <= b * w
  {
    assert (a + 1) * w <= b * w;
  }

  /** The mask says exactly which pixels have been queued. */
  ghost predicate Marks(pic: Picture, seen: array<Byte>, order: seq<Point>)
    reads seen
  {
    && seen.Length == pic.h * pic.w
    && (forall p :: pic.Has(p) ==> 0 <= At(pic.w, p) < seen.Length)
    && (forall p {:trigger pic.Has(p)} :: pic.Has(p) ==> seen[At(pic.w, p)] == if p in order then 1 else 0)
  }

  /** Every pixel queued was queued once, for a reason. */
  ghost predicate Queued(pic: Picture, base: Colour, order: seq<Point>)
    requires pic.Valid()
  {
    NoRepeat(order) && forall p :: p in order ==> Open(pic, base, p) && Outside(pic, base, p)
  }

  /** Sets a bit and queues a pixel, unless it is seen already, off the picture or not close. */
  method Visit(pic: Picture, base: Colour, seen: array<Byte>, queue: seq<Point>, p: Point, ghost order: seq<Point>)
    returns (q: seq<Point>, ghost o: seq<Point>)
    requires pic.Valid() && Marks(pic, seen, order) && Queued(pic, base, order)
    requires Open(pic, base, p) ==> Outside(pic, base, p)
    modifies seen
    ensures Marks(pic, seen, o) && Queued(pic, base, o)
    ensures if Open(pic, base, p) && p !in order then o == order + [p] && q == queue + [p] else o == order && q == queue
  {
    q, o := queue, order;
    if pic.Has(p) && seen[At(pic.w, p)] == 0 && CloseEnough(pic, base, p) {
      o := order + [p];
      seen[At(pic.w, p)] := 1;
      q := q + [p];
      forall r | pic.Has(r) ensures seen[At(pic.w, r)] == if r in o then 1 else 0 {
        if At(pic.w, r) == At(pic.w, p) { AtInjective(pic.w, r, p); }
      }
    }
  }

  lemma MarksFresh(pic: Picture, seen: array<Byte>)
    requires seen.Length == pic.h * pic.w && forall i :: 0 <= i < seen.Length ==> seen[i] == 0
    ensures Marks(pic, seen, [])
  {
    forall p | pic.Has(p) ensures 0 <= At(pic.w, p) < seen.Length { AtBound(pic.w, pic.h, p); }
  }

  /** The open pixels of the border found so far: columns below x in both end rows, rows below y in both end columns. */
  ghost predicate Seeded(pic: Picture, base: Colour, order: seq<Point>, x: int, y: int)
    requires pic.Valid()
  {
    forall p {:trigger Open(pic, base, p)} :: Open(pic, base, p) ==>
                  && (p.x < x && (p.y == 0 || p.y == pic.h - 1) ==> p in order)
                  && (p.y < y && (p.x == 0 || p.x == pic.w - 1) ==> p in order)
  }

  lemma NothingQueued(pic: Picture, base: Colour)
    requires pic.Valid()
    ensures Queued(pic, base, [])
  {
  }

  method Seed(pic: Picture, base: Colour, seen: array<Byte>) returns (queue: seq<Point>, ghost order: seq<Point>)
    requires pic.Valid() && pic.w > 0 && pic.h > 0 && Marks(pic, seen, [])
    modifies seen
    ensures Marks(pic, seen, order) && Queued(pic, base, order) && queue == order
    ensures BorderIn(pic, base, order)
  {
    hide Marks, Queued, CloseEnough;
    NothingQueued(pic, base);
    queue, order := [], [];
    for x := 0 to pic.w
      invariant Marks(pic, seen, order) && Queued(pic, base, order) && queue == order
      invariant Seeded(pic, base, order, x, 0)
    {
      queue, order := VisitBorder(pic, base, seen, queue, Point(x, 0), order);
      queue, order := VisitBorder(pic, base, seen, queue, Point(x, pic.h - 1), order);
    }
    for y := 0 to pic.h
      invariant Marks(pic, seen, order) && Queued(pic, base, order) && queue == order
      invariant Seeded(pic, base, order, pic.w, y)
    {
      queue, order := VisitBorder(pic, base, seen, queue, Point(0, y), order);
      queue, order := VisitBorder(pic, base, seen, queue, Point(pic.w - 1, y), order);
    }
  }

  method VisitBorder(pic: Picture, base: Colour, seen: array<Byte>, queue: seq<Point>, p: Point,
      ghost order: seq<Point>)
    returns (q: seq<Point>, ghost o: seq<Point>)
    requires pic.Valid() && Marks(pic, seen, order) && Queued(pic, base, order) && OnBorder(pic, p) && queue == order
    modifies seen
    ensures Marks(pic, seen, o) && Queued(pic, base, o) && q == o && order <= o
    ensures Open(pic, base, p) ==> p in o
  {
    if pic.Has(p) && CloseEnough(pic, base, p) { BorderOutside(pic, base, p); }
    q, o := Visit(pic, base, seen, queue, p, order);
  }

  /** Everything taken off the queue so far has had its neighbours looked at. */
  ghost predicate Explored(pic: Picture, base: Colour, order: seq<Point>, done: nat)
    requires pic.Valid() && done <= |order|
  {
    forall i :: 0 <= i < done ==> Surrounded(pic, base, order, order[i])
  }

  function Neighbours(p: Point): seq<Point>
  {
    [Point(p.x + 1, p.y), Point(p.x - 1, p.y), Point(p.x, p.y + 1), Point(p.x, p.y - 1)]
  }

  lemma NeighboursAre(p: Point, q: Point)
    ensures Adjacent(p, q) <==> q in Neighbours(p)
  {
    assert Neighbours(p)[0] == Point(p.x + 1, p.y) && Neighbours(p)[1] == Point(p.x - 1, p.y);
    assert Neighbours(p)[2] == Point(p.x, p.y + 1) && Neighbours(p)[3] == Point(p.x, p.y - 1);
  }

  ghost function Pixels(pic: Picture): set<Point>
  {
    set x, y | 0 <= x < pic.w && 0 <= y < pic.h :: Point(x, y)
  }

  ghost function Members(order: seq<Point>): set<Point> { set p | p in order }

  ghost function Left(pic: Picture, order: seq<Point>): nat
  {
    |Pixels(pic) - Members(order)|
  }

  lemma LeftDrops(pic: Picture, order: seq<Point>, more: seq<Point>)
    requires order <= more && forall p :: p in more ==> pic.Has(p)
    ensures Left(pic, more) <= Left(pic, order)
    ensures |more| > |order| && NoRepeat(more) ==> Left(pic, more) < Left(pic, order)
  {
    var a, b := Pixels(pic) - Members(more), Pixels(pic) - Members(order);
    assert a <= b;
    SmallerSubset(a, b);
    if |more| > |order| && NoRepeat(more) {
      var p := more[|order|];
      assert p in b && p !in a;
      SmallerSubset(a, b - {p});
    }
  }

  lemma SmallerSubset<T>(a: set<T>, b: set<T>)
    requires a <= b
    ensures |a| <= |b|
  {
    assert b == a + (b - a);
  }

  /** Looks at the four neighbours of one pixel. */
  method Expand(pic: Picture, base: Colour, seen: array<Byte>, queue: seq<Point>, p: Point, ghost order: seq<Point>)
    returns (q: seq<Point>, ghost o: seq<Point>)
    requires pic.Valid() && Marks(pic, seen, order) && Queued(pic, base, order) && Outside(pic, base, p)
    requires |queue| <= |order| && queue == order[|order| - |queue|..]
    modifies seen
    ensures Marks(pic, seen, o) && Queued(pic, base, o) && order <= o
    ensures |q| == |queue| + |o| - |order| && q == o[|o| - |q|..]
    ensures Surrounded(pic, base, o, p)
  {
    hide Marks, Queued, CloseEnough, Outside;
    q, o := queue, order;
    var near := Neighbours(p);
    for k := 0 to 4
      invariant Marks(pic, seen, o) && Queued(pic, base, o) && order <= o
      invariant |q| == |queue| + |o| - |order| && q == o[|o| - |q|..]
      invariant forall r :: r in near[..k] && Open(pic, base, r) ==> r in o
    {
      NeighboursAre(p, near[k]);
      if pic.Has(near[k]) && CloseEnough(pic, base, near[k]) { NeighbourOutside(pic, base, p, near[k]); }
      q, o := Visit(pic, base, seen, q, near[k], o);
    }
    forall r | Adjacent(p, r) && Open(pic, base, r) ensures r in o {
      NeighboursAre(p, r);
      assert near[..4] == near;
    }
  }

  /**
   The mask is one exactly at the pixels a walk of close-enough pixels joins to the
   border, and no pixel was queued twice.
   */
  method OutsideMask(pic: Picture, base: Colour) returns (seen: array<Byte>, ghost order: seq<Point>)
    requires pic.Valid() && pic.w > 0 && pic.h > 0
    ensures fresh(seen) && Marks(pic, seen, order) && NoRepeat(order)
    ensures forall p :: p in order <==> Outside(pic, base, p)
  {
    hide Marks, CloseEnough, Outside, BorderIn, Surrounded, Queued, Explored, Left, NoRepeat;
    seen := new Byte[pic.h * pic.w](_ => 0);
    MarksFresh(pic, seen);
    var queue;
    queue, order := Seed(pic, base, seen);
    NothingExplored(pic, base, order);
    while queue != []
      invariant Marks(pic, seen, order) && Queued(pic, base, order) && BorderIn(pic, base, order)
      invariant |queue| <= |order| && queue == order[|order| - |queue|..]
      invariant Explored(pic, base, order, |order| - |queue|)
      decreases Left(pic, order), |queue|
    {
      var p := queue[0];
      ghost var before := order;
      QueuedOutside(pic, base, order, |order| - |queue|);
      queue, order := Expand(pic, base, seen, queue[1..], p, order);
      QueuedDrops(pic, base, before, order);
      StillExplored(pic, base, before, order, |order| - |queue|);
    }
    Exact(pic, base, order);
  }

  lemma NothingExplored(pic: Picture, base: Colour, order: seq<Point>)
    requires pic.Valid()
    ensures Explored(pic, base, order, 0)
  {
  }

  lemma QueuedOutside(pic: Picture, base: Colour, order: seq<Point>, i: nat)
    requires pic.Valid() && Queued(pic, base, order) && i < |order|
    ensures Outside(pic, base, order[i])
  {
  }

  lemma QueuedDrops(pic: Picture, base: Colour, before: seq<Point>, order: seq<Point>)
    requires pic.Valid() && Queued(pic, base, order) && before <= order
    ensures Left(pic, order) <= Left(pic, before)
    ensures |order| > |before| ==> Left(pic, order) < Left(pic, before)
    ensures BorderIn(pic, base, before) ==> BorderIn(pic, base, order)
  {
    hide Left;
    LeftDrops(pic, before, order);
  }

  lemma StillExplored(pic: Picture, base: Colour, before: seq<Point>, order: seq<Point>, done: nat)
    requires pic.Valid() && before <= order && 0 < done <= |before| && Explored(pic, base, before, done - 1)
    requires Surrounded(pic, base, order, before[done - 1])
    ensures Explored(pic, base, order, done)
  {
  }

  lemma Exact(pic: Picture, base: Colour, order: seq<Point>)
    requires pic.Valid() && Queued(pic, base, order) && Explored(pic, base, order, |order|)
             && BorderIn(pic, base, order)
    ensures NoRepeat(order) && forall p :: p in order <==> Outside(pic, base, p)
  {
    hide Open, Surrounded, BorderIn, NoRepeat;
    forall p | Outside(pic, base, p) ensures p in order {
      var path :| Path(pic, base, path) && path[|path| - 1] == p;
      ClosedHoldsPath(pic, base, order, path, |path| - 1);
    }
  }
}
