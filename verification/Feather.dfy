/** The alpha channel of the icon cutter: opaque inside, clear outside, softened where the two meet. */
module Feather {
  import opened Bytes
  import opened Sequences
  import opened FloodFill

  /** The hard edge the flood leaves. */
  function Level(outside: bool): Byte { if outside then 0 else 255 }

  /** The nine places of a 3 by 3 box, row by row. */
  function Box(p: Point, k: nat): Point
  {
    Point(p.x + k % 3 - 1, p.y + k / 3 - 1)
  }

  ghost predicate Touches(p: Point, q: Point)
  {
    Distance(p.x, q.x) <= 1 && Distance(p.y, q.y) <= 1
  }

  lemma BoxTouches(p: Point, q: Point) returns (k: nat)
    requires Touches(p, q)
    ensures k < 9 && Box(p, k) == q
  {
    k := (q.y - p.y + 1) * 3 + (q.x - p.x + 1);
  }

  function Sum(s: seq<Byte>): nat
  {
    if s == [] then 0 else Sum(s[..|s| - 1]) + s[|s| - 1]
  }

  function Lit(s: seq<Byte>): nat
  {
    if s == [] then 0 else Lit(s[..|s| - 1]) + if s[|s| - 1] != 0 then 1 else 0
  }

  /** The values the pass sees in the first k places of the box around p. */
  ghost function Near(pic: Picture, order: seq<Point>, p: Point, k: nat): seq<Byte>
    decreases k
  {
    if k == 0 then []
    else Near(pic, order, p, k - 1) +
         if pic.Has(Box(p, k - 1)) then [Level(Box(p, k - 1) in order)] else []
  }

  /** What the box average may come to. */
  function Soften(near: seq<Byte>, hard: Byte): nat
  {
    if near != [] && 0 < Lit(near) < |near| then Sum(near) / |near| else hard
  }

  ghost function Feathered(pic: Picture, order: seq<Point>, p: Point): nat
  {
    Soften(Near(pic, order, p, 9), Level(p in order))
  }

  /** The first k places of the box that are on the picture are all outside, or all inside. */
  ghost predicate All(pic: Picture, order: seq<Point>, p: Point, k: nat, outside: bool)
  {
    forall j {:trigger Box(p, j)} :: 0 <= j < k && pic.Has(Box(p, j)) ==> (Box(p, j) in order) == outside
  }

  lemma AllStep(pic: Picture, order: seq<Point>, p: Point, k: nat, outside: bool)
    ensures All(pic, order, p, k + 1, outside) <==>
            All(pic, order, p, k, outside) && (pic.Has(Box(p, k)) ==> (Box(p, k) in order) == outside)
  {
    hide Box;
  }

  lemma OneMore(near: seq<Byte>, v: Byte)
    ensures Lit(near + [v]) == Lit(near) + (if v != 0 then 1 else 0) && Sum(near + [v]) == Sum(near) + v
  {
    var more := near + [v];
    assert more[..|more| - 1] == near;
  }

  lemma NearNothing()
    ensures Lit([]) == 0 == Sum([])
  {
  }

  lemma NearStep(pic: Picture, order: seq<Point>, p: Point, k: nat)
    ensures var near, more := Near(pic, order, p, k), Near(pic, order, p, k + 1);
            if pic.Has(Box(p, k)) then
              var lit := if Box(p, k) in order then 0 else 1;
              |more| == |near| + 1 && Lit(more) == Lit(near) + lit && Sum(more) == Sum(near) + 255 * lit
            else
              more == near
  {
    hide Box;
    OneMore(Near(pic, order, p, k), Level(Box(p, k) in order));
  }

  /** How many of the first k places are on the picture and opaque, clear or neither. */
  lemma {:induction false} NearCounts(pic: Picture, order: seq<Point>, p: Point, k: nat)
    ensures var near := Near(pic, order, p, k);
            && |near| <= k && Lit(near) <= |near| && Sum(near) == 255 * Lit(near)
            && (Lit(near) == 0 <==> All(pic, order, p, k, true))
            && (Lit(near) == |near| <==> All(pic, order, p, k, false))
    decreases k
  {
    hide Box, Sum, Lit;
    if k == 0 {
      NearNothing();
    } else {
      hide All, Near;
      NearCounts(pic, order, p, k - 1);
      AllStep(pic, order, p, k - 1, true);
      AllStep(pic, order, p, k - 1, false);
      NearStep(pic, order, p, k - 1);
    }
  }

  /** The centre is always seen. */
  lemma {:induction false} NearSome(pic: Picture, order: seq<Point>, p: Point, k: nat)
    requires pic.Has(p) && k > 4
    ensures Near(pic, order, p, k) != []
    decreases k
  {
    if k == 5 { assert Box(p, 4) == p; } else { NearSome(pic, order, p, k - 1); }
  }

  // --- The box as a set ---

  /** The pixels of the picture next to p, p included. */
  ghost function Around(pic: Picture, p: Point): set<Point>
  {
    set dx: int, dy: int | -1 <= dx <= 1 && -1 <= dy <= 1 && pic.Has(Beside(p, dx, dy)) :: Beside(p, dx, dy)
  }

  function Beside(p: Point, dx: int, dy: int): Point { Point(p.x + dx, p.y + dy) }

  lemma AroundIs(pic: Picture, p: Point, q: Point)
    ensures q in Around(pic, p) <==> pic.Has(q) && Touches(p, q)
  {
    if pic.Has(q) && Touches(p, q) {
      var dx, dy := q.x - p.x, q.y - p.y;
      assert q == Beside(p, dx, dy);
    }
  }

  /** Those of a set that are not outside. */
  ghost function Kept(s: set<Point>, order: seq<Point>): set<Point>
  {
    set q | q in s && q !in order
  }

  ghost function Seen(pic: Picture, p: Point, k: nat): set<Point>
  {
    set j: nat | j < k && pic.Has(Box(p, j)) :: Box(p, j)
  }

  lemma BoxOnce(p: Point, i: nat, j: nat)
    requires i < 9 && j < 9 && Box(p, i) == Box(p, j)
    ensures i == j
  {
  }

  lemma SeenStep(pic: Picture, p: Point, k: nat)
    requires k < 9
    ensures Box(p, k) !in Seen(pic, p, k)
    ensures Seen(pic, p, k + 1) == Seen(pic, p, k) + if pic.Has(Box(p, k)) then {Box(p, k)} else {}
  {
    if Box(p, k) in Seen(pic, p, k) {
      var j: nat :| j < k && Box(p, j) == Box(p, k);
      BoxOnce(p, j, k);
    }
    hide Box;
  }

  lemma KeptStep(s: set<Point>, q: Point, order: seq<Point>)
    requires q !in s
    ensures |s + {q}| == |s| + 1
    ensures |Kept(s + {q}, order)| == |Kept(s, order)| + if q in order then 0 else 1
  {
    assert Kept(s + {q}, order) == Kept(s, order) + if q in order then {} else {q};
  }

  lemma SeenNone(pic: Picture, p: Point, order: seq<Point>)
    ensures Seen(pic, p, 0) == {} == Kept({}, order)
  {
  }

  /** The values gathered are as many as the pixels next to p, and as many are opaque as are not outside. */
  lemma {:induction false} NearSets(pic: Picture, order: seq<Point>, p: Point, k: nat)
    requires k <= 9
    ensures |Near(pic, order, p, k)| == |Seen(pic, p, k)|
    ensures Lit(Near(pic, order, p, k)) == |Kept(Seen(pic, p, k), order)|
    decreases k
  {
    hide Box, Seen, Kept, Sum, Lit;
    if k == 0 {
      NearNothing();
      SeenNone(pic, p, order);
    } else {
      hide Near;
      NearSets(pic, order, p, k - 1);
      NearStep(pic, order, p, k - 1);
      SeenStep(pic, p, k - 1);
      if pic.Has(Box(p, k - 1)) { KeptStep(Seen(pic, p, k - 1), Box(p, k - 1), order); }
    }
  }

  lemma SeenAll(pic: Picture, p: Point)
    ensures Seen(pic, p, 9) == Around(pic, p)
  {
    hide Around;
    forall q ensures q in Seen(pic, p, 9) <==> q in Around(pic, p) {
      AroundIs(pic, p, q);
      if pic.Has(q) && Touches(p, q) { var k := BoxTouches(p, q); }
    }
  }

  lemma WholeShare(n: nat)
    requires n > 0
    ensures 255 * n / n == 255 && 0 / n == 0
  {
    assert 255 * n == n * 255 + 0;
  }

  /** The alpha of a pixel is 255 times the share of its neighbourhood that is not outside, rounded down. */
  lemma FeatherIsShare(pic: Picture, order: seq<Point>, p: Point)
    requires pic.Has(p)
    ensures |Around(pic, p)| > 0
    ensures Feathered(pic, order, p) == 255 * |Kept(Around(pic, p), order)| / |Around(pic, p)|
  {
    hide Sum, Lit, Near, Kept, Seen;
    NearSets(pic, order, p, 9);
    SeenAll(pic, p);
    NearCounts(pic, order, p, 9);
    NearSome(pic, order, p, 9);
    HardCentre(pic, order, p);
    WholeShare(|Around(pic, p)|);
  }

  /** Where all the box agrees, the pixel itself says what it agrees on. */
  lemma HardCentre(pic: Picture, order: seq<Point>, p: Point)
    requires pic.Has(p)
    ensures All(pic, order, p, 9, true) ==> p in order
    ensures All(pic, order, p, 9, false) ==> p !in order
  {
    assert Box(p, 4) == p;
  }

  lemma Average(lit: nat, n: nat)
    requires 0 < lit < n <= 9
    ensures 28 <= 255 * lit / n <= 226
  {
  }

  /**
   Clear exactly where the whole neighbourhood is outside, opaque exactly where none of
   it is, and well clear of both everywhere else.
   */
  lemma FeatherExact(pic: Picture, order: seq<Point>, p: Point)
    requires pic.Has(p)
    ensures Feathered(pic, order, p) < 256
    ensures Feathered(pic, order, p) == 0 <==> forall q :: pic.Has(q) && Touches(p, q) ==> q in order
    ensures Feathered(pic, order, p) == 255 <==> forall q :: pic.Has(q) && Touches(p, q) ==> q !in order
    ensures Feathered(pic, order, p) in {0, 255} || 28 <= Feathered(pic, order, p) <= 226
  {
    NearCounts(pic, order, p, 9);
    BoxCovers(pic, order, p);
    NearSome(pic, order, p, 9);
    var near := Near(pic, order, p, 9);
    assert Box(p, 4) == p;
    if 0 < Lit(near) < |near| { Average(Lit(near), |near|); }
  }

  lemma BoxCovers(pic: Picture, order: seq<Point>, p: Point)
    ensures (forall q :: pic.Has(q) && Touches(p, q) ==> q in order) <==> All(pic, order, p, 9, true)
    ensures (forall q :: pic.Has(q) && Touches(p, q) ==> q !in order) <==> All(pic, order, p, 9, false)
  {
    forall q | Touches(p, q) ensures exists j :: 0 <= j < 9 && Box(p, j) == q {
      var k := BoxTouches(p, q);
    }
    forall j | 0 <= j < 9 ensures Touches(p, Box(p, j)) {
    }
  }

  // --- The passes over the arrays ---

  /** An array laid out like the mask. */
  ghost predicate Laid(pic: Picture, a: array<Byte>)
  {
    a.Length == pic.h * pic.w && forall p {:trigger At(pic.w, p)} :: pic.Has(p) ==> 0 <= At(pic.w, p) < a.Length
  }

  ghost predicate Hard(pic: Picture, a: array<Byte>, order: seq<Point>)
    reads a
  {
    Laid(pic, a) && forall p {:trigger At(pic.w, p)} :: pic.Has(p) ==> a[At(pic.w, p)] == Level(p in order)
  }

  ghost predicate Before(p: Point, x: int, y: int) { p.y < y || (p.y == y && p.x < x) }

  /** Softened up to (x, y), hard from there on. */
  ghost predicate Soft(pic: Picture, a: array<Byte>, order: seq<Point>, x: int, y: int)
    reads a
  {
    Laid(pic, a) && forall p {:trigger At(pic.w, p)} :: pic.Has(p) ==>
                                a[At(pic.w, p)] ==
                                if Before(p, x, y) then Feathered(pic, order, p) else Level(p in order)
  }

  method HardEdge(pic: Picture, seen: array<Byte>, ghost order: seq<Point>) returns (alpha: array<Byte>)
    requires Marks(pic, seen, order)
    ensures fresh(alpha) && Hard(pic, alpha, order)
  {
    alpha := new Byte[pic.h * pic.w](_ => 0);
    assert alpha.Length == seen.Length;
    for i := 0 to alpha.Length
      invariant forall j :: 0 <= j < i ==> alpha[j] == Level(seen[j] != 0)
    {
      alpha[i] := if seen[i] == 0 then 255 else 0;
    }
  }

  /** Gathers the box around p. */
  method Gather(pic: Picture, alpha: array<Byte>, p: Point, ghost order: seq<Point>) returns (near: seq<Byte>)
    requires Hard(pic, alpha, order)
    ensures near == Near(pic, order, p, 9)
  {
    hide Near, Box;
    near := [];
    NearFirst(pic, order, p);
    for dy: int := -1 to 2
      invariant near == Near(pic, order, p, (dy + 1) * 3)
    {
      for dx: int := -1 to 2
        invariant near == Near(pic, order, p, (dy + 1) * 3 + dx + 1)
      {
        var q := Point(p.x + dx, p.y + dy);
        NearNext(pic, order, p, dx, dy);
        if pic.Has(q) { near := near + [alpha[At(pic.w, q)]]; }
      }
    }
  }

  lemma NearFirst(pic: Picture, order: seq<Point>, p: Point)
    ensures Near(pic, order, p, 0) == []
  {
  }

  lemma NearNext(pic: Picture, order: seq<Point>, p: Point, dx: int, dy: int)
    requires -1 <= dx < 2 && -1 <= dy < 2
    ensures var k: nat := (dy + 1) * 3 + dx + 1; var q := Point(p.x + dx, p.y + dy);
            Near(pic, order, p, k + 1) == Near(pic, order, p, k) + if pic.Has(q) then [Level(q in order)] else []
  {
    var k: nat := (dy + 1) * 3 + dx + 1;
    assert Box(p, k) == Point(p.x + dx, p.y + dy);
  }

  method Feathering(pic: Picture, alpha: array<Byte>, ghost order: seq<Point>) returns (soft: array<Byte>)
    requires Hard(pic, alpha, order)
    ensures fresh(soft) && Soft(pic, soft, order, 0, pic.h)
  {
    hide Feathered;
    soft := new Byte[alpha.Length](_ => 0);
    for i := 0 to alpha.Length
      invariant forall j :: 0 <= j < i ==> soft[j] == alpha[j]
    {
      soft[i] := alpha[i];
    }
    for y := 0 to pic.h
      invariant Hard(pic, alpha, order) && Soft(pic, soft, order, 0, y)
    {
      for x := 0 to pic.w
        invariant Hard(pic, alpha, order) && Soft(pic, soft, order, x, y)
      {
        FeatherOne(pic, alpha, soft, x, y, order);
      }
    }
  }

  method FeatherOne(pic: Picture, alpha: array<Byte>, soft: array<Byte>, x: nat, y: nat, ghost order: seq<Point>)
    requires alpha != soft && x < pic.w && y < pic.h
    requires Hard(pic, alpha, order) && Soft(pic, soft, order, x, y)
    modifies soft
    ensures Soft(pic, soft, order, x + 1, y)
  {
    hide Near, Lit, Sum;
    var p := Point(x, y);
    var near := Gather(pic, alpha, p, order);
    FeatherExact(pic, order, p);
    assert Feathered(pic, order, p) == Soften(near, Level(p in order));
    if near != [] && 0 < Lit(near) < |near| { soft[At(pic.w, p)] := Sum(near) / |near|; }
    forall q | pic.Has(q)
      ensures soft[At(pic.w, q)] == if Before(q, x + 1, y) then Feathered(pic, order, q) else Level(q in order)
    {
      if At(pic.w, q) == At(pic.w, p) {
        AtInjective(pic.w, p, q);
      } else {
        assert Before(q, x + 1, y) == Before(q, x, y);
      }
    }
  }

  // --- The whole cut ---

  /** The four corners, averaged. An empty picture has none, and one cut short may lack the last. */
  function SurroundColour(pic: Picture): Result<Colour>
    requires pic.AsRead()
  {
    if pic.w == 0 || pic.h == 0 || !pic.Whole() then Bad else
    var a, b := ColourAt(pic, Point(0, 0)), ColourAt(pic, Point(pic.w - 1, 0));
    var c, d := ColourAt(pic, Point(0, pic.h - 1)), ColourAt(pic, Point(pic.w - 1, pic.h - 1));
    Ok(Colour((a.r + b.r + c.r + d.r) / 4, (a.g + b.g + c.g + d.g) / 4, (a.b + b.b + c.b + d.b) / 4))
  }

  ghost function CornerSum(pic: Picture, i: nat): int
    requires pic.Valid() && pic.w > 0 && pic.h > 0 && i < 3
  {
    var last := Offset(pic.bpp, pic.w - 1);
    var top, bottom := pic.rows[0], pic.rows[pic.h - 1];
    var a: int, b: int, c: int, d: int := top[i], top[last + i], bottom[i], bottom[last + i];
    a + b + c + d
  }

  /** The surround is the mean of the corner pixels, channel by channel, rounded down. */
  lemma SurroundIsMean(pic: Picture)
    requires pic.AsRead()
    ensures SurroundColour(pic).Ok? <==> pic.w > 0 && pic.h > 0 && pic.Whole()
    ensures SurroundColour(pic).Ok? ==>
              pic.Valid() && forall i: nat :: i < 3 ==>
                var mean := Channel(SurroundColour(pic).value, i);
                4 * mean <= CornerSum(pic, i) < 4 * mean + 4
  {
    if SurroundColour(pic).Ok? {
      WholeIsValid(pic);
      forall i: nat | i < 3 ensures Channel(SurroundColour(pic).value, i) == CornerSum(pic, i) / 4 {
        Sampled(pic, i);
      }
    }
  }

  lemma WholeIsValid(pic: Picture)
    requires pic.AsRead() && pic.Whole()
    ensures pic.Valid()
  {
    forall y | 0 <= y < pic.h ensures Offset(pic.bpp, pic.w) <= |pic.rows[y]| + (pic.bpp - 3) {
      assert y < pic.h - 1 || y == pic.h - 1;
    }
  }

  lemma Sampled(pic: Picture, i: nat)
    requires pic.AsRead() && pic.Valid() && pic.w > 0 && pic.h > 0 && i < 3 && SurroundColour(pic).Ok?
    ensures Channel(SurroundColour(pic).value, i) == CornerSum(pic, i) / 4
  {
  }

  /** What the alpha of pixel p must be, said by walks from the border alone. */
  ghost predicate AlphaFor(pic: Picture, base: Colour, p: Point, alpha: Byte)
    requires pic.Valid()
  {
    && (alpha == 0 <==> forall q :: pic.Has(q) && Touches(p, q) ==> Outside(pic, base, q))
    && (alpha == 255 <==> forall q :: pic.Has(q) && Touches(p, q) ==> !Outside(pic, base, q))
    && (alpha == 0 || alpha == 255 || 28 <= alpha <= 226)
    && |Around(pic, p)| > 0 && alpha == 255 * |Within(pic, base, p)| / |Around(pic, p)|
  }

  /** The pixels next to p that no walk from the border reaches. */
  ghost function Within(pic: Picture, base: Colour, p: Point): set<Point>
    requires pic.Valid()
  {
    set q | q in Around(pic, p) && !Outside(pic, base, q)
  }

  /** Four bytes of the result: the pixel's three as they were, and its alpha from the walks. */
  ghost predicate PixelFor(pic: Picture, base: Colour, p: Point, four: seq<Byte>)
    requires pic.Valid() && pic.Has(p)
  {
    && |four| == 4 && four[..3] == pic.rows[p.y][Offset(pic.bpp, p.x)..Offset(pic.bpp, p.x) + 3]
    && AlphaFor(pic, base, p, four[3])
  }

  /** One row of the result. */
  ghost predicate RowFor(pic: Picture, base: Colour, y: nat, line: seq<Byte>)
    requires pic.Valid() && y < pic.h
  {
    |line| == 4 * pic.w && PixelsFor(pic, base, y, line, pic.w)
  }

  /** The first n pixels of it. */
  ghost predicate PixelsFor(pic: Picture, base: Colour, y: nat, line: seq<Byte>, n: nat)
    requires pic.Valid() && y < pic.h && n <= pic.w && 4 * n <= |line|
  {
    forall x {:trigger Point(x, y)} :: 0 <= x < n ==> PixelFor(pic, base, Point(x, y), line[4 * x..4 * x + 4])
  }

  /** Every pixel keeps its colour and gets the alpha its walks to the border call for. */
  method Cut(pic: Picture) returns (r: Result<seq<seq<Byte>>>)
    requires pic.AsRead()
    ensures r.Bad? <==> pic.w == 0 || pic.h == 0 || !pic.Whole()
    ensures r.Ok? ==> pic.Valid() && |r.value| == pic.h && SurroundColour(pic).Ok? &&
                      forall y :: 0 <= y < pic.h ==> RowFor(pic, SurroundColour(pic).value, y, r.value[y])
  {
    if pic.w == 0 || pic.h == 0 || !pic.Whole() {
      r := Bad;
    } else {
      var rows := CutRows(pic, SurroundColour(pic).value);
      r := Ok(rows);
    }
  }

  method CutRows(pic: Picture, base: Colour) returns (out: seq<seq<Byte>>)
    requires pic.Valid() && pic.w > 0 && pic.h > 0
    ensures |out| == pic.h && forall y :: 0 <= y < pic.h ==> RowFor(pic, base, y, out[y])
  {
    hide Soft, Marks, Hard, RowFor, Outside, NoRepeat;
    var seen, order := OutsideMask(pic, base);
    var alpha := HardEdge(pic, seen, order);
    var soft := Feathering(pic, alpha, order);
    out := [];
    for y := 0 to pic.h
      invariant Soft(pic, soft, order, 0, pic.h)
      invariant |out| == y && forall k :: 0 <= k < y ==> RowFor(pic, base, k, out[k])
    {
      var line := CutRow(pic, base, soft, y, order);
      out := out + [line];
    }
  }

  lemma AlphaExact(pic: Picture, base: Colour, order: seq<Point>, p: Point)
    requires pic.Valid() && pic.Has(p) && forall q :: q in order <==> Outside(pic, base, q)
    ensures Feathered(pic, order, p) < 256 && AlphaFor(pic, base, p, Feathered(pic, order, p))
  {
    hide Outside, Feathered, Around;
    FeatherExact(pic, order, p);
    FeatherIsShare(pic, order, p);
    assert Kept(Around(pic, p), order) == Within(pic, base, p);
  }

  lemma NextPixel(pic: Picture, base: Colour, y: nat, line: seq<Byte>, n: nat, four: seq<Byte>)
    requires pic.Valid() && y < pic.h && n < pic.w && |line| == 4 * n
    requires |four| == 4 && PixelsFor(pic, base, y, line, n) && PixelFor(pic, base, Point(n, y), four)
    ensures |line + four| == 4 * (n + 1) && PixelsFor(pic, base, y, line + four, n + 1)
  {
    hide PixelFor;
    var more := line + four;
    forall x {:trigger Point(x, y)} | 0 <= x < n + 1 ensures PixelFor(pic, base, Point(x, y), more[4 * x..4 * x + 4]) {
      if x < n { FourOf(line, four, 4 * x); } else { FourMore(line, four); }
    }
  }

  lemma FourOf(line: seq<Byte>, four: seq<Byte>, i: nat)
    requires i + 4 <= |line|
    ensures (line + four)[i..i + 4] == line[i..i + 4]
  {
  }

  lemma FourMore(line: seq<Byte>, four: seq<Byte>)
    requires |four| == 4
    ensures (line + four)[|line|..|line| + 4] == four
  {
  }

  method CutRow(pic: Picture, base: Colour, alpha: array<Byte>, y: nat, ghost order: seq<Point>)
    returns (line: seq<Byte>)
    requires pic.Valid() && y < pic.h && Soft(pic, alpha, order, 0, pic.h)
    requires forall q :: q in order <==> Outside(pic, base, q)
    ensures RowFor(pic, base, y, line)
  {
    hide Outside, Feathered, AlphaFor, PixelsFor;
    line := [];
    assert PixelsFor(pic, base, y, line, 0) by { NoPixels(pic, base, y); }
    for x := 0 to pic.w
      invariant |line| == 4 * x && PixelsFor(pic, base, y, line, x)
    {
      var p := Point(x, y);
      var c := ColourAt(pic, p);
      AlphaExact(pic, base, order, p);
      var four := [c.r, c.g, c.b, alpha[At(pic.w, p)]];
      assert four[..3] == pic.rows[y][Offset(pic.bpp, x)..Offset(pic.bpp, x) + 3];
      NextPixel(pic, base, y, line, x, four);
      line := line + four;
    }
  }

  lemma NoPixels(pic: Picture, base: Colour, y: nat)
    requires pic.Valid() && y < pic.h
    ensures PixelsFor(pic, base, y, [], 0)
  {
  }
}
