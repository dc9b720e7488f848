/** The line rasteriser of src/kernel/video/framebuffer.c.

    `Segment` is the reference: the point at step k moves k pixels along the longer axis and
    rounds the exact rational height along the shorter one, halves away from the start.  The
    method `DrawLine` keeps the source's error accumulator and its unbounded loop, and is proved
    to plot exactly `Segment`, point for point. */
module Rasteriser {
  import opened Machine

  const INT32_LIMIT := 0x8000_0000

  /** C's int. */
  type int32 = n: int | -INT32_LIMIT <= n < INT32_LIMIT

  datatype Point = Point(x: int, y: int)

  function Abs(n: int): nat {
    if n < 0 then -n else n
  }

  function Max(m: int, n: int): int {
    if m < n then n else m
  }

  function Min(m: int, n: int): int {
    if m < n then m else n
  }

  /** n unit steps from one coordinate towards the other. */
  function Towards(from: int, to: int, n: int): int {
    if from < to then from + n else from - n
  }

  /** How many pixels the longer axis spans. */
  function Span(p: Point, q: Point): nat {
    Max(Abs(q.x - p.x), Abs(q.y - p.y))
  }

  /** k * minor / major, rounded to the nearest integer, halves up. */
  function Rounded(k: nat, minor: nat, major: nat): nat {
    if major == 0 then 0 else (2 * (k * minor) + major) / (2 * major)
  }

  function SegmentPoint(p: Point, q: Point, k: nat): Point {
    var a, b := Abs(q.x - p.x), Abs(q.y - p.y);
    if b <= a then
      Point(Towards(p.x, q.x, k), Towards(p.y, q.y, Rounded(k, b, a)))
    else
      Point(Towards(p.x, q.x, Rounded(k, a, b)), Towards(p.y, q.y, k))
  }

  function Segment(p: Point, q: Point): seq<Point> {
    seq(Span(p, q) + 1, k requires 0 <= k => SegmentPoint(p, q, k))
  }

  /** C's conversion of an int to uint32_t. */
  function ToUint32(n: int): nat {
    n % WORD_LIMIT
  }

  function Cast(x: int, y: int): Point {
    Point(ToUint32(x), ToUint32(y))
  }

  /** The arguments the pixel sink receives for a list of points. */
  function Casts(points: seq<Point>): seq<Point> {
    seq(|points|, k requires 0 <= k < |points| => Cast(points[k].x, points[k].y))
  }

  /** j is the height after k steps exactly when the doubled deviation lies in (-major, major]. */
  ghost predicate OnLine(k: nat, j: nat, minor: nat, major: nat) {
    0 < 2 * (j * major - k * minor) + major <= 2 * major
  }

  lemma MultiplyMonotone(m: int, n: int, d: int)
    requires m <= n && 0 <= d
    ensures m * d <= n * d
  {
    assert 0 <= (n - m) * d;
  }

  lemma QuotientUnique(n: int, d: int, j: int)
    requires 0 < d
    ensures j * d <= n < j * d + d <==> j == n / d
  {
    var r := n / d;
    assert n == r * d + n % d;
    if j < r {
      MultiplyMonotone(j + 1, r, d);
    } else if r < j {
      MultiplyMonotone(r + 1, j, d);
    }
  }

  lemma RoundedIsNearest(k: nat, j: nat, minor: nat, major: nat)
    requires 0 < major
    ensures OnLine(k, j, minor, major) <==> j == Rounded(k, minor, major)
  {
    QuotientUnique(2 * (k * minor) + major, 2 * major, j);
    assert j * (2 * major) == 2 * (j * major);
  }

  /** One turn of the loop: with E the error, the long axis always steps and the short axis
      steps exactly when 2E <= major; the point stays on the line either way.  The error also
      keeps the bounds that make 2E fit an int. */
  lemma Advance(k: nat, j: nat, minor: nat, major: nat, E: int)
    requires minor <= major && 0 < major
    requires OnLine(k, j, minor, major)
    requires E == (j + 1) * major - (k + 1) * minor
    ensures major - 2 * minor < 2 * E <= 3 * major - 2 * minor
    ensures 0 <= 2 * E + minor
    ensures 2 * E <= major ==>
              OnLine(k + 1, j + 1, minor, major) && E + major - minor == (j + 2) * major - (k + 2) * minor
    ensures major < 2 * E ==>
              OnLine(k + 1, j, minor, major) && E - minor == (j + 1) * major - (k + 2) * minor
  {
    assert (j + 1) * major == j * major + major;
    assert (j + 2) * major == j * major + 2 * major;
    assert (k + 1) * minor == k * minor + minor;
    assert (k + 2) * minor == k * minor + 2 * minor;
  }

  /** After all steps of the long axis the short axis has arrived too, and not before. */
  lemma RoundedArrives(minor: nat, major: nat)
    requires minor <= major
    ensures Rounded(major, minor, major) == minor
  {
    if 0 < major {
      assert minor * major == major * minor;
      RoundedIsNearest(major, minor, minor, major);
    }
  }

  lemma RoundedBound(k: nat, minor: nat, major: nat)
    requires minor <= major && k <= major
    ensures Rounded(k, minor, major) <= minor
  {
    if 0 < major {
      var j := Rounded(k, minor, major);
      RoundedIsNearest(k, j, minor, major);
      MultiplyMonotone(k, major, minor);
      if minor < j {
        MultiplyMonotone(minor + 1, j, major);
        assert false;
      }
    }
  }

  lemma RoundedStarts(minor: nat, major: nat)
    ensures Rounded(0, minor, major) == 0
  {
    if 0 < major {
      RoundedIsNearest(0, 0, minor, major);
    }
  }

  /** The last point is the far end, and no earlier point is. */
  lemma SegmentEnds(p: Point, q: Point)
    ensures Segment(p, q)[0] == p
    ensures Segment(p, q)[Span(p, q)] == q
    ensures forall k :: 0 <= k < Span(p, q) ==> Segment(p, q)[k] != q
  {
    var a, b := Abs(q.x - p.x), Abs(q.y - p.y);
    if b <= a { RoundedArrives(b, a); RoundedStarts(b, a); } else { RoundedArrives(a, b); RoundedStarts(a, b); }
  }

  /** No point of the line is more than half a pixel off the ideal segment, measured along the
      shorter axis, in any octant. */
  lemma {:induction false} WithinHalfPixel(p: Point, q: Point, k: nat)
    requires k <= Span(p, q)
    ensures var r := Segment(p, q)[k];
            Abs(2 * (Abs(r.y - p.y) * Abs(q.x - p.x) - Abs(r.x - p.x) * Abs(q.y - p.y))) <= Span(p, q)
  {
    var a, b := Abs(q.x - p.x), Abs(q.y - p.y);
    if b <= a && 0 < a {
      RoundedIsNearest(k, Rounded(k, b, a), b, a);
    } else if a < b {
      RoundedIsNearest(k, Rounded(k, a, b), a, b);
    }
  }

  /** The error accumulator of the source after k steps of the longer axis. */
  function ErrorAt(k: nat, minor: nat, major: nat): int {
    (Rounded(k, minor, major) + 1) * major - (k + 1) * minor
  }

  lemma NextRounded(k: nat, minor: nat, major: nat)
    requires minor <= major && k < major
    ensures var E := ErrorAt(k, minor, major);
            && major - 2 * minor < 2 * E <= 3 * major - 2 * minor
            && Rounded(k + 1, minor, major) == Rounded(k, minor, major) + (if 2 * E <= major then 1 else 0)
            && ErrorAt(k + 1, minor, major) == E - minor + (if 2 * E <= major then major else 0)
  {
    var j := Rounded(k, minor, major);
    RoundedIsNearest(k, j, minor, major);
    Advance(k, j, minor, major, ErrorAt(k, minor, major));
    RoundedIsNearest(k + 1, j, minor, major);
    RoundedIsNearest(k + 1, j + 1, minor, major);
  }

  lemma ErrorStarts(minor: nat, major: nat)
    ensures ErrorAt(0, minor, major) == major - minor && Rounded(0, minor, major) == 0
  {
    RoundedStarts(minor, major);
  }

  lemma ErrorBound(k: nat, minor: nat, major: nat)
    requires minor <= major
    ensures -3 * major <= 2 * ErrorAt(k, minor, major) <= 3 * major
  {
    if 0 < major {
      RoundedIsNearest(k, Rounded(k, minor, major), minor, major);
      Advance(k, Rounded(k, minor, major), minor, major, ErrorAt(k, minor, major));
    }
  }

  /** Every point stays inside the box spanned by the two ends. */
  lemma InsideBox(p: Point, q: Point, k: nat)
    requires k <= Span(p, q)
    ensures var r := Segment(p, q)[k];
            Min(p.x, q.x) <= r.x <= Max(p.x, q.x) && Min(p.y, q.y) <= r.y <= Max(p.y, q.y)
  {
    var a, b := Abs(q.x - p.x), Abs(q.y - p.y);
    if b <= a { RoundedBound(k, b, a); } else { RoundedBound(k, a, b); }
  }

  /** Consecutive points are one step towards the end along the longer axis and at most one
      along the shorter. */
  lemma Connected(p: Point, q: Point, k: nat)
    requires k < Span(p, q)
    ensures var r, s := Segment(p, q)[k], Segment(p, q)[k + 1];
            if Abs(q.y - p.y) <= Abs(q.x - p.x)
            then s.x == Towards(r.x, q.x, 1) && (s.y == r.y || s.y == Towards(r.y, q.y, 1))
            else s.y == Towards(r.y, q.y, 1) && (s.x == r.x || s.x == Towards(r.x, q.x, 1))
  {
    var a, b := Abs(q.x - p.x), Abs(q.y - p.y);
    if b <= a {
      RoundedBound(k + 1, b, a);
      NextRounded(k, b, a);
    } else {
      RoundedBound(k + 1, a, b);
      NextRounded(k, a, b);
    }
  }

  /** Point r lies in the box of the two ends, and its doubled deviation from the ideal segment, along the
      shorter axis, in (-span, span]. */
  ghost predicate Nearest(p: Point, q: Point, r: Point) {
    && Min(p.x, q.x) <= r.x <= Max(p.x, q.x) && Min(p.y, q.y) <= r.y <= Max(p.y, q.y)
    && var a, b, u, v := Abs(q.x - p.x), Abs(q.y - p.y), Abs(r.x - p.x), Abs(r.y - p.y);
    p != q ==> if b <= a then OnLine(u, v, b, a) else OnLine(v, u, a, b)
  }

  /** Which pixels a line consists of, said without following it. */
  lemma SegmentIsNearest(p: Point, q: Point, r: Point)
    ensures r in Segment(p, q) <==> Nearest(p, q, r)
  {
    hide OnLine, Rounded;
    if r in Segment(p, q) {
      var k :| 0 <= k <= Span(p, q) && Segment(p, q)[k] == r;
      InsideBox(p, q, k);
      if p != q { PointIsOnLine(p, q, k); }
    }
    if Nearest(p, q, r) {
      if p == q { SegmentEnds(p, q); } else { NearestIsPoint(p, q, r); }
    }
  }

  lemma NearestIsPoint(p: Point, q: Point, r: Point)
    requires p != q && Nearest(p, q, r)
    ensures r in Segment(p, q)
  {
    hide OnLine, Rounded;
    var a, b, u, v := Abs(q.x - p.x), Abs(q.y - p.y), Abs(r.x - p.x), Abs(r.y - p.y);
    if b <= a {
      RoundedIsNearest(u, v, b, a);
      assert Segment(p, q)[u] == r;
    } else {
      RoundedIsNearest(v, u, a, b);
      assert Segment(p, q)[v] == r;
    }
  }

  lemma PointIsOnLine(p: Point, q: Point, k: nat)
    requires p != q && k <= Span(p, q)
    ensures var a, b, r := Abs(q.x - p.x), Abs(q.y - p.y), Segment(p, q)[k];
            if b <= a then OnLine(Abs(r.x - p.x), Abs(r.y - p.y), b, a) else OnLine(Abs(r.y - p.y), Abs(r.x - p.x), a, b)
  {
    var a, b := Abs(q.x - p.x), Abs(q.y - p.y);
    if b <= a {
      RoundedIsNearest(k, Rounded(k, b, a), b, a);
    } else {
      RoundedIsNearest(k, Rounded(k, a, b), a, b);
    }
  }

  /** C's conversion of a uint32_t to an int. */
  function Signed(n: nat): int {
    if n < INT32_LIMIT then n else n - WORD_LIMIT
  }

  /** A coordinate reaches column c exactly when it is c, read as an int: a line from outside the buffer
      is not drawn where it is negative, unless a buffer had more than 2^31 columns. */
  lemma CastIsSigned(x: int32, c: nat)
    requires c < WORD_LIMIT
    ensures ToUint32(x) == c <==> x == Signed(c)
  {
  }

  /** The pixels that the casts of a line reach. */
  lemma PixelOfSegment(p: Point, q: Point, c: nat, r: nat)
    requires c < WORD_LIMIT && r < WORD_LIMIT
    requires -INT32_LIMIT <= p.x < INT32_LIMIT && -INT32_LIMIT <= p.y < INT32_LIMIT
    requires -INT32_LIMIT <= q.x < INT32_LIMIT && -INT32_LIMIT <= q.y < INT32_LIMIT
    ensures Point(c, r) in Casts(Segment(p, q)) <==> Point(Signed(c), Signed(r)) in Segment(p, q)
  {
    hide Segment, ToUint32, Signed;
    var s := Segment(p, q);
    assert |s| == Span(p, q) + 1 by { SegmentLength(p, q); }
    forall k | 0 <= k < |s|
      ensures Casts(s)[k] == Point(c, r) <==> s[k] == Point(Signed(c), Signed(r))
    {
      InsideBox(p, q, k);
      CastIsSigned(s[k].x, c);
      CastIsSigned(s[k].y, r);
    }
    if Point(Signed(c), Signed(r)) in s {
      var k :| 0 <= k < |s| && s[k] == Point(Signed(c), Signed(r));
      assert Casts(s)[k] == Point(c, r);
    }
  }

  lemma SegmentLength(p: Point, q: Point)
    ensures |Segment(p, q)| == Span(p, q) + 1
  {
  }

  /** What the loop carries from one turn to the next. */
  datatype Cursor = Cursor(x: int, y: int, err: int)

  /** One turn: both branch tests of the source read the same error. */
  function Turn(c: Cursor, dx: int, dy: int, sx: int, sy: int): Cursor {
    var stepX, stepY := 2 * c.err >= dy, 2 * c.err <= dx;
    Cursor(if stepX then c.x + sx else c.x,
           if stepY then c.y + sy else c.y,
           c.err + (if stepX then dy else 0) + (if stepY then dx else 0))
  }

  /** What the source computes once, before the loop. */
  datatype Slope = Slope(dx: int, dy: int, sx: int, sy: int)

  function SlopeOf(p: Point, q: Point): Slope {
    Slope(Abs(q.x - p.x), -(Abs(q.y - p.y) as int), Towards(0, q.x - p.x, 1), Towards(0, q.y - p.y, 1))
  }

  /** The state at the head of the loop after k turns. */
  function Turns(p: Point, s: Slope, k: nat): Cursor {
    if k == 0 then Cursor(p.x, p.y, s.dx + s.dy) else Turn(Turns(p, s, k - 1), s.dx, s.dy, s.sx, s.sy)
  }

  /** What the pixel sink has received after n turns. */
  function Sent(p: Point, s: Slope, n: nat): (t: seq<Point>)
    ensures |t| == n
  {
    if n == 0 then [] else Sent(p, s, n - 1) + [Cast(Turns(p, s, n - 1).x, Turns(p, s, n - 1).y)]
  }

  /** Both branch tests together move from one reference point to the next: a flat line... */
  lemma {:induction false} FlatTurns(p: Point, q: Point, k: nat)
    requires Abs(q.y - p.y) <= Abs(q.x - p.x) && k <= Abs(q.x - p.x)
    ensures var a, b := Abs(q.x - p.x), Abs(q.y - p.y);
            Turns(p, SlopeOf(p, q), k) ==
            Cursor(Towards(p.x, q.x, k), Towards(p.y, q.y, Rounded(k, b, a)), ErrorAt(k, b, a))
  {
    hide Abs, Rounded, ErrorAt;
    var a, b := Abs(q.x - p.x), Abs(q.y - p.y);
    if k == 0 {
      ErrorStarts(b, a);
    } else {
      FlatTurns(p, q, k - 1);
      NextRounded(k - 1, b, a);
    }
  }

  /** ...and a steep one, where the error changes sign. */
  lemma {:induction false} SteepTurns(p: Point, q: Point, k: nat)
    requires Abs(q.x - p.x) < Abs(q.y - p.y) && k <= Abs(q.y - p.y)
    ensures var a, b := Abs(q.x - p.x), Abs(q.y - p.y);
            Turns(p, SlopeOf(p, q), k) ==
            Cursor(Towards(p.x, q.x, Rounded(k, a, b)), Towards(p.y, q.y, k), -ErrorAt(k, a, b))
  {
    hide Abs, Rounded, ErrorAt;
    var a, b := Abs(q.x - p.x), Abs(q.y - p.y);
    if k == 0 {
      ErrorStarts(a, b);
    } else {
      SteepTurns(p, q, k - 1);
      NextRounded(k - 1, a, b);
    }
  }

  lemma TurnsFollowSegment(p: Point, q: Point, k: nat)
    requires k <= Span(p, q)
    ensures Point(Turns(p, SlopeOf(p, q), k).x, Turns(p, SlopeOf(p, q), k).y) == Segment(p, q)[k]
  {
    if Abs(q.y - p.y) <= Abs(q.x - p.x) { FlatTurns(p, q, k); } else { SteepTurns(p, q, k); }
  }

  /** The loop test holds at the last turn and at no earlier one, and 2 * err stays in range. */
  lemma TurnsStop(p: Point, q: Point, k: nat)
    requires k <= Span(p, q)
    ensures Point(Turns(p, SlopeOf(p, q), k).x, Turns(p, SlopeOf(p, q), k).y) == q <==> k == Span(p, q)
    ensures -3 * Span(p, q) <= 2 * Turns(p, SlopeOf(p, q), k).err <= 3 * Span(p, q)
  {
    TurnsFollowSegment(p, q, k);
    SegmentEnds(p, q);
    var a, b := Abs(q.x - p.x), Abs(q.y - p.y);
    if b <= a {
      FlatTurns(p, q, k);
      ErrorBound(k, b, a);
    } else {
      SteepTurns(p, q, k);
      ErrorBound(k, a, b);
    }
  }

  lemma {:induction false} SentIsSegment(p: Point, q: Point, n: nat)
    requires n <= Span(p, q) + 1
    ensures Sent(p, SlopeOf(p, q), n) == Casts(Segment(p, q))[..n]
  {
    if n != 0 {
      SentIsSegment(p, q, n - 1);
      TurnsFollowSegment(p, q, n - 1);
    }
  }

  /** The loop sends exactly the reference segment, and stops when it has. */
  lemma WalkIsSegment(p: Point, q: Point)
    ensures StopsAfter(p, q, SlopeOf(p, q), Span(p, q))
    ensures Sent(p, SlopeOf(p, q), Span(p, q) + 1) == Casts(Segment(p, q))
  {
    forall k: nat | k <= Span(p, q)
      ensures Stops(p, q, SlopeOf(p, q), Span(p, q), k)
    {
      TurnsStop(p, q, k);
    }
    SentIsSegment(p, q, Span(p, q) + 1);
    assert Casts(Segment(p, q))[..Span(p, q) + 1] == Casts(Segment(p, q));
  }

  /** At turn k <= n the loop test holds exactly when k == n, and 2 * err fits an int. */
  ghost predicate Stops(p: Point, q: Point, s: Slope, n: nat, k: nat) {
    && (Point(Turns(p, s, k).x, Turns(p, s, k).y) == q <==> k == n)
    && -3 * n <= 2 * Turns(p, s, k).err <= 3 * n
  }

  ghost predicate StopsAfter(p: Point, q: Point, s: Slope, n: nat) {
    forall k: nat :: k <= n ==> Stops(p, q, s, n, k)
  }

  /** The pixel sink.  `plotted` records the arguments of every pixel call in order. */
  class Framebuffer {
    var available: bool
    var bppBytes: nat
    const pixels: array2<bv32>     // pixels[row, column], already packed
    ghost var plotted: seq<Point>

    constructor (available: bool, bppBytes: nat, width: nat, height: nat)
      requires width < WORD_LIMIT && height < WORD_LIMIT
      ensures this.available == available && this.bppBytes == bppBytes && plotted == []
      ensures fresh(pixels) && pixels.Length0 == height && pixels.Length1 == width
    {
      this.available, this.bppBytes, plotted := available, bppBytes, [];
      pixels := new bv32[height, width]((_, _) => 0);
    }

    ghost predicate Draws()
      reads this
    {
      available && bppBytes != 0
    }

    method PutPixel(x: nat, y: nat, packed: bv32)
      modifies `plotted, pixels
      ensures plotted == old(plotted) + [Point(x, y)]
      ensures forall r, c :: 0 <= r < pixels.Length0 && 0 <= c < pixels.Length1 ==>
                pixels[r, c] == if Draws() && r == y && c == x then packed else old(pixels[r, c])
    {
      plotted := plotted + [Point(x, y)];
      if !available {
        return;
      }
      if x >= pixels.Length1 || y >= pixels.Length0 {
        return;
      }
      if bppBytes == 0 {
        return;
      }
      pixels[y, x] := packed;
    }

    /** Plots the reference segment, nothing more and nothing less, in order: of the pixels of the buffer
        exactly its points change.  The requires is the range in which the source's int arithmetic does
        not overflow. */
    method DrawLine(px: int32, py: int32, x1: int32, y1: int32, packed: bv32)
      requires 3 * Span(Point(px, py), Point(x1, y1)) < INT32_LIMIT
      modifies `plotted, pixels
      ensures !available ==> plotted == old(plotted)
      ensures available ==>
                plotted == old(plotted) + Casts(Segment(Point(px, py), Point(x1, y1)))
      ensures forall r, c :: 0 <= r < pixels.Length0 && 0 <= c < pixels.Length1 && r < INT32_LIMIT && c < INT32_LIMIT ==>
                pixels[r, c] == if Draws() && Point(c, r) in Segment(Point(px, py), Point(x1, y1))
                                then packed else old(pixels[r, c])
      ensures forall r, c :: 0 <= r < pixels.Length0 && 0 <= c < pixels.Length1 && r < WORD_LIMIT && c < WORD_LIMIT ==>
                pixels[r, c] == if Draws() && Point(Signed(c), Signed(r)) in Segment(Point(px, py), Point(x1, y1))
                                then packed else old(pixels[r, c])
    {
      hide Segment, Casts;
      if !available {
        return;
      }
      var x0: int, y0: int := px, py;
      var dx := if x1 > x0 then x1 - x0 else x0 - x1;
      var sx := if x0 < x1 then 1 else -1;
      var dy := if y1 > y0 then y0 - y1 else y1 - y0;
      var sy := if y0 < y1 then 1 else -1;
      var err := dx + dy;

      ghost var p, q := Point(px, py), Point(x1, y1);
      assert Slope(dx, dy, sx, sy) == SlopeOf(p, q);
      WalkIsSegment(p, q);
      Walk(px, py, x1, y1, dx, sx, dy, sy, err, packed, Span(p, q));
      forall r, c | 0 <= r < WORD_LIMIT && 0 <= c < WORD_LIMIT
        ensures Point(c, r) in Casts(Segment(p, q)) <==> Point(Signed(c), Signed(r)) in Segment(p, q)
      {
        PixelOfSegment(p, q, c, r);
      }
    }

    /** The source's loop; n is the number of turns it takes. */
    method Walk(px: int, py: int, x1: int, y1: int, dx: int, sx: int, dy: int, sy: int, error: int,
                packed: bv32, ghost n: nat)
      requires error == dx + dy && 3 * n < INT32_LIMIT
      requires StopsAfter(Point(px, py), Point(x1, y1), Slope(dx, dy, sx, sy), n)
      modifies `plotted, pixels
      ensures plotted == old(plotted) + Sent(Point(px, py), Slope(dx, dy, sx, sy), n + 1)
      ensures forall r, c :: 0 <= r < pixels.Length0 && 0 <= c < pixels.Length1 ==>
                pixels[r, c] ==
                  if Draws() && Point(c, r) in Sent(Point(px, py), Slope(dx, dy, sx, sy), n + 1)
                  then packed else old(pixels[r, c])
    {
      var x0, y0, err := px, py, error;
      ghost var p, slope, k := Point(px, py), Slope(dx, dy, sx, sy), 0;
      while true
        invariant k <= n
        invariant Cursor(x0, y0, err) == Turns(p, slope, k)
        invariant plotted == old(plotted) + Sent(p, slope, k)
        invariant forall r, c :: 0 <= r < pixels.Length0 && 0 <= c < pixels.Length1 ==>
                    pixels[r, c] ==
                      if Draws() && Point(c, r) in Sent(p, slope, k) then packed else old(pixels[r, c])
        decreases n - k
      {
        PutPixel(ToUint32(x0), ToUint32(y0), packed);
        assert Stops(p, Point(x1, y1), slope, n, k);
        k := k + 1;
        if x0 == x1 && y0 == y1 {
          break;
        }
        var e2 := 2 * err;
        assert -INT32_LIMIT <= e2 < INT32_LIMIT;
        if e2 >= dy {
          err := err + dy;
          x0 := x0 + sx;
        }
        if e2 <= dx {
          err := err + dx;
          y0 := y0 + sy;
        }
      }
    }
  }
}
