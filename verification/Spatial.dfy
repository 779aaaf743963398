// Conversion of lines and polygons between well-known binary and shape records.

module Spatial {
  import opened Bytes
  import opened SpatialFormat
  import opened ShapeFormat
  import opened RingGroups

  // -- From WKB --

  /** Points of one line or ring, whose count stands at `offset`. */
  method ParseRingCoords(wkb: Bytes, offset: nat, d: Dims, le: bool) returns (r: Option<Ring>)
    requires offset <= |wkb|
    ensures var t := TakeRing(wkb[offset..], d, le); r == if t == None then None else Some(t.value.ring)
  {
    hide TakePoint;
    hide PointSize;
    hide ReadU32;
    if |wkb| < offset + 4 {
      return None;
    }
    assert wkb[offset..][4..] == wkb[offset + 4..];
    var count := ReadU32(wkb[offset..], le);
    var size := PointSize(d);
    EnoughPoints(wkb[offset + 4..], count, d, le);
    if |wkb| < offset + 4 + count * size {
      return None;
    }
    var coords := ReadPoints(wkb, offset + 4, count, d, le);
    r := Some(coords);
  }

  method ReadPoints(wkb: Bytes, start: nat, count: nat, d: Dims, le: bool) returns (coords: Ring)
    requires start + count * PointSize(d) <= |wkb|
    ensures var t := TakePoints(wkb[start..], count, d, le); t.Some? && coords == t.value.ring
  {
    hide *;
    coords := [];
    var size := PointSize(d);
    var i: nat, at: nat := 0, start;
    EnoughFrom(wkb, start, count, d, le);
    BehindNothing([], TakePoints(wkb[start..], count, d, le));
    while i < count
      invariant 0 <= i <= count && at == start + i * size && at <= |wkb|
      invariant Behind(coords, TakePoints(wkb[at..], count - i, d, le)) == TakePoints(wkb[start..], count, d, le)
    {
      NextPoint(size, i, count, start, |wkb|);
      PointsStep(wkb, at, count - i, d, le, coords);
      coords := coords + [TakePoint(wkb[at..], d, le)];
      at := at + size;
      i := i + 1;
    }
    NoPoints(wkb[at..], coords, d, le);
  }

  lemma NoPoints(b: Bytes, coords: Ring, d: Dims, le: bool)
    ensures Behind(coords, TakePoints(b, 0, d, le)) == Some(Points(coords, b))
  {
    assert coords + [] == coords;
  }

  lemma BehindNothing(coords: Ring, more: Option<Points>)
    ensures Behind([], more) == more
  {
    if more.Some? {
      assert [] + more.value.ring == more.value.ring;
    }
  }

  lemma EnoughFrom(wkb: Bytes, start: nat, count: nat, d: Dims, le: bool)
    requires start + count * PointSize(d) <= |wkb|
    ensures start <= |wkb| && TakePoints(wkb[start..], count, d, le).Some?
  {
    assert count * PointSize(d) >= 0;
    EnoughPoints(wkb[start..], count, d, le);
    hide TakePoints;
    hide PointSize;
  }

  /** Bytes of a ring of `n` points. */
  function RingSize(n: nat, d: Dims): nat {
    4 + n * PointSize(d)
  }

  /** A ring ends behind its count and its points. */
  lemma RingEnd(wkb: Bytes, offset: nat, d: Dims, le: bool)
    requires offset <= |wkb| && TakeRing(wkb[offset..], d, le).Some?
    ensures var t := TakeRing(wkb[offset..], d, le).value; var end := offset + RingSize(|t.ring|, d);
      end <= |wkb| && t.rest == wkb[end..]
  {
    hide ReadU32;
    hide PointSize;
    assert wkb[offset..][4..] == wkb[offset + 4..];
    var n := |TakeRing(wkb[offset..], d, le).value.ring|;
    PointsEnd(wkb[offset + 4..], n, d, le);
    hide TakePoints;
    assert wkb[offset + 4..][n * PointSize(d)..] == wkb[offset + RingSize(n, d)..];
  }

  /** The ring at `offset`, and where it ends. */
  method NextRing(wkb: Bytes, offset: nat, d: Dims, le: bool) returns (r: Option<Ring>, next: nat)
    requires offset <= |wkb|
    ensures var t := TakeRing(wkb[offset..], d, le); r == if t == None then None else Some(t.value.ring)
    ensures r.Some? ==> next <= |wkb| && TakeRing(wkb[offset..], d, le).value.rest == wkb[next..]
  {
    hide *;
    r := ParseRingCoords(wkb, offset, d, le);
    next := offset;
    if r.Some? {
      RingEnd(wkb, offset, d, le);
      next := offset + RingSize(|r.value|, d);
    }
  }

  lemma {:induction false} PointsEnd(b: Bytes, n: nat, d: Dims, le: bool)
    requires TakePoints(b, n, d, le).Some?
    ensures n * PointSize(d) <= |b| && TakePoints(b, n, d, le).value.rest == b[n * PointSize(d)..]
    decreases n
  {
    hide *;
    if n > 0 {
      var size := PointSize(d);
      TakePointsStep(b, n, d, le);
      PointsEnd(b[size..], n - 1, d, le);
      SizeStep(n, size);
      assert b[size..][(n - 1) * size..] == b[size + (n - 1) * size..];
    } else {
      NoPointsEnd(b, d, le);
    }
  }

  lemma NoPointsEnd(b: Bytes, d: Dims, le: bool)
    ensures TakePoints(b, 0, d, le) == Some(Points([], b)) && 0 * PointSize(d) == 0 && b[0..] == b
  {
  }

  lemma SizeStep(n: nat, size: nat)
    requires n > 0
    ensures n * size == size + (n - 1) * size && (n - 1) * size >= 0
  {
  }

  lemma TakePointsStep(b: Bytes, n: nat, d: Dims, le: bool)
    requires n > 0 && TakePoints(b, n, d, le).Some?
    ensures PointSize(d) <= |b| && TakePoints(b[PointSize(d)..], n - 1, d, le).Some?
    ensures TakePoints(b[PointSize(d)..], n - 1, d, le).value.rest == TakePoints(b, n, d, le).value.rest
  {
    hide TakePoint;
    hide PointSize;
  }

  function Behind(coords: Ring, more: Option<Points>): Option<Points> {
    if more == None then None else Some(Points(coords + more.value.ring, more.value.rest))
  }

  lemma NextPoint(size: nat, i: nat, count: nat, start: nat, length: nat)
    requires i < count && start + count * size <= length
    ensures i * size + size == (i + 1) * size && start + (i + 1) * size <= length
  {
    assert (i + 1) * size <= count * size;
  }

  lemma PointsStep(wkb: Bytes, at: nat, n: nat, d: Dims, le: bool, coords: Ring)
    requires n > 0 && at + PointSize(d) <= |wkb|
    ensures Behind(coords, TakePoints(wkb[at..], n, d, le))
      == Behind(coords + [TakePoint(wkb[at..], d, le)], TakePoints(wkb[at + PointSize(d)..], n - 1, d, le))
  {
    hide TakePoint;
    hide PointSize;
    assert wkb[at..][PointSize(d)..] == wkb[at + PointSize(d)..];
    var more := TakePoints(wkb[at + PointSize(d)..], n - 1, d, le);
    var p := TakePoint(wkb[at..], d, le);
    if more.Some? {
      Assoc(coords, [p], more.value.ring);
    }
  }

  /** The length check before the points is right. */
  lemma {:induction false} EnoughPoints(b: Bytes, n: nat, d: Dims, le: bool)
    ensures TakePoints(b, n, d, le).Some? <==> n * PointSize(d) <= |b|
    decreases n
  {
    hide TakePoint;
    if n > 0 {
      assert n * PointSize(d) == PointSize(d) + (n - 1) * PointSize(d);
      if |b| >= PointSize(d) {
        EnoughPoints(b[PointSize(d)..], n - 1, d, le);
      }
    }
  }

  function FoundRings(front: seq<Ring>, more: Option<seq<Ring>>): Option<seq<Ring>> {
    if more == None then None else Some(front + more.value)
  }

  /** The shape record of a MultiLineString; `d` are the dimensions that its type names. */
  function LinesToShape(wkb: Bytes, le: bool, d: Dims, g: Extents): Option<Bytes> {
    if |wkb| < 9 then None
    else
      var rings := TakeLines(wkb[9..], ReadU32(wkb[5..], le), d);
      if rings == None then None else Some(ShapeBytes(PolyLine, rings.value, d, g))
  }

  method WkbMultiLineStringToShp(wkb: Bytes, le: bool, d: Dims, g: Extents) returns (shp: Option<Bytes>)
    ensures shp == LinesToShape(wkb, le, d, g)
  {
    hide ShapeBytes;
    hide TakeRing;
    hide TakeLines;
    hide ReadU32;
    hide PointSize;
    if |wkb| < 9 {
      return None;
    }
    var count := ReadU32(wkb[5..], le);
    var offset := 9;
    var parts: seq<Ring> := [];
    var i := 0;
    FoundNothing(TakeLines(wkb[9..], count, d));
    while i < count
      invariant 0 <= i <= count && 0 <= offset <= |wkb|
      invariant FoundRings(parts, TakeLines(wkb[offset..], count - i, d)) == TakeLines(wkb[9..], count, d)
    {
      if |wkb| < offset + 5 {
        LinesShort(wkb[offset..], count - i, d);
        return None;
      }
      LinesStep(wkb, offset, count - i, d);
      var subLe := wkb[offset] == 1;
      offset := offset + 5;
      var coords, next := NextRing(wkb, offset, d, subLe);
      if coords == None {
        return None;
      }
      offset := next;
      FoundNext(parts, coords.value, TakeLines(wkb[offset..], count - i - 1, d));
      parts := parts + [coords.value];
      i := i + 1;
    }
    LinesShort(wkb[offset..], 0, d);
    assert parts + [] == parts;
    var out := BuildShape(PolyLine, parts, d, g);
    shp := Some(out);
  }

  lemma LinesStep(wkb: Bytes, offset: nat, n: nat, d: Dims)
    requires n > 0 && offset + 5 <= |wkb|
    ensures var ring := TakeRing(wkb[offset + 5..], d, wkb[offset] == 1);
      TakeLines(wkb[offset..], n, d)
        == if ring == None then None else FoundRings([ring.value.ring], TakeLines(ring.value.rest, n - 1, d))
  {
    hide TakeRing;
    assert wkb[offset..][5..] == wkb[offset + 5..] && wkb[offset..][0] == wkb[offset];
  }

  lemma LinesShort(b: Bytes, n: nat, d: Dims)
    ensures n == 0 ==> TakeLines(b, n, d) == Some([])
    ensures n > 0 && |b| < 5 ==> TakeLines(b, n, d) == None
  {
    hide TakeRing;
  }

  lemma FoundNothing(more: Option<seq<Ring>>)
    ensures FoundRings([], more) == more
  {
    if more.Some? {
      assert [] + more.value == more.value;
    }
  }

  lemma FoundNoRings(more: Option<RingList>)
    ensures BehindRings([], more) == more
  {
    if more.Some? {
      assert [] + more.value.rings == more.value.rings;
    }
  }

  lemma FoundNext(front: seq<Ring>, ring: Ring, more: Option<seq<Ring>>)
    ensures FoundRings(front, FoundRings([ring], more)) == FoundRings(front + [ring], more)
  {
    if more.Some? {
      Assoc(front, [ring], more.value);
    }
  }

  function PolygonsToShape(wkb: Bytes, le: bool, d: Dims, g: Extents): Option<Bytes> {
    if |wkb| < 9 then None
    else
      var rings := TakePolygons(wkb[9..], ReadU32(wkb[5..], le), d);
      if rings == None then None else Some(ShapeBytes(ShapeFormat.Polygon, rings.value, d, g))
  }

  /** The rings of the polygon at `offset`, and where the next polygon starts. */
  method ParsePolygon(wkb: Bytes, offset: nat, d: Dims) returns (r: Option<seq<Ring>>, next: nat)
    requires offset <= |wkb|
    ensures var t := TakePolygon(wkb[offset..], d); r == if t == None then None else Some(t.value.rings)
    ensures r.Some? ==> next <= |wkb| && TakePolygon(wkb[offset..], d).value.rest == wkb[next..]
  {
    hide TakeRings;
    hide ReadU32;
    if |wkb| < offset + 9 {
      return None, offset;
    }
    var subLe := wkb[offset] == 1;
    assert wkb[offset..][5..] == wkb[offset + 5..] && wkb[offset..][9..] == wkb[offset + 9..];
    r, next := ParseRings(wkb, offset + 9, ReadU32(wkb[offset + 5..], subLe), d, subLe);
  }

  method ParseRings(wkb: Bytes, start: nat, count: nat, d: Dims, le: bool) returns (r: Option<seq<Ring>>, next: nat)
    requires start <= |wkb|
    ensures var t := TakeRings(wkb[start..], count, d, le); r == if t == None then None else Some(t.value.rings)
    ensures r.Some? ==> next <= |wkb| && TakeRings(wkb[start..], count, d, le).value.rest == wkb[next..]
  {
    hide *;
    next := start;
    var rings := [];
    var i := 0;
    FoundNoRings(TakeRings(wkb[start..], count, d, le));
    while i < count
      invariant 0 <= i <= count && next <= |wkb|
      invariant BehindRings(rings, TakeRings(wkb[next..], count - i, d, le)) == TakeRings(wkb[start..], count, d, le)
    {
      RingsStep(wkb[next..], count - i, d, le, rings);
      var coords, end := NextRing(wkb, next, d, le);
      if coords == None {
        return None, next;
      }
      next := end;
      rings := rings + [coords.value];
      i := i + 1;
    }
    RingsEnd(wkb[next..], d, le, rings);
    r := Some(rings);
  }

  lemma RingsStep(b: Bytes, n: nat, d: Dims, le: bool, front: seq<Ring>)
    requires n > 0
    ensures var ring := TakeRing(b, d, le);
      BehindRings(front, TakeRings(b, n, d, le)) ==
        if ring == None then None else BehindRings(front + [ring.value.ring], TakeRings(ring.value.rest, n - 1, d, le))
  {
    hide TakeRing;
    var ring := TakeRing(b, d, le);
    if ring.Some? {
      BehindNext(front, ring.value.ring, TakeRings(ring.value.rest, n - 1, d, le));
    }
  }

  lemma RingsEnd(b: Bytes, d: Dims, le: bool, front: seq<Ring>)
    ensures BehindRings(front, TakeRings(b, 0, d, le)) == Some(RingList(front, b))
  {
    assert front + [] == front;
  }

  function BehindRings(front: seq<Ring>, more: Option<RingList>): Option<RingList> {
    if more == None then None else Some(RingList(front + more.value.rings, more.value.rest))
  }

  lemma BehindNext(front: seq<Ring>, ring: Ring, more: Option<RingList>)
    ensures BehindRings(front, BehindRings([ring], more)) == BehindRings(front + [ring], more)
  {
    if more.Some? {
      Assoc(front, [ring], more.value.rings);
    }
  }

  method WkbMultiPolygonToShp(wkb: Bytes, le: bool, d: Dims, g: Extents) returns (shp: Option<Bytes>)
    ensures shp == PolygonsToShape(wkb, le, d, g)
  {
    hide TakePolygon;
    hide ReadU32;
    if |wkb| < 9 {
      return None;
    }
    var count := ReadU32(wkb[5..], le);
    var offset := 9;
    var allRings: seq<Ring> := [];
    var i := 0;
    FoundNothing(TakePolygons(wkb[9..], count, d));
    while i < count
      invariant 0 <= i <= count && 0 <= offset <= |wkb|
      invariant FoundRings(allRings, TakePolygons(wkb[offset..], count - i, d)) == TakePolygons(wkb[9..], count, d)
    {
      var rings, next := ParsePolygon(wkb, offset, d);
      if rings == None {
        return None;
      }
      FoundMore(allRings, rings.value, TakePolygons(wkb[next..], count - i - 1, d));
      allRings := allRings + rings.value;
      offset := next;
      i := i + 1;
    }
    assert allRings + [] == allRings;
    var out := BuildShape(ShapeFormat.Polygon, allRings, d, g);
    shp := Some(out);
  }

  lemma FoundMore(front: seq<Ring>, rings: seq<Ring>, more: Option<seq<Ring>>)
    ensures FoundRings(front, FoundRings(rings, more)) == FoundRings(front + rings, more)
  {
    if more.Some? {
      Assoc(front, rings, more.value);
    }
  }

  // -- From shape records --

  function LinesOf(rings: seq<Ring>): (lines: seq<Line>)
    ensures |lines| == |rings|
  {
    seq(|rings|, i requires 0 <= i < |rings| => Line(true, rings[i]))
  }

  /** Every part that has points has them inside the record; an index out of range panics otherwise. */
  predicate PointsInRange(s: Shape) {
    forall k :: 0 <= k < |s.starts| && s.starts[k] < PartEnd(s, k) ==> PartEnd(s, k) <= |s.points|
  }

  /** The points of a part; a part that ends before its start has none. */
  function PointsAt(s: Shape, k: nat): Ring
    requires k < |s.starts| && PointsInRange(s)
  {
    if s.starts[k] < PartEnd(s, k) then s.points[s.starts[k]..PartEnd(s, k)] else []
  }

  /** A part as a line. Its number of points is a difference that wraps, unless overflow is checked for. */
  function LineAt(s: Shape, k: nat): Bytes
    requires k < |s.starts| && PointsInRange(s)
  {
    Preface(LINESTRING, s.d, true) + U32In((PartEnd(s, k) - s.starts[k]) % TWO_32, true)
      + PointsBytes(PointsAt(s, k), s.d, true)
  }

  function LinesUpTo(s: Shape, n: nat): Bytes
    requires n <= |s.starts| && PointsInRange(s)
  {
    if n == 0 then [] else LinesUpTo(s, n - 1) + LineAt(s, n - 1)
  }

  /** The MultiLineString of a shape record; None for an error or a panic. */
  function ShapeToLines(shp: Bytes, d: Dims): Option<Bytes> {
    var s := ParseShape(shp, d);
    if s == None || !PointsInRange(s.value) then None
    else
      Some(Preface(MULTILINESTRING, s.value.d, true) + U32In(|s.value.starts|, true)
        + LinesUpTo(s.value, |s.value.starts|))
  }

  /** Parts in order are written as lines of their points. */
  lemma {:induction false} OrderedLines(s: Shape, n: nat)
    requires PartsInOrder(s) && |s.points| < TWO_32 && n <= |s.starts|
    ensures PointsInRange(s) && LinesUpTo(s, n) == LinesBytes(LinesOf(PartsOf(s))[..n], s.d)
  {
    hide *;
    InOrderInRange(s);
    var lines := LinesOf(PartsOf(s));
    if n == 0 {
      NoLines(s, lines);
    } else {
      OrderedLines(s, n - 1);
      OrderedLine(s, n - 1);
      LinesNext(lines, n - 1, s.d);
      NextLine(s, n - 1);
    }
  }

  lemma NoLines(s: Shape, lines: seq<Line>)
    requires PointsInRange(s)
    ensures LinesUpTo(s, 0) == LinesBytes(lines[..0], s.d)
  {
    assert lines[..0] == [];
  }

  lemma NextLine(s: Shape, k: nat)
    requires PointsInRange(s) && k < |s.starts|
    ensures LinesUpTo(s, k + 1) == LinesUpTo(s, k) + LineAt(s, k)
  {
    hide LineAt;
    hide PointsInRange;
  }

  lemma InOrderInRange(s: Shape)
    requires PartsInOrder(s)
    ensures PointsInRange(s)
  {
  }

  lemma OrderedLine(s: Shape, k: nat)
    requires PartsInOrder(s) && PointsInRange(s) && |s.points| < TWO_32 && k < |s.starts|
    ensures LineAt(s, k) == LineBytes(LinesOf(PartsOf(s))[k], s.d)
  {
    OrderedPart(s, k);
    var points := PartsOf(s)[k];
    hide PartsInOrder;
    hide PointsInRange;
    hide PartsOf;
    hide PointsAt;
    hide PointsBytes;
    hide U32In;
    hide Preface;
    hide PartEnd;
    Assoc(Preface(LINESTRING, s.d, true), U32In(|points|, true), PointsBytes(points, s.d, true));
  }

  lemma OrderedPart(s: Shape, k: nat)
    requires PartsInOrder(s) && PointsInRange(s) && |s.points| < TWO_32 && k < |s.starts|
    ensures PointsAt(s, k) == PartsOf(s)[k] && (PartEnd(s, k) - s.starts[k]) % TWO_32 == |PartsOf(s)[k]|
  {
    var start, end := s.starts[k], PartEnd(s, k);
    assert start <= end <= |s.points|;
    assert start == end ==> s.points[start..end] == [];
  }

  /** A part that starts behind its end becomes a line that claims nearly 2^32 points and holds none. */
  lemma WrappedLine(s: Shape, k: nat)
    requires PointsInRange(s) && k < |s.starts| && s.starts[k] < TWO_32 && PartEnd(s, k) < s.starts[k]
    ensures LineAt(s, k) == Preface(LINESTRING, s.d, true) + U32In(TWO_32 - (s.starts[k] - PartEnd(s, k)), true)
  {
    hide U32In;
    hide Preface;
    var head := Preface(LINESTRING, s.d, true) + U32In((PartEnd(s, k) - s.starts[k]) % TWO_32, true);
    assert head + [] == head;
  }

  /** Rings of positive orientation are outer rings; that depends on x and y alone. */
  type Outer = seq<Pair> -> bool

  function IsOuter(outer: Outer): Ring -> bool {
    ring => outer(Pairs(ring))
  }

  function PolygonsOf(groups: seq<seq<Ring>>): (polygons: seq<SpatialFormat.Polygon>)
    ensures |polygons| == |groups|
  {
    seq(|groups|, i requires 0 <= i < |groups| => SpatialFormat.Polygon(true, groups[i]))
  }

  function ShapeToPolygons(shp: Bytes, d: Dims, outer: Outer): Option<Bytes> {
    var s := ParseShape(shp, d);
    if s == None || !PartsInOrder(s.value) then None
    else Some(MultiPolygon(true, PolygonsOf(Grouped(PartsOf(s.value), IsOuter(outer))), s.value.d))
  }

  method EmitPoints(points: Ring, start: nat, end: nat, d: Dims) returns (out: Bytes)
    requires start <= end <= |points|
    ensures out == PointsBytes(points[start..end], d, true)
  {
    hide PointBytes;
    out := [];
    var i := start;
    while i < end
      invariant start <= i <= end && out == PointsBytes(points[start..i], d, true)
    {
      assert points[start..i + 1] == points[start..i] + [points[i]];
      PointsAppend(points[start..i], [points[i]], d, true);
      OnePoint(points[i], d);
      out := out + PointBytes(points[i], d, true);
      i := i + 1;
    }
  }

  lemma OnePoint(c: Coord, d: Dims)
    ensures PointsBytes([c], d, true) == PointBytes(c, d, true)
  {
    hide PointBytes;
    assert [c][1..] == [];
    assert PointBytes(c, d, true) + [] == PointBytes(c, d, true);
  }

  method ShpMultiLineToWkb(shp: Bytes, d: Dims) returns (wkb: Option<Bytes>)
    ensures wkb == ShapeToLines(shp, d)
  {
    hide ParseShape;
    hide U32In;
    hide Preface;
    hide PointsBytes;
    hide PointsInRange;
    hide LinesUpTo;
    hide PointsAt;
    var s := ReadShape(shp, d);
    if s == None {
      return None;
    }
    var shape := s.value;
    var out := Preface(MULTILINESTRING, shape.d, true) + U32In(|shape.starts|, true);
    ghost var head := out;
    var k := 0;
    NothingYet(shape, head);
    while k < |shape.starts|
      invariant 0 <= k <= |shape.starts|
      invariant forall j :: 0 <= j < k && shape.starts[j] < PartEnd(shape, j) ==> PartEnd(shape, j) <= |shape.points|
      invariant PointsInRange(shape) ==> out == head + LinesUpTo(shape, k)
    {
      var start, end := shape.starts[k], PartEnd(shape, k);
      var line := Preface(LINESTRING, shape.d, true) + U32In((end - start) % TWO_32, true);
      var points := [];
      PartPoints(shape, k);
      if start < end {
        if end > |shape.points| {
          // Points beyond the last one: the index panics.
          OutOfRange(shape, k);
          return None;
        }
        points := EmitPoints(shape.points, start, end, shape.d);
      } else {
        NothingEmitted(shape.d);
      }
      if PointsInRange(shape) {
        LineAdded(shape, k, head, line, points);
      }
      out := out + (line + points);
      k := k + 1;
    }
    AllInRange(shape);
    wkb := Some(out);
  }

  lemma NothingYet(s: Shape, head: Bytes)
    ensures PointsInRange(s) ==> head + LinesUpTo(s, 0) == head
  {
    hide PointsInRange;
  }

  lemma PartPoints(s: Shape, k: nat)
    requires k < |s.starts|
    ensures PointsInRange(s) ==>
      PointsAt(s, k) == if s.starts[k] < PartEnd(s, k) then s.points[s.starts[k]..PartEnd(s, k)] else []
  {
  }

  /** One more line behind those written. */
  lemma LineAdded(s: Shape, k: nat, head: Bytes, line: Bytes, points: Bytes)
    requires PointsInRange(s) && k < |s.starts|
    requires line == Preface(LINESTRING, s.d, true) + U32In((PartEnd(s, k) - s.starts[k]) % TWO_32, true)
    requires points == PointsBytes(PointsAt(s, k), s.d, true)
    ensures (head + LinesUpTo(s, k)) + (line + points) == head + LinesUpTo(s, k + 1)
  {
    assert line + points == LineAt(s, k) by {
      hide PointsInRange;
      hide PointsAt;
      hide PointsBytes;
      hide U32In;
      hide Preface;
      hide PartEnd;
    }
    hide *;
    NextLine(s, k);
    Assoc(head, LinesUpTo(s, k), line + points);
  }

  lemma OutOfRange(s: Shape, k: nat)
    requires k < |s.starts| && s.starts[k] < PartEnd(s, k) && PartEnd(s, k) > |s.points|
    ensures !PointsInRange(s)
  {
  }

  lemma AllInRange(s: Shape)
    requires forall j :: 0 <= j < |s.starts| && s.starts[j] < PartEnd(s, j) ==> PartEnd(s, j) <= |s.points|
    ensures PointsInRange(s)
  {
  }

  lemma NothingEmitted(d: Dims)
    ensures PointsBytes([], d, true) == []
  {
  }

  lemma {:induction false} LinesAppend(a: seq<Line>, b: seq<Line>, d: Dims)
    ensures LinesBytes(a + b, d) == LinesBytes(a, d) + LinesBytes(b, d)
  {
    hide LineBytes;
    if a == [] {
      assert a + b == b;
    } else {
      assert (a + b)[1..] == a[1..] + b;
      LinesAppend(a[1..], b, d);
      Assoc(LineBytes(a[0], d), LinesBytes(a[1..], d), LinesBytes(b, d));
    }
  }

  lemma LinesNext(lines: seq<Line>, k: nat, d: Dims)
    requires k < |lines|
    ensures LinesBytes(lines[..k + 1], d) == LinesBytes(lines[..k], d) + LineBytes(lines[k], d)
  {
    hide LineBytes;
    assert lines[..k + 1] == lines[..k] + [lines[k]];
    LinesAppend(lines[..k], [lines[k]], d);
    assert [lines[k]][1..] == [];
    assert LineBytes(lines[k], d) + [] == LineBytes(lines[k], d);
  }

  lemma {:induction false} RingsAppend(a: seq<Ring>, b: seq<Ring>, d: Dims)
    ensures RingsBytes(a + b, d, true) == RingsBytes(a, d, true) + RingsBytes(b, d, true)
  {
    hide RingBytes;
    if a == [] {
      assert a + b == b;
    } else {
      assert (a + b)[1..] == a[1..] + b;
      RingsAppend(a[1..], b, d);
      Assoc(RingBytes(a[0], d, true), RingsBytes(a[1..], d, true), RingsBytes(b, d, true));
    }
  }

  lemma RingsNext(rings: seq<Ring>, k: nat, d: Dims)
    requires k < |rings|
    ensures RingsBytes(rings[..k + 1], d, true) == RingsBytes(rings[..k], d, true) + RingBytes(rings[k], d, true)
  {
    hide RingBytes;
    assert rings[..k + 1] == rings[..k] + [rings[k]];
    RingsAppend(rings[..k], [rings[k]], d);
    assert [rings[k]][1..] == [];
    assert RingBytes(rings[k], d, true) + [] == RingBytes(rings[k], d, true);
  }

  method EmitRings(rings: seq<Ring>, d: Dims) returns (out: Bytes)
    ensures out == RingsBytes(rings, d, true)
  {
    hide RingsBytes;
    hide PointsBytes;
    hide U32In;
    out := [];
    var k := 0;
    NoRings(d);
    assert rings[..0] == [];
    while k < |rings|
      invariant 0 <= k <= |rings| && out == RingsBytes(rings[..k], d, true)
    {
      RingsNext(rings, k, d);
      assert rings[k][0..|rings[k]|] == rings[k];
      var points := EmitPoints(rings[k], 0, |rings[k]|, d);
      out := out + (U32In(|rings[k]|, true) + points);
      k := k + 1;
    }
    assert rings[..k] == rings;
  }

  lemma NoRings(d: Dims)
    ensures RingsBytes([], d, true) == [] && PolygonsBytes([], d) == []
  {
  }

  lemma {:induction false} PolygonsAppend(a: seq<SpatialFormat.Polygon>, b: seq<SpatialFormat.Polygon>, d: Dims)
    ensures PolygonsBytes(a + b, d) == PolygonsBytes(a, d) + PolygonsBytes(b, d)
  {
    hide PolygonBytes;
    if a == [] {
      assert a + b == b;
    } else {
      assert (a + b)[1..] == a[1..] + b;
      PolygonsAppend(a[1..], b, d);
      Assoc(PolygonBytes(a[0], d), PolygonsBytes(a[1..], d), PolygonsBytes(b, d));
    }
  }

  lemma PolygonsNext(polygons: seq<SpatialFormat.Polygon>, k: nat, d: Dims)
    requires k < |polygons|
    ensures PolygonsBytes(polygons[..k + 1], d) == PolygonsBytes(polygons[..k], d) + PolygonBytes(polygons[k], d)
  {
    hide PolygonBytes;
    assert polygons[..k + 1] == polygons[..k] + [polygons[k]];
    PolygonsAppend(polygons[..k], [polygons[k]], d);
    assert [polygons[k]][1..] == [];
    assert PolygonBytes(polygons[k], d) + [] == PolygonBytes(polygons[k], d);
  }

  method EmitPolygons(groups: seq<seq<Ring>>, d: Dims) returns (out: Bytes)
    ensures out == PolygonsBytes(PolygonsOf(groups), d)
  {
    hide PolygonsBytes;
    hide RingsBytes;
    hide U32In;
    hide Preface;
    out := [];
    ghost var polygons := PolygonsOf(groups);
    var k := 0;
    NoRings(d);
    assert polygons[..0] == [];
    while k < |groups|
      invariant 0 <= k <= |groups| && out == PolygonsBytes(polygons[..k], d)
    {
      PolygonsNext(polygons, k, d);
      var rings := EmitRings(groups[k], d);
      out := out + (Preface(POLYGON, d, true) + (U32In(|groups[k]|, true) + rings));
      k := k + 1;
    }
    assert polygons[..k] == polygons;
  }

  method ShpMultiPolyToWkb(shp: Bytes, d: Dims, outer: Outer) returns (wkb: Option<Bytes>)
    ensures wkb == ShapeToPolygons(shp, d, outer)
  {
    hide ParseShape;
    hide PolygonsBytes;
    hide Grouped;
    var s := ReadShape(shp, d);
    if s == None || !PartsInOrder(s.value) {
      return None;
    }
    var groups := GroupRings(PartsOf(s.value), IsOuter(outer));
    var body := EmitPolygons(groups, s.value.d);
    wkb := Some(Preface(MULTIPOLYGON, s.value.d, true) + U32In(|groups|, true) + body);
  }

  // -- Dispatch --

  /** Conversion of multi-part geometries; other types are not part of this model. */
  function WkbToShp(wkb: Bytes, g: Extents): Option<Bytes> {
    if |wkb| < 5 then None
    else
      var le := wkb[0] == 1;
      var code := ReadU32(wkb[1..], le);
      var d := Dims(code / 1000 == 1 || code / 1000 == 3, code / 1000 == 2 || code / 1000 == 3);
      if code % 1000 == MULTILINESTRING then LinesToShape(wkb, le, d, g)
      else if code % 1000 == MULTIPOLYGON then PolygonsToShape(wkb, le, d, g)
      else None
  }

  function ShpToWkb(shp: Bytes, outer: Outer): Option<Bytes> {
    if |shp| < 4 then None
    else
      var code := FromU32Le(shp[..4]);
      if code == 3 then ShapeToLines(shp, Dims(false, false))
      else if code == 5 then ShapeToPolygons(shp, Dims(false, false), outer)
      else if code == 13 then ShapeToLines(shp, Dims(true, false))
      else if code == 15 then ShapeToPolygons(shp, Dims(true, false), outer)
      else if code == 23 then ShapeToLines(shp, Dims(false, true))
      else if code == 25 then ShapeToPolygons(shp, Dims(false, true), outer)
      else None
  }

  // -- Round trips --

  lemma RingsKept(rings: seq<Ring>, d: Dims, d': Dims)
    requires (d'.z ==> d.z) && (d'.m ==> d.m)
    ensures KeptRings(KeptRings(rings, d), d') == KeptRings(rings, d')
  {
    forall i | 0 <= i < |rings| ensures KeptAll(KeptAll(rings[i], d), d') == KeptAll(rings[i], d') {
    }
  }

  /** The dimensions that survive: M is lost next to Z if no point has an M value. */
  function Surviving(rings: seq<Ring>, d: Dims): Dims {
    Dims(d.z, d.m && (d.z ==> AnyM(Ms(Flatten(rings)))))
  }

  lemma FoundIsSurviving(rings: seq<Ring>, d: Dims)
    ensures Found(Flatten(KeptRings(rings, d)), d) == Surviving(rings, d)
  {
    var all := Flatten(rings);
    KeptFlat(rings, d);
    KeptMs(all, d);
    NoMHasNone();
    hide Flatten;
    hide HasM;
    hide KeptRings;
    hide Ms;
    hide KeptAll;
  }

  lemma KeptMs(all: Ring, d: Dims)
    ensures d.m ==> Ms(KeptAll(all, d)) == Ms(all)
    ensures !d.m ==> !AnyM(Ms(KeptAll(all, d)))
  {
    NoMHasNone();
    hide HasM;
  }

  lemma TypeReadBack(base: nat, d: Dims, le: bool, rest: Bytes)
    requires base < 10
    ensures var b := Preface(base, d, le) + rest;
      (b[0] == 1 <==> le) && ReadU32(b[1..], le) == TypeCode(base, d) && b[5..] == rest
  {
    hide U32In;
    hide ReadU32;
    U32InReadBack(TypeCode(base, d), le, rest);
    var b := Preface(base, d, le) + rest;
    assert b == [OrderByte(le)] + (U32In(TypeCode(base, d), le) + rest);
    assert b[1..] == U32In(TypeCode(base, d), le) + rest;
  }

  predicate Countable(rings: seq<Ring>) {
    Short(rings) && |rings| < TWO_31 && |Flatten(rings)| < TWO_31
  }

  lemma FlatLength(rings: seq<Ring>, d: Dims)
    ensures |Flatten(KeptRings(rings, d))| == |Flatten(rings)|
  {
    KeptFlat(rings, d);
  }

  /**
    * A MultiLineString in any byte orders, to a shape record and back: the same lines and points in
    * little-endian order, with the dimensions that survive.
    */
  lemma LinesRoundTrip(le: bool, lines: seq<Line>, d: Dims, g: Extents)
    requires Countable(Rings(lines))
    ensures var shp := LinesToShape(MultiLine(le, lines, d), le, d, g); var d' := Surviving(Rings(lines), d);
      shp.Some? && ShapeToLines(shp.value, d) == Some(MultiLine(true, LinesOf(KeptRings(Rings(lines), d')), d'))
  {
    hide *;
    var rings := Rings(lines);
    var d' := Surviving(rings, d);
    CountableParts(rings);
    LinesParsed(le, lines, d, g);
    FlatLength(rings, d);
    KeptLength(rings, d);
    PartsSurvive(PolyLine, KeptRings(rings, d), d, g);
    FoundIsSurviving(rings, d);
    SurvivingLess(rings, d);
    RingsKept(rings, d, d');
    LinesEmitted(ShapeBytes(PolyLine, KeptRings(rings, d), d, g), d);
  }

  lemma KeptLength(rings: seq<Ring>, d: Dims)
    ensures |KeptRings(rings, d)| == |rings|
  {
  }

  lemma CountableParts(rings: seq<Ring>)
    requires Countable(rings)
    ensures Short(rings) && |rings| < TWO_31 && |Flatten(rings)| < TWO_31
  {
  }

  lemma SurvivingLess(rings: seq<Ring>, d: Dims)
    ensures (Surviving(rings, d).z ==> d.z) && (Surviving(rings, d).m ==> d.m)
  {
  }

  lemma LinesParsed(le: bool, lines: seq<Line>, d: Dims, g: Extents)
    requires Short(Rings(lines)) && |Rings(lines)| < TWO_31
    ensures LinesToShape(MultiLine(le, lines, d), le, d, g)
      == Some(ShapeBytes(PolyLine, KeptRings(Rings(lines), d), d, g))
  {
    hide ShapeBytes;
    hide U32In;
    hide ReadU32;
    hide LinesBytes;
    hide KeptRings;
    hide TakeLines;
    var preface, count, body := Preface(MULTILINESTRING, d, le), U32In(|lines|, le), LinesBytes(lines, d);
    U32InLength(|lines|, le);
    var wkb := MultiLine(le, lines, d);
    Assoc(preface, count, body);
    assert wkb[5..] == count + body;
    assert wkb[9..] == wkb[5..][4..];
    U32InReadBack(|lines|, le, body);
    LinesReadBack(lines, d);
  }

  lemma LinesEmitted(shp: Bytes, d: Dims)
    requires ParseShape(shp, d).Some? && PartsInOrder(ParseShape(shp, d).value)
    ensures var s := ParseShape(shp, d).value; ShapeToLines(shp, d) == Some(MultiLine(true, LinesOf(PartsOf(s)), s.d))
  {
    PointsAreFew(shp, d);
    hide ParseShape;
    var s := ParseShape(shp, d).value;
    OrderedLines(s, |s.starts|);
    var lines := LinesOf(PartsOf(s));
    assert lines[..|s.starts|] == lines;
  }

  lemma PointsAreFew(shp: Bytes, d: Dims)
    requires ParseShape(shp, d).Some?
    ensures |ParseShape(shp, d).value.points| < TWO_31
  {
    hide ParseArrays;
    hide TakeStarts;
    hide FromU32Le;
  }

  /**
    * A MultiPolygon to a shape record and back: the rings in order, grouped by orientation.
    */
  lemma PolygonsRoundTrip(le: bool, polygons: seq<SpatialFormat.Polygon>, d: Dims, g: Extents, outer: Outer)
    requires ShortAll(polygons) && |polygons| < TWO_32 && Countable(Flatten(AllRings(polygons)))
    ensures var shp := PolygonsToShape(MultiPolygon(le, polygons, d), le, d, g);
      var rings := Flatten(AllRings(polygons)); var d' := Surviving(rings, d);
      var groups := Grouped(KeptRings(rings, d'), IsOuter(outer));
      shp.Some? && ShapeToPolygons(shp.value, d, outer) == Some(MultiPolygon(true, PolygonsOf(groups), d'))
  {
    hide *;
    var rings := Flatten(AllRings(polygons));
    var d' := Surviving(rings, d);
    CountableParts(rings);
    PolygonsParsed(le, polygons, d, g);
    FlatLength(rings, d);
    KeptLength(rings, d);
    PartsSurvive(ShapeFormat.Polygon, KeptRings(rings, d), d, g);
    FoundIsSurviving(rings, d);
    SurvivingLess(rings, d);
    RingsKept(rings, d, d');
    PolygonsEmitted(ShapeBytes(ShapeFormat.Polygon, KeptRings(rings, d), d, g), d, outer);
  }

  lemma PolygonsParsed(le: bool, polygons: seq<SpatialFormat.Polygon>, d: Dims, g: Extents)
    requires ShortAll(polygons) && |polygons| < TWO_32
    ensures PolygonsToShape(MultiPolygon(le, polygons, d), le, d, g)
      == Some(ShapeBytes(ShapeFormat.Polygon, KeptRings(Flatten(AllRings(polygons)), d), d, g))
  {
    hide ShapeBytes;
    hide U32In;
    hide ReadU32;
    hide PolygonsBytes;
    hide KeptRings;
    hide TakePolygons;
    hide Flatten;
    hide ShortAll;
    var preface, count, body := Preface(MULTIPOLYGON, d, le), U32In(|polygons|, le), PolygonsBytes(polygons, d);
    U32InLength(|polygons|, le);
    var wkb := MultiPolygon(le, polygons, d);
    Assoc(preface, count, body);
    assert wkb[5..] == count + body;
    assert wkb[9..] == wkb[5..][4..];
    U32InReadBack(|polygons|, le, body);
    PolygonsReadBack(polygons, d);
  }

  lemma PolygonsEmitted(shp: Bytes, d: Dims, outer: Outer)
    requires ParseShape(shp, d).Some? && PartsInOrder(ParseShape(shp, d).value)
    ensures var s := ParseShape(shp, d).value;
      ShapeToPolygons(shp, d, outer) == Some(MultiPolygon(true, PolygonsOf(Grouped(PartsOf(s), IsOuter(outer))), s.d))
  {
    hide ParseShape;
  }

  /** The type code of a WKB geometry names its dimensions. */
  lemma WkbDispatch(le: bool, d: Dims, g: Extents, base: nat, body: Bytes)
    requires base == MULTILINESTRING || base == MULTIPOLYGON
    ensures var wkb := Preface(base, d, le) + body;
      WkbToShp(wkb, g)
        == if base == MULTILINESTRING then LinesToShape(wkb, le, d, g) else PolygonsToShape(wkb, le, d, g)
  {
    hide Preface;
    hide LinesToShape;
    hide PolygonsToShape;
    hide ReadU32;
    TypeReadBack(base, d, le, body);
    TypeDims(base, d);
  }

  lemma TypeDims(base: nat, d: Dims)
    requires base < 1000
    ensures var code := TypeCode(base, d);
      code % 1000 == base && d == Dims(code / 1000 == 1 || code / 1000 == 3, code / 1000 == 2 || code / 1000 == 3)
  {
  }

  /** In a record with Z values, M values are looked for in any case. */
  lemma ReadDims(shp: Bytes, d: Dims)
    requires d.z
    ensures ParseShape(shp, d) == ParseShape(shp, Dims(true, false))
  {
    hide OptionalM;
    hide TakePairs;
    hide TakeWords;
    hide TakeStarts;
    hide Joined;
    hide FromU32Le;
  }

  lemma ShpDispatch(kind: Kind, parts: seq<Ring>, d: Dims, g: Extents, outer: Outer)
    requires |parts| < TWO_31 && |Flatten(parts)| < TWO_31
    ensures var shp := ShapeBytes(kind, parts, d, g);
      ShpToWkb(shp, outer) == if kind == PolyLine then ShapeToLines(shp, d) else ShapeToPolygons(shp, d, outer)
  {
    hide *;
    var shp := ShapeBytes(kind, parts, d, g);
    ShapeParts(kind, parts, d, g);
    HeaderReadBack(kind, parts, d, g, StartsBytes(parts, 0) + ArraysBytes(Flatten(parts), d, g));
    if d.z {
      ReadDims(shp, d);
      SameReading(shp, d, outer);
    }
    CodeDispatch(shp, kind, d, outer);
  }

  lemma SameReading(shp: Bytes, d: Dims, outer: Outer)
    requires ParseShape(shp, d) == ParseShape(shp, Dims(true, false))
    ensures ShapeToLines(shp, d) == ShapeToLines(shp, Dims(true, false))
    ensures ShapeToPolygons(shp, d, outer) == ShapeToPolygons(shp, Dims(true, false), outer)
  {
    hide ParseShape;
    hide MultiLine;
    hide MultiPolygon;
    hide Grouped;
  }

  lemma CodeDispatch(shp: Bytes, kind: Kind, d: Dims, outer: Outer)
    requires |shp| >= 4 && FromU32Le(shp[..4]) == ShapeType(kind, d)
    requires d.z ==> ShapeToLines(shp, d) == ShapeToLines(shp, Dims(true, false))
    requires d.z ==> ShapeToPolygons(shp, d, outer) == ShapeToPolygons(shp, Dims(true, false), outer)
    ensures ShpToWkb(shp, outer) == if kind == PolyLine then ShapeToLines(shp, d) else ShapeToPolygons(shp, d, outer)
  {
    hide ShapeToLines;
    hide ShapeToPolygons;
    hide FromU32Le;
  }

  /**
    * Lines survive the conversion to a shape record and back, in little-endian order, with the dimensions
    * that survive.
    */
  lemma MultiLineStringSurvives(le: bool, lines: seq<Line>, d: Dims, g: Extents, outer: Outer)
    requires Countable(Rings(lines))
    ensures var shp := WkbToShp(MultiLine(le, lines, d), g); var d' := Surviving(Rings(lines), d);
      shp.Some? && ShpToWkb(shp.value, outer) == Some(MultiLine(true, LinesOf(KeptRings(Rings(lines), d')), d'))
  {
    hide *;
    var rings := Rings(lines);
    LinesRoundTrip(le, lines, d, g);
    CountableParts(rings);
    LinesParsed(le, lines, d, g);
    FlatLength(rings, d);
    KeptLength(rings, d);
    ShpDispatch(PolyLine, KeptRings(rings, d), d, g, outer);
    MultiLineIs(le, lines, d);
    WkbDispatch(le, d, g, 5, U32In(|lines|, le) + LinesBytes(lines, d));
    KindsDiffer();
  }

  lemma MultiLineIs(le: bool, lines: seq<Line>, d: Dims)
    ensures MULTILINESTRING == 5 && MULTIPOLYGON == 6
    ensures MultiLine(le, lines, d) == Preface(5, d, le) + (U32In(|lines|, le) + LinesBytes(lines, d))
  {
    Assoc(Preface(5, d, le), U32In(|lines|, le), LinesBytes(lines, d));
  }

  lemma MultiPolygonIs(le: bool, polygons: seq<SpatialFormat.Polygon>, d: Dims)
    ensures MULTILINESTRING == 5 && MULTIPOLYGON == 6
    ensures MultiPolygon(le, polygons, d) == Preface(6, d, le) + (U32In(|polygons|, le) + PolygonsBytes(polygons, d))
  {
    Assoc(Preface(6, d, le), U32In(|polygons|, le), PolygonsBytes(polygons, d));
  }

  lemma KindsDiffer()
    ensures PolyLine != ShapeFormat.Polygon
  {
  }

  // -- Polygons --

  lemma OuterKept(outer: Outer, ring: Ring, d: Dims)
    ensures IsOuter(outer)(KeptAll(ring, d)) == IsOuter(outer)(ring)
  {
    assert Pairs(KeptAll(ring, d)) == Pairs(ring);
  }

  function KeptGroups(groups: seq<seq<Ring>>, d: Dims): (r: seq<seq<Ring>>)
    ensures |r| == |groups|
  {
    seq(|groups|, i requires 0 <= i < |groups| => KeptRings(groups[i], d))
  }

  lemma {:induction false} KeptGroupsFlat(groups: seq<seq<Ring>>, d: Dims)
    ensures Flatten(KeptGroups(groups, d)) == KeptRings(Flatten(groups), d)
  {
    hide KeptAll;
    if groups != [] {
      KeptGroupsFlat(groups[1..], d);
      assert KeptGroups(groups, d)[1..] == KeptGroups(groups[1..], d);
      assert KeptRings(groups[0] + Flatten(groups[1..]), d)
        == KeptRings(groups[0], d) + KeptRings(Flatten(groups[1..]), d);
    }
  }

  lemma WellGroupedKept(groups: seq<seq<Ring>>, d: Dims, outer: Outer)
    ensures WellGrouped(KeptGroups(groups, d), IsOuter(outer)) <==> WellGrouped(groups, IsOuter(outer))
  {
    var kept := KeptGroups(groups, d);
    forall p, j | 0 <= p < |groups| && 0 <= j < |groups[p]|
      ensures IsOuter(outer)(kept[p][j]) == IsOuter(outer)(groups[p][j])
    {
      OuterKept(outer, groups[p][j], d);
    }
    hide IsOuter;
    hide KeptAll;
    if WellGrouped(groups, IsOuter(outer)) {
      forall p | 0 <= p < |kept|
        ensures kept[p] != [] && (p > 0 ==> IsOuter(outer)(kept[p][0]))
        ensures forall j :: 1 <= j < |kept[p]| ==> !IsOuter(outer)(kept[p][j])
      {
        assert groups[p] != [];
      }
    }
    if WellGrouped(kept, IsOuter(outer)) {
      forall p | 0 <= p < |groups|
        ensures groups[p] != [] && (p > 0 ==> IsOuter(outer)(groups[p][0]))
        ensures forall j :: 1 <= j < |groups[p]| ==> !IsOuter(outer)(groups[p][j])
      {
        assert kept[p] != [];
      }
    }
  }

  /**
    * Polygons survive the conversion to a shape record and back: their rings in order, each in one
    * polygon; and the polygons are those there were exactly if every polygon (but the first) starts
    * with an outer ring and holds no other.
    */
  lemma MultiPolygonSurvives(le: bool, polygons: seq<SpatialFormat.Polygon>, d: Dims, g: Extents, outer: Outer)
    requires ShortAll(polygons) && |polygons| < TWO_32 && Countable(Flatten(AllRings(polygons)))
    ensures var shp := WkbToShp(MultiPolygon(le, polygons, d), g);
      var rings := Flatten(AllRings(polygons)); var d' := Surviving(rings, d);
      var groups := Grouped(KeptRings(rings, d'), IsOuter(outer));
      && shp.Some? && ShpToWkb(shp.value, outer) == Some(MultiPolygon(true, PolygonsOf(groups), d'))
      && Flatten(groups) == KeptRings(rings, d')
      && (groups == KeptGroups(AllRings(polygons), d') <==> WellGrouped(AllRings(polygons), IsOuter(outer)))
  {
    hide *;
    var rings := Flatten(AllRings(polygons));
    var d' := Surviving(rings, d);
    PolygonsRoundTrip(le, polygons, d, g, outer);
    CountableParts(rings);
    PolygonsParsed(le, polygons, d, g);
    FlatLength(rings, d);
    KeptLength(rings, d);
    ShpDispatch(ShapeFormat.Polygon, KeptRings(rings, d), d, g, outer);
    MultiPolygonIs(le, polygons, d);
    WkbDispatch(le, d, g, 6, U32In(|polygons|, le) + PolygonsBytes(polygons, d));
    KindsDiffer();
    GroupingKeepsRings(KeptRings(rings, d'), IsOuter(outer));
    KeptGroupsFlat(AllRings(polygons), d');
    PolygonsReturn(KeptGroups(AllRings(polygons), d'), IsOuter(outer));
    WellGroupedKept(AllRings(polygons), d', outer);
  }
}
