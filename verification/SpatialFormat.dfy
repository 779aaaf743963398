// The two binary forms of multi-part geometries: well-known binary (WKB), with a byte order for every
// part, and the shape record (SHP), with one array for all points.

module SpatialFormat {
  import opened Bytes
  import opened LittleEndian

  /** A 64-bit floating-point number as its little-endian bytes. */
  type Word = w: Bytes | |w| == 8 witness [0, 0, 0, 0, 0, 0, 0, 0]

  datatype Coord = Coord(x: Word, y: Word, z: Word, m: Word)

  type Ring = seq<Coord>

  datatype Dims = Dims(z: bool, m: bool)

  const ZERO: Word := [0, 0, 0, 0, 0, 0, 0, 0]

  /** -1e40, which stands for a missing M value. */
  const NO_M: Word := [165, 92, 195, 241, 41, 99, 61, 200]

  /** Bits of 1e38. */
  const BOUND_BITS: nat := 0x47d2ced32a16a1b1

  const SIGN_BIT: nat := 0x8000_0000_0000_0000

  const INFINITY_BITS: nat := 0x7FF0_0000_0000_0000

  /** The number is above the no-data bound of -1e38: it is no NaN, and positive or of smaller magnitude. */
  predicate HasM(w: Word) {
    var bits := FromLe(w);
    bits % SIGN_BIT <= INFINITY_BITS && (bits < SIGN_BIT || bits % SIGN_BIT < BOUND_BITS)
  }

  /** What a format without some dimension keeps of a point. */
  function Kept(c: Coord, d: Dims): Coord {
    Coord(c.x, c.y, if d.z then c.z else ZERO, if d.m then c.m else NO_M)
  }

  function KeptAll(ring: Ring, d: Dims): (r: Ring)
    ensures |r| == |ring|
  {
    seq(|ring|, i requires 0 <= i < |ring| => Kept(ring[i], d))
  }

  // -- Byte orders --

  function Turned(b: Bytes): (r: Bytes)
    ensures |r| == |b|
  {
    seq(|b|, i requires 0 <= i < |b| => b[|b| - 1 - i])
  }

  function InOrder(b: Bytes, le: bool): (r: Bytes)
    ensures |r| == |b|
  {
    if le then b else Turned(b)
  }

  lemma TurnedTwice(b: Bytes, le: bool)
    ensures InOrder(InOrder(b, le), le) == b
  {
  }

  function ReadU32(b: Bytes, le: bool): (n: nat)
    requires |b| >= 4
    ensures n < TWO_32
  {
    FromU32Le(InOrder(b[..4], le))
  }

  function ReadWord(b: Bytes, le: bool): Word
    requires |b| >= 8
  {
    InOrder(b[..8], le)
  }

  function U32In(n: nat, le: bool): (b: Bytes)
    ensures |b| == 4
  {
    InOrder(U32Le(n), le)
  }

  lemma U32InReadBack(n: nat, le: bool, rest: Bytes)
    requires n < TWO_32
    ensures ReadU32(U32In(n, le) + rest, le) == n && (U32In(n, le) + rest)[4..] == rest
  {
    hide U32Le;
    hide FromU32Le;
    assert (U32In(n, le) + rest)[..4] == U32In(n, le);
    TurnedTwice(U32Le(n), le);
    U32RoundTrip(n);
  }

  lemma WordReadBack(w: Word, le: bool, rest: Bytes)
    ensures ReadWord(InOrder(w, le) + rest, le) == w && (InOrder(w, le) + rest)[8..] == rest
  {
    assert (InOrder(w, le) + rest)[..8] == InOrder(w, le);
    TurnedTwice(w, le);
  }

  // -- Points and rings in WKB --

  function PointSize(d: Dims): (n: nat)
    ensures 16 <= n <= 32
  {
    16 + (if d.z then 8 else 0) + if d.m then 8 else 0
  }

  function PointBytes(c: Coord, d: Dims, le: bool): (b: Bytes)
    ensures |b| == PointSize(d)
  {
    InOrder(c.x, le) + InOrder(c.y, le) + (if d.z then InOrder(c.z, le) else []) + if d.m then InOrder(c.m, le) else []
  }

  function PointsBytes(ring: Ring, d: Dims, le: bool): Bytes {
    if ring == [] then [] else PointBytes(ring[0], d, le) + PointsBytes(ring[1..], d, le)
  }

  function TakePoint(b: Bytes, d: Dims, le: bool): Coord
    requires |b| >= PointSize(d)
  {
    Coord(
      ReadWord(b, le),
      ReadWord(b[8..], le),
      if d.z then ReadWord(b[16..], le) else ZERO,
      if d.m then ReadWord(b[if d.z then 24 else 16..], le) else NO_M)
  }

  datatype Points = Points(ring: Ring, rest: Bytes)

  /** The first `n` points, None if there are fewer bytes. */
  function TakePoints(b: Bytes, n: nat, d: Dims, le: bool): (r: Option<Points>)
    ensures r.Some? ==> |r.value.ring| == n && |r.value.rest| <= |b|
    decreases n
  {
    if n == 0 then Some(Points([], b))
    else if |b| < PointSize(d) then None
    else
      var more := TakePoints(b[PointSize(d)..], n - 1, d, le);
      if more == None then None else Some(Points([TakePoint(b, d, le)] + more.value.ring, more.value.rest))
  }

  function RingBytes(ring: Ring, d: Dims, le: bool): (b: Bytes)
    ensures |b| >= 4
  {
    U32In(|ring|, le) + PointsBytes(ring, d, le)
  }

  function TakeRing(b: Bytes, d: Dims, le: bool): (r: Option<Points>)
    ensures r.Some? ==> |r.value.rest| < |b|
  {
    if |b| < 4 then None else TakePoints(b[4..], ReadU32(b, le), d, le)
  }

  lemma PointReadBack(c: Coord, d: Dims, le: bool, rest: Bytes)
    ensures var b := PointBytes(c, d, le) + rest; TakePoint(b, d, le) == Kept(c, d) && b[PointSize(d)..] == rest
  {
    hide InOrder;
    hide ReadWord;
    var x, y, z, m := InOrder(c.x, le), InOrder(c.y, le), InOrder(c.z, le), InOrder(c.m, le);
    InOrderLength(c.x, le);
    InOrderLength(c.y, le);
    InOrderLength(c.z, le);
    InOrderLength(c.m, le);
    var zs, ms := if d.z then z else [], if d.m then m else [];
    var b := PointBytes(c, d, le) + rest;
    assert b == x + (y + (zs + (ms + rest)));
    WordReadBack(c.x, le, y + (zs + (ms + rest)));
    WordReadBack(c.y, le, zs + (ms + rest));
    assert b[8..] == y + (zs + (ms + rest));
    assert b[16..] == zs + (ms + rest);
    assert d.z ==> b[24..] == ms + rest;
    if d.z {
      WordReadBack(c.z, le, ms + rest);
    } else {
      assert zs + (ms + rest) == ms + rest;
    }
    if d.m {
      WordReadBack(c.m, le, rest);
    } else {
      assert ms + rest == rest;
    }
  }

  lemma NoMHasNone()
    ensures !HasM(NO_M)
  {
    hide FromLe;
    NothingLeft(NO_M);
    FromLeStep(NO_M, 7);
    FromLeStep(NO_M, 6);
    FromLeStep(NO_M, 5);
    FromLeStep(NO_M, 4);
    FromLeStep(NO_M, 3);
    FromLeStep(NO_M, 2);
    FromLeStep(NO_M, 1);
    FromLeStep(NO_M, 0);
    assert NO_M[0..] == NO_M;
  }

  lemma FromLeStep(b: Bytes, k: nat)
    requires k < |b|
    ensures FromLe(b[k..]) == b[k] as int + 0x100 * FromLe(b[k + 1..])
  {
    assert b[k..][1..] == b[k + 1..];
  }

  lemma NothingLeft(b: Bytes)
    ensures FromLe(b[|b|..]) == 0
  {
  }

  lemma InOrderLength(w: Word, le: bool)
    ensures |InOrder(w, le)| == 8
  {
  }

  lemma {:induction false} PointsReadBack(ring: Ring, d: Dims, le: bool, rest: Bytes)
    ensures TakePoints(PointsBytes(ring, d, le) + rest, |ring|, d, le) == Some(Points(KeptAll(ring, d), rest))
  {
    hide PointBytes;
    hide TakePoint;
    hide Kept;
    if ring == [] {
      assert [] + rest == rest;
    } else {
      var first, more := PointBytes(ring[0], d, le), PointsBytes(ring[1..], d, le);
      Assoc(first, more, rest);
      PointReadBack(ring[0], d, le, more + rest);
      PointsReadBack(ring[1..], d, le, rest);
      assert KeptAll(ring, d) == [Kept(ring[0], d)] + KeptAll(ring[1..], d);
    }
  }

  lemma RingReadBack(ring: Ring, d: Dims, le: bool, rest: Bytes)
    requires |ring| < TWO_32
    ensures TakeRing(RingBytes(ring, d, le) + rest, d, le) == Some(Points(KeptAll(ring, d), rest))
  {
    hide U32In;
    hide ReadU32;
    hide PointsBytes;
    hide TakePoints;
    Assoc(U32In(|ring|, le), PointsBytes(ring, d, le), rest);
    U32InReadBack(|ring|, le, PointsBytes(ring, d, le) + rest);
    PointsReadBack(ring, d, le, rest);
  }

  lemma {:induction false} PointsAppend(a: Ring, b: Ring, d: Dims, le: bool)
    ensures PointsBytes(a + b, d, le) == PointsBytes(a, d, le) + PointsBytes(b, d, le)
  {
    hide PointBytes;
    if a == [] {
      assert a + b == b;
    } else {
      assert (a + b)[1..] == a[1..] + b;
      PointsAppend(a[1..], b, d, le);
      Assoc(PointBytes(a[0], d, le), PointsBytes(a[1..], d, le), PointsBytes(b, d, le));
    }
  }

  // -- Lines and polygons in WKB --

  /** Type codes: 1000 for Z and 2000 for M on top of the geometry's own. */
  function TypeCode(base: nat, d: Dims): nat {
    base + (if d.z then 1000 else 0) + if d.m then 2000 else 0
  }

  function OrderByte(le: bool): byte {
    if le then 1 else 0
  }

  /** Byte order and type in front of a geometry. */
  function Preface(base: nat, d: Dims, le: bool): (b: Bytes)
    ensures |b| == 5
  {
    [OrderByte(le)] + U32In(TypeCode(base, d), le)
  }

  const LINESTRING := 2
  const POLYGON := 3
  const MULTILINESTRING := 5
  const MULTIPOLYGON := 6

  datatype Line = Line(le: bool, ring: Ring)

  function LineBytes(line: Line, d: Dims): Bytes {
    Preface(LINESTRING, d, line.le) + RingBytes(line.ring, d, line.le)
  }

  function LinesBytes(lines: seq<Line>, d: Dims): Bytes {
    if lines == [] then [] else LineBytes(lines[0], d) + LinesBytes(lines[1..], d)
  }

  /** A MultiLineString, with a byte order of its own for every line. */
  function MultiLine(le: bool, lines: seq<Line>, d: Dims): Bytes {
    Preface(MULTILINESTRING, d, le) + U32In(|lines|, le) + LinesBytes(lines, d)
  }

  function TakeLines(b: Bytes, n: nat, d: Dims): (r: Option<seq<Ring>>)
    ensures r.Some? ==> |r.value| == n
    decreases n
  {
    if n == 0 then Some([])
    else if |b| < 5 then None
    else
      var ring := TakeRing(b[5..], d, b[0] == 1);
      if ring == None then None
      else
        var more := TakeLines(ring.value.rest, n - 1, d);
        if more == None then None else Some([ring.value.ring] + more.value)
  }

  function Rings(lines: seq<Line>): (r: seq<Ring>)
    ensures |r| == |lines|
  {
    seq(|lines|, i requires 0 <= i < |lines| => lines[i].ring)
  }

  function KeptRings(rings: seq<Ring>, d: Dims): (r: seq<Ring>)
    ensures |r| == |rings|
  {
    seq(|rings|, i requires 0 <= i < |rings| => KeptAll(rings[i], d))
  }

  predicate Short(rings: seq<Ring>) {
    forall i :: 0 <= i < |rings| ==> |rings[i]| < TWO_31
  }

  lemma {:induction false} LinesReadBack(lines: seq<Line>, d: Dims)
    requires Short(Rings(lines))
    ensures TakeLines(LinesBytes(lines, d), |lines|, d) == Some(KeptRings(Rings(lines), d))
  {
    hide TakeRing;
    hide RingBytes;
    hide KeptAll;
    if lines != [] {
      var line, more := lines[0], LinesBytes(lines[1..], d);
      var preface, ring := Preface(LINESTRING, d, line.le), RingBytes(line.ring, d, line.le);
      assert Short(Rings(lines[1..])) by {
        assert forall i :: 0 <= i < |lines| - 1 ==> Rings(lines[1..])[i] == Rings(lines)[i + 1];
      }
      assert |Rings(lines)[0]| < TWO_31;
      Assoc(preface, ring, more);
      assert (preface + (ring + more))[5..] == ring + more;
      hide Preface;
      RingReadBack(line.ring, d, line.le, more);
      LinesReadBack(lines[1..], d);
      assert KeptRings(Rings(lines), d) == [KeptAll(line.ring, d)] + KeptRings(Rings(lines[1..]), d);
    }
  }

  // -- Polygons in WKB --

  function RingsBytes(rings: seq<Ring>, d: Dims, le: bool): Bytes {
    if rings == [] then [] else RingBytes(rings[0], d, le) + RingsBytes(rings[1..], d, le)
  }

  datatype Polygon = Polygon(le: bool, rings: seq<Ring>)

  function PolygonBytes(p: Polygon, d: Dims): Bytes {
    Preface(POLYGON, d, p.le) + (U32In(|p.rings|, p.le) + RingsBytes(p.rings, d, p.le))
  }

  function PolygonsBytes(polygons: seq<Polygon>, d: Dims): Bytes {
    if polygons == [] then [] else PolygonBytes(polygons[0], d) + PolygonsBytes(polygons[1..], d)
  }

  /** A MultiPolygon, with a byte order of its own for every polygon. */
  function MultiPolygon(le: bool, polygons: seq<Polygon>, d: Dims): Bytes {
    Preface(MULTIPOLYGON, d, le) + U32In(|polygons|, le) + PolygonsBytes(polygons, d)
  }

  datatype RingList = RingList(rings: seq<Ring>, rest: Bytes)

  function TakeRings(b: Bytes, n: nat, d: Dims, le: bool): (r: Option<RingList>)
    ensures r.Some? ==> |r.value.rings| == n && |r.value.rest| <= |b|
    decreases n
  {
    if n == 0 then Some(RingList([], b))
    else
      var ring := TakeRing(b, d, le);
      if ring == None then None
      else
        var more := TakeRings(ring.value.rest, n - 1, d, le);
        if more == None then None else Some(RingList([ring.value.ring] + more.value.rings, more.value.rest))
  }

  /** The rings of one polygon. */
  function TakePolygon(b: Bytes, d: Dims): (r: Option<RingList>) {
    if |b| < 9 then None else TakeRings(b[9..], ReadU32(b[5..], b[0] == 1), d, b[0] == 1)
  }

  /** The rings of `n` polygons, all in one list. */
  function TakePolygons(b: Bytes, n: nat, d: Dims): (r: Option<seq<Ring>>)
    decreases n
  {
    if n == 0 then Some([])
    else
      var rings := TakePolygon(b, d);
      if rings == None then None
      else
        var more := TakePolygons(rings.value.rest, n - 1, d);
        if more == None then None else Some(rings.value.rings + more.value)
  }

  lemma {:induction false} RingsReadBack(rings: seq<Ring>, d: Dims, le: bool, rest: Bytes)
    requires Short(rings)
    ensures TakeRings(RingsBytes(rings, d, le) + rest, |rings|, d, le) == Some(RingList(KeptRings(rings, d), rest))
  {
    hide TakeRing;
    hide RingBytes;
    hide KeptAll;
    if rings == [] {
      assert [] + rest == rest;
    } else {
      var first, more := RingBytes(rings[0], d, le), RingsBytes(rings[1..], d, le);
      Assoc(first, more, rest);
      assert |rings[0]| < TWO_31;
      RingReadBack(rings[0], d, le, more + rest);
      RingsReadBack(rings[1..], d, le, rest);
      assert KeptRings(rings, d) == [KeptAll(rings[0], d)] + KeptRings(rings[1..], d);
    }
  }

  lemma PolygonReadBack(p: Polygon, d: Dims, rest: Bytes)
    requires Short(p.rings) && |p.rings| < TWO_32
    ensures TakePolygon(PolygonBytes(p, d) + rest, d) == Some(RingList(KeptRings(p.rings, d), rest))
  {
    hide U32In;
    hide ReadU32;
    hide TakeRings;
    hide RingsBytes;
    hide KeptRings;
    var preface, count, rings := Preface(POLYGON, d, p.le), U32In(|p.rings|, p.le), RingsBytes(p.rings, d, p.le);
    U32InLength(|p.rings|, p.le);
    var b := PolygonBytes(p, d) + rest;
    Assoc(preface, count + rings, rest);
    Assoc(count, rings, rest);
    assert b == preface + (count + (rings + rest));
    assert b[5..] == count + (rings + rest);
    U32InReadBack(|p.rings|, p.le, rings + rest);
    assert b[9..] == b[5..][4..];
    assert b[0] == OrderByte(p.le);
    RingsReadBack(p.rings, d, p.le, rest);
  }

  lemma U32InLength(n: nat, le: bool)
    ensures |U32In(n, le)| == 4
  {
  }

  function AllRings(polygons: seq<Polygon>): seq<seq<Ring>> {
    seq(|polygons|, i requires 0 <= i < |polygons| => polygons[i].rings)
  }

  predicate ShortAll(polygons: seq<Polygon>) {
    forall i :: 0 <= i < |polygons| ==> Short(polygons[i].rings) && |polygons[i].rings| < TWO_32
  }

  lemma {:induction false} PolygonsReadBack(polygons: seq<Polygon>, d: Dims)
    requires ShortAll(polygons)
    ensures TakePolygons(PolygonsBytes(polygons, d), |polygons|, d) == Some(KeptRings(Flatten(AllRings(polygons)), d))
  {
    hide TakePolygon;
    hide PolygonBytes;
    hide KeptAll;
    if polygons != [] {
      var first := polygons[0];
      PolygonReadBack(first, d, PolygonsBytes(polygons[1..], d));
      PolygonsReadBack(polygons[1..], d);
      assert AllRings(polygons)[1..] == AllRings(polygons[1..]);
      assert KeptRings(first.rings + Flatten(AllRings(polygons[1..])), d)
        == KeptRings(first.rings, d) + KeptRings(Flatten(AllRings(polygons[1..])), d);
    }
  }
}
