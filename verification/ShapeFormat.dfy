// Shape records of lines and polygons: part starts, all points, and arrays of Z and M values.

module ShapeFormat {
  import opened Bytes
  import opened SpatialFormat

  datatype Kind = PolyLine | Polygon

  type Box = b: Bytes | |b| == 32 witness seq(32, _ => 0)

  type Range = b: Bytes | |b| == 16 witness seq(16, _ => 0)

  /** Bounding box and ranges, which are written and never read. */
  datatype Extents = Extents(box: Ring -> Box, range: seq<Word> -> Range)

  function ShapeType(kind: Kind, d: Dims): nat {
    (if kind == PolyLine then 3 else 5) + if d.z then 10 else if d.m then 20 else 0
  }

  // -- Arrays --

  function StartsBytes(parts: seq<Ring>, start: nat): (b: Bytes)
    ensures |b| == 4 * |parts|
  {
    if parts == [] then [] else U32Le(start) + StartsBytes(parts[1..], start + |parts[0]|)
  }

  function PairsBytes(ring: Ring): (b: Bytes)
    ensures |b| == 16 * |ring|
  {
    if ring == [] then [] else ring[0].x + ring[0].y + PairsBytes(ring[1..])
  }

  function WordsBytes(ws: seq<Word>): (b: Bytes)
    ensures |b| == 8 * |ws|
  {
    if ws == [] then [] else ws[0] + WordsBytes(ws[1..])
  }

  function Zs(ring: Ring): (ws: seq<Word>)
    ensures |ws| == |ring|
  {
    seq(|ring|, i requires 0 <= i < |ring| => ring[i].z)
  }

  function Ms(ring: Ring): (ws: seq<Word>)
    ensures |ws| == |ring|
  {
    seq(|ring|, i requires 0 <= i < |ring| => ring[i].m)
  }

  function Ranged(ws: seq<Word>, g: Extents): Bytes {
    g.range(ws) + WordsBytes(ws)
  }

  function ShapeBytes(kind: Kind, parts: seq<Ring>, d: Dims, g: Extents): Bytes {
    var all := Flatten(parts);
    ShapeHeader(kind, parts, d, g) + StartsBytes(parts, 0) + PairsBytes(all)
    + (if d.z then Ranged(Zs(all), g) else [])
    + if d.z || d.m then Ranged(Ms(all), g) else []
  }

  function ShapeHeader(kind: Kind, parts: seq<Ring>, d: Dims, g: Extents): (b: Bytes)
    ensures |b| == 44
  {
    U32Le(ShapeType(kind, d)) + g.box(Flatten(parts)) + U32Le(|parts|) + U32Le(|Flatten(parts)|)
  }

  // -- Building a record --

  method BuildShape(kind: Kind, parts: seq<Ring>, d: Dims, g: Extents) returns (out: Bytes)
    ensures out == ShapeBytes(kind, parts, d, g)
  {
    hide U32Le;
    hide Flatten;
    var all := Flatten(parts);
    out := U32Le(ShapeType(kind, d)) + g.box(all);
    out := out + U32Le(|parts|) + U32Le(|all|);
    var starts := PushStarts(parts);
    out := out + starts;
    var pairs := PushPairs(all);
    out := out + pairs;
    if d.z {
      var zs := PushWords(Zs(all));
      out := out + (g.range(Zs(all)) + zs);
    }
    if d.z || d.m {
      var ms := PushWords(Ms(all));
      out := out + (g.range(Ms(all)) + ms);
    }
  }

  method PushStarts(parts: seq<Ring>) returns (out: Bytes)
    ensures out == StartsBytes(parts, 0)
  {
    hide U32Le;
    out := [];
    var start: nat, k := 0, 0;
    while k < |parts|
      invariant 0 <= k <= |parts| && out + StartsBytes(parts[k..], start) == StartsBytes(parts, 0)
    {
      assert parts[k..][1..] == parts[k + 1..];
      Assoc(out, U32Le(start), StartsBytes(parts[k + 1..], start + |parts[k]|));
      out := out + U32Le(start);
      start := start + |parts[k]|;
      k := k + 1;
    }
    assert out + [] == out;
  }

  method PushPairs(ring: Ring) returns (out: Bytes)
    ensures out == PairsBytes(ring)
  {
    out := [];
    var k := 0;
    while k < |ring|
      invariant 0 <= k <= |ring| && out + PairsBytes(ring[k..]) == PairsBytes(ring)
    {
      assert ring[k..][1..] == ring[k + 1..];
      Assoc(out, ring[k].x + ring[k].y, PairsBytes(ring[k + 1..]));
      out := out + (ring[k].x + ring[k].y);
      k := k + 1;
    }
    assert out + [] == out;
  }

  method PushWords(ws: seq<Word>) returns (out: Bytes)
    ensures out == WordsBytes(ws)
  {
    out := [];
    var k := 0;
    while k < |ws|
      invariant 0 <= k <= |ws| && out + WordsBytes(ws[k..]) == WordsBytes(ws)
    {
      assert ws[k..][1..] == ws[k + 1..];
      Assoc(out, ws[k], WordsBytes(ws[k + 1..]));
      out := out + ws[k];
      k := k + 1;
    }
    assert out + [] == out;
  }

  // -- Parsing a record --

  /**
    * First points of the parts. The code widens them as signed numbers, which keeps the order of
    * any two of them and their difference modulo 2^32.
    */
  function TakeStarts(b: Bytes, n: nat): (r: seq<nat>)
    requires |b| >= 4 * n
    ensures |r| == n
    decreases n
  {
    if n == 0 then [] else [FromU32Le(b[..4])] + TakeStarts(b[4..], n - 1)
  }

  datatype Pair = Pair(x: Word, y: Word)

  function TakePairs(b: Bytes, n: nat): (r: seq<Pair>)
    requires |b| >= 16 * n
    ensures |r| == n
    decreases n
  {
    if n == 0 then [] else [Pair(b[..8], b[8..16])] + TakePairs(b[16..], n - 1)
  }

  function TakeWords(b: Bytes, n: nat): (r: seq<Word>)
    requires |b| >= 8 * n
    ensures |r| == n
    decreases n
  {
    if n == 0 then [] else [b[..8]] + TakeWords(b[8..], n - 1)
  }

  predicate AnyM(ms: seq<Word>) {
    exists i :: 0 <= i < |ms| && HasM(ms[i])
  }

  /** The M values of a record that may leave them out, as records with Z values may. */
  function OptionalM(b: Bytes, n: nat): (r: Option<seq<Word>>)
    ensures r.Some? ==> |r.value| == n
  {
    if |b| >= 16 + 8 * n && AnyM(TakeWords(b[16..], n)) then Some(TakeWords(b[16..], n)) else None
  }

  datatype Shape = Shape(starts: seq<nat>, points: Ring, d: Dims)

  function Joined(xy: seq<Pair>, zs: Option<seq<Word>>, ms: Option<seq<Word>>): (r: Ring)
    requires (zs.Some? ==> |zs.value| == |xy|) && (ms.Some? ==> |ms.value| == |xy|)
    ensures |r| == |xy|
  {
    seq(|xy|, i requires 0 <= i < |xy| =>
      Coord(xy[i].x, xy[i].y, if zs.Some? then zs.value[i] else ZERO, if ms.Some? then ms.value[i] else NO_M))
  }

  /** Points with their Z and M values, from the arrays behind the header and the starts. */
  function ParseArrays(b: Bytes, n: nat, d: Dims): (r: Option<Shape>)
    ensures r.Some? ==> |r.value.points| == n
  {
    if |b| < 16 * n then None
    else
      var xy, rest := TakePairs(b, n), b[16 * n..];
      if d.z then
        if |rest| < 16 + 8 * n then None
        else
          var ms := OptionalM(rest[16 + 8 * n..], n);
          Some(Shape([], Joined(xy, Some(TakeWords(rest[16..], n)), ms), Dims(true, ms.Some?)))
      else if d.m then
        if |rest| < 16 + 8 * n then None
        else Some(Shape([], Joined(xy, None, Some(TakeWords(rest[16..], n))), Dims(false, true)))
      else Some(Shape([], Joined(xy, None, None), Dims(false, false)))
  }

  /** None for a record that is too short (an error), or whose counts are negative (an error or a panic). */
  function ParseShape(shp: Bytes, d: Dims): (r: Option<Shape>) {
    if |shp| < 44 then None
    else
      var parts, points := FromU32Le(shp[36..40]), FromU32Le(shp[40..44]);
      if parts >= TWO_31 || points >= TWO_31 || |shp| < 44 + 4 * parts then None
      else
        var arrays := ParseArrays(shp[44 + 4 * parts..], points, d);
        if arrays == None then None else Some(arrays.value.(starts := TakeStarts(shp[44..], parts)))
  }

  // -- Parsing it, array by array --

  method ReadStarts(shp: Bytes, offset: nat, n: nat) returns (r: seq<nat>)
    requires offset + 4 * n <= |shp|
    ensures r == TakeStarts(shp[offset..], n)
  {
    hide FromU32Le;
    r := [];
    var i: nat, at: nat := 0, offset;
    while i < n
      invariant i <= n && at == offset + 4 * i && r + TakeStarts(shp[at..], n - i) == TakeStarts(shp[offset..], n)
    {
      assert shp[at..][..4] == shp[at..at + 4] && shp[at..][4..] == shp[at + 4..];
      Assoc(r, [FromU32Le(shp[at..at + 4])], TakeStarts(shp[at + 4..], n - i - 1));
      r := r + [FromU32Le(shp[at..at + 4])];
      at := at + 4;
      i := i + 1;
    }
    assert r + [] == r;
  }

  method ReadXyArray(shp: Bytes, offset: nat, n: nat) returns (r: seq<Pair>)
    requires offset + 16 * n <= |shp|
    ensures r == TakePairs(shp[offset..], n)
  {
    hide TakePairs;
    r := [];
    var i: nat, at: nat := 0, offset;
    assert r + TakePairs(shp[at..], n) == TakePairs(shp[at..], n);
    while i < n
      invariant i <= n && at == offset + 16 * i && r + TakePairs(shp[at..], n - i) == TakePairs(shp[offset..], n)
    {
      NextPair(shp, at, n - i);
      var pair := Pair(shp[at..at + 8], shp[at + 8..at + 16]);
      Assoc(r, [pair], TakePairs(shp[at + 16..], n - i - 1));
      r := r + [pair];
      at := at + 16;
      i := i + 1;
    }
    NoPairs(shp[at..]);
    assert r + [] == r;
  }

  lemma NextPair(shp: Bytes, at: nat, n: nat)
    requires n > 0 && at + 16 * n <= |shp|
    ensures
      var pair := Pair(shp[at..at + 8], shp[at + 8..at + 16]);
      TakePairs(shp[at..], n) == [pair] + TakePairs(shp[at + 16..], n - 1)
  {
    RestOfRest(shp, at, 16);
    assert shp[at..][..8] == shp[at..at + 8] && shp[at..][8..16] == shp[at + 8..at + 16];
  }

  lemma NoPairs(b: Bytes)
    ensures TakePairs(b, 0) == []
  {
  }

  method ReadF64Array(shp: Bytes, offset: nat, n: nat) returns (r: seq<Word>)
    requires offset + 8 * n <= |shp|
    ensures r == TakeWords(shp[offset..], n)
  {
    hide TakeWords;
    r := [];
    var i: nat, at: nat := 0, offset;
    assert r + TakeWords(shp[at..], n) == TakeWords(shp[at..], n);
    while i < n
      invariant i <= n && at == offset + 8 * i && r + TakeWords(shp[at..], n - i) == TakeWords(shp[offset..], n)
    {
      NextWord(shp, at, n - i);
      var word: Word := shp[at..at + 8];
      Assoc(r, [word], TakeWords(shp[at + 8..], n - i - 1));
      r := r + [word];
      at := at + 8;
      i := i + 1;
    }
    NoWords(shp[at..]);
    assert r + [] == r;
  }

  lemma NextWord(shp: Bytes, at: nat, n: nat)
    requires n > 0 && at + 8 * n <= |shp|
    ensures
      var word: Word := shp[at..at + 8];
      TakeWords(shp[at..], n) == [word] + TakeWords(shp[at + 8..], n - 1)
  {
    RestOfRest(shp, at, 8);
    assert shp[at..][..8] == shp[at..at + 8];
  }

  lemma NoWords(b: Bytes)
    ensures TakeWords(b, 0) == []
  {
  }

  method ReadArrays(shp: Bytes, offset: nat, n: nat, d: Dims) returns (r: Option<Shape>)
    requires offset <= |shp|
    ensures r == ParseArrays(shp[offset..], n, d)
  {
    hide TakePairs;
    hide TakeWords;
    hide Joined;
    hide AnyM;
    if |shp| < offset + 16 * n {
      return None;
    }
    var xy := ReadXyArray(shp, offset, n);
    var after := offset + 16 * n;
    assert shp[offset..][16 * n..] == shp[after..];
    if !d.z && !d.m {
      return Some(Shape([], Joined(xy, None, None), Dims(false, false)));
    }
    if |shp| < after + 16 + 8 * n {
      return None;
    }
    assert shp[after..][16..] == shp[after + 16..];
    var values := ReadF64Array(shp, after + 16, n);
    if !d.z {
      return Some(Shape([], Joined(xy, None, Some(values)), Dims(false, true)));
    }
    var mAt := after + 16 + 8 * n;
    assert shp[after..][16 + 8 * n..] == shp[mAt..];
    var ms := None;
    if |shp| >= mAt + 16 + 8 * n {
      assert shp[mAt..][16..] == shp[mAt + 16..];
      var found := ReadF64Array(shp, mAt + 16, n);
      if AnyM(found) {
        ms := Some(found);
      }
    }
    r := Some(Shape([], Joined(xy, Some(values), ms), Dims(true, ms.Some?)));
  }

  method ReadShape(shp: Bytes, d: Dims) returns (r: Option<Shape>)
    ensures r == ParseShape(shp, d)
  {
    hide FromU32Le;
    hide TakeStarts;
    hide ParseArrays;
    if |shp| < 44 {
      return None;
    }
    var parts, points := FromU32Le(shp[36..40]), FromU32Le(shp[40..44]);
    if parts >= TWO_31 || points >= TWO_31 || |shp| < 44 + 4 * parts {
      return None;
    }
    var starts := ReadStarts(shp, 44, parts);
    var arrays := ReadArrays(shp, 44 + 4 * parts, points, d);
    r := if arrays == None then None else Some(arrays.value.(starts := starts));
  }

  function PartEnd(s: Shape, k: nat): nat
    requires k < |s.starts|
  {
    if k + 1 < |s.starts| then s.starts[k + 1] else |s.points|
  }

  predicate PartsInOrder(s: Shape) {
    forall k :: 0 <= k < |s.starts| ==> s.starts[k] <= PartEnd(s, k) <= |s.points|
  }

  function PartsOf(s: Shape): (r: seq<Ring>)
    requires PartsInOrder(s)
    ensures |r| == |s.starts|
  {
    seq(|s.starts|, k requires 0 <= k < |s.starts| => s.points[s.starts[k]..PartEnd(s, k)])
  }

  // -- Reading back --

  lemma {:induction false} WordsReadBack(ws: seq<Word>, rest: Bytes)
    ensures TakeWords(WordsBytes(ws) + rest, |ws|) == ws
    ensures (WordsBytes(ws) + rest)[8 * |ws|..] == rest
  {
    if ws != [] {
      var w: Bytes, b: Bytes := ws[0], WordsBytes(ws[1..]) + rest;
      assert WordsBytes(ws) + rest == w + b;
      assert (w + b)[..8] == w && (w + b)[8..] == b;
      WordsReadBack(ws[1..], rest);
    }
  }

  function Pairs(ring: Ring): (r: seq<Pair>)
    ensures |r| == |ring|
  {
    seq(|ring|, i requires 0 <= i < |ring| => Pair(ring[i].x, ring[i].y))
  }

  lemma {:induction false} PairsReadBack(ring: Ring, rest: Bytes)
    ensures TakePairs(PairsBytes(ring) + rest, |ring|) == Pairs(ring)
    ensures (PairsBytes(ring) + rest)[16 * |ring|..] == rest
  {
    if ring != [] {
      var x: Bytes, y: Bytes, b: Bytes := ring[0].x, ring[0].y, PairsBytes(ring[1..]) + rest;
      var whole := PairsBytes(ring) + rest;
      assert whole == x + y + b;
      assert (x + y + b)[..8] == x && (x + y + b)[8..16] == y && (x + y + b)[16..] == b;
      PairsReadBack(ring[1..], rest);
      assert Pairs(ring) == [Pair(x, y)] + Pairs(ring[1..]);
    }
  }

  function Starts(parts: seq<Ring>, start: nat): (r: seq<nat>)
    ensures |r| == |parts|
  {
    if parts == [] then [] else [start] + Starts(parts[1..], start + |parts[0]|)
  }

  lemma {:induction false} StartsReadBack(parts: seq<Ring>, start: nat, rest: Bytes)
    requires start + |Flatten(parts)| < TWO_32
    ensures TakeStarts(StartsBytes(parts, start) + rest, |parts|) == Starts(parts, start)
    ensures (StartsBytes(parts, start) + rest)[4 * |parts|..] == rest
  {
    if parts != [] {
      hide U32Le;
      hide FromU32Le;
      var first, b := U32Le(start), StartsBytes(parts[1..], start + |parts[0]|) + rest;
      assert StartsBytes(parts, start) + rest == first + b;
      assert (first + b)[..4] == first && (first + b)[4..] == b;
      U32RoundTrip(start);
      StartsReadBack(parts[1..], start + |parts[0]|, rest);
    }
  }

  /** Part `k` starts behind the points of the parts before it. */
  lemma {:induction false} StartAt(parts: seq<Ring>, start: nat, k: nat)
    requires k < |parts|
    ensures Starts(parts, start)[k] == start + |Flatten(parts[..k])|
  {
    if k > 0 {
      StartAt(parts[1..], start + |parts[0]|, k - 1);
      assert parts[..k] == [parts[0]] + parts[1..][..k - 1];
      assert parts[..k][1..] == parts[1..][..k - 1];
    }
  }

  /** Cutting all points at the starts of the parts gives the parts. */
  lemma PartsReadBack(parts: seq<Ring>, points: Ring, d: Dims)
    requires points == Flatten(parts)
    ensures var s := Shape(Starts(parts, 0), points, d); PartsInOrder(s) && PartsOf(s) == parts
  {
    var s := Shape(Starts(parts, 0), points, d);
    forall k | 0 <= k < |parts|
      ensures s.starts[k] <= PartEnd(s, k) <= |points| && points[s.starts[k]..PartEnd(s, k)] == parts[k]
    {
      PartReadBack(parts, points, d, k);
    }
  }

  lemma PartReadBack(parts: seq<Ring>, points: Ring, d: Dims, k: nat)
    requires points == Flatten(parts) && k < |parts|
    ensures var s := Shape(Starts(parts, 0), points, d);
      s.starts[k] <= PartEnd(s, k) <= |points| && points[s.starts[k]..PartEnd(s, k)] == parts[k]
  {
    hide *;
    StartAt(parts, 0, k);
    if k + 1 < |parts| {
      StartAt(parts, 0, k + 1);
    }
    PartEndIs(parts, points, d, k);
    FlattenNext(parts, k);
    FlattenSplit(parts, k + 1);
    MiddleSlice(Flatten(parts[..k]), parts[k], Flatten(parts[k + 1..]));
  }

  lemma FlattenNext(parts: seq<Ring>, k: nat)
    requires k < |parts|
    ensures Flatten(parts[..k + 1]) == Flatten(parts[..k]) + parts[k]
    ensures k + 1 == |parts| ==> parts[..k + 1] == parts
  {
    hide Flatten;
    assert parts[..k + 1] == parts[..k] + [parts[k]];
    FlattenAppend(parts[..k], parts[k]);
  }

  lemma PartEndIs(parts: seq<Ring>, points: Ring, d: Dims, k: nat)
    requires k < |parts|
    ensures |Starts(parts, 0)| == |parts|
    ensures var s := Shape(Starts(parts, 0), points, d);
      PartEnd(s, k) == if k + 1 < |parts| then s.starts[k + 1] else |points|
  {
    hide Starts;
  }

  /** The dimensions that reading a record finds: with Z, M values count only if there is one at all. */
  function Found(all: Ring, d: Dims): Dims {
    Dims(d.z, if d.z then AnyM(Ms(all)) else d.m)
  }

  lemma JoinedIs(all: Ring, d: Dims)
    ensures Joined(Pairs(all), if d.z then Some(Zs(all)) else None, if d.m then Some(Ms(all)) else None)
      == KeptAll(all, d)
  {
  }

  lemma RangedReadBack(ws: seq<Word>, g: Extents, rest: Bytes)
    ensures
      var b := Ranged(ws, g) + rest;
      && |b| == 16 + 8 * |ws| + |rest|
      && TakeWords(b[16..], |ws|) == ws && b[16 + 8 * |ws|..] == rest
  {
    hide TakeWords;
    hide WordsBytes;
    var range: Bytes, words := g.range(ws), WordsBytes(ws);
    var b := Ranged(ws, g) + rest;
    WordsReadBack(ws, rest);
    Assoc(range, words, rest);
    FrontAndRest(range, words + rest);
    FrontAndRest(range + words, rest);
  }

  function ArraysBytes(all: Ring, d: Dims, g: Extents): Bytes {
    PairsBytes(all) + ((if d.z then Ranged(Zs(all), g) else []) + if d.z || d.m then Ranged(Ms(all), g) else [])
  }

  lemma ArraysReadBack(all: Ring, d: Dims, g: Extents)
    ensures ParseArrays(ArraysBytes(all, d, g), |all|, d) == Some(Shape([], KeptAll(all, Found(all, d)), Found(all, d)))
  {
    hide Ranged;
    hide PairsBytes;
    hide TakePairs;
    hide TakeWords;
    hide Joined;
    hide KeptAll;
    hide AnyM;
    hide Zs;
    hide Ms;
    var zs, ms := if d.z then Ranged(Zs(all), g) else [], if d.z || d.m then Ranged(Ms(all), g) else [];
    PairsReadBack(all, zs + ms);
    JoinedIs(all, Found(all, d));
    ArrayLengths(all);
    if d.z {
      RangedReadBack(Zs(all), g, ms);
      RangedReadBack(Ms(all), g, []);
      assert ms + [] == ms;
    } else if d.m {
      RangedReadBack(Ms(all), g, []);
      assert [] + ms == ms + [];
    }
  }

  lemma ArrayLengths(all: Ring)
    ensures |Zs(all)| == |Ms(all)| == |all| && |PairsBytes(all)| == 16 * |all|
  {
  }

  /** What is written is read back: starts, points, and M values as far as they count. */
  lemma ShapeReadBack(kind: Kind, parts: seq<Ring>, d: Dims, g: Extents)
    requires |parts| < TWO_31 && |Flatten(parts)| < TWO_31
    ensures var all := Flatten(parts); var d' := Found(all, d);
      ParseShape(ShapeBytes(kind, parts, d, g), d) == Some(Shape(Starts(parts, 0), KeptAll(all, d'), d'))
  {
    hide *;
    var all := Flatten(parts);
    var header, starts, arrays := ShapeHeader(kind, parts, d, g), StartsBytes(parts, 0), ArraysBytes(all, d, g);
    ShapeParts(kind, parts, d, g);
    HeaderReadBack(kind, parts, d, g, starts + arrays);
    SmallCounts(parts);
    StartsReadBack(parts, 0, arrays);
    ArraysReadBack(all, d, g);
    ParseIs(header, starts, arrays, |parts|, |all|, d);
  }

  lemma SmallCounts(parts: seq<Ring>)
    requires |parts| < TWO_31 && |Flatten(parts)| < TWO_31
    ensures 0 + |Flatten(parts)| < TWO_32
  {
  }

  lemma ShapeParts(kind: Kind, parts: seq<Ring>, d: Dims, g: Extents)
    ensures ShapeBytes(kind, parts, d, g)
      == ShapeHeader(kind, parts, d, g) + (StartsBytes(parts, 0) + ArraysBytes(Flatten(parts), d, g))
    ensures |ShapeHeader(kind, parts, d, g)| == 44 && |StartsBytes(parts, 0)| == 4 * |parts|
  {
    hide ShapeHeader;
    hide StartsBytes;
    hide PairsBytes;
    hide Ranged;
    var all := Flatten(parts);
    var h, s, p := ShapeHeader(kind, parts, d, g), StartsBytes(parts, 0), PairsBytes(all);
    var z, m := if d.z then Ranged(Zs(all), g) else [], if d.z || d.m then Ranged(Ms(all), g) else [];
    Assoc(p, z, m);
    Assoc(s, p + z, m);
    Assoc(s, p, z);
    Assoc(h, s + p + z, m);
    Assoc(h, s + p, z);
    Assoc(h, s, p);
  }

  lemma HeaderReadBack(kind: Kind, parts: seq<Ring>, d: Dims, g: Extents, rest: Bytes)
    requires |parts| < TWO_31 && |Flatten(parts)| < TWO_31
    ensures |ShapeHeader(kind, parts, d, g)| == 44
    ensures var b := ShapeHeader(kind, parts, d, g) + rest;
      && FromU32Le(b[..4]) == ShapeType(kind, d)
      && FromU32Le(b[36..40]) == |parts| && FromU32Le(b[40..44]) == |Flatten(parts)|
  {
    hide U32Le;
    hide FromU32Le;
    hide Flatten;
    var t, box: Bytes, p, n := U32Le(ShapeType(kind, d)), g.box(Flatten(parts)), U32Le(|parts|),
      U32Le(|Flatten(parts)|);
    var b := ShapeHeader(kind, parts, d, g) + rest;
    assert b == t + box + p + n + rest;
    assert b[..4] == t && b[36..40] == p && b[40..44] == n;
    U32RoundTrip(ShapeType(kind, d));
    U32RoundTrip(|parts|);
    U32RoundTrip(|Flatten(parts)|);
  }

  /** A record from its parts. */
  lemma ParseIs(header: Bytes, starts: Bytes, arrays: Bytes, parts: nat, points: nat, d: Dims)
    requires |header| == 44 && |starts| == 4 * parts && parts < TWO_31 && points < TWO_31
    requires |header + (starts + arrays)| >= 44
    requires FromU32Le((header + (starts + arrays))[36..40]) == parts
    requires FromU32Le((header + (starts + arrays))[40..44]) == points
    ensures var a, s := ParseArrays(arrays, points, d), TakeStarts(starts + arrays, parts);
      ParseShape(header + (starts + arrays), d) == if a == None then None else Some(a.value.(starts := s))
  {
    hide FromU32Le;
    hide ParseArrays;
    hide TakeStarts;
    var shp := header + (starts + arrays);
    assert shp[44..] == starts + arrays;
    assert shp[44 + 4 * parts..] == arrays;
  }

  lemma {:induction false} KeptFlat(parts: seq<Ring>, d: Dims)
    ensures KeptAll(Flatten(parts), d) == Flatten(KeptRings(parts, d))
  {
    if parts != [] {
      KeptFlat(parts[1..], d);
      assert KeptRings(parts, d)[1..] == KeptRings(parts[1..], d);
      assert KeptAll(parts[0] + Flatten(parts[1..]), d) == KeptAll(parts[0], d) + KeptAll(Flatten(parts[1..]), d);
    }
  }

  lemma {:induction false} KeptStarts(parts: seq<Ring>, d: Dims, start: nat)
    ensures Starts(KeptRings(parts, d), start) == Starts(parts, start)
  {
    if parts != [] {
      assert KeptRings(parts, d)[1..] == KeptRings(parts[1..], d);
      KeptStarts(parts[1..], d, start + |parts[0]|);
    }
  }

  /** The parts read from a record are the parts written, with the dimensions found. */
  lemma PartsSurvive(kind: Kind, parts: seq<Ring>, d: Dims, g: Extents)
    requires |parts| < TWO_31 && |Flatten(parts)| < TWO_31
    ensures var d' := Found(Flatten(parts), d); var s := ParseShape(ShapeBytes(kind, parts, d, g), d);
      s.Some? && s.value.d == d' && PartsInOrder(s.value) && PartsOf(s.value) == KeptRings(parts, d')
  {
    hide *;
    var d' := Found(Flatten(parts), d);
    ShapeReadBack(kind, parts, d, g);
    KeptFlat(parts, d');
    KeptStarts(parts, d', 0);
    PartsReadBack(KeptRings(parts, d'), KeptAll(Flatten(parts), d'), d');
  }
}
