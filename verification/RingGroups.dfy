// Grouping a list of rings into polygons: an outer ring starts a polygon, other rings join the last one.

module RingGroups {
  import opened Bytes

  function Grouped<T(==)>(rings: seq<T>, outer: T -> bool): (polygons: seq<seq<T>>)
    ensures rings != [] ==> polygons != []
  {
    if rings == [] then []
    else
      var n := |rings| - 1;
      Placed(Grouped(rings[..n], outer), rings[n], outer)
  }

  /** One more ring. */
  function Placed<T(==)>(polygons: seq<seq<T>>, ring: T, outer: T -> bool): (r: seq<seq<T>>)
    ensures r != []
  {
    if outer(ring) || polygons == [] then polygons + [[ring]]
    else polygons[..|polygons| - 1] + [polygons[|polygons| - 1] + [ring]]
  }

  method GroupRings<T(==)>(rings: seq<T>, outer: T -> bool) returns (polygons: seq<seq<T>>)
    ensures polygons == Grouped(rings, outer)
  {
    polygons := [];
    var k := 0;
    while k < |rings|
      invariant 0 <= k <= |rings| && polygons == Grouped(rings[..k], outer)
    {
      assert rings[..k + 1][..k] == rings[..k];
      if outer(rings[k]) || polygons == [] {
        polygons := polygons + [[rings[k]]];
      } else {
        polygons := polygons[|polygons| - 1 := polygons[|polygons| - 1] + [rings[k]]];
      }
      k := k + 1;
    }
    assert rings[..k] == rings;
  }

  /** Every polygon starts with an outer ring, but for the very first ring; no other ring is outer. */
  predicate WellGrouped<T>(polygons: seq<seq<T>>, outer: T -> bool) {
    forall p :: 0 <= p < |polygons| ==>
      && polygons[p] != [] && (p > 0 ==> outer(polygons[p][0]))
      && forall j :: 1 <= j < |polygons[p]| ==> !outer(polygons[p][j])
  }

  lemma FlattenPlaced<T>(polygons: seq<seq<T>>, ring: T, outer: T -> bool)
    ensures Flatten(Placed(polygons, ring, outer)) == Flatten(polygons) + [ring]
  {
    hide Flatten;
    if outer(ring) || polygons == [] {
      FlattenAppend(polygons, [ring]);
    } else {
      var front, last := polygons[..|polygons| - 1], polygons[|polygons| - 1];
      FlattenAppend(front, last + [ring]);
      FlattenAppend(front, last);
      assert front + [last] == polygons;
      Assoc(Flatten(front), last, [ring]);
    }
  }

  lemma PlacedWell<T>(polygons: seq<seq<T>>, ring: T, outer: T -> bool)
    requires WellGrouped(polygons, outer)
    ensures WellGrouped(Placed(polygons, ring, outer), outer)
  {
  }

  /** Grouping keeps the rings and their order, each in exactly one polygon, and is regular. */
  lemma {:induction false} GroupingKeepsRings<T>(rings: seq<T>, outer: T -> bool)
    ensures Flatten(Grouped(rings, outer)) == rings
    ensures WellGrouped(Grouped(rings, outer), outer)
  {
    if rings != [] {
      var n := |rings| - 1;
      GroupingKeepsRings(rings[..n], outer);
      FlattenPlaced(Grouped(rings[..n], outer), rings[n], outer);
      PlacedWell(Grouped(rings[..n], outer), rings[n], outer);
      hide WellGrouped;
      hide Placed;
      hide Flatten;
      assert rings[..n] + [rings[n]] == rings;
    }
  }

  lemma GroupedNext<T>(rings: seq<T>, ring: T, outer: T -> bool)
    ensures Grouped(rings + [ring], outer) == Placed(Grouped(rings, outer), ring, outer)
  {
    assert (rings + [ring])[..|rings|] == rings;
  }

  /** Up to ring `j` of polygon `p`, the rings are grouped as they were. */
  lemma {:induction false} GroupsReturn<T>(polygons: seq<seq<T>>, outer: T -> bool, p: nat, j: nat)
    requires WellGrouped(polygons, outer) && p < |polygons| && 1 <= j <= |polygons[p]|
    ensures Grouped(Flatten(polygons[..p]) + polygons[p][..j], outer) == polygons[..p] + [polygons[p][..j]]
    decreases p, j
  {
    hide Grouped;
    hide Flatten;
    var before, polygon := Flatten(polygons[..p]), polygons[p];
    GroupedNext(before + polygon[..j - 1], polygon[j - 1], outer);
    assert polygon[..j] == polygon[..j - 1] + [polygon[j - 1]];
    Assoc(before, polygon[..j - 1], [polygon[j - 1]]);
    if j > 1 {
      GroupsReturn(polygons, outer, p, j - 1);
      assert !outer(polygon[j - 1]);
    } else {
      assert polygon[..0] == [] && [] + [polygon[0]] == [polygon[0]];
      assert before + [] == before;
      GroupsBefore(polygons, outer, p);
    }
  }

  lemma GroupsBefore<T>(polygons: seq<seq<T>>, outer: T -> bool, p: nat)
    requires WellGrouped(polygons, outer) && p < |polygons|
    ensures Grouped(Flatten(polygons[..p]), outer) == polygons[..p]
    decreases p, 0
  {
    hide *;
    if p == 0 {
      NoGroups(polygons, outer);
    } else {
      var last := polygons[p - 1];
      GroupNotEmpty(polygons, outer, p - 1);
      GroupsReturn(polygons, outer, p - 1, |last|);
      assert last[..|last|] == last;
      assert polygons[..p] == polygons[..p - 1] + [last];
      FlattenAppend(polygons[..p - 1], last);
    }
  }

  lemma NoGroups<T>(polygons: seq<seq<T>>, outer: T -> bool)
    ensures Grouped(Flatten(polygons[..0]), outer) == polygons[..0]
  {
    assert polygons[..0] == [];
  }

  lemma GroupNotEmpty<T>(polygons: seq<seq<T>>, outer: T -> bool, p: nat)
    requires WellGrouped(polygons, outer) && p < |polygons|
    ensures polygons[p] != []
  {
  }

  /** The polygons return from their rings exactly if they were regular. */
  lemma PolygonsReturn<T>(polygons: seq<seq<T>>, outer: T -> bool)
    ensures Grouped(Flatten(polygons), outer) == polygons <==> WellGrouped(polygons, outer)
  {
    GroupingKeepsRings(Flatten(polygons), outer);
    if WellGrouped(polygons, outer) && polygons != [] {
      var p := |polygons| - 1;
      GroupsReturn(polygons, outer, p, |polygons[p]|);
      assert polygons[p][..|polygons[p]|] == polygons[p];
      assert polygons[..p] + [polygons[p]] == polygons;
      FlattenAppend(polygons[..p], polygons[p]);
    }
  }
}
