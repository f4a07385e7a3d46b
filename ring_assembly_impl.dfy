/**
  The loops of the face validation callback of the EDIGEO export, each proved
  to compute its stage of `RingAssembly.Assemble`. Error reports, which the
  callback sends to the processing feedback as it goes, are returned in the
  order they are sent.
*/
module RingAssemblyImpl {
  import opened Geometry
  import opened RingAssembly

  /** Builds one polygon per ring; a ring whose build does not succeed is
      reported and skipped. The outer/inner hint is not read. */
  method ConstructGeometries(e: Engine, feature: string, face: string, rings: seq<InputRing>)
    returns (geoms: seq<Ring>, reports: seq<Report>)
    ensures Built(geoms, reports) == Construct(e, feature, face, rings)
  {
    geoms, reports := [], [];
    for i := 0 to |rings|
      invariant Built(geoms, reports) == Construct(e, feature, face, rings[..i])
    {
      assert rings[..i + 1][..i] == rings[..i];
      var ring := rings[i];
      var result := e.addPoints(ring.points);
      if result != Success {
        reports := reports + [ConstructionFailed(feature, face, result.code)];
      } else {
        geoms := geoms + [e.exterior(ring.points)];
      }
    }
    assert rings[..|rings|] == rings;
  }

  /** Scans the roots in order; the first root `g` intersects receives it as an
      interior ring, or, when the engine refuses, `g` is reported and dropped;
      the scan stops there either way. With no intersecting root, `g` is
      appended as a new root. */
  method PlaceInRoots(e: Engine, rootsBefore: seq<Polygon>, reportsBefore: seq<Report>, g: Ring)
    returns (roots: seq<Polygon>, reports: seq<Report>)
    ensures Forest(roots, reports) == Place(e, Forest(rootsBefore, reportsBefore), g)
  {
    roots, reports := rootsBefore, reportsBefore;
    var placed := false;
    var j := 0;
    while j < |roots|
      invariant 0 <= j <= |roots|
      invariant !placed && roots == rootsBefore && reports == reportsBefore
      invariant forall k :: 0 <= k < j ==> !e.intersects(g, roots[k])
    {
      if e.intersects(g, roots[j]) {
        var result := e.addRing(roots[j], g);
        if result != Success {
          reports := reports + [AddRingFailed(result.code)];
        } else {
          roots := roots[j := roots[j] + [g]];
        }
        placed := true;
        break;
      }
      j := j + 1;
    }
    if !placed {
      roots := roots + [[g]];
    }
  }

  /** Seeds the roots with the first (largest) polygon, then places each
      following polygon in turn. */
  method AssignRoots(e: Engine, geoms: seq<Ring>, reportsBefore: seq<Report>)
    returns (roots: seq<Polygon>, reports: seq<Report>)
    requires geoms != []
    ensures Forest(roots, reports) == Assign(e, Forest([[geoms[0]]], reportsBefore), geoms[1..])
  {
    roots, reports := [[geoms[0]]], reportsBefore;
    var rest := geoms[1..];
    for n := 0 to |rest|
      invariant Forest(roots, reports) == Assign(e, Forest([[geoms[0]]], reportsBefore), rest[..n])
    {
      assert rest[..n + 1][..n] == rest[..n];
      roots, reports := PlaceInRoots(e, roots, reports, rest[n]);
    }
    assert rest[..|rest|] == rest;
  }

  /** Lists the rings root by root, flagging each root's first ring as outer. */
  method FlattenRoots(roots: seq<Polygon>) returns (rings: seq<TaggedRing>)
    ensures rings == Flatten(roots)
  {
    rings := [];
    for i := 0 to |roots|
      invariant rings == Flatten(roots[..i])
    {
      var root := roots[i];
      var outer := true;
      for k := 0 to |root|
        invariant rings == Flatten(roots[..i]) + Tag(root)[..k]
        invariant outer == (k == 0)
      {
        assert Tag(root)[..k + 1] == Tag(root)[..k] + [TaggedRing(root[k], k == 0)];
        rings := rings + [TaggedRing(root[k], outer)];
        outer := false;
      }
      assert Tag(root)[..|root|] == Tag(root);
      assert roots[..i + 1][..i] == roots[..i];
    }
    assert roots[..|roots|] == roots;
  }

  /**
    The validation callback for one face: build, sort by area (largest
    first, stable), assign to roots, flatten. With no polygon left to seed the
    roots it raises, as indexing the empty list does in the callback.
  */
  method Validate(e: Engine, feature: string, face: string, rings: seq<InputRing>)
    returns (outcome: Outcome, reports: seq<Report>)
    ensures Assembled(outcome, reports) == Assemble(e, feature, face, rings)
    ensures outcome.RaisedIndexError? <==> forall r :: r in rings ==> !e.addPoints(r.points).Success?
    ensures outcome.Returned? ==>
              && outcome.rings != [] && outcome.rings[0].outer
              && CountOuter(outcome.rings) == |Regroup(outcome.rings)|
              && |outcome.rings| + |reports| == |rings|
  {
    var geoms;
    geoms, reports := ConstructGeometries(e, feature, face, rings);
    geoms := SortByArea(e, geoms);
    AssembleRaisesIff(e, feature, face, rings);
    if |geoms| == 0 {
      return RaisedIndexError, reports;
    }
    var roots;
    roots, reports := AssignRoots(e, geoms, reports);
    var out := FlattenRoots(roots);
    outcome := Returned(out);
    AssembleReturned(e, feature, face, rings);
  }
}
