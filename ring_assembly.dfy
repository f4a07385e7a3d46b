/**
  Ring-to-polygon assembly for one face of an EDIGEO feature: the rings of the
  face are built into one-ring polygons, ordered by area (largest first), and
  each smaller polygon is either added as an interior ring to the first root
  it intersects, dropped with an error report when that addition fails, or
  kept as a root of its own. The roots are then flattened into
  (ring, is-outer) pairs.

  This module holds the specification functions, one per stage, and the
  properties proved about them; `RingAssemblyImpl` holds the loops.
*/
module RingAssembly {
  import opened Geometry

  /** A ring of the face as the archive gives it, with its outer/inner hint. */
  datatype InputRing = InputRing(points: seq<Point>, outerHint: bool)

  /** A ring of the result, with its outer flag. */
  datatype TaggedRing = TaggedRing(points: Ring, outer: bool)

  /** An error reported to the processing feedback; processing goes on. */
  datatype Report =
    | ConstructionFailed(feature: string, face: string, code: int)
    | AddRingFailed(code: int)

  /** What assembly gives back: the tagged rings, or the exception it re-raises. */
  datatype Outcome = Returned(rings: seq<TaggedRing>) | RaisedIndexError

  // ---------------------------------------------------------------------------
  // Stage 1: one polygon per ring, failures reported and left out
  // ---------------------------------------------------------------------------

  datatype Built = Built(geoms: seq<Ring>, reports: seq<Report>)

  /** The polygons that build, in input order, and one report per ring that does not. */
  function Construct(e: Engine, feature: string, face: string, rings: seq<InputRing>): (b: Built)
    ensures |b.geoms| + |b.reports| == |rings|
    ensures forall g :: g in b.geoms ==>
              exists r :: r in rings && e.addPoints(r.points) == Success && g == e.exterior(r.points)
    ensures forall rep :: rep in b.reports ==>
              rep.ConstructionFailed? && rep.feature == feature && rep.face == face
    decreases |rings|
  {
    if rings == [] then Built([], [])
    else
      var b := Construct(e, feature, face, rings[..|rings| - 1]);
      var r := rings[|rings| - 1];
      var res := e.addPoints(r.points);
      if res.Success? then Built(b.geoms + [e.exterior(r.points)], b.reports)
      else Built(b.geoms, b.reports + [ConstructionFailed(feature, face, res.code)])
  }

  /** Building is done ring by ring: the result for a concatenation is the
      concatenation of the results, so survivors keep their input order. */
  lemma {:induction false} ConstructAppend(e: Engine, feature: string, face: string, a: seq<InputRing>, b: seq<InputRing>)
    ensures Construct(e, feature, face, a + b).geoms
         == Construct(e, feature, face, a).geoms + Construct(e, feature, face, b).geoms
    ensures Construct(e, feature, face, a + b).reports
         == Construct(e, feature, face, a).reports + Construct(e, feature, face, b).reports
    decreases |b|
  {
    if b == [] {
      assert a + b == a;
    } else {
      var b' := b[..|b| - 1];
      assert (a + b)[..|a + b| - 1] == a + b';
      assert (a + b)[|a + b| - 1] == b[|b| - 1];
      ConstructAppend(e, feature, face, a, b');
    }
  }

  /** The outer/inner hint of the input is ignored. */
  lemma {:induction false} ConstructIgnoresHints(e: Engine, feature: string, face: string, a: seq<InputRing>, b: seq<InputRing>)
    requires |a| == |b|
    requires forall i :: 0 <= i < |a| ==> a[i].points == b[i].points
    ensures Construct(e, feature, face, a) == Construct(e, feature, face, b)
    decreases |a|
  {
    if a != [] {
      ConstructIgnoresHints(e, feature, face, a[..|a| - 1], b[..|b| - 1]);
    }
  }

  /** No polygon survives exactly when no ring builds. */
  lemma {:induction false} ConstructEmptyIff(e: Engine, feature: string, face: string, rings: seq<InputRing>)
    ensures Construct(e, feature, face, rings).geoms == []
        <==> forall r :: r in rings ==> !e.addPoints(r.points).Success?
    decreases |rings|
  {
    if rings != [] {
      var init := rings[..|rings| - 1];
      ConstructEmptyIff(e, feature, face, init);
      assert forall r :: r in rings ==> r in init || r == rings[|rings| - 1];
    }
  }

  // ---------------------------------------------------------------------------
  // Stage 2: stable sort by area, largest first
  // ---------------------------------------------------------------------------

  /** Inserts `g` into `sorted` after every polygon of at least its area. */
  function InsertByArea(e: Engine, sorted: seq<Ring>, g: Ring): (r: seq<Ring>)
    ensures multiset(r) == multiset(sorted) + multiset{g}
  {
    if sorted == [] then [g]
    else if e.area(sorted[0]) < e.area(g) then [g] + sorted
    else
      assert sorted == [sorted[0]] + sorted[1..];
      [sorted[0]] + InsertByArea(e, sorted[1..], g)
  }

  /** The polygons ordered by area, largest first, as a stable sort orders them. */
  function SortByArea(e: Engine, gs: seq<Ring>): (r: seq<Ring>)
    ensures multiset(r) == multiset(gs)
    decreases |gs|
  {
    if gs == [] then []
    else
      assert gs == gs[..|gs| - 1] + [gs[|gs| - 1]];
      InsertByArea(e, SortByArea(e, gs[..|gs| - 1]), gs[|gs| - 1])
  }

  ghost predicate NonIncreasingArea(e: Engine, gs: seq<Ring>) {
    forall i, j :: 0 <= i < j < |gs| ==> e.area(gs[i]) >= e.area(gs[j])
  }

  /** The polygons of `gs` whose area is `a`, in their order in `gs`. */
  function WithArea(e: Engine, gs: seq<Ring>, a: int): seq<Ring>
    decreases |gs|
  {
    if gs == [] then []
    else WithArea(e, gs[..|gs| - 1], a) + (if e.area(gs[|gs| - 1]) == a then [gs[|gs| - 1]] else [])
  }

  lemma {:induction false} WithAreaAppend(e: Engine, s: seq<Ring>, t: seq<Ring>, a: int)
    ensures WithArea(e, s + t, a) == WithArea(e, s, a) + WithArea(e, t, a)
    decreases |t|
  {
    if t == [] {
      assert s + t == s;
    } else {
      assert (s + t)[..|s + t| - 1] == s + t[..|t| - 1];
      assert (s + t)[|s + t| - 1] == t[|t| - 1];
      WithAreaAppend(e, s, t[..|t| - 1], a);
    }
  }

  lemma {:induction false} WithAreaNone(e: Engine, s: seq<Ring>, a: int)
    requires forall i :: 0 <= i < |s| ==> e.area(s[i]) < a
    ensures WithArea(e, s, a) == []
    decreases |s|
  {
    if s != [] {
      WithAreaNone(e, s[..|s| - 1], a);
    }
  }

  lemma {:induction false} InsertByAreaSorted(e: Engine, sorted: seq<Ring>, g: Ring)
    requires NonIncreasingArea(e, sorted)
    ensures NonIncreasingArea(e, InsertByArea(e, sorted, g))
    decreases |sorted|
  {
    if sorted != [] && e.area(sorted[0]) >= e.area(g) {
      var tail := sorted[1..];
      var rest := InsertByArea(e, tail, g);
      NonIncreasingTail(e, sorted);
      InsertByAreaSorted(e, tail, g);
      forall j | 0 <= j < |rest| ensures e.area(sorted[0]) >= e.area(rest[j]) {
        InsertedFrom(e, tail, g, rest[j]);
        if rest[j] != g {
          var k :| 0 <= k < |tail| && tail[k] == rest[j];
          assert tail[k] == sorted[k + 1];
        }
      }
      assert InsertByArea(e, sorted, g) == [sorted[0]] + rest;
    }
  }

  lemma {:induction false} WithAreaSingle(e: Engine, x: Ring, a: int)
    ensures WithArea(e, [x], a) == if e.area(x) == a then [x] else []
  {
    assert [x][..0] == [];
  }

  /** Every polygon of an insertion comes from the sorted list or is the one inserted. */
  lemma {:induction false} InsertedFrom(e: Engine, sorted: seq<Ring>, g: Ring, x: Ring)
    requires x in InsertByArea(e, sorted, g)
    ensures x in sorted || x == g
  {
    assert x in multiset(InsertByArea(e, sorted, g));
  }

  lemma {:induction false} NonIncreasingTail(e: Engine, gs: seq<Ring>)
    requires gs != [] && NonIncreasingArea(e, gs)
    ensures NonIncreasingArea(e, gs[1..])
  {
    var tail := gs[1..];
    forall i, j | 0 <= i < j < |tail| ensures e.area(tail[i]) >= e.area(tail[j]) {
      assert tail[i] == gs[i + 1] && tail[j] == gs[j + 1];
    }
  }

  lemma {:induction false} InsertByAreaWithArea(e: Engine, sorted: seq<Ring>, g: Ring, a: int)
    requires NonIncreasingArea(e, sorted)
    ensures WithArea(e, InsertByArea(e, sorted, g), a)
         == WithArea(e, sorted, a) + (if e.area(g) == a then [g] else [])
    decreases |sorted|
  {
    if sorted == [] {
      WithAreaSingle(e, g, a);
    } else if e.area(sorted[0]) < e.area(g) {
      assert InsertByArea(e, sorted, g) == [g] + sorted;
      InsertFrontWithArea(e, sorted, g, a);
    } else {
      var tail := sorted[1..];
      NonIncreasingTail(e, sorted);
      InsertByAreaWithArea(e, tail, g, a);
      assert InsertByArea(e, sorted, g) == [sorted[0]] + InsertByArea(e, tail, g);
      ConsWithArea(e, sorted[0], InsertByArea(e, tail, g), a);
      ConsWithArea(e, sorted[0], tail, a);
      assert [sorted[0]] + tail == sorted;
    }
  }

  /** A polygon larger than every sorted one goes first and adds only itself. */
  lemma {:induction false} InsertFrontWithArea(e: Engine, sorted: seq<Ring>, g: Ring, a: int)
    requires sorted != [] && NonIncreasingArea(e, sorted) && e.area(sorted[0]) < e.area(g)
    ensures WithArea(e, [g] + sorted, a) == WithArea(e, sorted, a) + (if e.area(g) == a then [g] else [])
  {
    WithAreaAppend(e, [g], sorted, a);
    WithAreaSingle(e, g, a);
    if e.area(g) == a {
      forall i | 0 <= i < |sorted| ensures e.area(sorted[i]) < a {
        if i > 0 {
          assert e.area(sorted[0]) >= e.area(sorted[i]);
        }
      }
      WithAreaNone(e, sorted, a);
    }
  }

  lemma {:induction false} ConsWithArea(e: Engine, x: Ring, s: seq<Ring>, a: int)
    ensures WithArea(e, [x] + s, a) == WithArea(e, [x], a) + WithArea(e, s, a)
  {
    WithAreaAppend(e, [x], s, a);
  }

  /** The sort orders by area, largest first. */
  lemma {:induction false} SortByAreaSorted(e: Engine, gs: seq<Ring>)
    ensures NonIncreasingArea(e, SortByArea(e, gs))
    decreases |gs|
  {
    if gs != [] {
      SortByAreaSorted(e, gs[..|gs| - 1]);
      InsertByAreaSorted(e, SortByArea(e, gs[..|gs| - 1]), gs[|gs| - 1]);
    }
  }

  /** The sort is stable: polygons of equal area keep the order they were built in. */
  lemma {:induction false} SortByAreaStable(e: Engine, gs: seq<Ring>, a: int)
    ensures WithArea(e, SortByArea(e, gs), a) == WithArea(e, gs, a)
    decreases |gs|
  {
    if gs != [] {
      SortByAreaSorted(e, gs[..|gs| - 1]);
      SortByAreaStable(e, gs[..|gs| - 1], a);
      InsertByAreaWithArea(e, SortByArea(e, gs[..|gs| - 1]), gs[|gs| - 1], a);
    }
  }

  // ---------------------------------------------------------------------------
  // Stage 3: roots, and the interior rings added to them
  // ---------------------------------------------------------------------------

  /** The roots built so far and the reports issued so far. */
  datatype Forest = Forest(roots: seq<Polygon>, reports: seq<Report>)

  /** The index of the first root that `g` intersects, or `|roots|` when there is none. */
  function FirstIntersecting(e: Engine, roots: seq<Polygon>, g: Ring): (i: nat)
    ensures i <= |roots|
    ensures forall j :: 0 <= j < i ==> !e.intersects(g, roots[j])
    ensures i < |roots| ==> e.intersects(g, roots[i])
    decreases |roots|
  {
    if roots == [] then 0
    else if e.intersects(g, roots[0]) then 0
    else 1 + FirstIntersecting(e, roots[1..], g)
  }

  /** The handling of one non-largest polygon `g`: only the first root it
      intersects is tried; `g` becomes an interior ring of that root when the
      engine accepts it and is dropped with one report when it does not; a
      polygon that intersects no root becomes a new root. */
  function Place(e: Engine, f: Forest, g: Ring): Forest
  {
    var i := FirstIntersecting(e, f.roots, g);
    if i == |f.roots| then Forest(f.roots + [[g]], f.reports)
    else
      var res := e.addRing(f.roots[i], g);
      if res.Success? then Forest(f.roots[i := f.roots[i] + [g]], f.reports)
      else Forest(f.roots, f.reports + [AddRingFailed(res.code)])
  }

  /** `Place`, case by case: a polygon that intersects no root becomes a new
      last root; otherwise only the first root it intersects is tried, and the
      polygon is appended to that root's rings when the engine accepts it, or
      dropped with exactly one report when it does not. */
  lemma {:induction false} PlaceFirstMatch(e: Engine, f: Forest, g: Ring)
    ensures (forall k :: 0 <= k < |f.roots| ==> !e.intersects(g, f.roots[k]))
              ==> Place(e, f, g) == Forest(f.roots + [[g]], f.reports)
    ensures forall k :: 0 <= k < |f.roots| && e.intersects(g, f.roots[k])
                        && (forall j :: 0 <= j < k ==> !e.intersects(g, f.roots[j])) ==>
              var res := e.addRing(f.roots[k], g);
              Place(e, f, g) == if res.Success? then Forest(f.roots[k := f.roots[k] + [g]], f.reports)
                                else Forest(f.roots, f.reports + [AddRingFailed(res.code)])
  {
    forall k | 0 <= k < |f.roots| && e.intersects(g, f.roots[k])
               && (forall j :: 0 <= j < k ==> !e.intersects(g, f.roots[j]))
      ensures FirstIntersecting(e, f.roots, g) == k
    {
      FirstIntersectingAt(e, f.roots, g, k);
    }
  }

  /** The first intersecting root is the one before which none intersects. */
  lemma {:induction false} FirstIntersectingAt(e: Engine, roots: seq<Polygon>, g: Ring, k: nat)
    requires k < |roots| && e.intersects(g, roots[k])
    requires forall j :: 0 <= j < k ==> !e.intersects(g, roots[j])
    ensures FirstIntersecting(e, roots, g) == k
    decreases k
  {
    if k > 0 {
      assert !e.intersects(g, roots[0]);
      FirstIntersectingAt(e, roots[1..], g, k - 1);
    }
  }

  /** True when `q` is `p` with zero or more rings appended. */
  ghost predicate Extends(p: Polygon, q: Polygon) {
    |p| <= |q| && q[..|p|] == p
  }

  /** The handling of the polygons `gs`, in order, starting from `f`. */
  function Assign(e: Engine, f: Forest, gs: seq<Ring>): Forest
    decreases |gs|
  {
    if gs == [] then f
    else Place(e, Assign(e, f, gs[..|gs| - 1]), gs[|gs| - 1])
  }

  /** Roots are never removed and only gain rings; earlier reports stay, and
      every new one is an add-ring failure. */
  lemma {:induction false} AssignGrows(e: Engine, f: Forest, gs: seq<Ring>)
    ensures var r := Assign(e, f, gs);
      && |f.roots| <= |r.roots|
      && (forall k :: 0 <= k < |f.roots| ==> Extends(f.roots[k], r.roots[k]))
      && |f.reports| <= |r.reports| && r.reports[..|f.reports|] == f.reports
      && (forall k :: |f.reports| <= k < |r.reports| ==> r.reports[k].AddRingFailed?)
    decreases |gs|
  {
    if gs != [] {
      AssignGrows(e, f, gs[..|gs| - 1]);
      var before := Assign(e, f, gs[..|gs| - 1]);
      var g := gs[|gs| - 1];
      var i := FirstIntersecting(e, before.roots, g);
      if i < |before.roots| && e.addRing(before.roots[i], g).Success? {
        var p := before.roots[i];
        forall k | 0 <= k < |f.roots| ensures Extends(f.roots[k], Assign(e, f, gs).roots[k]) {
          if k == i {
            assert (p + [g])[..|p|] == p;
          }
        }
      }
    }
  }

  /** The rings of the polygons, polygon by polygon. */
  function AllRings(ps: seq<Polygon>): seq<Ring>
  {
    if ps == [] then [] else ps[0] + AllRings(ps[1..])
  }

  lemma {:induction false} AllRingsAppend(ps: seq<Polygon>, p: Polygon)
    ensures AllRings(ps + [p]) == AllRings(ps) + p
  {
    if ps == [] {
      assert ps + [p] == [p];
    } else {
      assert (ps + [p])[1..] == ps[1..] + [p];
      AllRingsAppend(ps[1..], p);
    }
  }

  lemma {:induction false} AllRingsUpdate(ps: seq<Polygon>, k: nat, g: Ring)
    requires k < |ps|
    ensures multiset(AllRings(ps[k := ps[k] + [g]])) == multiset(AllRings(ps)) + multiset{g}
    ensures |AllRings(ps[k := ps[k] + [g]])| == |AllRings(ps)| + 1
  {
    var u := ps[k := ps[k] + [g]];
    assert AllRings(u) == u[0] + AllRings(u[1..]);
    assert AllRings(ps) == ps[0] + AllRings(ps[1..]);
    if k == 0 {
      assert u[1..] == ps[1..];
      assert u[0] == ps[0] + [g];
    } else {
      assert u[0] == ps[0];
      assert u[1..] == ps[1..][k - 1 := ps[k] + [g]];
      AllRingsUpdate(ps[1..], k - 1, g);
    }
  }

  /** Conservation: every polygon handed to `Assign` is either among the rings
      of the resulting roots or accounted for by exactly one new report. */
  lemma {:induction false} AssignConserves(e: Engine, f: Forest, gs: seq<Ring>)
    ensures multiset(AllRings(Assign(e, f, gs).roots)) <= multiset(AllRings(f.roots)) + multiset(gs)
    ensures |AllRings(Assign(e, f, gs).roots)| + |Assign(e, f, gs).reports|
         == |AllRings(f.roots)| + |f.reports| + |gs|
    decreases |gs|
  {
    if gs != [] {
      var init := gs[..|gs| - 1];
      var g := gs[|gs| - 1];
      assert gs == init + [g];
      AssignConserves(e, f, init);
      var before := Assign(e, f, init);
      var i := FirstIntersecting(e, before.roots, g);
      if i == |before.roots| {
        AllRingsAppend(before.roots, [g]);
      } else if e.addRing(before.roots[i], g).Success? {
        AllRingsUpdate(before.roots, i, g);
      }
    }
  }

  /** Every root has its exterior ring. */
  ghost predicate NonEmptyRoots(roots: seq<Polygon>) {
    forall k :: 0 <= k < |roots| ==> roots[k] != []
  }

  /** Roots are in non-increasing order of exterior area, and no interior
      ring of a root has a larger area than its exterior ring. */
  ghost predicate RootsOrdered(e: Engine, roots: seq<Polygon>) {
    && NonEmptyRoots(roots)
    && (forall i, j :: 0 <= i < j < |roots| ==>
          e.area(roots[i][0]) >= e.area(roots[j][0]))
    && (forall i, k :: 0 <= i < |roots| && 0 < k < |roots[i]| ==>
          e.area(roots[i][k]) <= e.area(roots[i][0]))
  }

  /** Every ring of every root has area at least `a`. */
  ghost predicate AllAtLeast(e: Engine, roots: seq<Polygon>, a: int) {
    forall i, k :: 0 <= i < |roots| && 0 <= k < |roots[i]| ==> e.area(roots[i][k]) >= a
  }

  lemma {:induction false} PlaceAtLeast(e: Engine, f: Forest, g: Ring, a: int)
    requires AllAtLeast(e, f.roots, a) && e.area(g) >= a
    ensures AllAtLeast(e, Place(e, f, g).roots, a)
  {
    var i := FirstIntersecting(e, f.roots, g);
    if i < |f.roots| && e.addRing(f.roots[i], g).Success? {
      var r := Place(e, f, g).roots;
      forall j, k | 0 <= j < |r| && 0 <= k < |r[j]| ensures e.area(r[j][k]) >= a {
        if j == i && k == |f.roots[i]| {
          assert r[j][k] == g;
        } else {
          assert r[j][k] == f.roots[j][k];
        }
      }
    }
  }

  /** A polygon no larger than every ring already placed keeps the order. */
  lemma {:induction false} PlaceOrdered(e: Engine, f: Forest, g: Ring)
    requires RootsOrdered(e, f.roots) && AllAtLeast(e, f.roots, e.area(g))
    ensures RootsOrdered(e, Place(e, f, g).roots)
  {
    var i := FirstIntersecting(e, f.roots, g);
    var r := Place(e, f, g).roots;
    if i == |f.roots| {
      assert r == f.roots + [[g]];
      forall j | 0 <= j < |f.roots| ensures e.area(r[j][0]) >= e.area(g) {
        assert r[j][0] == f.roots[j][0];
      }
    } else if e.addRing(f.roots[i], g).Success? {
      assert r == f.roots[i := f.roots[i] + [g]];
      forall j | 0 <= j < |r| ensures r[j] != [] && r[j][0] == f.roots[j][0] {
      }
      forall j, k | 0 <= j < |r| && 0 < k < |r[j]| ensures e.area(r[j][k]) <= e.area(r[j][0]) {
        if j == i && k == |f.roots[i]| {
          assert r[j][k] == g;
        } else {
          assert r[j][k] == f.roots[j][k];
        }
      }
    }
  }

  lemma {:induction false} AssignAtLeast(e: Engine, f: Forest, gs: seq<Ring>, a: int)
    requires AllAtLeast(e, f.roots, a)
    requires forall k :: 0 <= k < |gs| ==> e.area(gs[k]) >= a
    ensures AllAtLeast(e, Assign(e, f, gs).roots, a)
    decreases |gs|
  {
    if gs != [] {
      AssignAtLeast(e, f, gs[..|gs| - 1], a);
      PlaceAtLeast(e, Assign(e, f, gs[..|gs| - 1]), gs[|gs| - 1], a);
    }
  }

  /** Handing the polygons over largest first keeps the roots ordered: root
      exteriors come in non-increasing area, and each interior ring is no
      larger than the exterior of its root. */
  lemma {:induction false} AssignOrdered(e: Engine, f: Forest, gs: seq<Ring>)
    requires RootsOrdered(e, f.roots)
    requires NonIncreasingArea(e, gs)
    requires forall k :: 0 <= k < |gs| ==> AllAtLeast(e, f.roots, e.area(gs[k]))
    ensures RootsOrdered(e, Assign(e, f, gs).roots)
    decreases |gs|
  {
    if gs != [] {
      var init := gs[..|gs| - 1];
      var g := gs[|gs| - 1];
      AssignOrdered(e, f, init);
      AssignAtLeast(e, f, init, e.area(g));
      PlaceOrdered(e, Assign(e, f, init), g);
    }
  }

  // ---------------------------------------------------------------------------
  // Stage 4: flattening the roots into (ring, is-outer) pairs
  // ---------------------------------------------------------------------------

  /** The rings of one root, the first flagged outer and the others not. */
  function Tag(p: Polygon): seq<TaggedRing>
  {
    seq(|p|, k requires 0 <= k < |p| => TaggedRing(p[k], k == 0))
  }

  /** The rings of all roots, root by root. */
  function Flatten(roots: seq<Polygon>): seq<TaggedRing>
    decreases |roots|
  {
    if roots == [] then []
    else Flatten(roots[..|roots| - 1]) + Tag(roots[|roots| - 1])
  }

  /** Reading a flattened ring list back into polygons: an outer ring opens a
      new polygon and every other ring joins the polygon before it. */
  function Regroup(t: seq<TaggedRing>): seq<Polygon>
    decreases |t|
  {
    if t == [] then []
    else
      var init := Regroup(t[..|t| - 1]);
      var last := t[|t| - 1];
      if last.outer || init == [] then init + [[last.points]]
      else init[..|init| - 1] + [init[|init| - 1] + [last.points]]
  }

  /** The number of rings flagged outer. */
  function CountOuter(t: seq<TaggedRing>): nat
    decreases |t|
  {
    if t == [] then 0
    else CountOuter(t[..|t| - 1]) + (if t[|t| - 1].outer then 1 else 0)
  }

  /** The rings without their flags. */
  function Points(t: seq<TaggedRing>): seq<Ring>
  {
    seq(|t|, k requires 0 <= k < |t| => t[k].points)
  }

  /** One more ring: an outer one opens a polygon, another joins the last. */
  lemma {:induction false} RegroupSnoc(t: seq<TaggedRing>, x: TaggedRing)
    ensures var init := Regroup(t);
      Regroup(t + [x]) == if x.outer || init == [] then init + [[x.points]]
                          else init[..|init| - 1] + [init[|init| - 1] + [x.points]]
  {
    assert (t + [x])[..|t|] == t;
  }

  lemma {:induction false} RegroupTagPrefix(a: seq<TaggedRing>, p: Polygon, m: nat)
    requires 1 <= m <= |p|
    ensures Regroup(a + Tag(p)[..m]) == Regroup(a) + [p[..m]]
    decreases m
  {
    if m == 1 {
      RegroupTagFirst(a, p);
    } else {
      RegroupTagPrefix(a, p, m - 1);
      RegroupTagStep(a, p, m);
    }
  }

  lemma {:induction false} RegroupTagFirst(a: seq<TaggedRing>, p: Polygon)
    requires 1 <= |p|
    ensures Regroup(a + Tag(p)[..1]) == Regroup(a) + [p[..1]]
  {
    assert Tag(p)[..1] == [TaggedRing(p[0], true)];
    RegroupSnoc(a, TaggedRing(p[0], true));
    assert p[..1] == [p[0]];
  }

  lemma {:induction false} RegroupTagStep(a: seq<TaggedRing>, p: Polygon, m: nat)
    requires 2 <= m <= |p|
    requires Regroup(a + Tag(p)[..m - 1]) == Regroup(a) + [p[..m - 1]]
    ensures Regroup(a + Tag(p)[..m]) == Regroup(a) + [p[..m]]
  {
    var s := a + Tag(p)[..m - 1];
    TagSnoc(p, m);
    assert a + Tag(p)[..m] == s + [TaggedRing(p[m - 1], false)];
    RegroupJoin(s, TaggedRing(p[m - 1], false), Regroup(a), p[..m - 1]);
    assert p[..m - 1] + [p[m - 1]] == p[..m];
  }

  lemma {:induction false} TagSnoc(p: Polygon, m: nat)
    requires 2 <= m <= |p|
    ensures Tag(p)[..m] == Tag(p)[..m - 1] + [TaggedRing(p[m - 1], false)]
  {
  }

  lemma {:induction false} RegroupJoin(s: seq<TaggedRing>, x: TaggedRing, init: seq<Polygon>, q: Polygon)
    requires !x.outer && Regroup(s) == init + [q]
    ensures Regroup(s + [x]) == init + [q + [x.points]]
  {
    RegroupSnoc(s, x);
    assert (init + [q])[..|init|] == init;
  }

  lemma {:induction false} CountOuterAppend(s: seq<TaggedRing>, t: seq<TaggedRing>)
    ensures CountOuter(s + t) == CountOuter(s) + CountOuter(t)
    decreases |t|
  {
    if t == [] {
      assert s + t == s;
    } else {
      assert (s + t)[..|s + t| - 1] == s + t[..|t| - 1];
      assert (s + t)[|s + t| - 1] == t[|t| - 1];
      CountOuterAppend(s, t[..|t| - 1]);
    }
  }

  lemma {:induction false} CountOuterTagPrefix(p: Polygon, m: nat)
    requires 1 <= m <= |p|
    ensures CountOuter(Tag(p)[..m]) == 1
    decreases m
  {
    if m == 1 {
      assert Tag(p)[..1][..0] == [];
    } else {
      assert Tag(p)[..m][..m - 1] == Tag(p)[..m - 1];
      CountOuterTagPrefix(p, m - 1);
    }
  }

  lemma {:induction false} PointsAppend(s: seq<TaggedRing>, t: seq<TaggedRing>)
    ensures Points(s + t) == Points(s) + Points(t)
  {
  }

  /** Flattening loses nothing: regrouping the flattened roots gives the roots back. */
  lemma {:induction false} RegroupFlatten(roots: seq<Polygon>)
    requires NonEmptyRoots(roots)
    ensures Regroup(Flatten(roots)) == roots
    decreases |roots|
  {
    if roots != [] {
      var init := roots[..|roots| - 1];
      var p := roots[|roots| - 1];
      assert NonEmptyRoots(init) && |p| >= 1;
      RegroupFlatten(init);
      assert init + [p] == roots;
      RegroupFlattenStep(init, p);
    }
  }

  lemma {:induction false} RegroupFlattenStep(init: seq<Polygon>, p: Polygon)
    requires |p| >= 1 && Regroup(Flatten(init)) == init
    ensures Regroup(Flatten(init + [p])) == init + [p]
  {
    assert (init + [p])[..|init|] == init;
    assert Flatten(init + [p]) == Flatten(init) + Tag(p);
    assert Tag(p)[..|p|] == Tag(p);
    RegroupTagPrefix(Flatten(init), p, |p|);
    assert p[..|p|] == p;
  }

  /** Flattening flags exactly one ring per root as outer, lists the roots'
      rings in order, and starts with an outer ring. */
  lemma {:induction false} FlattenShape(roots: seq<Polygon>)
    requires NonEmptyRoots(roots)
    ensures CountOuter(Flatten(roots)) == |roots|
    ensures Points(Flatten(roots)) == AllRings(roots)
    ensures roots != [] ==> Flatten(roots) != [] && Flatten(roots)[0].outer
    decreases |roots|
  {
    if roots != [] {
      var init := roots[..|roots| - 1];
      var p := roots[|roots| - 1];
      FlattenShape(init);
      CountOuterAppend(Flatten(init), Tag(p));
      assert Tag(p)[..|p|] == Tag(p);
      CountOuterTagPrefix(p, |p|);
      PointsAppend(Flatten(init), Tag(p));
      assert Points(Tag(p)) == p;
      assert init + [p] == roots;
      AllRingsAppend(init, p);
      if init == [] {
        assert Flatten(roots)[0] == Tag(p)[0];
      }
    }
  }

  // ---------------------------------------------------------------------------
  // The whole face
  // ---------------------------------------------------------------------------

  /** What assembling one face yields: the outcome and the reports issued. */
  datatype Assembled = Assembled(outcome: Outcome, reports: seq<Report>)

  /** The assembly of one face from its rings. */
  function Assemble(e: Engine, feature: string, face: string, rings: seq<InputRing>): Assembled
  {
    var b := Construct(e, feature, face, rings);
    var geoms := SortByArea(e, b.geoms);
    if geoms == [] then Assembled(RaisedIndexError, b.reports)
    else
      var f := Assign(e, Forest([[geoms[0]]], b.reports), geoms[1..]);
      Assembled(Returned(Flatten(f.roots)), f.reports)
  }

  /** The face raises exactly when no ring builds (the empty face included),
      after one report per ring. */
  lemma {:induction false} AssembleRaisesIff(e: Engine, feature: string, face: string, rings: seq<InputRing>)
    ensures Assemble(e, feature, face, rings).outcome.RaisedIndexError?
        <==> forall r :: r in rings ==> !e.addPoints(r.points).Success?
    ensures Assemble(e, feature, face, rings).outcome.RaisedIndexError? ==>
              |Assemble(e, feature, face, rings).reports| == |rings|
  {
    var b := Construct(e, feature, face, rings);
    ConstructEmptyIff(e, feature, face, rings);
    assert |SortByArea(e, b.geoms)| == |b.geoms| by {
      assert |multiset(SortByArea(e, b.geoms))| == |multiset(b.geoms)|;
    }
  }

  /** On return, the result is well formed and accounts for every ring:
      - it starts with an outer ring, and regrouping it at the outer rings
        gives the roots, in non-increasing exterior area, each interior ring
        no larger than its exterior;
      - every returned ring is one the engine built, and every input ring is
        either returned or reported, exactly once. */
  lemma {:induction false} AssembleReturned(e: Engine, feature: string, face: string, rings: seq<InputRing>)
    requires Assemble(e, feature, face, rings).outcome.Returned?
    ensures var out := Assemble(e, feature, face, rings).outcome.rings;
      && out != [] && out[0].outer
      && CountOuter(out) == |Regroup(out)|
      && RootsOrdered(e, Regroup(out))
      && multiset(Points(out)) <= multiset(Construct(e, feature, face, rings).geoms)
      && |out| + |Assemble(e, feature, face, rings).reports| == |rings|
  {
    var b := Construct(e, feature, face, rings);
    var geoms := SortByArea(e, b.geoms);
    SortByAreaSorted(e, b.geoms);
    assert |geoms| == |b.geoms| by {
      assert |multiset(geoms)| == |multiset(b.geoms)|;
    }
    AssignSorted(e, geoms, b.reports);
    var f := Assign(e, Forest([[geoms[0]]], b.reports), geoms[1..]);
    assert Assemble(e, feature, face, rings) == Assembled(Returned(Flatten(f.roots)), f.reports);
  }

  /** With the polygons sorted, the largest as the only root meets the
      preconditions of `AssignOrdered` for the others. */
  lemma {:induction false} SeedBeforeRest(e: Engine, geoms: seq<Ring>)
    requires geoms != [] && NonIncreasingArea(e, geoms)
    ensures RootsOrdered(e, [[geoms[0]]])
    ensures NonIncreasingArea(e, geoms[1..])
    ensures forall k :: 0 <= k < |geoms| - 1 ==> AllAtLeast(e, [[geoms[0]]], e.area(geoms[1..][k]))
  {
    var rest := geoms[1..];
    forall i, j | 0 <= i < j < |rest| ensures e.area(rest[i]) >= e.area(rest[j]) {
      assert rest[i] == geoms[i + 1] && rest[j] == geoms[j + 1];
    }
    forall k | 0 <= k < |rest| ensures AllAtLeast(e, [[geoms[0]]], e.area(rest[k])) {
      assert rest[k] == geoms[k + 1];
    }
  }

  /** The roots and flattening stages on polygons sorted by area. */
  lemma {:induction false} AssignSorted(e: Engine, geoms: seq<Ring>, reports: seq<Report>)
    requires geoms != [] && NonIncreasingArea(e, geoms)
    ensures var f := Assign(e, Forest([[geoms[0]]], reports), geoms[1..]);
      var out := Flatten(f.roots);
      && out != [] && out[0].outer
      && CountOuter(out) == |Regroup(out)|
      && RootsOrdered(e, Regroup(out))
      && multiset(Points(out)) <= multiset(geoms)
      && |out| + |f.reports| == |geoms| + |reports|
  {
    var seed := Forest([[geoms[0]]], reports);
    var rest := geoms[1..];
    SeedBeforeRest(e, geoms);
    AssignOrdered(e, seed, rest);
    var f := Assign(e, seed, rest);
    RegroupFlatten(f.roots);
    FlattenShape(f.roots);
    AssignConserves(e, seed, rest);
    assert AllRings(seed.roots) == [geoms[0]];
    assert [geoms[0]] + rest == geoms;
    assert |Points(Flatten(f.roots))| == |Flatten(f.roots)|;
  }

  /** One root per polygon, each with no interior ring. */
  function Singletons(gs: seq<Ring>): seq<Polygon>
  {
    seq(|gs|, k requires 0 <= k < |gs| => [gs[k]])
  }

  lemma {:induction false} AssignDisjoint(e: Engine, gs: seq<Ring>, reports: seq<Report>, m: nat)
    requires 1 <= m <= |gs|
    requires forall i, j :: 0 <= j < i < |gs| ==> !e.intersects(gs[i], [gs[j]])
    ensures Assign(e, Forest([[gs[0]]], reports), gs[1..m]) == Forest(Singletons(gs[..m]), reports)
    decreases m
  {
    if m == 1 {
      assert Singletons(gs[..1]) == [[gs[0]]];
    } else {
      var g := gs[m - 1];
      assert gs[1..m][..m - 2] == gs[1..m - 1];
      assert gs[1..m][m - 2] == g;
      AssignDisjoint(e, gs, reports, m - 1);
      var roots := Singletons(gs[..m - 1]);
      forall k | 0 <= k < |roots| ensures !e.intersects(g, roots[k]) {
        assert roots[k] == [gs[k]];
      }
      assert Place(e, Forest(roots, reports), g) == Forest(roots + [[g]], reports) by {
        PlaceFirstMatch(e, Forest(roots, reports), g);
      }
      assert roots + [[g]] == Singletons(gs[..m]);
    }
  }

  lemma {:induction false} FlattenSingletons(gs: seq<Ring>)
    ensures Flatten(Singletons(gs)) == seq(|gs|, k requires 0 <= k < |gs| => TaggedRing(gs[k], true))
    decreases |gs|
  {
    if gs != [] {
      var init := gs[..|gs| - 1];
      assert Singletons(gs)[..|gs| - 1] == Singletons(init);
      FlattenSingletons(init);
    }
  }

  /** When no polygon intersects a larger-or-equal one handled before it,
      every polygon that builds comes back as an outer ring of its own, largest
      first, and the only reports are the construction failures. */
  lemma {:induction false} NoOverlapGivesOnePolygonEach(e: Engine, feature: string, face: string, rings: seq<InputRing>)
    requires var geoms := SortByArea(e, Construct(e, feature, face, rings).geoms);
      && geoms != []
      && forall i, j :: 0 <= j < i < |geoms| ==> !e.intersects(geoms[i], [geoms[j]])
    ensures var b := Construct(e, feature, face, rings);
      var geoms := SortByArea(e, b.geoms);
      Assemble(e, feature, face, rings)
        == Assembled(Returned(seq(|geoms|, k requires 0 <= k < |geoms| => TaggedRing(geoms[k], true))), b.reports)
  {
    var b := Construct(e, feature, face, rings);
    var geoms := SortByArea(e, b.geoms);
    AssignNoOverlap(e, geoms, b.reports);
    var f := Assign(e, Forest([[geoms[0]]], b.reports), geoms[1..]);
    assert Assemble(e, feature, face, rings) == Assembled(Returned(Flatten(f.roots)), f.reports);
  }

  /** The roots and flattening stages when no polygon intersects an earlier one. */
  lemma {:induction false} AssignNoOverlap(e: Engine, geoms: seq<Ring>, reports: seq<Report>)
    requires geoms != []
    requires forall i, j :: 0 <= j < i < |geoms| ==> !e.intersects(geoms[i], [geoms[j]])
    ensures var f := Assign(e, Forest([[geoms[0]]], reports), geoms[1..]);
      && f.reports == reports
      && Flatten(f.roots) == seq(|geoms|, k requires 0 <= k < |geoms| => TaggedRing(geoms[k], true))
  {
    AssignDisjoint(e, geoms, reports, |geoms|);
    assert geoms[1..|geoms|] == geoms[1..];
    assert geoms[..|geoms|] == geoms;
    FlattenSingletons(geoms);
  }

  lemma {:induction false} ConstructThree(e: Engine, feature: string, face: string, r0: InputRing, r1: InputRing, r2: InputRing)
    requires e.addPoints(r0.points) == Success && e.addPoints(r1.points) == Success
          && e.addPoints(r2.points) == Success
    ensures Construct(e, feature, face, [r0, r1, r2])
         == Built([e.exterior(r0.points), e.exterior(r1.points), e.exterior(r2.points)], [])
  {
    assert [r0, r1, r2][..2] == [r0, r1] && [r0, r1][..1] == [r0] && [r0][..0] == [];
    assert Construct(e, feature, face, [r0]) == Built([e.exterior(r0.points)], []);
  }

  lemma {:induction false} SortTwo(e: Engine, o: Ring, h1: Ring)
    requires e.area(o) > e.area(h1)
    ensures SortByArea(e, [o, h1]) == [o, h1]
  {
    assert [o, h1][..1] == [o];
    assert SortByArea(e, [o]) == [o] by {
      assert [o][..0] == [];
    }
    assert InsertByArea(e, [], h1) == [h1];
  }

  lemma {:induction false} InsertEqualLast(e: Engine, o: Ring, h1: Ring, h2: Ring)
    requires e.area(o) > e.area(h1) == e.area(h2)
    ensures InsertByArea(e, [o, h1], h2) == [o, h1, h2]
  {
    assert [o, h1][1..] == [h1];
    InsertAfterEqual(e, h1, h2);
    assert [o] + [h1, h2] == [o, h1, h2];
  }

  lemma {:induction false} InsertAfterEqual(e: Engine, h1: Ring, h2: Ring)
    requires e.area(h1) == e.area(h2)
    ensures InsertByArea(e, [h1], h2) == [h1, h2]
  {
    assert [h1][1..] == [];
    assert InsertByArea(e, [], h2) == [h2];
  }

  lemma {:induction false} SortThree(e: Engine, o: Ring, h1: Ring, h2: Ring)
    requires e.area(o) > e.area(h1) == e.area(h2)
    ensures SortByArea(e, [o, h1, h2]) == [o, h1, h2]
  {
    SortTwo(e, o, h1);
    InsertEqualLast(e, o, h1, h2);
    assert [o, h1, h2][..2] == [o, h1];
  }

  lemma {:induction false} AssignTwoHoles(e: Engine, o: Ring, h1: Ring, h2: Ring)
    requires e.intersects(h1, [o]) && e.addRing([o], h1) == Success
    requires e.intersects(h2, [o, h1]) && e.addRing([o, h1], h2) == Success
    ensures Assign(e, Forest([[o]], []), [h1, h2]) == Forest([[o, h1, h2]], [])
  {
    assert Place(e, Forest([[o]], []), h1) == Forest([[o, h1]], []) by {
      assert FirstIntersecting(e, [[o]], h1) == 0;
      assert [o] + [h1] == [o, h1];
      assert [[o]][0 := [o, h1]] == [[o, h1]];
    }
    assert Assign(e, Forest([[o]], []), [h1]) == Forest([[o, h1]], []) by {
      assert [h1][..0] == [];
    }
    assert Place(e, Forest([[o, h1]], []), h2) == Forest([[o, h1, h2]], []) by {
      assert FirstIntersecting(e, [[o, h1]], h2) == 0;
      assert [o, h1] + [h2] == [o, h1, h2];
      assert [[o, h1]][0 := [o, h1, h2]] == [[o, h1, h2]];
    }
    assert [h1, h2][..1] == [h1];
  }

  lemma {:induction false} FlattenOneRoot(o: Ring, h1: Ring, h2: Ring)
    ensures Flatten([[o, h1, h2]]) == [TaggedRing(o, true), TaggedRing(h1, false), TaggedRing(h2, false)]
  {
    assert [[o, h1, h2]][..0] == [];
    var t := Tag([o, h1, h2]);
    assert |t| == 3 && t[0] == TaggedRing(o, true) && t[1] == TaggedRing(h1, false) && t[2] == TaggedRing(h2, false);
  }

  /** An outer ring with two holes of equal area inside it: one polygon, the
      holes in input order, as the sort is stable and each hole goes to the
      first root it intersects. */
  lemma {:induction false} OuterWithTwoEqualHoles(e: Engine, feature: string, face: string, outer: InputRing, hole1: InputRing, hole2: InputRing)
    requires e.addPoints(outer.points) == Success && e.addPoints(hole1.points) == Success
          && e.addPoints(hole2.points) == Success
    requires var o, h1, h2 := e.exterior(outer.points), e.exterior(hole1.points), e.exterior(hole2.points);
      && e.area(o) > e.area(h1) == e.area(h2)
      && e.intersects(h1, [o]) && e.addRing([o], h1) == Success
      && e.intersects(h2, [o, h1]) && e.addRing([o, h1], h2) == Success
    ensures var o, h1, h2 := e.exterior(outer.points), e.exterior(hole1.points), e.exterior(hole2.points);
      Assemble(e, feature, face, [outer, hole1, hole2])
        == Assembled(Returned([TaggedRing(o, true), TaggedRing(h1, false), TaggedRing(h2, false)]), [])
  {
    var o, h1, h2 := e.exterior(outer.points), e.exterior(hole1.points), e.exterior(hole2.points);
    ConstructThree(e, feature, face, outer, hole1, hole2);
    var b := Construct(e, feature, face, [outer, hole1, hole2]);
    SortThree(e, o, h1, h2);
    var geoms := SortByArea(e, b.geoms);
    assert geoms[0] == o && geoms[1..] == [h1, h2];
    AssignTwoHoles(e, o, h1, h2);
    var f := Assign(e, Forest([[geoms[0]]], b.reports), geoms[1..]);
    assert f == Forest([[o, h1, h2]], []);
    FlattenOneRoot(o, h1, h2);
  }
}
