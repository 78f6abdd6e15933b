/** Sizing the lock windows: each covers the extents of its monitor minus all lower monitors.

    A cairo region is the set of its points. */
module Geometry {
  datatype Point = Point(x: int, y: int)

  datatype Rect = Rect(x: int, y: int, width: int, height: int)

  predicate Inside(p: Point, r: Rect) {
    r.x <= p.x < r.x + r.width && r.y <= p.y < r.y + r.height
  }

  function Points(r: Rect): (s: set<Point>)
    ensures forall p :: p in s <==> Inside(p, r)
  {
    set x, y | r.x <= x < r.x + r.width && r.y <= y < r.y + r.height :: Point(x, y)
  }

  /** The point lies in one of the first n monitors. */
  predicate Lower(monitors: seq<Rect>, n: nat, p: Point)
    requires n <= |monitors|
  {
    exists i :: 0 <= i < n && Inside(p, monitors[i])
  }

  /** The part of monitor i that no lower monitor shows. */
  predicate Own(monitors: seq<Rect>, i: nat, p: Point)
    requires i < |monitors|
  {
    Inside(p, monitors[i]) && !Lower(monitors, i, p)
  }

  /** What cairo_region_get_extents returns: the smallest rectangle around the points, that is one
      with a point on each side, or an empty one somewhere if there are no points. */
  predicate IsExtents(region: set<Point>, r: Rect) {
    if region == {} then r.width == 0 && r.height == 0
    else
      && (forall p :: p in region ==> Inside(p, r))
      && (exists p :: p in region && p.x == r.x)
      && (exists p :: p in region && p.x == r.x + r.width - 1)
      && (exists p :: p in region && p.y == r.y)
      && (exists p :: p in region && p.y == r.y + r.height - 1)
  }

  /** Growing a rectangle to take in a point. */
  function Include(r: Rect, p: Point): Rect {
    var x0 := if p.x < r.x then p.x else r.x;
    var y0 := if p.y < r.y then p.y else r.y;
    var x1 := if p.x >= r.x + r.width then p.x + 1 else r.x + r.width;
    var y1 := if p.y >= r.y + r.height then p.y + 1 else r.y + r.height;
    Rect(x0, y0, x1 - x0, y1 - y0)
  }

  lemma IncludeExtends(region: set<Point>, r: Rect, p: Point)
    requires region != {} && IsExtents(region, r)
    ensures IsExtents(region + {p}, Include(r, p))
  {
    var t := Include(r, p);
    var big := region + {p};
    assert p in big;
    var a :| a in region && a.x == r.x;
    var b :| b in region && b.x == r.x + r.width - 1;
    var c :| c in region && c.y == r.y;
    var d :| d in region && d.y == r.y + r.height - 1;
    assert a in big && b in big && c in big && d in big;
    assert Inside(a, r) && Inside(b, r) && Inside(c, r) && Inside(d, r);
  }

  method GetExtents(region: set<Point>) returns (r: Rect)
    ensures IsExtents(region, r)
  {
    if region == {} {
      return Rect(0, 0, 0, 0);
    }
    var first :| first in region;
    r := Rect(first.x, first.y, 1, 1);
    var rest, seen := region - {first}, {first};
    assert IsExtents(seen, r);
    while rest != {}
      invariant seen != {} && seen + rest == region
      invariant IsExtents(seen, r)
      decreases rest
    {
      var p :| p in rest;
      IncludeExtends(seen, r, p);
      r := Include(r, p);
      rest, seen := rest - {p}, seen + {p};
    }
    assert seen == region;
  }

  /** A lock window and its monitor. */
  class Window {
    var monitor: nat
    var geometry: Rect

    constructor (monitor: nat)
      ensures this.monitor == monitor
    {
      this.monitor := monitor;
      geometry := Rect(0, 0, 0, 0);
    }

    method GetOutsideRegion(monitors: seq<Rect>) returns (region: set<Point>)
      requires monitor <= |monitors|
      ensures forall p :: p in region <==> Lower(monitors, monitor, p)
    {
      region := {};
      for i := 0 to monitor
        invariant forall p :: p in region <==> Lower(monitors, i, p)
      {
        ghost var before := region;
        region := region + Points(monitors[i]);
        forall p ensures p in region <==> Lower(monitors, i + 1, p) {
          assert Lower(monitors, i + 1, p) <==> Lower(monitors, i, p) || Inside(p, monitors[i]);
        }
      }
    }

    method UpdateGeometry(monitors: seq<Rect>)
      requires monitor < |monitors|
      modifies this`geometry
      ensures Sized(monitors, monitor, geometry)
    {
      var outside := GetOutsideRegion(monitors);
      var region := Points(monitors[monitor]) - outside;
      geometry := GetExtents(region);
      assert forall p :: p in region <==> Own(monitors, monitor, p);
    }
  }

  /** The geometry of the window of monitor i: the extents of what is its own. */
  ghost predicate Sized(monitors: seq<Rect>, i: nat, geometry: Rect)
    requires i < |monitors|
  {
    exists region :: IsExtents(region, geometry) && forall p :: p in region <==> Own(monitors, i, p)
  }

  /** One window per monitor, in the order of the monitors, each of them sized. */
  method CreateWindows(monitors: seq<Rect>) returns (windows: seq<Window>)
    ensures |windows| == |monitors| && fresh(windows)
    ensures forall i :: 0 <= i < |windows| ==> windows[i].monitor == i && Sized(monitors, i, windows[i].geometry)
    ensures forall p :: Lower(monitors, |monitors|, p) ==>
      exists i :: 0 <= i < |windows| && Inside(p, windows[i].geometry)
  {
    windows := [];
    for i := 0 to |monitors|
      invariant |windows| == i && fresh(windows)
      invariant forall k :: 0 <= k < i ==> windows[k].monitor == k && Sized(monitors, k, windows[k].geometry)
    {
      var window := new Window(i);
      window.UpdateGeometry(monitors);
      windows := windows + [window];
    }
    ghost var sizes := seq(|windows|, i requires 0 <= i < |windows| reads windows => windows[i].geometry);
    forall p | Lower(monitors, |monitors|, p) ensures exists i :: 0 <= i < |windows| && Inside(p, windows[i].geometry) {
      var i := Covered(monitors, sizes, p, |monitors|);
      assert Inside(p, windows[i].geometry);
    }
  }

  // ---------------------------------------------------------------- what the sizes give

  ghost predicate AllSized(monitors: seq<Rect>, sizes: seq<Rect>) {
    |sizes| == |monitors| && forall i :: 0 <= i < |sizes| ==> Sized(monitors, i, sizes[i])
  }

  /** COVERAGE. For any layout, overlapping or mirrored, a point of any monitor is in a window. */
  lemma {:induction false} Covered(monitors: seq<Rect>, sizes: seq<Rect>, p: Point, n: nat) returns (i: nat)
    requires AllSized(monitors, sizes) && n <= |monitors| && Lower(monitors, n, p)
    ensures i < |sizes| && Inside(p, sizes[i])
  {
    var k :| 0 <= k < n && Inside(p, monitors[k]);
    if Lower(monitors, k, p) {
      i := Covered(monitors, sizes, p, k);
    } else {
      i := k;
      assert Own(monitors, k, p) && Sized(monitors, k, sizes[k]);
    }
  }

  /** A window does not reach outside its own monitor. */
  lemma StaysInside(monitors: seq<Rect>, i: nat, geometry: Rect, p: Point)
    requires i < |monitors| && Sized(monitors, i, geometry) && Inside(p, geometry)
    ensures Inside(p, monitors[i])
  {
  }

  /** The size is minimal: a rectangle around the part that is only this monitor's contains the window. */
  lemma Smallest(monitors: seq<Rect>, i: nat, geometry: Rect, other: Rect, p: Point)
    requires i < |monitors| && Sized(monitors, i, geometry) && Inside(p, geometry)
    requires forall q :: Own(monitors, i, q) ==> Inside(q, other)
    ensures Inside(p, other)
  {
  }

  /** A monitor that shares no point with a lower one gets exactly its own rectangle. */
  lemma DisjointGetsAll(monitors: seq<Rect>, i: nat, geometry: Rect)
    requires i < |monitors| && Sized(monitors, i, geometry)
    requires monitors[i].width > 0 && monitors[i].height > 0
    requires forall p :: Inside(p, monitors[i]) ==> !Lower(monitors, i, p)
    ensures geometry == monitors[i]
  {
    var m := monitors[i];
    var first, last := Point(m.x, m.y), Point(m.x + m.width - 1, m.y + m.height - 1);
    assert Inside(first, m) && Inside(last, m);
    assert Own(monitors, i, first) && Own(monitors, i, last);
  }

  /** The first monitor is covered completely by its own window, and a monitor that mirrors a lower one
      has an empty window. */
  lemma FirstAndMirrored(monitors: seq<Rect>, i: nat, geometry: Rect)
    requires i < |monitors| && Sized(monitors, i, geometry)
    requires monitors[i].width > 0 && monitors[i].height > 0
    ensures i == 0 ==> geometry == monitors[0]
    ensures (exists j :: 0 <= j < i && monitors[j] == monitors[i]) ==> geometry.width == 0 && geometry.height == 0
  {
    if i == 0 {
      DisjointGetsAll(monitors, 0, geometry);
    }
    if j :| 0 <= j < i && monitors[j] == monitors[i] {
      assert forall p :: Inside(p, monitors[i]) ==> Inside(p, monitors[j]);
    }
  }

  /** A window is empty exactly when lower monitors show all of its monitor. */
  lemma EmptyIffHidden(monitors: seq<Rect>, i: nat, geometry: Rect)
    requires i < |monitors| && Sized(monitors, i, geometry)
    ensures (geometry.width == 0 || geometry.height == 0)
        == (forall p :: Inside(p, monitors[i]) ==> Lower(monitors, i, p))
  {
    if p :| Inside(p, monitors[i]) && !Lower(monitors, i, p) {
      assert Own(monitors, i, p);
    }
  }
}
