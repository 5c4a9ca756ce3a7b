/**
 * The sketch-to-route page of the web client (client/src/app/page.tsx):
 * converting the drawing surface's strokes to latitude/longitude waypoints,
 * pairing the returned waypoints into polyline segments, the initial map
 * bounds, and the submit flow over the page's state.
 *
 * The drawing surface, the export of the drawing to an image, the request
 * to the route service and the base64 decoding are external; the submit
 * flow receives their combined outcome as a parameter.
 */
module DrawingPage {
  import opened Wrappers

  datatype LatLng = LatLng(lat: real, lon: real)

  /** A rectangle given by its south-west and north-east corners. */
  datatype Bounds = Bounds(southWest: LatLng, northEast: LatLng)

  predicate Contains(b: Bounds, p: LatLng) {
    b.southWest.lat <= p.lat <= b.northEast.lat && b.southWest.lon <= p.lon <= b.northEast.lon
  }

  /** Geographic extent of the drawing surface: west minus east longitude, north minus south latitude. */
  const BoxWidth: real := -117.846837 - -117.837999
  const BoxHeight: real := 33.648 - 33.6432

  /** The center used until geolocation or a search result replaces it. */
  const DefaultCenter: LatLng := LatLng(34.06886, -118.435036)

  /** BoxWidth is negative and BoxHeight positive. */
  lemma BoxExtents()
    ensures BoxWidth == -0.008838 && BoxWidth < 0.0
    ensures BoxHeight == 0.0048 && BoxHeight > 0.0
  {
  }

  /** The square of half-side 0.003 degrees around the center. */
  function InitialBounds(center: LatLng): (b: Bounds)
    ensures Contains(b, center)
    ensures b.northEast.lat - b.southWest.lat == 0.006 && b.northEast.lon - b.southWest.lon == 0.006
    ensures b.northEast.lat - center.lat == center.lat - b.southWest.lat
    ensures b.northEast.lon - center.lon == center.lon - b.southWest.lon
  {
    Bounds(LatLng(center.lat - 0.003, center.lon - 0.003), LatLng(center.lat + 0.003, center.lon + 0.003))
  }

  /** A drawing element: its type, its offset on the surface and its points relative to that offset. */
  datatype Element = Element(kind: string, x: real, y: real, points: seq<(real, real)>)

  /** Only freehand strokes and lines are converted. */
  predicate IsDrawn(el: Element) {
    el.kind == "freedraw" || el.kind == "line"
  }

  /** One point of an element, as a waypoint relative to the center. */
  function ToWaypoint(el: Element, p: (real, real), center: LatLng, width: real, height: real): (r: LatLng)
    requires width != 0.0 && height != 0.0
    ensures (center.lon - r.lon) / BoxWidth * width == el.x + p.0
    ensures (center.lat - r.lat) / BoxHeight * height == el.y + p.1
  {
    BoxExtents();
    var fractionX := (el.x + p.0) / width;
    var fractionY := (el.y + p.1) / height;
    LatLng(center.lat - fractionY * BoxHeight, center.lon - fractionX * BoxWidth)
  }

  /** The waypoints of one element, in point order (none unless it is drawn). */
  function ElementWaypoints(el: Element, center: LatLng, width: real, height: real): (r: seq<LatLng>)
    requires width != 0.0 && height != 0.0
    ensures |r| == if IsDrawn(el) then |el.points| else 0
  {
    if IsDrawn(el) then
      seq(|el.points|, j requires 0 <= j < |el.points| => ToWaypoint(el, el.points[j], center, width, height))
    else []
  }

  /** The waypoints of a scene: element order, then point order. */
  function SceneWaypoints(elements: seq<Element>, center: LatLng, width: real, height: real): seq<LatLng>
    requires width != 0.0 && height != 0.0
  {
    if elements == [] then []
    else
      var n := |elements| - 1;
      SceneWaypoints(elements[..n], center, width, height) + ElementWaypoints(elements[n], center, width, height)
  }

  /** The number of points of the drawn elements. */
  function DrawnPointCount(elements: seq<Element>): nat
  {
    if elements == [] then 0
    else
      var n := |elements| - 1;
      DrawnPointCount(elements[..n]) + (if IsDrawn(elements[n]) then |elements[n].points| else 0)
  }

  /** The nested forEach of submitDrawing that pushes every converted point into newWaypoints. */
  method ConvertScene(elements: seq<Element>, center: LatLng, width: real, height: real)
    returns (newWaypoints: seq<LatLng>)
    requires width != 0.0 && height != 0.0
    ensures newWaypoints == SceneWaypoints(elements, center, width, height)
  {
    newWaypoints := [];
    var e := 0;
    while e < |elements|
      invariant 0 <= e <= |elements|
      invariant newWaypoints == SceneWaypoints(elements[..e], center, width, height)
    {
      var element := elements[e];
      ghost var before := newWaypoints;
      if element.kind == "freedraw" || element.kind == "line" {
        var j := 0;
        while j < |element.points|
          invariant 0 <= j <= |element.points|
          invariant newWaypoints == before + ElementWaypoints(element, center, width, height)[..j]
        {
          var point := element.points[j];
          var deltaX := element.x + point.0;
          var deltaY := element.y + point.1;
          var fractionX := deltaX / width;
          var fractionY := deltaY / height;
          var lat := center.lat - fractionY * BoxHeight;
          var long := center.lon - fractionX * BoxWidth;
          assert LatLng(lat, long) == ToWaypoint(element, point, center, width, height);
          assert ElementWaypoints(element, center, width, height)[..j + 1]
              == ElementWaypoints(element, center, width, height)[..j] + [LatLng(lat, long)];
          newWaypoints := newWaypoints + [LatLng(lat, long)];
          j := j + 1;
        }
        assert ElementWaypoints(element, center, width, height)[..j] == ElementWaypoints(element, center, width, height);
      }
      assert elements[..e + 1][..e] == elements[..e];
      e := e + 1;
    }
    assert elements[..e] == elements;
  }

  /** One waypoint per point of a drawn element. */
  lemma {:induction false} SceneWaypointsLength(elements: seq<Element>, center: LatLng, width: real, height: real)
    requires width != 0.0 && height != 0.0
    ensures |SceneWaypoints(elements, center, width, height)| == DrawnPointCount(elements)
  {
    if elements != [] {
      SceneWaypointsLength(elements[..|elements| - 1], center, width, height);
    }
  }

  lemma {:induction false} DrawnPointCountMonotone(elements: seq<Element>, m: nat)
    requires m <= |elements|
    ensures DrawnPointCount(elements[..m]) <= DrawnPointCount(elements)
    decreases |elements| - m
  {
    if m < |elements| {
      var p := elements[..m + 1];
      assert p[..m] == elements[..m];
      DrawnPointCountMonotone(elements, m + 1);
      assert elements[..|elements|] == elements;
    } else {
      assert elements[..m] == elements;
    }
  }

  /**
   * Order: point j of drawn element k is waypoint number (points of the drawn
   * elements before k) + j.
   */
  lemma {:induction false} SceneWaypointsAt(elements: seq<Element>, center: LatLng, width: real, height: real, k: nat, j: nat)
    requires width != 0.0 && height != 0.0
    requires k < |elements| && IsDrawn(elements[k]) && j < |elements[k].points|
    ensures DrawnPointCount(elements[..k]) + j < |SceneWaypoints(elements, center, width, height)|
    ensures SceneWaypoints(elements, center, width, height)[DrawnPointCount(elements[..k]) + j]
         == ToWaypoint(elements[k], elements[k].points[j], center, width, height)
  {
    var n := |elements| - 1;
    var pre := elements[..n];
    SceneWaypointsLength(pre, center, width, height);
    if k < n {
      assert pre[k] == elements[k] && pre[..k] == elements[..k];
      SceneWaypointsAt(pre, center, width, height, k, j);
    } else {
      assert elements[..k] == pre;
    }
  }

  /** Conversely, every waypoint is the conversion of some point of some drawn element. */
  lemma {:induction false} SceneWaypointsFrom(elements: seq<Element>, center: LatLng, width: real, height: real, i: nat)
    requires width != 0.0 && height != 0.0
    requires i < |SceneWaypoints(elements, center, width, height)|
    ensures exists k, j :: 0 <= k < |elements| && IsDrawn(elements[k]) && 0 <= j < |elements[k].points| &&
              SceneWaypoints(elements, center, width, height)[i]
                == ToWaypoint(elements[k], elements[k].points[j], center, width, height)
  {
    var n := |elements| - 1;
    var pre := elements[..n];
    var head := SceneWaypoints(pre, center, width, height);
    if i < |head| {
      SceneWaypointsFrom(pre, center, width, height, i);
      var k, j :| 0 <= k < |pre| && IsDrawn(pre[k]) && 0 <= j < |pre[k].points| &&
                  head[i] == ToWaypoint(pre[k], pre[k].points[j], center, width, height);
      assert pre[k] == elements[k];
    } else {
      var j := i - |head|;
      assert SceneWaypoints(elements, center, width, height)[i]
          == ToWaypoint(elements[n], elements[n].points[j], center, width, height);
    }
  }

  /** A point at the surface origin maps exactly to the center. */
  lemma OriginMapsToCenter(el: Element, p: (real, real), center: LatLng, width: real, height: real)
    requires width != 0.0 && height != 0.0
    requires el.x + p.0 == 0.0 && el.y + p.1 == 0.0
    ensures ToWaypoint(el, p, center, width, height) == center
  {
  }

  /** The far corner of the surface maps to the center shifted by the whole box. */
  lemma FarCornerMapsToBoxCorner(el: Element, p: (real, real), center: LatLng, width: real, height: real)
    requires width != 0.0 && height != 0.0
    requires el.x + p.0 == width && el.y + p.1 == height
    ensures ToWaypoint(el, p, center, width, height) == LatLng(center.lat - BoxHeight, center.lon - BoxWidth)
  {
  }

  lemma DivideMonotone(a: real, b: real, w: real)
    requires 0.0 < w && a < b
    ensures a / w < b / w
  {
  }

  /**
   * On a surface of positive size, moving right increases the longitude and
   * moving down decreases the latitude.
   */
  lemma Orientation(el1: Element, p1: (real, real), el2: Element, p2: (real, real), center: LatLng, width: real, height: real)
    requires 0.0 < width && 0.0 < height
    ensures el1.x + p1.0 < el2.x + p2.0 ==>
              ToWaypoint(el1, p1, center, width, height).lon < ToWaypoint(el2, p2, center, width, height).lon
    ensures el1.y + p1.1 < el2.y + p2.1 ==>
              ToWaypoint(el1, p1, center, width, height).lat > ToWaypoint(el2, p2, center, width, height).lat
  {
    if el1.x + p1.0 < el2.x + p2.0 {
      DivideMonotone(el1.x + p1.0, el2.x + p2.0, width);
      ScaleByNegative((el1.x + p1.0) / width, (el2.x + p2.0) / width);
    }
    if el1.y + p1.1 < el2.y + p2.1 {
      DivideMonotone(el1.y + p1.1, el2.y + p2.1, height);
      ScaleByPositive((el1.y + p1.1) / height, (el2.y + p2.1) / height);
    }
  }

  lemma ScaleByNegative(a: real, b: real)
    requires a < b
    ensures a * BoxWidth > b * BoxWidth
  {
    BoxExtents();
  }

  lemma ScaleByPositive(a: real, b: real)
    requires a < b
    ensures a * BoxHeight < b * BoxHeight
  {
    BoxExtents();
  }

  /**
   * waypointsPaired: the reduce that pushes [cur] and appends cur to the
   * previous entry. Entry i is the segment [w_i, w_(i+1)], and the last entry
   * is the single last waypoint.
   */
  method PairWaypoints(waypoints: seq<LatLng>) returns (acc: seq<seq<LatLng>>)
    ensures |acc| == |waypoints|
    ensures forall i :: 0 <= i < |waypoints| - 1 ==> acc[i] == [waypoints[i], waypoints[i + 1]]
    ensures |waypoints| > 0 ==> acc[|waypoints| - 1] == [waypoints[|waypoints| - 1]]
    ensures forall i :: 0 <= i < |acc| ==> |acc[i]| > 0 && acc[i][0] == waypoints[i]
  {
    acc := [];
    var index := 0;
    while index < |waypoints|
      invariant 0 <= index <= |waypoints|
      invariant |acc| == index
      invariant forall i :: 0 <= i < index - 1 ==> acc[i] == [waypoints[i], waypoints[i + 1]]
      invariant index > 0 ==> acc[index - 1] == [waypoints[index - 1]]
      invariant forall i :: 0 <= i < index ==> |acc[i]| > 0 && acc[i][0] == waypoints[i]
    {
      var cur := waypoints[index];
      acc := acc + [[cur]];
      if index > 0 {
        acc := acc[index - 1 := acc[index - 1] + [cur]];
      }
      index := index + 1;
    }
  }

  /** What the drawing API reports at submit time. */
  datatype Scene = Scene(elements: seq<Element>, width: real, height: real)

  /** The step that raised: exporting the drawing, the request to the route service, or decoding its file. */
  datatype Stage = Export | Request | Decode

  /** The route service's answer: the route's points and the base64 track file. */
  datatype Reply = Reply(points: seq<LatLng>, gpxFile: string)

  /**
   * The combined outcome of the external steps of one submission: one of
   * them threw, or all succeeded and the decoded file got the object handle
   * `handle` (its URL is "blob:" followed by the handle).
   */
  datatype SubmitOutcome = Threw(stage: Stage) | Completed(reply: Reply, handle: string)

  const GpxFilename: string := "encoded_data.gpx"

  /** The page's state that the submit flow reads and writes. */
  class Page {
    var center: LatLng
    var mapBounds: Option<Bounds>
    var waypoints: seq<LatLng>
    var loading: bool
    var gpxHref: string
    var gpxFilename: string
    /** Every value passed to setLoading, in order. */
    ghost var loadingLog: seq<bool>

    constructor ()
      ensures center == DefaultCenter && mapBounds == Some(InitialBounds(DefaultCenter))
      ensures waypoints == [] && !loading && gpxHref == "" && gpxFilename == ""
      ensures loadingLog == []
      ensures !DownloadEnabled() && Valid()
    {
      center := DefaultCenter;
      mapBounds := Some(InitialBounds(DefaultCenter));
      waypoints := [];
      loading := false;
      gpxHref := "";
      gpxFilename := "";
      loadingLog := [];
    }

    /** A track file link, once set, is an object URL and comes with the track file name. */
    ghost predicate Valid()
      reads this
    {
      gpxHref != "" ==> gpxFilename == GpxFilename && |gpxHref| >= 5 && gpxHref[..5] == "blob:"
    }

    /**
     * The download button is enabled exactly when a track file link exists;
     * an enabled button downloads an object URL under the track file name.
     */
    predicate DownloadEnabled()
      reads this
      ensures Valid() && DownloadEnabled() ==> gpxFilename == GpxFilename && "blob:" <= gpxHref
    {
      gpxHref != ""
    }

    /**
     * submitDrawing. Without a drawing API nothing happens. Otherwise loading
     * is set, the local waypoints are computed (and, as in the source, never
     * used), and the external steps run; only if all of them succeed are the
     * link, the file name and the server's waypoints stored. Loading is
     * cleared whether the steps succeeded or threw (try/finally); a throw is
     * passed on to the caller as `rejected`.
     */
    method SubmitDrawing(api: Option<Scene>, outcome: SubmitOutcome) returns (rejected: bool)
      modifies this
      ensures api.None? ==> unchanged(this) && !rejected
      ensures api.Some? ==> !loading && loadingLog == old(loadingLog) + [true, false]
      ensures rejected <==> api.Some? && outcome.Threw?
      ensures api.Some? && outcome.Completed? ==>
                gpxHref == "blob:" + outcome.handle && gpxFilename == GpxFilename &&
                waypoints == outcome.reply.points && DownloadEnabled()
      ensures outcome.Threw? ==>
                gpxHref == old(gpxHref) && gpxFilename == old(gpxFilename) && waypoints == old(waypoints)
      ensures center == old(center) && mapBounds == old(mapBounds)
      ensures old(Valid()) ==> Valid()
    {
      if api.None? {
        return false;
      }
      loading := true;
      loadingLog := loadingLog + [true];

      var scene := api.value;
      if scene.width != 0.0 && scene.height != 0.0 {
        // newWaypoints is computed and then discarded by the source
        var newWaypoints := ConvertScene(scene.elements, center, scene.width, scene.height);
      }

      match outcome {
        case Threw(_) =>
          rejected := true;
        case Completed(reply, handle) =>
          gpxHref := "blob:" + handle;
          gpxFilename := GpxFilename;
          waypoints := reply.points;
          rejected := false;
      }

      // finally
      loading := false;
      loadingLog := loadingLog + [false];
    }
  }

  /**
   * A fresh page whose first submission has no drawing API or throws, then
   * whose second submission completes: the download stays disabled with no
   * waypoints after the first, and is enabled after the second, with the
   * server's points shown and loading cleared.
   */
  method DownloadLifecycle(first: Option<Scene>, firstOutcome: SubmitOutcome, second: Scene, secondReply: Reply, handle: string)
    returns (enabledAfterFirst: bool, waypointsAfterFirst: seq<LatLng>,
             enabledAfterSecond: bool, waypointsAfterSecond: seq<LatLng>, loadingAfterSecond: bool, filenameAfterSecond: string)
    requires first.None? || firstOutcome.Threw?
    ensures !enabledAfterFirst && waypointsAfterFirst == []
    ensures enabledAfterSecond && waypointsAfterSecond == secondReply.points && !loadingAfterSecond
    ensures filenameAfterSecond == GpxFilename
  {
    var page := new Page();
    var rejected := page.SubmitDrawing(first, firstOutcome);
    enabledAfterFirst, waypointsAfterFirst := page.DownloadEnabled(), page.waypoints;
    rejected := page.SubmitDrawing(Some(second), Completed(secondReply, handle));
    enabledAfterSecond, waypointsAfterSecond := page.DownloadEnabled(), page.waypoints;
    loadingAfterSecond, filenameAfterSecond := page.loading, page.gpxFilename;
  }
}
