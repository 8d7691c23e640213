/** The waypoint list of the map page (`MapApp` in `map.js`): the chosen
    points in route order, the green marker kept for each under the key
    `"lat,lng"`, the drawn route layer, and the snapshots taken from them
    for export, for the route form and for the navigation request.

    Leaflet markers are reduced to what the list keeps in them: the spot
    they stand on and the popup's number and remove-button index.
    Coordinates are whole numbers, for which `"lat,lng"` names one point.
 */
module RoutePoints {
  import opened Wrappers
  import Text

  datatype Point = Point(lat: int, lng: int, name: string)

  /** The `"lat,lng"` key of `routeMarkers`. */
  datatype Key = Key(lat: int, lng: int)

  /** A route marker: where it stands, and its popup ("#number", the
      point's name, and the `data-index` of its remove button). */
  datatype Marker = Marker(lat: int, lng: int, name: string, number: int, dataIndex: int)

  datatype RouteState = RouteState(points: seq<Point>, markers: map<Key, Marker>, hasRouteLayer: bool)

  function KeyOf(p: Point): Key
  {
    Key(p.lat, p.lng)
  }

  /** The marker of `p` as the list at position `i` labels it. */
  function MarkerAt(p: Point, i: int): Marker
  {
    Marker(p.lat, p.lng, p.name, i + 1, i)
  }

  function Keys(points: seq<Point>): set<Key>
  {
    set p | p in points :: KeyOf(p)
  }

  predicate DistinctKeys(points: seq<Point>)
  {
    forall i, j :: 0 <= i < j < |points| ==> KeyOf(points[i]) != KeyOf(points[j])
  }

  /** The list as the page keeps it: no two points on the same spot, one
      marker per point, each numbered by its position. */
  ghost predicate Valid(st: RouteState)
  {
    DistinctKeys(st.points) &&
    st.markers.Keys == Keys(st.points) &&
    forall i :: 0 <= i < |st.points| ==> st.markers[KeyOf(st.points[i])] == MarkerAt(st.points[i], i)
  }

  function Initial(): (st: RouteState)
    ensures Valid(st)
  {
    RouteState([], map[], false)
  }

  /** The `some(...)` test of `addPointToRoute`. */
  function OnRoute(points: seq<Point>, p: Point): (b: bool)
    ensures b <==> KeyOf(p) in Keys(points)
  {
    if points == [] then false
    else KeyOf(points[|points| - 1]) == KeyOf(p) || OnRoute(points[..|points| - 1], p)
  }

  /** `addPointToRoute`: a point on a spot already in the list changes
      nothing (its marker's popup is only reopened); a new one goes to the
      end with a marker numbered by its position. */
  function AddPoint(st: RouteState, p: Point): (r: RouteState)
    ensures KeyOf(p) in Keys(st.points) ==> r == st
    ensures KeyOf(p) !in Keys(st.points) ==> r.points == st.points + [p]
    ensures KeyOf(p) !in Keys(st.points) ==> r.markers == st.markers[KeyOf(p) := MarkerAt(p, |st.points|)]
    ensures r.hasRouteLayer == st.hasRouteLayer
  {
    if OnRoute(st.points, p) then st
    else
      var n := |st.points| + 1;
      RouteState(st.points + [p], st.markers[KeyOf(p) := Marker(p.lat, p.lng, p.name, n, n - 1)], st.hasRouteLayer)
  }

  lemma AddPointValid(st: RouteState, p: Point)
    requires Valid(st)
    ensures Valid(AddPoint(st, p))
  {
    if KeyOf(p) !in Keys(st.points) {
      var r := AddPoint(st, p);
      assert Keys(r.points) == Keys(st.points) + {KeyOf(p)} by {
        assert forall q :: q in r.points <==> q in st.points || q == p;
      }
      forall i, j | 0 <= i < j < |r.points|
        ensures KeyOf(r.points[i]) != KeyOf(r.points[j])
      {
        if j == |st.points| {
          assert r.points[i] in st.points;
        }
      }
      forall i | 0 <= i < |r.points|
        ensures r.markers[KeyOf(r.points[i])] == MarkerAt(r.points[i], i)
      {
        if i < |st.points| {
          assert r.points[i] in st.points;
        }
      }
    }
  }

  /** `updateRouteMarkerIndices` from position `i` on: each point whose
      marker is stored gets the popup of its position. */
  function Renumber(markers: map<Key, Marker>, points: seq<Point>, i: nat): (r: map<Key, Marker>)
    requires i <= |points|
    ensures r.Keys == markers.Keys
    decreases |points| - i
  {
    if i == |points| then markers
    else
      var k := KeyOf(points[i]);
      var m := if k in markers then markers[k := MarkerAt(points[i], i)] else markers;
      Renumber(m, points, i + 1)
  }

  lemma {:induction false} RenumberSpec(markers: map<Key, Marker>, points: seq<Point>, i: nat)
    requires i <= |points| && DistinctKeys(points)
    ensures forall j :: i <= j < |points| && KeyOf(points[j]) in markers ==>
      Renumber(markers, points, i)[KeyOf(points[j])] == MarkerAt(points[j], j)
    ensures forall k :: k in markers && (forall j :: i <= j < |points| ==> KeyOf(points[j]) != k) ==>
      Renumber(markers, points, i)[k] == markers[k]
    decreases |points| - i
  {
    if i < |points| {
      var k := KeyOf(points[i]);
      var m := if k in markers then markers[k := MarkerAt(points[i], i)] else markers;
      RenumberSpec(m, points, i + 1);
    }
  }

  /** `removePointFromRoute`: an index outside the list changes nothing;
      otherwise the point and its marker go, the others keep their order
      and are renumbered. */
  function RemovePoint(st: RouteState, index: int): (r: RouteState)
    ensures !(0 <= index < |st.points|) ==> r == st
    ensures 0 <= index < |st.points| ==> r.points == st.points[..index] + st.points[index + 1..]
    ensures 0 <= index < |st.points| ==> r.markers.Keys == st.markers.Keys - {KeyOf(st.points[index])}
    ensures r.hasRouteLayer == st.hasRouteLayer
  {
    if 0 <= index < |st.points| then
      var k := KeyOf(st.points[index]);
      var m := if k in st.markers then st.markers - {k} else st.markers;
      var ps := st.points[..index] + st.points[index + 1..];
      RouteState(ps, Renumber(m, ps, 0), st.hasRouteLayer)
    else st
  }

  lemma RemoveKeys(points: seq<Point>, index: int)
    requires 0 <= index < |points| && DistinctKeys(points)
    ensures DistinctKeys(points[..index] + points[index + 1..])
    ensures Keys(points[..index] + points[index + 1..]) == Keys(points) - {KeyOf(points[index])}
  {
    var ps := points[..index] + points[index + 1..];
    assert forall j :: 0 <= j < |ps| ==> ps[j] == points[if j < index then j else j + 1];
    forall k | k in Keys(points) - {KeyOf(points[index])}
      ensures k in Keys(ps)
    {
      var q :| q in points && KeyOf(q) == k;
      var j :| 0 <= j < |points| && points[j] == q;
      assert ps[if j < index then j else j - 1] == q;
    }
    forall k | k in Keys(ps)
      ensures k in Keys(points) - {KeyOf(points[index])}
    {
      var q :| q in ps && KeyOf(q) == k;
      var j :| 0 <= j < |ps| && ps[j] == q;
      assert q == points[if j < index then j else j + 1];
    }
  }

  /** A removal keeps the list valid: every remaining marker is numbered
      by its new position. */
  lemma RemovePointValid(st: RouteState, index: int)
    requires Valid(st)
    ensures Valid(RemovePoint(st, index))
  {
    if 0 <= index < |st.points| {
      var k := KeyOf(st.points[index]);
      var m := st.markers - {k};
      var ps := st.points[..index] + st.points[index + 1..];
      RemoveKeys(st.points, index);
      RenumberSpec(m, ps, 0);
      var r := RemovePoint(st, index);
      forall i | 0 <= i < |ps|
        ensures r.markers[KeyOf(ps[i])] == MarkerAt(ps[i], i)
      {
        assert ps[i] in ps;
      }
    }
  }

  /** After a removal the numbers run 1, 2, ... in route order. */
  lemma RemoveRenumbers(st: RouteState, index: int)
    requires Valid(st) && 0 <= index < |st.points|
    ensures var r := RemovePoint(st, index);
      forall i :: 0 <= i < |r.points| ==>
        r.markers[KeyOf(r.points[i])].number == i + 1 && r.markers[KeyOf(r.points[i])].dataIndex == i
    ensures KeyOf(st.points[index]) !in RemovePoint(st, index).markers
  {
    RemovePointValid(st, index);
  }

  /** `clearRoutePoints`. */
  function Clear(st: RouteState): (r: RouteState)
    ensures r.points == [] && r.markers == map[] && !r.hasRouteLayer
    ensures Valid(r)
  {
    RouteState([], map[], false)
  }

  // ---------------------------------------------------------------------
  // Snapshots
  // ---------------------------------------------------------------------

  datatype ExportPoint = ExportPoint(index: int, name: string, latitude: int, longitude: int)

  datatype Export = Export(routeName: string, date: string, points: seq<ExportPoint>, totalPoints: int)

  function ExportPoints(points: seq<Point>, from: nat): (r: seq<ExportPoint>)
    ensures |r| == |points|
    ensures forall i :: 0 <= i < |r| ==>
      r[i] == ExportPoint(from + i + 1, points[i].name, points[i].lat, points[i].lng)
  {
    if points == [] then []
    else [ExportPoint(from + 1, points[0].name, points[0].lat, points[0].lng)] + ExportPoints(points[1..], from + 1)
  }

  /** `exportRouteInfo`: nothing for an empty list; otherwise the points
      numbered from 1 in route order, and their count.  `date` is the
      clock's reading. */
  function ExportRoute(st: RouteState, date: string): (r: Option<Export>)
    ensures r.None? <==> st.points == []
    ensures r.Some? ==> r.value.totalPoints == |st.points| == |r.value.points|
    ensures r.Some? ==> r.value.date == date
    ensures r.Some? ==> forall i :: 0 <= i < |st.points| ==>
      r.value.points[i].index == i + 1 && r.value.points[i].name == st.points[i].name &&
      r.value.points[i].latitude == st.points[i].lat && r.value.points[i].longitude == st.points[i].lng
  {
    if |st.points| == 0 then None
    else Some(Export("自定义路线", date, ExportPoints(st.points, 0), |st.points|))
  }

  /** `updateRouteFormInputs`: with at least two inputs on the page, the
      first shows the start's name and the second the last point's name
      once there are two points; fewer inputs are left alone. */
  function FormInputs(points: seq<Point>, inputCount: nat): (r: Option<(string, string)>)
    ensures r.None? <==> inputCount < 2
    ensures r.Some? ==> r.value.0 == (if points == [] then "" else points[0].name)
    ensures r.Some? ==> r.value.1 == (if |points| < 2 then "" else points[|points| - 1].name)
  {
    if inputCount < 2 then None
    else Some((if |points| > 0 then points[0].name else "",
               if |points| > 1 then points[|points| - 1].name else ""))
  }

  datatype Request = Request(points: seq<(int, int)>, planning: string)

  function Coordinates(points: seq<Point>): (r: seq<(int, int)>)
    ensures |r| == |points|
    ensures forall i :: 0 <= i < |r| ==> r[i] == (points[i].lat, points[i].lng)
  {
    if points == [] then [] else [(points[0].lat, points[0].lng)] + Coordinates(points[1..])
  }

  /** The navigation request `planRoute` sends: none with fewer than two
      points; otherwise the coordinates in route order and the first
      checked planning method, shortest distance when none is checked. */
  function PlanRequest(points: seq<Point>, checked: seq<string>): (r: Option<Request>)
    ensures r.None? <==> |points| < 2
    ensures r.Some? ==> r.value.points == Coordinates(points)
    ensures r.Some? ==> r.value.planning == (if checked == [] then "distance" else checked[0])
  {
    if |points| < 2 then None
    else Some(Request(Coordinates(points), if checked == [] then "distance" else checked[0]))
  }

  // ---------------------------------------------------------------------
  // Travel time
  // ---------------------------------------------------------------------

  /** `Math.round(x / 60)` for a whole number of seconds `x >= 0`: halves
      round up. */
  function RoundMinutes(x: nat): (m: nat)
    ensures 60 * m - 30 <= x < 60 * m + 30
  {
    (x + 30) / 60
  }

  /** The hours and minutes `planRoute` shows for a duration of `d`
      seconds: whole hours, then the remainder rounded to minutes. */
  function DurationParts(d: nat): (r: (nat, nat))
    ensures r.0 == d / 3600
    ensures r.1 <= 60
    ensures 60 * (60 * r.0 + r.1) - 30 <= d < 60 * (60 * r.0 + r.1) + 30
  {
    (d / 3600, RoundMinutes(d % 3600))
  }

  /** The text: `"h 小时 "` when there is a whole hour, then `"m 分钟"`. */
  function DurationText(d: nat): string
  {
    var (h, m) := DurationParts(d);
    (if h > 0 then Text.Decimal(h) + " 小时 " else "") + Text.Decimal(m) + " 分钟"
  }

  /** A remainder of 59.5 minutes or more is shown as 60 minutes beside the
      unchanged hour count: 3599 seconds read "60 分钟", 7199 seconds
      "1 小时 60 分钟". */
  lemma SixtyMinutes()
    ensures DurationParts(3599) == (0, 60) && DurationText(3599) == "60 分钟"
    ensures DurationParts(7199) == (1, 60) && DurationText(7199) == "1 小时 60 分钟"
  {
    assert Text.Decimal(60) == "60" by {
      assert Text.Decimal(6) == "6";
    }
    assert Text.Decimal(1) == "1";
  }

  /** Rounding the whole duration to minutes first and then splitting it
      into hours and minutes keeps the minutes below 60. */
  function DurationPartsCorrected(d: nat): (r: (nat, nat))
    ensures r.1 < 60
    ensures 60 * (60 * r.0 + r.1) - 30 <= d < 60 * (60 * r.0 + r.1) + 30
  {
    var total := RoundMinutes(d);
    (total / 60, total % 60)
  }

  function DurationTextCorrected(d: nat): string
  {
    var (h, m) := DurationPartsCorrected(d);
    (if h > 0 then Text.Decimal(h) + " 小时 " else "") + Text.Decimal(m) + " 分钟"
  }

  /** The corrected split agrees with the one shown except where the shown
      minutes reach 60, which it carries into the hours. */
  lemma CorrectedAgrees(d: nat)
    ensures DurationParts(d).1 < 60 ==> DurationPartsCorrected(d) == DurationParts(d)
    ensures DurationParts(d).1 == 60 ==> DurationPartsCorrected(d) == (DurationParts(d).0 + 1, 0)
  {
  }

  /** Only durations whose minutes are shown as 60 read differently. */
  lemma CorrectedText(d: nat)
    ensures DurationParts(d).1 < 60 ==> DurationTextCorrected(d) == DurationText(d)
    ensures DurationTextCorrected(3599) == "1 小时 0 分钟"
  {
    CorrectedAgrees(d);
    CorrectedAgrees(3599);
    assert Text.Decimal(1) == "1" && Text.Decimal(0) == "0";
  }
}
