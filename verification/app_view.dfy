/** The root component's state and its step functions: the selected place
    types, the filter-request snapshot, the markers added from a search result,
    and the rule that a marker click leaves only its own info window open.

    The selection is a JavaScript `Set<string>`, which iterates in insertion
    order; `Array.from` copies it in that order. It is therefore modelled as a
    duplicate-free sequence: adding appends, deleting removes in place.
    Info windows are identified by their position in `windows`, the order in
    which their markers were created.
 */
module AppView {
  import opened Wrappers
  import opened PlaceDto
  import opened PlaceDetails
  import opened ErrorService

  /** The body of the places-nearby search request. */
  datatype FilterRequestData = FilterRequestData(
    includedTypes: seq<string>,
    latitude: real,
    longitude: real,
    radius: real)

  /** A marker's info window and whether it is currently open. */
  datatype InfoWindow = InfoWindow(marker: Marker, isOpen: bool)

  datatype View = View(
    selectedTypes: seq<string>,
    center: LatLng,
    radius: real,
    windows: seq<InfoWindow>,
    current: Option<nat>)

  predicate NoDuplicates(xs: seq<string>) {
    forall i, j :: 0 <= i < j < |xs| ==> xs[i] != xs[j]
  }

  /** The current info window, when there is one, is one of the windows. */
  predicate CurrentInRange(v: View) {
    v.current.Some? ==> v.current.value < |v.windows|
  }

  /** No window other than the current one is open. */
  predicate OnlyCurrentOpen(v: View) {
    forall j :: 0 <= j < |v.windows| && v.windows[j].isOpen ==> v.current == Some(j)
  }

  /** The invariant every reachable state keeps. */
  predicate Valid(v: View) {
    NoDuplicates(v.selectedTypes) && CurrentInRange(v) && OnlyCurrentOpen(v)
  }

  /** The component as constructed: nothing selected, no markers. */
  function Init(center: LatLng, radius: real): (v: View)
    ensures Valid(v)
    ensures forall t :: !IsSelected(v, t)
    ensures |v.windows| == 0 && v.current.None?
    ensures v.center == center && v.radius == radius
  {
    View([], center, radius, [], None)
  }

  // ---------------------------------------------------------------------------
  // Selection

  /** `selectedTypes.delete(t)`: removes `t` and keeps the others in order. */
  function Remove(xs: seq<string>, t: string): (r: seq<string>)
    ensures forall u :: u in r <==> u in xs && u != t
    ensures NoDuplicates(xs) ==> NoDuplicates(r)
    ensures NoDuplicates(xs) && t in xs ==> |r| == |xs| - 1
    ensures t !in xs ==> r == xs
  {
    if |xs| == 0 then []
    else if xs[0] == t then Remove(xs[1..], t)
    else
      assert NoDuplicates(xs) ==> xs[0] !in xs[1..];
      [xs[0]] + Remove(xs[1..], t)
  }

  /** Deleting a member of a duplicate-free selection cuts out exactly its
      position: the members before and after it stay, in their order. */
  lemma {:induction false} RemoveAt(xs: seq<string>, i: nat)
    requires NoDuplicates(xs) && i < |xs|
    ensures Remove(xs, xs[i]) == xs[..i] + xs[i + 1..]
  {
    var rest := xs[1..];
    NoDuplicatesTail(xs);
    if i == 0 {
      assert Remove(xs, xs[0]) == Remove(rest, xs[0]);
    } else {
      assert rest[i - 1] == xs[i];
      RemoveAt(rest, i - 1);
      assert Remove(xs, xs[i]) == [xs[0]] + Remove(rest, xs[i]);
      assert xs[..i] + xs[i + 1..] == [xs[0]] + (rest[..i - 1] + rest[i..]);
    }
  }

  /** The tail of a duplicate-free sequence is duplicate-free and lacks the head. */
  lemma NoDuplicatesTail(xs: seq<string>)
    requires NoDuplicates(xs) && |xs| > 0
    ensures NoDuplicates(xs[1..]) && xs[0] !in xs[1..]
  {
    var rest := xs[1..];
    forall a, b | 0 <= a < b < |rest| ensures rest[a] != rest[b] {
      assert rest[a] == xs[a + 1] && rest[b] == xs[b + 1];
    }
  }

  /** `isSelected(t)`: `Set.has`. */
  function IsSelected(v: View, t: string): bool {
    t in v.selectedTypes
  }

  /** `toggleType(t)`: deletes `t` when selected, otherwise adds it last. */
  function ToggleType(v: View, t: string): (w: View)
    ensures IsSelected(w, t) <==> !IsSelected(v, t)
    ensures forall u :: u != t ==> (IsSelected(w, u) <==> IsSelected(v, u))
    ensures w.center == v.center && w.radius == v.radius
    ensures w.windows == v.windows && w.current == v.current
    ensures Valid(v) ==> Valid(w)
  {
    if t in v.selectedTypes then v.(selectedTypes := Remove(v.selectedTypes, t))
    else v.(selectedTypes := v.selectedTypes + [t])
  }

  /** Toggling the same type twice restores the selection: exactly when the
      type was not selected, and up to order (the type moves last) when it was. */
  lemma ToggleTwice(v: View, t: string)
    requires Valid(v)
    ensures forall u :: IsSelected(ToggleType(ToggleType(v, t), t), u) <==> IsSelected(v, u)
    ensures !IsSelected(v, t) ==> ToggleType(ToggleType(v, t), t) == v
    ensures IsSelected(v, t) ==>
              ToggleType(ToggleType(v, t), t).selectedTypes == Remove(v.selectedTypes, t) + [t]
  {
    if !IsSelected(v, t) {
      RemoveLast(v.selectedTypes, t);
    }
  }

  /** Applies a sequence of checkbox toggles in order. */
  function ToggleAll(v: View, ts: seq<string>): (w: View)
    ensures w.center == v.center && w.radius == v.radius
    ensures w.windows == v.windows && w.current == v.current
    ensures Valid(v) ==> Valid(w)
    decreases |ts|
  {
    if |ts| == 0 then v else ToggleAll(ToggleType(v, ts[0]), ts[1..])
  }

  /** How many times `t` occurs in `ts`. */
  function Count(ts: seq<string>, t: string): nat {
    if |ts| == 0 then 0 else (if ts[0] == t then 1 else 0) + Count(ts[1..], t)
  }

  /** After any run of toggles, a type is selected exactly when it was
      selected before and was toggled an even number of times, or was not
      and was toggled an odd number of times. */
  lemma {:induction false} SelectedIffOddToggles(v: View, ts: seq<string>, t: string)
    ensures IsSelected(ToggleAll(v, ts), t) <==> (IsSelected(v, t) != (Count(ts, t) % 2 == 1))
    decreases |ts|
  {
    if |ts| > 0 {
      var w := ToggleType(v, ts[0]);
      SelectedIffOddToggles(w, ts[1..], t);
      ToggleStep(v, ts[0], t);
      CountParityStep(ts, t);
    }
  }

  /** One toggle flips `t` exactly when it is the toggled type. */
  lemma ToggleStep(v: View, t0: string, t: string)
    ensures IsSelected(ToggleType(v, t0), t) <==> (IsSelected(v, t) != (t0 == t))
  {
  }

  /** The parity of a count changes exactly when the first element counts. */
  lemma CountParityStep(ts: seq<string>, t: string)
    requires |ts| > 0
    ensures Count(ts, t) % 2 == 1 <==> ((ts[0] == t) != (Count(ts[1..], t) % 2 == 1))
  {
  }

  /** From the initial state, the checkboxes that show as selected are
      exactly the types toggled an odd number of times. */
  lemma InitSelectedIffOdd(center: LatLng, radius: real, ts: seq<string>, t: string)
    ensures IsSelected(ToggleAll(Init(center, radius), ts), t) <==> Count(ts, t) % 2 == 1
  {
    SelectedIffOddToggles(Init(center, radius), ts, t);
  }

  lemma {:induction false} RemoveLast(xs: seq<string>, t: string)
    requires t !in xs
    ensures Remove(xs + [t], t) == xs
  {
    if |xs| > 0 {
      assert (xs + [t])[1..] == xs[1..] + [t];
      RemoveLast(xs[1..], t);
      assert xs == [xs[0]] + xs[1..];
    }
  }

  /** `filter()`'s request body: every selected type exactly once, with the
      current center and radius. */
  function FilterRequest(v: View): (r: FilterRequestData)
    ensures forall t :: t in r.includedTypes <==> IsSelected(v, t)
    ensures Valid(v) ==> NoDuplicates(r.includedTypes)
    ensures r.latitude == v.center.latitude && r.longitude == v.center.longitude
    ensures r.radius == v.radius
  {
    FilterRequestData(v.selectedTypes, v.center.latitude, v.center.longitude, v.radius)
  }

  // ---------------------------------------------------------------------------
  // Markers

  /** `generateAndShowMarkers`' loop: one marker per place, in order, until a
      place without types raises and ends the loop. */
  function MarkersUntilFailure(places: seq<Place>, weekday: int, days: seq<string>): (ms: seq<Marker>)
    requires 0 <= weekday <= 6
    ensures |ms| <= |places|
    ensures forall k :: 0 <= k < |ms| ==> GenerateMarker(places[k], weekday, days) == Some(ms[k])
    ensures |ms| < |places| ==> GenerateMarker(places[|ms|], weekday, days).None?
  {
    if |places| == 0 then []
    else match GenerateMarker(places[0], weekday, days)
      case None => []
      case Some(m) => [m] + MarkersUntilFailure(places[1..], weekday, days)
  }

  /** Adds a closed info window per generated marker; earlier markers stay. */
  function ShowMarkers(v: View, places: seq<Place>, weekday: int, days: seq<string>): (w: View)
    requires 0 <= weekday <= 6
    ensures var ms := MarkersUntilFailure(places, weekday, days);
            && |w.windows| == |v.windows| + |ms|
            && w.windows[..|v.windows|] == v.windows
            && forall k :: 0 <= k < |ms| ==>
                 !w.windows[|v.windows| + k].isOpen && w.windows[|v.windows| + k].marker == ms[k]
    ensures w.selectedTypes == v.selectedTypes && w.current == v.current
    ensures w.center == v.center && w.radius == v.radius
    ensures Valid(v) ==> Valid(w)
  {
    var ms := MarkersUntilFailure(places, weekday, days);
    var added := ClosedWindows(ms);
    var w := v.(windows := v.windows + added);
    assert w.windows[..|v.windows|] == v.windows;
    assert forall k :: 0 <= k < |added| ==> w.windows[|v.windows| + k] == added[k];
    assert forall j :: 0 <= j < |v.windows| ==> w.windows[j] == v.windows[j];
    w
  }

  /** A closed info window for each marker, in order. */
  function ClosedWindows(ms: seq<Marker>): (ws: seq<InfoWindow>)
    ensures |ws| == |ms|
    ensures forall k :: 0 <= k < |ws| ==> ws[k].marker == ms[k] && !ws[k].isOpen
  {
    if |ms| == 0 then [] else [InfoWindow(ms[0], false)] + ClosedWindows(ms[1..])
  }

  /** The search's `subscribe` callback: a failed request is replaced by the
      bundled fixture list, and markers are shown only for a non-empty list. */
  function OnSearchResult(v: View, response: Result<seq<Place>, ErrorInfo>, fixture: seq<Place>,
                          weekday: int, days: seq<string>): (w: View)
    requires 0 <= weekday <= 6
    ensures var places := if response.Success? then response.value else fixture;
            |places| == 0 ==> w == v
    ensures var places := if response.Success? then response.value else fixture;
            var ms := MarkersUntilFailure(places, weekday, days);
            |places| > 0 ==>
              && |w.windows| == |v.windows| + |ms|
              && forall k :: 0 <= k < |ms| ==>
                   !w.windows[|v.windows| + k].isOpen && w.windows[|v.windows| + k].marker == ms[k]
    ensures w.selectedTypes == v.selectedTypes && w.current == v.current
    ensures w.center == v.center && w.radius == v.radius
    ensures |w.windows| >= |v.windows| && w.windows[..|v.windows|] == v.windows
    ensures Valid(v) ==> Valid(w)
  {
    var places := match response
      case Success(ps) => ps
      case Failure(_) => fixture;
    if |places| > 0 then ShowMarkers(v, places, weekday, days) else v
  }

  // ---------------------------------------------------------------------------
  // Info windows

  /** The marker click handler: close the current window, open the clicked
      one, and make it current. */
  function ClickMarker(v: View, i: nat): (w: View)
    requires i < |v.windows| && CurrentInRange(v)
    ensures |w.windows| == |v.windows|
    ensures w.current == Some(i) && w.windows[i].isOpen
    ensures forall j :: 0 <= j < |w.windows| ==> w.windows[j].marker == v.windows[j].marker
    ensures v.current.Some? && v.current.value != i ==> !w.windows[v.current.value].isOpen
    ensures forall j :: 0 <= j < |w.windows| && j != i && Some(j) != v.current ==>
              w.windows[j].isOpen == v.windows[j].isOpen
    ensures OnlyCurrentOpen(v) ==> forall j :: 0 <= j < |w.windows| ==> (w.windows[j].isOpen <==> j == i)
    ensures w.selectedTypes == v.selectedTypes && w.center == v.center && w.radius == v.radius
  {
    var closed := match v.current
      case None => v.windows
      case Some(c) => v.windows[c := v.windows[c].(isOpen := false)];
    v.(windows := closed[i := closed[i].(isOpen := true)], current := Some(i))
  }

  /** Any run of clicks from a valid state leaves exactly the last clicked
      window open. */
  lemma {:induction false} ClicksLeaveOneOpen(v: View, clicks: seq<nat>)
    requires Valid(v) && |clicks| > 0
    requires forall k :: 0 <= k < |clicks| ==> clicks[k] < |v.windows|
    ensures var w := ClickAll(v, clicks);
            Valid(w) && forall j :: 0 <= j < |w.windows| ==> (w.windows[j].isOpen <==> j == clicks[|clicks| - 1])
    decreases |clicks|
  {
    var w := ClickMarker(v, clicks[0]);
    if |clicks| > 1 {
      ClicksLeaveOneOpen(w, clicks[1..]);
    }
  }

  /** Applies a sequence of marker clicks in order. */
  function ClickAll(v: View, clicks: seq<nat>): (w: View)
    requires CurrentInRange(v)
    requires forall k :: 0 <= k < |clicks| ==> clicks[k] < |v.windows|
    ensures |w.windows| == |v.windows| && CurrentInRange(w)
    decreases |clicks|
  {
    if |clicks| == 0 then v else ClickAll(ClickMarker(v, clicks[0]), clicks[1..])
  }
}
