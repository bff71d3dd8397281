/**
 The buffer controller: the page state the `search-complete`, `thumb-drag` and
 close-button handlers share, and one transition per event. The geometry engine
 is left uninterpreted (a buffer is the term `GeodesicBuffer(center, radius)`),
 and the two asynchronous query answers `queryWells` waits for arrive as events
 of their own.

 A handler that throws leaves behind whatever it changed before the throw, and
 the page keeps handling later events; `Threw` carries that partial state.
 */
module Controller {

  import opened Wrappers
  import Text
  import Slider
  import WellStats

  /** A search result's location (longitude, latitude). */
  datatype Point = Point(longitude: real, latitude: real)

  /** `geometryEngine.geodesicBuffer(center, radiusTenths / 10, 'miles')`. */
  datatype Polygon = GeodesicBuffer(center: Point, radiusTenths: int)

  /** A graphic of the buffer layer; `serial` tells a graphic apart from a new one with the same geometry. */
  datatype Graphic = Graphic(serial: nat, geometry: Polygon)

  /** A handle returned by highlighting the wells found in `features`; `shown` is false once removed. */
  datatype Highlight = Highlight(features: Polygon, shown: bool)

  /** `event.results[0].results[0]` of a search: the matched address and its geometry, if any. */
  datatype SearchHit = SearchHit(name: string, geometry: Option<Point>)

  /**
   The page state. The script's `highlight` variable is only ever assigned the
   newest handle and is never unset, so it is the last element of `handles`
   (undefined while `handles` is empty); older handles stay in the list because
   a handle that was overwritten without being removed keeps its wells highlighted.
   */
  datatype State = State(
    searchGeometry: Option<Point>,          // the point of the latest search
    graphics: seq<Graphic>,                 // bufferLayer.graphics
    created: nat,                           // buffer graphics created so far
    handles: seq<Highlight>,                // every highlight handle created, oldest first
    queries: seq<Polygon>,                  // statistics queries issued, oldest first
    location: Option<string>,               // text of 'location'; None is the page's own
    radiusLabel: Option<string>,            // text of 'bufferRadius'; None is the page's own
    counts: Option<WellStats.WellCounts>,   // the four numbers of the results panel
    resultsVisible: bool,
    legendVisible: bool)

  /** The radius a search draws: one mile, whatever the slider shows. */
  const SearchRadius: int := 10

  /** Views narrower than this hide the legend when results are shown. */
  const NarrowView: int := 750

  datatype Event =
    | SearchComplete(first: Option<SearchHit>)
    | ThumbDrag(value: Slider.Tenths, phase: Slider.DragState)
    | CloseClick
    | StatsArrived(rows: seq<WellStats.Row>, viewWidth: int)   // answer to a statistics query
    | HighlightArrived(features: Polygon)                      // answer to a highlight query

  /** Where a handler throws. */
  datatype Fault =
    | NoSearchResult     // `event.results[0].results[0]` is undefined
    | NoSearchGeometry   // buffering an undefined point
    | NoBufferGraphic    // `getItemAt(0)` of an empty layer is undefined
    | NoHighlight        // `highlight.remove()` before any highlight exists

  datatype Outcome = Handled(state: State) | Threw(state: State, fault: Fault)

  /** The page before any event: nothing searched, an empty layer, results hidden, legend shown. */
  function Init(): State
  {
    State(None, [], 0, [], [], None, None, None, false, true)
  }

  /** Whether the `highlight` variable holds a handle. */
  predicate HasHighlight(s: State)
  {
    |s.handles| > 0
  }

  /**
   `after` is `before` with only the newest handle removed (no change when there
   is none): every older handle, shown or not, is left as it was.
   */
  predicate TookDownLatest(before: seq<Highlight>, after: seq<Highlight>)
  {
    && |after| == |before|
    && (forall i :: 0 <= i < |before| - 1 ==> after[i] == before[i])
    && (|before| > 0 ==> after[|before| - 1] == Highlight(before[|before| - 1].features, false))
  }

  /** `highlight.remove()` on the handle the variable holds. */
  function RemoveLatest(handles: seq<Highlight>): seq<Highlight>
    requires |handles| > 0
  {
    handles[|handles| - 1 := handles[|handles| - 1].(shown := false)]
  }

  /** `queryWells(polygon)`: issue the statistics query, and `highlightWells`, which removes the current highlight. */
  function QueryWells(s: State, polygon: Polygon): (r: State)
    ensures r.queries == s.queries + [polygon]
    ensures TookDownLatest(s.handles, r.handles)
    ensures r.(queries := s.queries, handles := s.handles) == s
  {
    var taken := if |s.handles| > 0 then RemoveLatest(s.handles) else s.handles;
    s.(queries := s.queries + [polygon], handles := taken)
  }

  /**
   The `search-complete` handler. It empties the buffer layer first, so it never
   leaves more than one graphic. Without a hit it throws having changed nothing
   else; with a hit but no point it throws after showing the address and forgetting
   the old point. With a located result it leaves exactly one graphic, a new one
   holding the one-mile buffer around the result whatever the layer held before;
   it records the point, shows the address up to its first comma, queries that
   buffer, and takes down the current highlight. The results panel, the legend and
   the radius label are never touched.
   */
  function OnSearchComplete(s: State, first: Option<SearchHit>): (r: Outcome)
    ensures |r.state.graphics| <= 1
    ensures r.Threw? <==> first.None? || first.value.geometry.None?
    ensures first.None? ==> r.fault == NoSearchResult && r.state == s.(graphics := [])
    ensures first.Some? && first.value.geometry.None? ==>
      && r.fault == NoSearchGeometry
      && r.state == s.(graphics := [], searchGeometry := None, location := Some(Text.FirstField(first.value.name)))
    ensures r.Handled? ==>
      var p := first.value.geometry.value;
      && r.state.graphics == [Graphic(s.created, GeodesicBuffer(p, 10))]
      && r.state.created == s.created + 1
      && (Coherent(s) ==> forall g :: g in s.graphics ==> g.serial != r.state.graphics[0].serial)
      && r.state.searchGeometry == Some(p)
      && r.state.location == Some(Text.FirstField(first.value.name))
      && r.state.queries == s.queries + [GeodesicBuffer(p, 10)]
      && TookDownLatest(s.handles, r.state.handles)
    ensures r.state.counts == s.counts && r.state.radiusLabel == s.radiusLabel
    ensures r.state.resultsVisible == s.resultsVisible && r.state.legendVisible == s.legendVisible
  {
    var cleared := s.(graphics := []);
    match first
    case None => Threw(cleared, NoSearchResult)
    case Some(hit) =>
      var located := cleared.(location := Some(Text.FirstField(hit.name)), searchGeometry := hit.geometry);
      match hit.geometry
      case None => Threw(located, NoSearchGeometry)
      case Some(p) =>
        var buffer := GeodesicBuffer(p, SearchRadius);
        var drawn := located.(graphics := [Graphic(s.created, buffer)], created := s.created + 1);
        Handled(QueryWells(drawn, buffer))
  }

  /**
   The slider's `thumb-drag` handler. It writes the radius label in every case and,
   when it throws, changes nothing else. It succeeds exactly when a search point
   exists and the layer holds a graphic; then it changes only the geometry of
   graphic 0, to the buffer of the searched point at the dragged radius, keeping
   that graphic (same serial) and the graphic count. When the gesture stops it
   queries the new buffer, appended after every earlier query, and takes down the
   current highlight; otherwise queries and highlights are unchanged.
   */
  function OnThumbDrag(s: State, v: Slider.Tenths, phase: Slider.DragState): (r: Outcome)
    ensures r.state.radiusLabel == Some(Slider.RadiusLabel(v))
    ensures r.Handled? <==> s.searchGeometry.Some? && |s.graphics| >= 1
    ensures r.Threw? ==>
      && r.fault == (if s.searchGeometry.None? then NoSearchGeometry else NoBufferGraphic)
      && r.state == s.(radiusLabel := Some(Slider.RadiusLabel(v)))
    ensures r.Handled? ==>
      var buffer := GeodesicBuffer(s.searchGeometry.value, v);
      && |r.state.graphics| == |s.graphics|
      && r.state.graphics[0] == Graphic(s.graphics[0].serial, buffer)
      && r.state.graphics[1..] == s.graphics[1..]
      && (phase == Slider.Stop ==>
            r.state.queries == s.queries + [buffer] && TookDownLatest(s.handles, r.state.handles))
      && (phase != Slider.Stop ==> r.state.queries == s.queries && r.state.handles == s.handles)
      && r.state.(graphics := s.graphics, queries := s.queries, handles := s.handles)
         == s.(radiusLabel := Some(Slider.RadiusLabel(v)))
  {
    var labelled := s.(radiusLabel := Some(Slider.RadiusLabel(v)));
    match s.searchGeometry
    case None => Threw(labelled, NoSearchGeometry)
    case Some(p) =>
      var buffer := GeodesicBuffer(p, v);
      if |s.graphics| == 0 then Threw(labelled, NoBufferGraphic)
      else
        var moved := labelled.(graphics := s.graphics[0 := Graphic(s.graphics[0].serial, buffer)]);
        if Slider.QueriesOnDrag(phase) then Handled(QueryWells(moved, buffer)) else Handled(moved)
  }

  /**
   The close button's `click` handler. It always empties the buffer layer; it
   succeeds exactly when the `highlight` variable holds a handle, and then removes
   that handle only, hides the results and shows the legend. When it throws it
   changes nothing but the layer. The search point, the queries, the counts and
   the labels are kept.
   */
  function OnClose(s: State): (r: Outcome)
    ensures r.state.graphics == []
    ensures r.Handled? <==> HasHighlight(s)
    ensures r.Handled? ==>
      && !r.state.resultsVisible
      && r.state.legendVisible
      && TookDownLatest(s.handles, r.state.handles)
    ensures r.Threw? ==> r.fault == NoHighlight && r.state == s.(graphics := [])
    ensures r.state.(graphics := s.graphics, handles := s.handles,
                     resultsVisible := s.resultsVisible, legendVisible := s.legendVisible) == s
  {
    var cleared := s.(graphics := []);
    if |s.handles| == 0 then Threw(cleared, NoHighlight)
    else Handled(cleared.(handles := RemoveLatest(s.handles), resultsVisible := false, legendVisible := true))
  }

  /**
   The statistics query's callback: fold the rows, then `displayWellCounts`. For a
   result with no row called `Total` the panel's total is the sum of every row and
   the categories never exceed it; when each status also occurs once, active shows
   the Active and New rows, idle and plugged their own rows. The panel becomes
   visible and a narrow view hides the legend; nothing else changes.
   */
  function OnStatsArrived(s: State, rows: seq<WellStats.Row>, viewWidth: int): (r: State)
    ensures r.counts.Some?
    ensures WellStats.NoTotalRow(rows) ==>
      && r.counts.value.total == WellStats.Sum(rows)
      && r.counts.value.active + r.counts.value.idle + r.counts.value.plugged <= r.counts.value.total
    ensures WellStats.NoTotalRow(rows) && WellStats.DistinctStatuses(rows) ==>
      && r.counts.value.active == WellStats.SumWhere(rows, WellStats.Active) + WellStats.SumWhere(rows, WellStats.New)
      && r.counts.value.idle == WellStats.SumWhere(rows, WellStats.Idle)
      && r.counts.value.plugged == WellStats.SumWhere(rows, WellStats.Plugged)
    ensures r.resultsVisible
    ensures viewWidth < NarrowView ==> !r.legendVisible
    ensures viewWidth >= NarrowView ==> r.legendVisible == s.legendVisible
    ensures r.(counts := s.counts, resultsVisible := s.resultsVisible, legendVisible := s.legendVisible) == s
  {
    WellStats.DisplayFacts(rows);
    ShowCounts(s, rows, viewWidth)
  }

  /** The writes `displayWellCounts` makes: the four numbers, the results panel, and the legend on a narrow view. */
  function ShowCounts(s: State, rows: seq<WellStats.Row>, viewWidth: int): State
  {
    s.(counts := Some(WellStats.DisplayWellCounts(WellStats.Tally(rows))),
       resultsVisible := true,
       legendVisible := if viewWidth < NarrowView then false else s.legendVisible)
  }

  /**
   The highlight query's callback: the new handle, showing the wells found in
   `features`, is assigned to `highlight`. Every older handle is kept as it was,
   so one still shown stays shown; nothing else changes.
   */
  function OnHighlightArrived(s: State, features: Polygon): (r: State)
    ensures |r.handles| == |s.handles| + 1
    ensures r.handles[..|s.handles|] == s.handles
    ensures r.handles[|s.handles|] == Highlight(features, true)
    ensures r.(handles := s.handles) == s
  {
    s.(handles := s.handles + [Highlight(features, true)])
  }

  /**
   One event, dispatched to its handler. Every handler keeps the buffer layer
   coherent, and never forgets a highlight handle or what it highlights.
   */
  function Step(s: State, e: Event): (r: Outcome)
    ensures Coherent(s) ==> Coherent(r.state)
    ensures |r.state.handles| >= |s.handles|
    ensures forall i :: 0 <= i < |s.handles| ==> r.state.handles[i].features == s.handles[i].features
  {
    match e
    case SearchComplete(first) => OnSearchComplete(s, first)
    case ThumbDrag(v, phase) => OnThumbDrag(s, v, phase)
    case CloseClick => OnClose(s)
    case StatsArrived(rows, w) => Handled(OnStatsArrived(s, rows, w))
    case HighlightArrived(features) => Handled(OnHighlightArrived(s, features))
  }

  /** The page after a sequence of events, each handled in turn whether or not an earlier one threw. */
  function Run(s: State, events: seq<Event>): State
    decreases |events|
  {
    if events == [] then s else Run(Step(s, events[0]).state, events[1..])
  }

  /* ---------------------------------------------------------------------------
     Invariants over runs
     --------------------------------------------------------------------------- */

  /**
   The buffer layer holds at most one graphic, and a graphic it holds is centred
   on the latest search point and was created by a search.
   */
  predicate Coherent(s: State)
  {
    && |s.graphics| <= 1
    && (|s.graphics| == 1 ==>
          && s.searchGeometry.Some?
          && s.graphics[0].geometry.center == s.searchGeometry.value
          && s.graphics[0].serial < s.created)
  }

  /** Any sequence of events keeps the buffer layer coherent. */
  lemma {:induction false} RunPreservesCoherent(s: State, events: seq<Event>)
    requires Coherent(s)
    ensures Coherent(Run(s, events))
    decreases |events|
  {
    if events != [] {
      RunPreservesCoherent(Step(s, events[0]).state, events[1..]);
    }
  }

  lemma ReachableIsCoherent(events: seq<Event>)
    ensures Coherent(Run(Init(), events))
  {
    RunPreservesCoherent(Init(), events);
  }

  /** Highlight handles are never dropped: the `highlight` variable is only ever reassigned. */
  lemma {:induction false} HandlesPersist(s: State, events: seq<Event>)
    ensures |Run(s, events).handles| >= |s.handles|
    ensures forall i :: 0 <= i < |s.handles| ==> Run(s, events).handles[i].features == s.handles[i].features
    decreases |events|
  {
    if events != [] {
      HandlesPersist(Step(s, events[0]).state, events[1..]);
    }
  }

  /** After the first highlight answer, closing never throws, whatever happens in between. */
  lemma CloseSucceedsOnceHighlighted(s: State, features: Polygon, events: seq<Event>)
    ensures OnClose(Run(OnHighlightArrived(s, features), events)).Handled?
  {
    HandlesPersist(OnHighlightArrived(s, features), events);
  }

  /* ---------------------------------------------------------------------------
     What the handlers silently rely on
     --------------------------------------------------------------------------- */

  /** A drag before any search buffers an undefined point and throws, after writing the label. */
  lemma DragBeforeSearchThrows(v: Slider.Tenths, phase: Slider.DragState)
    ensures OnThumbDrag(Init(), v, phase) == Threw(Init().(radiusLabel := Some(Slider.RadiusLabel(v))), NoSearchGeometry)
  {
  }

  /** A close before any highlight answer throws at `highlight.remove()`, leaving the results panel as it was. */
  lemma CloseBeforeHighlightThrows(hit: SearchHit, p: Point)
    requires hit.geometry == Some(p)
    ensures var searched := OnSearchComplete(Init(), Some(hit)).state;
      && OnClose(Init()).Threw?
      && OnClose(searched) == Threw(searched.(graphics := []), NoHighlight)
  {
  }

  /** A drag after a close finds the search point but no graphic, and throws at `getItemAt(0)`. */
  lemma DragAfterCloseThrows(s: State, v: Slider.Tenths, phase: Slider.DragState)
    requires s.searchGeometry.Some?
    ensures OnThumbDrag(OnClose(s).state, v, phase).fault == NoBufferGraphic
  {
  }

  /**
   Two searches in quick succession: the second finds no handle to remove, both
   highlight answers arrive, and the second overwrites the first without removing
   it. Close removes only the second, so the first search's wells stay highlighted.
   */
  lemma OverwrittenHighlightLeaks(a: Point, b: Point)
    ensures var bufA, bufB := GeodesicBuffer(a, 10), GeodesicBuffer(b, 10);
      Run(Init(), [SearchComplete(Some(SearchHit("A", Some(a)))), SearchComplete(Some(SearchHit("B", Some(b)))),
                   HighlightArrived(bufA), HighlightArrived(bufB), CloseClick]).handles
      == [Highlight(bufA, true), Highlight(bufB, false)]
  {
    var bufA, bufB := GeodesicBuffer(a, 10), GeodesicBuffer(b, 10);
    var e1, e2 := SearchComplete(Some(SearchHit("A", Some(a)))), SearchComplete(Some(SearchHit("B", Some(b))));
    var e3, e4, e5 := HighlightArrived(bufA), HighlightArrived(bufB), CloseClick;
    var s1 := Step(Init(), e1).state;
    var s2 := Step(s1, e2).state;
    var s3 := Step(s2, e3).state;
    var s4 := Step(s3, e4).state;
    var s5 := Step(s4, e5).state;
    assert s2.handles == [];
    assert s3.handles == [Highlight(bufA, true)];
    assert s4.handles == [Highlight(bufA, true), Highlight(bufB, true)];
    assert s5.handles == [Highlight(bufA, true), Highlight(bufB, false)];
    RunSteps(Init(), e1, [e2, e3, e4, e5]);
    RunSteps(s1, e2, [e3, e4, e5]);
    RunSteps(s2, e3, [e4, e5]);
    RunSteps(s3, e4, [e5]);
    RunSteps(s4, e5, []);
  }

  lemma RunSteps(s: State, e: Event, rest: seq<Event>)
    ensures Run(s, [e] + rest) == Run(Step(s, e).state, rest)
  {
    assert ([e] + rest)[1..] == rest;
  }

  /**
   A new search draws a one-mile buffer but leaves the radius label alone, so after
   a drag to any other radius the label and the buffer disagree.
   */
  lemma SearchKeepsRadiusLabel(s: State, v: Slider.Tenths, phase: Slider.DragState, hit: SearchHit, p: Point)
    requires v != 10
    requires hit.geometry == Some(p)
    ensures var dragged := OnThumbDrag(s, v, phase).state;
      var r := OnSearchComplete(dragged, Some(hit)).state;
      && r.graphics[0].geometry.radiusTenths == 10
      && r.radiusLabel == Some(Slider.RadiusLabel(v))
      && r.radiusLabel != Some("1 mile")
  {
  }
}
