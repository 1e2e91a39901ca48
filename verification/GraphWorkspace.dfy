/** The graph workspace's state and the query string it keeps in step with it.

    `Number` and `String` on depths are the parameters of `Numerals`; percent-encoding of the query
    is the browser's and is not modelled. */
module GraphWorkspace {
  import opened Texts

  datatype View = Explore | Technical

  datatype Direction = Both | Incoming | Outgoing

  /** `awaitProjection` is false when it is missing. */
  datatype Request = Request(entityType: string, entityId: string, depth: real, direction: Direction,
                             relationshipTypes: seq<string>, entityTypes: seq<string>, awaitProjection: bool)

  /** `number` is `None` for NaN and the infinities. */
  datatype Numerals = Numerals(number: string -> Option<real>, show: real -> string)

  /** Reading undoes writing for this depth. */
  predicate RoundTrips(n: Numerals, d: real) { n.number(n.show(d)) == Some(d) }

  const MAX_DEPTH := 5.0

  predicate InRange(d: real) { 1.0 <= d <= MAX_DEPTH }

  predicate Whole(d: real) { d.Floor as real == d }

  /** Reading undoes writing for the depths the console offers. */
  predicate RoundTripsDepths(n: Numerals) {
    RoundTrips(n, 1.0) && RoundTrips(n, 2.0) && RoundTrips(n, 3.0) && RoundTrips(n, 4.0) && RoundTrips(n, 5.0)
  }

  /** What `Number` and `String` do on one digit. */
  const DIGITS := Numerals(ReadDigit, ShowDigit)

  function ReadDigit(s: string): Option<real> {
    if |s| == 1 && IsDigit(s[0]) then Some((s[0] as int - '0' as int) as real) else None
  }

  function ShowDigit(d: real): string {
    if Whole(d) && 0.0 <= d < 10.0 then [Digit(d.Floor)] else "NaN"
  }

  lemma DigitsRoundTrip()
    ensures RoundTripsDepths(DIGITS)
  {
    assert forall d: nat :: d < 10 ==> (d as real).Floor == d && ReadDigit([Digit(d)]) == Some(d as real);
    assert 1.0 == 1 as real && 2.0 == 2 as real && 3.0 == 3 as real && 4.0 == 4 as real && 5.0 == 5 as real;
  }

  lemma WholeDepthRoundTrips(n: Numerals, d: real)
    requires RoundTripsDepths(n) && InRange(d) && Whole(d)
    ensures RoundTrips(n, d)
  {
    var k := d.Floor;
    assert d == k as real && 1 <= k <= 5;
    assert k == 1 || k == 2 || k == 3 || k == 4 || k == 5;
  }

  // ---- query parameters ------------------------------------------------------------------------

  type Params = seq<(string, string)>

  function GetAll(params: Params, name: string): seq<string> {
    if params == [] then []
    else (if params[0].0 == name then [params[0].1] else []) + GetAll(params[1..], name)
  }

  /** `searchParams.get`. */
  function First(params: Params, name: string): Option<string> {
    var all := GetAll(params, name);
    if all == [] then None else Some(all[0])
  }

  function AppendAll(params: Params, name: string, values: seq<string>): Params
    decreases |values|
  {
    if values == [] then params else AppendAll(params + [(name, values[0])], name, values[1..])
  }

  function ViewText(v: View): string { if v == Explore then "explore" else "technical" }

  function DirectionText(d: Direction): string {
    match d case Both => "both" case Incoming => "incoming" case Outgoing => "outgoing"
  }

  /** `updateUrl`. Each name is set once, so `set` appends. */
  function Write(n: Numerals, view: View, request: Option<Request>): Params {
    var base := [("view", ViewText(view))];
    if request.None? then base
    else
      var r := request.value;
      var fixed := base + [("entityType", r.entityType), ("entityId", r.entityId), ("depth", n.show(r.depth)),
                           ("direction", DirectionText(r.direction))];
      var listed := AppendAll(AppendAll(fixed, "relationshipType", r.relationshipTypes), "nodeType", r.entityTypes);
      if r.awaitProjection then listed + [("awaitProjection", "true")] else listed
  }

  function ReadView(params: Params): View {
    if First(params, "view") == Some("technical") then Technical else Explore
  }

  function Clamp(d: real): real {
    var low := if d < 1.0 then 1.0 else d;
    if low > MAX_DEPTH then MAX_DEPTH else low
  }

  function ReadDepth(n: Numerals, text: Option<string>): real {
    var d := n.number(if text.None? then "1" else text.value);
    Clamp(if d.None? then 1.0 else d.value)
  }

  function ReadDirection(text: Option<string>): Direction {
    if text == Some("incoming") then Incoming else if text == Some("outgoing") then Outgoing else Both
  }

  function Trim(text: Option<string>): string {
    if text.None? then "" else Strip(text.value, JsSpace)
  }

  /** `requestFromSearchParams`. */
  function Read(n: Numerals, params: Params): Option<Request> {
    var entityType, entityId := Trim(First(params, "entityType")), Trim(First(params, "entityId"));
    if entityType == "" || entityId == "" then None
    else Some(Request(entityType, entityId, ReadDepth(n, First(params, "depth")),
                      ReadDirection(First(params, "direction")), GetAll(params, "relationshipType"),
                      GetAll(params, "nodeType"), First(params, "awaitProjection") == Some("true")))
  }

  // ---- reading back what was written -----------------------------------------------------------

  lemma {:induction false} GetAllConcat(a: Params, b: Params, name: string)
    ensures GetAll(a + b, name) == GetAll(a, name) + GetAll(b, name)
  {
    if a == [] {
      assert a + b == b;
    } else {
      assert (a + b)[0] == a[0] && (a + b)[1..] == a[1..] + b;
      GetAllConcat(a[1..], b, name);
      Regroup(if a[0].0 == name then [a[0].1] else [], GetAll(a[1..], name), GetAll(b, name));
    }
  }

  lemma GetAllOne(p: (string, string), name: string)
    ensures GetAll([p], name) == if p.0 == name then [p.1] else []
  {
    assert [p][1..] == [];
  }

  lemma {:induction false} GetAllAppended(params: Params, key: string, values: seq<string>, name: string)
    ensures GetAll(AppendAll(params, key, values), name) == GetAll(params, name) + (if key == name then values else [])
    decreases |values|
  {
    if values != [] {
      GetAllAppended(params + [(key, values[0])], key, values[1..], name);
      GetAllConcat(params, [(key, values[0])], name);
      GetAllOne((key, values[0]), name);
      assert values == [values[0]] + values[1..];
      Regroup(GetAll(params, name), if key == name then [values[0]] else [], if key == name then values[1..] else []);
    }
  }

  function Fixed(n: Numerals, view: View, r: Request): Params {
    [("view", ViewText(view))]
    + [("entityType", r.entityType), ("entityId", r.entityId), ("depth", n.show(r.depth)), ("direction", DirectionText(r.direction))]
  }

  function Single(name: string, key: string, v: string): seq<string> { if name == key then [v] else [] }

  lemma FixedParams(n: Numerals, view: View, r: Request, name: string)
    ensures GetAll(Fixed(n, view, r), name)
         == Single(name, "view", ViewText(view)) + Single(name, "entityType", r.entityType)
            + Single(name, "entityId", r.entityId) + Single(name, "depth", n.show(r.depth))
            + Single(name, "direction", DirectionText(r.direction))
  {
    var a, b, c, d, e := ("view", ViewText(view)), ("entityType", r.entityType), ("entityId", r.entityId),
                         ("depth", n.show(r.depth)), ("direction", DirectionText(r.direction));
    assert Fixed(n, view, r) == [a] + ([b] + ([c] + ([d] + [e])));
    GetAllConcat([a], [b] + ([c] + ([d] + [e])), name);
    GetAllConcat([b], [c] + ([d] + [e]), name);
    GetAllConcat([c], [d] + [e], name);
    GetAllConcat([d], [e], name);
    GetAllOne(a, name);
    GetAllOne(b, name);
    GetAllOne(c, name);
    GetAllOne(d, name);
    GetAllOne(e, name);
  }

  lemma WrittenParams(n: Numerals, view: View, r: Request, name: string)
    ensures GetAll(Write(n, view, Some(r)), name)
         == GetAll(Fixed(n, view, r), name)
            + (if name == "relationshipType" then r.relationshipTypes else [])
            + (if name == "nodeType" then r.entityTypes else [])
            + (if name == "awaitProjection" && r.awaitProjection then ["true"] else [])
  {
    var fixed := Fixed(n, view, r);
    var related := AppendAll(fixed, "relationshipType", r.relationshipTypes);
    var listed := AppendAll(related, "nodeType", r.entityTypes);
    GetAllAppended(fixed, "relationshipType", r.relationshipTypes, name);
    GetAllAppended(related, "nodeType", r.entityTypes, name);
    GetAllConcat(listed, [("awaitProjection", "true")], name);
    GetAllOne(("awaitProjection", "true"), name);
  }

  predicate Canonical(r: Request) {
    && r.entityType != "" && Trimmed(r.entityType, JsSpace)
    && r.entityId != "" && Trimmed(r.entityId, JsSpace)
    && InRange(r.depth)
  }

  lemma WrittenFields(n: Numerals, view: View, r: Request)
    ensures var p := Write(n, view, Some(r));
            && First(p, "view") == Some(ViewText(view))
            && First(p, "entityType") == Some(r.entityType) && First(p, "entityId") == Some(r.entityId)
            && First(p, "depth") == Some(n.show(r.depth)) && First(p, "direction") == Some(DirectionText(r.direction))
            && GetAll(p, "relationshipType") == r.relationshipTypes && GetAll(p, "nodeType") == r.entityTypes
            && (First(p, "awaitProjection") == Some("true") <==> r.awaitProjection)
  {
    WrittenField(n, view, r, "view");
    WrittenField(n, view, r, "entityType");
    WrittenField(n, view, r, "entityId");
    WrittenField(n, view, r, "depth");
    WrittenField(n, view, r, "direction");
    WrittenField(n, view, r, "relationshipType");
    WrittenField(n, view, r, "nodeType");
    WrittenField(n, view, r, "awaitProjection");
  }

  lemma WrittenField(n: Numerals, view: View, r: Request, name: string)
    ensures GetAll(Write(n, view, Some(r)), name)
         == if name == "view" then [ViewText(view)]
            else if name == "entityType" then [r.entityType]
            else if name == "entityId" then [r.entityId]
            else if name == "depth" then [n.show(r.depth)]
            else if name == "direction" then [DirectionText(r.direction)]
            else if name == "relationshipType" then r.relationshipTypes
            else if name == "nodeType" then r.entityTypes
            else if name == "awaitProjection" && r.awaitProjection then ["true"]
            else []
  {
    WrittenParams(n, view, r, name);
    FixedParams(n, view, r, name);
  }

  /** The query restores the view always, and the request exactly when it is canonical: trimmed,
      non-empty identifiers and a depth in range. */
  lemma QueryRoundTripExactly(n: Numerals, view: View, r: Request)
    requires RoundTrips(n, r.depth)
    ensures ReadView(Write(n, view, Some(r))) == view
    ensures Read(n, Write(n, view, Some(r))) == Some(r) <==> Canonical(r)
  {
    WrittenFields(n, view, r);
    StripFixesExactlyTrimmed(r.entityType, JsSpace);
    StripFixesExactlyTrimmed(r.entityId, JsSpace);
  }

  lemma ViewWritten(n: Numerals, view: View, request: Option<Request>)
    ensures ReadView(Write(n, view, request)) == view
  {
    if request.None? { EmptyQueryRoundTrip(n, view); } else { WrittenFields(n, view, request.value); }
  }

  /** What a query without some parameters, or with other values, is read as. */
  lemma ReadExactly(n: Numerals, url: Params)
    requires Read(n, url).Some?
    ensures var r := Read(n, url).value;
            var depth := if First(url, "depth").None? then n.number("1") else n.number(First(url, "depth").value);
            && (depth.None? ==> r.depth == 1.0)
            && (depth.Some? && depth.value < 1.0 ==> r.depth == 1.0) && (depth.Some? && depth.value > 5.0 ==> r.depth == 5.0)
            && (depth.Some? && 1.0 <= depth.value <= 5.0 ==> r.depth == depth.value)
            && (r.direction == Incoming <==> First(url, "direction") == Some("incoming"))
            && (r.direction == Outgoing <==> First(url, "direction") == Some("outgoing"))
            && (r.awaitProjection <==> First(url, "awaitProjection") == Some("true"))
  {
  }

  lemma EmptyQueryRoundTrip(n: Numerals, view: View)
    ensures ReadView(Write(n, view, None)) == view && Read(n, Write(n, view, None)) == None
  {
    var p := ("view", ViewText(view));
    GetAllOne(p, "view");
    GetAllOne(p, "entityType");
  }

  // ---- runs of the workspace --------------------------------------------------------------------

  datatype State = State(view: View, request: Option<Request>, url: Params)

  datatype Action = Load(request: Request) | Reset | ChangeView(view: View) | ExploreFrom(entityType: string, entityId: string) | ExpandOneHop

  function Start(n: Numerals, url: Params): State { State(ReadView(url), Read(n, url), url) }

  function Loaded(n: Numerals, s: State, r: Request): State {
    State(s.view, Some(r), Write(n, s.view, Some(r)))
  }

  /** The two buttons on a selected entity exist only while a request is loaded, and expanding only
      below the maximum depth. */
  function Step(n: Numerals, s: State, a: Action): State {
    match a
    case Load(r) => Loaded(n, s, r)
    case Reset => State(s.view, None, Write(n, s.view, None))
    case ChangeView(v) => State(v, s.request, Write(n, v, s.request))
    case ExploreFrom(entityType, entityId) =>
      if s.request.None? then s
      else Loaded(n, s, s.request.value.(entityType := entityType, entityId := entityId, depth := 1.0))
    case ExpandOneHop =>
      if s.request.None? || s.request.value.depth >= MAX_DEPTH then s
      else Loaded(n, s, s.request.value.(depth := s.request.value.depth + 1.0))
  }

  function Run(n: Numerals, s: State, actions: seq<Action>): State
    decreases |actions|
  {
    if actions == [] then s else Run(n, Step(n, s, actions[0]), actions[1..])
  }

  /** Entities come with trimmed identifiers and whole depths in range. */
  predicate Acceptable(a: Action) {
    match a
    case Load(r) => Canonical(r) && Whole(r.depth)
    case ExploreFrom(entityType, entityId) =>
      entityType != "" && Trimmed(entityType, JsSpace) && entityId != "" && Trimmed(entityId, JsSpace)
    case _ => true
  }

  /** The query says what the workspace shows, and the depth is a whole number in range. */
  predicate InStep(n: Numerals, s: State) {
    && ReadView(s.url) == s.view && Read(n, s.url) == s.request
    && (s.request.Some? ==> Canonical(s.request.value) && Whole(s.request.value.depth))
  }

  lemma ReadIsCanonical(n: Numerals, url: Params)
    ensures Read(n, url).Some? ==> Canonical(Read(n, url).value)
  {
    if First(url, "entityType").Some? { StripIsTrimmed(First(url, "entityType").value, JsSpace); }
    if First(url, "entityId").Some? { StripIsTrimmed(First(url, "entityId").value, JsSpace); }
  }

  lemma LoadedIsInStep(n: Numerals, s: State, r: Request)
    requires RoundTripsDepths(n) && Canonical(r) && Whole(r.depth)
    ensures InStep(n, Loaded(n, s, r))
  {
    WholeDepthRoundTrips(n, r.depth);
    QueryRoundTripExactly(n, s.view, r);
  }

  lemma StepStaysInStep(n: Numerals, s: State, a: Action)
    requires RoundTripsDepths(n) && InStep(n, s) && Acceptable(a)
    ensures InStep(n, Step(n, s, a))
  {
    match a {
      case Load(r) =>
        LoadedIsInStep(n, s, r);
      case Reset =>
        EmptyQueryRoundTrip(n, s.view);
      case ChangeView(v) =>
        if s.request.None? {
          EmptyQueryRoundTrip(n, v);
        } else {
          LoadedIsInStep(n, s.(view := v), s.request.value);
        }
      case ExploreFrom(entityType, entityId) =>
        if s.request.Some? {
          LoadedIsInStep(n, s, s.request.value.(entityType := entityType, entityId := entityId, depth := 1.0));
        }
      case ExpandOneHop =>
        if s.request.Some? && s.request.value.depth < MAX_DEPTH {
          WholeBelowMaximum(s.request.value.depth);
          LoadedIsInStep(n, s, s.request.value.(depth := s.request.value.depth + 1.0));
        }
    }
  }

  lemma WholeBelowMaximum(d: real)
    requires Whole(d) && d < MAX_DEPTH
    ensures d + 1.0 <= MAX_DEPTH && Whole(d + 1.0)
  {
    assert (d + 1.0).Floor == d.Floor + 1;
  }

  /** Every run of load, reset, view change, explore and expand from a whole starting depth keeps the
      query in step with the state and the depth in range. */
  lemma {:induction false} RunStaysInStep(n: Numerals, s: State, actions: seq<Action>)
    requires RoundTripsDepths(n) && InStep(n, s) && forall i :: 0 <= i < |actions| ==> Acceptable(actions[i])
    ensures InStep(n, Run(n, s, actions))
    decreases |actions|
  {
    if actions != [] {
      StepStaysInStep(n, s, actions[0]);
      RunStaysInStep(n, Step(n, s, actions[0]), actions[1..]);
    }
  }

  lemma StartIsInStep(n: Numerals, url: Params)
    requires Read(n, url).Some? ==> Whole(Read(n, url).value.depth)
    ensures InStep(n, Start(n, url))
  {
    ReadIsCanonical(n, url);
  }

  // ---- when every run keeps the depth in range ---------------------------------------------------

  predicate DepthInRange(s: State) { s.request.Some? ==> InRange(s.request.value.depth) }

  predicate DepthWhole(s: State) { s.request.Some? ==> Whole(s.request.value.depth) }

  predicate AllAcceptable(actions: seq<Action>) {
    forall i :: 0 <= i < |actions| ==> Acceptable(actions[i])
  }

  ghost predicate AlwaysInRange(n: Numerals, s: State) {
    forall actions :: AllAcceptable(actions) ==> DepthInRange(Run(n, s, actions))
  }

  lemma {:induction false} WholeStaysInRange(n: Numerals, s: State, actions: seq<Action>)
    requires DepthInRange(s) && DepthWhole(s) && AllAcceptable(actions)
    ensures DepthInRange(Run(n, s, actions))
    decreases |actions|
  {
    if actions != [] {
      if s.request.Some? && s.request.value.depth < MAX_DEPTH {
        WholeBelowMaximum(s.request.value.depth);
      }
      assert Acceptable(actions[0]);
      WholeStaysInRange(n, Step(n, s, actions[0]), actions[1..]);
    }
  }

  /** From a fractional depth, expanding again and again passes the maximum. */
  lemma {:induction false} ExpansionsEscape(n: Numerals, s: State) returns (actions: seq<Action>)
    requires s.request.Some? && InRange(s.request.value.depth) && !Whole(s.request.value.depth)
    ensures AllAcceptable(actions) && !DepthInRange(Run(n, s, actions))
    decreases 5 - s.request.value.depth.Floor
  {
    var d := s.request.value.depth;
    assert d < MAX_DEPTH && (d + 1.0).Floor == d.Floor + 1;
    var next := Step(n, s, ExpandOneHop);
    if d + 1.0 > MAX_DEPTH {
      actions := [ExpandOneHop];
      assert Run(n, next, actions[1..]) == next;
    } else {
      var rest := ExpansionsEscape(n, next);
      actions := [ExpandOneHop] + rest;
      assert actions[1..] == rest;
    }
  }

  /** Reading a query does not round. From a depth in range, every run keeps the range exactly when
      there is no request or its depth is a whole number. */
  lemma RunsKeepRangeExactly(n: Numerals, s: State)
    requires DepthInRange(s)
    ensures AlwaysInRange(n, s) <==> DepthWhole(s)
  {
    if DepthWhole(s) {
      forall actions | AllAcceptable(actions) ensures DepthInRange(Run(n, s, actions)) {
        WholeStaysInRange(n, s, actions);
      }
    } else {
      var actions := ExpansionsEscape(n, s);
    }
  }

  lemma FractionalDepthEscapes(n: Numerals, url: Params)
    requires Read(n, url).Some? && First(url, "depth").Some? && n.number(First(url, "depth").value) == Some(4.5)
    ensures Step(n, Start(n, url), ExpandOneHop).request.value.depth == 5.5
  {
  }

  /** The component's handlers. */
  class Workspace {
    const numerals: Numerals
    var view: View
    var request: Option<Request>
    var url: Params

    ghost function Current(): State
      reads this
    {
      State(view, request, url)
    }

    constructor (numerals: Numerals, url: Params)
      ensures this.numerals == numerals && Current() == Start(numerals, url)
    {
      this.numerals, this.url := numerals, url;
      view, request := ReadView(url), Read(numerals, url);
    }

    method UpdateUrl(nextRequest: Option<Request>, nextView: View)
      modifies this`url
      ensures url == Write(numerals, nextView, nextRequest)
    {
      url := Write(numerals, nextView, nextRequest);
    }

    method LoadRequest(nextRequest: Request)
      modifies this
      ensures Current() == Step(numerals, old(Current()), Load(nextRequest))
      ensures request == Some(nextRequest) && view == old(view) && ReadView(url) == view
      ensures RoundTripsDepths(numerals) && Canonical(nextRequest) && Whole(nextRequest.depth) ==> InStep(numerals, Current())
    {
      if RoundTripsDepths(numerals) && Canonical(nextRequest) && Whole(nextRequest.depth) {
        LoadedIsInStep(numerals, Current(), nextRequest);
      }
      ViewWritten(numerals, view, Some(nextRequest));
      request := Some(nextRequest);
      UpdateUrl(request, view);
    }

    method ResetRequest()
      modifies this
      ensures Current() == Step(numerals, old(Current()), Reset) && InStep(numerals, Current())
      ensures request == None && view == old(view)
    {
      EmptyQueryRoundTrip(numerals, view);
      request := None;
      UpdateUrl(None, view);
    }

    method SwitchView(nextView: View)
      modifies this
      ensures Current() == Step(numerals, old(Current()), ChangeView(nextView))
      ensures view == nextView && request == old(request) && ReadView(url) == nextView
      ensures RoundTripsDepths(numerals) && old(InStep(numerals, Current())) ==> InStep(numerals, Current())
    {
      if RoundTripsDepths(numerals) && InStep(numerals, Current()) {
        StepStaysInStep(numerals, Current(), ChangeView(nextView));
      }
      ViewWritten(numerals, nextView, request);
      view := nextView;
      UpdateUrl(request, nextView);
    }

    /** "Explore from here", offered for a selected entity of a loaded graph. */
    method ExploreFromEntity(entityType: string, entityId: string)
      modifies this
      ensures Current() == Step(numerals, old(Current()), ExploreFrom(entityType, entityId))
      ensures view == old(view)
      ensures request == if old(request).Some?
                         then Some(old(request).value.(entityType := entityType, entityId := entityId, depth := 1.0)) else None
    {
      if request.Some? {
        LoadRequest(request.value.(entityType := entityType, entityId := entityId, depth := 1.0));
      }
    }

    /** "Expand one hop", offered below the maximum depth. */
    method ExpandRequest()
      modifies this
      ensures Current() == Step(numerals, old(Current()), ExpandOneHop)
      ensures view == old(view)
      ensures request == if old(request).Some? && old(request).value.depth < 5.0
                         then Some(old(request).value.(depth := old(request).value.depth + 1.0)) else old(request)
      ensures RoundTripsDepths(numerals) && old(InStep(numerals, Current())) ==> InStep(numerals, Current())
    {
      if RoundTripsDepths(numerals) && InStep(numerals, Current()) {
        StepStaysInStep(numerals, Current(), ExpandOneHop);
      }
      if request.Some? && request.value.depth < MAX_DEPTH {
        LoadRequest(request.value.(depth := request.value.depth + 1.0));
      }
    }
  }
}
