/** Fail-open instrumentation: a session that emits events over a transport that may fail at any
    request, wrapped around programs whose nested calls may return, raise or exit otherwise. */
module EvidenceSession {
  import opened Texts
  import opened EvidenceAdapter
  import opened EvidenceProtocol
  import opened ControlPlane

  /** What a function hands to its caller. */
  datatype Outcome = Value(value: int) | Exception(error: int) | Exit(reason: int)

  function EndingOf(o: Outcome): (e: Ending)
    ensures e.Returned? <==> o.Value?
    ensures e.Raised? <==> o.Exception?
  {
    match o case Value(_) => Returned case Exception(_) => Raised case Exit(_) => Escaped
  }

  /** The application's variables, ADK state included. */
  type AppState = map<string, int>

  /** A deterministic function body over the application's state. The outcome of a nested call is
      recorded in the state by `receive`, so a body may ignore, handle or pass on any of them. */
  datatype Body =
    | Finish(outcome: AppState -> Outcome)
    | Update(change: AppState -> AppState, next: Body)
    | Branch(test: AppState -> bool, whenTrue: Body, whenFalse: Body)
    | Invoke(function_: Function, receive: (AppState, Outcome) -> AppState, next: Body)

  datatype Function = Function(decorated: bool, ctx: Context, name: Option<Text>, body: Body)

  /** The meaning of a body without instrumentation. */
  function Bare(b: Body, s: AppState): (Outcome, AppState)
    decreases b
  {
    match b
    case Finish(outcome) => (outcome(s), s)
    case Update(change, next) => Bare(next, change(s))
    case Branch(test, whenTrue, whenFalse) => if test(s) then Bare(whenTrue, s) else Bare(whenFalse, s)
    case Invoke(f, receive, next) =>
      var (o, t) := Bare(f.body, s);
      Bare(next, receive(t, o))
  }

  /** The `UnicodeEncodeError` of a step that cannot be derived. */
  const UNENCODABLE := Exception(0)

  /** The meaning of a body whose decorated calls derive their step first. */
  function Governed(b: Body, s: AppState): (Outcome, AppState)
    decreases b
  {
    match b
    case Finish(outcome) => (outcome(s), s)
    case Update(change, next) => Governed(next, change(s))
    case Branch(test, whenTrue, whenFalse) =>
      if test(s) then Governed(whenTrue, s) else Governed(whenFalse, s)
    case Invoke(f, receive, next) =>
      var (o, t) := GovernedCall(f, s);
      Governed(next, receive(t, o))
  }

  function GovernedCall(f: Function, s: AppState): (Outcome, AppState)
    decreases f
  {
    if f.decorated && !Derivable(f.ctx, f.name) then (UNENCODABLE, s) else Governed(f.body, s)
  }

  /** The instrumented calls a run makes, as a forest. */
  function Calls(b: Body, s: AppState): seq<Call>
    decreases b
  {
    match b
    case Finish(_) => []
    case Update(change, next) => Calls(next, change(s))
    case Branch(test, whenTrue, whenFalse) =>
      if test(s) then Calls(whenTrue, s) else Calls(whenFalse, s)
    case Invoke(f, receive, next) =>
      var (o, t) := GovernedCall(f, s);
      CallsOf(f, s) + Calls(next, receive(t, o))
  }

  function CallsOf(f: Function, s: AppState): seq<Call>
    decreases f
  {
    if !f.decorated then Calls(f.body, s)
    else if !Derivable(f.ctx, f.name) then []
    else [Call(f.ctx, f.name, Calls(f.body, s), EndingOf(Governed(f.body, s).0))]
  }

  // ---- when instrumentation is invisible ---------------------------------------------------------

  /** Every decorated call of the bare run can derive its step. */
  predicate AllDerivable(b: Body, s: AppState)
    decreases b
  {
    match b
    case Finish(_) => true
    case Update(change, next) => AllDerivable(next, change(s))
    case Branch(test, whenTrue, whenFalse) =>
      if test(s) then AllDerivable(whenTrue, s) else AllDerivable(whenFalse, s)
    case Invoke(f, receive, next) =>
      var (o, t) := Bare(f.body, s);
      DerivableCall(f, s) && AllDerivable(next, receive(t, o))
  }

  predicate DerivableCall(f: Function, s: AppState)
    decreases f
  {
    (f.decorated ==> Derivable(f.ctx, f.name)) && AllDerivable(f.body, s)
  }

  lemma {:induction false} GovernedIsBare(b: Body, s: AppState)
    requires AllDerivable(b, s)
    ensures Governed(b, s) == Bare(b, s)
    decreases b
  {
    match b {
      case Finish(_) =>
      case Update(change, next) => GovernedIsBare(next, change(s));
      case Branch(test, whenTrue, whenFalse) =>
        GovernedIsBare(if test(s) then whenTrue else whenFalse, s);
      case Invoke(f, receive, next) =>
        GovernedIsBare(f.body, s);
        var (o, t) := Bare(f.body, s);
        GovernedIsBare(next, receive(t, o));
    }
  }

  /** A decorated call is indistinguishable from the bare one exactly when its step can be derived, or
      the function itself raises that error at once. */
  lemma DecorationInvisibleExactly(f: Function, s: AppState)
    requires f.decorated && AllDerivable(f.body, s)
    ensures GovernedCall(f, s) == Bare(f.body, s) <==>
              Derivable(f.ctx, f.name) || Bare(f.body, s) == (UNENCODABLE, s)
  {
    GovernedIsBare(f.body, s);
  }

  /** Decorating with this context and name is invisible around every function and in every state. */
  ghost predicate Transparent(ctx: Context, name: Option<Text>) {
    forall body, s :: AllDerivable(body, s) ==> GovernedCall(Function(true, ctx, name, body), s) == Bare(body, s)
  }

  lemma TransparentExactly(ctx: Context, name: Option<Text>)
    ensures Transparent(ctx, name) <==> Derivable(ctx, name)
  {
    forall body, s | AllDerivable(body, s)
      ensures GovernedCall(Function(true, ctx, name, body), s) == Bare(body, s) <==>
                Derivable(ctx, name) || Bare(body, s) == (UNENCODABLE, s)
    {
      DecorationInvisibleExactly(Function(true, ctx, name, body), s);
    }
    var body: Body, s: AppState := Finish(_ => Value(1)), map[];
    assert AllDerivable(body, s) && Bare(body, s).0 == Value(1);
  }

  /** A context whose invocation id is a lone surrogate. */
  const SURROGATE_CONTEXT := Context(Some([0xd800]), Some(Chars("r")), Some(Chars("n")), None, None, None)

  /** Around a function that returns at once, that decoration raises. */
  lemma LoneSurrogateInterferes(value: int, s: AppState)
    ensures var f := Function(true, SURROGATE_CONTEXT, Some(Chars("n")), Finish(_ => Value(value)));
            Bare(f.body, s) == (Value(value), s) && GovernedCall(f, s) == (UNENCODABLE, s)
  {
    var c := SURROGATE_CONTEXT;
    RequiredTextIsStripped(c.invocationId);
    RequiredTextIsStripped(c.runId);
    RequiredTextIsStripped(c.nodePath);
    RequiredTextIsStripped(Some(Chars("n")));
    var i := Identity([0xd800], Chars("r"), Chars("n"));
    assert IdentityOf(c) == Some(i) && PreHash(i)[0] == 0xd800;
  }

  /** The control plane's answer to the request that starts an execution. */
  datatype StartReply = Unavailable | NoExecutionObject | Execution(executionId: Option<Text>)

  /** What becomes of one event request. Every failure surfaces as an `Exception`. */
  datatype Fate = Delivered | Lost | DeliveredButUnacknowledged

  predicate Arrives(f: Fate) { f != Lost }

  function Surviving(attempts: seq<Event>, fate: nat -> Fate): seq<Event> {
    if attempts == [] then []
    else
      var n := |attempts| - 1;
      Surviving(attempts[..n], fate) + (if Arrives(fate(n)) then [attempts[n]] else [])
  }

  lemma SurvivingNext(attempts: seq<Event>, e: Event, fate: nat -> Fate)
    ensures Surviving(attempts + [e], fate)
         == if fate(|attempts|) == Lost then Surviving(attempts, fate) else Surviving(attempts, fate) + [e]
  {
    assert (attempts + [e])[..|attempts|] == attempts;
  }

  /** One decorated call's own events around those of its nested calls: a start, and at the end
      COMPLETED for a value, FAILED for an exception, nothing for another exit. */
  ghost predicate EventsOfCall(before: seq<Event>, s: Step, nested: seq<Event>, o: Outcome, after: seq<Event>) {
    && (o.Value? ==> after == before + [Event(s, STARTED)] + nested + [Event(s, COMPLETED)])
    && (o.Exception? ==> after == before + [Event(s, STARTED)] + nested + [Event(s, FAILED)])
    && (o.Exit? ==> after == before + [Event(s, STARTED)] + nested)
  }

  class Session {
    const hash: Hash
    const fate: nat -> Fate
    const live: bool
    var attempts: seq<Event>
    var delivered: seq<Event>

    ghost predicate Valid()
      reads this
    {
      delivered == Surviving(attempts, fate)
    }

    /** `start_execution`: any failure yields the no-op session instead of an error. */
    constructor (hash: Hash, fate: nat -> Fate, reply: StartReply)
      ensures Valid() && attempts == [] && this.hash == hash && this.fate == fate
      ensures live <==> reply.Execution? && RequiredText(reply.executionId).Some?
    {
      this.hash, this.fate := hash, fate;
      live := reply.Execution? && RequiredText(reply.executionId).Some?;
      attempts, delivered := [], [];
    }

    /** One request. `raised` is whether the caller sees an exception. */
    method Request(e: Event) returns (raised: bool)
      requires Valid() && live
      modifies this`attempts, this`delivered
      ensures Valid() && attempts == old(attempts) + [e]
      ensures raised <==> fate(old(|attempts|)) != Delivered
      ensures delivered == if fate(old(|attempts|)) == Lost then old(delivered) else old(delivered) + [e]
    {
      var f := fate(|attempts|);
      SurvivingNext(attempts, e, fate);
      attempts := attempts + [e];
      if Arrives(f) {
        delivered := delivered + [e];
      }
      return f != Delivered;
    }

    /** `_emit_safely`: no step, no request; a raised exception is swallowed. */
    method EmitSafely(step: Option<Step>, l: Lifecycle)
      requires Valid()
      modifies this`attempts, this`delivered
      ensures Valid()
      ensures attempts == old(attempts) + (if live && step.Some? then [Event(step.value, l)] else [])
    {
      if step.None? {
        return;
      }
      if live {
        var _ := Request(Event(step.value, l));
      }
    }

    /** Whatever the transport does, the decorated call gives its caller what the bare function gives,
        if steps can be derived, and attempts exactly the events of the call it wraps. */
    method Wrapped(f: Function, s: AppState) returns (o: Outcome, t: AppState)
      requires Valid()
      modifies this`attempts, this`delivered
      ensures Valid() && (o, t) == GovernedCall(f, s)
      ensures DerivableCall(f, s) ==> (o, t) == Bare(f.body, s)
      ensures attempts == old(attempts) + Attempted(live, hash, CallsOf(f, s))
      ensures live && f.decorated && Derivable(f.ctx, f.name) && StepFromContext(hash, f.ctx, f.name).Some? ==>
                EventsOfCall(old(attempts), StepFromContext(hash, f.ctx, f.name).value,
                             Attempted(live, hash, Calls(f.body, s)), o, attempts)
      decreases f
    {
      AttemptedCall(live, hash, f, s);
      if DerivableCall(f, s) { GovernedIsBare(f.body, s); }
      if !f.decorated {
        o, t := Execute(f.body, s);
      } else if !Derivable(f.ctx, f.name) {
        o, t := UNENCODABLE, s;
      } else {
        o, t := Instrumented(f.body, StepFromContext(hash, f.ctx, f.name), s);
      }
    }

    /** The body of the wrapper. */
    method Instrumented(body: Body, step: Option<Step>, s: AppState) returns (o: Outcome, t: AppState)
      requires Valid()
      modifies this`attempts, this`delivered
      ensures Valid() && (o, t) == Governed(body, s)
      ensures attempts == old(attempts) + Bracketed(live, step, Attempted(live, hash, Calls(body, s)), EndingOf(o))
      ensures live && step.Some? ==>
                EventsOfCall(old(attempts), step.value, Attempted(live, hash, Calls(body, s)), o, attempts)
      decreases body, 1
    {
      EmitSafely(step, STARTED);
      o, t := Execute(body, s);
      ghost var mid := Attempted(live, hash, Calls(body, s));
      EmitEnding(step, o);
      BracketedInPieces(live, step, old(attempts), mid, EndingOf(o));
    }

    /** The `except Exception` arm and the normal exit; any other exit passes through silently. */
    method EmitEnding(step: Option<Step>, o: Outcome)
      requires Valid()
      modifies this`attempts, this`delivered
      ensures Valid()
      ensures attempts == old(attempts) + (if live && step.Some? then TerminalEvents(step.value, EndingOf(o)) else [])
      ensures live && step.Some? && o.Value? ==> attempts == old(attempts) + [Event(step.value, COMPLETED)]
      ensures live && step.Some? && o.Exception? ==> attempts == old(attempts) + [Event(step.value, FAILED)]
      ensures !live || step.None? || o.Exit? ==> attempts == old(attempts)
    {
      match o {
        case Exception(_) => EmitSafely(step, FAILED);
        case Value(_) => EmitSafely(step, COMPLETED);
        case Exit(_) =>
      }
    }

    method Execute(b: Body, s: AppState) returns (o: Outcome, t: AppState)
      requires Valid()
      modifies this`attempts, this`delivered
      ensures Valid() && (o, t) == Governed(b, s)
      ensures AllDerivable(b, s) ==> (o, t) == Bare(b, s)
      ensures attempts == old(attempts) + Attempted(live, hash, Calls(b, s))
      decreases b, 0
    {
      if AllDerivable(b, s) { GovernedIsBare(b, s); }
      match b {
        case Finish(outcome) =>
          o, t := outcome(s), s;
        case Update(change, next) =>
          o, t := Execute(next, change(s));
        case Branch(test, whenTrue, whenFalse) =>
          if test(s) {
            o, t := Execute(whenTrue, s);
          } else {
            o, t := Execute(whenFalse, s);
          }
        case Invoke(f, receive, next) =>
          var inner, u := Wrapped(f, s);
          ghost var first, middle := Attempted(live, hash, CallsOf(f, s)), attempts;
          o, t := Execute(next, receive(u, inner));
          ghost var rest := Attempted(live, hash, Calls(next, receive(u, inner)));
          AttemptedConcat(live, hash, CallsOf(f, s), Calls(next, receive(u, inner)));
          Regroup(old(attempts), first, rest);
      }
    }
  }

  lemma BracketedInPieces(live: bool, step: Option<Step>, before: seq<Event>, mid: seq<Event>, ending: Ending)
    ensures before + (if live && step.Some? then [Event(step.value, STARTED)] else [])
            + mid + (if live && step.Some? then TerminalEvents(step.value, ending) else [])
         == before + Bracketed(live, step, mid, ending)
  {
  }

  /** The events a session attempts for a forest of calls: none when it is the no-op session. */
  function Attempted(live: bool, hash: Hash, cs: seq<Call>): seq<Event> {
    if live then SequentialLogAll(hash, cs) else []
  }

  function Bracketed(live: bool, step: Option<Step>, mid: seq<Event>, ending: Ending): seq<Event> {
    if live && step.Some? then [Event(step.value, STARTED)] + mid + TerminalEvents(step.value, ending) else mid
  }

  lemma {:induction false} LogOfConcatenation(hash: Hash, a: seq<Call>, b: seq<Call>)
    ensures SequentialLogAll(hash, a + b) == SequentialLogAll(hash, a) + SequentialLogAll(hash, b)
  {
    if a == [] {
      assert a + b == b;
    } else {
      LogOfConcatenation(hash, a[1..], b);
      assert (a + b)[0] == a[0] && (a + b)[1..] == a[1..] + b;
      Regroup(SequentialLog(hash, a[0]), SequentialLogAll(hash, a[1..]), SequentialLogAll(hash, b));
    }
  }

  lemma AttemptedConcat(live: bool, hash: Hash, a: seq<Call>, b: seq<Call>)
    ensures Attempted(live, hash, a + b) == Attempted(live, hash, a) + Attempted(live, hash, b)
  {
    if live { LogOfConcatenation(hash, a, b); }
  }

  lemma AttemptedCall(live: bool, hash: Hash, f: Function, s: AppState)
    ensures Attempted(live, hash, CallsOf(f, s))
         == if !f.decorated then Attempted(live, hash, Calls(f.body, s))
            else if !Derivable(f.ctx, f.name) then []
            else Bracketed(live, StepFromContext(hash, f.ctx, f.name),
                           Attempted(live, hash, Calls(f.body, s)), EndingOf(Governed(f.body, s).0))
  {
    if f.decorated && Derivable(f.ctx, f.name) {
      var c := CallsOf(f, s)[0];
      assert [c][1..] == [];
      assert SequentialLogAll(hash, [c]) == SequentialLog(hash, c);
    }
  }

  // ---- outcomes and final phases -------------------------------------------------------------

  /** The phase of a call's step says how its function ended. */
  ghost predicate PhaseTells(phases: map<Text, Phase>, s: Step, o: Outcome) {
    s.id in phases &&
    match o
    case Value(_) => phases[s.id] == Closed(s, COMPLETED)
    case Exception(_) => phases[s.id] == Closed(s, FAILED)
    case Exit(_) => phases[s.id] == Open(s)
  }

  /** So it is for every decorated call a program makes. */
  ghost predicate PhasesTell(phases: map<Text, Phase>, hash: Hash, b: Body, s: AppState)
    decreases b
  {
    match b
    case Finish(_) => true
    case Update(change, next) => PhasesTell(phases, hash, next, change(s))
    case Branch(test, whenTrue, whenFalse) =>
      if test(s) then PhasesTell(phases, hash, whenTrue, s) else PhasesTell(phases, hash, whenFalse, s)
    case Invoke(f, receive, next) =>
      var (o, t) := GovernedCall(f, s);
      var step := StepFromContext(hash, f.ctx, f.name);
      && (f.decorated && Derivable(f.ctx, f.name) && step.Some? ==> PhaseTells(phases, step.value, o))
      && ((f.decorated ==> Derivable(f.ctx, f.name)) ==> PhasesTell(phases, hash, f.body, s))
      && PhasesTell(phases, hash, next, receive(t, o))
  }

  ghost predicate Includes(phases: map<Text, Phase>, part: map<Text, Phase>) {
    forall id :: id in part ==> id in phases && phases[id] == part[id]
  }

  lemma {:induction false} FinalPhasesSplit(hash: Hash, a: seq<Call>, b: seq<Call>, enclosing: set<Text>, phases: map<Text, Phase>)
    requires LinkedAll(hash, a + b, enclosing) && Includes(phases, FinalPhasesAll(hash, a + b))
    ensures LinkedAll(hash, a, enclosing) && LinkedAll(hash, b, enclosing)
    ensures Includes(phases, FinalPhasesAll(hash, a)) && Includes(phases, FinalPhasesAll(hash, b))
    ensures FinalPhasesAll(hash, a + b).Keys == FinalPhasesAll(hash, a).Keys + FinalPhasesAll(hash, b).Keys
  {
    if a == [] {
      assert a + b == b;
    } else {
      assert (a + b)[0] == a[0] && (a + b)[1..] == a[1..] + b;
      FinalPhasesSplit(hash, a[1..], b, enclosing, phases);
    }
  }

  lemma {:induction false} OutcomesTell(hash: Hash, b: Body, s: AppState, enclosing: set<Text>, phases: map<Text, Phase>)
    requires LinkedAll(hash, Calls(b, s), enclosing) && Includes(phases, FinalPhasesAll(hash, Calls(b, s)))
    ensures PhasesTell(phases, hash, b, s)
    decreases b
  {
    match b {
      case Finish(_) =>
      case Update(change, next) => OutcomesTell(hash, next, change(s), enclosing, phases);
      case Branch(test, whenTrue, whenFalse) =>
        OutcomesTell(hash, if test(s) then whenTrue else whenFalse, s, enclosing, phases);
      case Invoke(f, receive, next) =>
        var (o, t) := GovernedCall(f, s);
        FinalPhasesSplit(hash, CallsOf(f, s), Calls(next, receive(t, o)), enclosing, phases);
        OutcomesTell(hash, next, receive(t, o), enclosing, phases);
        CallTells(hash, f, s, enclosing, phases);
    }
  }

  lemma {:induction false} CallTells(hash: Hash, f: Function, s: AppState, enclosing: set<Text>, phases: map<Text, Phase>)
    requires LinkedAll(hash, CallsOf(f, s), enclosing) && Includes(phases, FinalPhasesAll(hash, CallsOf(f, s)))
    ensures var step := StepFromContext(hash, f.ctx, f.name);
            && (f.decorated && Derivable(f.ctx, f.name) && step.Some? ==> PhaseTells(phases, step.value, GovernedCall(f, s).0))
            && ((f.decorated ==> Derivable(f.ctx, f.name)) ==> PhasesTell(phases, hash, f.body, s))
    decreases f
  {
    if !f.decorated {
      OutcomesTell(hash, f.body, s, enclosing, phases);
    } else if Derivable(f.ctx, f.name) {
      var c := CallsOf(f, s)[0];
      assert [c][1..] == [];
      assert FinalPhasesAll(hash, [c]) == FinalPhases(hash, c);
      var step := StepOf(hash, c);
      var inner := FinalPhasesAll(hash, c.children);
      forall id | id in inner ensures id in phases && phases[id] == inner[id] {
        assert id in FinalPhases(hash, c);
      }
      OutcomesTell(hash, f.body, s, if step.None? then enclosing else enclosing + {step.value.id}, phases);
      if step.Some? { assert step.value.id in FinalPhases(hash, c); }
    }
  }

  // ---- what the control plane stores for a session -------------------------------------------

  function ArrivalPattern(fate: nat -> Fate, n: nat): (arrives: seq<bool>)
    ensures |arrives| == n && forall i :: 0 <= i < n ==> arrives[i] == Arrives(fate(i))
  {
    if n == 0 then [] else ArrivalPattern(fate, n - 1) + [Arrives(fate(n - 1))]
  }

  lemma {:induction false} SurvivingArrive(attempts: seq<Event>, fate: nat -> Fate)
    ensures KeyedAll(Surviving(attempts, fate)) == Arriving(attempts, ArrivalPattern(fate, |attempts|))
  {
    if attempts != [] {
      var n := |attempts| - 1;
      SurvivingArrive(attempts[..n], fate);
      assert ArrivalPattern(fate, n + 1)[..n] == ArrivalPattern(fate, n);
      if Arrives(fate(n)) {
        var shorter := Surviving(attempts[..n], fate);
        assert (shorter + [attempts[n]])[..|shorter|] == shorter;
      } else {
        assert Surviving(attempts, fate) == Surviving(attempts[..n], fate);
      }
    }
  }

  /** A live session around a program whose calls are well nested: under every pattern of transport
      failures the attempted events leave each step in the phase that tells its function's outcome, and
      the control plane stores exactly the grounded ones; when all requests arrive, every attempted
      event exactly when all names are usable. */
  lemma SessionEvidence(hash: Hash, fate: nat -> Fate, b: Body, s: AppState)
    requires DigestLength(hash) && CollisionFree(hash, IdentitiesAll(Calls(b, s))) && WellNestedAll(Calls(b, s), {})
    ensures var log := SequentialLogAll(hash, Calls(b, s));
            var arrives := ArrivalPattern(fate, |log|);
            var stored := IngestAll([], KeyedAll(Surviving(log, fate)));
            && ObserveAll(map[], log) == Some(FinalPhasesAll(hash, Calls(b, s)))
            && PhasesTell(FinalPhasesAll(hash, Calls(b, s)), hash, b, s)
            && stored == GroundedEvents(log, arrives, |log|)
            && (arrives == Everything(|log|) ==> (stored == KeyedAll(log) <==> AllNamesUsable(Calls(b, s))))
  {
    var cs := Calls(b, s);
    var log := SequentialLogAll(hash, cs);
    SequentialRunsEmit(hash, cs);
    EvidenceReachesControlPlane(hash, cs, log, ArrivalPattern(fate, |log|));
    assert {} + IdentitiesAll(cs) == IdentitiesAll(cs);
    WellNestedAllIsLinked(hash, cs, {});
    assert Ids(hash, {}) == {};
    EveryRunFollowsProtocol(hash, cs, log);
    OutcomesTell(hash, b, s, {}, FinalPhasesAll(hash, cs));
    SurvivingArrive(log, fate);
    EverythingArrives(log);
  }
}
