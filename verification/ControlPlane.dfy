/** The control plane's ingestion of workflow-step events, and what survives a lossy delivery. */
module ControlPlane {
  import opened Texts
  import opened EvidenceAdapter
  import opened EvidenceProtocol

  datatype Request = Request(key: Option<Text>, event: Event)

  datatype Reply = Stored | Replayed | KeyConflict | InvalidTransition | ExecutionClosed | InvalidFields

  // ---- the ingestion rule --------------------------------------------------------------------

  predicate KnownStep(log: seq<Request>, id: Text) {
    exists i :: 0 <= i < |log| && log[i].event.step.id == id
  }

  predicate HasStarted(log: seq<Request>, id: Text) {
    exists i :: 0 <= i < |log| && log[i].event.step.id == id && log[i].event.lifecycle == STARTED
  }

  predicate HasEnded(log: seq<Request>, id: Text) {
    exists i :: 0 <= i < |log| && log[i].event.step.id == id && log[i].event.lifecycle != STARTED
  }

  predicate TransitionAllowed(log: seq<Request>, e: Event) {
    && (e.step.parent.Some? ==> KnownStep(log, e.step.parent.value))
    && (if e.lifecycle == STARTED then !KnownStep(log, e.step.id)
        else HasStarted(log, e.step.id) && !HasEnded(log, e.step.id))
  }

  predicate KeyUsed(log: seq<Request>, key: Option<Text>) {
    key.Some? && exists i :: 0 <= i < |log| && log[i].key == key
  }

  /** The stored event a key belongs to: the repository's index holds the latest one saved. */
  function FindByKey(log: seq<Request>, key: Option<Text>): Request
    requires KeyUsed(log, key)
  {
    if log[|log| - 1].key == key then log[|log| - 1] else FindByKey(log[..|log| - 1], key)
  }

  /** The request model's and the step's own checks, made before the service is called. */
  predicate RequestAccepted(r: Request) {
    StepAccepted(r.event.step) && (r.key.Some? ==> |r.key.value| <= MAX_LENGTH)
  }

  function Ingest(log: seq<Request>, closed: bool, r: Request): (Reply, seq<Request>) {
    if !RequestAccepted(r) then (InvalidFields, log)
    else if closed then (ExecutionClosed, log)
    else if KeyUsed(log, r.key) then
      (if FindByKey(log, r.key).event == r.event then Replayed else KeyConflict, log)
    else if !TransitionAllowed(log, r.event) then (InvalidTransition, log)
    else (Stored, log + [r])
  }

  function IngestAll(log: seq<Request>, requests: seq<Request>): seq<Request>
    decreases |requests|
  {
    if requests == [] then log
    else IngestAll(Ingest(log, false, requests[0]).1, requests[1..])
  }

  /** One execution's append-only event store. */
  class Execution {
    var log: seq<Request>
    var closed: bool

    constructor ()
      ensures Valid() && log == [] && !closed
    {
      log, closed := [], false;
    }

    ghost predicate Valid()
      reads this
    {
      WellFormed(log) && UniqueKeys(log)
    }

    method IngestEvent(r: Request) returns (reply: Reply)
      requires Valid()
      modifies this`log
      ensures Valid()
      ensures (reply, log) == Ingest(old(log), closed, r)
      ensures ReplyExplained(old(log), closed, r, reply)
      ensures log == if reply == Stored then old(log) + [r] else old(log)
      ensures closed ==> log == old(log)
    {
      IngestKeepsWellFormed(log, closed, r);
      IngestExplained(log, closed, r);
      if !RequestAccepted(r) {
        return InvalidFields;
      }
      if closed {
        return ExecutionClosed;
      }
      if KeyUsed(log, r.key) {
        var existing := FindByKey(log, r.key);
        return if existing.event == r.event then Replayed else KeyConflict;
      }
      if !TransitionAllowed(log, r.event) {
        return InvalidTransition;
      }
      log := log + [r];
      return Stored;
    }

    method Complete()
      modifies this`closed
      ensures closed && log == old(log)
    {
      closed := true;
    }
  }

  // ---- what each reply means ---------------------------------------------------------------------

  ghost predicate UniqueKeys(log: seq<Request>) {
    forall i, j :: 0 <= i < j < |log| && log[i].key.Some? ==> log[i].key != log[j].key
  }

  /** The fields of a request, by the limits of the request model and of the step. */
  predicate FieldsInOrder(r: Request) {
    var s := r.event.step;
    && (exists i :: 0 <= i < |s.id| && !TextSpace(s.id[i])) && |s.id| <= 256
    && (exists i :: 0 <= i < |s.name| && !TextSpace(s.name[i])) && |s.name| <= 256
    && (s.parent.Some? ==>
          s.parent.value != s.id && |s.parent.value| <= 256
          && exists i :: 0 <= i < |s.parent.value| && !TextSpace(s.parent.value[i]))
    && (r.key.Some? ==> |r.key.value| <= 256)
  }

  /** What the history, the completion and the request say about the reply. */
  ghost predicate ReplyExplained(log: seq<Request>, closed: bool, r: Request, reply: Reply) {
    var mine := r.key.Some? && exists q :: q in log && q.key == r.key;
    var checked := FieldsInOrder(r) && !closed;
    && (reply == InvalidFields <==> !FieldsInOrder(r))
    && (reply == ExecutionClosed <==> FieldsInOrder(r) && closed)
    && (reply == Replayed <==> checked && mine && exists q :: q in log && q.key == r.key && q.event == r.event)
    && (reply == KeyConflict <==> checked && mine && exists q :: q in log && q.key == r.key && q.event != r.event)
    && (reply == InvalidTransition <==> checked && !mine && !MayFollow(log, r.event))
    && (reply == Stored <==> checked && !mine && MayFollow(log, r.event))
  }

  /** A parent is known; a start is of an unknown step; an end is of one that started and has not ended. */
  ghost predicate MayFollow(log: seq<Request>, e: Event) {
    && (e.step.parent.Some? ==> exists q :: q in log && q.event.step.id == e.step.parent.value)
    && (e.lifecycle == STARTED ==> forall q :: q in log ==> q.event.step.id != e.step.id)
    && (e.lifecycle != STARTED ==>
          (exists q :: q in log && q.event.step.id == e.step.id && q.event.lifecycle == STARTED)
          && forall q :: q in log && q.event.step.id == e.step.id ==> q.event.lifecycle == STARTED)
  }

  lemma AllowedExactly(log: seq<Request>, e: Event)
    ensures TransitionAllowed(log, e) <==> MayFollow(log, e)
  {
    forall id, q | q in log && q.event.step.id == id
      ensures KnownStep(log, id) && (q.event.lifecycle == STARTED ==> HasStarted(log, id))
              && (q.event.lifecycle != STARTED ==> HasEnded(log, id))
    {
      var i :| 0 <= i < |log| && log[i] == q;
    }
  }

  lemma FieldsExactly(r: Request)
    ensures RequestAccepted(r) <==> FieldsInOrder(r)
  {
  }

  lemma {:induction false} FindUniqueKey(log: seq<Request>, i: nat)
    requires UniqueKeys(log) && i < |log| && log[i].key.Some?
    ensures KeyUsed(log, log[i].key) && FindByKey(log, log[i].key) == log[i]
    decreases |log|
  {
    var n := |log| - 1;
    if i < n {
      FindUniqueKey(log[..n], i);
      assert log[..n][i] == log[i];
    }
  }

  /** The reply is the one the history explains, and only a stored request changes the history, which
      keeps every key once. */
  lemma IngestExplained(log: seq<Request>, closed: bool, r: Request)
    requires UniqueKeys(log)
    ensures var (reply, next) := Ingest(log, closed, r);
            ReplyExplained(log, closed, r, reply) && next == (if reply == Stored then log + [r] else log) && UniqueKeys(next)
  {
    FieldsExactly(r);
    AllowedExactly(log, r.event);
    if q :| q in log && r.key.Some? && q.key == r.key {
      var i :| 0 <= i < |log| && log[i] == q;
      FindUniqueKey(log, i);
      forall p | p in log && p.key == r.key ensures p == q {
        var j :| 0 <= j < |log| && log[j] == p;
      }
    }
  }

  // ---- completion ----------------------------------------------------------------------------------

  datatype Action = Send(request: Request) | Complete

  /** The history and the completion after a sequence of requests with completions among them. */
  function Perform(log: seq<Request>, closed: bool, actions: seq<Action>): (seq<Request>, bool)
    decreases |actions|
  {
    if actions == [] then (log, closed)
    else
      match actions[0]
      case Send(r) => Perform(Ingest(log, closed, r).1, closed, actions[1..])
      case Complete => Perform(log, true, actions[1..])
  }

  lemma {:induction false} ClosedStays(log: seq<Request>, actions: seq<Action>)
    requires UniqueKeys(log)
    ensures Perform(log, true, actions) == (log, true)
    decreases |actions|
  {
    if actions != [] {
      if actions[0].Send? { IngestExplained(log, true, actions[0].request); }
      ClosedStays(log, actions[1..]);
    }
  }

  /** Once completed, an execution's history never changes, whatever is sent. */
  lemma {:induction false} NothingAfterCompletion(log: seq<Request>, before: seq<Action>, after: seq<Action>)
    requires UniqueKeys(log)
    ensures Perform(log, false, before + ([Complete] + after)).0 == Perform(log, false, before).0
    decreases |before|
  {
    var actions := before + ([Complete] + after);
    if before == [] {
      assert actions[0] == Complete && actions[1..] == after;
      ClosedStays(log, after);
    } else {
      assert actions[0] == before[0] && actions[1..] == before[1..] + ([Complete] + after);
      match before[0] {
        case Send(r) =>
          IngestExplained(log, false, r);
          NothingAfterCompletion(Ingest(log, false, r).1, before[1..], after);
        case Complete =>
          ClosedStays(log, actions[1..]);
          ClosedStays(log, before[1..]);
      }
    }
  }

  // ---- what every request sequence keeps -------------------------------------------------------

  /** Every stored event has accepted fields and was allowed by what came before it. */
  ghost predicate WellFormed(log: seq<Request>) {
    forall i :: 0 <= i < |log| ==> RequestAccepted(log[i]) && TransitionAllowed(log[..i], log[i].event)
  }

  lemma IngestKeepsWellFormed(log: seq<Request>, closed: bool, r: Request)
    requires WellFormed(log)
    ensures WellFormed(Ingest(log, closed, r).1)
  {
    var next := Ingest(log, closed, r).1;
    forall i | 0 <= i < |next| ensures RequestAccepted(next[i]) && TransitionAllowed(next[..i], next[i].event) {
      if i < |log| {
        assert next[..i] == log[..i];
      } else {
        assert next[..i] == log;
      }
    }
  }

  lemma {:induction false} EveryHistoryIsWellFormed(log: seq<Request>, requests: seq<Request>)
    requires WellFormed(log)
    ensures WellFormed(IngestAll(log, requests))
    decreases |requests|
  {
    if requests != [] {
      IngestKeepsWellFormed(log, false, requests[0]);
      EveryHistoryIsWellFormed(Ingest(log, false, requests[0]).1, requests[1..]);
    }
  }

  /** In any history, whatever clients sent: two events of one step are its start, then its end;
      so a step has at most two, and a parent's first event precedes its children's events. */
  lemma HistoryShape(requests: seq<Request>)
    ensures var log := IngestAll([], requests);
            && (forall i, j :: 0 <= i < j < |log| && log[i].event.step.id == log[j].event.step.id ==>
                  log[i].event.lifecycle == STARTED && log[j].event.lifecycle != STARTED)
            && (forall j :: 0 <= j < |log| && log[j].event.lifecycle != STARTED ==>
                  HasStarted(log[..j], log[j].event.step.id))
            && (forall j :: 0 <= j < |log| && log[j].event.step.parent.Some? ==>
                  KnownStep(log[..j], log[j].event.step.parent.value))
            && (forall j :: 0 <= j < |log| ==> StepAccepted(log[j].event.step))
  {
    var log := IngestAll([], requests);
    EveryHistoryIsWellFormed([], requests);
    forall i, j | 0 <= i < j < |log| && log[i].event.step.id == log[j].event.step.id
      ensures log[i].event.lifecycle == STARTED && log[j].event.lifecycle != STARTED
    {
      assert TransitionAllowed(log[..j], log[j].event);
      assert log[..j][i] == log[i];
      assert KnownStep(log[..j], log[j].event.step.id);
    }
    forall j | 0 <= j < |log|
      ensures log[j].event.lifecycle != STARTED ==> HasStarted(log[..j], log[j].event.step.id)
      ensures log[j].event.step.parent.Some? ==> KnownStep(log[..j], log[j].event.step.parent.value)
    {
      assert TransitionAllowed(log[..j], log[j].event);
    }
  }

  // ---- lossy delivery of a protocol run ----------------------------------------------------------

  function Keyed(e: Event): Request { Request(Some(IdempotencyKey(e)), e) }

  /** The requests that reach the control plane when event i arrives exactly if `arrives[i]`. */
  function Arriving(log: seq<Event>, arrives: seq<bool>): seq<Request>
    requires |log| == |arrives|
  {
    if log == [] then []
    else
      var n := |log| - 1;
      Arriving(log[..n], arrives[..n]) + (if arrives[n] then [Keyed(log[n])] else [])
  }

  /** Event i is grounded: it arrives, its fields are accepted, its own start was grounded (for an
      end), and the start of its linked parent was grounded (for a start). */
  ghost predicate Grounded(log: seq<Event>, arrives: seq<bool>, i: nat)
    requires |log| == |arrives| && i < |log|
    decreases i
  {
    arrives[i] && FieldsAccepted(log[i]) &&
    (if log[i].lifecycle != STARTED then
       exists j: nat :: j < i && log[j].step.id == log[i].step.id && log[j].lifecycle == STARTED
                        && Grounded(log, arrives, j)
     else log[i].step.parent.Some? ==>
       exists j: nat :: j < i && log[j].step.id == log[i].step.parent.value && log[j].lifecycle == STARTED
                        && Grounded(log, arrives, j))
  }

  ghost function GroundedEvents(log: seq<Event>, arrives: seq<bool>, n: nat): seq<Request>
    requires |log| == |arrives| && n <= |log|
  {
    if n == 0 then []
    else GroundedEvents(log, arrives, n - 1)
         + (if Grounded(log, arrives, n - 1) then [Keyed(log[n - 1])] else [])
  }

  // ---- the order inside a protocol run ---------------------------------------------------------

  /** The phases record exactly which starts and ends have been seen. */
  ghost predicate Tracks(phases: map<Text, Phase>, log: seq<Event>) {
    && (forall j :: 0 <= j < |log| ==> log[j].step.id in phases)
    && (forall j :: 0 <= j < |log| && log[j].lifecycle != STARTED ==> phases[log[j].step.id].Closed?)
    && (forall id :: id in phases ==>
          exists j :: 0 <= j < |log| && log[j] == Event(phases[id].step, STARTED) && log[j].step.id == id)
  }

  lemma {:induction false} PhasesTrack(log: seq<Event>)
    requires ObserveAll(map[], log).Some?
    ensures Tracks(ObserveAll(map[], log).value, log)
    decreases |log|
  {
    if log != [] {
      var n := |log| - 1;
      var before := log[..n];
      ObservePrefix(map[], log, n);
      assert log[..n + 1] == log;
      PhasesTrack(before);
      var p, q := ObserveAll(map[], before).value, ObserveAll(map[], log).value;
      forall id | id in q
        ensures exists j :: 0 <= j < |log| && log[j] == Event(q[id].step, STARTED) && log[j].step.id == id
      {
        if id in p {
          var j :| 0 <= j < |before| && before[j] == Event(p[id].step, STARTED) && before[j].step.id == id;
          assert log[j] == before[j];
        } else {
          assert log[n] == Event(q[id].step, STARTED);
        }
      }
      forall j | 0 <= j < |log| ensures log[j].step.id in q && (log[j].lifecycle != STARTED ==> q[log[j].step.id].Closed?) {
        if j < n { assert log[j] == before[j]; }
      }
    }
  }

  /** Event n against the events before it. */
  lemma ProtocolOrder(log: seq<Event>, n: nat)
    requires ObserveAll(map[], log).Some? && n < |log|
    ensures log[n].lifecycle == STARTED ==> forall j :: 0 <= j < n ==> log[j].step.id != log[n].step.id
    ensures log[n].lifecycle != STARTED ==>
              (exists j: nat :: j < n && log[j] == Event(log[n].step, STARTED))
              && (forall j :: 0 <= j < n && log[j].step.id == log[n].step.id ==> log[j].lifecycle == STARTED)
    ensures log[n].step.parent.Some? ==>
              exists j: nat :: j < n && log[j].step.id == log[n].step.parent.value && log[j].lifecycle == STARTED
  {
    var before := log[..n];
    ObservePrefix(map[], log, n);
    PhasesTrack(before);
    var p := ObserveAll(map[], before).value;
    assert forall j :: 0 <= j < n ==> before[j] == log[j];
    if log[n].lifecycle != STARTED {
      var j :| 0 <= j < |before| && before[j] == Event(p[log[n].step.id].step, STARTED) && before[j].step.id == log[n].step.id;
      assert log[j] == Event(log[n].step, STARTED);
    }
    if log[n].step.parent.Some? {
      var id := log[n].step.parent.value;
      var j :| 0 <= j < |before| && before[j] == Event(p[id].step, STARTED) && before[j].step.id == id;
      assert log[j].step.id == id;
    }
  }

  // ---- exactly the grounded events survive -----------------------------------------------------

  lemma {:induction false} IngestSnoc(log: seq<Request>, requests: seq<Request>, r: Request)
    ensures IngestAll(log, requests + [r]) == Ingest(IngestAll(log, requests), false, r).1
    decreases |requests|
  {
    var all := requests + [r];
    if requests == [] {
      assert all[1..] == [];
    } else {
      assert all[1..] == requests[1..] + [r];
      IngestSnoc(Ingest(log, false, requests[0]).1, requests[1..], r);
    }
  }

  lemma {:induction false} GroundedMembers(log: seq<Event>, arrives: seq<bool>, n: nat)
    requires |log| == |arrives| && n <= |log|
    ensures forall j: nat :: j < n && Grounded(log, arrives, j) ==> Keyed(log[j]) in GroundedEvents(log, arrives, n)
    ensures forall r :: r in GroundedEvents(log, arrives, n) ==>
              exists j: nat :: j < n && Grounded(log, arrives, j) && r == Keyed(log[j])
  {
    if n > 0 {
      GroundedMembers(log, arrives, n - 1);
      forall r | r in GroundedEvents(log, arrives, n)
        ensures exists j: nat :: j < n && Grounded(log, arrives, j) && r == Keyed(log[j])
      {
        if r !in GroundedEvents(log, arrives, n - 1) {
          assert Grounded(log, arrives, n - 1) && r == Keyed(log[n - 1]);
        }
      }
    }
  }

  lemma KeyUnused(log: seq<Event>, arrives: seq<bool>, n: nat)
    requires |log| == |arrives| && n < |log| && ObserveAll(map[], log).Some?
    ensures !KeyUsed(GroundedEvents(log, arrives, n), Keyed(log[n]).key)
  {
    GroundedMembers(log, arrives, n);
    ProtocolOrder(log, n);
    var stored := GroundedEvents(log, arrives, n);
    forall i | 0 <= i < |stored| ensures stored[i].key != Keyed(log[n]).key {
      assert stored[i] in stored;
      var j: nat :| j < n && Grounded(log, arrives, j) && stored[i] == Keyed(log[j]);
      KeyDeterminesStepAndLifecycle(log[j], log[n]);
    }
  }

  lemma KnownIffGrounded(log: seq<Event>, arrives: seq<bool>, n: nat, id: Text)
    requires |log| == |arrives| && n <= |log|
    ensures var stored := GroundedEvents(log, arrives, n);
            var start := exists j: nat :: j < n && log[j].step.id == id && log[j].lifecycle == STARTED && Grounded(log, arrives, j);
            (KnownStep(stored, id) <==> start) && (HasStarted(stored, id) <==> start)
  {
    GroundedMembers(log, arrives, n);
    var stored := GroundedEvents(log, arrives, n);
    if KnownStep(stored, id) {
      var i :| 0 <= i < |stored| && stored[i].event.step.id == id;
      assert stored[i] in stored;
      var j: nat :| j < n && Grounded(log, arrives, j) && stored[i] == Keyed(log[j]);
      if log[j].lifecycle != STARTED {
        var k: nat :| k < j && log[k].step.id == id && log[k].lifecycle == STARTED && Grounded(log, arrives, k);
        assert k < n;
      }
    }
    if start: nat :| start < n && log[start].step.id == id && log[start].lifecycle == STARTED && Grounded(log, arrives, start) {
      assert Keyed(log[start]) in stored;
      var i :| 0 <= i < |stored| && stored[i] == Keyed(log[start]);
      assert HasStarted(stored, id);
    }
  }

  lemma AllowedIffGrounded(log: seq<Event>, arrives: seq<bool>, n: nat)
    requires |log| == |arrives| && n < |log| && ObserveAll(map[], log).Some? && arrives[n] && FieldsAccepted(log[n])
    ensures TransitionAllowed(GroundedEvents(log, arrives, n), log[n]) <==> Grounded(log, arrives, n)
  {
    KnownIffGrounded(log, arrives, n, log[n].step.id);
    if log[n].step.parent.Some? {
      KnownIffGrounded(log, arrives, n, log[n].step.parent.value);
    }
    if log[n].lifecycle == STARTED {
      FirstOfItsStep(log, arrives, n);
    } else {
      NotYetEnded(log, arrives, n);
      if Grounded(log, arrives, n) && log[n].step.parent.Some? {
        ParentStillGrounded(log, arrives, n);
      }
    }
  }

  lemma FirstOfItsStep(log: seq<Event>, arrives: seq<bool>, n: nat)
    requires |log| == |arrives| && n < |log| && ObserveAll(map[], log).Some? && log[n].lifecycle == STARTED
    ensures !KnownStep(GroundedEvents(log, arrives, n), log[n].step.id)
  {
    ProtocolOrder(log, n);
    KnownIffGrounded(log, arrives, n, log[n].step.id);
  }

  lemma NotYetEnded(log: seq<Event>, arrives: seq<bool>, n: nat)
    requires |log| == |arrives| && n < |log| && ObserveAll(map[], log).Some? && log[n].lifecycle != STARTED
    ensures !HasEnded(GroundedEvents(log, arrives, n), log[n].step.id)
  {
    var stored := GroundedEvents(log, arrives, n);
    ProtocolOrder(log, n);
    GroundedMembers(log, arrives, n);
    forall i | 0 <= i < |stored| && stored[i].event.step.id == log[n].step.id
      ensures stored[i].event.lifecycle == STARTED
    {
      assert stored[i] in stored;
    }
  }

  /** The start of a grounded step has a grounded parent. */
  lemma ParentStillGrounded(log: seq<Event>, arrives: seq<bool>, n: nat)
    requires |log| == |arrives| && n < |log| && ObserveAll(map[], log).Some? && log[n].lifecycle != STARTED
    requires Grounded(log, arrives, n) && log[n].step.parent.Some?
    ensures exists j: nat :: j < n && log[j].step.id == log[n].step.parent.value && log[j].lifecycle == STARTED
                             && Grounded(log, arrives, j)
  {
    var j: nat :| j < n && log[j].step.id == log[n].step.id && log[j].lifecycle == STARTED && Grounded(log, arrives, j);
    ProtocolOrder(log, n);
    var start: nat :| start < n && log[start] == Event(log[n].step, STARTED);
    ProtocolOrder(log, j);
    ProtocolOrder(log, start);
    assert j == start;
    var k: nat :| k < j && log[k].step.id == log[n].step.parent.value && log[k].lifecycle == STARTED && Grounded(log, arrives, k);
  }

  lemma {:induction false} GroundedSurvive(log: seq<Event>, arrives: seq<bool>, n: nat)
    requires |log| == |arrives| && n <= |log| && ObserveAll(map[], log).Some?
    ensures IngestAll([], Arriving(log[..n], arrives[..n])) == GroundedEvents(log, arrives, n)
  {
    if n > 0 {
      var m := n - 1;
      GroundedSurvive(log, arrives, m);
      ArrivingNext(log, arrives, m);
      if arrives[m] {
        IngestSnoc([], Arriving(log[..m], arrives[..m]), Keyed(log[m]));
        NextSurvives(log, arrives, m);
      }
    }
  }

  lemma ArrivingNext(log: seq<Event>, arrives: seq<bool>, m: nat)
    requires |log| == |arrives| && m < |log|
    ensures Arriving(log[..m + 1], arrives[..m + 1])
         == if arrives[m] then Arriving(log[..m], arrives[..m]) + [Keyed(log[m])] else Arriving(log[..m], arrives[..m])
  {
    assert log[..m + 1][..m] == log[..m] && arrives[..m + 1][..m] == arrives[..m];
  }

  lemma NextSurvives(log: seq<Event>, arrives: seq<bool>, m: nat)
    requires |log| == |arrives| && m < |log| && ObserveAll(map[], log).Some? && arrives[m]
    ensures Ingest(GroundedEvents(log, arrives, m), false, Keyed(log[m])).1 == GroundedEvents(log, arrives, m + 1)
  {
    KeyUnused(log, arrives, m);
    if FieldsAccepted(log[m]) { AllowedIffGrounded(log, arrives, m); }
  }

  /** For every protocol run and every pattern of lost requests, the control plane ends up with
      exactly the grounded events, in the order they were attempted. */
  lemma SurvivorsExactly(log: seq<Event>, arrives: seq<bool>)
    requires |log| == |arrives| && ObserveAll(map[], log).Some?
    ensures IngestAll([], Arriving(log, arrives)) == GroundedEvents(log, arrives, |log|)
  {
    GroundedSurvive(log, arrives, |log|);
    assert log[..|log|] == log && arrives[..|log|] == arrives;
  }

  function KeyedAll(log: seq<Event>): (r: seq<Request>)
    ensures |r| == |log| && forall i :: 0 <= i < |log| ==> r[i] == Keyed(log[i])
  {
    if log == [] then [] else KeyedAll(log[..|log| - 1]) + [Keyed(log[|log| - 1])]
  }

  ghost predicate EventsAccepted(log: seq<Event>) { forall e :: e in log ==> FieldsAccepted(e) }

  function Everything(n: nat): (arrives: seq<bool>)
    ensures |arrives| == n && forall i :: 0 <= i < n ==> arrives[i]
  {
    seq(n, _ => true)
  }

  lemma {:induction false} EverythingArrives(log: seq<Event>)
    ensures Arriving(log, Everything(|log|)) == KeyedAll(log)
  {
    if log != [] {
      var n := |log| - 1;
      EverythingArrives(log[..n]);
      assert Everything(|log|)[..n] == Everything(n);
    }
  }

  lemma {:induction false} EverythingGrounded(log: seq<Event>, arrives: seq<bool>, n: nat)
    requires |log| == |arrives| && ObserveAll(map[], log).Some? && n <= |log|
    requires (forall i :: 0 <= i < |arrives| ==> arrives[i]) && EventsAccepted(log)
    ensures forall i: nat :: i < n ==> Grounded(log, arrives, i)
  {
    if n > 0 {
      EverythingGrounded(log, arrives, n - 1);
      NextGrounded(log, arrives, n - 1);
    }
  }

  lemma {:induction false} GroundedAll(log: seq<Event>, arrives: seq<bool>, n: nat)
    requires |log| == |arrives| && n <= |log| && forall i: nat :: i < n ==> Grounded(log, arrives, i)
    ensures GroundedEvents(log, arrives, n) == KeyedAll(log[..n])
  {
    if n > 0 {
      GroundedAll(log, arrives, n - 1);
      assert log[..n][..n - 1] == log[..n - 1];
    }
  }

  lemma NextGrounded(log: seq<Event>, arrives: seq<bool>, n: nat)
    requires |log| == |arrives| && ObserveAll(map[], log).Some? && n < |log| && arrives[n] && FieldsAccepted(log[n])
    requires forall i: nat :: i < n ==> Grounded(log, arrives, i)
    ensures Grounded(log, arrives, n)
  {
    ProtocolOrder(log, n);
    if log[n].lifecycle != STARTED {
      var j: nat :| j < n && log[j] == Event(log[n].step, STARTED);
      assert Grounded(log, arrives, j);
    }
  }

  // ---- exactly when everything is stored ---------------------------------------------------------

  /** Every event of the log, in order, is stored. */
  ghost predicate StoredWhole(log: seq<Event>) { IngestAll([], KeyedAll(log)) == KeyedAll(log) }

  lemma {:induction false} IngestAddsAtMostOne(log: seq<Request>, requests: seq<Request>)
    ensures |IngestAll(log, requests)| <= |log| + |requests|
    decreases |requests|
  {
    if requests != [] {
      IngestAddsAtMostOne(Ingest(log, false, requests[0]).1, requests[1..]);
    }
  }

  lemma StoredWholeSteps(log: seq<Event>)
    requires log != [] && StoredWhole(log)
    ensures var before := log[..|log| - 1];
            StoredWhole(before) && Ingest(KeyedAll(before), false, Keyed(log[|log| - 1])).0 == Stored
  {
    var before, last := log[..|log| - 1], Keyed(log[|log| - 1]);
    var stored := IngestAll([], KeyedAll(before));
    IngestSnoc([], KeyedAll(before), last);
    IngestAddsAtMostOne([], KeyedAll(before));
    assert KeyedAll(log) == KeyedAll(before) + [last];
    assert Ingest(stored, false, last).1 == KeyedAll(before) + [last];
    assert stored == KeyedAll(before);
  }

  lemma {:induction false} StoredWholeNeeds(log: seq<Event>)
    requires StoredWhole(log)
    ensures EventsAccepted(log) && StartsLinked({}, log)
  {
    if log != [] {
      var n := |log| - 1;
      var before, e := log[..n], log[n];
      StoredWholeSteps(log);
      StoredWholeNeeds(before);
      StoredNext(before, e);
      Appended(before, e);
      assert before + [e] == log;
    }
  }

  lemma StoredNext(before: seq<Event>, e: Event)
    requires Ingest(KeyedAll(before), false, Keyed(e)).0 == Stored
    ensures FieldsAccepted(e) && (e.lifecycle == STARTED ==> StartLinked(IdsIn(before), e.step))
  {
    KnownInKeyed(before, e.step.id);
    if e.step.parent.Some? { KnownInKeyed(before, e.step.parent.value); }
  }

  lemma Appended(before: seq<Event>, e: Event)
    requires EventsAccepted(before) && FieldsAccepted(e)
    requires StartsLinked({}, before) && (e.lifecycle == STARTED ==> StartLinked(IdsIn(before), e.step))
    ensures EventsAccepted(before + [e]) && StartsLinked({}, before + [e])
  {
    var log := before + [e];
    forall k | 0 <= k < |log| && log[k].lifecycle == STARTED ensures StartLinked({} + IdsIn(log[..k]), log[k].step) {
      assert {} + IdsIn(log[..k]) == IdsIn(log[..k]);
      if k < |before| {
        assert before[k] == log[k] && before[..k] == log[..k];
      } else {
        assert log[..k] == before;
      }
    }
  }

  lemma KnownInKeyed(log: seq<Event>, id: Text)
    ensures KnownStep(KeyedAll(log), id) <==> id in IdsIn(log)
  {
    if id in IdsIn(log) {
      var e :| e in log && e.step.id == id;
      var k :| 0 <= k < |log| && log[k] == e;
      assert KeyedAll(log)[k].event.step.id == id;
    }
  }

  /** The fields of every event a call can emit are accepted. */
  predicate CallAccepted(hash: Hash, c: Call)
    decreases c, 1
  {
    var step := StepOf(hash, c);
    && (step.Some? ==> FieldsAccepted(Event(step.value, STARTED))
                       && forall e :: e in TerminalEvents(step.value, c.ending) ==> FieldsAccepted(e))
    && CallsAccepted(hash, c.children)
  }

  predicate CallsAccepted(hash: Hash, cs: seq<Call>)
    decreases cs, 0
  {
    cs != [] ==> CallAccepted(hash, cs[0]) && CallsAccepted(hash, cs[1..])
  }

  lemma {:induction false} CallAcceptedExactly(hash: Hash, c: Call, log: seq<Event>)
    requires Emits(hash, c, log)
    ensures EventsAccepted(log) <==> CallAccepted(hash, c)
    decreases c, 1
  {
    var step := StepOf(hash, c);
    if step.None? {
      CallsAcceptedExactly(hash, c.children, log);
    } else {
      var first, terminal := [Event(step.value, STARTED)], TerminalEvents(step.value, c.ending);
      var mid :| EmitsAll(hash, c.children, mid) && log == first + mid + terminal;
      CallsAcceptedExactly(hash, c.children, mid);
      assert forall e :: e in log <==> e in first || e in mid || e in terminal;
      assert first[0] in log;
    }
  }

  lemma {:induction false} CallsAcceptedExactly(hash: Hash, cs: seq<Call>, log: seq<Event>)
    requires EmitsAll(hash, cs, log)
    ensures EventsAccepted(log) <==> CallsAccepted(hash, cs)
    decreases cs, 0
  {
    if cs != [] {
      var a, b :| Emits(hash, cs[0], a) && EmitsAll(hash, cs[1..], b) && Shuffle(a, b, log);
      ShuffleMembers(a, b, log);
      CallAcceptedExactly(hash, cs[0], a);
      CallsAcceptedExactly(hash, cs[1..], b);
    }
  }

  ghost predicate EveryRunStoredWhole(hash: Hash, cs: seq<Call>) {
    forall log :: EmitsAll(hash, cs, log) ==> StoredWhole(log)
  }

  lemma LinkedRunStoredWhole(hash: Hash, cs: seq<Call>, log: seq<Event>)
    requires LinkedAll(hash, cs, {}) && CallsAccepted(hash, cs) && EmitsAll(hash, cs, log)
    ensures StoredWhole(log)
  {
    var arrives := Everything(|log|);
    EveryRunFollowsProtocol(hash, cs, log);
    CallsAcceptedExactly(hash, cs, log);
    SurvivorsExactly(log, arrives);
    EverythingGrounded(log, arrives, |log|);
    GroundedAll(log, arrives, |log|);
    EverythingArrives(log);
    assert log[..|log|] == log;
  }

  /** With nothing lost, the control plane stores every interleaving of a forest whole exactly when
      ids are distinct, parent links lead to enclosing steps, and every event's fields are accepted. */
  lemma StoredWholeExactly(hash: Hash, cs: seq<Call>)
    ensures EveryRunStoredWhole(hash, cs) <==> LinkedAll(hash, cs, {}) && CallsAccepted(hash, cs)
  {
    if LinkedAll(hash, cs, {}) && CallsAccepted(hash, cs) {
      forall log | EmitsAll(hash, cs, log) ensures StoredWhole(log) {
        LinkedRunStoredWhole(hash, cs, log);
      }
    }
    if EveryRunStoredWhole(hash, cs) {
      forall log | EmitsAll(hash, cs, log) ensures StartsLinked({}, log) && EventsAccepted(log) {
        StoredWholeNeeds(log);
      }
      LinkedAllFromRuns(hash, cs, {});
      SequentialRunsEmit(hash, cs);
      CallsAcceptedExactly(hash, cs, SequentialLogAll(hash, cs));
    }
  }

  // ---- from contexts to the stored history --------------------------------------------------------

  /** Every call that emits does so under a name that is not blank. */
  predicate NamesUsable(c: Call)
    decreases c, 1
  {
    (Emitting(c).Some? ==> NameIsUsable(c.ctx, c.name)) && AllNamesUsable(c.children)
  }

  predicate AllNamesUsable(cs: seq<Call>)
    decreases cs, 0
  {
    cs != [] ==> NamesUsable(cs[0]) && AllNamesUsable(cs[1..])
  }

  lemma {:induction false} AcceptedExactlyWhenNamed(hash: Hash, c: Call, enclosing: set<Text>)
    requires DigestLength(hash) && Linked(hash, c, enclosing)
    ensures CallAccepted(hash, c) <==> NamesUsable(c)
    decreases c, 1
  {
    var step := StepOf(hash, c);
    if step.None? {
      AllAcceptedExactlyWhenNamed(hash, c.children, enclosing);
    } else {
      AllAcceptedExactlyWhenNamed(hash, c.children, enclosing + {step.value.id});
      forall l ensures FieldsAccepted(Event(step.value, l)) <==> NameIsUsable(c.ctx, c.name) {
        EmittedFieldsAcceptedExactly(hash, c.ctx, c.name, l);
      }
    }
  }

  lemma {:induction false} AllAcceptedExactlyWhenNamed(hash: Hash, cs: seq<Call>, enclosing: set<Text>)
    requires DigestLength(hash) && LinkedAll(hash, cs, enclosing)
    ensures CallsAccepted(hash, cs) <==> AllNamesUsable(cs)
    decreases cs, 0
  {
    if cs != [] {
      AcceptedExactlyWhenNamed(hash, cs[0], enclosing);
      AllAcceptedExactlyWhenNamed(hash, cs[1..], enclosing);
    }
  }

  /** From contexts to the stored history: whatever the interleaving of a well-nested forest and
      whatever is lost, the control plane stores exactly the grounded events; and when nothing is
      lost, all of them exactly when every emitting call has a usable name. */
  lemma EvidenceReachesControlPlane(hash: Hash, cs: seq<Call>, log: seq<Event>, arrives: seq<bool>)
    requires DigestLength(hash) && CollisionFree(hash, IdentitiesAll(cs))
    requires WellNestedAll(cs, {}) && EmitsAll(hash, cs, log) && |log| == |arrives|
    ensures IngestAll([], Arriving(log, arrives)) == GroundedEvents(log, arrives, |log|)
    ensures StoredWhole(log) <==> AllNamesUsable(cs)
  {
    assert {} + IdentitiesAll(cs) == IdentitiesAll(cs);
    WellNestedAllIsLinked(hash, cs, {});
    assert Ids(hash, {}) == {};
    EveryRunFollowsProtocol(hash, cs, log);
    SurvivorsExactly(log, arrives);
    AllAcceptedExactlyWhenNamed(hash, cs, {});
    if AllNamesUsable(cs) {
      LinkedRunStoredWhole(hash, cs, log);
    }
    if StoredWhole(log) {
      StoredWholeNeeds(log);
      CallsAcceptedExactly(hash, cs, log);
    }
  }

  // ---- orphans -------------------------------------------------------------------------------------

  lemma {:induction false} StaysUnknown(log: seq<Request>, requests: seq<Request>, id: Text)
    requires !KnownStep(log, id) && forall r :: r in requests ==> r.event.step.id != id
    ensures !KnownStep(IngestAll(log, requests), id)
    decreases |requests|
  {
    if requests != [] {
      var next := Ingest(log, false, requests[0]).1;
      assert requests[0] in requests;
      StaysUnknown(next, requests[1..], id);
    }
  }

  lemma {:induction false} FoundIsStored(log: seq<Request>, key: Option<Text>)
    requires KeyUsed(log, key)
    ensures FindByKey(log, key) in log
    decreases |log|
  {
    if log[|log| - 1].key != key {
      FoundIsStored(log[..|log| - 1], key);
    }
  }

  /** An orphan is refused for ever: while no request is about the step its link names, such an event
      is neither stored nor taken for a replay, under any key, and changes nothing. */
  lemma OrphanIsRefused(log: seq<Request>, requests: seq<Request>, r: Request, closed: bool)
    requires WellFormed(log) && r.event.step.parent.Some? && !KnownStep(log, r.event.step.parent.value)
    requires forall q :: q in requests ==> q.event.step.id != r.event.step.parent.value
    ensures var later := IngestAll(log, requests);
            Ingest(later, closed, r).0 !in {Stored, Replayed} && Ingest(later, closed, r).1 == later
  {
    var later, parent := IngestAll(log, requests), r.event.step.parent.value;
    EveryHistoryIsWellFormed(log, requests);
    StaysUnknown(log, requests, parent);
    if KeyUsed(later, r.key) {
      FoundIsStored(later, r.key);
      var i :| 0 <= i < |later| && later[i] == FindByKey(later, r.key);
      if later[i].event.step.parent.Some? { LinksAreKnown(later, i); }
    }
  }

  lemma LinksAreKnown(log: seq<Request>, i: nat)
    requires WellFormed(log) && i < |log| && log[i].event.step.parent.Some?
    ensures KnownStep(log, log[i].event.step.parent.value)
  {
    assert TransitionAllowed(log[..i], log[i].event);
    var j :| 0 <= j < i && log[..i][j].event.step.id == log[i].event.step.parent.value;
    assert log[j].event.step.id == log[i].event.step.parent.value;
  }

  // ---- redelivery --------------------------------------------------------------------------------

  lemma {:induction false} HistoryHasUniqueKeys(log: seq<Request>, requests: seq<Request>)
    requires UniqueKeys(log)
    ensures UniqueKeys(IngestAll(log, requests))
    decreases |requests|
  {
    if requests != [] {
      HistoryHasUniqueKeys(Ingest(log, false, requests[0]).1, requests[1..]);
    }
  }

  /** At-least-once delivery: after any history, sending stored events again, any number of times
      and in any order, changes nothing. */
  lemma {:induction false} RedeliveryIsHarmless(requests: seq<Request>, again: seq<Request>)
    requires forall r :: r in again ==> r in IngestAll([], requests) && r.key.Some?
    ensures IngestAll(IngestAll([], requests), again) == IngestAll([], requests)
    decreases |again|
  {
    if again != [] {
      var log := IngestAll([], requests);
      HistoryHasUniqueKeys([], requests);
      assert again[0] in log;
      var i :| 0 <= i < |log| && log[i] == again[0];
      FindUniqueKey(log, i);
      assert Ingest(log, false, again[0]).1 == log;
      forall r | r in again[1..] ensures r in log && r.key.Some? { assert r in again; }
      RedeliveryIsHarmless(requests, again[1..]);
    }
  }
}
