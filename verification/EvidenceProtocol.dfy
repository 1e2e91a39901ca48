/** Events attempted by trees of nested decorated calls, and the protocol they follow.

    Sibling calls may run concurrently: a log is any interleaving of its children's logs. */
module EvidenceProtocol {
  import opened Texts
  import opened EvidenceAdapter

  /** How the wrapped function ended. `Escaped` is a cancellation or another exit that is not an
      `Exception`; the wrapper emits nothing for it. */
  datatype Ending = Returned | Raised | Escaped

  datatype Call = Call(ctx: Context, name: Option<Text>, children: seq<Call>, ending: Ending)

  function StepOf(hash: Hash, c: Call): Option<Step> {
    StepFromContext(hash, c.ctx, c.name)
  }

  function TerminalEvents(s: Step, ending: Ending): seq<Event> {
    match ending
    case Returned => [Event(s, COMPLETED)]
    case Raised => [Event(s, FAILED)]
    case Escaped => []
  }

  // ---- logs of a run -----------------------------------------------------------------------

  ghost predicate Shuffle(a: seq<Event>, b: seq<Event>, log: seq<Event>)
    decreases |log|
  {
    if log == [] then a == [] && b == []
    else
      (a != [] && a[0] == log[0] && Shuffle(a[1..], b, log[1..]))
      || (b != [] && b[0] == log[0] && Shuffle(a, b[1..], log[1..]))
  }

  /** `log` is what one run of the call attempts to emit. */
  ghost predicate Emits(hash: Hash, c: Call, log: seq<Event>)
    decreases c, 1
  {
    var step := StepOf(hash, c);
    if step.None? then EmitsAll(hash, c.children, log)
    else
      var terminal := TerminalEvents(step.value, c.ending);
      exists mid :: EmitsAll(hash, c.children, mid)
                    && log == [Event(step.value, STARTED)] + mid + terminal
  }

  ghost predicate EmitsAll(hash: Hash, cs: seq<Call>, log: seq<Event>)
    decreases cs, 0
  {
    if cs == [] then log == []
    else exists a, b :: Emits(hash, cs[0], a) && EmitsAll(hash, cs[1..], b) && Shuffle(a, b, log)
  }

  /** The log of the run in which every call finishes before its next sibling starts. */
  function SequentialLog(hash: Hash, c: Call): seq<Event>
    decreases c, 1
  {
    var step := StepOf(hash, c);
    var mid := SequentialLogAll(hash, c.children);
    if step.None? then mid
    else [Event(step.value, STARTED)] + mid + TerminalEvents(step.value, c.ending)
  }

  function SequentialLogAll(hash: Hash, cs: seq<Call>): seq<Event>
    decreases cs, 0
  {
    if cs == [] then [] else SequentialLog(hash, cs[0]) + SequentialLogAll(hash, cs[1..])
  }

  lemma {:induction false} ConcatenationIsShuffle(a: seq<Event>, b: seq<Event>)
    ensures Shuffle(a, b, a + b)
    decreases |a| + |b|
  {
    if a != [] {
      ConcatenationIsShuffle(a[1..], b);
      assert (a + b)[1..] == a[1..] + b;
    } else if b != [] {
      ConcatenationIsShuffle(a, b[1..]);
      assert (a + b)[1..] == a + b[1..];
    }
  }

  lemma {:induction false} ShuffleMembers(a: seq<Event>, b: seq<Event>, log: seq<Event>)
    requires Shuffle(a, b, log)
    ensures forall e :: e in log <==> e in a || e in b
    decreases |log|
  {
    if log != [] {
      assert log == [log[0]] + log[1..];
      if a != [] && a[0] == log[0] && Shuffle(a[1..], b, log[1..]) {
        ShuffleMembers(a[1..], b, log[1..]);
        assert a == [a[0]] + a[1..];
      } else {
        ShuffleMembers(a, b[1..], log[1..]);
        assert b == [b[0]] + b[1..];
      }
    }
  }

  lemma {:induction false} ShuffleSymmetric(a: seq<Event>, b: seq<Event>, log: seq<Event>)
    requires Shuffle(a, b, log)
    ensures Shuffle(b, a, log)
    decreases |log|
  {
    if log != [] {
      if a != [] && a[0] == log[0] && Shuffle(a[1..], b, log[1..]) {
        ShuffleSymmetric(a[1..], b, log[1..]);
      } else {
        ShuffleSymmetric(a, b[1..], log[1..]);
      }
    }
  }

  /** Sequential runs are among the runs quantified over below. */
  lemma {:induction false} SequentialRunEmits(hash: Hash, c: Call)
    ensures Emits(hash, c, SequentialLog(hash, c))
    decreases c, 1
  {
    SequentialRunsEmit(hash, c.children);
  }

  lemma {:induction false} SequentialRunsEmit(hash: Hash, cs: seq<Call>)
    ensures EmitsAll(hash, cs, SequentialLogAll(hash, cs))
    decreases cs, 0
  {
    if cs != [] {
      SequentialRunEmits(hash, cs[0]);
      SequentialRunsEmit(hash, cs[1..]);
      ConcatenationIsShuffle(SequentialLog(hash, cs[0]), SequentialLogAll(hash, cs[1..]));
    }
  }

  // ---- the protocol ------------------------------------------------------------------------

  datatype Phase = Open(step: Step) | Closed(step: Step, lifecycle: Lifecycle)

  predicate IsOpen(phases: map<Text, Phase>, id: Text) {
    id in phases && phases[id].Open?
  }

  /** One observed event: a step starts once, ends once after it started and with the facts it
      started with, and both times its parent has started and has not ended. `None` is a violation. */
  function Observe(phases: map<Text, Phase>, e: Event): Option<map<Text, Phase>> {
    var s := e.step;
    if s.parent.Some? && !IsOpen(phases, s.parent.value) then None
    else if e.lifecycle == STARTED then
      if s.id in phases then None else Some(phases[s.id := Open(s)])
    else
      if s.id in phases && phases[s.id] == Open(s) then Some(phases[s.id := Closed(s, e.lifecycle)]) else None
  }

  function ObserveAll(phases: map<Text, Phase>, log: seq<Event>): Option<map<Text, Phase>>
    decreases |log|
  {
    if log == [] then Some(phases)
    else
      var next := Observe(phases, log[0]);
      if next.None? then None else ObserveAll(next.value, log[1..])
  }

  /** The phase every step of a call must end in. */
  function FinalPhases(hash: Hash, c: Call): map<Text, Phase>
    decreases c, 1
  {
    var inner := FinalPhasesAll(hash, c.children);
    var step := StepOf(hash, c);
    if step.None? then inner
    else inner[step.value.id := EndPhase(step.value, c.ending)]
  }

  function EndPhase(s: Step, ending: Ending): Phase {
    match ending
    case Returned => Closed(s, COMPLETED)
    case Raised => Closed(s, FAILED)
    case Escaped => Open(s)
  }

  function FinalPhasesAll(hash: Hash, cs: seq<Call>): map<Text, Phase>
    decreases cs, 0
  {
    if cs == [] then map[] else FinalPhases(hash, cs[0]) + FinalPhasesAll(hash, cs[1..])
  }

  /** No step id occurs twice in the call, and every parent link leads to an enclosing step. */
  predicate Linked(hash: Hash, c: Call, enclosing: set<Text>)
    decreases c, 1
  {
    var step := StepOf(hash, c);
    if step.None? then LinkedAll(hash, c.children, enclosing)
    else
      && step.value.id !in enclosing
      && step.value.id !in FinalPhasesAll(hash, c.children)
      && (step.value.parent.Some? ==> step.value.parent.value in enclosing)
      && LinkedAll(hash, c.children, enclosing + {step.value.id})
  }

  predicate LinkedAll(hash: Hash, cs: seq<Call>, enclosing: set<Text>)
    decreases cs, 0
  {
    cs != [] ==>
      && Linked(hash, cs[0], enclosing)
      && LinkedAll(hash, cs[1..], enclosing)
      && FinalPhases(hash, cs[0]).Keys !! FinalPhasesAll(hash, cs[1..]).Keys
  }

  // ---- frames ------------------------------------------------------------------------------

  /** The log concerns the steps in `own` and links to steps in `own` or `up`. */
  ghost predicate Within(log: seq<Event>, own: set<Text>, up: set<Text>) {
    forall i :: 0 <= i < |log| ==>
      log[i].step.id in own && (log[i].step.parent.Some? ==> log[i].step.parent.value in own + up)
  }

  ghost predicate AgreeOn(p: map<Text, Phase>, q: map<Text, Phase>, ids: set<Text>) {
    forall id :: id in ids ==> (id in p <==> id in q) && (id in p ==> p[id] == q[id])
  }

  ghost predicate SameOutside(p: map<Text, Phase>, q: map<Text, Phase>, ids: set<Text>) {
    forall id :: id !in ids ==> (id in p <==> id in q) && (id in p ==> p[id] == q[id])
  }

  lemma {:induction false} ObserveFrame(p: map<Text, Phase>, q: map<Text, Phase>, log: seq<Event>,
                                        own: set<Text>, up: set<Text>)
    requires Within(log, own, up) && AgreeOn(p, q, own + up)
    requires ObserveAll(p, log).Some?
    ensures SameOutside(p, ObserveAll(p, log).value, own)
    ensures ObserveAll(q, log).Some?
    ensures SameOutside(q, ObserveAll(q, log).value, own)
    ensures AgreeOn(ObserveAll(p, log).value, ObserveAll(q, log).value, own + up)
    decreases |log|
  {
    if log != [] {
      assert log[0].step.id in own;
      ObserveFrame(Observe(p, log[0]).value, Observe(q, log[0]).value, log[1..], own, up);
    }
  }

  lemma {:induction false} ObserveConcat(p: map<Text, Phase>, a: seq<Event>, b: seq<Event>)
    requires ObserveAll(p, a).Some?
    ensures ObserveAll(p, a + b) == ObserveAll(ObserveAll(p, a).value, b)
    decreases |a|
  {
    if a == [] {
      assert a + b == b;
    } else {
      assert (a + b)[1..] == a[1..] + b;
      ObserveConcat(Observe(p, a[0]).value, a[1..], b);
    }
  }

  lemma {:induction false} ObservePrefix(p: map<Text, Phase>, log: seq<Event>, n: nat)
    requires ObserveAll(p, log).Some? && n <= |log|
    ensures ObserveAll(p, log[..n]).Some?
    ensures n < |log| ==> Observe(ObserveAll(p, log[..n]).value, log[n]) == ObserveAll(p, log[..n + 1])
                          && ObserveAll(p, log[..n + 1]).Some?
    decreases n
  {
    if n > 0 {
      ObservePrefix(Observe(p, log[0]).value, log[1..], n - 1);
      assert log[..n][1..] == log[1..][..n - 1];
      if n < |log| {
        assert log[..n + 1][1..] == log[1..][..n];
      }
    } else if |log| > 0 {
      assert log[..1][1..] == [];
    }
  }

  /** Interleaving two logs about different steps combines their effects. */
  lemma {:induction false} ObserveShuffle(p: map<Text, Phase>, a: seq<Event>, b: seq<Event>, log: seq<Event>,
                                          ownA: set<Text>, ownB: set<Text>, up: set<Text>)
    requires Shuffle(a, b, log)
    requires Within(a, ownA, up) && Within(b, ownB, up)
    requires ownA !! ownB && ownA !! up && ownB !! up
    requires ObserveAll(p, a).Some? && ObserveAll(p, b).Some?
    ensures ObserveAll(p, log).Some?
    ensures AgreeOn(ObserveAll(p, log).value, ObserveAll(p, a).value, ownA)
    ensures AgreeOn(ObserveAll(p, log).value, ObserveAll(p, b).value, ownB)
    ensures SameOutside(ObserveAll(p, log).value, p, ownA + ownB)
    decreases |log|
  {
    if log == [] {
    } else if a != [] && a[0] == log[0] && Shuffle(a[1..], b, log[1..]) {
      var next := Observe(p, a[0]).value;
      assert a[0].step.id in ownA;
      ObserveFrame(p, next, b, ownB, up);
      ObserveShuffle(next, a[1..], b, log[1..], ownA, ownB, up);
    } else {
      var next := Observe(p, b[0]).value;
      assert b[0].step.id in ownB;
      ObserveFrame(p, next, a, ownA, up);
      ObserveShuffle(next, a, b[1..], log[1..], ownA, ownB, up);
    }
  }

  lemma {:induction false} ShuffleWithin(a: seq<Event>, b: seq<Event>, log: seq<Event>,
                                         ownA: set<Text>, ownB: set<Text>, up: set<Text>)
    requires Shuffle(a, b, log) && Within(a, ownA, up) && Within(b, ownB, up)
    ensures Within(log, ownA + ownB, up)
    decreases |log|
  {
    if log != [] {
      if a != [] && a[0] == log[0] && Shuffle(a[1..], b, log[1..]) {
        ShuffleWithin(a[1..], b, log[1..], ownA, ownB, up);
      } else {
        ShuffleWithin(a, b[1..], log[1..], ownA, ownB, up);
      }
      assert forall i :: 1 <= i < |log| ==> log[i] == log[1..][i - 1];
    }
  }

  // ---- every run follows the protocol ------------------------------------------------------

  ghost predicate AllOpen(p: map<Text, Phase>, ids: set<Text>) {
    forall id :: id in ids ==> IsOpen(p, id)
  }

  lemma {:induction false} RunFollowsProtocol(hash: Hash, c: Call, log: seq<Event>,
                                              p: map<Text, Phase>, enclosing: set<Text>)
    requires Emits(hash, c, log) && Linked(hash, c, enclosing)
    requires AllOpen(p, enclosing) && p.Keys !! FinalPhases(hash, c).Keys
    ensures Within(log, FinalPhases(hash, c).Keys, enclosing)
    ensures ObserveAll(p, log) == Some(p + FinalPhases(hash, c))
    decreases c, 1
  {
    var step := StepOf(hash, c);
    if step.None? {
      RunsFollowProtocol(hash, c.children, log, p, enclosing);
    } else {
      var s := step.value;
      var terminal := TerminalEvents(s, c.ending);
      var mid :| EmitsAll(hash, c.children, mid) && log == [Event(s, STARTED)] + mid + terminal;
      var inner := FinalPhasesAll(hash, c.children);
      RunsFollowProtocol(hash, c.children, mid, p[s.id := Open(s)], enclosing + {s.id});
      BracketObserved(p, s, mid, c.ending, inner);
      WithinCall(s, mid, c.ending, inner.Keys, enclosing);
      assert FinalPhases(hash, c).Keys == inner.Keys + {s.id};
    }
  }

  lemma BracketObserved(p: map<Text, Phase>, s: Step, mid: seq<Event>, ending: Ending, inner: map<Text, Phase>)
    requires s.id !in p && s.id !in inner && p.Keys !! inner.Keys
    requires s.parent.Some? ==> IsOpen(p, s.parent.value)
    requires ObserveAll(p[s.id := Open(s)], mid) == Some(p[s.id := Open(s)] + inner)
    ensures ObserveAll(p, [Event(s, STARTED)] + mid + TerminalEvents(s, ending))
         == Some(p + inner[s.id := EndPhase(s, ending)])
  {
    var terminal := TerminalEvents(s, ending);
    var log := [Event(s, STARTED)] + mid + terminal;
    assert log[1..] == mid + terminal;
    ObserveConcat(p[s.id := Open(s)], mid, terminal);
    var after := p[s.id := Open(s)] + inner;
    assert terminal != [] ==> terminal[1..] == [];
    assert ObserveAll(after, terminal) == Some(after[s.id := EndPhase(s, ending)]) by {
      if ending == Escaped {
        assert after[s.id := Open(s)] == after;
      } else {
        assert Observe(after, terminal[0]) == Some(after[s.id := EndPhase(s, ending)]);
      }
    }
    assert after[s.id := EndPhase(s, ending)] == p + inner[s.id := EndPhase(s, ending)];
  }

  lemma WithinCall(s: Step, mid: seq<Event>, ending: Ending, own: set<Text>, enclosing: set<Text>)
    requires Within(mid, own, enclosing + {s.id})
    requires s.parent.Some? ==> s.parent.value in enclosing
    ensures Within([Event(s, STARTED)] + mid + TerminalEvents(s, ending), own + {s.id}, enclosing)
  {
  }

  lemma ShuffleObserved(p: map<Text, Phase>, a: seq<Event>, b: seq<Event>, log: seq<Event>,
                        finalA: map<Text, Phase>, finalB: map<Text, Phase>, up: set<Text>)
    requires Shuffle(a, b, log) && Within(a, finalA.Keys, up) && Within(b, finalB.Keys, up)
    requires finalA.Keys !! finalB.Keys && p.Keys !! finalA.Keys && p.Keys !! finalB.Keys && up <= p.Keys
    requires ObserveAll(p, a) == Some(p + finalA) && ObserveAll(p, b) == Some(p + finalB)
    ensures ObserveAll(p, log) == Some(p + (finalA + finalB))
  {
    ObserveShuffle(p, a, b, log, finalA.Keys, finalB.Keys, up);
    var r := ObserveAll(p, log).value;
    var expected := p + (finalA + finalB);
    forall id ensures (id in r <==> id in expected) && (id in r ==> r[id] == expected[id]) {
      if id in finalA {
      } else if id in finalB {
      }
    }
    assert r.Keys == expected.Keys;
    assert r == expected;
  }

  lemma {:induction false} RunsFollowProtocol(hash: Hash, cs: seq<Call>, log: seq<Event>,
                                              p: map<Text, Phase>, enclosing: set<Text>)
    requires EmitsAll(hash, cs, log) && LinkedAll(hash, cs, enclosing)
    requires AllOpen(p, enclosing) && p.Keys !! FinalPhasesAll(hash, cs).Keys
    ensures Within(log, FinalPhasesAll(hash, cs).Keys, enclosing)
    ensures ObserveAll(p, log) == Some(p + FinalPhasesAll(hash, cs))
    decreases cs, 0
  {
    if cs == [] {
      assert p + FinalPhasesAll(hash, cs) == p;
    } else {
      var a, b :| Emits(hash, cs[0], a) && EmitsAll(hash, cs[1..], b) && Shuffle(a, b, log);
      var ownA, ownB := FinalPhases(hash, cs[0]).Keys, FinalPhasesAll(hash, cs[1..]).Keys;
      RunFollowsProtocol(hash, cs[0], a, p, enclosing);
      RunsFollowProtocol(hash, cs[1..], b, p, enclosing);
      assert enclosing <= p.Keys;
      ShuffleObserved(p, a, b, log, FinalPhases(hash, cs[0]), FinalPhasesAll(hash, cs[1..]), enclosing);
      ShuffleWithin(a, b, log, ownA, ownB, enclosing);
      assert FinalPhasesAll(hash, cs).Keys == ownA + ownB;
    }
  }

  // ---- bracketing ----------------------------------------------------------------------------

  /** Every event of the steps in `inner` comes after the start of `s` and, unless its call escaped,
      before its end. */
  ghost predicate Brackets(s: Step, ending: Ending, inner: set<Text>, log: seq<Event>) {
    forall k :: 0 <= k < |log| && log[k].step.id in inner ==>
      && OccursBefore(log, k, Event(s, STARTED))
      && (forall e :: e in TerminalEvents(s, ending) ==> OccursAfter(log, k, e))
  }

  /** Each call inside the call, and the call itself, brackets all its descendants. */
  ghost predicate WellBracketed(hash: Hash, c: Call, log: seq<Event>)
    decreases c, 1
  {
    && (StepOf(hash, c).Some? ==> Brackets(StepOf(hash, c).value, c.ending, FinalPhasesAll(hash, c.children).Keys, log))
    && AllWellBracketed(hash, c.children, log)
  }

  ghost predicate AllWellBracketed(hash: Hash, cs: seq<Call>, log: seq<Event>)
    decreases cs, 0
  {
    cs != [] ==> WellBracketed(hash, cs[0], log) && AllWellBracketed(hash, cs[1..], log)
  }

  ghost predicate OccursBefore(log: seq<Event>, k: nat, e: Event) { exists j :: 0 <= j < k && j < |log| && log[j] == e }

  ghost predicate OccursAfter(log: seq<Event>, k: nat, e: Event) { exists j :: k < j < |log| && log[j] == e }

  /** Event `m` of one log is event `k` of the other: what was before it still is, and so after. */
  ghost predicate Embedded(a: seq<Event>, m: nat, log: seq<Event>, k: nat) {
    && m < |a| && k < |log| && a[m] == log[k]
    && (forall i :: 0 <= i < m ==> OccursBefore(log, k, a[i]))
    && (forall i :: m < i < |a| ==> OccursAfter(log, k, a[i]))
  }

  lemma OccursLater(log: seq<Event>, k: nat, e: Event)
    requires log != []
    ensures OccursBefore(log[1..], k, e) ==> OccursBefore(log, k + 1, e)
    ensures OccursAfter(log[1..], k, e) ==> OccursAfter(log, k + 1, e)
  {
    if OccursBefore(log[1..], k, e) {
      var j :| 0 <= j < k && j < |log[1..]| && log[1..][j] == e;
      assert log[j + 1] == e;
    }
    if OccursAfter(log[1..], k, e) {
      var j :| k < j < |log[1..]| && log[1..][j] == e;
      assert log[j + 1] == e;
    }
  }

  lemma EmbeddedLater(a: seq<Event>, m: nat, log: seq<Event>, k: nat)
    requires log != [] && Embedded(a, m, log[1..], k)
    ensures Embedded(a, m, log, k + 1)
  {
    forall e ensures OccursBefore(log[1..], k, e) ==> OccursBefore(log, k + 1, e)
             ensures OccursAfter(log[1..], k, e) ==> OccursAfter(log, k + 1, e) {
      OccursLater(log, k, e);
    }
  }

  lemma EmbeddedBothLater(a: seq<Event>, m: nat, log: seq<Event>, k: nat)
    requires log != [] && a != [] && a[0] == log[0] && Embedded(a[1..], m, log[1..], k)
    ensures Embedded(a, m + 1, log, k + 1)
  {
    EmbeddedLater(a[1..], m, log, k);
    forall i | 0 <= i < m + 1 ensures OccursBefore(log, k + 1, a[i]) {
      if i > 0 { assert a[1..][i - 1] == a[i]; }
    }
    forall i | m + 1 < i < |a| ensures OccursAfter(log, k + 1, a[i]) {
      assert a[1..][i - 1] == a[i];
    }
  }

  /** Where an event of one log stands in an interleaving. */
  lemma {:induction false} PlaceInShuffle(a: seq<Event>, b: seq<Event>, log: seq<Event>, k: nat) returns (m: nat)
    requires Shuffle(a, b, log) && k < |log| && forall e :: e in b ==> e.step.id != log[k].step.id
    ensures Embedded(a, m, log, k)
    decreases |log|
  {
    if a != [] && a[0] == log[0] && Shuffle(a[1..], b, log[1..]) {
      if k == 0 {
        m := 0;
        ShuffleMembers(a[1..], b, log[1..]);
        forall i | 0 < i < |a| ensures OccursAfter(log, 0, a[i]) {
          assert a[1..][i - 1] in log[1..];
          var j :| 0 <= j < |log[1..]| && log[1..][j] == a[i];
          assert log[j + 1] == a[i];
        }
      } else {
        m := PlaceInShuffle(a[1..], b, log[1..], k - 1);
        EmbeddedBothLater(a, m, log, k - 1);
        m := m + 1;
      }
    } else {
      assert b[0] in b && k > 0;
      m := PlaceInShuffle(a, b[1..], log[1..], k - 1);
      EmbeddedLater(a, m, log, k - 1);
    }
  }

  /** No event of the log is about one of these steps. */
  ghost predicate Avoids(log: seq<Event>, ids: set<Text>) {
    forall e :: e in log ==> e.step.id !in ids
  }

  lemma BracketsShuffled(s: Step, ending: Ending, inner: set<Text>, a: seq<Event>, b: seq<Event>, log: seq<Event>)
    requires Brackets(s, ending, inner, a) && Shuffle(a, b, log) && Avoids(b, inner)
    ensures Brackets(s, ending, inner, log)
  {
    forall k | 0 <= k < |log| && log[k].step.id in inner
      ensures OccursBefore(log, k, Event(s, STARTED))
      ensures forall e :: e in TerminalEvents(s, ending) ==> OccursAfter(log, k, e)
    {
      var m := PlaceInShuffle(a, b, log, k);
      var i :| 0 <= i < m && a[i] == Event(s, STARTED);
      forall e | e in TerminalEvents(s, ending) ensures OccursAfter(log, k, e) {
        var j :| m < j < |a| && a[j] == e;
      }
    }
  }

  lemma {:induction false} BracketedShuffled(hash: Hash, c: Call, a: seq<Event>, b: seq<Event>, log: seq<Event>)
    requires WellBracketed(hash, c, a) && Shuffle(a, b, log) && Avoids(b, FinalPhases(hash, c).Keys)
    ensures WellBracketed(hash, c, log)
    decreases c, 1
  {
    AllBracketedShuffled(hash, c.children, a, b, log);
    if StepOf(hash, c).Some? {
      BracketsShuffled(StepOf(hash, c).value, c.ending, FinalPhasesAll(hash, c.children).Keys, a, b, log);
    }
  }

  lemma {:induction false} AllBracketedShuffled(hash: Hash, cs: seq<Call>, a: seq<Event>, b: seq<Event>, log: seq<Event>)
    requires AllWellBracketed(hash, cs, a) && Shuffle(a, b, log) && Avoids(b, FinalPhasesAll(hash, cs).Keys)
    ensures AllWellBracketed(hash, cs, log)
    decreases cs, 0
  {
    if cs != [] {
      BracketedShuffled(hash, cs[0], a, b, log);
      AllBracketedShuffled(hash, cs[1..], a, b, log);
    }
  }

  lemma {:induction false} FrameIsShuffle(first: Event, mid: seq<Event>, last: seq<Event>)
    ensures Shuffle(mid, [first] + last, [first] + mid + last)
  {
    var log := [first] + mid + last;
    assert log[1..] == mid + last && ([first] + last)[1..] == last;
    ConcatenationIsShuffle(mid, last);
  }

  lemma {:induction false} RunIsBracketed(hash: Hash, c: Call, log: seq<Event>, p: map<Text, Phase>, enclosing: set<Text>)
    requires Emits(hash, c, log) && Linked(hash, c, enclosing)
    requires AllOpen(p, enclosing) && p.Keys !! FinalPhases(hash, c).Keys
    ensures WellBracketed(hash, c, log)
    decreases c, 1
  {
    var step := StepOf(hash, c);
    if step.None? {
      RunsAreBracketed(hash, c.children, log, p, enclosing);
    } else {
      var s := step.value;
      var terminal := TerminalEvents(s, c.ending);
      var mid :| EmitsAll(hash, c.children, mid) && log == [Event(s, STARTED)] + mid + terminal;
      RunsAreBracketed(hash, c.children, mid, p[s.id := Open(s)], enclosing + {s.id});
      FrameIsShuffle(Event(s, STARTED), mid, terminal);
      AllBracketedShuffled(hash, c.children, mid, [Event(s, STARTED)] + terminal, log);
      FrameBrackets(s, c.ending, mid, FinalPhasesAll(hash, c.children).Keys);
    }
  }

  lemma FrameBrackets(s: Step, ending: Ending, mid: seq<Event>, inner: set<Text>)
    requires s.id !in inner
    ensures Brackets(s, ending, inner, [Event(s, STARTED)] + mid + TerminalEvents(s, ending))
  {
    var log := [Event(s, STARTED)] + mid + TerminalEvents(s, ending);
    assert log[0] == Event(s, STARTED);
    forall k, e | 0 <= k < |log| && log[k].step.id in inner && e in TerminalEvents(s, ending)
      ensures OccursAfter(log, k, e)
    {
      assert log[|log| - 1] == e;
    }
  }

  lemma {:induction false} RunsAreBracketed(hash: Hash, cs: seq<Call>, log: seq<Event>, p: map<Text, Phase>, enclosing: set<Text>)
    requires EmitsAll(hash, cs, log) && LinkedAll(hash, cs, enclosing)
    requires AllOpen(p, enclosing) && p.Keys !! FinalPhasesAll(hash, cs).Keys
    ensures AllWellBracketed(hash, cs, log)
    decreases cs, 0
  {
    if cs != [] {
      var a, b :| Emits(hash, cs[0], a) && EmitsAll(hash, cs[1..], b) && Shuffle(a, b, log);
      RunIsBracketed(hash, cs[0], a, p, enclosing);
      RunsAreBracketed(hash, cs[1..], b, p, enclosing);
      RunFollowsProtocol(hash, cs[0], a, p, enclosing);
      RunsFollowProtocol(hash, cs[1..], b, p, enclosing);
      BracketedShuffled(hash, cs[0], a, b, log);
      ShuffleSymmetric(a, b, log);
      AllBracketedShuffled(hash, cs[1..], b, a, log);
    }
  }

  /** Every interleaving of a forest of linked calls follows the protocol, leaves each step in the
      phase its call's ending demands, and nothing else, and keeps the events of every call's
      descendants, linked or not, between its own. */
  lemma EveryRunFollowsProtocol(hash: Hash, cs: seq<Call>, log: seq<Event>)
    requires EmitsAll(hash, cs, log) && LinkedAll(hash, cs, {})
    ensures ObserveAll(map[], log) == Some(FinalPhasesAll(hash, cs))
    ensures AllWellBracketed(hash, cs, log)
  {
    RunsFollowProtocol(hash, cs, log, map[], {});
    RunsAreBracketed(hash, cs, log, map[], {});
    assert map[] + FinalPhasesAll(hash, cs) == FinalPhasesAll(hash, cs);
  }

  // ---- exactly the linked forests do --------------------------------------------------------

  ghost function IdsIn(log: seq<Event>): set<Text> { set e | e in log :: e.step.id }

  /** Every start is of a step not heard of before and links to one that was. */
  ghost predicate StartsLinked(known: set<Text>, log: seq<Event>) {
    forall k :: 0 <= k < |log| && log[k].lifecycle == STARTED ==> StartLinked(known + IdsIn(log[..k]), log[k].step)
  }

  predicate StartLinked(known: set<Text>, s: Step) {
    s.id !in known && (s.parent.Some? ==> s.parent.value in known)
  }

  lemma StartsSplit(known: set<Text>, a: seq<Event>, b: seq<Event>)
    requires StartsLinked(known, a + b)
    ensures StartsLinked(known, a) && StartsLinked(known + IdsIn(a), b)
  {
    var log := a + b;
    forall k | 0 <= k < |a| && a[k].lifecycle == STARTED ensures StartLinked(known + IdsIn(a[..k]), a[k].step) {
      assert log[k] == a[k] && log[..k] == a[..k];
    }
    forall k | 0 <= k < |b| && b[k].lifecycle == STARTED ensures StartLinked(known + IdsIn(a) + IdsIn(b[..k]), b[k].step) {
      assert log[|a| + k] == b[k] && log[..|a| + k] == a + b[..k];
      assert known + IdsIn(a + b[..k]) == known + IdsIn(a) + IdsIn(b[..k]);
    }
  }

  ghost predicate StartsIn(log: seq<Event>, id: Text) {
    exists e :: e in log && e.lifecycle == STARTED && e.step.id == id
  }

  /** Every step of a call starts in each of its runs. */
  lemma {:induction false} StepStarts(hash: Hash, c: Call, log: seq<Event>, id: Text)
    requires Emits(hash, c, log) && id in FinalPhases(hash, c)
    ensures StartsIn(log, id)
    decreases c, 1
  {
    var step := StepOf(hash, c);
    if step.None? {
      StepsStart(hash, c.children, log, id);
    } else {
      var terminal := TerminalEvents(step.value, c.ending);
      var mid :| EmitsAll(hash, c.children, mid) && log == [Event(step.value, STARTED)] + mid + terminal;
      if id == step.value.id {
        assert Event(step.value, STARTED) in log;
      } else {
        StepsStart(hash, c.children, mid, id);
        var e :| e in mid && e.lifecycle == STARTED && e.step.id == id;
        assert e in log;
      }
    }
  }

  lemma {:induction false} StepsStart(hash: Hash, cs: seq<Call>, log: seq<Event>, id: Text)
    requires EmitsAll(hash, cs, log) && id in FinalPhasesAll(hash, cs)
    ensures StartsIn(log, id)
    decreases cs, 0
  {
    var a, b :| Emits(hash, cs[0], a) && EmitsAll(hash, cs[1..], b) && Shuffle(a, b, log);
    ShuffleMembers(a, b, log);
    if id in FinalPhases(hash, cs[0]) {
      StepStarts(hash, cs[0], a, id);
    } else {
      StepsStart(hash, cs[1..], b, id);
    }
  }

  ghost predicate RunsStartLinked(hash: Hash, c: Call, known: set<Text>) {
    forall log :: Emits(hash, c, log) ==> StartsLinked(known, log)
  }

  ghost predicate AllRunsStartLinked(hash: Hash, cs: seq<Call>, known: set<Text>) {
    forall log :: EmitsAll(hash, cs, log) ==> StartsLinked(known, log)
  }

  lemma {:induction false} LinkedFromRuns(hash: Hash, c: Call, known: set<Text>)
    requires RunsStartLinked(hash, c, known)
    ensures Linked(hash, c, known)
    decreases c, 1
  {
    var step := StepOf(hash, c);
    if step.None? {
      forall log | EmitsAll(hash, c.children, log) ensures StartsLinked(known, log) {
        assert Emits(hash, c, log);
      }
      LinkedAllFromRuns(hash, c.children, known);
    } else {
      var s := step.value;
      forall mid | EmitsAll(hash, c.children, mid) ensures StartLinked(known, s) && StartsLinked(known + {s.id}, mid) {
        CallStartsLinked(hash, c, known, s, mid);
      }
      SequentialRunsEmit(hash, c.children);
      var mid := SequentialLogAll(hash, c.children);
      LinkedAllFromRuns(hash, c.children, known + {s.id});
      if s.id in FinalPhasesAll(hash, c.children) {
        StepsStart(hash, c.children, mid, s.id);
        StartIsFresh(known + {s.id}, mid, s.id);
      }
    }
  }

  lemma CallStartsLinked(hash: Hash, c: Call, known: set<Text>, s: Step, mid: seq<Event>)
    requires RunsStartLinked(hash, c, known) && StepOf(hash, c) == Some(s) && EmitsAll(hash, c.children, mid)
    ensures StartLinked(known, s) && StartsLinked(known + {s.id}, mid)
  {
    var first, terminal := [Event(s, STARTED)], TerminalEvents(s, c.ending);
    var log := first + mid + terminal;
    assert Emits(hash, c, log);
    FramedStartsLinked(known, s, mid, terminal);
  }

  lemma FramedStartsLinked(known: set<Text>, s: Step, mid: seq<Event>, terminal: seq<Event>)
    requires StartsLinked(known, [Event(s, STARTED)] + mid + terminal)
    ensures StartLinked(known, s) && StartsLinked(known + {s.id}, mid)
  {
    var first := [Event(s, STARTED)];
    StartsSplit(known, first + mid, terminal);
    StartsSplit(known, first, mid);
    assert IdsIn(first) == {s.id};
    assert first[0].lifecycle == STARTED && known + IdsIn(first[..0]) == known;
  }

  lemma StartIsFresh(known: set<Text>, log: seq<Event>, id: Text)
    requires StartsLinked(known, log) && StartsIn(log, id)
    ensures id !in known
  {
    var e :| e in log && e.lifecycle == STARTED && e.step.id == id;
    var k :| 0 <= k < |log| && log[k] == e;
    assert StartLinked(known + IdsIn(log[..k]), log[k].step);
  }

  /** Siblings may run in either order, so each must be linked without the other's steps. */
  lemma {:induction false} LinkedAllFromRuns(hash: Hash, cs: seq<Call>, known: set<Text>)
    requires AllRunsStartLinked(hash, cs, known)
    ensures LinkedAll(hash, cs, known)
    decreases cs, 0
  {
    if cs != [] {
      var rest := cs[1..];
      var first, others := SequentialLog(hash, cs[0]), SequentialLogAll(hash, rest);
      SequentialRunEmits(hash, cs[0]);
      SequentialRunsEmit(hash, rest);
      forall a | Emits(hash, cs[0], a) ensures StartsLinked(known, a) && StartsLinked(known + IdsIn(a), others) {
        ConcatenationIsShuffle(a, others);
        assert EmitsAll(hash, cs, a + others);
        StartsSplit(known, a, others);
      }
      forall b | EmitsAll(hash, rest, b) ensures StartsLinked(known, b) {
        ConcatenationIsShuffle(b, first);
        ShuffleSymmetric(b, first, b + first);
        assert EmitsAll(hash, cs, b + first);
        StartsSplit(known, b, first);
      }
      LinkedFromRuns(hash, cs[0], known);
      LinkedAllFromRuns(hash, rest, known);
      forall id | id in FinalPhases(hash, cs[0]) ensures id !in FinalPhasesAll(hash, rest) {
        StepStarts(hash, cs[0], first, id);
        if id in FinalPhasesAll(hash, rest) {
          StepsStart(hash, rest, others, id);
          StartIsFresh(known + IdsIn(first), others, id);
        }
      }
    }
  }

  lemma {:induction false} ObservedStartsLinked(p: map<Text, Phase>, log: seq<Event>)
    requires ObserveAll(p, log).Some?
    ensures StartsLinked(p.Keys, log)
    decreases |log|
  {
    if log != [] {
      var next := Observe(p, log[0]).value;
      ObservedStartsLinked(next, log[1..]);
      assert next.Keys == p.Keys + {log[0].step.id};
      forall k | 0 <= k < |log| && log[k].lifecycle == STARTED ensures StartLinked(p.Keys + IdsIn(log[..k]), log[k].step) {
        if k == 0 {
          assert IdsIn(log[..0]) == {};
        } else {
          assert log[1..][k - 1] == log[k] && log[..k] == [log[0]] + log[1..][..k - 1];
          assert p.Keys + IdsIn(log[..k]) == next.Keys + IdsIn(log[1..][..k - 1]);
        }
      }
    }
  }

  ghost predicate EveryRunFollows(hash: Hash, cs: seq<Call>) {
    forall log :: EmitsAll(hash, cs, log) ==> ObserveAll(map[], log).Some?
  }

  /** All interleavings follow the protocol exactly when ids are distinct and parent links lead to
      enclosing steps. */
  lemma ProtocolExactlyWhenLinked(hash: Hash, cs: seq<Call>)
    ensures EveryRunFollows(hash, cs) <==> LinkedAll(hash, cs, {})
  {
    if LinkedAll(hash, cs, {}) {
      forall log | EmitsAll(hash, cs, log) ensures ObserveAll(map[], log).Some? {
        EveryRunFollowsProtocol(hash, cs, log);
      }
    }
    if EveryRunFollows(hash, cs) {
      forall log | EmitsAll(hash, cs, log) ensures StartsLinked({}, log) {
        ObservedStartsLinked(map[], log);
      }
      LinkedAllFromRuns(hash, cs, {});
    }
  }

  // ---- from contexts to links --------------------------------------------------------------

  /** The identity a call emits under, if it emits at all. */
  function Emitting(c: Call): Option<Identity> {
    var i := IdentityOf(c.ctx);
    if i.None? || ResolvedName(c.ctx, c.name, i.value.nodePath).None? then None else i
  }

  function Identities(c: Call): set<Identity>
    decreases c, 1
  {
    (if Emitting(c).None? then {} else {Emitting(c).value}) + IdentitiesAll(c.children)
  }

  function IdentitiesAll(cs: seq<Call>): set<Identity>
    decreases cs, 0
  {
    if cs == [] then {} else Identities(cs[0]) + IdentitiesAll(cs[1..])
  }

  predicate ParentEnclosing(c: Context, enclosing: set<Identity>) {
    ParentIdentity(c.parent).Some? ==> ParentIdentity(c.parent).value in enclosing
  }

  /** What the application must provide: identities are distinct, free of the separator, and every
      function-node parent is the context of an enclosing call that emits. */
  predicate WellNested(c: Call, enclosing: set<Identity>)
    decreases c, 1
  {
    var i := Emitting(c);
    if i.None? then WellNestedAll(c.children, enclosing)
    else
      && SeparatorFree(i.value) && i.value !in enclosing && i.value !in IdentitiesAll(c.children)
      && ParentEnclosing(c.ctx, enclosing)
      && WellNestedAll(c.children, enclosing + {i.value})
  }

  predicate WellNestedAll(cs: seq<Call>, enclosing: set<Identity>)
    decreases cs, 0
  {
    cs != [] ==>
      && WellNested(cs[0], enclosing) && WellNestedAll(cs[1..], enclosing)
      && Identities(cs[0]) !! IdentitiesAll(cs[1..])
  }

  ghost function Ids(hash: Hash, identities: set<Identity>): set<Text> {
    set i | i in identities :: StableStepId(hash, i)
  }

  ghost predicate AllSeparatorFree(identities: set<Identity>) {
    forall i :: i in identities ==> SeparatorFree(i)
  }

  lemma IdsOfUnion(hash: Hash, a: set<Identity>, b: set<Identity>)
    ensures Ids(hash, a + b) == Ids(hash, a) + Ids(hash, b)
  {
  }

  lemma IdsDisjoint(hash: Hash, a: set<Identity>, b: set<Identity>)
    requires CollisionFree(hash, a + b) && AllSeparatorFree(a) && AllSeparatorFree(b) && a !! b
    ensures Ids(hash, a) !! Ids(hash, b)
  {
    forall i, j | i in a && j in b ensures StableStepId(hash, i) != StableStepId(hash, j) {
      assert {i, j} <= a + b;
      StepIdInjective(hash, i, j);
    }
  }

  lemma {:induction false} WellNestedIsLinked(hash: Hash, c: Call, enclosing: set<Identity>)
    requires CollisionFree(hash, enclosing + Identities(c)) && AllSeparatorFree(enclosing) && WellNested(c, enclosing)
    ensures Linked(hash, c, Ids(hash, enclosing))
    ensures FinalPhases(hash, c).Keys == Ids(hash, Identities(c))
    ensures AllSeparatorFree(Identities(c))
    decreases c, 1
  {
    var i := Emitting(c);
    if i.None? {
      WellNestedAllIsLinked(hash, c.children, enclosing);
    } else {
      WellNestedAllIsLinked(hash, c.children, enclosing + {i.value});
      var id, inner := StepOf(hash, c).value.id, IdentitiesAll(c.children);
      assert Ids(hash, {i.value}) == {id};
      IdsOfUnion(hash, enclosing, {i.value});
      IdsOfUnion(hash, {i.value}, inner);
      assert {i.value} + enclosing <= enclosing + Identities(c) && {i.value} + inner <= enclosing + Identities(c);
      IdsDisjoint(hash, {i.value}, enclosing);
      IdsDisjoint(hash, {i.value}, inner);
    }
  }

  lemma {:induction false} WellNestedAllIsLinked(hash: Hash, cs: seq<Call>, enclosing: set<Identity>)
    requires CollisionFree(hash, enclosing + IdentitiesAll(cs)) && AllSeparatorFree(enclosing) && WellNestedAll(cs, enclosing)
    ensures LinkedAll(hash, cs, Ids(hash, enclosing))
    ensures FinalPhasesAll(hash, cs).Keys == Ids(hash, IdentitiesAll(cs))
    ensures AllSeparatorFree(IdentitiesAll(cs))
    decreases cs, 0
  {
    if cs != [] {
      WellNestedIsLinked(hash, cs[0], enclosing);
      WellNestedAllIsLinked(hash, cs[1..], enclosing);
      IdsDisjoint(hash, Identities(cs[0]), IdentitiesAll(cs[1..]));
      IdsOfUnion(hash, Identities(cs[0]), IdentitiesAll(cs[1..]));
    }
  }
}
