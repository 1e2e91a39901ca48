/** The planner's plan canonicaliser and the governed release-decision scorer. */
module DecisionScoring {
  import opened Texts
  import opened Sorting
  import opened JsonText
  import opened JsonGrammar
  import opened JsonRoundTrip

  // ---- plan canonicalisation -----------------------------------------------------------------

  const STEPS: Text := [115, 116, 101, 112, 115]  // "steps"
  const MAX_STEP_LENGTH := 240

  predicate AcceptableStep(v: Json) {
    v.Str? && Strip(v.text, TextSpace) != [] && |v.text| <= MAX_STEP_LENGTH
  }

  predicate AllAcceptable(steps: seq<Json>) {
    forall i :: 0 <= i < |steps| ==> AcceptableStep(steps[i])
  }

  function StripSteps(steps: seq<Json>): (r: seq<Json>)
    requires forall i :: 0 <= i < |steps| ==> steps[i].Str?
    ensures |r| == |steps|
    ensures forall i :: 0 <= i < |r| ==> r[i] == Str(Strip(steps[i].text, TextSpace))
  {
    if steps == [] then [] else [Str(Strip(steps[0].text, TextSpace))] + StripSteps(steps[1..])
  }

  function PlanObject(steps: seq<Json>): Json { Obj([(STEPS, Arr(steps))]) }

  /** `_structured_plan`; `None` is its `ValueError`. */
  function StructuredPlan(raw: Text): Option<Text> {
    var candidate := Loads(raw);
    if candidate.None? then None
    else
      var steps := if candidate.value.Obj? then Lookup(candidate.value.fields, STEPS) else None;
      if steps.None? || !steps.value.Arr? || !(1 <= |steps.value.items| <= 3)
         || !AllAcceptable(steps.value.items)
      then None
      else Some(Print(PlanObject(StripSteps(steps.value.items)), false))
  }

  predicate CanonicalSteps(steps: seq<Json>) {
    1 <= |steps| <= 3 && AllAcceptable(steps)
    && forall i :: 0 <= i < |steps| ==> Trimmed(steps[i].text, TextSpace)
  }

  lemma {:induction false} StringsAreWritable(items: seq<Json>)
    requires forall i :: 0 <= i < |items| ==> items[i].Str?
    ensures WritableItems(items, false)
  {
    if items != [] {
      StringsAreWritable(items[1..]);
    }
  }

  lemma PlanObjectReadsBack(steps: seq<Json>)
    requires CanonicalSteps(steps)
    ensures Loads(Print(PlanObject(steps), false)) == Some(PlanObject(steps))
    ensures Lookup(PlanObject(steps).fields, STEPS) == Some(Arr(steps))
  {
    var v := PlanObject(steps);
    StringsAreWritable(steps);
    assert Writable(Arr(steps), false);
    var fields := v.fields;
    assert fields[1..] == [] && fields[..0] == [];
    assert WritableField(fields[0], false) && WritableFields(fields, false);
    UnescapedFields(fields);
    assert DistinctKeys(fields[..0]);
    assert Writable(v, false);
    LoadsDumps(v, false);
    UnescapedReadsBackItself(v);
  }

  /** A canonical plan is accepted and returned as it is. */
  lemma CanonicalPlanIsFixed(steps: seq<Json>)
    requires CanonicalSteps(steps)
    ensures StructuredPlan(Print(PlanObject(steps), false)) == Some(Print(PlanObject(steps), false))
  {
    PlanObjectReadsBack(steps);
    forall i | 0 <= i < |steps| ensures StripSteps(steps)[i] == steps[i] {
      StripFixesExactlyTrimmed(steps[i].text, TextSpace);
    }
    assert StripSteps(steps) == steps;
  }

  lemma StrippedStepsAreCanonical(given: seq<Json>)
    requires 1 <= |given| <= 3 && AllAcceptable(given)
    ensures CanonicalSteps(StripSteps(given))
  {
    var steps := StripSteps(given);
    forall i | 0 <= i < |steps| ensures AcceptableStep(steps[i]) && Trimmed(steps[i].text, TextSpace) {
      assert AcceptableStep(given[i]);
      StripIsTrimmed(given[i].text, TextSpace);
      StripFixesExactlyTrimmed(steps[i].text, TextSpace);
    }
  }

  /** Whatever `_structured_plan` returns holds one to three trimmed steps, reads back as them, and
      is accepted again and returned unchanged. */
  lemma PlanCanonicalisationIsIdempotent(raw: Text)
    requires StructuredPlan(raw).Some?
    ensures exists steps :: CanonicalSteps(steps) && StructuredPlan(raw).value == Print(PlanObject(steps), false)
                            && Loads(StructuredPlan(raw).value) == Some(PlanObject(steps))
    ensures StructuredPlan(StructuredPlan(raw).value) == StructuredPlan(raw)
  {
    var given := Lookup(Loads(raw).value.fields, STEPS).value.items;
    var steps := StripSteps(given);
    StrippedStepsAreCanonical(given);
    PlanObjectReadsBack(steps);
    CanonicalPlanIsFixed(steps);
  }

  /** A value that states a plan: one to three texts of at most 240 characters that are not blank. */
  predicate IsPlan(v: Json) {
    v.Obj? &&
    var steps := Lookup(v.fields, Chars("steps"));
    && steps.Some? && steps.value.Arr? && 1 <= |steps.value.items| <= 3
    && forall i :: 0 <= i < |steps.value.items| ==>
         var step := steps.value.items[i];
         step.Str? && |step.text| <= 240 && exists j :: 0 <= j < |step.text| && !TextSpace(step.text[j])
  }

  lemma StepsKey()
    ensures STEPS == Chars("steps")
  {
  }

  lemma StripSomethingExactly(t: Text)
    ensures Strip(t, TextSpace) != [] <==> exists j :: 0 <= j < |t| && !TextSpace(t[j])
  {
    StripIsTrimmed(t, TextSpace);
  }

  lemma AcceptableExactly(v: Json)
    ensures AcceptableStep(v) <==> v.Str? && |v.text| <= 240 && exists j :: 0 <= j < |v.text| && !TextSpace(v.text[j])
  {
    if v.Str? { StripSomethingExactly(v.text); }
  }

  lemma PlanExactly(v: Json)
    ensures IsPlan(v) <==>
              && v.Obj? && Lookup(v.fields, STEPS).Some? && Lookup(v.fields, STEPS).value.Arr?
              && 1 <= |Lookup(v.fields, STEPS).value.items| <= 3 && AllAcceptable(Lookup(v.fields, STEPS).value.items)
  {
    StepsKey();
    if v.Obj? && Lookup(v.fields, STEPS).Some? && Lookup(v.fields, STEPS).value.Arr? {
      var items := Lookup(v.fields, STEPS).value.items;
      forall i | 0 <= i < |items| ensures AcceptableStep(items[i]) <==>
        items[i].Str? && |items[i].text| <= 240 && exists j :: 0 <= j < |items[i].text| && !TextSpace(items[i].text[j])
      {
        AcceptableExactly(items[i]);
      }
    }
  }

  /** The canonicaliser accepts a text exactly when it spells a plan, in whatever way. */
  lemma PlanAcceptedExactly(raw: Text)
    ensures StructuredPlan(raw).Some? <==> exists v :: Document(v, raw) && IsPlan(v)
  {
    if StructuredPlan(raw).Some? {
      LoadsExactly(raw, Loads(raw).value);
      PlanExactly(Loads(raw).value);
    }
    if v :| Document(v, raw) && IsPlan(v) {
      LoadsExactly(raw, v);
      PlanExactly(v);
    }
  }

  /** It returns the stripped texts of the steps, in order, in a text that reads as that plan. */
  lemma EverySpellingOfAPlan(raw: Text, v: Json)
    requires Document(v, raw) && IsPlan(v)
    ensures var given := Lookup(v.fields, Chars("steps")).value.items;
            exists steps ::
              && |steps| == |given| && (forall i :: 0 <= i < |given| ==> steps[i] == Str(Strip(given[i].text, TextSpace)))
              && StructuredPlan(raw).Some? && Loads(StructuredPlan(raw).value) == Some(Obj([(Chars("steps"), Arr(steps))]))
  {
    StepsKey();
    LoadsExactly(raw, v);
    PlanAcceptedExactly(raw);
    var given := Lookup(v.fields, Chars("steps")).value.items;
    PlanCanonicalisationIsIdempotent(raw);
    var steps := StripSteps(given);
    assert StructuredPlan(raw).value == Print(PlanObject(steps), false);
    StrippedStepsAreCanonical(given);
    PlanObjectReadsBack(steps);
  }

  // ---- the scorer --------------------------------------------------------------------------------

  const SEVERITY: Text := Chars("severity")
  const RELEASE_DECISION: Text := Chars("release_decision")
  const ESCALATION_OWNER: Text := Chars("escalation_owner")
  const REASON_CODES: Text := Chars("reason_codes")
  const SEVERITIES: set<Text> := {Chars("SEV1"), Chars("SEV2"), Chars("SEV3")}
  const DECISIONS: set<Text> := {Chars("BLOCK"), Chars("APPROVE_WITH_MONITORING"), Chars("APPROVE")}
  const OWNERS: set<Text> := {Chars("DATA_ENGINEERING"), Chars("DATA_GOVERNANCE"), Chars("SECURITY")}

  /** Python's `str.upper`, and `str` of a value that is not a string. */
  datatype Language = Language(upper: Text -> Text, render: Json -> Text)

  function AsString(lang: Language, v: Json): Text { if v.Str? then v.text else lang.render(v) }

  datatype Decision = Decision(severity: Text, release: Text, owner: Text, codes: seq<Text>)

  datatype Failure = InvalidJson | InvalidTarget | InvalidSchema | IncorrectDecision

  function UpperCodes(lang: Language, codes: seq<Json>): (r: seq<Text>)
    ensures |r| == |codes|
    ensures forall i :: 0 <= i < |r| ==> r[i] == lang.upper(if codes[i].Str? then codes[i].text else lang.render(codes[i]))
  {
    if codes == [] then [] else [lang.upper(AsString(lang, codes[0]))] + UpperCodes(lang, codes[1..])
  }

  predicate HasExactKeys(fields: seq<(Text, Json)>) {
    && (forall f :: f in fields ==> f.0 in {SEVERITY, RELEASE_DECISION, ESCALATION_OWNER, REASON_CODES})
    && Lookup(fields, SEVERITY).Some? && Lookup(fields, RELEASE_DECISION).Some?
    && Lookup(fields, ESCALATION_OWNER).Some? && Lookup(fields, REASON_CODES).Some?
  }

  function UpperField(lang: Language, fields: seq<(Text, Json)>, key: Text): Text
    requires Lookup(fields, key).Some?
  {
    lang.upper(AsString(lang, Lookup(fields, key).value))
  }

  /** `_normalized_decision`; `None` is "invalid_schema". */
  function Normalised(lang: Language, v: Json): Option<Decision> {
    if !v.Obj? || !HasExactKeys(v.fields) || !Lookup(v.fields, REASON_CODES).value.Arr? then None
    else
      var d := Decision(UpperField(lang, v.fields, SEVERITY), UpperField(lang, v.fields, RELEASE_DECISION),
                        UpperField(lang, v.fields, ESCALATION_OWNER),
                        Sort(Leq, UpperCodes(lang, Lookup(v.fields, REASON_CODES).value.items)));
      if d.severity !in SEVERITIES || d.release !in DECISIONS || d.owner !in OWNERS || d.codes == [] then None
      else Some(d)
  }

  /** `score_governed_release_decision`. */
  function Score(lang: Language, output: Text, target: Text): (bool, Option<Failure>) {
    var observedRaw := Loads(output);
    if observedRaw.None? then (false, Some(InvalidJson))
    else
      var expectedRaw := Loads(target);
      if expectedRaw.None? then (false, Some(InvalidTarget))
      else
        var observed, expected := Normalised(lang, observedRaw.value), Normalised(lang, expectedRaw.value);
        if observed.None? then (false, Some(InvalidSchema))
        else (observed == expected, if observed == expected then None else Some(IncorrectDecision))
  }

  function Codes(v: Json): seq<Json> {
    if v.Obj? && Lookup(v.fields, REASON_CODES).Some? && Lookup(v.fields, REASON_CODES).value.Arr?
    then Lookup(v.fields, REASON_CODES).value.items else []
  }

  function KeySet(fields: seq<(Text, Json)>): set<Text> { set f | f in fields :: f.0 }

  /** The upper-cased value of a member is one of these texts. */
  predicate UpperIn(lang: Language, v: Json, key: Text, allowed: set<Text>)
    requires v.Obj?
  {
    var x := Lookup(v.fields, key);
    x.Some? && lang.upper(if x.value.Str? then x.value.text else lang.render(x.value)) in allowed
  }

  /** A value that states a decision: exactly the four keys, allowed values, at least one reason code. */
  predicate IsDecision(lang: Language, v: Json) {
    && v.Obj?
    && HasDecisionKeys(v) && StatesSeverity(lang, v) && StatesRelease(lang, v) && StatesOwner(lang, v)
    && Codes(v) != []
  }

  predicate HasDecisionKeys(v: Json)
    requires v.Obj?
  {
    KeySet(v.fields) == {Chars("severity"), Chars("release_decision"), Chars("escalation_owner"), Chars("reason_codes")}
  }

  predicate StatesSeverity(lang: Language, v: Json)
    requires v.Obj?
  {
    UpperIn(lang, v, Chars("severity"), {Chars("SEV1"), Chars("SEV2"), Chars("SEV3")})
  }

  predicate StatesRelease(lang: Language, v: Json)
    requires v.Obj?
  {
    UpperIn(lang, v, Chars("release_decision"), {Chars("BLOCK"), Chars("APPROVE_WITH_MONITORING"), Chars("APPROVE")})
  }

  predicate StatesOwner(lang: Language, v: Json)
    requires v.Obj?
  {
    UpperIn(lang, v, Chars("escalation_owner"), {Chars("DATA_ENGINEERING"), Chars("DATA_GOVERNANCE"), Chars("SECURITY")})
  }

  /** The upper-cased values of a member agree. */
  predicate SameUpper(lang: Language, v: Json, w: Json, key: Text)
    requires v.Obj? && w.Obj?
  {
    var x := Lookup(w.fields, key);
    x.Some? && UpperIn(lang, v, key, {lang.upper(if x.value.Str? then x.value.text else lang.render(x.value))})
  }

  /** The same decision, with the reason codes taken as a bag. */
  predicate SameDecision(lang: Language, v: Json, w: Json)
    requires v.Obj? && w.Obj?
  {
    && SameUpper(lang, v, w, Chars("severity")) && SameUpper(lang, v, w, Chars("release_decision"))
    && SameUpper(lang, v, w, Chars("escalation_owner"))
    && multiset(UpperCodes(lang, Codes(v))) == multiset(UpperCodes(lang, Codes(w)))
  }

  lemma {:induction false} LookupFinds(fields: seq<(Text, Json)>, key: Text)
    ensures Lookup(fields, key).Some? <==> key in KeySet(fields)
  {
    if fields != [] {
      LookupFinds(fields[1..], key);
      assert fields == [fields[0]] + fields[1..];
      assert KeySet(fields) == {fields[0].0} + KeySet(fields[1..]);
    }
  }

  lemma ExactKeys(fields: seq<(Text, Json)>)
    ensures HasExactKeys(fields) <==>
              KeySet(fields) == {Chars("severity"), Chars("release_decision"), Chars("escalation_owner"), Chars("reason_codes")}
  {
    LookupFinds(fields, SEVERITY);
    LookupFinds(fields, RELEASE_DECISION);
    LookupFinds(fields, ESCALATION_OWNER);
    LookupFinds(fields, REASON_CODES);
    assert forall f :: f in fields ==> f.0 in KeySet(fields);
  }

  lemma NormalisesExactlyDecisions(lang: Language, v: Json)
    ensures Normalised(lang, v).Some? <==> IsDecision(lang, v)
  {
    if v.Obj? { ExactKeys(v.fields); }
    SortMembers(Leq, UpperCodes(lang, Codes(v)));
  }

  /** Two decisions normalise alike exactly when they are the same up to case and order of codes. */
  lemma NormalisedAlikeExactly(lang: Language, v: Json, w: Json)
    requires IsDecision(lang, v) && IsDecision(lang, w)
    ensures Normalised(lang, v) == Normalised(lang, w) <==> SameDecision(lang, v, w)
  {
    NormalisesExactlyDecisions(lang, v);
    NormalisesExactlyDecisions(lang, w);
    LeqOrdersTexts();
    SortsAgreeExactly(Leq, UpperCodes(lang, Codes(v)), UpperCodes(lang, Codes(w)));
  }

  /** The scorer passes exactly when both texts read as decisions and the decisions are the same up
      to case and order of codes. Otherwise it names the first of: an output that is no JSON, a target
      that is no JSON, an output that states no decision, a different decision. */
  lemma ScorePassesExactly(lang: Language, output: Text, target: Text)
    ensures var (passed, failure) := Score(lang, output, target);
            var o, t := Loads(output), Loads(target);
            && (passed <==> o.Some? && t.Some? && IsDecision(lang, o.value) && IsDecision(lang, t.value)
                            && SameDecision(lang, o.value, t.value))
            && (failure == None <==> passed)
            && (failure == Some(InvalidJson) <==> o.None?)
            && (failure == Some(InvalidTarget) <==> o.Some? && t.None?)
            && (failure == Some(InvalidSchema) <==> o.Some? && t.Some? && !IsDecision(lang, o.value))
  {
    if Loads(output).Some? && Loads(target).Some? {
      var v, w := Loads(output).value, Loads(target).value;
      NormalisesExactlyDecisions(lang, v);
      NormalisesExactlyDecisions(lang, w);
      if IsDecision(lang, v) && IsDecision(lang, w) { NormalisedAlikeExactly(lang, v, w); }
    }
  }

  /** So the way either text is spelled does not matter. */
  lemma EverySpellingScores(lang: Language, output: Text, target: Text, v: Json, w: Json)
    requires Document(v, output) && Document(w, target)
    ensures Score(lang, output, target).0 <==> IsDecision(lang, v) && IsDecision(lang, w) && SameDecision(lang, v, w)
    ensures Score(lang, output, target).1 !in {Some(InvalidJson), Some(InvalidTarget)}
  {
    LoadsExactly(output, v);
    LoadsExactly(target, w);
    ScorePassesExactly(lang, output, target);
  }

  // ---- printed targets -----------------------------------------------------------------------------

  function Strings(texts: seq<Text>): seq<Json> {
    if texts == [] then [] else [Str(texts[0])] + Strings(texts[1..])
  }

  /** The target's members in key order. */
  function TargetObject(severity: Text, release: Text, owner: Text, reasons: seq<Text>): Json {
    Obj([(ESCALATION_OWNER, Str(owner)), (REASON_CODES, Arr(Strings(reasons))),
         (RELEASE_DECISION, Str(release)), (SEVERITY, Str(severity))])
  }

  /** `_decision_target`: ASCII output with sorted keys. */
  function DecisionTarget(severity: Text, release: Text, owner: Text, reasons: seq<Text>): Text {
    Print(TargetObject(severity, release, owner, reasons), true)
  }

  /** The keys are printed in code-point order. */
  lemma TargetKeysAreSorted()
    ensures Ordered(Leq, [ESCALATION_OWNER, REASON_CODES, RELEASE_DECISION, SEVERITY])
    ensures forall severity, release, owner, reasons ::
              var fields := TargetObject(severity, release, owner, reasons).fields;
              |fields| == 4 && fields[0].0 == ESCALATION_OWNER && fields[1].0 == REASON_CODES
              && fields[2].0 == RELEASE_DECISION && fields[3].0 == SEVERITY
  {
    var e, a, r, s := ESCALATION_OWNER, REASON_CODES, RELEASE_DECISION, SEVERITY;
    assert e[0] < a[0] == r[0] < s[0] && a[1] == r[1] && a[2] < r[2];
    assert Leq(a[1..][1..], r[1..][1..]);
    assert Leq(a[1..], r[1..]);
  }

  function FuseAll(texts: seq<Text>): seq<Text> {
    if texts == [] then [] else [Fuse(texts[0])] + FuseAll(texts[1..])
  }

  lemma KeysDiffer()
    ensures SEVERITY[0] != RELEASE_DECISION[0] && SEVERITY[0] != ESCALATION_OWNER[0] && SEVERITY[0] != REASON_CODES[0]
    ensures ESCALATION_OWNER[0] != RELEASE_DECISION[0] && ESCALATION_OWNER[0] != REASON_CODES[0]
    ensures REASON_CODES[2] != RELEASE_DECISION[2]
  {
  }

  lemma {:induction false} AsciiKeyIsStable(key: Text)
    requires AsciiOnly(key)
    ensures Fuse(key) == key
  {
    FuseKeepsExactlyPairFree(key);
  }

  lemma {:induction false} StringsReadBack(texts: seq<Text>)
    ensures WritableItems(Strings(texts), true)
    ensures ReadBackItems(Strings(texts), true) == Strings(FuseAll(texts))
  {
    if texts != [] {
      StringsReadBack(texts[1..]);
      assert Strings(texts)[1..] == Strings(texts[1..]);
    }
  }

  lemma TargetReadsBack(severity: Text, release: Text, owner: Text, reasons: seq<Text>)
    ensures Loads(DecisionTarget(severity, release, owner, reasons))
         == Some(TargetObject(Fuse(severity), Fuse(release), Fuse(owner), FuseAll(reasons)))
  {
    TargetFieldsReadBack(severity, release, owner, reasons);
    FourFieldsReadBack(TargetObject(severity, release, owner, reasons).fields,
                       TargetObject(Fuse(severity), Fuse(release), Fuse(owner), FuseAll(reasons)).fields);
  }

  lemma TargetFieldsReadBack(severity: Text, release: Text, owner: Text, reasons: seq<Text>)
    ensures var fs := TargetObject(severity, release, owner, reasons).fields;
            var gs := TargetObject(Fuse(severity), Fuse(release), Fuse(owner), FuseAll(reasons)).fields;
            && WritableField(fs[0], true) && ReadBackField(fs[0], true) == gs[0]
            && WritableField(fs[1], true) && ReadBackField(fs[1], true) == gs[1]
            && WritableField(fs[2], true) && ReadBackField(fs[2], true) == gs[2]
            && WritableField(fs[3], true) && ReadBackField(fs[3], true) == gs[3]
  {
    StringField(SEVERITY, severity);
    StringField(RELEASE_DECISION, release);
    StringField(ESCALATION_OWNER, owner);
    CodesField(reasons);
  }

  lemma FourFieldsReadBack(fs: seq<(Text, Json)>, gs: seq<(Text, Json)>)
    requires |fs| == |gs| == 4
    requires WritableField(fs[0], true) && ReadBackField(fs[0], true) == gs[0]
    requires WritableField(fs[1], true) && ReadBackField(fs[1], true) == gs[1]
    requires WritableField(fs[2], true) && ReadBackField(fs[2], true) == gs[2]
    requires WritableField(fs[3], true) && ReadBackField(fs[3], true) == gs[3]
    requires gs[0].0 == ESCALATION_OWNER && gs[1].0 == REASON_CODES && gs[2].0 == RELEASE_DECISION && gs[3].0 == SEVERITY
    ensures Loads(Print(Obj(fs), true)) == Some(Obj(gs))
  {
    FieldwiseReadBack(fs, gs);
    TargetKeysDistinct(gs);
    LoadsDumps(Obj(fs), true);
  }

  lemma StringField(key: Text, t: Text)
    requires AsciiOnly(key)
    ensures WritableField((key, Str(t)), true) && ReadBackField((key, Str(t)), true) == (key, Str(Fuse(t)))
  {
    AsciiKeyIsStable(key);
  }

  lemma CodesField(reasons: seq<Text>)
    ensures WritableField((REASON_CODES, Arr(Strings(reasons))), true)
    ensures ReadBackField((REASON_CODES, Arr(Strings(reasons))), true) == (REASON_CODES, Arr(Strings(FuseAll(reasons))))
  {
    StringsReadBack(reasons);
    AsciiKeyIsStable(REASON_CODES);
  }

  lemma TargetKeysDistinct(gs: seq<(Text, Json)>)
    requires |gs| == 4
    requires gs[0].0 == ESCALATION_OWNER && gs[1].0 == REASON_CODES && gs[2].0 == RELEASE_DECISION && gs[3].0 == SEVERITY
    ensures DistinctKeys(gs)
  {
    KeysDiffer();
    assert DistinctKeys(gs[..0]);
    assert gs[..1][..0] == gs[..0] && gs[..2][..1] == gs[..1] && gs[..3][..2] == gs[..2];
    assert DistinctKeys(gs[..1]) && DistinctKeys(gs[..2]) && DistinctKeys(gs[..3]);
  }

  lemma {:induction false} FieldwiseReadBack(fs: seq<(Text, Json)>, gs: seq<(Text, Json)>)
    requires |fs| == |gs|
    requires forall i :: 0 <= i < |fs| ==> WritableField(fs[i], true) && ReadBackField(fs[i], true) == gs[i]
    ensures WritableFields(fs, true) && ReadBackFields(fs, true) == gs
  {
    if fs != [] {
      FieldwiseReadBack(fs[1..], gs[1..]);
      assert gs == [gs[0]] + gs[1..];
    }
  }

  lemma TargetLookups(v: Json, severity: Text, release: Text, owner: Text, reasons: seq<Text>)
    requires v == TargetObject(severity, release, owner, reasons)
    ensures HasExactKeys(v.fields) && Codes(v) == Strings(reasons)
    ensures Lookup(v.fields, SEVERITY) == Some(Str(severity)) && Lookup(v.fields, RELEASE_DECISION) == Some(Str(release))
    ensures Lookup(v.fields, ESCALATION_OWNER) == Some(Str(owner))
    ensures Lookup(v.fields, REASON_CODES) == Some(Arr(Strings(reasons)))
  {
    KeysDiffer();
    var fs := v.fields;
    var f1, f2, f3 := fs[1..], fs[2..], fs[3..];
    assert f1[1..] == f2 && f2[1..] == f3;
    forall key ensures Lookup(fs, key) == if fs[0].0 == key then Some(fs[0].1) else Lookup(f1, key) {}
    forall key ensures Lookup(f1, key) == if fs[1].0 == key then Some(fs[1].1) else Lookup(f2, key) {}
    forall key ensures Lookup(f2, key) == if fs[2].0 == key then Some(fs[2].1) else Lookup(f3, key) {}
  }

  /** The upper-cased codes of a target as read back. */
  function UpperFused(lang: Language, texts: seq<Text>): seq<Text> {
    if texts == [] then [] else [lang.upper(Fuse(texts[0]))] + UpperFused(lang, texts[1..])
  }

  lemma {:induction false} UpperFusedIsUpperCodes(lang: Language, texts: seq<Text>)
    ensures UpperCodes(lang, Strings(FuseAll(texts))) == UpperFused(lang, texts)
  {
    if texts != [] {
      assert FuseAll(texts)[1..] == FuseAll(texts[1..]);
      assert Strings(FuseAll(texts))[1..] == Strings(FuseAll(texts)[1..]);
      UpperFusedIsUpperCodes(lang, texts[1..]);
    }
  }

  lemma {:induction false} CodeMoved(lang: Language, before: seq<Text>, x: Text, after: seq<Text>)
    ensures multiset(UpperFused(lang, before + [x] + after))
         == multiset(UpperFused(lang, before + after)) + multiset{lang.upper(Fuse(x))}
  {
    var with, without := before + [x] + after, before + after;
    if before == [] {
      assert with[1..] == after == without;
    } else {
      assert with[1..] == before[1..] + [x] + after && without[1..] == before[1..] + after;
      CodeMoved(lang, before[1..], x, after);
    }
  }

  lemma TakeOut(x: Text, b: seq<Text>) returns (before: seq<Text>, after: seq<Text>)
    requires x in multiset(b)
    ensures b == before + [x] + after && multiset(before + after) == multiset(b) - multiset{x}
  {
    var k :| 0 <= k < |b| && b[k] == x;
    before, after := b[..k], b[k + 1..];
    assert b == before + [x] + after;
  }

  lemma {:induction false} PermutedCodes(lang: Language, a: seq<Text>, b: seq<Text>)
    requires multiset(a) == multiset(b)
    ensures multiset(UpperFused(lang, a)) == multiset(UpperFused(lang, b))
    decreases |a|
  {
    assert |a| == |multiset(a)| && |b| == |multiset(b)|;
    if a != [] {
      var x, rest := a[0], a[1..];
      assert a == [] + [x] + rest;
      var before, after := TakeOut(x, b);
      assert [] + rest == rest;
      PermutedCodes(lang, rest, before + after);
      PutBack(lang, x, rest, before, after);
    }
  }

  lemma PutBack(lang: Language, x: Text, rest: seq<Text>, before: seq<Text>, after: seq<Text>)
    requires multiset(UpperFused(lang, rest)) == multiset(UpperFused(lang, before + after))
    ensures multiset(UpperFused(lang, [] + [x] + rest)) == multiset(UpperFused(lang, before + [x] + after))
  {
    CodeMoved(lang, before, x, after);
    CodeMoved(lang, [], x, rest);
    assert [] + rest == rest;
  }

  /** A printed target that states a decision scores as correct against itself, with its reason
      codes in any order. */
  lemma PrintedTargetScoresItself(lang: Language, severity: Text, release: Text, owner: Text,
                                  reasons: seq<Text>, reordered: seq<Text>)
    requires lang.upper(Fuse(severity)) in SEVERITIES && lang.upper(Fuse(release)) in DECISIONS
    requires lang.upper(Fuse(owner)) in OWNERS && reasons != [] && multiset(reasons) == multiset(reordered)
    ensures Score(lang, DecisionTarget(severity, release, owner, reordered),
                  DecisionTarget(severity, release, owner, reasons)) == (true, None)
  {
    var s, r, o := Fuse(severity), Fuse(release), Fuse(owner);
    var v, w := TargetObject(s, r, o, FuseAll(reordered)), TargetObject(s, r, o, FuseAll(reasons));
    TargetReadsBack(severity, release, owner, reordered);
    TargetReadsBack(severity, release, owner, reasons);
    assert reasons[0] in multiset(reordered);
    SameTargets(lang, v, w, s, r, o, reordered, reasons);
    ScorePassesExactly(lang, DecisionTarget(severity, release, owner, reordered),
                       DecisionTarget(severity, release, owner, reasons));
  }

  lemma SameTargets(lang: Language, v: Json, w: Json, s: Text, r: Text, o: Text, a: seq<Text>, b: seq<Text>)
    requires v == TargetObject(s, r, o, FuseAll(a)) && w == TargetObject(s, r, o, FuseAll(b))
    requires lang.upper(s) in SEVERITIES && lang.upper(r) in DECISIONS && lang.upper(o) in OWNERS
    requires a != [] && b != [] && multiset(a) == multiset(b)
    ensures IsDecision(lang, v) && IsDecision(lang, w) && SameDecision(lang, v, w)
  {
    TargetLookups(v, s, r, o, FuseAll(a));
    TargetLookups(w, s, r, o, FuseAll(b));
    PermutedCodes(lang, a, b);
    UpperFusedIsUpperCodes(lang, a);
    UpperFusedIsUpperCodes(lang, b);
  }
}
