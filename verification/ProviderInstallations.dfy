/** The provider-installation form: a configuration must be validated before it can be created.

    `JSON.parse` and `JSON.stringify` are the parameters of `Codec`. Validation replies may arrive
    late and in any order. */
module ProviderInstallations {
  import opened Texts
  import opened SchemaFields

  datatype Payload = Payload(providerType: string, displayName: string, settings: Value, secretRefs: Value,
                             enabled: bool, scope: string)

  datatype Codec = Codec(parse: string -> Option<Value>, stringify: Payload -> string)

  datatype Form = Form(providerType: string, displayName: string, settings: string, secretRefs: string,
                       enabled: bool, scope: string)

  /** `Object.values(v).every(isString)`; `None` is the exception it throws for null. */
  function AllStrings(v: Value): Option<bool> {
    match v
    case Null => None
    case Obj(fields) => Some(forall i :: 0 <= i < |fields| ==> fields[i].1.Str?)
    case Arr(items) => Some(forall i :: 0 <= i < |items| ==> items[i].Str?)
    case _ => Some(true)
  }

  /** `installationPayload`; `None` is any of its exceptions. */
  function PayloadOf(c: Codec, f: Form): Option<Payload> {
    var settings, secretRefs := c.parse(f.settings), c.parse(f.secretRefs);
    if settings.None? || secretRefs.None? then None
    else
      var name := Strip(f.displayName, JsSpace);
      if f.providerType == "" || name == "" || settings.value.Arr? || secretRefs.value.Arr?
         || AllStrings(secretRefs.value) != Some(true)
      then None
      else Some(Payload(f.providerType, name, settings.value, secretRefs.value, f.enabled, f.scope))
  }

  /** `validationFingerprint`. */
  function Fingerprint(c: Codec, f: Form): Option<string> {
    var p := PayloadOf(c, f);
    if p.None? then None else Some(c.stringify(p.value))
  }

  /** A request carries the form's fields: the display name without surrounding white space, the two
      JSON texts parsed, the others as they are. */
  predicate CarriesForm(c: Codec, f: Form, p: Payload) {
    && p.providerType == f.providerType != "" && p.displayName == Strip(f.displayName, JsSpace) != ""
    && c.parse(f.settings) == Some(p.settings) && c.parse(f.secretRefs) == Some(p.secretRefs)
    && p.enabled == f.enabled && p.scope == f.scope
    && !p.settings.Arr? && SecretsAreTexts(p.secretRefs)
  }

  /** No list and not null, and an object only of texts. */
  predicate SecretsAreTexts(v: Value) {
    !v.Arr? && !v.Null? && (v.Obj? ==> forall e :: e in v.fields ==> e.1.Str?)
  }

  lemma PayloadExactly(c: Codec, f: Form, p: Payload)
    ensures PayloadOf(c, f) == Some(p) <==> CarriesForm(c, f, p)
  {
    var secretRefs := c.parse(f.secretRefs);
    if secretRefs.Some? && secretRefs.value.Obj? {
      var fields := secretRefs.value.fields;
      assert forall i :: 0 <= i < |fields| ==> fields[i] in fields;
    }
  }

  // ---- the transition system -------------------------------------------------------------------

  /** What happened, as far as validation is concerned. `Cleared` is a failed validation or a reset. */
  datatype Occurrence = Validated(payload: Payload) | Cleared | CreateRequested(payload: Payload)

  datatype State = State(form: Form, validated: Option<string>, validating: seq<Payload>, creating: nat,
                         history: seq<Occurrence>)

  datatype Action =
    | Edit(form: Form)
    | ApplyTemplate(providerType: string, displayName: string, settings: string, secretRefs: string)
    | ValidateConnection
    | ValidationReply(request: nat, succeeded: bool)
    | Submit
    | CreateReply(accepted: bool)

  function Clear(s: State): State { s.(validated := None, history := s.history + [Cleared]) }

  function Step(c: Codec, s: State, a: Action): State {
    match a
    case Edit(form) => s.(form := form.(providerType := s.form.providerType))
    case ApplyTemplate(providerType, displayName, settings, secretRefs) =>
      Clear(s).(form := Form(providerType, displayName, settings, secretRefs, s.form.enabled, s.form.scope))
    case ValidateConnection =>
      var p := PayloadOf(c, s.form);
      if p.None? then Clear(s) else s.(validating := s.validating + [p.value])
    case ValidationReply(i, succeeded) =>
      if i >= |s.validating| then s
      else
        var p := s.validating[i];
        var settled := s.(validating := s.validating[..i] + s.validating[i + 1..]);
        if succeeded then settled.(validated := Some(c.stringify(p)), history := s.history + [Validated(p)])
        else Clear(settled)
    case Submit =>
      if Fingerprint(c, s.form).None? || Fingerprint(c, s.form) != s.validated then s
      else
        s.(creating := s.creating + 1, history := s.history + [CreateRequested(PayloadOf(c, s.form).value)])
    case CreateReply(accepted) =>
      if s.creating == 0 then s
      else if accepted then
        Clear(s).(creating := s.creating - 1,
                  form := s.form.(displayName := "", settings := "{}", secretRefs := "{}"))
      else s.(creating := s.creating - 1)
  }

  const EMPTY_FORM := Form("", "", "{}", "{}", true, "ORGANIZATION")

  const INITIAL := State(EMPTY_FORM, None, [], 0, [])

  function Run(c: Codec, s: State, actions: seq<Action>): State
    decreases |actions|
  {
    if actions == [] then s else Run(c, Step(c, s, actions[0]), actions[1..])
  }

  // ---- every create was validated -----------------------------------------------------------------

  /** At `i` a payload with this fingerprint was validated, and nothing was cleared between then and `j`. */
  ghost predicate ValidatedSince(c: Codec, h: seq<Occurrence>, fingerprint: string, i: nat, j: nat)
    requires j <= |h|
  {
    i < j && h[i].Validated? && c.stringify(h[i].payload) == fingerprint && forall k :: i < k < j ==> !h[k].Cleared?
  }

  ghost predicate Justified(c: Codec, h: seq<Occurrence>) {
    forall j :: 0 <= j < |h| && h[j].CreateRequested? ==>
      exists i: nat :: ValidatedSince(c, h, c.stringify(h[j].payload), i, j)
  }

  ghost predicate Consistent(c: Codec, s: State) {
    && Justified(c, s.history)
    && (s.validated.Some? ==> exists i: nat :: ValidatedSince(c, s.history, s.validated.value, i, |s.history|))
  }

  lemma JustifiedExtends(c: Codec, h: seq<Occurrence>, o: Occurrence)
    requires Justified(c, h)
    requires o.CreateRequested? ==> exists i: nat :: ValidatedSince(c, h, c.stringify(o.payload), i, |h|)
    ensures Justified(c, h + [o])
  {
    var g := h + [o];
    forall j | 0 <= j < |g| && g[j].CreateRequested?
      ensures exists i: nat :: ValidatedSince(c, g, c.stringify(g[j].payload), i, j)
    {
      var i: nat :| ValidatedSince(c, h, c.stringify(g[j].payload), i, j);
      assert ValidatedSince(c, g, c.stringify(g[j].payload), i, j);
    }
  }

  lemma StepKeepsConsistent(c: Codec, s: State, a: Action)
    requires Consistent(c, s)
    ensures Consistent(c, Step(c, s, a))
  {
    var t := Step(c, s, a);
    if t.history != s.history {
      var o := t.history[|s.history|];
      assert t.history == s.history + [o];
      JustifiedExtends(c, s.history, o);
      if t.validated.Some? {
        if o.Validated? {
          assert ValidatedSince(c, t.history, t.validated.value, |s.history|, |t.history|);
        } else {
          var i: nat :| ValidatedSince(c, s.history, s.validated.value, i, |s.history|);
          assert ValidatedSince(c, t.history, t.validated.value, i, |t.history|);
        }
      }
    }
  }

  lemma {:induction false} RunKeepsConsistent(c: Codec, s: State, actions: seq<Action>)
    requires Consistent(c, s)
    ensures Consistent(c, Run(c, s, actions))
    decreases |actions|
  {
    if actions != [] {
      StepKeepsConsistent(c, s, actions[0]);
      RunKeepsConsistent(c, Step(c, s, actions[0]), actions[1..]);
    }
  }

  /** In every interleaving of edits, template changes, requests, late or reordered replies and
      submits: a create request carries a payload that serialises like one that was validated, with no
      failed validation and no reset in between. */
  lemma EveryCreateWasValidated(c: Codec, actions: seq<Action>)
    ensures Justified(c, Run(c, INITIAL, actions).history)
  {
    RunKeepsConsistent(c, INITIAL, actions);
  }

  // ---- the component -------------------------------------------------------------------------------

  class Component {
    const codec: Codec
    var form: Form
    var validatedFingerprint: Option<string>
    var validating: seq<Payload>
    var creating: nat
    ghost var history: seq<Occurrence>

    ghost function Current(): State
      reads this
    {
      State(form, validatedFingerprint, validating, creating, history)
    }

    constructor (codec: Codec)
      ensures this.codec == codec && Current() == INITIAL
    {
      this.codec := codec;
      form, validatedFingerprint, validating, creating, history := EMPTY_FORM, None, [], 0, [];
    }

    /** The setters of the other form fields. */
    method EditFields(displayName: string, settings: string, secretRefs: string, enabled: bool, scope: string)
      modifies this`form
      ensures Current() == Step(codec, old(Current()), Edit(Form("", displayName, settings, secretRefs, enabled, scope)))
    {
      form := Form(form.providerType, displayName, settings, secretRefs, enabled, scope);
    }

    method ApplyTemplate(providerType: string, displayName: string, settings: string, secretRefs: string)
      modifies this
      ensures Current() == Step(codec, old(Current()), Action.ApplyTemplate(providerType, displayName, settings, secretRefs))
      ensures form == Form(providerType, displayName, settings, secretRefs, old(form).enabled, old(form).scope)
      ensures validatedFingerprint == None && history == old(history) + [Cleared]
    {
      form := Form(providerType, displayName, settings, secretRefs, form.enabled, form.scope);
      ClearValidation();
    }

    method ClearValidation()
      modifies this`validatedFingerprint, this`history
      ensures Current() == Clear(old(Current()))
    {
      validatedFingerprint := None;
      history := history + [Cleared];
    }

    method ValidateConnection()
      modifies this
      ensures Current() == Step(codec, old(Current()), Action.ValidateConnection)
      ensures form == old(form)
      ensures (exists p :: CarriesForm(codec, form, p) && validating == old(validating) + [p]
                           && validatedFingerprint == old(validatedFingerprint))
              || ((forall p :: !CarriesForm(codec, form, p)) && validating == old(validating) && validatedFingerprint == None)
    {
      forall p ensures PayloadOf(codec, form) == Some(p) <==> CarriesForm(codec, form, p) { PayloadExactly(codec, form, p); }
      var p := PayloadOf(codec, form);
      if p.None? {
        ClearValidation();
      } else {
        validating := validating + [p.value];
      }
    }

    method OnValidationReply(i: nat, succeeded: bool)
      modifies this
      ensures Current() == Step(codec, old(Current()), ValidationReply(i, succeeded))
      ensures i < |old(validating)| ==>
                && form == old(form)
                && validatedFingerprint == (if succeeded then Some(codec.stringify(old(validating)[i])) else None)
                && history == old(history) + [if succeeded then Validated(old(validating)[i]) else Cleared]
    {
      if i >= |validating| {
        return;
      }
      var p := validating[i];
      validating := validating[..i] + validating[i + 1..];
      if succeeded {
        validatedFingerprint := Some(codec.stringify(p));
        history := history + [Validated(p)];
      } else {
        ClearValidation();
      }
    }

    method Submit() returns (request: Option<Payload>)
      requires Consistent(codec, Current())
      modifies this`creating, this`history
      ensures Current() == Step(codec, old(Current()), Action.Submit)
      ensures Consistent(codec, Current())
      ensures request.Some? ==> CarriesForm(codec, form, request.value)
      ensures request.Some? <==> exists p :: CarriesForm(codec, form, p) && validatedFingerprint == Some(codec.stringify(p))
      ensures request.Some? ==> exists i: nat ::
                ValidatedSince(codec, old(history), codec.stringify(request.value), i, |old(history)|)
    {
      StepKeepsConsistent(codec, Current(), Action.Submit);
      forall p ensures PayloadOf(codec, form) == Some(p) <==> CarriesForm(codec, form, p) { PayloadExactly(codec, form, p); }
      request := None;
      var currentFingerprint := Fingerprint(codec, form);
      if currentFingerprint.None? || currentFingerprint != validatedFingerprint {
        return;
      }
      request := PayloadOf(codec, form);
      creating := creating + 1;
      history := history + [CreateRequested(request.value)];
    }

    method OnCreateReply(accepted: bool)
      modifies this
      ensures Current() == Step(codec, old(Current()), CreateReply(accepted))
      ensures old(creating) > 0 && accepted ==>
                && validatedFingerprint == None && history == old(history) + [Cleared]
                && form == old(form).(displayName := "", settings := "{}", secretRefs := "{}")
      ensures old(creating) > 0 && !accepted ==> form == old(form) && validatedFingerprint == old(validatedFingerprint)
    {
      if creating == 0 {
        return;
      }
      creating := creating - 1;
      if accepted {
        form := form.(displayName := "", settings := "{}", secretRefs := "{}");
        ClearValidation();
      }
    }
  }
}
