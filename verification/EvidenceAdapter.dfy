/** The facts the Google ADK adapter reads from a node context, and the step it derives from them.

    SHA-256 is the parameter `hash`. Attributes that are missing, or that are not strings, are `None`. */
module EvidenceAdapter {
  import opened Texts

  datatype Node = Node(typeName: string, name: Option<Text>)

  datatype Context = Context(invocationId: Option<Text>, runId: Option<Text>,
                             nodePath: Option<Text>, node: Option<Node>,
                             parent: Option<Context>, attempt: Option<int>)

  datatype Identity = Identity(invocationId: Text, runId: Text, nodePath: Text)

  datatype Attributes = Attributes(nodePath: Text, runId: Text, attempt: Option<int>)

  datatype Step = Step(id: Text, name: Text, parent: Option<Text>, attributes: Attributes)

  datatype Lifecycle = STARTED | COMPLETED | FAILED

  datatype Event = Event(step: Step, lifecycle: Lifecycle)

  type Hash = Text -> Text

  const UNIT_SEPARATOR: CodePoint := 0x1f
  const MAX_LENGTH := 256

  function RequiredText(value: Option<Text>): (r: Option<Text>)
  {
    if value.None? then None
    else
      var stripped := Strip(value.value, TextSpace);
      if stripped == [] then None else Some(stripped)
  }

  function Bounded(s: Text): Text {
    if |s| <= MAX_LENGTH then s else s[..MAX_LENGTH]
  }

  function IdentityOf(c: Context): Option<Identity> {
    var i, r, p := RequiredText(c.invocationId), RequiredText(c.runId), RequiredText(c.nodePath);
    if i.None? || r.None? || p.None? then None else Some(Identity(i.value, r.value, p.value))
  }

  function PreHash(i: Identity): Text {
    i.invocationId + [UNIT_SEPARATOR] + i.runId + [UNIT_SEPARATOR] + i.nodePath
  }

  const STEP_PREFIX: Text := Chars("adk-step-")

  function StableStepId(hash: Hash, i: Identity): Text {
    STEP_PREFIX + hash(PreHash(i))
  }

  /** The parent a child links to: only a function node with all its identifiers. */
  function ParentIdentity(c: Option<Context>): Option<Identity> {
    if c.None? || c.value.node.None? || c.value.node.value.typeName != "FunctionNode" then None
    else IdentityOf(c.value)
  }

  function ParentStepId(hash: Hash, c: Option<Context>): Option<Text> {
    var i := ParentIdentity(c);
    if i.None? then None else Some(StableStepId(hash, i.value))
  }

  const SLASH: CodePoint := 47
  const DOT: CodePoint := 46

  predicate PathSeparator(c: CodePoint) { c == SLASH || c == DOT }

  function NonEmpty(pieces: seq<Text>): seq<Text> {
    if pieces == [] then []
    else (if pieces[0] == [] then [] else [pieces[0]]) + NonEmpty(pieces[1..])
  }

  function NodeName(c: Context, nodePath: Text): Option<Text> {
    var name := if c.node.None? then None else RequiredText(c.node.value.name);
    if name.Some? then name
    else
      var parts := NonEmpty(SplitOn(nodePath, PathSeparator));
      if parts == [] then None else Some(parts[|parts| - 1])
  }

  function ResolvedName(c: Context, explicit: Option<Text>, nodePath: Text): Option<Text> {
    var name := RequiredText(explicit);
    if name.Some? then name else NodeName(c, nodePath)
  }

  function StepFromContext(hash: Hash, c: Context, explicit: Option<Text>): Option<Step>
  {
    var i := IdentityOf(c);
    if i.None? then None
    else
      var name := ResolvedName(c, explicit, i.value.nodePath);
      if name.None? then None
      else
        Some(Step(StableStepId(hash, i.value), Bounded(name.value), ParentStepId(hash, c.parent),
                  Attributes(Bounded(i.value.nodePath), Bounded(i.value.runId),
                             if c.attempt.Some? && c.attempt.value >= 0 then c.attempt else None)))
  }

  /** Deriving the step does not raise `UnicodeEncodeError`: the texts it hashes encode. The wrapper
      derives the step outside its fail-open guard. */
  predicate Derivable(c: Context, explicit: Option<Text>) {
    var i, parent := IdentityOf(c), ParentIdentity(c.parent);
    i.Some? ==>
      && (parent.Some? ==> Encodable(PreHash(parent.value)))
      && (ResolvedName(c, explicit, i.value.nodePath).Some? ==> Encodable(PreHash(i.value)))
  }

  function LifecycleName(l: Lifecycle): Text {
    match l case STARTED => Chars("STARTED") case COMPLETED => Chars("COMPLETED") case FAILED => Chars("FAILED")
  }

  const KEY_SEPARATOR: CodePoint := 58

  function IdempotencyKey(e: Event): Text {
    e.step.id + [KEY_SEPARATOR] + LifecycleName(e.lifecycle)
  }

  // ---- what a step is made of -------------------------------------------------------------------

  /** The stripped text of an attribute that has one. */
  predicate Has(value: Option<Text>, t: Text) {
    value.Some? && Strip(value.value, TextSpace) == t != []
  }

  /** A step links to a parent exactly when the parent context is that of a function node with all
      three identifiers, and then to the id derived from those. */
  lemma ParentLinkExactly(hash: Hash, c: Context, explicit: Option<Text>, p: Text)
    requires StepFromContext(hash, c, explicit).Some?
    ensures StepFromContext(hash, c, explicit).value.parent == Some(p) <==>
              && c.parent.Some? && c.parent.value.node.Some? && c.parent.value.node.value.typeName == "FunctionNode"
              && exists i, r, n :: Identified(c.parent.value, i, r, n)
                                   && p == Chars("adk-step-") + hash(i + [0x1f] + r + [0x1f] + n)
  {
    if c.parent.Some? {
      IdentityExactly(c.parent.value);
      if IdentityOf(c.parent.value).Some? {
        var i := IdentityOf(c.parent.value).value;
        assert Identified(c.parent.value, i.invocationId, i.runId, i.nodePath);
      }
      if i, r, n :| Identified(c.parent.value, i, r, n) { assert IdentityOf(c.parent.value) == Some(Identity(i, r, n)); }
    }
  }

  lemma IdentityExactly(c: Context)
    ensures forall i, r, n {:trigger Identity(i, r, n)} ::
              IdentityOf(c) == Some(Identity(i, r, n)) <==> Identified(c, i, r, n)
  {
    HasExactly(c.invocationId);
    HasExactly(c.runId);
    HasExactly(c.nodePath);
  }

  /** A step is emitted exactly when the context has all three identifiers and a name is found. */
  lemma EmittedExactly(hash: Hash, c: Context, explicit: Option<Text>)
    ensures StepFromContext(hash, c, explicit).Some? <==>
              (exists i, r, n :: Identified(c, i, r, n)) && exists name :: Named(c, explicit, name)
  {
    IdentityExactly(c);
    if IdentityOf(c).Some? {
      var i := IdentityOf(c).value;
      assert Identified(c, i.invocationId, i.runId, i.nodePath);
      NameExactly(c, explicit);
    }
    if i, r, n :| Identified(c, i, r, n) { assert IdentityOf(c) == Some(Identity(i, r, n)); }
  }

  /** Its id and its attributes, at most 256 characters each, are those of the identifiers. */
  lemma StepIdentity(hash: Hash, c: Context, explicit: Option<Text>, i: Text, r: Text, n: Text)
    requires StepFromContext(hash, c, explicit).Some? && Identified(c, i, r, n)
    ensures var s := StepFromContext(hash, c, explicit).value;
            && s.id == Chars("adk-step-") + hash(i + [0x1f] + r + [0x1f] + n)
            && s.attributes.runId == First256(r) && s.attributes.nodePath == First256(n)
            && s.attributes.attempt == if c.attempt.Some? && c.attempt.value < 0 then None else c.attempt
  {
    IdentityExactly(c);
    assert IdentityOf(c) == Some(Identity(i, r, n));
  }

  /** And its name, at most 256 characters, is the one found. */
  lemma StepName(hash: Hash, c: Context, explicit: Option<Text>, name: Text)
    requires StepFromContext(hash, c, explicit).Some? && Named(c, explicit, name)
    ensures StepFromContext(hash, c, explicit).value.name == First256(name)
  {
    NameExactly(c, explicit);
  }

  ghost predicate Identified(c: Context, i: Text, r: Text, n: Text) {
    Has(c.invocationId, i) && Has(c.runId, r) && Has(c.nodePath, n)
  }

  /** No code point of the text is a surrogate. */
  predicate FreeOfSurrogates(t: Text) { forall k :: 0 <= k < |t| ==> t[k] < 0xd800 || 0xe000 <= t[k] }

  /** Deriving a step raises exactly when a surrogate is in one of the stripped identifiers: the
      function-node parent's, or, when a name is found, the context's own. */
  lemma DerivableExactly(c: Context, explicit: Option<Text>)
    ensures Derivable(c, explicit) <==>
              forall i, r, n :: Identified(c, i, r, n) ==>
                && ((exists name :: Named(c, explicit, name)) ==> FreeOfSurrogates(i) && FreeOfSurrogates(r) && FreeOfSurrogates(n))
                && ParentFree(c.parent)
  {
    IdentityExactly(c);
    if IdentityOf(c).Some? {
      var i := IdentityOf(c).value;
      assert Identified(c, i.invocationId, i.runId, i.nodePath);
      NameExactly(c, explicit);
      EncodableExactly(i);
      ParentFreeExactly(c.parent);
    }
  }

  ghost predicate ParentFree(parent: Option<Context>) {
    parent.Some? && parent.value.node.Some? && parent.value.node.value.typeName == "FunctionNode" ==>
      forall i, r, n :: Identified(parent.value, i, r, n) ==> FreeOfSurrogates(i) && FreeOfSurrogates(r) && FreeOfSurrogates(n)
  }

  lemma EncodableExactly(i: Identity)
    ensures Encodable(PreHash(i)) <==> FreeOfSurrogates(i.invocationId) && FreeOfSurrogates(i.runId) && FreeOfSurrogates(i.nodePath)
  {
    var sep := [UNIT_SEPARATOR];
    EncodableConcat(i.invocationId + sep + i.runId + sep, i.nodePath);
    EncodableConcat(i.invocationId + sep + i.runId, sep);
    EncodableConcat(i.invocationId + sep, i.runId);
    EncodableConcat(i.invocationId, sep);
  }

  lemma EncodableConcat(a: Text, b: Text)
    ensures Encodable(a + b) <==> Encodable(a) && Encodable(b)
    ensures Encodable(b) <==> FreeOfSurrogates(b)
    ensures Encodable(a) <==> FreeOfSurrogates(a)
  {
    if Encodable(a + b) {
      assert forall k :: 0 <= k < |a| ==> a[k] == (a + b)[k];
      assert forall k :: 0 <= k < |b| ==> b[k] == (a + b)[|a| + k];
    }
  }

  lemma ParentFreeExactly(parent: Option<Context>)
    ensures ParentFree(parent) <==> (ParentIdentity(parent).Some? ==> Encodable(PreHash(ParentIdentity(parent).value)))
  {
    if parent.Some? {
      IdentityExactly(parent.value);
      if IdentityOf(parent.value).Some? {
        var i := IdentityOf(parent.value).value;
        assert Identified(parent.value, i.invocationId, i.runId, i.nodePath);
        EncodableExactly(i);
      }
    }
  }

  function First256(t: Text): Text { if |t| <= 256 then t else t[..256] }

  /** The name of a step: the explicit one, else the node's, else the last part of the path. */
  ghost predicate Named(c: Context, explicit: Option<Text>, name: Text) {
    || Has(explicit, name)
    || ((forall t :: !Has(explicit, t)) && c.node.Some? && Has(c.node.value.name, name))
    || ((forall t :: !Has(explicit, t)) && (c.node.None? || forall t :: !Has(c.node.value.name, t))
        && exists path :: Has(c.nodePath, path) && LastPart(path, name))
  }

  /** The last stretch of the path without slashes and dots. */
  ghost predicate LastPart(path: Text, part: Text) {
    exists a, z :: Ends(path, a, part, z)
  }

  /** The path is `a`, at a separator or empty, then `part` without separators, then separators. */
  predicate Ends(path: Text, a: Text, part: Text, z: Text) {
    && path == a + (part + z) && part != []
    && (forall k :: 0 <= k < |part| ==> part[k] != 47 && part[k] != 46)
    && (forall k :: 0 <= k < |z| ==> z[k] == 47 || z[k] == 46)
    && (a != [] ==> a[|a| - 1] == 47 || a[|a| - 1] == 46)
  }

  function Parts(path: Text): seq<Text> { NonEmpty(SplitOn(path, PathSeparator)) }

  lemma {:induction false} NonEmptyConcat(x: seq<Text>, y: seq<Text>)
    ensures NonEmpty(x + y) == NonEmpty(x) + NonEmpty(y)
  {
    if x == [] {
      assert x + y == y;
    } else {
      NonEmptyConcat(x[1..], y);
      FirstOf(x, y);
      Regroup(if x[0] == [] then [] else [x[0]], NonEmpty(x[1..]), NonEmpty(y));
    }
  }

  lemma {:induction false} SeparatorsOnly(z: Text)
    requires forall k :: 0 <= k < |z| ==> PathSeparator(z[k])
    ensures Parts(z) == []
  {
    if z == [] {
      var pieces: seq<Text> := [[]];
      assert SplitOn(z, PathSeparator) == pieces && pieces[1..] == [];
      assert NonEmpty(pieces) == NonEmpty([]);
    } else {
      SeparatorsOnly(z[1..]);
      FirstOf([[]], SplitOn(z[1..], PathSeparator));
    }
  }

  lemma PartAlone(part: Text, z: Text)
    requires part != [] && (forall k :: 0 <= k < |part| ==> !PathSeparator(part[k]))
    requires forall k :: 0 <= k < |z| ==> PathSeparator(z[k])
    ensures Parts(part + z) == [part]
  {
    SplitUncut(part, PathSeparator);
    assert [part][1..] == [] && NonEmpty([part]) == [part] + NonEmpty([]);
    if z == [] {
      assert part + z == part;
    } else {
      assert z == [z[0]] + z[1..];
      SplitAtAny(part, z[0], z[1..], PathSeparator);
      SeparatorsOnly(z[1..]);
      NonEmptyConcat([part], SplitOn(z[1..], PathSeparator));
    }
  }

  lemma LastPartIsLast(path: Text, part: Text)
    requires LastPart(path, part)
    ensures Parts(path) != [] && Parts(path)[|Parts(path)| - 1] == part
  {
    var a, z :| Ends(path, a, part, z);
    PartAlone(part, z);
    if a == [] {
      assert path == part + z;
    } else {
      var n := |a| - 1;
      assert a == a[..n] + [a[n]];
      Regroup(a[..n], [a[n]], part + z);
      SplitAtAny(a[..n], a[n], part + z, PathSeparator);
      NonEmptyConcat(SplitOn(a[..n], PathSeparator), SplitOn(part + z, PathSeparator));
    }
  }

  /** The stretch without separators that the path ends in. */
  function Ending(path: Text): (n: nat)
    ensures n <= |path| && (forall k :: |path| - n <= k < |path| ==> !PathSeparator(path[k]))
    ensures n < |path| ==> PathSeparator(path[|path| - n - 1])
  {
    if path == [] || PathSeparator(path[|path| - 1]) then 0 else 1 + Ending(path[..|path| - 1])
  }

  lemma {:induction false} LastPartExists(path: Text) returns (a: Text, part: Text, z: Text)
    requires exists k :: 0 <= k < |path| && !PathSeparator(path[k])
    ensures Ends(path, a, part, z)
  {
    var m := |path| - 1;
    if PathSeparator(path[m]) {
      var y;
      a, part, y := LastPartExists(path[..m]);
      z := y + [path[m]];
      assert path == path[..m] + [path[m]];
      Regroup(part, y, [path[m]]);
      Regroup(a, part + y, [path[m]]);
    } else {
      var n := |path| - Ending(path);
      a, part, z := path[..n], path[n..], [];
      assert part + z == part && path == a + part;
      assert n > 0 ==> a[|a| - 1] == path[n - 1];
    }
  }

  /** A path has a last part exactly when it is not made of separators alone, and then it is that. */
  lemma LastPartExactly(path: Text)
    ensures Parts(path) != [] ==> LastPart(path, Parts(path)[|Parts(path)| - 1])
    ensures Parts(path) == [] ==> forall part :: !LastPart(path, part)
  {
    if Parts(path) != [] {
      if forall k :: 0 <= k < |path| ==> PathSeparator(path[k]) { SeparatorsOnly(path); }
      var a, part, z := LastPartExists(path);
      LastPartIsLast(path, part);
    }
    forall part | LastPart(path, part) ensures Parts(path) != [] { LastPartIsLast(path, part); }
  }

  lemma HasExactly(value: Option<Text>)
    ensures forall t :: Has(value, t) <==> RequiredText(value) == Some(t)
  {
  }

  lemma NameExactly(c: Context, explicit: Option<Text>)
    requires IdentityOf(c).Some?
    ensures forall name :: Named(c, explicit, name) <==> ResolvedName(c, explicit, IdentityOf(c).value.nodePath) == Some(name)
  {
    var path := IdentityOf(c).value.nodePath;
    HasExactly(explicit);
    HasExactly(c.nodePath);
    if c.node.Some? { HasExactly(c.node.value.name); }
    LastPartExactly(path);
    forall name ensures LastPart(path, name) <==> Parts(path) != [] && name == Parts(path)[|Parts(path)| - 1] {
      if LastPart(path, name) { LastPartIsLast(path, name); }
    }
  }

  // ---- identifiers ---------------------------------------------------------------------------

  /** What stripping leaves of an identifier: not empty and trimmed. */
  predicate Stripped(t: Text) { t != [] && Trimmed(t, TextSpace) }

  /** The identities that contexts give. */
  predicate Receivable(i: Identity) {
    Stripped(i.invocationId) && Stripped(i.runId) && Stripped(i.nodePath)
  }

  lemma RequiredTextIsStripped(value: Option<Text>)
    ensures RequiredText(value).Some? ==> Stripped(RequiredText(value).value)
    ensures value.Some? && Stripped(value.value) ==> RequiredText(value) == value
  {
    if value.Some? {
      StripIsTrimmed(value.value, TextSpace);
      StripFixesExactlyTrimmed(value.value, TextSpace);
    }
  }

  /** An identity is receivable exactly when some context has it. */
  lemma ReceivableExactly(i: Identity)
    ensures Receivable(i) <==> exists c :: IdentityOf(c) == Some(i)
  {
    if Receivable(i) {
      var c := Context(Some(i.invocationId), Some(i.runId), Some(i.nodePath), None, None, None);
      RequiredTextIsStripped(c.invocationId);
      RequiredTextIsStripped(c.runId);
      RequiredTextIsStripped(c.nodePath);
      assert IdentityOf(c) == Some(i);
    }
    if c :| IdentityOf(c) == Some(i) {
      RequiredTextIsStripped(c.invocationId);
      RequiredTextIsStripped(c.runId);
      RequiredTextIsStripped(c.nodePath);
    }
  }

  /** The identifiers the separator cannot occur in; the path comes last and may contain it. */
  predicate SeparatorFree(i: Identity) {
    UNIT_SEPARATOR !in i.invocationId && UNIT_SEPARATOR !in i.runId
  }

  lemma FirstSeparator(a: Text, x: Text, b: Text, y: Text)
    requires UNIT_SEPARATOR !in a && UNIT_SEPARATOR !in b
    requires a + [UNIT_SEPARATOR] + x == b + [UNIT_SEPARATOR] + y
    ensures a == b && x == y
  {
    var s := a + [UNIT_SEPARATOR] + x;
    var t := b + [UNIT_SEPARATOR] + y;
    assert s[|a|] == UNIT_SEPARATOR && t[|b|] == UNIT_SEPARATOR;
    assert forall k :: 0 <= k < |b| ==> t[k] == b[k];
    assert forall k :: 0 <= k < |a| ==> s[k] == a[k];
    assert |a| == |b|;
    assert a == s[..|a|] == t[..|b|] == b;
    assert x == s[|a| + 1..] == t[|b| + 1..] == y;
  }

  /** The hashed text determines the (invocation, run, path) triple. */
  lemma PreHashInjective(i: Identity, j: Identity)
    requires SeparatorFree(i) && SeparatorFree(j)
    requires PreHash(i) == PreHash(j)
    ensures i == j
  {
    var restI := i.runId + [UNIT_SEPARATOR] + i.nodePath;
    var restJ := j.runId + [UNIT_SEPARATOR] + j.nodePath;
    assert PreHash(i) == i.invocationId + [UNIT_SEPARATOR] + restI;
    assert PreHash(j) == j.invocationId + [UNIT_SEPARATOR] + restJ;
    FirstSeparator(i.invocationId, restI, j.invocationId, restJ);
    FirstSeparator(i.runId, i.nodePath, j.runId, j.nodePath);
  }

  // ---- exactly when a triple can be confused with another -------------------------------------

  /** A place where the text can be cut in two stripped pieces: a separator with no white space on
      either side (the separator is itself white space). */
  predicate CutAt(t: Text, k: int) {
    0 < k < |t| - 1 && t[k] == UNIT_SEPARATOR && !TextSpace(t[k - 1]) && !TextSpace(t[k + 1])
  }

  ghost predicate Uncut(t: Text) { forall k :: !CutAt(t, k) }

  /** No identifier can be cut. */
  ghost predicate UncutParts(i: Identity) {
    Uncut(i.invocationId) && Uncut(i.runId) && Uncut(i.nodePath)
  }

  function FirstJoint(i: Identity): nat { |i.invocationId| }

  function SecondJoint(i: Identity): nat { |i.invocationId| + 1 + |i.runId| }

  lemma JointsAreCuts(i: Identity)
    requires Receivable(i)
    ensures CutAt(PreHash(i), FirstJoint(i)) && CutAt(PreHash(i), SecondJoint(i))
  {
    var h, p, q := PreHash(i), FirstJoint(i), SecondJoint(i);
    assert h[p - 1] == i.invocationId[p - 1] && h[p] == UNIT_SEPARATOR && h[p + 1] == i.runId[0];
    assert h[q - 1] == i.runId[|i.runId| - 1] && h[q] == UNIT_SEPARATOR && h[q + 1] == i.nodePath[0];
  }

  /** A cut of the hashed text is a joint or a cut of one of the parts. */
  lemma CutsOfPreHash(i: Identity, k: int)
    requires CutAt(PreHash(i), k)
    ensures var p, q := FirstJoint(i), SecondJoint(i);
            || k == p || k == q || CutAt(i.invocationId, k)
            || CutAt(i.runId, k - p - 1) || CutAt(i.nodePath, k - q - 1)
  {
    var h, p, q := PreHash(i), FirstJoint(i), SecondJoint(i);
    assert h[p] == UNIT_SEPARATOR && h[q] == UNIT_SEPARATOR;
    assert k + 1 != p && k - 1 != p && k + 1 != q && k - 1 != q;
    if k < p {
      assert forall m :: 0 <= m < p ==> h[m] == i.invocationId[m];
    } else if p < k < q {
      assert forall m :: p < m < q ==> h[m] == i.runId[m - p - 1];
    } else if q < k {
      assert forall m :: q < m < |h| ==> h[m] == i.nodePath[m - q - 1];
    }
  }

  lemma JointsDetermine(i: Identity, j: Identity)
    requires PreHash(i) == PreHash(j) && FirstJoint(i) == FirstJoint(j) && SecondJoint(i) == SecondJoint(j)
    ensures i == j
  {
    var h, p, q := PreHash(i), FirstJoint(i), SecondJoint(i);
    assert h[..p] == i.invocationId && h[..p] == j.invocationId;
    assert h[p + 1..q] == i.runId && h[p + 1..q] == j.runId;
    assert h[q + 1..] == i.nodePath && h[q + 1..] == j.nodePath;
  }

  lemma CutApart(t: Text, k: int) returns (x: Text, y: Text)
    requires Stripped(t) && CutAt(t, k)
    ensures t == x + [UNIT_SEPARATOR] + y && Stripped(x) && Stripped(y)
  {
    x, y := t[..k], t[k + 1..];
    assert x[0] == t[0] && x[|x| - 1] == t[k - 1];
    assert y[0] == t[k + 1] && y[|y| - 1] == t[|t| - 1];
  }

  lemma Joined(x: Text, y: Text)
    requires Stripped(x) && Stripped(y)
    ensures Stripped(x + [UNIT_SEPARATOR] + y)
  {
    var t := x + [UNIT_SEPARATOR] + y;
    assert t[0] == x[0] && t[|t| - 1] == y[|y| - 1];
  }

  /** The parts taken apart at another place. */
  lemma Recut(i: Identity) returns (j: Identity)
    requires Receivable(i) && !UncutParts(i)
    ensures Receivable(j) && j != i && PreHash(j) == PreHash(i)
  {
    var sep := [UNIT_SEPARATOR];
    if k :| CutAt(i.invocationId, k) {
      var x, y := CutApart(i.invocationId, k);
      Joined(i.runId, i.nodePath);
      j := Identity(x, y, i.runId + sep + i.nodePath);
      assert |x| < |i.invocationId|;
    } else if k :| CutAt(i.runId, k) {
      var x, y := CutApart(i.runId, k);
      Joined(y, i.nodePath);
      j := Identity(i.invocationId, x, y + sep + i.nodePath);
      assert |x| < |i.runId|;
    } else {
      var k :| CutAt(i.nodePath, k);
      var x, y := CutApart(i.nodePath, k);
      Joined(i.invocationId, i.runId);
      j := Identity(i.invocationId + sep + i.runId, x, y);
      assert |i.invocationId + sep + i.runId| > |i.invocationId|;
    }
  }

  /** The hashed text of a receivable triple belongs to no other receivable triple exactly when none
      of its parts has the separator between two characters that are not white space. */
  lemma PreHashUniqueExactly(i: Identity)
    requires Receivable(i)
    ensures (forall j :: Receivable(j) && PreHash(j) == PreHash(i) ==> j == i) <==> UncutParts(i)
  {
    if UncutParts(i) {
      forall j | Receivable(j) && PreHash(j) == PreHash(i) ensures j == i {
        JointsAreCuts(j);
        CutsOfPreHash(i, FirstJoint(j));
        CutsOfPreHash(i, SecondJoint(j));
        JointsDetermine(i, j);
      }
    } else {
      var j := Recut(i);
    }
  }

  /** Two different receivable invocations that share a step id: the separator survives stripping in
      the middle of an identifier. */
  lemma SeparatorInsideIdentifierCollides(hash: Hash)
    ensures exists i, j {:trigger StableStepId(hash, i), StableStepId(hash, j)} ::
              i != j && Receivable(i) && Receivable(j) && StableStepId(hash, i) == StableStepId(hash, j)
  {
    var a, b := Chars("a"), Chars("b");
    var i := Identity(a + [UNIT_SEPARATOR] + b, a, a);
    Joined(a, b);
    assert CutAt(i.invocationId, 1);
    var j := Recut(i);
    assert StableStepId(hash, i) == StableStepId(hash, j);
  }

  // ---- step ids and keys ------------------------------------------------------------------------

  /** The hash has no collision among these identities. */
  ghost predicate CollisionFree(hash: Hash, identities: set<Identity>) {
    forall i, j :: i in identities && j in identities && hash(PreHash(i)) == hash(PreHash(j)) ==> PreHash(i) == PreHash(j)
  }

  lemma StepIdInjective(hash: Hash, i: Identity, j: Identity)
    requires CollisionFree(hash, {i, j}) && SeparatorFree(i) && SeparatorFree(j)
    ensures StableStepId(hash, i) == StableStepId(hash, j) <==> i == j
  {
    var a, b := StableStepId(hash, i), StableStepId(hash, j);
    if a == b {
      assert a[9..] == hash(PreHash(i)) && b[9..] == hash(PreHash(j));
      PreHashInjective(i, j);
    }
  }

  /** Keys separate the lifecycles of one step and the steps from one another. */
  lemma KeyDeterminesStepAndLifecycle(d: Event, e: Event)
    ensures IdempotencyKey(d) == IdempotencyKey(e) <==> d.step.id == e.step.id && d.lifecycle == e.lifecycle
  {
    var k, l := IdempotencyKey(d), IdempotencyKey(e);
    if k == l {
      KeyTail(d);
      KeyTail(e);
      assert d.lifecycle == e.lifecycle;
      var n := |LifecycleName(d.lifecycle)| + 1;
      assert d.step.id == k[..|k| - n] == l[..|l| - n] == e.step.id;
    }
  }

  /** The seventh character from the end tells the lifecycles apart. */
  lemma KeyTail(e: Event)
    ensures var k := IdempotencyKey(e);
            |k| >= 7 && k[|k| - 7] == match e.lifecycle case STARTED => 83 case COMPLETED => 77 case FAILED => KEY_SEPARATOR
  {
    var name := LifecycleName(e.lifecycle);
    match e.lifecycle {
      case STARTED => assert name[0] == 83;
      case COMPLETED => assert name[2] == 77;
      case FAILED => assert |name| == 6;
    }
  }

  // ---- what the control plane requires of a step -------------------------------------------

  predicate Blank(s: Text) { forall i :: 0 <= i < |s| ==> TextSpace(s[i]) }

  /** Field checks of the control plane's `WorkflowStep` and of its request model. */
  predicate StepAccepted(s: Step) {
    && !Blank(s.id) && |s.id| <= MAX_LENGTH
    && !Blank(s.name) && |s.name| <= MAX_LENGTH
    && (s.parent.Some? ==> !Blank(s.parent.value) && |s.parent.value| <= MAX_LENGTH && s.parent.value != s.id)
  }

  predicate FieldsAccepted(e: Event) {
    StepAccepted(e.step) && |IdempotencyKey(e)| <= MAX_LENGTH
  }

  /** The name the adapter falls back to can be blank: "a. ." has the last non-empty part " ". */
  predicate NameIsUsable(c: Context, explicit: Option<Text>) {
    RequiredText(explicit).Some?
    || (c.node.Some? && RequiredText(c.node.value.name).Some?)
    || (IdentityOf(c).Some? &&
        var parts := NonEmpty(SplitOn(IdentityOf(c).value.nodePath, PathSeparator));
        parts != [] && !Blank(Bounded(parts[|parts| - 1])))
  }

  /** The digests are 64 hexadecimal digits. */
  ghost predicate DigestLength(hash: Hash) { forall x :: |hash(x)| == 64 }

  lemma StrippedIsNotBlank(s: Text)
    ensures var t := Strip(s, TextSpace); t != [] ==> !Blank(Bounded(t))
  {
    StripIsTrimmed(s, TextSpace);
    var t := Strip(s, TextSpace);
    if t != [] {
      assert Bounded(t)[0] == t[0];
    }
  }

  /** The control plane accepts the fields of an emitted step exactly when its name is usable and
      its parent is another step. */
  lemma EmittedFieldsAcceptedExactly(hash: Hash, c: Context, explicit: Option<Text>, l: Lifecycle)
    requires DigestLength(hash)
    requires StepFromContext(hash, c, explicit).Some?
    ensures var s := StepFromContext(hash, c, explicit).value;
            FieldsAccepted(Event(s, l)) <==> NameIsUsable(c, explicit) && s.parent != Some(s.id)
  {
    var s := StepFromContext(hash, c, explicit).value;
    StepIdFields(hash, IdentityOf(c).value);
    if s.parent.Some? { StepIdFields(hash, IdentityOf(c.parent.value).value); }
    NameBlankExactly(hash, c, explicit);
  }

  lemma StepIdFields(hash: Hash, i: Identity)
    requires DigestLength(hash)
    ensures |StableStepId(hash, i)| == 73 && !Blank(StableStepId(hash, i))
  {
    assert StableStepId(hash, i)[0] == STEP_PREFIX[0];
  }

  lemma NameBlankExactly(hash: Hash, c: Context, explicit: Option<Text>)
    requires StepFromContext(hash, c, explicit).Some?
    ensures Blank(StepFromContext(hash, c, explicit).value.name) <==> !NameIsUsable(c, explicit)
  {
    if explicit.Some? { StrippedIsNotBlank(explicit.value); }
    if c.node.Some? && c.node.value.name.Some? { StrippedIsNotBlank(c.node.value.name.value); }
  }

  const DOTTED_BLANK: Text := [97, 46, 32, 46] // "a. ."

  lemma PartsOfDottedBlank()
    ensures NonEmpty(SplitOn(DOTTED_BLANK, PathSeparator)) == [[97], [32]]
  {
    assert DOTTED_BLANK == [97] + [DOT] + [32, 46];
    SplitAtSeparator([97], DOT, [32, 46], PathSeparator);
    assert [32, 46] == [32] + [DOT] + [];
    SplitAtSeparator([32], DOT, [], PathSeparator);
    var pieces: seq<Text> := [[97], [32], []];
    assert SplitOn(DOTTED_BLANK, PathSeparator) == pieces;
    assert pieces[1..] == [[32], []] && pieces[1..][1..] == [[]];
    assert NonEmpty([[]]) == [];
    assert NonEmpty(pieces[1..]) == [[32]];
  }

  /** A context whose step the adapter emits and the control plane always refuses. */
  lemma BlankNameIsEmitted(hash: Hash, c: Context)
    requires c.invocationId == Some([105]) && c.runId == Some([114]) && c.nodePath == Some(DOTTED_BLANK) && c.node.None?
    ensures StepFromContext(hash, c, None).Some? && !NameIsUsable(c, None)
    ensures forall l :: !FieldsAccepted(Event(StepFromContext(hash, c, None).value, l))
  {
    RequiredTextIsStripped(c.invocationId);
    RequiredTextIsStripped(c.runId);
    RequiredTextIsStripped(c.nodePath);
    PartsOfDottedBlank();
    assert IdentityOf(c) == Some(Identity([105], [114], DOTTED_BLANK));
    assert ResolvedName(c, None, DOTTED_BLANK) == Some([32]);
    assert Blank(Bounded([32]));
  }
}
