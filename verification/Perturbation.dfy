/** The structured-JSON provider's PERTURB operations, addressed by the console's paths.

    The provider works on a private deep copy, so an update is a function from value to value. How
    Python's `int` reads a token as a list index is the parameter `toIndex`. */
module Perturbation {
  import opened Texts
  import opened JsonPointer
  import opened SchemaFields

  datatype Change = Set(value: Value) | Delta(delta: real) | Scale(scale: real) | RemoveOptional

  datatype Operation = Operation(path: string, change: Change, minimum: Option<real>, maximum: Option<real>)

  /** `Rejected` is the provider's validation error, `Crashed` an exception it does not catch. */
  datatype Result = Ok(value: Value) | Rejected | Crashed

  type ToIndex = string -> Option<int>

  /** Python's `sequence[i]`, negative indices included. */
  function Position(length: nat, i: Option<int>): (r: Option<nat>)
    ensures r.Some? ==> r.value < length
  {
    if i.None? then None
    else if 0 <= i.value < length then var n: nat := i.value; Some(n)
    else if i.value < 0 <= i.value + length then var n: nat := i.value + length; Some(n)
    else None
  }

  // ---- navigation ------------------------------------------------------------------------------

  function Child(toIndex: ToIndex, v: Value, token: string): Option<Value> {
    match v
    case Obj(fields) => Get(fields, token)
    case Arr(items) =>
      var i := Position(|items|, toIndex(token));
      if i.None? then None else Some(items[i.value])
    case Str(s) =>
      var i := Position(|s|, toIndex(token));
      if i.None? then None else Some(Str([s[i.value]]))
    case _ => None
  }

  function PutField(fields: Entries, key: string, v: Value): Entries {
    var r := FindKey(fields, key);
    if r.None? then fields + [(key, v)] else fields[r.value := (key, v)]
  }

  function RemoveField(fields: Entries, key: string): Entries {
    var r := FindKey(fields, key);
    if r.None? then fields else fields[..r.value] + fields[r.value + 1..]
  }

  /** The container with the child at `token` replaced; a character of a text cannot be. */
  function WithChild(toIndex: ToIndex, v: Value, token: string, child: Value): Result {
    match v
    case Obj(fields) => Ok(Obj(PutField(fields, token, child)))
    case Arr(items) =>
      var i := Position(|items|, toIndex(token));
      if i.None? then Crashed else Ok(Arr(items[i.value := child]))
    case _ => Crashed
  }

  // ---- one operation -----------------------------------------------------------------------------

  function Number(v: Value): Option<real> {
    match v
    case Num(n) => Some(n)
    case Bool(b) => Some(if b then 1.0 else 0.0)
    case _ => None
  }

  datatype Updated = Fresh(value: Value) | Refused | Raised

  function WithinBounds(op: Operation, v: Value): Updated {
    if op.minimum.None? && op.maximum.None? then Fresh(v)
    else if Number(v).None? then Raised
    else if op.minimum.Some? && Number(v).value < op.minimum.value then Refused
    else if op.maximum.Some? && Number(v).value > op.maximum.value then Refused
    else Fresh(v)
  }

  function NewValue(op: Operation, current: Value): Updated
    requires !op.change.RemoveOptional?
  {
    match op.change
    case Set(value) => WithinBounds(op, value)
    case Delta(d) => if Number(current).None? then Refused else WithinBounds(op, Num(Number(current).value + d))
    case Scale(f) => if Number(current).None? then Refused else WithinBounds(op, Num(Number(current).value * f))
  }

  function ApplyHere(toIndex: ToIndex, parent: Value, key: string, op: Operation): Result {
    if op.change.RemoveOptional? then
      if parent.Obj? && FindKey(parent.fields, key).Some? then Ok(Obj(RemoveField(parent.fields, key))) else Rejected
    else
      var current := Child(toIndex, parent, key);
      if current.None? && !parent.Obj? then Crashed
      else
        match NewValue(op, if current.None? then Null else current.value)
        case Refused => Rejected
        case Raised => Crashed
        case Fresh(v) => WithChild(toIndex, parent, key, v)
  }

  function ApplyAt(toIndex: ToIndex, v: Value, tokens: seq<string>, op: Operation): Result
    requires tokens != []
    decreases |tokens|
  {
    if |tokens| == 1 then ApplyHere(toIndex, v, tokens[0], op)
    else
      var child := Child(toIndex, v, tokens[0]);
      if child.None? then Rejected
      else
        match ApplyAt(toIndex, child.value, tokens[1..], op)
        case Ok(w) => WithChild(toIndex, v, tokens[0], w)
        case failure => failure
  }

  /** `_apply_operation`. */
  function Apply(toIndex: ToIndex, v: Value, op: Operation): Result {
    if op.path == "" || op.path[0] != '/' then Rejected
    else
      var tokens := Tokens(op.path);
      if tokens == [] then Rejected else ApplyAt(toIndex, v, tokens, op)
  }

  function ApplyAll(toIndex: ToIndex, v: Value, ops: seq<Operation>): Result
    decreases |ops|
  {
    if ops == [] then Ok(v)
    else
      match Apply(toIndex, v, ops[0])
      case Ok(w) => ApplyAll(toIndex, w, ops[1..])
      case failure => failure
  }

  // ---- reading through objects -------------------------------------------------------------------

  /** The value at a chain of names, through objects only. */
  function At(v: Value, tokens: seq<string>): Option<Value>
    decreases |tokens|
  {
    if tokens == [] then Some(v)
    else if !v.Obj? then None
    else
      var child := Get(v.fields, tokens[0]);
      if child.None? then None else At(child.value, tokens[1..])
  }

  /** Every proper prefix of the chain holds an object, which like any JSON object repeats no key. */
  predicate ObjectsAlong(v: Value, tokens: seq<string>)
    decreases |tokens|
  {
    tokens != [] ==>
      v.Obj? && UniqueKeys(v.fields)
      && (|tokens| > 1 ==> Get(v.fields, tokens[0]).Some? && ObjectsAlong(Get(v.fields, tokens[0]).value, tokens[1..]))
  }

  predicate Incomparable(a: seq<string>, b: seq<string>) { !(a <= b) && !(b <= a) }

  lemma {:induction false} FindAfterAppend(fields: Entries, e: (string, Value), key: string)
    ensures FindKey(fields + [e], key)
         == if FindKey(fields, key).Some? then FindKey(fields, key)
            else if e.0 == key then Some(|fields|) else None
  {
    if fields != [] {
      assert (fields + [e])[1..] == fields[1..] + [e];
      FindAfterAppend(fields[1..], e, key);
    } else {
      assert (fields + [e])[1..] == [];
    }
  }

  lemma {:induction false} FindAfterReplace(fields: Entries, i: nat, v: Value, key: string)
    requires i < |fields|
    ensures FindKey(fields[i := (fields[i].0, v)], key) == FindKey(fields, key)
  {
    var changed := fields[i := (fields[i].0, v)];
    if i == 0 {
      assert changed[1..] == fields[1..];
    } else {
      assert changed[1..] == fields[1..][i - 1 := (fields[i].0, v)];
      FindAfterReplace(fields[1..], i - 1, v, key);
    }
  }

  lemma GetAfterPut(fields: Entries, key: string, v: Value, other: string)
    ensures Get(PutField(fields, key, v), other) == if other == key then Some(v) else Get(fields, other)
  {
    var r := FindKey(fields, key);
    if r.None? {
      FindAfterAppend(fields, (key, v), other);
    } else {
      FindAfterReplace(fields, r.value, v, other);
    }
  }

  lemma {:induction false} FindAfterRemove(fields: Entries, i: nat, other: string)
    requires i < |fields| && fields[i].0 != other
    ensures Get(fields[..i] + fields[i + 1..], other) == Get(fields, other)
  {
    var rest := fields[..i] + fields[i + 1..];
    if i == 0 {
      assert rest == fields[1..];
    } else {
      assert rest[0] == fields[0] && rest[1..] == fields[1..][..i - 1] + fields[1..][i..];
      FindAfterRemove(fields[1..], i - 1, other);
    }
  }

  lemma RemovedIsGone(fields: Entries, key: string)
    requires UniqueKeys(fields)
    ensures Get(RemoveField(fields, key), key) == None
  {
    var r := FindKey(fields, key);
    var rest := RemoveField(fields, key);
    if r.Some? {
      forall j | 0 <= j < |rest| ensures rest[j].0 != key {
        assert rest[j] == if j < r.value then fields[j] else fields[j + 1];
      }
    }
  }

  lemma PutKeepsUnique(fields: Entries, key: string, v: Value)
    requires UniqueKeys(fields)
    ensures UniqueKeys(PutField(fields, key, v))
  {
  }

  lemma RemoveKeepsUnique(fields: Entries, key: string)
    requires UniqueKeys(fields)
    ensures UniqueKeys(RemoveField(fields, key))
  {
  }

  // ---- frame and effect of one operation -----------------------------------------------------------

  /** A value Python computes with, and the number it is: booleans count as one and zero. */
  predicate IsNumber(v: Value, x: real) {
    v == Num(x) || (v == Bool(true) && x == 1.0) || (v == Bool(false) && x == 0.0)
  }

  predicate Numeric(v: Value) { v.Num? || v.Bool? }

  /** What the operation asks to be put where `before` was, bounds aside. */
  ghost predicate Asks(op: Operation, before: Option<Value>, v: Value) {
    match op.change
    case Set(value) => v == value
    case Delta(d) => before.Some? && exists x :: IsNumber(before.value, x) && v == Num(x + d)
    case Scale(f) => before.Some? && exists x :: IsNumber(before.value, x) && v == Num(x * f)
    case RemoveOptional => false
  }

  ghost predicate InBounds(op: Operation, v: Value) {
    && (op.minimum.Some? ==> exists x :: IsNumber(v, x) && op.minimum.value <= x)
    && (op.maximum.Some? ==> exists x :: IsNumber(v, x) && x <= op.maximum.value)
  }

  /** What an accepted operation leaves at its own place: the given value, the number changed by the
      delta, or the number scaled, within the bounds; or nothing where there was something. */
  ghost predicate Effect(op: Operation, before: Option<Value>, after: Option<Value>) {
    if op.change.RemoveOptional? then before.Some? && after.None?
    else after.Some? && Asks(op, before, after.value) && InBounds(op, after.value)
  }

  /** How the update answers: a change of something that is no number, or a number outside the
      bounds, is refused; a given value that is no number breaks the comparison with a bound. */
  lemma UpdateExactly(op: Operation, before: Option<Value>)
    requires !op.change.RemoveOptional?
    ensures var updated := NewValue(op, if before.None? then Null else before.value);
            && (updated.Fresh? <==> exists v :: Asks(op, before, v) && InBounds(op, v))
            && (updated.Fresh? ==> Asks(op, before, updated.value) && InBounds(op, updated.value))
            && (updated.Raised? <==> Bounded(op) && op.change.Set? && !Numeric(op.change.value))
  {
    var current := if before.None? then Null else before.value;
    match op.change {
      case Set(value) =>
        BoundsExactly(op, value);
        assert Asks(op, before, value);
      case Delta(d) =>
        if Number(current).Some? { ChangeAsked(op, before, Number(current).value + d); }
        NumberExactly(current);
      case Scale(f) =>
        if Number(current).Some? { ChangeAsked(op, before, Number(current).value * f); }
        NumberExactly(current);
    }
  }

  lemma NumberExactly(v: Value)
    ensures forall x :: IsNumber(v, x) <==> Number(v) == Some(x)
    ensures Numeric(v) <==> Number(v).Some?
  {
  }

  lemma BoundsExactly(op: Operation, v: Value)
    ensures WithinBounds(op, v).Fresh? <==> InBounds(op, v)
    ensures WithinBounds(op, v).Fresh? ==> WithinBounds(op, v).value == v
    ensures WithinBounds(op, v).Raised? <==> Bounded(op) && !Numeric(v)
  {
    NumberExactly(v);
    if Number(v).Some? { assert IsNumber(v, Number(v).value); }
  }

  /** The number a delta or scale asks for, and nothing else. */
  lemma ChangeAsked(op: Operation, before: Option<Value>, y: real)
    requires before.Some? && Number(before.value).Some?
    requires (op.change.Delta? && y == Number(before.value).value + op.change.delta)
             || (op.change.Scale? && y == Number(before.value).value * op.change.scale)
    ensures forall v :: Asks(op, before, v) <==> v == Num(y)
    ensures WithinBounds(op, Num(y)).Fresh? <==> InBounds(op, Num(y))
    ensures WithinBounds(op, Num(y)).Fresh? ==> WithinBounds(op, Num(y)).value == Num(y)
    ensures !WithinBounds(op, Num(y)).Raised?
  {
    NumberExactly(before.value);
    assert IsNumber(before.value, Number(before.value).value);
    BoundsExactly(op, Num(y));
  }

  predicate Bounded(op: Operation) { op.minimum.Some? || op.maximum.Some? }

  /** An operation at an object path has its effect there and changes nothing at any place that is
      neither above nor below it; and every other place keeps its objects. */
  lemma {:induction false} ApplyFrame(toIndex: ToIndex, v: Value, tokens: seq<string>, op: Operation, other: seq<string>)
    requires tokens != [] && ObjectsAlong(v, tokens) && ApplyAt(toIndex, v, tokens, op).Ok?
    ensures var w := ApplyAt(toIndex, v, tokens, op).value;
            && w.Obj? && ObjectsAlong(w, tokens)
            && Effect(op, At(v, tokens), At(w, tokens))
            && (Incomparable(tokens, other) ==> At(w, other) == At(v, other) && (ObjectsAlong(v, other) ==> ObjectsAlong(w, other)))
    decreases |tokens|
  {
    var key := tokens[0];
    if |tokens| == 1 {
      assert tokens[1..] == [];
      HereFrame(toIndex, v, key, op, other);
    } else {
      var child := Get(v.fields, key).value;
      var rest := if other == [] then [] else other[1..];
      ApplyFrame(toIndex, child, tokens[1..], op, rest);
      var changed := ApplyAt(toIndex, child, tokens[1..], op).value;
      PutKeepsUnique(v.fields, key, changed);
      GetAfterPut(v.fields, key, changed, key);
      if other != [] {
        GetAfterPut(v.fields, key, changed, other[0]);
        assert tokens == [tokens[0]] + tokens[1..] && other == [other[0]] + other[1..];
      }
    }
  }

  lemma HereFrame(toIndex: ToIndex, v: Value, key: string, op: Operation, other: seq<string>)
    requires v.Obj? && UniqueKeys(v.fields) && ApplyHere(toIndex, v, key, op).Ok?
    ensures var w := ApplyHere(toIndex, v, key, op).value;
            && w.Obj? && UniqueKeys(w.fields)
            && Effect(op, Get(v.fields, key), Get(w.fields, key))
            && (Incomparable([key], other) ==> At(w, other) == At(v, other) && (ObjectsAlong(v, other) ==> ObjectsAlong(w, other)))
  {
    var w := ApplyHere(toIndex, v, key, op).value;
    if op.change.RemoveOptional? {
      RemovedIsGone(v.fields, key);
      RemoveKeepsUnique(v.fields, key);
      if other != [] && other[0] != key {
        FindAfterRemove(v.fields, FindKey(v.fields, key).value, other[0]);
      }
    } else {
      var current := Get(v.fields, key);
      var updated := NewValue(op, if current.None? then Null else current.value).value;
      UpdateExactly(op, current);
      PutKeepsUnique(v.fields, key, updated);
      GetAfterPut(v.fields, key, updated, key);
      if other != [] {
        GetAfterPut(v.fields, key, updated, other[0]);
      }
    }
    if other != [] && Incomparable([key], other) {
      assert other[0] != key;
    }
  }

  // ---- perturbing the leaves the console lists ------------------------------------------------------

  lemma LeavesAreIncomparable(schema: Value, a: seq<string>, b: seq<string>)
    requires schema.Obj? && IsLeaf(schema, a) && IsLeaf(schema, b) && a != b
    ensures Incomparable(a, b)
  {
    if a <= b { LeavesArePrefixFree(Properties(schema), a, b); }
    if b <= a { LeavesArePrefixFree(Properties(schema), b, a); }
  }

  /** An operation on a listed field, as the console configures it. */
  ghost predicate OnLeaf(schema: Value, op: Operation, leaf: seq<string>)
    requires schema.Obj?
  {
    IsLeaf(schema, leaf) && op.path == PathOf(leaf)
  }

  lemma ApplyAtLeaf(toIndex: ToIndex, schema: Value, v: Value, op: Operation, leaf: seq<string>)
    requires schema.Obj? && OnLeaf(schema, op, leaf)
    ensures leaf != [] && Apply(toIndex, v, op) == ApplyAt(toIndex, v, leaf, op)
  {
    PathRoundTrip(leaf);
    assert op.path[0] == '/';
  }

  /** One accepted operation on a listed field whose enclosing objects the evidence has: its effect at
      that field, every other listed field untouched. What the evidence holds elsewhere is free. */
  lemma LeafOperation(toIndex: ToIndex, schema: Value, v: Value, op: Operation, leaf: seq<string>)
    requires schema.Obj? && OnLeaf(schema, op, leaf) && ObjectsAlong(v, leaf) && Apply(toIndex, v, op).Ok?
    ensures var w := Apply(toIndex, v, op).value;
            && ObjectsAlong(w, leaf)
            && Effect(op, At(v, leaf), At(w, leaf))
            && forall other :: IsLeaf(schema, other) && other != leaf ==>
                 At(w, other) == At(v, other) && (ObjectsAlong(v, other) ==> ObjectsAlong(w, other))
  {
    ApplyAtLeaf(toIndex, schema, v, op, leaf);
    ApplyFrame(toIndex, v, leaf, op, leaf);
    var w := Apply(toIndex, v, op).value;
    forall other | IsLeaf(schema, other) && other != leaf
      ensures At(w, other) == At(v, other) && (ObjectsAlong(v, other) ==> ObjectsAlong(w, other))
    {
      LeavesAreIncomparable(schema, leaf, other);
      ApplyFrame(toIndex, v, leaf, op, other);
    }
  }

  /** A whole perturbation of pairwise different listed fields: when it is accepted, every operation
      has its effect on the original value of its field, and every field without an operation keeps
      its value. Only the fields operated on need their enclosing objects. */
  lemma {:induction false} PerturbationOfLeaves(toIndex: ToIndex, schema: Value, v: Value, ops: seq<Operation>,
                                                leaves: seq<seq<string>>)
    requires schema.Obj? && |ops| == |leaves|
    requires forall i :: 0 <= i < |ops| ==> OnLeaf(schema, ops[i], leaves[i]) && ObjectsAlong(v, leaves[i])
    requires forall i, j :: 0 <= i < j < |leaves| ==> leaves[i] != leaves[j]
    requires ApplyAll(toIndex, v, ops).Ok?
    ensures var w := ApplyAll(toIndex, v, ops).value;
            && (forall i :: 0 <= i < |ops| ==> Effect(ops[i], At(v, leaves[i]), At(w, leaves[i])))
            && (forall other :: IsLeaf(schema, other) && other !in leaves ==> At(w, other) == At(v, other))
    decreases |ops|
  {
    if ops != [] {
      LeafOperation(toIndex, schema, v, ops[0], leaves[0]);
      var u := Apply(toIndex, v, ops[0]).value;
      forall i | 1 <= i < |ops| ensures IsLeaf(schema, leaves[i]) && leaves[i] != leaves[0] {
        assert OnLeaf(schema, ops[i], leaves[i]) && leaves[0] != leaves[i];
      }
      forall i | 0 <= i < |ops| - 1 ensures OnLeaf(schema, ops[1..][i], leaves[1..][i]) && ObjectsAlong(u, leaves[1..][i]) {
        assert ops[1..][i] == ops[i + 1] && leaves[1..][i] == leaves[i + 1];
      }
      PerturbationOfLeaves(toIndex, schema, u, ops[1..], leaves[1..]);
      var w := ApplyAll(toIndex, v, ops).value;
      assert leaves[0] !in leaves[1..];
      assert OnLeaf(schema, ops[0], leaves[0]);
      forall i | 1 <= i < |ops| ensures Effect(ops[i], At(v, leaves[i]), At(w, leaves[i])) {
        assert ops[1..][i - 1] == ops[i] && leaves[1..][i - 1] == leaves[i];
      }
      forall other | IsLeaf(schema, other) && other !in leaves ensures At(w, other) == At(v, other) {
        assert other != leaves[0];
        assert forall x :: x in leaves[1..] ==> x in leaves;
      }
    }
  }

  /** How an operation on a path through objects is answered. Removing is accepted exactly when there is
      something to remove and refused otherwise. A change is accepted exactly when it asks for a value
      within the bounds, breaks exactly when a given value that is no number meets a bound, and is
      refused otherwise. */
  lemma {:induction false} AnsweredExactly(toIndex: ToIndex, v: Value, tokens: seq<string>, op: Operation)
    requires tokens != [] && ObjectsAlong(v, tokens)
    ensures var answer, before := ApplyAt(toIndex, v, tokens, op), At(v, tokens);
            if op.change.RemoveOptional? then if before.Some? then answer.Ok? else answer == Rejected
            else
              && (answer.Ok? <==> exists w :: Asks(op, before, w) && InBounds(op, w))
              && (answer == Crashed <==> Bounded(op) && op.change.Set? && !Numeric(op.change.value))
    decreases |tokens|
  {
    if |tokens| > 1 {
      AnsweredExactly(toIndex, Get(v.fields, tokens[0]).value, tokens[1..], op);
    } else {
      assert tokens[1..] == [];
      if !op.change.RemoveOptional? { UpdateExactly(op, Get(v.fields, tokens[0])); }
    }
  }

  /** In numbers: an accepted delta adds, an accepted scale multiplies, and both stay within the bounds. */
  lemma NumbersChange(toIndex: ToIndex, schema: Value, v: Value, op: Operation, leaf: seq<string>, x: real)
    requires schema.Obj? && OnLeaf(schema, op, leaf) && ObjectsAlong(v, leaf) && At(v, leaf) == Some(Num(x))
    requires op.change.Delta? || op.change.Scale?
    ensures var y := if op.change.Delta? then x + op.change.delta else x * op.change.scale;
            var fits := (op.minimum.Some? ==> op.minimum.value <= y) && (op.maximum.Some? ==> y <= op.maximum.value);
            var answer := Apply(toIndex, v, op);
            && (fits <==> answer.Ok?) && (!fits <==> answer == Rejected)
            && (fits ==> At(answer.value, leaf) == Some(Num(y)))
  {
    ApplyAtLeaf(toIndex, schema, v, op, leaf);
    AnsweredExactly(toIndex, v, leaf, op);
    var y := if op.change.Delta? then x + op.change.delta else x * op.change.scale;
    NumberAsked(op, x, y);
    if Apply(toIndex, v, op).Ok? { LeafOperation(toIndex, schema, v, op, leaf); }
  }

  lemma NumberAsked(op: Operation, x: real, y: real)
    requires (op.change.Delta? && y == x + op.change.delta) || (op.change.Scale? && y == x * op.change.scale)
    ensures forall v :: Asks(op, Some(Num(x)), v) <==> v == Num(y)
    ensures InBounds(op, Num(y)) <==> (op.minimum.Some? ==> op.minimum.value <= y) && (op.maximum.Some? ==> y <= op.maximum.value)
  {
    assert IsNumber(Num(x), x) && IsNumber(Num(y), y);
  }

  /** The items of a list are counted from its start, or backwards from its end. */
  lemma ListItemSet(toIndex: ToIndex, items: seq<Value>, token: string, value: Value, i: int)
    requires toIndex(token) == Some(i)
    ensures var answer := ApplyAt(toIndex, Arr(items), [token], Operation("", Set(value), None, None));
            && (0 <= i < |items| ==> answer == Ok(Arr(items[..i] + [value] + items[i + 1..])))
            && (-|items| <= i < 0 ==> answer == Ok(Arr(items[..|items| + i] + [value] + items[|items| + i + 1..])))
            && (i < -|items| || |items| <= i ==> answer == Crashed)
  {
    var op := Operation("", Set(value), None, None);
    assert ApplyAt(toIndex, Arr(items), [token], op) == ApplyHere(toIndex, Arr(items), token, op);
    var n := if i < 0 then |items| + i else i;
    if 0 <= n < |items| { assert items[n := value] == items[..n] + [value] + items[n + 1..]; }
  }

  /** Where the enclosing objects exist, the provider accepts every unbounded SET. */
  lemma {:induction false} SetAccepted(toIndex: ToIndex, v: Value, tokens: seq<string>, op: Operation)
    requires tokens != [] && ObjectsAlong(v, tokens) && op.change.Set? && op.minimum.None? && op.maximum.None?
    ensures ApplyAt(toIndex, v, tokens, op).Ok?
    decreases |tokens|
  {
    if |tokens| > 1 {
      SetAccepted(toIndex, Get(v.fields, tokens[0]).value, tokens[1..], op);
    }
  }
}
