/**
 * The part of JsonPatchDocument<TEntity>.ApplyTo(entity, ModelState) the
 * controllers rely on: each operation writes a value into the property its path
 * names; the operations run in order; an operation that names no property of the
 * entity, or carries a value of the wrong type, changes nothing and is recorded
 * as an error.
 */
module JsonPatch {
  import opened Wrappers
  import opened Entities

  /** One operation of a patch document: its path and the value it writes. */
  datatype PatchOp = PatchOp(path: string, value: Value)

  /** The property a path designates: its name, with or without a leading '/'. */
  function Target(path: string): (r: Option<Field>)
    ensures r.Some? ==> path == PropertyName(r.value) || path == "/" + PropertyName(r.value)
  {
    FieldNamed(if |path| > 0 && path[0] == '/' then path[1..] else path)
  }

  /** A property's name designates it, bare or with a leading '/'. */
  lemma TargetFinds(f: Field)
    ensures Target(PropertyName(f)) == Some(f)
    ensures Target("/" + PropertyName(f)) == Some(f)
  {
    FieldNamedFinds(f);
    assert ("/" + PropertyName(f))[1..] == PropertyName(f);
    assert |PropertyName(f)| > 0 && PropertyName(f)[0] != '/' by {
      match f
      case _ =>
    }
  }

  /** Whether op can be applied to an entity of kind k. */
  predicate Applicable(k: Kind, op: PatchOp) {
    var f := Target(op.path);
    f.Some? && HasField(k, f.value) && Fits(op.value, TypeOf(f.value))
  }

  function ApplyOp(e: Entity, op: PatchOp): (r: Option<Entity>)
    ensures r.Some? <==> Applicable(KindOf(e), op)
  {
    var f := Target(op.path);
    if f.None? then None else Set(e, f.value, op.value)
  }

  /**
   * Applies ops in order to e. Returns the entity after the operations that
   * could be applied, and the operations that could not, in order.
   */
  function ApplyTo(e: Entity, ops: seq<PatchOp>): (r: (Entity, seq<PatchOp>))
    ensures KindOf(r.0) == KindOf(e)
    decreases |ops|
  {
    if ops == [] then (e, [])
    else
      var (prev, failed) := ApplyTo(e, ops[..|ops| - 1]);
      var op := ops[|ops| - 1];
      match ApplyOp(prev, op)
      case Some(next) => (next, failed)
      case None => (prev, failed + [op])
  }

  /** Some operation of ops designates property f. */
  predicate Targets(ops: seq<PatchOp>, f: Field) {
    exists i | 0 <= i < |ops| :: Target(ops[i].path) == Some(f)
  }

  /** The value written by the last operation of ops that designates f. */
  function LastValue(ops: seq<PatchOp>, f: Field): Value
    requires Targets(ops, f)
    decreases |ops|
  {
    var last := ops[|ops| - 1];
    if Target(last.path) == Some(f) then last.value
    else
      assert Targets(ops[..|ops| - 1], f) by {
        var i :| 0 <= i < |ops| && Target(ops[i].path) == Some(f);
        assert i < |ops| - 1 && ops[..|ops| - 1][i] == ops[i];
      }
      LastValue(ops[..|ops| - 1], f)
  }

  /** p holds for every element of s, checked from the last one back. */
  predicate AllOf<T>(p: T -> bool, s: seq<T>)
    decreases |s|
  {
    s == [] || (p(s[|s| - 1]) && AllOf(p, s[..|s| - 1]))
  }

  /** The recursive check agrees with the quantified one. */
  lemma {:induction false} AllOfIff<T>(p: T -> bool, s: seq<T>)
    ensures AllOf(p, s) <==> forall i | 0 <= i < |s| :: p(s[i])
    decreases |s|
  {
    if s != [] {
      var init := s[..|s| - 1];
      AllOfIff(p, init);
      assert forall i | 0 <= i < |init| :: init[i] == s[i];
    }
  }

  /** Every operation of ops applies to an entity of kind k. */
  predicate AllApplicable(k: Kind, ops: seq<PatchOp>) {
    AllOf(op => Applicable(k, op), ops)
  }

  /** The batch records no error exactly when the check from the last operation back succeeds. */
  lemma {:induction false} ApplyToFailuresRec(e: Entity, ops: seq<PatchOp>)
    ensures ApplyTo(e, ops).1 == [] <==> AllApplicable(KindOf(e), ops)
    decreases |ops|
  {
    if ops != [] {
      var init := ops[..|ops| - 1];
      ApplyToFailuresRec(e, init);
      var prev := ApplyTo(e, init).0;
      assert KindOf(prev) == KindOf(e);
    }
  }

  /** The batch records no error exactly when every operation in it can be applied. */
  lemma ApplyToFailures(e: Entity, ops: seq<PatchOp>)
    ensures ApplyTo(e, ops).1 == [] <==> forall i | 0 <= i < |ops| :: Applicable(KindOf(e), ops[i])
  {
    ApplyToFailuresRec(e, ops);
    AllOfIff(op => Applicable(KindOf(e), op), ops);
  }

  /** A property no operation designates keeps its value. */
  lemma {:induction false} ApplyToUntouched(e: Entity, ops: seq<PatchOp>, f: Field)
    requires !Targets(ops, f)
    ensures Get(ApplyTo(e, ops).0, f) == Get(e, f)
    decreases |ops|
  {
    if ops != [] {
      var init := ops[..|ops| - 1];
      assert !Targets(init, f) by {
        forall i | 0 <= i < |init| ensures Target(init[i].path) != Some(f) {
          assert init[i] == ops[i];
        }
      }
      ApplyToUntouched(e, init, f);
    }
  }

  /** The last operation of a batch, when it applies, writes its value over what the earlier ones left. */
  lemma ApplyToStep(e: Entity, ops: seq<PatchOp>, f: Field)
    requires ops != [] && Applicable(KindOf(e), ops[|ops| - 1])
    ensures Get(ApplyTo(e, ops).0, f) ==
              if Target(ops[|ops| - 1].path) == Some(f) then Some(ops[|ops| - 1].value)
              else Get(ApplyTo(e, ops[..|ops| - 1]).0, f)
  {
    var prev := ApplyTo(e, ops[..|ops| - 1]).0;
    assert ApplyTo(e, ops).0 == ApplyOp(prev, ops[|ops| - 1]).value;
  }

  /** A property designated in a batch but not by its last operation is designated by an earlier one. */
  lemma TargetsInit(ops: seq<PatchOp>, f: Field)
    requires Targets(ops, f) && Target(ops[|ops| - 1].path) != Some(f)
    ensures Targets(ops[..|ops| - 1], f)
  {
    var i :| 0 <= i < |ops| && Target(ops[i].path) == Some(f);
    assert i < |ops| - 1 && ops[..|ops| - 1][i] == ops[i];
  }

  /** When every operation applies, a designated property holds the value of the last operation on it. */
  lemma {:induction false} ApplyToLastWins(e: Entity, ops: seq<PatchOp>, f: Field)
    requires forall i | 0 <= i < |ops| :: Applicable(KindOf(e), ops[i])
    requires Targets(ops, f)
    ensures Get(ApplyTo(e, ops).0, f) == Some(LastValue(ops, f))
    decreases |ops|
  {
    var init := ops[..|ops| - 1];
    var last := ops[|ops| - 1];
    ApplyToStep(e, ops, f);
    if Target(last.path) != Some(f) {
      TargetsInit(ops, f);
      forall i | 0 <= i < |init| ensures Applicable(KindOf(e), init[i]) {
        assert init[i] == ops[i];
      }
      ApplyToLastWins(e, init, f);
    }
  }
}
