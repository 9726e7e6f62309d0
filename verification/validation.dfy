/** `EmployeeFeedback.validate()`: the 32 non-id fields are checked against the
    schema with `abortEarly: false`, so every violated rule is reported, in the
    schema's field order, each as a diagnostic titled "Campo inválido" with code 400
    and the rule's message as detail. The source returns `false` when nothing is
    violated; the model returns `None`. */
module Validation {
  import opened Results
  import opened Errors
  import opened Feedback
  import opened Schema

  const INVALID_FIELD: string := "Campo inválido"

  /** One violated rule: the field and the error Joi raises for it. */
  datatype Violation = Violation(field: Field, kind: ErrorKind)

  /** The error (if any) field `f` of `r` raises against its rule. */
  function FieldCheck(r: EmployeeFeedback, f: Field, isEmail: string -> bool): Option<ErrorKind> {
    Check(RuleOf(f), r.Get(f), isEmail)
  }

  /** Field `f` of `r` satisfies its rule. */
  predicate FieldOk(r: EmployeeFeedback, f: Field, isEmail: string -> bool) {
    FieldCheck(r, f, isEmail).None?
  }

  /** Fields listed in strictly increasing declaration order. */
  predicate Ascending(fs: seq<Field>) {
    forall i, j :: 0 <= i < j < |fs| ==> Rank(fs[i]) < Rank(fs[j])
  }

  /** Every field of `r` checked against its rule, as one function value. */
  function Checker(r: EmployeeFeedback, isEmail: string -> bool): Field -> Option<ErrorKind> {
    f => FieldCheck(r, f, isEmail)
  }

  /** The fields of `fs` on which `check` reports an error, in the order of `fs`,
      each with that error: Joi's `abortEarly: false` walk over the keys. */
  function Collect(check: Field -> Option<ErrorKind>, fs: seq<Field>): (vs: seq<Violation>)
    ensures |vs| <= |fs|
    ensures forall i :: 0 <= i < |vs| ==> vs[i].field in fs && check(vs[i].field) == Some(vs[i].kind)
    ensures Ascending(fs) ==> forall i, j :: 0 <= i < j < |vs| ==> Rank(vs[i].field) < Rank(vs[j].field)
    decreases |fs|
  {
    if |fs| == 0 then []
    else
      var rest := Collect(check, fs[1..]);
      assert Ascending(fs) ==> forall v :: v in rest ==> Rank(fs[0]) < Rank(v.field);
      match check(fs[0])
      case None => rest
      case Some(kind) => [Violation(fs[0], kind)] + rest
  }

  /** The fields of `fs` that `r` violates, in the order of `fs`, each with the
      error it raises. */
  function ViolationsIn(r: EmployeeFeedback, isEmail: string -> bool, fs: seq<Field>): (vs: seq<Violation>)
    ensures |vs| <= |fs|
    ensures forall i :: 0 <= i < |vs| ==> vs[i].field in fs && FieldCheck(r, vs[i].field, isEmail) == Some(vs[i].kind)
    ensures Ascending(fs) ==> forall i, j :: 0 <= i < j < |vs| ==> Rank(vs[i].field) < Rank(vs[j].field)
  {
    Collect(Checker(r, isEmail), fs)
  }

  /** Every violation of the record, in the schema's field order. */
  function Violations(r: EmployeeFeedback, isEmail: string -> bool): seq<Violation> {
    ViolationsIn(r, isEmail, FIELDS)
  }

  function ToDiagnostic(v: Violation): Diagnostic {
    Diagnostic(INVALID_FIELD, Message(v.field, v.kind), BAD_REQUEST)
  }

  /** `validate()`: `None` for a valid record, otherwise one diagnostic per violation. */
  function Validate(r: EmployeeFeedback, isEmail: string -> bool): (res: Option<seq<Diagnostic>>)
    ensures res.Some? ==> |res.value| > 0
    ensures res.Some? ==> forall i :: 0 <= i < |res.value| ==>
              res.value[i].title == INVALID_FIELD && res.value[i].code == BAD_REQUEST
    ensures res.None? <==> |Violations(r, isEmail)| == 0
    ensures res.Some? ==> |res.value| == |Violations(r, isEmail)|
    ensures res.Some? ==> forall i :: 0 <= i < |res.value| ==>
              res.value[i].detail == Message(Violations(r, isEmail)[i].field, Violations(r, isEmail)[i].kind)
  {
    var vs := Violations(r, isEmail);
    if |vs| == 0 then None
    else Some(seq(|vs|, i requires 0 <= i < |vs| => ToDiagnostic(vs[i])))
  }

  /** No failing field is missed: every field of `fs` that `r` violates appears
      among the violations. */
  lemma ViolationsInComplete(r: EmployeeFeedback, isEmail: string -> bool, fs: seq<Field>, f: Field)
    requires f in fs
    requires !FieldOk(r, f, isEmail)
    ensures exists i :: 0 <= i < |ViolationsIn(r, isEmail, fs)| && ViolationsIn(r, isEmail, fs)[i].field == f
  {
    var vs := ViolationsIn(r, isEmail, fs);
    CollectComplete(Checker(r, isEmail), fs, f);
    var i :| 0 <= i < |vs| && vs[i].field == f;
  }

  /** `Collect` misses no field on which `check` reports an error. */
  lemma {:induction false} CollectComplete(check: Field -> Option<ErrorKind>, fs: seq<Field>, f: Field)
    requires f in fs
    requires check(f).Some?
    ensures exists i :: 0 <= i < |Collect(check, fs)| && Collect(check, fs)[i].field == f
    decreases |fs|
  {
    var vs := Collect(check, fs);
    if fs[0] == f {
      assert vs[0].field == f;
    } else {
      var rest := Collect(check, fs[1..]);
      CollectComplete(check, fs[1..], f);
      var i :| 0 <= i < |rest| && rest[i].field == f;
      if check(fs[0]).None? {
        assert vs[i] == rest[i];
      } else {
        assert vs[i + 1] == rest[i];
      }
    }
  }

  /** The violations are exactly the fields that break their rule, each reported
      with the error its rule raises, in the schema's field order. */
  lemma ViolationsExact(r: EmployeeFeedback, isEmail: string -> bool)
    ensures forall f :: !FieldOk(r, f, isEmail) <==>
              exists i :: 0 <= i < |Violations(r, isEmail)| && Violations(r, isEmail)[i].field == f
    ensures forall i, j :: 0 <= i < j < |Violations(r, isEmail)| ==>
              Rank(Violations(r, isEmail)[i].field) < Rank(Violations(r, isEmail)[j].field)
    ensures forall i :: 0 <= i < |Violations(r, isEmail)| ==>
              FieldCheck(r, Violations(r, isEmail)[i].field, isEmail) == Some(Violations(r, isEmail)[i].kind)
  {
    ViolationsOrdered(r, isEmail);
    ViolationsComplete(r, isEmail);
  }

  lemma ViolationsOrdered(r: EmployeeFeedback, isEmail: string -> bool)
    ensures forall i, j :: 0 <= i < j < |Violations(r, isEmail)| ==>
              Rank(Violations(r, isEmail)[i].field) < Rank(Violations(r, isEmail)[j].field)
  {
    FieldsDistinct();
    assert Ascending(FIELDS);
  }

  lemma ViolationsComplete(r: EmployeeFeedback, isEmail: string -> bool)
    ensures forall f :: !FieldOk(r, f, isEmail) ==>
              exists i :: 0 <= i < |Violations(r, isEmail)| && Violations(r, isEmail)[i].field == f
  {
    AllListed();
    ViolationsInCover(r, isEmail, FIELDS);
    assert Violations(r, isEmail) == ViolationsIn(r, isEmail, FIELDS);
  }

  /** A list naming every field misses no violation. */
  lemma ViolationsInCover(r: EmployeeFeedback, isEmail: string -> bool, fs: seq<Field>)
    requires forall f :: f in fs
    ensures forall f :: !FieldOk(r, f, isEmail) ==>
              exists i :: 0 <= i < |ViolationsIn(r, isEmail, fs)| && ViolationsIn(r, isEmail, fs)[i].field == f
  {
    forall f | !FieldOk(r, f, isEmail)
      ensures exists i :: 0 <= i < |ViolationsIn(r, isEmail, fs)| && ViolationsIn(r, isEmail, fs)[i].field == f
    {
      ViolationsInComplete(r, isEmail, fs, f);
    }
  }

  lemma AllListed()
    ensures forall f :: f in FIELDS
  {
    forall f ensures f in FIELDS {
      Listed(f);
    }
  }

  /** Every field appears in the schema's field list. */
  lemma Listed(f: Field)
    ensures f in FIELDS
  {
    FieldsListed();
    assert FIELDS[Rank(f)] == f;
  }

  /** `validate()` returns `false` exactly when every field satisfies its rule. */
  lemma ValidateNoneIff(r: EmployeeFeedback, isEmail: string -> bool)
    ensures Validate(r, isEmail).None? <==> forall f :: FieldOk(r, f, isEmail)
  {
    ViolationsExact(r, isEmail);
    if Validate(r, isEmail).Some? {
      var v := Violations(r, isEmail)[0];
      assert !FieldOk(r, v.field, isEmail);
    }
  }

  /** With `abortEarly: false` the diagnostics list has one entry per violation;
      the entry for a violated field carries the message of the error its rule
      raises. */
  lemma DiagnosticsPerField(r: EmployeeFeedback, isEmail: string -> bool, f: Field)
    requires !FieldOk(r, f, isEmail)
    ensures Validate(r, isEmail).Some?
    ensures var ds := Validate(r, isEmail).value;
            exists i :: 0 <= i < |ds| &&
              ds[i] == Diagnostic(INVALID_FIELD, Message(f, Check(RuleOf(f), r.Get(f), isEmail).value), BAD_REQUEST)
    ensures |Validate(r, isEmail).value| == |Violations(r, isEmail)|
  {
    ViolationsExact(r, isEmail);
    var vs := Violations(r, isEmail);
    var i :| 0 <= i < |vs| && vs[i].field == f;
    assert Validate(r, isEmail).value[i] == ToDiagnostic(vs[i]);
  }

  /** Checkers that agree on every field collect the same violations. */
  lemma {:induction false} CollectAgree(c: Field -> Option<ErrorKind>, d: Field -> Option<ErrorKind>, fs: seq<Field>)
    requires forall f :: c(f) == d(f)
    ensures Collect(c, fs) == Collect(d, fs)
    decreases |fs|
  {
    if |fs| > 0 {
      CollectAgree(c, d, fs[1..]);
    }
  }

  /** Validation reads only the 32 non-id fields: records that agree on them get
      the same result. */
  lemma SameFieldsSameResult(a: EmployeeFeedback, b: EmployeeFeedback, isEmail: string -> bool)
    requires SameFields(a, b)
    ensures Validate(a, isEmail) == Validate(b, isEmail)
  {
    forall f ensures Checker(a, isEmail)(f) == Checker(b, isEmail)(f) {
      assert a.Get(f) == b.Get(f);
    }
    CollectAgree(Checker(a, isEmail), Checker(b, isEmail), FIELDS);
  }

  /** `id` is not part of the validated data: changing only the id never changes
      the result of `validate()`. */
  lemma ValidateIgnoresId(r: EmployeeFeedback, id: string, isEmail: string -> bool)
    ensures Validate(r.(id := id), isEmail) == Validate(r, isEmail)
  {
    SameFieldsNewId(r, id);
    SameFieldsSameResult(r.(id := id), r, isEmail);
  }
}
