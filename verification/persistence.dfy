/** The persistence adapter of
    `src/adapter/output/persistense/EmployeeFeedbackPersistenceAdapter.ts` and the
    output port it implements, over an abstract table: a sequence of rows in their
    natural order. The table carries the entity's unique constraints (primary key
    `id`, unique `email` and `corporate_email`); a statement that would break one is
    rejected, as the database rejects it. The paged `findAll` is in module
    `Listing`. */
module Persistence {
  import opened Results
  import opened Feedback

  /** The `employees_feedback` table, rows in natural order. */
  type Store = seq<EmployeeFeedback>

  /** The columns with a unique constraint. */
  datatype UniqueColumn = IdColumn | EmailColumn | CorporateEmailColumn

  /** The two columns `findByEmail` may search: `'email' | 'corporateEmail'`. */
  datatype EmailKey = ByEmail | ByCorporateEmail

  /** A statement the database refuses, or a re-read that finds no row. */
  datatype StoreError =
    | UniqueViolation(column: UniqueColumn)
    | NegativeBound
    | RowMissing

  function EmailOf(r: EmployeeFeedback, key: EmailKey): Value {
    match key
    case ByEmail => r.email
    case ByCorporateEmail => r.corporateEmail
  }

  /** Two values collide under a unique constraint: equal and not NULL (an
      absent value is stored as NULL, and NULLs never collide). */
  predicate Collide(a: Value, b: Value) {
    a == b && !a.Absent? && !a.Null?
  }

  /** The first unique constraint that two rows break together, if any. */
  function Conflict(a: EmployeeFeedback, b: EmployeeFeedback): (c: Option<UniqueColumn>)
    ensures c.None? <==> a.id != b.id && !Collide(a.email, b.email) && !Collide(a.corporateEmail, b.corporateEmail)
    ensures c == Some(IdColumn) <==> a.id == b.id
  {
    if a.id == b.id then Some(IdColumn)
    else if Collide(a.email, b.email) then Some(EmailColumn)
    else if Collide(a.corporateEmail, b.corporateEmail) then Some(CorporateEmailColumn)
    else None
  }

  /** The table satisfies its unique constraints. */
  predicate WellFormed(s: Store) {
    forall i, j :: 0 <= i < j < |s| ==> Conflict(s[i], s[j]).None?
  }

  /** The position of the first row satisfying `p`. */
  function FirstWhere(s: Store, p: EmployeeFeedback -> bool): (k: Option<nat>)
    ensures k.Some? ==> k.value < |s| && p(s[k.value]) && forall j :: 0 <= j < k.value ==> !p(s[j])
    ensures k.None? <==> forall j :: 0 <= j < |s| ==> !p(s[j])
    decreases |s|
  {
    if |s| == 0 then None
    else if p(s[0]) then Some(0)
    else
      match FirstWhere(s[1..], p)
      case None => None
      case Some(k) => Some(k + 1)
  }

  /** The row test of `WHERE id = :id`. */
  function WithId(id: string): EmployeeFeedback -> bool {
    (e: EmployeeFeedback) => e.id == id
  }

  /** The row test of `WHERE <key column> = :v`. */
  function WithEmail(key: EmailKey, v: Value): EmployeeFeedback -> bool {
    (e: EmployeeFeedback) => EmailOf(e, key) == v
  }

  /** `findById`: the row with that id, or `None` where the source returns `null`. */
  function FindById(s: Store, id: string): (r: Option<EmployeeFeedback>)
    ensures r.Some? ==> r.value in s && r.value.id == id
    ensures r.None? <==> forall j :: 0 <= j < |s| ==> s[j].id != id
  {
    match FirstWhere(s, WithId(id))
    case None => None
    case Some(k) => Some(s[k])
  }

  /** `findByEmail(field, value)`: the first row whose chosen column holds the
      value, or `None` where the source returns `false`. */
  function FindByEmail(s: Store, key: EmailKey, v: Value): (r: Option<EmployeeFeedback>)
    ensures r.Some? ==> r.value in s && EmailOf(r.value, key) == v
    ensures r.None? <==> forall j :: 0 <= j < |s| ==> EmailOf(s[j], key) != v
  {
    match FirstWhere(s, WithEmail(key, v))
    case None => None
    case Some(k) => Some(s[k])
  }

  /** The adapter's rebuild of a row into a model object, copying every column
      into the same-named constructor argument. */
  function Rebuild(e: EmployeeFeedback): (r: EmployeeFeedback)
    ensures r == e
  {
    EmployeeFeedback(
      e.id,
      e.name,
      e.email,
      e.corporateEmail,
      e.department,
      e.jobRole,
      e.jobFunction,
      e.location,
      e.companyTenure,
      e.gender,
      e.generation,
      e.level0Company,
      e.level1Directorate,
      e.level2Management,
      e.level3Coordination,
      e.level4Area,
      e.responseDate,
      e.jobInterest,
      e.jobInterestComments,
      e.contribution,
      e.contributionComments,
      e.learningDevelopment,
      e.learningDevelopmentComments,
      e.feedbackScore,
      e.feedbackComments,
      e.managerInteraction,
      e.managerInteractionComments,
      e.careerClarity,
      e.careerClarityComments,
      e.permanenceExpectation,
      e.permanenceExpectationComments,
      e.enpsScore,
      e.enpsOpenComments)
  }

  /** An update column: an `undefined` property is left out of the `SET` list, so
      the stored value stays; any other value replaces it. */
  function Keep(stored: Value, given: Value): Value {
    if given.Absent? then stored else given
  }

  /** The row `stored` after an update with the properties of `given`. */
  function Merge(stored: EmployeeFeedback, given: EmployeeFeedback): (r: EmployeeFeedback)
    ensures r.id == given.id
    ensures forall f :: given.Get(f).Absent? ==> r.Get(f) == stored.Get(f)
    ensures forall f :: !given.Get(f).Absent? ==> r.Get(f) == given.Get(f)
  {
    EmployeeFeedback(
      given.id,
      Keep(stored.name, given.name),
      Keep(stored.email, given.email),
      Keep(stored.corporateEmail, given.corporateEmail),
      Keep(stored.department, given.department),
      Keep(stored.jobRole, given.jobRole),
      Keep(stored.jobFunction, given.jobFunction),
      Keep(stored.location, given.location),
      Keep(stored.companyTenure, given.companyTenure),
      Keep(stored.gender, given.gender),
      Keep(stored.generation, given.generation),
      Keep(stored.level0Company, given.level0Company),
      Keep(stored.level1Directorate, given.level1Directorate),
      Keep(stored.level2Management, given.level2Management),
      Keep(stored.level3Coordination, given.level3Coordination),
      Keep(stored.level4Area, given.level4Area),
      Keep(stored.responseDate, given.responseDate),
      Keep(stored.jobInterest, given.jobInterest),
      Keep(stored.jobInterestComments, given.jobInterestComments),
      Keep(stored.contribution, given.contribution),
      Keep(stored.contributionComments, given.contributionComments),
      Keep(stored.learningDevelopment, given.learningDevelopment),
      Keep(stored.learningDevelopmentComments, given.learningDevelopmentComments),
      Keep(stored.feedbackScore, given.feedbackScore),
      Keep(stored.feedbackComments, given.feedbackComments),
      Keep(stored.managerInteraction, given.managerInteraction),
      Keep(stored.managerInteractionComments, given.managerInteractionComments),
      Keep(stored.careerClarity, given.careerClarity),
      Keep(stored.careerClarityComments, given.careerClarityComments),
      Keep(stored.permanenceExpectation, given.permanenceExpectation),
      Keep(stored.permanenceExpectationComments, given.permanenceExpectationComments),
      Keep(stored.enpsScore, given.enpsScore),
      Keep(stored.enpsOpenComments, given.enpsOpenComments))
  }

  /** The first row of `s` that `r` would clash with, and the constraint. */
  function FirstConflict(s: Store, r: EmployeeFeedback): (c: Option<UniqueColumn>)
    ensures c.None? <==> forall j :: 0 <= j < |s| ==> Conflict(s[j], r).None?
    ensures c.Some? ==> exists j :: 0 <= j < |s| && Conflict(s[j], r) == c
    decreases |s|
  {
    if |s| == 0 then None
    else if Conflict(s[0], r).Some? then Conflict(s[0], r)
    else FirstConflict(s[1..], r)
  }

  /** A column an `INSERT` leaves undefined is written as NULL. */
  function NullIfAbsent(v: Value): Value {
    if v.Absent? then Null else v
  }

  /** The row an `INSERT` of `r` writes, as a later `SELECT` reads it back:
      each undefined property becomes NULL, every other value is kept. */
  function Stored(r: EmployeeFeedback): (t: EmployeeFeedback)
    ensures t.id == r.id
    ensures forall f :: t.Get(f) == (if r.Get(f).Absent? then Null else r.Get(f))
  {
    FromFields(r.id, f => NullIfAbsent(r.Get(f)))
  }

  /** `INSERT` of a new row: rejected when it clashes with a stored row, otherwise
      appended as written. NULLs never clash, so clashing with the written row
      is clashing with `r`. */
  function Insert(s: Store, r: EmployeeFeedback): (res: Result<Store, StoreError>)
    ensures res.Success? <==> forall j :: 0 <= j < |s| ==> Conflict(s[j], r).None?
    ensures res.Success? ==> |res.value| == |s| + 1 && res.value[..|s|] == s && res.value[|s|] == Stored(r)
    ensures res.Failure? ==> res.error.UniqueViolation?
  {
    match FirstConflict(s, r)
    case Some(c) => Failure(UniqueViolation(c))
    case None => Success(s + [Stored(r)])
  }

  /** `UPDATE ... WHERE id = :id`: the row with that id is merged with `data`; the
      statement is rejected when the merged row clashes with another row; no row
      with that id leaves the table as it is. */
  function UpdateRows(s: Store, id: string, data: EmployeeFeedback): (res: Result<Store, StoreError>)
    requires WellFormed(s)
    ensures res.Success? ==> |res.value| == |s|
    ensures res.Success? ==> forall j :: 0 <= j < |s| && s[j].id != id ==> res.value[j] == s[j]
    ensures res.Success? ==> forall j :: 0 <= j < |s| && s[j].id == id ==> res.value[j] == Merge(s[j], data)
    ensures res.Failure? ==> res.error.UniqueViolation?
    ensures FindById(s, id).None? ==> res == Success(s)
    ensures FindById(s, id).Some? ==>
              (res.Success? <==>
                 forall j :: 0 <= j < |s| && s[j].id != id ==>
                   Conflict(s[j], Merge(FindById(s, id).value, data)).None?)
  {
    match FirstWhere(s, WithId(id))
    case None => Success(s)
    case Some(k) =>
      var merged := Merge(s[k], data);
      var others := s[..k] + s[k + 1..];
      assert |others| == |s| - 1;
      assert forall j :: k < j < |s| ==> s[j] == others[j - 1];
      assert forall j :: 0 <= j < k ==> s[j] == others[j];
      OnlyRowWithId(s, k);
      match FirstConflict(others, merged)
      case Some(c) => Failure(UniqueViolation(c))
      case None => Success(s[k := merged])
  }

  /** In a constrained table, the row at `k` is the only one with its id. */
  lemma OnlyRowWithId(s: Store, k: nat)
    requires WellFormed(s)
    requires k < |s|
    ensures forall j :: 0 <= j < |s| && s[j].id == s[k].id ==> j == k
  {
  }

  /** The port's `create`: `save` of a record. A record whose id is already stored
      updates that row; any other is inserted. The adapter answers with the saved
      record rebuilt, which is the record itself. */
  function Create(s: Store, r: EmployeeFeedback): (res: Result<(Store, EmployeeFeedback), StoreError>)
    requires WellFormed(s)
    ensures res.Success? ==> res.value.1 == r
    ensures FindById(s, r.id).None? ==>
              (res.Success? <==> forall j :: 0 <= j < |s| ==> Conflict(s[j], r).None?)
    ensures FindById(s, r.id).None? && res.Success? ==> res.value.0 == s + [Stored(r)]
  {
    var saved := if FindById(s, r.id).Some? then UpdateRows(s, r.id, r) else Insert(s, r);
    match saved
    case Failure(e) => Failure(e)
    case Success(s') => Success((s', Rebuild(r)))
  }

  /** The port's `update(id, data)`: the `UPDATE` statement, then the re-read by
      `data.id`; a re-read that finds nothing fails, as dereferencing the
      missing row does in the source. */
  function Update(s: Store, id: string, data: EmployeeFeedback): (res: Result<(Store, EmployeeFeedback), StoreError>)
    requires WellFormed(s)
    ensures res.Success? ==> res.value.1.id == data.id && res.value.1 in res.value.0
    ensures res.Success? ==> |res.value.0| == |s|
    ensures FindById(s, id).None? ==> (res.Success? <==> FindById(s, data.id).Some?)
    ensures FindById(s, id).Some? ==>
              (res.Success? <==>
                 forall j :: 0 <= j < |s| && s[j].id != id ==>
                   Conflict(s[j], Merge(FindById(s, id).value, data)).None?)
  {
    match UpdateRows(s, id, data)
    case Failure(e) => Failure(e)
    case Success(s') =>
      match FindById(s', data.id)
      case None => Failure(RowMissing)
      case Some(r) => Success((s', Rebuild(r)))
  }

  /** The port's `delete(id)`: every row with that id is removed, the rest keep
      their order. */
  function Delete(s: Store, id: string): (s': Store)
    ensures |s'| <= |s|
    ensures forall r :: r in s' <==> r in s && r.id != id
    ensures (forall j :: 0 <= j < |s| ==> s[j].id != id) ==> s' == s
    decreases |s|
  {
    if |s| == 0 then []
    else if s[0].id == id then Delete(s[1..], id)
    else [s[0]] + Delete(s[1..], id)
  }

  /** `delete` works row by row: deleting from a table split in two deletes from
      each part and keeps the parts in order. With `DeleteOne` this says the
      survivors are the table's other rows in their original order. */
  lemma {:induction false} DeleteConcat(a: Store, b: Store, id: string)
    ensures Delete(a + b, id) == Delete(a, id) + Delete(b, id)
    decreases |a|
  {
    if |a| > 0 {
      assert (a + b)[0] == a[0];
      assert (a + b)[1..] == a[1..] + b;
      DeleteConcat(a[1..], b, id);
    } else {
      assert a + b == b;
    }
  }

  /** A single row survives `delete` exactly when its id differs. */
  lemma DeleteOne(r: EmployeeFeedback, id: string)
    ensures Delete([r], id) == if r.id == id then [] else [r]
  {
  }

  /** Unique constraints are symmetric: `a` clashes with `b` exactly when `b`
      clashes with `a`. */
  lemma ConflictSymmetric(a: EmployeeFeedback, b: EmployeeFeedback)
    ensures Conflict(a, b).None? <==> Conflict(b, a).None?
  {
  }

  /** An accepted `INSERT` keeps the unique constraints. */
  lemma InsertKeepsWellFormed(s: Store, r: EmployeeFeedback)
    requires WellFormed(s)
    requires Insert(s, r).Success?
    ensures WellFormed(Insert(s, r).value)
  {
    var s' := Insert(s, r).value;
    forall i, j | 0 <= i < j < |s'| ensures Conflict(s'[i], s'[j]).None? {
      if j == |s| {
        assert s'[i] == s[i];
        ConflictStored(s[i], r);
      } else {
        assert s'[i] == s[i] && s'[j] == s[j];
      }
    }
  }

  /** Writing undefined properties as NULL changes no unique-constraint clash. */
  lemma ConflictStored(a: EmployeeFeedback, r: EmployeeFeedback)
    ensures Conflict(a, Stored(r)) == Conflict(a, r)
  {
    assert Stored(r).email == NullIfAbsent(r.email);
    assert Stored(r).corporateEmail == NullIfAbsent(r.corporateEmail);
  }

  /** An accepted `UPDATE` keeps the unique constraints. */
  lemma UpdateRowsKeepsWellFormed(s: Store, id: string, data: EmployeeFeedback)
    requires WellFormed(s)
    requires UpdateRows(s, id, data).Success?
    ensures WellFormed(UpdateRows(s, id, data).value)
  {
    var s' := UpdateRows(s, id, data).value;
    match FirstWhere(s, WithId(id))
    case None =>
    case Some(k) =>
      var merged := Merge(s[k], data);
      var others := s[..k] + s[k + 1..];
      assert FirstConflict(others, merged).None?;
      assert s' == s[k := merged];
      forall i, j | 0 <= i < j < |s'| ensures Conflict(s'[i], s'[j]).None? {
        if i == k {
          assert s'[j] == others[j - 1];
          ConflictSymmetric(others[j - 1], merged);
        } else if j == k {
          assert s'[i] == others[i];
        } else {
          assert s'[i] == s[i] && s'[j] == s[j];
        }
      }
  }

  /** Removing rows keeps the unique constraints. */
  lemma {:induction false} DeleteKeepsWellFormed(s: Store, id: string)
    requires WellFormed(s)
    ensures WellFormed(Delete(s, id))
    decreases |s|
  {
    if |s| > 0 {
      WellFormedTail(s);
      DeleteKeepsWellFormed(s[1..], id);
      if s[0].id != id {
        WellFormedCons(s[0], Delete(s[1..], id));
      }
    }
  }

  /** The rows after the first keep the constraints, and none clashes with the
      first. */
  lemma WellFormedTail(s: Store)
    requires WellFormed(s)
    requires |s| > 0
    ensures WellFormed(s[1..])
    ensures forall r :: r in s[1..] ==> Conflict(s[0], r).None?
  {
    var t := s[1..];
    forall i, j | 0 <= i < j < |t| ensures Conflict(t[i], t[j]).None? {
      assert t[i] == s[i + 1] && t[j] == s[j + 1];
    }
    forall r | r in t ensures Conflict(s[0], r).None? {
      var m :| 0 <= m < |t| && t[m] == r;
      assert s[m + 1] == r;
    }
  }

  /** A row that clashes with none of a constrained table can head it. */
  lemma WellFormedCons(r: EmployeeFeedback, t: Store)
    requires WellFormed(t)
    requires forall e :: e in t ==> Conflict(r, e).None?
    ensures WellFormed([r] + t)
  {
    var s := [r] + t;
    forall i, j | 0 <= i < j < |s| ensures Conflict(s[i], s[j]).None? {
      assert s[j] == t[j - 1];
      if i > 0 {
        assert s[i] == t[i - 1];
      }
    }
  }

  /** The adapter's `create` keeps the unique constraints. */
  lemma CreateKeepsWellFormed(s: Store, r: EmployeeFeedback)
    requires WellFormed(s)
    requires Create(s, r).Success?
    ensures WellFormed(Create(s, r).value.0)
  {
    if FindById(s, r.id).Some? {
      UpdateRowsKeepsWellFormed(s, r.id, r);
    } else {
      InsertKeepsWellFormed(s, r);
    }
  }

  /** The adapter's `update` keeps the unique constraints. */
  lemma UpdateKeepsWellFormed(s: Store, id: string, data: EmployeeFeedback)
    requires WellFormed(s)
    requires Update(s, id, data).Success?
    ensures WellFormed(Update(s, id, data).value.0)
  {
    UpdateRowsKeepsWellFormed(s, id, data);
  }

  /** In a table that keeps its constraints, looking a stored row up by its id
      finds that very row. */
  lemma FindByIdStored(s: Store, r: EmployeeFeedback)
    requires WellFormed(s)
    requires r in s
    ensures FindById(s, r.id) == Some(r)
  {
    var i :| 0 <= i < |s| && s[i] == r;
    var found := FindById(s, r.id).value;
    var k := FirstWhere(s, WithId(r.id)).value;
    assert s[k].id == s[i].id;
  }

  /** Saving a record whose id is new and whose emails are both free succeeds
      and appends the record. */
  lemma FreshSaveAppends(s: Store, r: EmployeeFeedback)
    requires WellFormed(s)
    requires FindById(s, r.id).None?
    requires FindByEmail(s, ByEmail, r.email).None?
    requires FindByEmail(s, ByCorporateEmail, r.corporateEmail).None?
    ensures Create(s, r).Success? && Create(s, r).value.0 == s + [Stored(r)]
  {
    forall j | 0 <= j < |s| ensures Conflict(s[j], r).None? {
      assert EmailOf(s[j], ByEmail) != r.email;
      assert EmailOf(s[j], ByCorporateEmail) != r.corporateEmail;
    }
  }

  /** A record inserted by `create` is found by its id afterwards, with every
      property it defined as given and every undefined one read back as NULL. */
  lemma CreateThenFind(s: Store, r: EmployeeFeedback)
    requires WellFormed(s)
    requires Create(s, r).Success?
    requires FindById(s, r.id).None?
    ensures FindById(Create(s, r).value.0, r.id).Some?
    ensures var found := FindById(Create(s, r).value.0, r.id).value;
            found.id == r.id
            && (forall f :: !r.Get(f).Absent? ==> found.Get(f) == r.Get(f))
            && (forall f :: r.Get(f).Absent? ==> found.Get(f) == Null)
  {
    var s' := Create(s, r).value.0;
    CreateKeepsWellFormed(s, r);
    assert s'[|s|] == Stored(r);
    FindByIdStored(s', Stored(r));
  }

  /** After `update(id, data)` with `data.id == id`, the answer is the stored row
      merged with `data`, and that is what a later `findById` returns. */
  lemma UpdateThenFind(s: Store, id: string, data: EmployeeFeedback)
    requires WellFormed(s)
    requires data.id == id
    requires FindById(s, id).Some?
    requires Update(s, id, data).Success?
    ensures Update(s, id, data).value.1 == Merge(FindById(s, id).value, data)
    ensures FindById(Update(s, id, data).value.0, id) == Some(Merge(FindById(s, id).value, data))
  {
    var stored := FindById(s, id).value;
    var s' := UpdateRows(s, id, data).value;
    var k := FirstWhere(s, WithId(id)).value;
    assert s'[k] == Merge(stored, data);
    UpdateRowsKeepsWellFormed(s, id, data);
    FindByIdStored(s', s'[k]);
  }

  /** An `UPDATE` that gives the row a value another row holds in a unique
      column is refused, and so is the port's `update`. */
  lemma UpdateRowsClash(s: Store, id: string, data: EmployeeFeedback, other: EmployeeFeedback)
    requires WellFormed(s)
    requires FindById(s, id).Some?
    requires other in s && other.id != id
    requires Collide(other.email, data.email)
    ensures UpdateRows(s, id, data).Failure?
    ensures Update(s, id, data).Failure? && Update(s, id, data).error.UniqueViolation?
  {
    var k := FirstWhere(s, WithId(id)).value;
    var merged := Merge(s[k], data);
    var others := s[..k] + s[k + 1..];
    MergeEmail(s[k], data);
    OthersKeep(s, k, other);
    ConflictFound(others, merged, other);
  }

  /** An email the update defines replaces the stored one. */
  lemma MergeEmail(stored: EmployeeFeedback, given: EmployeeFeedback)
    requires !given.email.Absent?
    ensures Merge(stored, given).email == given.email
  {
  }

  /** Removing position `k` keeps every other row. */
  lemma OthersKeep(s: Store, k: nat, r: EmployeeFeedback)
    requires k < |s|
    requires r in s && r != s[k]
    ensures r in s[..k] + s[k + 1..]
  {
    var j :| 0 <= j < |s| && s[j] == r;
    if j < k {
      assert (s[..k] + s[k + 1..])[j] == r;
    } else {
      assert (s[..k] + s[k + 1..])[j - 1] == r;
    }
  }

  /** A row whose email collides with a row of `t` is refused by `FirstConflict`. */
  lemma ConflictFound(t: Store, r: EmployeeFeedback, other: EmployeeFeedback)
    requires other in t
    requires Collide(other.email, r.email)
    ensures FirstConflict(t, r).Some?
  {
    var m :| 0 <= m < |t| && t[m] == other;
    assert Conflict(t[m], r).Some?;
  }

  /** `update` on an id no row has changes nothing and fails at the re-read. */
  lemma UpdateMissing(s: Store, id: string, data: EmployeeFeedback)
    requires WellFormed(s)
    requires data.id == id
    requires FindById(s, id).None?
    ensures Update(s, id, data) == Failure(RowMissing)
  {
  }

  /** `delete(id)` removes exactly one row when the id is stored, none otherwise. */
  lemma {:induction false} DeleteCount(s: Store, id: string)
    requires WellFormed(s)
    ensures |Delete(s, id)| == |s| - (if FindById(s, id).Some? then 1 else 0)
    decreases |s|
  {
    if |s| > 0 {
      WellFormedTail(s);
      DeleteCount(s[1..], id);
      if s[0].id == id {
        assert forall j :: 0 <= j < |s[1..]| ==> Conflict(s[0], s[1..][j]).None?;
        assert FindById(s[1..], id).None?;
      } else {
        assert FindById(s[1..], id).Some? <==> FindById(s, id).Some?;
      }
    }
  }
}
