/** `src/application/services/EmployeeFeedbackService.ts` over the table of
    module `Persistence`. Each operation answers with a result and the table after
    it. A thrown `BaseError` is a `Domain` failure; anything else the store throws
    (a constraint the database enforces, a missing row dereferenced) is `Opaque`,
    which the controller turns into a server error. The fresh identifier `uuidv4()`
    supplies to `create` is a parameter. */
module Service {
  import opened Results
  import opened Errors
  import opened Feedback
  import opened Validation
  import Persistence
  import Listing

  /** What the service throws: one of its own errors, or a store failure. */
  datatype ServiceError = Domain(error: BaseError) | Opaque(cause: Persistence.StoreError)

  /** The outcome of an operation and the table after it. */
  datatype Reply<T> = Reply(result: Result<T, ServiceError>, store: Persistence.Store)

  const EMAIL_EXISTS: Diagnostic :=
    Diagnostic("E-mail já existe", "O e-mail informado já existe", BAD_REQUEST)
  const CORPORATE_EMAIL_EXISTS: Diagnostic :=
    Diagnostic("E-mail corporativo já existe", "O e-mail corporativo informado já existe", BAD_REQUEST)
  const FEEDBACK_NOT_FOUND: Diagnostic :=
    Diagnostic("Feedback do funcionário não encontrado", "Feedback do funcionário não encontrado por id", NOT_FOUND)

  /** The bad-request failure with the given diagnostics. */
  function BadRequest(ds: seq<Diagnostic>): ServiceError {
    Domain(BadRequestError(BAD_REQUEST_ERROR, ds))
  }

  /** The failure of every lookup of a missing id. */
  function NotFound(): ServiceError {
    Domain(NotFoundError(NOT_FOUND_ERROR, [FEEDBACK_NOT_FOUND]))
  }

  /** `create(payload)`: the email must be free, then the corporate email, then the
      record (with the fresh id in place of the payload's) must validate; only then
      is it saved. The first failing step decides the answer and leaves the table
      as it was. */
  function Create(s: Persistence.Store, payload: EmployeeFeedback, freshId: string, isEmail: string -> bool)
    : (rep: Reply<EmployeeFeedback>)
    requires Persistence.WellFormed(s)
    ensures rep.result.Failure? ==> rep.store == s
    ensures Persistence.FindByEmail(s, Persistence.ByEmail, payload.email).Some? ==>
              rep.result == Failure(BadRequest([EMAIL_EXISTS]))
    ensures Persistence.FindByEmail(s, Persistence.ByEmail, payload.email).None?
            && Persistence.FindByEmail(s, Persistence.ByCorporateEmail, payload.corporateEmail).Some? ==>
              rep.result == Failure(BadRequest([CORPORATE_EMAIL_EXISTS]))
    ensures rep.result.Success? ==>
              Persistence.FindByEmail(s, Persistence.ByEmail, payload.email).None?
              && Persistence.FindByEmail(s, Persistence.ByCorporateEmail, payload.corporateEmail).None?
              && Validate(payload, isEmail).None?
    ensures Persistence.FindByEmail(s, Persistence.ByEmail, payload.email).None?
            && Persistence.FindByEmail(s, Persistence.ByCorporateEmail, payload.corporateEmail).None?
            && Validate(payload, isEmail).Some? ==>
              rep.result == Failure(BadRequest(Validate(payload, isEmail).value))
    ensures rep.result.Success? ==> rep.result.value.id == freshId && SameFields(rep.result.value, payload)
  {
    if Persistence.FindByEmail(s, Persistence.ByEmail, payload.email).Some? then
      Reply(Failure(BadRequest([EMAIL_EXISTS])), s)
    else if Persistence.FindByEmail(s, Persistence.ByCorporateEmail, payload.corporateEmail).Some? then
      Reply(Failure(BadRequest([CORPORATE_EMAIL_EXISTS])), s)
    else
      var data := payload.(id := freshId);
      ValidateIgnoresId(payload, freshId, isEmail);
      match Validate(data, isEmail)
      case Some(ds) => Reply(Failure(BadRequest(ds)), s)
      case None =>
        match Persistence.Create(s, data)
        case Failure(e) => Reply(Failure(Opaque(e)), s)
        case Success((s', saved)) =>
          SameFieldsNewId(payload, freshId);
          Reply(Success(saved), s')
  }

  /** The eleven listing parameters copied one by one into the store's call. */
  function Forward(p: Listing.Params): (q: Listing.Params)
    ensures q == p
  {
    Listing.Params(p.page, p.limit, p.department, p.jobRole, p.location, p.gender,
                   p.companyTenure, p.generation, p.dateFrom, p.dateTo, p.search)
  }

  /** `findAll(params)`: the store's page, as is. */
  function FindAll(s: Persistence.Store, p: Listing.Params): (res: Result<Listing.Page, ServiceError>)
    ensures res.Success? <==> Listing.FindAll(s, p).Success?
    ensures res.Success? ==> res.value == Listing.FindAll(s, p).value
    ensures res.Failure? ==> res.error == Opaque(Listing.FindAll(s, p).error)
  {
    match Listing.FindAll(s, Forward(p))
    case Failure(e) => Failure(Opaque(e))
    case Success(page) => Success(page)
  }

  /** `findById(id)`: the stored record, or the not-found error with its one
      diagnostic. */
  function FindById(s: Persistence.Store, id: string): (res: Result<EmployeeFeedback, ServiceError>)
    ensures res.Success? <==> exists j :: 0 <= j < |s| && s[j].id == id
    ensures res.Success? ==> res.value in s && res.value.id == id
    ensures res.Failure? ==> res.error == NotFound()
  {
    match Persistence.FindById(s, id)
    case None => Failure(NotFound())
    case Some(r) => Success(Persistence.Rebuild(r))
  }

  /** `update(id, payload)`: the id must exist; then the record with the path id in
      place of the payload's must validate; only then is the store's `update`
      called. No uniqueness check is made here: a clash surfaces from the store. */
  function Update(s: Persistence.Store, id: string, payload: EmployeeFeedback, isEmail: string -> bool)
    : (rep: Reply<EmployeeFeedback>)
    requires Persistence.WellFormed(s)
    ensures rep.result.Failure? ==> rep.store == s
    ensures Persistence.FindById(s, id).None? ==> rep.result == Failure(NotFound())
    ensures Persistence.FindById(s, id).Some? && Validate(payload, isEmail).Some? ==>
              rep.result == Failure(BadRequest(Validate(payload, isEmail).value))
    ensures rep.result.Success? ==> rep.result.value.id == id && rep.result.value in rep.store
    ensures rep.result.Success? ==> |rep.store| == |s|
    ensures Persistence.FindById(s, id).Some? && Validate(payload, isEmail).None? ==>
              (rep.result.Success? <==>
                 forall j :: 0 <= j < |s| && s[j].id != id ==>
                   Persistence.Conflict(s[j], Persistence.Merge(Persistence.FindById(s, id).value, payload.(id := id))).None?)
  {
    if Persistence.FindById(s, id).None? then Reply(Failure(NotFound()), s)
    else
      var data := payload.(id := id);
      ValidateIgnoresId(payload, id, isEmail);
      match Validate(data, isEmail)
      case Some(ds) => Reply(Failure(BadRequest(ds)), s)
      case None =>
        match Persistence.Update(s, id, data)
        case Failure(e) => Reply(Failure(Opaque(e)), s)
        case Success((s', r)) => Reply(Success(r), s')
  }

  /** `delete(id)`: the id must exist; then every row with it is removed. */
  function Delete(s: Persistence.Store, id: string): (rep: Reply<()>)
    ensures Persistence.FindById(s, id).None? <==> rep.result == Failure(NotFound())
    ensures rep.result.Failure? ==> rep.store == s
    ensures forall r :: r in rep.store <==> r in s && r.id != id
  {
    if Persistence.FindById(s, id).None? then Reply(Failure(NotFound()), s)
    else Reply(Success(()), Persistence.Delete(s, id))
  }

  /** With a fresh id, `create` succeeds exactly when both emails are free and the
      payload validates; it never fails inside the store, and the new record is
      appended to the table as the database writes it. */
  lemma CreateSucceedsIff(s: Persistence.Store, payload: EmployeeFeedback, freshId: string, isEmail: string -> bool)
    requires Persistence.WellFormed(s)
    requires Persistence.FindById(s, freshId).None?
    ensures var rep := Create(s, payload, freshId, isEmail);
            rep.result.Success? <==>
              Persistence.FindByEmail(s, Persistence.ByEmail, payload.email).None?
              && Persistence.FindByEmail(s, Persistence.ByCorporateEmail, payload.corporateEmail).None?
              && Validate(payload, isEmail).None?
    ensures var rep := Create(s, payload, freshId, isEmail);
            rep.result.Failure? ==> rep.result.error.Domain? && IsBadRequest(rep.result.error.error)
    ensures var rep := Create(s, payload, freshId, isEmail);
            rep.result.Success? ==> rep.store == s + [Persistence.Stored(rep.result.value)]
  {
    var data := payload.(id := freshId);
    ValidateIgnoresId(payload, freshId, isEmail);
    if Persistence.FindByEmail(s, Persistence.ByEmail, data.email).None?
       && Persistence.FindByEmail(s, Persistence.ByCorporateEmail, data.corporateEmail).None?
    {
      Persistence.FreshSaveAppends(s, data);
    }
  }

  /** `findById` then returns the record `create` answered with, except that
      each property the payload left undefined reads back as `null`. */
  lemma CreateThenFindById(s: Persistence.Store, payload: EmployeeFeedback, freshId: string, isEmail: string -> bool)
    requires Persistence.WellFormed(s)
    requires Persistence.FindById(s, freshId).None?
    requires Create(s, payload, freshId, isEmail).result.Success?
    ensures var rep := Create(s, payload, freshId, isEmail);
            FindById(rep.store, freshId).Success?
            && FindById(rep.store, freshId).value.id == rep.result.value.id
            && (forall f :: !rep.result.value.Get(f).Absent? ==>
                  FindById(rep.store, freshId).value.Get(f) == rep.result.value.Get(f))
            && (forall f :: rep.result.value.Get(f).Absent? ==>
                  FindById(rep.store, freshId).value.Get(f) == Null)
  {
    CreateSaves(s, payload, freshId, isEmail);
    Persistence.CreateThenFind(s, payload.(id := freshId));
  }

  /** A successful `create` is the store's `save` of the payload with the fresh id. */
  lemma CreateSaves(s: Persistence.Store, payload: EmployeeFeedback, freshId: string, isEmail: string -> bool)
    requires Persistence.WellFormed(s)
    requires Create(s, payload, freshId, isEmail).result.Success?
    ensures Persistence.Create(s, payload.(id := freshId)).Success?
    ensures Create(s, payload, freshId, isEmail)
         == Reply(Success(payload.(id := freshId)), Persistence.Create(s, payload.(id := freshId)).value.0)
  {
  }

  /** Every operation keeps the table's unique constraints. */
  lemma OperationsKeepWellFormed(s: Persistence.Store, id: string, payload: EmployeeFeedback, freshId: string, isEmail: string -> bool)
    requires Persistence.WellFormed(s)
    ensures Persistence.WellFormed(Create(s, payload, freshId, isEmail).store)
    ensures Persistence.WellFormed(Update(s, id, payload, isEmail).store)
    ensures Persistence.WellFormed(Delete(s, id).store)
  {
    CreateKeepsWellFormed(s, payload, freshId, isEmail);
    UpdateKeepsWellFormed(s, id, payload, isEmail);
    Persistence.DeleteKeepsWellFormed(s, id);
  }

  lemma CreateKeepsWellFormed(s: Persistence.Store, payload: EmployeeFeedback, freshId: string, isEmail: string -> bool)
    requires Persistence.WellFormed(s)
    ensures Persistence.WellFormed(Create(s, payload, freshId, isEmail).store)
  {
    if Create(s, payload, freshId, isEmail).result.Success? {
      CreateSaves(s, payload, freshId, isEmail);
      Persistence.CreateKeepsWellFormed(s, payload.(id := freshId));
    }
  }

  lemma UpdateKeepsWellFormed(s: Persistence.Store, id: string, payload: EmployeeFeedback, isEmail: string -> bool)
    requires Persistence.WellFormed(s)
    ensures Persistence.WellFormed(Update(s, id, payload, isEmail).store)
  {
    if Update(s, id, payload, isEmail).result.Success? {
      Persistence.UpdateKeepsWellFormed(s, id, payload.(id := id));
    }
  }

  /** After a successful `update(id, payload)`, `findById(id)` returns the stored
      record with every property the payload defines replaced. */
  lemma UpdateThenFindById(s: Persistence.Store, id: string, payload: EmployeeFeedback, isEmail: string -> bool)
    requires Persistence.WellFormed(s)
    requires Update(s, id, payload, isEmail).result.Success?
    ensures var rep := Update(s, id, payload, isEmail);
            var merged := Persistence.Merge(Persistence.FindById(s, id).value, payload.(id := id));
            rep.result.value == merged && FindById(rep.store, id) == Success(merged)
  {
    Persistence.UpdateThenFind(s, id, payload.(id := id));
  }

  /** `update` makes no uniqueness check of its own: a valid payload whose email is
      another row's is refused by the store's unique constraint, not by a bad
      request. */
  lemma UpdateClashIsOpaque(s: Persistence.Store, id: string, payload: EmployeeFeedback, other: EmployeeFeedback, isEmail: string -> bool)
    requires Persistence.WellFormed(s)
    requires Persistence.FindById(s, id).Some?
    requires Validate(payload, isEmail).None?
    requires other in s && other.id != id
    requires Persistence.Collide(other.email, payload.email)
    ensures var res := Update(s, id, payload, isEmail).result;
            res.Failure? && res.error.Opaque? && res.error.cause.UniqueViolation?
  {
    ValidateIgnoresId(payload, id, isEmail);
    Persistence.UpdateRowsClash(s, id, payload.(id := id), other);
  }

  /** After a successful `delete(id)`, `findById(id)` fails with not-found and the
      table is one row shorter. */
  lemma DeleteThenFindById(s: Persistence.Store, id: string)
    requires Persistence.WellFormed(s)
    requires Delete(s, id).result.Success?
    ensures FindById(Delete(s, id).store, id) == Failure(NotFound())
    ensures |Delete(s, id).store| == |s| - 1
  {
    Persistence.DeleteCount(s, id);
  }
}
