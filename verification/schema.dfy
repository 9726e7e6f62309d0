/** The per-field rule table of `src/application/validators/employeeFeedbackSchema.ts`
    (a Joi object schema) and the messages it attaches to each rule. */
module Schema {
  import opened Results
  import opened Feedback

  /** The five shapes of rule the schema uses. */
  datatype Rule =
    | RequiredText(emailSyntax: bool)  // Joi.string().required(), with .email() when set
    | RequiredDate                     // Joi.date().required()
    | RequiredNumber                   // Joi.number().required()
    | OptionalNumber                   // Joi.number().allow(null).optional()
    | OptionalText                     // Joi.string().allow(null, '').optional()

  /** The Joi error codes the rules can raise. */
  datatype ErrorKind =
    | AnyRequired   // any.required
    | StringEmpty   // string.empty
    | StringBase    // string.base
    | StringEmail   // string.email
    | NumberBase    // number.base
    | NumberUnsafe  // number.unsafe
    | DateBase      // date.base

  /** JavaScript's `Number.MAX_SAFE_INTEGER`, 2^53 - 1. */
  const MAX_SAFE_INTEGER: int := 0x1F_FFFF_FFFF_FFFF

  /** Joi's `number()` refuses numbers beyond the safe integer range unless
      `.unsafe()` is set, which the schema never does. */
  predicate Safe(n: int) {
    -MAX_SAFE_INTEGER <= n <= MAX_SAFE_INTEGER
  }

  /** The largest time value, in milliseconds from the epoch, a JavaScript
      `Date` can hold: 8.64e15. */
  const MAX_TIME: int := 8_640_000_000_000_000

  /** Joi's `date()` converts a number `n` with `new Date(n)`, which is a valid
      date exactly when `n` is within the time value range. */
  predicate TimeValue(n: int) {
    -MAX_TIME <= n <= MAX_TIME
  }

  /** The rule the schema attaches to each field. Categorical fields (department,
      companyTenure, gender, generation) are plain required strings: their
      enumerations are not checked here. */
  function RuleOf(f: Field): Rule {
    match f
    case Email | CorporateEmail => RequiredText(true)
    case Name
      | Department
      | JobRole
      | JobFunction
      | Location
      | CompanyTenure
      | Gender
      | Generation
      | Level0Company
      | Level1Directorate
      | Level2Management
      | Level3Coordination
      | Level4Area
      | JobInterestComments => RequiredText(false)
    case ResponseDate => RequiredDate
    case JobInterest
      | LearningDevelopment
      | CareerClarity => RequiredNumber
    case Contribution
      | FeedbackScore
      | ManagerInteraction
      | PermanenceExpectation
      | EnpsScore => OptionalNumber
    case ContributionComments
      | LearningDevelopmentComments
      | FeedbackComments
      | ManagerInteractionComments
      | CareerClarityComments
      | PermanenceExpectationComments
      | EnpsOpenComments => OptionalText
  }

  predicate IsRequired(rule: Rule) {
    rule.RequiredText? || rule.RequiredDate? || rule.RequiredNumber?
  }

  /** The values a rule admits, stated value by value. */
  predicate Admits(rule: Rule, v: Value, isEmail: string -> bool) {
    match rule
    case RequiredText(email) => v.Text? && v.text != "" && (email ==> isEmail(v.text))
    case RequiredDate => v.Moment? || (v.Number? && TimeValue(v.number))
    case RequiredNumber => v.Number? && Safe(v.number)
    case OptionalNumber => v == Absent || v == Null || (v.Number? && Safe(v.number))
    case OptionalText => v == Absent || v == Null || v.Text?
  }

  /** Checks one value against one rule, returning the error Joi reports for it.
      `isEmail` is Joi's e-mail syntax check. */
  function Check(rule: Rule, v: Value, isEmail: string -> bool): (e: Option<ErrorKind>)
    ensures e.None? <==> Admits(rule, v, isEmail)
    ensures e == Some(AnyRequired) <==> IsRequired(rule) && v == Absent
    ensures e == Some(StringEmpty) <==> rule.RequiredText? && v == Text("")
    ensures e == Some(StringEmail) ==> rule == RequiredText(true)
    ensures e == Some(NumberUnsafe) <==>
              (rule.RequiredNumber? || rule.OptionalNumber?) && v.Number? && !Safe(v.number)
  {
    match rule
    case RequiredText(email) =>
      if v == Absent then Some(AnyRequired)
      else if !v.Text? then Some(StringBase)
      else if v.text == "" then Some(StringEmpty)
      else if email && !isEmail(v.text) then Some(StringEmail)
      else None
    case RequiredDate =>
      if v == Absent then Some(AnyRequired)
      else if v.Moment? || (v.Number? && TimeValue(v.number)) then None
      else Some(DateBase)
    case RequiredNumber =>
      if v == Absent then Some(AnyRequired) else CheckNumber(v)
    case OptionalNumber =>
      if v == Absent || v == Null then None else CheckNumber(v)
    case OptionalText =>
      if v == Absent || v == Null || v.Text? then None else Some(StringBase)
  }

  /** Joi's `number()` test on a present, non-null value. */
  function CheckNumber(v: Value): Option<ErrorKind> {
    if !v.Number? then Some(NumberBase)
    else if !Safe(v.number) then Some(NumberUnsafe)
    else None
  }

  /** Fields whose `string.base` error has a message of the schema's own; the
      others get Joi's default message. */
  predicate HasOwnTextMessage(f: Field) {
    match f
    case Name
      | Email
      | CorporateEmail
      | ContributionComments
      | LearningDevelopmentComments
      | FeedbackComments
      | ManagerInteractionComments
      | CareerClarityComments
      | PermanenceExpectationComments
      | EnpsOpenComments => true
    case _ => false
  }

  /** The message the schema attaches to error `k` on field `f`. */
  function Message(f: Field, k: ErrorKind): string {
    var n := FieldName(f);
    match k
    case AnyRequired => "O campo " + n + " é obrigatório"
    case StringEmpty => "O campo " + n + " não pode estar vazio"
    case StringEmail => "O campo " + n + " deve ser um e-mail válido"
    case NumberBase => "O campo " + n + " deve ser um número"
    case NumberUnsafe => "\"" + n + "\" must be a safe number"
    case DateBase => "O campo " + n + " deve ser uma data válida"
    case StringBase =>
      if HasOwnTextMessage(f) then "O campo " + n + " deve ser um texto"
      else "\"" + n + "\" must be a string"
  }

  /** The eight free-text comment fields. */
  predicate IsComment(f: Field) {
    f.JobInterestComments? || f.ContributionComments? || f.LearningDevelopmentComments?
    || f.FeedbackComments? || f.ManagerInteractionComments? || f.CareerClarityComments?
    || f.PermanenceExpectationComments? || f.EnpsOpenComments?
  }

  /** The fifteen required text fields reject a missing value and the empty
      string, each with its own error. */
  lemma RequiredTextFields(f: Field, isEmail: string -> bool)
    requires f in {Name, Email, CorporateEmail, Department, JobRole, JobFunction, Location,
                   CompanyTenure, Gender, Generation, Level0Company, Level1Directorate,
                   Level2Management, Level3Coordination, Level4Area}
    ensures Check(RuleOf(f), Absent, isEmail) == Some(AnyRequired)
    ensures Check(RuleOf(f), Text(""), isEmail) == Some(StringEmpty)
  {
  }

  /** `jobInterestComments` is required and non-empty; every other comment field
      accepts a missing value, `null` and the empty string. */
  lemma CommentFields(f: Field, isEmail: string -> bool)
    requires IsComment(f)
    ensures f == JobInterestComments ==>
              Check(RuleOf(f), Absent, isEmail) == Some(AnyRequired)
              && Check(RuleOf(f), Text(""), isEmail) == Some(StringEmpty)
    ensures f != JobInterestComments ==>
              Check(RuleOf(f), Absent, isEmail).None?
              && Check(RuleOf(f), Null, isEmail).None?
              && Check(RuleOf(f), Text(""), isEmail).None?
  {
  }

  /** Only `email` and `corporateEmail` are checked for e-mail syntax: any other
      field's non-empty text passes or fails regardless of `isEmail`. */
  lemma EmailSyntaxOnlyOnEmails(f: Field, t: string, isEmail: string -> bool)
    requires t != ""
    ensures (f == Email || f == CorporateEmail) ==>
              (Check(RuleOf(f), Text(t), isEmail).None? <==> isEmail(t))
    ensures f != Email && f != CorporateEmail ==>
              Check(RuleOf(f), Text(t), isEmail) == Check(RuleOf(f), Text(t), _ => true)
  {
  }

  /** The categorical fields are plain strings: any non-empty text is admitted,
      whether or not it names a member of the enumeration. */
  lemma CategoricalFieldsUnchecked(f: Field, t: string, isEmail: string -> bool)
    requires f == Department || f == CompanyTenure || f == Gender || f == Generation
    requires t != ""
    ensures Check(RuleOf(f), Text(t), isEmail).None?
  {
  }

  /** The five optional scores accept a missing value and `null`; present, they
      must be safe integers: anything else is `number.base`, and a number
      beyond the safe range is `number.unsafe`. */
  lemma OptionalScores(f: Field, v: Value, isEmail: string -> bool)
    requires f == Contribution || f == FeedbackScore || f == ManagerInteraction
             || f == PermanenceExpectation || f == EnpsScore
    ensures Check(RuleOf(f), v, isEmail).None? <==>
              v == Absent || v == Null || (v.Number? && -MAX_SAFE_INTEGER <= v.number <= MAX_SAFE_INTEGER)
    ensures v != Absent && v != Null && !v.Number? ==> Check(RuleOf(f), v, isEmail) == Some(NumberBase)
    ensures v.Number? && !(-MAX_SAFE_INTEGER <= v.number <= MAX_SAFE_INTEGER) ==>
              Check(RuleOf(f), v, isEmail) == Some(NumberUnsafe)
  {
  }

  /** `responseDate` and the three required scores reject a missing value, and a
      value of the wrong type with their type's error. A number given as the
      date is a time value: it passes exactly when a `Date` can hold it. */
  lemma RequiredDateAndScores(f: Field, v: Value, isEmail: string -> bool)
    requires f == ResponseDate || f == JobInterest || f == LearningDevelopment || f == CareerClarity
    ensures v == Absent ==> Check(RuleOf(f), v, isEmail) == Some(AnyRequired)
    ensures v != Absent && f == ResponseDate && !v.Moment? && !v.Number? ==>
              Check(RuleOf(f), v, isEmail) == Some(DateBase)
    ensures f == ResponseDate && v.Moment? ==> Check(RuleOf(f), v, isEmail).None?
    ensures f == ResponseDate && v.Number? ==>
              (Check(RuleOf(f), v, isEmail).None? <==> -MAX_TIME <= v.number <= MAX_TIME)
    ensures f == ResponseDate && v.Number? && !(-MAX_TIME <= v.number <= MAX_TIME) ==>
              Check(RuleOf(f), v, isEmail) == Some(DateBase)
    ensures v != Absent && f != ResponseDate && !v.Number? ==> Check(RuleOf(f), v, isEmail) == Some(NumberBase)
    ensures f != ResponseDate && v.Number? ==>
              (Check(RuleOf(f), v, isEmail).None? <==> -MAX_SAFE_INTEGER <= v.number <= MAX_SAFE_INTEGER)
    ensures f != ResponseDate && v.Number? && !(-MAX_SAFE_INTEGER <= v.number <= MAX_SAFE_INTEGER) ==>
              Check(RuleOf(f), v, isEmail) == Some(NumberUnsafe)
  {
  }
}
