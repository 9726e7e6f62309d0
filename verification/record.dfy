/** The employee-feedback record of `src/domain/models/EmployeeFeedback.ts`: an
    identifier plus 32 named fields. Each field holds a JSON-like `Value`, so that a
    payload can be absent, null or of the wrong type where the validation rules
    look for exactly that. A value is the payload as sent: Joi's conversion of
    strings is not modelled (a numeric string given for a number field is text
    here, and is refused), and a number given as the response date is kept as a
    number; only its acceptance by the date rule is modelled, in `Schema.Admits`. */
module Feedback {

  /** A calendar date; `monthIndex` is 0-based, as JavaScript's `Date` takes it. */
  datatype Date = Date(year: int, monthIndex: int, day: int)

  /** `a` is on or before `b`, comparing year, then month, then day. */
  predicate NotAfter(a: Date, b: Date) {
    a.year < b.year
    || (a.year == b.year && a.monthIndex < b.monthIndex)
    || (a.year == b.year && a.monthIndex == b.monthIndex && a.day <= b.day)
  }

  /** `NotAfter` orders dates totally: reflexive, antisymmetric, transitive, and
      any two dates compare one way or the other. */
  lemma NotAfterTotalOrder(a: Date, b: Date, c: Date)
    ensures NotAfter(a, a)
    ensures NotAfter(a, b) && NotAfter(b, a) ==> a == b
    ensures NotAfter(a, b) && NotAfter(b, c) ==> NotAfter(a, c)
    ensures NotAfter(a, b) || NotAfter(b, a)
  {
  }

  /** A field value: absent (`undefined`), `null`, a string, a number, a date, or
      any other JSON value (a boolean, an array, an object, an invalid date). */
  datatype Value = Absent | Null | Text(text: string) | Number(number: int) | Moment(date: Date) | Other

  /** The 32 validated fields, in the order the record and its schema declare them. */
  datatype Field =
      Name
    | Email
    | CorporateEmail
    | Department
    | JobRole
    | JobFunction
    | Location
    | CompanyTenure
    | Gender
    | Generation
    | Level0Company
    | Level1Directorate
    | Level2Management
    | Level3Coordination
    | Level4Area
    | ResponseDate
    | JobInterest
    | JobInterestComments
    | Contribution
    | ContributionComments
    | LearningDevelopment
    | LearningDevelopmentComments
    | FeedbackScore
    | FeedbackComments
    | ManagerInteraction
    | ManagerInteractionComments
    | CareerClarity
    | CareerClarityComments
    | PermanenceExpectation
    | PermanenceExpectationComments
    | EnpsScore
    | EnpsOpenComments

  /** One survey response. The datatype constructor stores every argument in the
      same-named field, as the source's 33-argument constructor does. */
  datatype EmployeeFeedback = EmployeeFeedback(
    id: string,
    name: Value,
    email: Value,
    corporateEmail: Value,
    department: Value,
    jobRole: Value,
    jobFunction: Value,
    location: Value,
    companyTenure: Value,
    gender: Value,
    generation: Value,
    level0Company: Value,
    level1Directorate: Value,
    level2Management: Value,
    level3Coordination: Value,
    level4Area: Value,
    responseDate: Value,
    jobInterest: Value,
    jobInterestComments: Value,
    contribution: Value,
    contributionComments: Value,
    learningDevelopment: Value,
    learningDevelopmentComments: Value,
    feedbackScore: Value,
    feedbackComments: Value,
    managerInteraction: Value,
    managerInteractionComments: Value,
    careerClarity: Value,
    careerClarityComments: Value,
    permanenceExpectation: Value,
    permanenceExpectationComments: Value,
    enpsScore: Value,
    enpsOpenComments: Value
  ) {
    /** The value of field `f`. */
    function Get(f: Field): Value {
      match f
      case Name => name
      case Email => email
      case CorporateEmail => corporateEmail
      case Department => department
      case JobRole => jobRole
      case JobFunction => jobFunction
      case Location => location
      case CompanyTenure => companyTenure
      case Gender => gender
      case Generation => generation
      case Level0Company => level0Company
      case Level1Directorate => level1Directorate
      case Level2Management => level2Management
      case Level3Coordination => level3Coordination
      case Level4Area => level4Area
      case ResponseDate => responseDate
      case JobInterest => jobInterest
      case JobInterestComments => jobInterestComments
      case Contribution => contribution
      case ContributionComments => contributionComments
      case LearningDevelopment => learningDevelopment
      case LearningDevelopmentComments => learningDevelopmentComments
      case FeedbackScore => feedbackScore
      case FeedbackComments => feedbackComments
      case ManagerInteraction => managerInteraction
      case ManagerInteractionComments => managerInteractionComments
      case CareerClarity => careerClarity
      case CareerClarityComments => careerClarityComments
      case PermanenceExpectation => permanenceExpectation
      case PermanenceExpectationComments => permanenceExpectationComments
      case EnpsScore => enpsScore
      case EnpsOpenComments => enpsOpenComments
    }
  }

  /** The 32 fields in declaration order, which is also the schema's order. */
  const FIELDS: seq<Field> := [
    Name, Email, CorporateEmail, Department,
    JobRole, JobFunction, Location, CompanyTenure,
    Gender, Generation, Level0Company, Level1Directorate,
    Level2Management, Level3Coordination, Level4Area, ResponseDate,
    JobInterest, JobInterestComments, Contribution, ContributionComments,
    LearningDevelopment, LearningDevelopmentComments, FeedbackScore, FeedbackComments,
    ManagerInteraction, ManagerInteractionComments, CareerClarity, CareerClarityComments,
    PermanenceExpectation, PermanenceExpectationComments, EnpsScore, EnpsOpenComments
  ]

  /** The position of field `f` in `FIELDS`. */
  function Rank(f: Field): nat {
    match f
    case Name => 0
    case Email => 1
    case CorporateEmail => 2
    case Department => 3
    case JobRole => 4
    case JobFunction => 5
    case Location => 6
    case CompanyTenure => 7
    case Gender => 8
    case Generation => 9
    case Level0Company => 10
    case Level1Directorate => 11
    case Level2Management => 12
    case Level3Coordination => 13
    case Level4Area => 14
    case ResponseDate => 15
    case JobInterest => 16
    case JobInterestComments => 17
    case Contribution => 18
    case ContributionComments => 19
    case LearningDevelopment => 20
    case LearningDevelopmentComments => 21
    case FeedbackScore => 22
    case FeedbackComments => 23
    case ManagerInteraction => 24
    case ManagerInteractionComments => 25
    case CareerClarity => 26
    case CareerClarityComments => 27
    case PermanenceExpectation => 28
    case PermanenceExpectationComments => 29
    case EnpsScore => 30
    case EnpsOpenComments => 31
  }

  /** Every field is listed, and listed once: `Rank` and indexing are inverse. */
  lemma FieldsListed()
    ensures |FIELDS| == 32
    ensures forall f: Field :: Rank(f) < |FIELDS| && FIELDS[Rank(f)] == f
  {
    forall f: Field ensures Rank(f) < |FIELDS| && FIELDS[Rank(f)] == f {
      match f
        case Name => assert FIELDS[0] == Name;
        case Email => assert FIELDS[1] == Email;
        case CorporateEmail => assert FIELDS[2] == CorporateEmail;
        case Department => assert FIELDS[3] == Department;
        case JobRole => assert FIELDS[4] == JobRole;
        case JobFunction => assert FIELDS[5] == JobFunction;
        case Location => assert FIELDS[6] == Location;
        case CompanyTenure => assert FIELDS[7] == CompanyTenure;
        case Gender => assert FIELDS[8] == Gender;
        case Generation => assert FIELDS[9] == Generation;
        case Level0Company => assert FIELDS[10] == Level0Company;
        case Level1Directorate => assert FIELDS[11] == Level1Directorate;
        case Level2Management => assert FIELDS[12] == Level2Management;
        case Level3Coordination => assert FIELDS[13] == Level3Coordination;
        case Level4Area => assert FIELDS[14] == Level4Area;
        case ResponseDate => assert FIELDS[15] == ResponseDate;
        case JobInterest => assert FIELDS[16] == JobInterest;
        case JobInterestComments => assert FIELDS[17] == JobInterestComments;
        case Contribution => assert FIELDS[18] == Contribution;
        case ContributionComments => assert FIELDS[19] == ContributionComments;
        case LearningDevelopment => assert FIELDS[20] == LearningDevelopment;
        case LearningDevelopmentComments => assert FIELDS[21] == LearningDevelopmentComments;
        case FeedbackScore => assert FIELDS[22] == FeedbackScore;
        case FeedbackComments => assert FIELDS[23] == FeedbackComments;
        case ManagerInteraction => assert FIELDS[24] == ManagerInteraction;
        case ManagerInteractionComments => assert FIELDS[25] == ManagerInteractionComments;
        case CareerClarity => assert FIELDS[26] == CareerClarity;
        case CareerClarityComments => assert FIELDS[27] == CareerClarityComments;
        case PermanenceExpectation => assert FIELDS[28] == PermanenceExpectation;
        case PermanenceExpectationComments => assert FIELDS[29] == PermanenceExpectationComments;
        case EnpsScore => assert FIELDS[30] == EnpsScore;
        case EnpsOpenComments => assert FIELDS[31] == EnpsOpenComments;
    }
  }

  /** Each position of `FIELDS` holds the field of that rank. */
  lemma FieldsDistinct()
    ensures forall i :: 0 <= i < |FIELDS| ==> Rank(FIELDS[i]) == i
  {
    forall i | 0 <= i < |FIELDS| ensures Rank(FIELDS[i]) == i {
      if i < 8 {
        RanksFrom0(i);
      } else if i < 16 {
        RanksFrom8(i);
      } else if i < 24 {
        RanksFrom16(i);
      } else {
        RanksFrom24(i);
      }
    }
  }

  lemma RanksFrom0(i: int)
    requires 0 <= i < 8
    ensures Rank(FIELDS[i]) == i
  {
    if i == 0 {
      assert FIELDS[0] == Name;
    } else if i == 1 {
      assert FIELDS[1] == Email;
    } else if i == 2 {
      assert FIELDS[2] == CorporateEmail;
    } else if i == 3 {
      assert FIELDS[3] == Department;
    } else if i == 4 {
      assert FIELDS[4] == JobRole;
    } else if i == 5 {
      assert FIELDS[5] == JobFunction;
    } else if i == 6 {
      assert FIELDS[6] == Location;
    } else {
      assert FIELDS[7] == CompanyTenure;
    }
  }

  lemma RanksFrom8(i: int)
    requires 8 <= i < 16
    ensures Rank(FIELDS[i]) == i
  {
    if i == 8 {
      assert FIELDS[8] == Gender;
    } else if i == 9 {
      assert FIELDS[9] == Generation;
    } else if i == 10 {
      assert FIELDS[10] == Level0Company;
    } else if i == 11 {
      assert FIELDS[11] == Level1Directorate;
    } else if i == 12 {
      assert FIELDS[12] == Level2Management;
    } else if i == 13 {
      assert FIELDS[13] == Level3Coordination;
    } else if i == 14 {
      assert FIELDS[14] == Level4Area;
    } else {
      assert FIELDS[15] == ResponseDate;
    }
  }

  lemma RanksFrom16(i: int)
    requires 16 <= i < 24
    ensures Rank(FIELDS[i]) == i
  {
    if i == 16 {
      assert FIELDS[16] == JobInterest;
    } else if i == 17 {
      assert FIELDS[17] == JobInterestComments;
    } else if i == 18 {
      assert FIELDS[18] == Contribution;
    } else if i == 19 {
      assert FIELDS[19] == ContributionComments;
    } else if i == 20 {
      assert FIELDS[20] == LearningDevelopment;
    } else if i == 21 {
      assert FIELDS[21] == LearningDevelopmentComments;
    } else if i == 22 {
      assert FIELDS[22] == FeedbackScore;
    } else {
      assert FIELDS[23] == FeedbackComments;
    }
  }

  lemma RanksFrom24(i: int)
    requires 24 <= i < 32
    ensures Rank(FIELDS[i]) == i
  {
    if i == 24 {
      assert FIELDS[24] == ManagerInteraction;
    } else if i == 25 {
      assert FIELDS[25] == ManagerInteractionComments;
    } else if i == 26 {
      assert FIELDS[26] == CareerClarity;
    } else if i == 27 {
      assert FIELDS[27] == CareerClarityComments;
    } else if i == 28 {
      assert FIELDS[28] == PermanenceExpectation;
    } else if i == 29 {
      assert FIELDS[29] == PermanenceExpectationComments;
    } else if i == 30 {
      assert FIELDS[30] == EnpsScore;
    } else {
      assert FIELDS[31] == EnpsOpenComments;
    }
  }

  /** The property name of field `f`, as the messages quote it. */
  function FieldName(f: Field): string {
    match f
    case Name => "name"
    case Email => "email"
    case CorporateEmail => "corporateEmail"
    case Department => "department"
    case JobRole => "jobRole"
    case JobFunction => "jobFunction"
    case Location => "location"
    case CompanyTenure => "companyTenure"
    case Gender => "gender"
    case Generation => "generation"
    case Level0Company => "level0Company"
    case Level1Directorate => "level1Directorate"
    case Level2Management => "level2Management"
    case Level3Coordination => "level3Coordination"
    case Level4Area => "level4Area"
    case ResponseDate => "responseDate"
    case JobInterest => "jobInterest"
    case JobInterestComments => "jobInterestComments"
    case Contribution => "contribution"
    case ContributionComments => "contributionComments"
    case LearningDevelopment => "learningDevelopment"
    case LearningDevelopmentComments => "learningDevelopmentComments"
    case FeedbackScore => "feedbackScore"
    case FeedbackComments => "feedbackComments"
    case ManagerInteraction => "managerInteraction"
    case ManagerInteractionComments => "managerInteractionComments"
    case CareerClarity => "careerClarity"
    case CareerClarityComments => "careerClarityComments"
    case PermanenceExpectation => "permanenceExpectation"
    case PermanenceExpectationComments => "permanenceExpectationComments"
    case EnpsScore => "enpsScore"
    case EnpsOpenComments => "enpsOpenComments"
  }

  /** Two records agree on every validated field (their ids may differ). */
  predicate SameFields(a: EmployeeFeedback, b: EmployeeFeedback) {
    forall f: Field :: a.Get(f) == b.Get(f)
  }

  /** The id is not one of the 32 fields: a record with another id agrees with
      the original on every field. */
  lemma SameFieldsNewId(r: EmployeeFeedback, id: string)
    ensures SameFields(r.(id := id), r)
  {
    forall f: Field ensures r.(id := id).Get(f) == r.Get(f) {
    }
  }

  /** The record with the given id whose every field `f` holds `g(f)`. */
  function FromFields(id: string, g: Field --> Value): (r: EmployeeFeedback)
    requires forall f :: g.requires(f)
    ensures r.id == id
    ensures forall f :: r.Get(f) == g(f)
  {
    EmployeeFeedback(
      id,
      g(Name),
      g(Email),
      g(CorporateEmail),
      g(Department),
      g(JobRole),
      g(JobFunction),
      g(Location),
      g(CompanyTenure),
      g(Gender),
      g(Generation),
      g(Level0Company),
      g(Level1Directorate),
      g(Level2Management),
      g(Level3Coordination),
      g(Level4Area),
      g(ResponseDate),
      g(JobInterest),
      g(JobInterestComments),
      g(Contribution),
      g(ContributionComments),
      g(LearningDevelopment),
      g(LearningDevelopmentComments),
      g(FeedbackScore),
      g(FeedbackComments),
      g(ManagerInteraction),
      g(ManagerInteractionComments),
      g(CareerClarity),
      g(CareerClarityComments),
      g(PermanenceExpectation),
      g(PermanenceExpectationComments),
      g(EnpsScore),
      g(EnpsOpenComments))
  }
}
