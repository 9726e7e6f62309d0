/** The pure part of the CSV seed import in `src/config/database/insertDataConfig.ts`:
    the value normalisers, the row-to-record mapping with its defaults, and the
    per-row skip rules. A row is a map from header to trimmed cell; a header the
    file lacks is absent from the map (the source reads `undefined`). The enum
    values of `src/domain/enums` are not part of this model; the constants below
    stand in for them under the enum members' names. */
module CsvImport {
  import opened Results
  import opened Strings
  import opened Feedback
  import opened Persistence

  // Department
  const ADMINISTRATION: string := "ADMINISTRATION"
  const COMMERCIAL: string := "COMMERCIAL"
  const FINANCE: string := "FINANCE"
  const HR: string := "HR"
  const TECHNOLOGY: string := "TECHNOLOGY"
  const MARKETING: string := "MARKETING"
  const OPERATIONS: string := "OPERATIONS"
  const LOGISTICS: string := "LOGISTICS"
  const LEGAL: string := "LEGAL"
  // Gender
  const MALE: string := "MALE"
  const FEMALE: string := "FEMALE"
  const OTHER: string := "OTHER"
  // CompanyTenure
  const LESS_THAN_1_YEAR: string := "LESS_THAN_1_YEAR"
  const LESS_THAN_2_YEARS: string := "LESS_THAN_2_YEARS"
  const LESS_THAN_3_YEARS: string := "LESS_THAN_3_YEARS"
  const LESS_THAN_4_YEARS: string := "LESS_THAN_4_YEARS"
  const LESS_THAN_5_YEARS: string := "LESS_THAN_5_YEARS"
  const LESS_THAN_6_YEARS: string := "LESS_THAN_6_YEARS"
  const LESS_THAN_8_YEARS: string := "LESS_THAN_8_YEARS"
  // Generation
  const GENERATION_ALPHA: string := "GENERATION_ALPHA"
  const GENERATION_Z: string := "GENERATION_Z"
  const GENERATION_Y: string := "GENERATION_Y"
  const GENERATION_X: string := "GENERATION_X"
  const BABY_BOOMERS: string := "BABY_BOOMERS"

  const AREA_MAP: map<string, string> := map[
    "administrativo" := ADMINISTRATION,
    "comercial" := COMMERCIAL,
    "financeiro" := FINANCE,
    "recursos humanos" := HR,
    "tecnologia" := TECHNOLOGY,
    "marketing" := MARKETING,
    "operações" := OPERATIONS,
    "logística" := LOGISTICS,
    "jurídico" := LEGAL]

  const GENDER_MAP: map<string, string> := map[
    "masculino" := MALE,
    "feminino" := FEMALE,
    "outro" := OTHER]

  const TENURE_MAP: map<string, string> := map[
    "menos de 1 ano" := LESS_THAN_1_YEAR,
    "entre 1 e 2 anos" := LESS_THAN_2_YEARS,
    "entre 2 e 3 anos" := LESS_THAN_3_YEARS,
    "entre 3 e 4 anos" := LESS_THAN_4_YEARS,
    "entre 2 e 5 anos" := LESS_THAN_5_YEARS,
    "entre 4 e 5 anos" := LESS_THAN_5_YEARS,
    "entre 5 e 6 anos" := LESS_THAN_6_YEARS,
    "mais de 5 anos" := LESS_THAN_8_YEARS]

  const GENERATION_MAP: map<string, string> := map[
    "geração alpha" := GENERATION_ALPHA,
    "geração z" := GENERATION_Z,
    "geração y" := GENERATION_Y,
    "geração x" := GENERATION_X,
    "baby boomers" := BABY_BOOMERS,
    "baby boomer" := BABY_BOOMERS]

  /** `table[s.toLowerCase()] || fallback`: the entry for the lower-cased input,
      or the fallback when there is none (every entry is a non-empty string). */
  function LookupOr(table: map<string, string>, s: string, fallback: string): (r: string)
    ensures Lower(s) in table && table[Lower(s)] != "" ==> r == table[Lower(s)]
    ensures Lower(s) !in table ==> r == fallback
    ensures r in table.Values || r == fallback
  {
    if Lower(s) in table && table[Lower(s)] != "" then table[Lower(s)] else fallback
  }

  /** The lookup ignores the case of its key: the input, its upper-cased and its
      lower-cased forms all find the same entry. */
  lemma LookupIgnoresCase(table: map<string, string>, s: string, fallback: string)
    ensures LookupOr(table, Upper(s), fallback) == LookupOr(table, s, fallback)
    ensures LookupOr(table, Lower(s), fallback) == LookupOr(table, s, fallback)
  {
    LowerForgetsCase(s);
  }

  /** `mapArea`: a known department name in any case, or the input unchanged. */
  function MapArea(area: string): string {
    LookupOr(AREA_MAP, area, area)
  }

  /** `mapGender`: a known gender in any case, or the input upper-cased. */
  function MapGender(gender: string): string {
    LookupOr(GENDER_MAP, gender, Upper(gender))
  }

  /** `mapCompanyTenure`: a known tenure band in any case, or the input unchanged. */
  function MapCompanyTenure(tenure: string): string {
    LookupOr(TENURE_MAP, tenure, tenure)
  }

  /** `mapGeneration`: a known generation in any case, or the input unchanged. */
  function MapGeneration(generation: string): string {
    LookupOr(GENERATION_MAP, generation, generation)
  }

  /** `parseNumber`: nothing for a missing, empty, `-` or blank cell or one that
      `parseInt` reads as `NaN`; otherwise the integer `parseInt` reads. */
  function ParseNumber(cell: Option<string>): (n: Option<int>)
    ensures cell.None? || cell == Some("") || cell == Some("-") ==> n.None?
    ensures cell.Some? && AllWhite(cell.value) ==> n.None?
    ensures cell.Some? && cell.value != "-" && !AllWhite(cell.value) ==> n == ParseInt(cell.value)
  {
    if cell.None? || cell.value == "" || cell.value == "-" then None
    else
      TrimEmptyIff(cell.value);
      if Trim(cell.value) == "" then None else ParseInt(cell.value)
  }

  /** `parseDate(s)`: `day/month/year` read with `parseInt` into
      `new Date(year, month - 1, day)`; a missing part or a `NaN` gives an
      invalid date, `None` here. */
  function ParseDate(s: string): Option<Date> {
    var parts := Split(s, '/');
    var day := ParseInt(parts[0]);
    var month := if |parts| > 1 then ParseInt(parts[1]) else None;
    var year := if |parts| > 2 then ParseInt(parts[2]) else None;
    if day.Some? && month.Some? && year.Some? then
      Some(Date(year.value, month.value - 1, day.value))
    else
      None
  }

  /** The response date as stored: the date `parseDate` reads, or an invalid
      date. */
  function DateValue(cell: string): (v: Value)
    ensures v.Other? <==> ParseDate(cell).None?
    ensures ParseDate(cell).Some? ==> v == Moment(ParseDate(cell).value)
  {
    match ParseDate(cell)
    case Some(d) => Moment(d)
    case None => Other
  }

  /** One data line: header to trimmed cell. */
  type Row = map<string, string>

  /** `row[key]`: `None` where the source reads `undefined`. */
  function Cell(row: Row, key: string): Option<string> {
    if key in row then Some(row[key]) else None
  }

  /** A cell JavaScript reads as true: present and not empty. */
  predicate Truthy(c: Option<string>) {
    c.Some? && c.value != ""
  }

  /** `row[key] || fallback`. */
  function CellOr(row: Row, key: string, fallback: string): (r: string)
    ensures Truthy(Cell(row, key)) ==> r == row[key]
    ensures !Truthy(Cell(row, key)) ==> r == fallback
  {
    if Truthy(Cell(row, key)) then row[key] else fallback
  }

  /** The CSV header each field is read from. */
  function Header(f: Field): string {
    match f
    case Name => "nome"
    case Email => "email"
    case CorporateEmail => "email_corporativo"
    case Department => "area"
    case JobRole => "cargo"
    case JobFunction => "funcao"
    case Location => "localidade"
    case CompanyTenure => "tempo_de_empresa"
    case Gender => "genero"
    case Generation => "geracao"
    case Level0Company => "n0_empresa"
    case Level1Directorate => "n1_diretoria"
    case Level2Management => "n2_gerencia"
    case Level3Coordination => "n3_coordenacao"
    case Level4Area => "n4_area"
    case ResponseDate => "Data da Resposta"
    case JobInterest => "Interesse no Cargo"
    case JobInterestComments => "Comentários - Interesse no Cargo"
    case Contribution => "Contribuição"
    case ContributionComments => "Comentários - Contribuição"
    case LearningDevelopment => "Aprendizado e Desenvolvimento"
    case LearningDevelopmentComments => "Comentários - Aprendizado e Desenvolvimento"
    case FeedbackScore => "Feedback"
    case FeedbackComments => "Comentários - Feedback"
    case ManagerInteraction => "Interação com Gestor"
    case ManagerInteractionComments => "Comentários - Interação com Gestor"
    case CareerClarity => "Clareza sobre Possibilidades de Carreira"
    case CareerClarityComments => "Comentários - Clareza sobre Possibilidades de Carreira"
    case PermanenceExpectation => "Expectativa de Permanência"
    case PermanenceExpectationComments => "Comentários - Expectativa de Permanência"
    case EnpsScore => "eNPS"
    case EnpsOpenComments => "[Aberta] eNPS"
  }

  /** A cell copied as is: text, or absent when the header is missing. */
  function CellValue(row: Row, key: string): Value {
    if key in row then Text(row[key]) else Absent
  }

  /** An optional score: the number `parseNumber` reads, or absent. */
  function OptionalScore(row: Row, key: string): Value {
    match ParseNumber(Cell(row, key))
    case Some(n) => Number(n)
    case None => Absent
  }

  /** A required score: `parseNumber(...) || 0`. */
  function RequiredScore(row: Row, key: string): (v: Value)
    ensures v.Number?
    ensures ParseNumber(Cell(row, key)).None? ==> v == Number(0)
  {
    Number(ParseNumber(Cell(row, key)).GetOr(0))
  }

  /** The headers whose cell goes through a `string` method and so must exist:
      `area`, `tempo_de_empresa`, `genero`, `geracao` and the response date. */
  predicate HasNeeded(row: Row) {
    "area" in row && "tempo_de_empresa" in row && "genero" in row && "geracao" in row
    && "Data da Resposta" in row
  }

  /** An organisation level or a comment: read with `row[header] || ''`. */
  predicate IsTextColumn(f: Field) {
    f.Level0Company? || f.Level1Directorate? || f.Level2Management? || f.Level3Coordination?
    || f.Level4Area? || f.JobInterestComments? || f.ContributionComments?
    || f.LearningDevelopmentComments? || f.FeedbackComments? || f.ManagerInteractionComments?
    || f.CareerClarityComments? || f.PermanenceExpectationComments? || f.EnpsOpenComments?
  }

  /** A required score: read with `parseNumber(row[header]) || 0`. */
  predicate IsRequiredScore(f: Field) {
    f.JobInterest? || f.LearningDevelopment? || f.CareerClarity?
  }

  /** An optional score: read with `parseNumber(row[header])`. */
  predicate IsOptionalScore(f: Field) {
    f.Contribution? || f.FeedbackScore? || f.ManagerInteraction? || f.PermanenceExpectation? || f.EnpsScore?
  }

  /** The value each field of the entity takes from a row: the object literal
      handed to `repository.create`. An unreadable response date is kept as an
      invalid date. */
  function FieldValue(row: Row, f: Field): Value
    requires HasNeeded(row)
  {
    match f
    case Name => CellValue(row, "nome")
    case Email => CellValue(row, "email")
    case CorporateEmail =>
      if Truthy(Cell(row, "email_corporativo")) then Text(row["email_corporativo"]) else CellValue(row, "email")
    case Department => Text(MapArea(row["area"]))
    case JobRole => CellValue(row, "cargo")
    case JobFunction => CellValue(row, "funcao")
    case Location => CellValue(row, "localidade")
    case CompanyTenure => Text(MapCompanyTenure(row["tempo_de_empresa"]))
    case Gender => Text(MapGender(row["genero"]))
    case Generation => Text(MapGeneration(row["geracao"]))
    case ResponseDate => DateValue(row["Data da Resposta"])
    case JobInterest => RequiredScore(row, "Interesse no Cargo")
    case LearningDevelopment => RequiredScore(row, "Aprendizado e Desenvolvimento")
    case CareerClarity => RequiredScore(row, "Clareza sobre Possibilidades de Carreira")
    case Contribution => OptionalScore(row, "Contribuição")
    case FeedbackScore => OptionalScore(row, "Feedback")
    case ManagerInteraction => OptionalScore(row, "Interação com Gestor")
    case PermanenceExpectation => OptionalScore(row, "Expectativa de Permanência")
    case EnpsScore => OptionalScore(row, "eNPS")
    case _ => Text(CellOr(row, Header(f), ""))  // the organisation levels and comments
  }

  /** The entity built from a row with a name and an email. `None` when a needed
      header is missing (the source throws a `TypeError`). */
  function BuildRecord(row: Row, id: string): (res: Option<EmployeeFeedback>)
    ensures res.Some? <==> HasNeeded(row)
    ensures res.Some? ==> res.value.id == id && forall f :: res.value.Get(f) == FieldValue(row, f)
  {
    if !HasNeeded(row) then None
    else Some(FromFields(id, f requires HasNeeded(row) => FieldValue(row, f)))
  }

  /** The built record has the row's id, and its corporate email is the
      `email_corporativo` cell when that is non-empty, the email otherwise. */
  lemma BuildRecordEmails(row: Row, id: string)
    requires HasNeeded(row)
    ensures BuildRecord(row, id).Some?
    ensures BuildRecord(row, id).value.id == id
    ensures BuildRecord(row, id).value.email == CellValue(row, "email")
    ensures Truthy(Cell(row, "email_corporativo")) ==>
              BuildRecord(row, id).value.corporateEmail == Text(row["email_corporativo"])
    ensures !Truthy(Cell(row, "email_corporativo")) ==>
              BuildRecord(row, id).value.corporateEmail == CellValue(row, "email")
  {
    var r := BuildRecord(row, id).value;
    assert r.Get(Email) == FieldValue(row, Email);
    assert r.Get(CorporateEmail) == FieldValue(row, CorporateEmail);
  }

  /** The built record holds a valid response date exactly when its cell reads
      as `day/month/year` numbers. */
  lemma BuildRecordDate(row: Row, id: string)
    requires HasNeeded(row)
    ensures BuildRecord(row, id).value.responseDate.Other? <==> ParseDate(row["Data da Resposta"]).None?
  {
    ResponseDateValue(row);
    assert BuildRecord(row, id).value.responseDate == BuildRecord(row, id).value.Get(ResponseDate);
  }

  lemma ResponseDateValue(row: Row)
    requires HasNeeded(row)
    ensures FieldValue(row, ResponseDate) == DateValue(row["Data da Resposta"])
  {}

  /** What became of one data line. */
  datatype Outcome = Inserted | SkippedIncomplete | SkippedDuplicate | Failed

  /** One iteration of the import loop: rows without a name or an email are
      skipped; so are rows whose email is stored already, and rows the unique
      constraints refuse (`23505`); a row that cannot be built or whose date is
      invalid counts as an error; any other is inserted. */
  function ImportRow(s: Store, row: Row, id: string): (out: (Store, Outcome))
    ensures out.1 != Inserted ==> out.0 == s
    ensures out.1 == Inserted ==> |out.0| == |s| + 1 && out.0[..|s|] == s
    ensures !Truthy(Cell(row, "nome")) || !Truthy(Cell(row, "email")) ==> out.1 == SkippedIncomplete
    ensures (Truthy(Cell(row, "nome")) && Truthy(Cell(row, "email"))
             && FindByEmail(s, ByEmail, Text(row["email"])).Some?) ==> out.1 == SkippedDuplicate
    ensures Truthy(Cell(row, "nome")) && Truthy(Cell(row, "email"))
            && FindByEmail(s, ByEmail, Text(row["email"])).None?
            && (!HasNeeded(row) || ParseDate(row["Data da Resposta"]).None?) ==>
              out == (s, Failed)
    ensures out.1 == Inserted ==> out.0 == s + [Stored(BuildRecord(row, id).value)]
    ensures Truthy(Cell(row, "nome")) && Truthy(Cell(row, "email"))
            && FindByEmail(s, ByEmail, Text(row["email"])).None?
            && HasNeeded(row) && ParseDate(row["Data da Resposta"]).Some?
            && (forall j :: 0 <= j < |s| ==> Conflict(s[j], BuildRecord(row, id).value).None?) ==>
              out.1 == Inserted
  {
    if HasNeeded(row) then
      BuildRecordDate(row, id);
      Screen(s, row, BuildRecord(row, id))
    else
      Screen(s, row, BuildRecord(row, id))
  }

  /** The skip rules and the `save` of the record built from the row (`None`
      when building it throws). */
  function Screen(s: Store, row: Row, built: Option<EmployeeFeedback>): (out: (Store, Outcome))
    ensures out.1 != Inserted ==> out.0 == s
    ensures out.1 == Inserted ==> |out.0| == |s| + 1 && out.0[..|s|] == s
    ensures !Truthy(Cell(row, "nome")) || !Truthy(Cell(row, "email")) ==> out.1 == SkippedIncomplete
    ensures (Truthy(Cell(row, "nome")) && Truthy(Cell(row, "email"))
             && FindByEmail(s, ByEmail, Text(row["email"])).Some?) ==> out.1 == SkippedDuplicate
    ensures out.1 == Inserted ==> built.Some? && Insert(s, built.value) == Success(out.0)
    ensures Truthy(Cell(row, "nome")) && Truthy(Cell(row, "email"))
            && FindByEmail(s, ByEmail, Text(row["email"])).None? ==>
              (built.None? || built.value.responseDate.Other? ==> out == (s, Failed))
              && (built.Some? && !built.value.responseDate.Other? && Insert(s, built.value).Failure? ==>
                    out == (s, SkippedDuplicate))
              && (built.Some? && !built.value.responseDate.Other? && Insert(s, built.value).Success? ==>
                    out == (s + [Stored(built.value)], Inserted))
  {
    if !Truthy(Cell(row, "nome")) || !Truthy(Cell(row, "email")) then (s, SkippedIncomplete)
    else if FindByEmail(s, ByEmail, Text(row["email"])).Some? then (s, SkippedDuplicate)
    else
      match built
      case None => (s, Failed)
      case Some(r) =>
        if r.responseDate.Other? then (s, Failed)
        else
          match Insert(s, r)
          case Failure(_) => (s, SkippedDuplicate)
          case Success(s') => (s', Inserted)
  }

  /** An import step, as `ImportRow` is: the table after one line, and what
      became of the line. */
  type Step = (Store, Row, string) -> (Store, Outcome)

  /** The running totals after one more line: the table it leaves, and the
      inserted and error counts, each grown by one when the line ended so. */
  function Tally(totals: (Store, nat, nat), after: (Store, Outcome)): (Store, nat, nat) {
    (after.0,
     if after.1 == Inserted then totals.1 + 1 else totals.1,
     if after.1 == Failed then totals.2 + 1 else totals.2)
  }

  /** `step` applied to the lines in order: the table after the last one, with
      the number of lines inserted and the number counted as errors. */
  function ImportAll(step: Step, s: Store, rows: seq<Row>, ids: seq<string>): (res: (Store, nat, nat))
    requires |ids| == |rows|
    ensures res.1 + res.2 <= |rows|
    decreases |rows|
  {
    if |rows| == 0 then (s, 0, 0)
    else
      var n := |rows| - 1;
      var before := ImportAll(step, s, rows[..n], ids[..n]);
      Tally(before, step(before.0, rows[n], ids[n]))
  }

  /** Importing one more line is one more step after the earlier ones. */
  lemma ImportAllStep(step: Step, s: Store, rows: seq<Row>, ids: seq<string>, i: nat)
    requires |ids| == |rows|
    requires i < |rows|
    ensures var before := ImportAll(step, s, rows[..i], ids[..i]);
            ImportAll(step, s, rows[..i + 1], ids[..i + 1]) == Tally(before, step(before.0, rows[i], ids[i]))
  {
    assert rows[..i + 1][..i] == rows[..i] && ids[..i + 1][..i] == ids[..i];
  }

  /** The import loop over the data lines, each with the id its row is stored
      under. A table that already holds rows is left alone; an empty one ends as
      `ImportRow` leaves it line after line. Rows are only ever appended: no
      stored row is overwritten, and the constraints keep holding. */
  method ImportRows(s: Store, rows: seq<Row>, ids: seq<string>) returns (t: Store, inserted: nat, errors: nat)
    requires WellFormed(s)
    requires |ids| == |rows|
    ensures |s| > 0 ==> t == s && inserted == 0 && errors == 0
    ensures |s| == 0 ==> (t, inserted, errors) == ImportAll(ImportRow, s, rows, ids)
    ensures WellFormed(t)
    ensures |t| == |s| + inserted
    ensures inserted + errors <= |rows|
  {
    t, inserted, errors := s, 0, 0;
    if |s| > 0 {
      return;
    }
    var i := 0;
    while i < |rows|
      invariant 0 <= i <= |rows|
      invariant WellFormed(t)
      invariant |t| == inserted
      invariant inserted + errors <= i
      invariant (t, inserted, errors) == ImportAll(ImportRow, s, rows[..i], ids[..i])
    {
      var after := ImportRow(t, rows[i], ids[i]);
      if after.1 == Inserted {
        ImportRowKeepsWellFormed(t, rows[i], ids[i]);
      }
      ImportAllStep(ImportRow, s, rows, ids, i);
      var totals := Tally((t, inserted, errors), after);
      t, inserted, errors := totals.0, totals.1, totals.2;
      i := i + 1;
    }
    assert rows[..i] == rows && ids[..i] == ids;
  }

  /** One import step keeps the unique constraints. */
  lemma ImportRowKeepsWellFormed(s: Store, row: Row, id: string)
    requires WellFormed(s)
    ensures WellFormed(ImportRow(s, row, id).0)
  {
    ScreenKeepsWellFormed(s, row, BuildRecord(row, id));
  }

  lemma ScreenKeepsWellFormed(s: Store, row: Row, built: Option<EmployeeFeedback>)
    requires WellFormed(s)
    ensures WellFormed(Screen(s, row, built).0)
  {
    if Screen(s, row, built).1 == Inserted {
      InsertKeepsWellFormed(s, built.value);
    }
  }

  /** `parseNumber` reads back every integer numeral. */
  lemma ParseNumberNumeral(n: int)
    ensures ParseNumber(Some(IntString(n))) == Some(n)
  {
    var t := IntString(n);
    ParseIntString(n);
    if n < 0 {
      assert t[1..] == Decimal(-n);
      assert t != "-" && !IsWhite(t[1]);
    } else {
      assert !IsWhite(t[0]);
    }
  }

  /** `parseDate` reads `day/month/year` back with a 0-based month. */
  lemma ParseDateNumerals(day: int, month: int, year: int)
    ensures ParseDate(IntString(day) + "/" + IntString(month) + "/" + IntString(year))
            == Some(Date(year, month - 1, day))
  {
    var a, b, c := IntString(day), IntString(month), IntString(year);
    NumeralHasNoSlash(day);
    NumeralHasNoSlash(month);
    NumeralHasNoSlash(year);
    SplitThree(a, b, c);
    ParseIntString(day);
    ParseIntString(month);
    ParseIntString(year);
    ParseDateOfParts(a + "/" + b + "/" + c, a, b, c, day, month, year);
  }

  /** `parseDate` of a text that splits into three readable parts. */
  lemma ParseDateOfParts(s: string, a: string, b: string, c: string, day: int, month: int, year: int)
    requires Split(s, '/') == [a, b, c]
    requires ParseInt(a) == Some(day) && ParseInt(b) == Some(month) && ParseInt(c) == Some(year)
    ensures ParseDate(s) == Some(Date(year, month - 1, day))
  {
    var parts := Split(s, '/');
    assert parts[0] == a && parts[1] == b && parts[2] == c;
    assert ParseInt(parts[0]) == Some(day);
    assert ParseInt(parts[1]) == Some(month);
    assert ParseInt(parts[2]) == Some(year);
  }

  /** Three slash-free parts joined with slashes split back into those parts. */
  lemma SplitThree(a: string, b: string, c: string)
    requires '/' !in a && '/' !in b && '/' !in c
    ensures Split(a + "/" + b + "/" + c, '/') == [a, b, c]
  {
    JoinThree(a, b, c);
    SplitJoin([a, b, c], '/');
  }

  lemma JoinThree(a: string, b: string, c: string)
    ensures Join([a, b, c], '/') == a + "/" + b + "/" + c
  {
    var parts := [a, b, c];
    assert parts[1..] == [b, c] && [b, c][1..] == [c];
    assert Join([c], '/') == c;
    assert Join([b, c], '/') == b + "/" + c;
  }

  lemma NumeralHasNoSlash(n: int)
    ensures '/' !in IntString(n)
  {
    var t := IntString(n);
    if n < 0 {
      assert forall i :: 1 <= i < |t| ==> t[i] == Decimal(-n)[i - 1];
    }
  }

  /** The department lookup ignores case, and any name it does not know comes
      back unchanged, case included. */
  lemma MapAreaCases(area: string)
    ensures Lower(area) in AREA_MAP ==> MapArea(Upper(area)) == MapArea(area) == AREA_MAP[Lower(area)]
    ensures Lower(area) !in AREA_MAP ==> MapArea(area) == area
  {
    LowerForgetsCase(area);
  }

  /** The gender lookup ignores case; a value it does not know comes back
      upper-cased, not unchanged. */
  lemma MapGenderCases(gender: string)
    ensures Lower(gender) in GENDER_MAP ==> MapGender(Upper(gender)) == MapGender(gender) == GENDER_MAP[Lower(gender)]
    ensures Lower(gender) !in GENDER_MAP ==> MapGender(gender) == Upper(gender)
    ensures Upper(MapGender(gender)) == MapGender(gender)
  {
    LowerForgetsCase(gender);
    UpperIdempotent(gender);
  }

  /** The tenure lookup ignores case, and any band it does not know comes back
      unchanged, case included. */
  lemma MapCompanyTenureCases(tenure: string)
    ensures Lower(tenure) in TENURE_MAP ==>
              MapCompanyTenure(Upper(tenure)) == MapCompanyTenure(tenure) == TENURE_MAP[Lower(tenure)]
    ensures Lower(tenure) !in TENURE_MAP ==> MapCompanyTenure(tenure) == tenure
  {
    LowerForgetsCase(tenure);
  }

  /** The generation lookup ignores case, and any generation it does not know
      comes back unchanged, case included. */
  lemma MapGenerationCases(generation: string)
    ensures Lower(generation) in GENERATION_MAP ==>
              MapGeneration(Upper(generation)) == MapGeneration(generation) == GENERATION_MAP[Lower(generation)]
    ensures Lower(generation) !in GENERATION_MAP ==> MapGeneration(generation) == generation
  {
    LowerForgetsCase(generation);
  }

  /** Two tenure bands share `LESS_THAN_5_YEARS`, and "mais de 5 anos" maps to
      `LESS_THAN_8_YEARS`. */
  lemma TenureAliases()
    ensures MapCompanyTenure("entre 2 e 5 anos") == LESS_THAN_5_YEARS
    ensures MapCompanyTenure("entre 4 e 5 anos") == LESS_THAN_5_YEARS
    ensures MapCompanyTenure("mais de 5 anos") == LESS_THAN_8_YEARS
  {
    LowerOfLowerCase("entre 2 e 5 anos");
    LowerOfLowerCase("entre 4 e 5 anos");
    LowerOfLowerCase("mais de 5 anos");
  }

  /** "baby boomers" and "baby boomer" both map to `BABY_BOOMERS`. */
  lemma GenerationAliases()
    ensures MapGeneration("baby boomers") == BABY_BOOMERS
    ensures MapGeneration("baby boomer") == BABY_BOOMERS
  {
    LowerOfLowerCase("baby boomers");
    LowerOfLowerCase("baby boomer");
  }

  /** Every organisation level and comment is its cell when that is non-empty,
      and the empty string when the cell is empty or the header missing. */
  lemma TextDefaults(row: Row, id: string, f: Field)
    requires HasNeeded(row)
    requires IsTextColumn(f)
    ensures Truthy(Cell(row, Header(f))) ==> BuildRecord(row, id).value.Get(f) == Text(row[Header(f)])
    ensures !Truthy(Cell(row, Header(f))) ==> BuildRecord(row, id).value.Get(f) == Text("")
  {
    TextField(row, f);
  }

  lemma TextField(row: Row, f: Field)
    requires HasNeeded(row)
    requires IsTextColumn(f)
    ensures FieldValue(row, f) == Text(CellOr(row, Header(f), ""))
  {
    match f
    case Level0Company =>
    case Level1Directorate =>
    case Level2Management =>
    case Level3Coordination =>
    case Level4Area =>
    case JobInterestComments =>
    case ContributionComments =>
    case LearningDevelopmentComments =>
    case FeedbackComments =>
    case ManagerInteractionComments =>
    case CareerClarityComments =>
    case PermanenceExpectationComments =>
    case EnpsOpenComments =>
  }

  /** Every required score is the number its cell reads as, and 0 when the cell
      is missing, blank, `-` or unreadable. */
  lemma RequiredScoreDefaults(row: Row, id: string, f: Field)
    requires HasNeeded(row)
    requires IsRequiredScore(f)
    ensures ParseNumber(Cell(row, Header(f))).Some? ==>
              BuildRecord(row, id).value.Get(f) == Number(ParseNumber(Cell(row, Header(f))).value)
    ensures ParseNumber(Cell(row, Header(f))).None? ==> BuildRecord(row, id).value.Get(f) == Number(0)
  {
    RequiredScoreField(row, f);
  }

  lemma RequiredScoreField(row: Row, f: Field)
    requires HasNeeded(row)
    requires IsRequiredScore(f)
    ensures ParseNumber(Cell(row, Header(f))).Some? ==>
              FieldValue(row, f) == Number(ParseNumber(Cell(row, Header(f))).value)
    ensures ParseNumber(Cell(row, Header(f))).None? ==> FieldValue(row, f) == Number(0)
  {
    match f
    case JobInterest =>
    case LearningDevelopment =>
    case CareerClarity =>
  }

  /** Every optional score is the number its cell reads as, and absent (stored as
      NULL) when the cell is missing, blank, `-` or unreadable. */
  lemma OptionalScoreDefaults(row: Row, id: string, f: Field)
    requires HasNeeded(row)
    requires IsOptionalScore(f)
    ensures ParseNumber(Cell(row, Header(f))).Some? ==>
              BuildRecord(row, id).value.Get(f) == Number(ParseNumber(Cell(row, Header(f))).value)
    ensures ParseNumber(Cell(row, Header(f))).None? ==> BuildRecord(row, id).value.Get(f) == Absent
  {
    OptionalScoreField(row, f);
  }

  lemma OptionalScoreField(row: Row, f: Field)
    requires HasNeeded(row)
    requires IsOptionalScore(f)
    ensures ParseNumber(Cell(row, Header(f))).Some? ==>
              FieldValue(row, f) == Number(ParseNumber(Cell(row, Header(f))).value)
    ensures ParseNumber(Cell(row, Header(f))).None? ==> FieldValue(row, f) == Absent
  {
    match f
    case Contribution =>
    case FeedbackScore =>
    case ManagerInteraction =>
    case PermanenceExpectation =>
    case EnpsScore =>
  }

  /** A row whose email is stored already is skipped and overwrites nothing. */
  lemma DuplicateEmailSkipped(s: Store, row: Row, id: string, stored: EmployeeFeedback)
    requires stored in s
    requires Truthy(Cell(row, "nome")) && Truthy(Cell(row, "email"))
    requires stored.email == Text(row["email"])
    ensures ImportRow(s, row, id) == (s, SkippedDuplicate)
  {
    var j :| 0 <= j < |s| && s[j] == stored;
    assert EmailOf(s[j], ByEmail) == Text(row["email"]);
  }
}
