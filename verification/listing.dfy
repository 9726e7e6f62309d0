/** The adapter's `findAll`: optional filters ANDed together over the table,
    then a page of the matches, with the number of all matches. Filters follow
    the query builder: a string filter takes part only when it is a non-empty
    string (JavaScript truthiness), a date bound whenever it is given. Paging
    follows the query builder as well: `skip` and `take` emit `OFFSET` and `LIMIT`
    only when they are non-zero, and the database rejects a negative one. */
module Listing {
  import opened Results
  import opened Strings
  import opened Feedback
  import opened Persistence

  const DEFAULT_PAGE: int := 1
  const DEFAULT_LIMIT: int := 15

  /** The eleven optional listing parameters. */
  datatype Params = Params(
    page: Option<int>,
    limit: Option<int>,
    department: Option<string>,
    jobRole: Option<string>,
    location: Option<string>,
    gender: Option<string>,
    companyTenure: Option<string>,
    generation: Option<string>,
    dateFrom: Option<Date>,
    dateTo: Option<Date>,
    search: Option<string>)

  /** One page of the listing: `data`, `total`, `page`, `limit`. */
  datatype Page = Page(data: seq<EmployeeFeedback>, total: nat, page: int, limit: int)

  /** A string parameter takes part in the query: given and not empty. */
  predicate Given(o: Option<string>) {
    o.Some? && o.value != ""
  }

  /** `column = :value`, when the parameter takes part; a NULL column never
      equals a value. */
  predicate EqualsFilter(v: Value, o: Option<string>) {
    Given(o) ==> v == Text(o.value)
  }

  /** `response_date >= :dateFrom` and `response_date <= :dateTo`, each when given. */
  predicate InDateRange(v: Value, from: Option<Date>, to: Option<Date>) {
    (from.Some? ==> v.Moment? && NotAfter(from.value, v.date))
    && (to.Some? ==> v.Moment? && NotAfter(v.date, to.value))
  }

  /** `column ILIKE '%search%'`: the text contains `search`, ignoring case. */
  predicate Like(v: Value, search: string) {
    v.Text? && ContainsIgnoringCase(v.text, search)
  }

  /** The eight comment fields the search looks in. */
  const COMMENT_FIELDS: seq<Field> := [
    JobInterestComments, ContributionComments, LearningDevelopmentComments, FeedbackComments,
    ManagerInteractionComments, CareerClarityComments, PermanenceExpectationComments, EnpsOpenComments]

  /** The search group: any of the eight comment fields matches. */
  predicate SearchMatches(r: EmployeeFeedback, search: Option<string>) {
    Given(search) ==> exists i :: 0 <= i < |COMMENT_FIELDS| && Like(r.Get(COMMENT_FIELDS[i]), search.value)
  }

  /** All the `WHERE` conditions of the query. */
  predicate Matches(p: Params, r: EmployeeFeedback) {
    EqualsFilter(r.department, p.department)
    && EqualsFilter(r.jobRole, p.jobRole)
    && EqualsFilter(r.location, p.location)
    && EqualsFilter(r.gender, p.gender)
    && EqualsFilter(r.companyTenure, p.companyTenure)
    && EqualsFilter(r.generation, p.generation)
    && InDateRange(r.responseDate, p.dateFrom, p.dateTo)
    && SearchMatches(r, p.search)
  }

  /** The rows that satisfy the query, in table order. */
  function Select(s: Store, p: Params): (ms: Store)
    ensures |ms| <= |s|
    ensures forall r :: r in ms <==> r in s && Matches(p, r)
    decreases |s|
  {
    if |s| == 0 then []
    else if Matches(p, s[0]) then [s[0]] + Select(s[1..], p)
    else Select(s[1..], p)
  }

  /** The rows an `OFFSET skip LIMIT take` leaves, where zero means the clause is
      not emitted. */
  function Window(ms: Store, skip: nat, take: nat): (w: Store)
    ensures take > 0 ==> |w| <= take
    ensures skip < |ms| && take > 0 ==> |w| == if skip + take <= |ms| then take else |ms| - skip
    ensures skip < |ms| ==> skip + |w| <= |ms| && forall i :: 0 <= i < |w| ==> w[i] == ms[skip + i]
    ensures skip >= |ms| ==> w == []
    ensures take == 0 ==> |w| == if skip < |ms| then |ms| - skip else 0
  {
    var start := if skip < |ms| then skip else |ms|;
    var end := if take == 0 || start + take > |ms| then |ms| else start + take;
    ms[start..end]
  }

  /** `findAll`: page and limit default to 1 and 15 only when absent; the page
      starts after `(page - 1) * limit` matches; `total` counts every match. */
  function FindAll(s: Store, p: Params): (res: Result<Page, StoreError>)
    ensures var page := p.page.GetOr(DEFAULT_PAGE);
            var limit := p.limit.GetOr(DEFAULT_LIMIT);
            res.Failure? <==> limit < 0 || (page - 1) * limit < 0
    ensures res.Failure? ==> res.error == NegativeBound
    ensures res.Success? ==> res.value.page == p.page.GetOr(DEFAULT_PAGE)
    ensures res.Success? ==> res.value.limit == p.limit.GetOr(DEFAULT_LIMIT)
    ensures res.Success? ==> res.value.total == |Select(s, p)| && |res.value.data| <= res.value.total
    ensures res.Success? ==> forall r :: r in res.value.data ==> r in s && Matches(p, r)
  {
    var page := p.page.GetOr(DEFAULT_PAGE);
    var limit := p.limit.GetOr(DEFAULT_LIMIT);
    var skip := (page - 1) * limit;
    if limit < 0 || skip < 0 then Failure(NegativeBound)
    else
      var ms := Select(s, p);
      Success(Page(Window(ms, skip, limit), |ms|, page, limit))
  }

  /** Queries that accept the same rows select the same rows, in the same order. */
  lemma {:induction false} SameQuerySameSelect(s: Store, p: Params, q: Params)
    requires forall r :: Matches(p, r) <==> Matches(q, r)
    ensures Select(s, p) == Select(s, q)
    decreases |s|
  {
    if |s| > 0 {
      SameQuerySameSelect(s[1..], p, q);
    }
  }

  /** `total` is independent of `page` and `limit`: any two accepted requests
      that differ only in paging report the same total. */
  lemma TotalIgnoresPaging(s: Store, p: Params, page: Option<int>, limit: Option<int>)
    requires FindAll(s, p).Success?
    requires FindAll(s, p.(page := page, limit := limit)).Success?
    ensures FindAll(s, p.(page := page, limit := limit)).value.total == FindAll(s, p).value.total
  {
    SameQuerySameSelect(s, p, p.(page := page, limit := limit));
  }

  /** The page is the contiguous run of matches that starts after
      `(page - 1) * limit` of them, at most `limit` long. */
  lemma PageIsSlice(s: Store, p: Params)
    requires FindAll(s, p).Success?
    requires FindAll(s, p).value.limit > 0
    ensures var res := FindAll(s, p).value;
            var ms := Select(s, p);
            var skip := (res.page - 1) * res.limit;
            skip < |ms| ==>
              res.data == ms[skip..if skip + res.limit <= |ms| then skip + res.limit else |ms|]
  {
    var page := p.page.GetOr(DEFAULT_PAGE);
    var limit := p.limit.GetOr(DEFAULT_LIMIT);
    var skip := (page - 1) * limit;
    var ms := Select(s, p);
    assert FindAll(s, p).value.data == Window(ms, skip, limit);
  }

  /** Every match is on exactly the page its position says: with a positive
      limit, match `k` is item `k % limit` of page `k / limit + 1`. */
  lemma MatchOnItsPage(s: Store, p: Params, limit: int, k: nat)
    requires limit > 0
    requires k < |Select(s, p)|
    ensures var q := p.(page := Some(k / limit + 1), limit := Some(limit));
            FindAll(s, q).Success? &&
            k % limit < |FindAll(s, q).value.data| &&
            FindAll(s, q).value.data[k % limit] == Select(s, p)[k]
  {
    var q := p.(page := Some(k / limit + 1), limit := Some(limit));
    SameQuerySameSelect(s, p, q);
    var ms := Select(s, p);
    var skip := (k / limit + 1 - 1) * limit;
    PageStart(k, limit);
    assert FindAll(s, q).value.data == Window(ms, skip, limit);
  }

  /** Arithmetic behind `MatchOnItsPage`: page `k / limit + 1` starts at a
      multiple of `limit` at most `k`, `k % limit` items before it. */
  lemma PageStart(k: nat, limit: int)
    requires limit > 0
    ensures 0 <= (k / limit + 1 - 1) * limit <= k
    ensures (k / limit + 1 - 1) * limit + k % limit == k
  {
    assert k / limit + 1 - 1 == k / limit;
  }

  /** Twenty matches with the default limit: the first page holds fifteen, the
      second the remaining five. */
  lemma TwentyMatchesTwoPages(s: Store, p: Params)
    requires |Select(s, p)| == 20
    requires p.limit.None?
    ensures |FindAll(s, p.(page := None)).value.data| == 15
    ensures |FindAll(s, p.(page := Some(2))).value.data| == 5
    ensures FindAll(s, p.(page := Some(2))).value.total == 20
  {
    SameQuerySameSelect(s, p, p.(page := None));
    SameQuerySameSelect(s, p, p.(page := Some(2)));
  }

  /** A string parameter with the empty string dropped: what the query builder
      actually sees. */
  function Drop(o: Option<string>): (d: Option<string>)
    ensures Given(d) <==> Given(o)
    ensures d != Some("")
    ensures d.Some? ==> d == o
  {
    if o == Some("") then None else o
  }

  /** The parameters with every empty string filter dropped. */
  function Normalize(p: Params): (q: Params)
    ensures q.page == p.page && q.limit == p.limit
    ensures q.dateFrom == p.dateFrom && q.dateTo == p.dateTo
    ensures forall r :: Matches(q, r) <==> Matches(p, r)
  {
    p.(department := Drop(p.department), jobRole := Drop(p.jobRole), location := Drop(p.location),
       gender := Drop(p.gender), companyTenure := Drop(p.companyTenure),
       generation := Drop(p.generation), search := Drop(p.search))
  }

  /** An empty string filter is not applied: the listing with every empty string
      filter dropped selects the same rows, in the same order. */
  lemma EmptyFilterIgnored(s: Store, p: Params)
    ensures Select(s, Normalize(p)) == Select(s, p)
  {
    SameQuerySameSelect(s, Normalize(p), p);
  }

  /** Each of the seven string filters, set to the empty string, selects as if
      it were absent. */
  lemma EachEmptyFilterIgnored(s: Store, p: Params)
    ensures Select(s, p.(department := Some(""))) == Select(s, p.(department := None))
    ensures Select(s, p.(jobRole := Some(""))) == Select(s, p.(jobRole := None))
    ensures Select(s, p.(location := Some(""))) == Select(s, p.(location := None))
    ensures Select(s, p.(gender := Some(""))) == Select(s, p.(gender := None))
    ensures Select(s, p.(companyTenure := Some(""))) == Select(s, p.(companyTenure := None))
    ensures Select(s, p.(generation := Some(""))) == Select(s, p.(generation := None))
    ensures Select(s, p.(search := Some(""))) == Select(s, p.(search := None))
  {
    SameQuerySameSelect(s, p.(department := Some("")), p.(department := None));
    SameQuerySameSelect(s, p.(jobRole := Some("")), p.(jobRole := None));
    SameQuerySameSelect(s, p.(location := Some("")), p.(location := None));
    SameQuerySameSelect(s, p.(gender := Some("")), p.(gender := None));
    SameQuerySameSelect(s, p.(companyTenure := Some("")), p.(companyTenure := None));
    SameQuerySameSelect(s, p.(generation := Some("")), p.(generation := None));
    SameQuerySameSelect(s, p.(search := Some("")), p.(search := None));
  }

  /** The search ignores case: searching the upper-cased text selects the same
      rows. */
  lemma SearchIgnoresCase(s: Store, p: Params, text: string)
    ensures Select(s, p.(search := Some(Upper(text)))) == Select(s, p.(search := Some(text)))
  {
    LowerForgetsCase(text);
    SameQuerySameSelect(s, p.(search := Some(Upper(text))), p.(search := Some(text)));
  }

  /** A selected row lies within the date bounds: with `dateFrom` given its
      response date is a date on or after it, with `dateTo` given one on or
      before it. A row without a valid date is never selected by a bounded query. */
  lemma SelectedWithinDates(s: Store, p: Params, r: EmployeeFeedback)
    requires r in Select(s, p)
    ensures p.dateFrom.Some? ==> r.responseDate.Moment? && NotAfter(p.dateFrom.value, r.responseDate.date)
    ensures p.dateTo.Some? ==> r.responseDate.Moment? && NotAfter(r.responseDate.date, p.dateTo.value)
  {
    assert Matches(p, r);
  }

  /** The converse of `SelectedWithinDates`, with inclusive bounds: a stored row
      that passes the other filters and whose valid response date lies on or
      between the given bounds, the bound days included, is selected. */
  lemma DateBoundsInclusive(s: Store, p: Params, r: EmployeeFeedback)
    requires r in s
    requires Matches(p.(dateFrom := None, dateTo := None), r)
    requires r.responseDate.Moment?
    requires p.dateFrom.Some? ==> NotAfter(p.dateFrom.value, r.responseDate.date)
    requires p.dateTo.Some? ==> NotAfter(r.responseDate.date, p.dateTo.value)
    ensures r in Select(s, p)
  {
    assert Matches(p, r);
  }
}
