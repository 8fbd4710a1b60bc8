/**
 * The directory filter: a free-text search over four fields, four exact-match
 * selectors and a sector selector, each selector switched off by its
 * "All ..." sentinel, combined by conjunction and applied with an
 * order-preserving `Array.prototype.filter`.
 */
module Filter {
  import opened Text
  import opened Investors
  import Arrays

  const AllLocations := "All Locations"
  const AllSectors := "All Sectors"
  const AllStages := "All Stages"
  const AllTicketSizes := "All Ticket Sizes"
  const AllContactPreferences := "All Contact Preferences"

  /** The search box and the five selectors. */
  datatype Criteria = Criteria(
    search: string,
    location: string,
    sector: string,
    stage: string,
    ticketSize: string,
    contactPreference: string)

  /** The criteria the page starts with: empty search, every selector at its sentinel. */
  const Unfiltered := Criteria("", AllLocations, AllSectors, AllStages, AllTicketSizes, AllContactPreferences)

  /** The fields the search box looks in. */
  const SearchFields: set<Field> := {FullName, Headline, VentureCapitalName, Keywords}

  /** `field.toLowerCase().includes(query.toLowerCase())` */
  function IncludesIgnoringCase(field: string, query: string): (b: bool)
    ensures b <==> OccursIn(Lower(query), Lower(field))
  {
    Includes(Lower(field), Lower(query))
  }

  /** The search term occurs, ignoring case, in one of the searched fields. */
  function MatchesSearch(inv: Investor, query: string): (b: bool)
    ensures b <==> exists f :: f in SearchFields && OccursIn(Lower(query), Lower(Get(inv, f)))
  {
    assert Get(inv, FullName) == inv.fullName && Get(inv, Headline) == inv.headline;
    assert Get(inv, VentureCapitalName) == inv.ventureCapitalName && Get(inv, Keywords) == inv.keywords;
    || IncludesIgnoringCase(inv.fullName, query)
    || IncludesIgnoringCase(inv.headline, query)
    || IncludesIgnoringCase(inv.ventureCapitalName, query)
    || IncludesIgnoringCase(inv.keywords, query)
  }

  /**
   * The value an exact-match selector demands of field `f`, or `None` when
   * the selector is at its sentinel or `f` has no exact-match selector.
   */
  function ExactSelection(c: Criteria, f: Field): Option<string> {
    match f
    case Country => if c.location == AllLocations then None else Some(c.location)
    case InvestmentStage => if c.stage == AllStages then None else Some(c.stage)
    case TicketSize => if c.ticketSize == AllTicketSizes then None else Some(c.ticketSize)
    case ContactPreference =>
      if c.contactPreference == AllContactPreferences then None else Some(c.contactPreference)
    case _ => None
  }

  /** The sector the sector selector demands, or `None` at its sentinel. */
  function SectorSelection(c: Criteria): Option<string> {
    if c.sector == AllSectors then None else Some(c.sector)
  }

  /** The search term occurs, ignoring case, in one of the searched fields. */
  ghost predicate SearchSatisfied(inv: Investor, c: Criteria) {
    exists f :: f in SearchFields && OccursIn(Lower(c.search), Lower(Get(inv, f)))
  }

  /** Every active exact-match selector equals its field. */
  ghost predicate ExactSatisfied(inv: Investor, c: Criteria) {
    forall f :: ExactSelection(c, f).Some? ==> Get(inv, f) == ExactSelection(c, f).value
  }

  /** An active sector occurs, ignoring case, in the keywords. */
  ghost predicate SectorSatisfied(inv: Investor, c: Criteria) {
    SectorSelection(c).Some? ==> OccursIn(Lower(SectorSelection(c).value), Lower(inv.keywords))
  }

  /** What it means for a record to pass: all three kinds of constraint hold. */
  ghost predicate Satisfies(inv: Investor, c: Criteria) {
    SearchSatisfied(inv, c) && ExactSatisfied(inv, c) && SectorSatisfied(inv, c)
  }

  /** The four sentinel-guarded equality tests, written as the page writes them. */
  predicate MatchesExact(inv: Investor, c: Criteria)
    ensures MatchesExact(inv, c) <==> ExactSatisfied(inv, c)
  {
    var matchesLocation := c.location == AllLocations || inv.country == c.location;
    var matchesStage := c.stage == AllStages || inv.investmentStage == c.stage;
    var matchesTicketSize := c.ticketSize == AllTicketSizes || inv.ticketSize == c.ticketSize;
    var matchesContactPref :=
      c.contactPreference == AllContactPreferences || inv.contactPreference == c.contactPreference;
    ExactTestsAgree(inv, c);
    matchesLocation && matchesStage && matchesTicketSize && matchesContactPref
  }

  lemma ExactTestsAgree(inv: Investor, c: Criteria)
    ensures ExactSatisfied(inv, c) <==>
      && (c.location == AllLocations || inv.country == c.location)
      && (c.stage == AllStages || inv.investmentStage == c.stage)
      && (c.ticketSize == AllTicketSizes || inv.ticketSize == c.ticketSize)
      && (c.contactPreference == AllContactPreferences || inv.contactPreference == c.contactPreference)
  {
    assert Get(inv, Country) == inv.country;
    assert Get(inv, InvestmentStage) == inv.investmentStage;
    assert Get(inv, TicketSize) == inv.ticketSize;
    assert Get(inv, ContactPreference) == inv.contactPreference;
    if
      && (c.location == AllLocations || inv.country == c.location)
      && (c.stage == AllStages || inv.investmentStage == c.stage)
      && (c.ticketSize == AllTicketSizes || inv.ticketSize == c.ticketSize)
      && (c.contactPreference == AllContactPreferences || inv.contactPreference == c.contactPreference)
    {
      forall f | ExactSelection(c, f).Some?
        ensures Get(inv, f) == ExactSelection(c, f).value
      {
        assert f in {Country, InvestmentStage, TicketSize, ContactPreference};
      }
    }
  }

  /** The predicate passed to `investors.filter`. */
  predicate Matches(inv: Investor, c: Criteria)
    ensures Matches(inv, c) <==> Satisfies(inv, c)
  {
    var matchesSearch := MatchesSearch(inv, c.search);
    var matchesSector := c.sector == AllSectors || IncludesIgnoringCase(inv.keywords, c.sector);
    matchesSearch && MatchesExact(inv, c) && matchesSector
  }

  /** `investors.filter(investor => Matches(investor, c))` */
  function FilterInvestors(xs: seq<Investor>, c: Criteria): (r: seq<Investor>)
    ensures |r| <= |xs|
    ensures forall k :: 0 <= k < |r| ==> r[k] in xs && Satisfies(r[k], c)
    ensures forall i :: 0 <= i < |xs| && Satisfies(xs[i], c) ==> xs[i] in r
  {
    Arrays.Filter(xs, inv => Matches(inv, c))
  }

  /**
   * The filter result is exactly the records at the passing positions, in
   * their original order: nothing invented, nothing passing dropped,
   * nothing reordered.
   */
  lemma FilterSelectsMatchingPositions(xs: seq<Investor>, c: Criteria)
    ensures var r, idx := FilterInvestors(xs, c), Arrays.Kept(xs, inv => Matches(inv, c));
      && |idx| == |r|
      && (forall j, k :: 0 <= j < k < |idx| ==> idx[j] < idx[k])
      && (forall k :: 0 <= k < |r| ==> idx[k] < |xs| && r[k] == xs[idx[k]])
      && (forall i :: 0 <= i < |xs| ==> (Satisfies(xs[i], c) <==> i in idx))
  {
    Arrays.FilterSelectsKeptPositions(xs, inv => Matches(inv, c));
  }

  /** With every criterion at its default, every record passes. */
  lemma UnfilteredMatchesEverything(inv: Investor)
    ensures Matches(inv, Unfiltered)
  {
    assert Lower("") == "";
    IncludesEmpty(Lower(inv.fullName));
  }

  /** With every criterion at its default, the filter is the identity. */
  lemma UnfilteredIsIdentity(xs: seq<Investor>)
    ensures FilterInvestors(xs, Unfiltered) == xs
  {
    forall i | 0 <= i < |xs|
      ensures Matches(xs[i], Unfiltered)
    {
      UnfilteredMatchesEverything(xs[i]);
    }
    Arrays.FilterKeepingAll(xs, inv => Matches(inv, Unfiltered));
  }

  /** The search term and the sector are compared ignoring case. */
  lemma CriteriaIgnoreCase(inv: Investor, c: Criteria, search: string, sector: string)
    requires Lower(search) == Lower(c.search)
    requires Lower(sector) == Lower(c.sector)
    requires sector == AllSectors <==> c.sector == AllSectors
    ensures Matches(inv, c.(search := search, sector := sector)) == Matches(inv, c)
  {
  }

  /** A search for "fintech" finds every record whose headline mentions "Fintech". */
  lemma FintechSearchFindsHeadline(inv: Investor)
    requires OccursIn("Fintech", inv.headline)
    ensures MatchesSearch(inv, "fintech")
  {
    LowerKeepsOccurrence("Fintech", inv.headline);
    assert Lower("Fintech") == "fintech" == Lower("fintech");
    assert IncludesIgnoringCase(inv.headline, "fintech");
  }
}
