/**
 * The list area of the dashboard once the directory has loaded: the rows of
 * the current page (with the pagination bar when there is more than one
 * page), or the message "No investors found matching your criteria." when
 * the current page is empty. Choosing a new value in a selector or typing in
 * the search box sets only that criterion; `currentPage` is left as it was.
 */
module Panel {
  import opened Investors
  import opened Filter
  import opened Pager
  import Arrays

  /** The criteria and the current page. */
  datatype PageState = PageState(criteria: Criteria, page: int)

  /** What the list area shows. */
  datatype Shown =
    | Rows(rows: seq<Investor>, paginated: bool)   // `currentInvestors.length > 0`
    | NoMatches                                     // "No investors found matching your criteria."

  /** The page on first render: no criteria, page 1. */
  const Start := PageState(Unfiltered, 1)

  /**
   * The list area for the loaded investors `xs`. On a page of at least 1,
   * the message appears exactly when nothing matches or the page lies past
   * the last page; otherwise the page's rows are shown, with the pagination
   * bar exactly when there is more than one page.
   */
  function Show(xs: seq<Investor>, st: PageState): (r: Shown)
    ensures var filtered := FilterInvestors(xs, st.criteria);
      st.page >= 1 ==>
        (r.NoMatches? <==> filtered == [] || st.page > TotalPages(|filtered|))
    ensures r.Rows? ==> var filtered := FilterInvestors(xs, st.criteria);
      && r.rows == PageItems(filtered, st.page)
      && r.rows != []
      && (r.paginated <==> TotalPages(|filtered|) > 1)
  {
    var filtered := FilterInvestors(xs, st.criteria);
    var rows := PageItems(filtered, st.page);
    if |rows| > 0 then Rows(rows, TotalPages(|filtered|) > 1) else NoMatches
  }

  /** A selector or the search box changes, as written: only the criteria change. */
  function SelectCriteria(st: PageState, c: Criteria): (r: PageState)
    ensures r.criteria == c
    ensures r.page == st.page
  {
    st.(criteria := c)
  }

  /** A selector or the search box changes, and the pager goes back to page 1. */
  function SelectCriteriaCorrected(st: PageState, c: Criteria): (r: PageState)
    ensures r.criteria == c
    ensures r.page == 1
  {
    PageState(c, 1)
  }

  /** A record for the example below, differing from the others only in its id and country. */
  function Row(id: Id, country: string): (r: Investor)
    ensures r.rowId == id && r.country == country
  {
    Investor(id, "A B", "A", "B", "Partner", "Fund", "Investor", country, "Fintech",
             "a@b.c", "1", "https://linkedin.com/in/ab", "https://fund.example", "Seed",
             "$1M", "Email", false)
  }

  /** Eleven investors with ids "a" to "k": the first in the UK, the other ten in the US. */
  function ElevenRows(): (xs: seq<Investor>)
    ensures |xs| == 11 && xs[0].country == "UK"
    ensures forall i :: 1 <= i < |xs| ==> xs[i].country == "US"
    ensures forall i :: 0 <= i < |xs| ==> xs[i].rowId == [('a' as int + i) as char]
  {
    var xs := seq(11, i requires 0 <= i < 11 => Row([('a' as int + i) as char], if i == 0 then "UK" else "US"));
    assert forall i :: 0 <= i < 11 ==> xs[i] == Row([('a' as int + i) as char], if i == 0 then "UK" else "US");
    xs
  }

  /** The example's rows have distinct ids, as row keys must. */
  lemma ElevenRowsHaveDistinctIds()
    ensures forall i, j :: 0 <= i < j < |ElevenRows()| ==> ElevenRows()[i].rowId != ElevenRows()[j].rowId
  {
    var xs := ElevenRows();
    forall i, j | 0 <= i < j < |xs|
      ensures xs[i].rowId != xs[j].rowId
    {
      assert xs[i].rowId[0] as int == 'a' as int + i;
      assert xs[j].rowId[0] as int == 'a' as int + j;
    }
  }

  /** With no criteria, a list of eleven records has a second page to show. */
  lemma SecondPageOfEleven(xs: seq<Investor>)
    requires |xs| == 11
    ensures Show(xs, PageState(Unfiltered, 2)).Rows?
  {
    UnfilteredIsIdentity(xs);
    assert TotalPages(|xs|) == 2;
  }

  /** When only the first record passes, the filter keeps exactly one record. */
  lemma OnlyFirstPasses(xs: seq<Investor>, c: Criteria)
    requires |xs| >= 1 && Satisfies(xs[0], c)
    requires forall i :: 1 <= i < |xs| ==> !Satisfies(xs[i], c)
    ensures |FilterInvestors(xs, c)| == 1
  {
    Arrays.FilterKeepingOnlyFirst(xs, inv => Matches(inv, c));
  }

  /**
   * As written: eleven investors, the second page open, one of them in the
   * UK. Choosing "UK" as the location leaves one match, yet the list area
   * shows the no-match message, and with it no pagination bar to go back.
   */
  lemma StalePageHidesMatches()
    ensures var before := PageState(Unfiltered, 2);
      var after := SelectCriteria(before, Unfiltered.(location := "UK"));
      && Show(ElevenRows(), before).Rows?
      && FilterInvestors(ElevenRows(), after.criteria) != []
      && Show(ElevenRows(), after) == NoMatches
  {
    var xs := ElevenRows();
    var c := Unfiltered.(location := "UK");
    SecondPageOfEleven(xs);
    assert Satisfies(xs[0], c) by {
      UnfilteredMatchesEverything(xs[0]);
      ExactTestsAgree(xs[0], c);
    }
    forall i | 1 <= i < |xs|
      ensures !Satisfies(xs[i], c)
    {
      ExactTestsAgree(xs[i], c);
    }
    OnlyFirstPasses(xs, c);
  }

  /**
   * Corrected: with the pager reset on every change of the criteria, the
   * no-match message appears exactly when nothing matches.
   */
  lemma CorrectedSelectionShowsMatches(xs: seq<Investor>, st: PageState, c: Criteria)
    ensures var shown := Show(xs, SelectCriteriaCorrected(st, c));
      shown.NoMatches? <==> FilterInvestors(xs, c) == []
  {
  }
}
