/**
 * The investor record as the directory page holds it: the summary row the
 * list endpoint returns, the `isRevealing` flag the page adds to it, and the
 * detail record a per-investor fetch returns, merged in by object spread.
 */
module Investors {

  /** The opaque `row_id` that keys rows, reveal state and detail fetches. */
  type Id = string

  datatype Option<T> = None | Some(value: T)

  /** The text-valued keys of an investor object. */
  datatype Field =
    | RowId | FullName | FirstName | LastName | Title | VentureCapitalName
    | Headline | Country | Keywords | Email | Phone | LinkedinUrl | Website
    | InvestmentStage | TicketSize | ContactPreference

  /** A row of the directory. Every text field is present. */
  datatype Investor = Investor(
    rowId: Id,
    fullName: string,
    firstName: string,
    lastName: string,
    title: string,
    ventureCapitalName: string,
    headline: string,
    country: string,
    keywords: string,
    email: string,
    phone: string,
    linkedinUrl: string,
    website: string,
    investmentStage: string,
    ticketSize: string,
    contactPreference: string,
    isRevealing: bool)

  /** A detail record: any subset of the keys, each overriding the summary value. */
  datatype Detail = Detail(
    rowId: Option<Id>,
    fullName: Option<string>,
    firstName: Option<string>,
    lastName: Option<string>,
    title: Option<string>,
    ventureCapitalName: Option<string>,
    headline: Option<string>,
    country: Option<string>,
    keywords: Option<string>,
    email: Option<string>,
    phone: Option<string>,
    linkedinUrl: Option<string>,
    website: Option<string>,
    investmentStage: Option<string>,
    ticketSize: Option<string>,
    contactPreference: Option<string>)

  /** `investor[f]` */
  function Get(inv: Investor, f: Field): string {
    match f
    case RowId => inv.rowId
    case FullName => inv.fullName
    case FirstName => inv.firstName
    case LastName => inv.lastName
    case Title => inv.title
    case VentureCapitalName => inv.ventureCapitalName
    case Headline => inv.headline
    case Country => inv.country
    case Keywords => inv.keywords
    case Email => inv.email
    case Phone => inv.phone
    case LinkedinUrl => inv.linkedinUrl
    case Website => inv.website
    case InvestmentStage => inv.investmentStage
    case TicketSize => inv.ticketSize
    case ContactPreference => inv.contactPreference
  }

  /** `detail[f]`, `None` when the detail record lacks the key. */
  function Lookup(d: Detail, f: Field): Option<string> {
    match f
    case RowId => d.rowId
    case FullName => d.fullName
    case FirstName => d.firstName
    case LastName => d.lastName
    case Title => d.title
    case VentureCapitalName => d.ventureCapitalName
    case Headline => d.headline
    case Country => d.country
    case Keywords => d.keywords
    case Email => d.email
    case Phone => d.phone
    case LinkedinUrl => d.linkedinUrl
    case Website => d.website
    case InvestmentStage => d.investmentStage
    case TicketSize => d.ticketSize
    case ContactPreference => d.contactPreference
  }

  function Override(base: string, o: Option<string>): string {
    match o
    case Some(v) => v
    case None => base
  }

  /**
   * `{ ...investor, ...detail, isRevealing: true }`: every key the detail
   * carries wins, every other key keeps the summary value, and the row is
   * flagged as revealing.
   */
  function Merge(inv: Investor, d: Detail): (r: Investor)
    ensures r.isRevealing
    ensures forall f :: Lookup(d, f).Some? ==> Get(r, f) == Lookup(d, f).value
    ensures forall f :: Lookup(d, f).None? ==> Get(r, f) == Get(inv, f)
  {
    Investor(
      Override(inv.rowId, d.rowId),
      Override(inv.fullName, d.fullName),
      Override(inv.firstName, d.firstName),
      Override(inv.lastName, d.lastName),
      Override(inv.title, d.title),
      Override(inv.ventureCapitalName, d.ventureCapitalName),
      Override(inv.headline, d.headline),
      Override(inv.country, d.country),
      Override(inv.keywords, d.keywords),
      Override(inv.email, d.email),
      Override(inv.phone, d.phone),
      Override(inv.linkedinUrl, d.linkedinUrl),
      Override(inv.website, d.website),
      Override(inv.investmentStage, d.investmentStage),
      Override(inv.ticketSize, d.ticketSize),
      Override(inv.contactPreference, d.contactPreference),
      true)
  }

  /** Two investors that agree on every key and on the flag are the same row. */
  lemma Extensionality(a: Investor, b: Investor)
    requires forall f :: Get(a, f) == Get(b, f)
    requires a.isRevealing == b.isRevealing
    ensures a == b
  {
    assert Get(a, RowId) == Get(b, RowId);
    assert Get(a, FullName) == Get(b, FullName);
    assert Get(a, FirstName) == Get(b, FirstName);
    assert Get(a, LastName) == Get(b, LastName);
    assert Get(a, Title) == Get(b, Title);
    assert Get(a, VentureCapitalName) == Get(b, VentureCapitalName);
    assert Get(a, Headline) == Get(b, Headline);
    assert Get(a, Country) == Get(b, Country);
    assert Get(a, Keywords) == Get(b, Keywords);
    assert Get(a, Email) == Get(b, Email);
    assert Get(a, Phone) == Get(b, Phone);
    assert Get(a, LinkedinUrl) == Get(b, LinkedinUrl);
    assert Get(a, Website) == Get(b, Website);
    assert Get(a, InvestmentStage) == Get(b, InvestmentStage);
    assert Get(a, TicketSize) == Get(b, TicketSize);
    assert Get(a, ContactPreference) == Get(b, ContactPreference);
  }

  /** Spreading the same detail record twice changes nothing the second time. */
  lemma MergeIdempotent(inv: Investor, d: Detail)
    ensures Merge(Merge(inv, d), d) == Merge(inv, d)
  {
  }

  /** A detail record that carries every key determines the merged row alone. */
  lemma CompleteDetailOverridesSummary(a: Investor, b: Investor, d: Detail)
    requires forall f :: Lookup(d, f).Some?
    ensures Merge(a, d) == Merge(b, d)
  {
    forall f
      ensures Get(Merge(a, d), f) == Get(Merge(b, d), f)
    {
    }
    Extensionality(Merge(a, d), Merge(b, d));
  }

  /** The merged row keeps its identifier unless the detail record names a different one. */
  lemma MergeKeepsId(inv: Investor, d: Detail)
    ensures Merge(inv, d).rowId == inv.rowId <==> d.rowId.None? || d.rowId.value == inv.rowId
  {
    assert Get(Merge(inv, d), RowId) == Merge(inv, d).rowId;
  }
}
