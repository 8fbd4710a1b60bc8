/**
 * The option lists of the Location and Sector drop-downs, derived from the
 * loaded rows: distinct countries, and distinct trimmed tags of the
 * comma-separated keywords, each list headed by its "All ..." sentinel and
 * stripped of empty strings.
 */
module Options {
  import opened Text
  import opened Investors
  import Arrays
  import Filter

  /** The separator `Keywords` is split on. */
  const Separator: string := ", "

  /** `new Set(xs)` read back in insertion order. */
  function Distinct(xs: seq<string>): (r: seq<string>)
    ensures forall x :: x in r <==> x in xs
    ensures forall i, j :: 0 <= i < j < |r| ==> r[i] != r[j]
    decreases |xs|
  {
    if xs == [] then []
    else
      var r := Distinct(xs[..|xs| - 1]);
      assert forall x :: x in xs <==> x in xs[..|xs| - 1] || x == xs[|xs| - 1];
      if xs[|xs| - 1] in r then r else r + [xs[|xs| - 1]]
  }

  /** `parts.join(", ")` */
  function Join(parts: seq<string>): string
    requires |parts| >= 1
    decreases |parts|
  {
    if |parts| == 1 then parts[0] else parts[0] + Separator + Join(parts[1..])
  }

  /** Prepending a character to the first part prepends it to the joined string. */
  lemma {:induction false} JoinPrepend(c: char, parts: seq<string>)
    requires |parts| >= 1
    ensures Join([[c] + parts[0]] + parts[1..]) == [c] + Join(parts)
  {
    var ps := [[c] + parts[0]] + parts[1..];
    if |parts| == 1 {
      assert Join(ps) == ps[0];
    } else {
      assert ps[1..] == parts[1..];
      assert Join(ps) == ps[0] + Separator + Join(parts[1..]);
      assert Join(parts) == parts[0] + Separator + Join(parts[1..]);
    }
  }

  /** A separator-free string stays separator-free behind any character that cannot start a separator with it. */
  lemma NoSeparatorAfterChar(c: char, p: string, s: string)
    requires !OccursIn(Separator, p)
    requires |s| >= 2 && s[..2] != Separator
    requires s[0] == c && p <= s[1..]
    ensures !OccursIn(Separator, [c] + p)
  {
    var q := [c] + p;
    forall i
      ensures !OccursAt(Separator, q, i)
    {
      if i < 0 || i + 2 > |q| {
      } else if i == 0 {
        assert q[1] == p[0] == s[1];
        assert q[..2] == s[..2];
      } else {
        assert q[i..i + 2] == p[i - 1..i + 1];
        assert !OccursAt(Separator, p, i - 1);
      }
    }
  }

  /** What `Split` promises of its parts, for the input `s`. */
  ghost predicate SplitsInto(s: string, parts: seq<string>) {
    && |parts| >= 1
    && parts[0] <= s
    && Join(parts) == s
    && (forall k :: 0 <= k < |parts| ==> !OccursIn(Separator, parts[k]))
    && (forall k :: 0 <= k < |parts| ==> OccursIn(parts[k], s))
  }

  /** A separator at the front ends an empty first part. */
  lemma SplitAtSeparator(s: string, rest: seq<string>)
    requires |s| >= 2 && s[..2] == Separator
    requires SplitsInto(s[2..], rest)
    ensures SplitsInto(s, [""] + rest)
  {
    var parts := [""] + rest;
    assert OccursAt("", s, 0);
    assert s == s[..2] + s[2..];
    assert parts[1..] == rest;
    forall k | 1 <= k < |parts|
      ensures OccursIn(parts[k], s)
    {
      assert parts[k] == rest[k - 1];
      OccursInSuffix(rest[k - 1], s, 2);
    }
  }

  /** Any other first character joins the first part. */
  lemma SplitAtChar(s: string, rest: seq<string>)
    requires |s| >= 2 && s[..2] != Separator
    requires SplitsInto(s[1..], rest)
    ensures SplitsInto(s, [[s[0]] + rest[0]] + rest[1..])
  {
    var first := [s[0]] + rest[0];
    var parts := [first] + rest[1..];
    NoSeparatorAfterChar(s[0], rest[0], s);
    JoinPrepend(s[0], rest);
    assert first <= s;
    assert OccursAt(first, s, 0);
    forall k | 1 <= k < |parts|
      ensures OccursIn(parts[k], s)
    {
      assert parts[k] == rest[k];
      OccursInSuffix(rest[k], s, 1);
    }
  }

  /**
   * `s.split(", ")`: the parts joined back with the separator give `s`, no
   * part contains the separator, and every part occurs in `s`.
   */
  function Split(s: string): (parts: seq<string>)
    ensures |parts| >= 1
    ensures Join(parts) == s
    ensures forall k :: 0 <= k < |parts| ==> !OccursIn(Separator, parts[k])
    ensures forall k :: 0 <= k < |parts| ==> OccursIn(parts[k], s)
    ensures SplitsInto(s, parts)
    decreases |s|
  {
    if |s| < 2 then
      assert OccursAt(s, s, 0);
      assert forall t :: |t| == 2 ==> !OccursAt(t, s, 0);
      [s]
    else if s[..2] == Separator then
      var rest := Split(s[2..]);
      SplitAtSeparator(s, rest);
      [""] + rest
    else
      var rest := Split(s[1..]);
      SplitAtChar(s, rest);
      [[s[0]] + rest[0]] + rest[1..]
  }

  /** The characters `String.prototype.trim` strips: white space and line terminators. */
  predicate IsTrimmed(c: char) {
    || c == '\t' || c == '\n' || c == '\U{000B}' || c == '\U{000C}' || c == '\r' || c == ' '
    || c == '\U{00A0}' || c == '\U{1680}' || ('\U{2000}' <= c <= '\U{200A}')
    || c == '\U{2028}' || c == '\U{2029}' || c == '\U{202F}' || c == '\U{205F}'
    || c == '\U{3000}' || c == '\U{FEFF}'
  }

  /** `s.trimStart()`: the longest suffix that does not start with white space. */
  function TrimStart(s: string): (r: string)
    ensures |r| <= |s| && r == s[|s| - |r|..]
    ensures forall i :: 0 <= i < |s| - |r| ==> IsTrimmed(s[i])
    ensures r == [] || !IsTrimmed(r[0])
    decreases |s|
  {
    if s != [] && IsTrimmed(s[0]) then TrimStart(s[1..]) else s
  }

  /** `s.trimEnd()`: the longest prefix that does not end with white space. */
  function TrimEnd(s: string): (r: string)
    ensures |r| <= |s| && r == s[..|r|]
    ensures forall i :: |r| <= i < |s| ==> IsTrimmed(s[i])
    ensures r == [] || !IsTrimmed(r[|r| - 1])
    decreases |s|
  {
    if s != [] && IsTrimmed(s[|s| - 1]) then TrimEnd(s[..|s| - 1]) else s
  }

  /** Every character of `s` before `i` is white space. */
  ghost predicate SpaceBefore(s: string, i: int) {
    forall p :: 0 <= p < i && p < |s| ==> IsTrimmed(s[p])
  }

  /** Every character of `s` from `j` on is white space. */
  ghost predicate SpaceFrom(s: string, j: int) {
    forall p :: 0 <= j <= p < |s| ==> IsTrimmed(s[p])
  }

  /** `r` neither starts nor ends with white space. */
  predicate SolidEnds(r: string) {
    r == [] || (!IsTrimmed(r[0]) && !IsTrimmed(r[|r| - 1]))
  }

  /** `r` is the stretch `s[i..j]`, with only white space around it and none at its ends. */
  ghost predicate TrimmedAt(r: string, s: string, i: int, j: int) {
    0 <= i <= j <= |s| && r == s[i..j] && SpaceBefore(s, i) && SpaceFrom(s, j) && SolidEnds(r)
  }

  /** `r` is `s` with the white space at both ends removed. */
  ghost predicate TrimmedFrom(r: string, s: string) {
    exists i, j :: TrimmedAt(r, s, i, j)
  }

  /**
   * Cutting the leading white space off `s` (leaving `t`), then the trailing
   * white space off `t` (leaving `r`), cuts out the stretch `TrimmedAt`
   * describes.
   */
  lemma TrimStartThenEnd(s: string, t: string, r: string)
    requires |t| <= |s| && t == s[|s| - |t|..]
    requires forall p :: 0 <= p < |s| - |t| ==> IsTrimmed(s[p])
    requires t == [] || !IsTrimmed(t[0])
    requires |r| <= |t| && r == t[..|r|]
    requires forall p :: |r| <= p < |t| ==> IsTrimmed(t[p])
    requires r == [] || !IsTrimmed(r[|r| - 1])
    ensures TrimmedAt(r, s, |s| - |t|, |s| - |t| + |r|)
  {
    var i := |s| - |t|;
    assert r == s[i..i + |r|];
    assert SpaceFrom(s, i + |r|) by {
      forall p | i + |r| <= p < |s|
        ensures IsTrimmed(s[p])
      {
        assert s[p] == t[p - i];
      }
    }
    assert SolidEnds(r) by {
      if r != [] {
        assert r[0] == t[0];
      }
    }
  }

  /** `s.trim()`: `s` without white space at either end, cut out of `s` itself. */
  function Trim(s: string): (r: string)
    ensures TrimmedFrom(r, s)
    ensures SolidEnds(r)
    ensures OccursIn(r, s)
    ensures forall i :: 0 <= i < |s| && !IsTrimmed(s[i]) ==> r != []
  {
    var t := TrimStart(s);
    var r := TrimEnd(t);
    var i := |s| - |t|;
    TrimStartThenEnd(s, t, r);
    assert TrimmedAt(r, s, i, i + |r|);
    assert OccursAt(r, s, i);
    assert r == [] ==> forall p :: 0 <= p < |s| ==> IsTrimmed(s[p]) by {
      if r == [] {
        assert SpaceBefore(s, i) && SpaceFrom(s, i);
      }
    }
    r
  }

  /** Two trimmed stretches of the same string are the same stretch. */
  lemma TrimmedAtUnique(s: string, a: string, i1: int, j1: int, b: string, i2: int, j2: int)
    requires TrimmedAt(a, s, i1, j1) && TrimmedAt(b, s, i2, j2)
    ensures a == b
  {
    if a != [] && b != [] {
      assert s[i1] == a[0] && s[i2] == b[0];
      assert i1 == i2;
      assert s[j1 - 1] == a[|a| - 1] && s[j2 - 1] == b[|b| - 1];
      assert j1 == j2;
    }
  }

  /** Only one stretch of `s` is `s` trimmed. */
  lemma TrimmedFromUnique(s: string, a: string, b: string)
    requires TrimmedFrom(a, s) && TrimmedFrom(b, s)
    ensures a == b
  {
    var i1, j1 :| TrimmedAt(a, s, i1, j1);
    var i2, j2 :| TrimmedAt(b, s, i2, j2);
    TrimmedAtUnique(s, a, i1, j1, b, i2, j2);
  }

  /** `Trim` is the only function meeting its description. */
  lemma TrimIsUnique(s: string, r: string)
    requires TrimmedFrom(r, s)
    ensures r == Trim(s)
  {
    TrimmedFromUnique(s, r, Trim(s));
  }

  /** Trimming a trimmed string changes nothing. */
  lemma TrimIdempotent(s: string)
    ensures Trim(Trim(s)) == Trim(s)
  {
  }

  /**
   * `keywords ? keywords.split(", ").map(k => k.trim()) : []`: one tag per
   * `", "`-separated part, that part with the white space at its ends removed.
   */
  function Tags(keywords: string): (r: seq<string>)
    ensures keywords == "" ==> r == []
    ensures keywords != "" ==> |r| == |Split(keywords)|
    ensures keywords != "" ==> forall k :: 0 <= k < |r| ==> TrimmedFrom(r[k], Split(keywords)[k])
    ensures forall k :: 0 <= k < |r| ==> OccursIn(r[k], keywords)
  {
    if keywords == "" then []
    else
      var parts := Split(keywords);
      var r := seq(|parts|, k requires 0 <= k < |parts| => Trim(parts[k]));
      forall k | 0 <= k < |r|
        ensures OccursIn(r[k], keywords)
      {
        OccursInTransitive(r[k], parts[k], keywords);
      }
      r
  }

  /** `investors.flatMap(investor => Tags(investor["Keywords"]))` */
  function AllTags(xs: seq<Investor>): (r: seq<string>)
    ensures forall t :: t in r <==> exists i :: 0 <= i < |xs| && t in Tags(xs[i].keywords)
    decreases |xs|
  {
    if xs == [] then []
    else
      var rest := AllTags(xs[1..]);
      assert forall i :: 1 <= i < |xs| ==> xs[i] == xs[1..][i - 1];
      Tags(xs[0].keywords) + rest
  }

  /** `investors.map(investor => investor["Country"])` */
  function Countries(xs: seq<Investor>): (r: seq<string>)
    ensures |r| == |xs|
    ensures forall i :: 0 <= i < |xs| ==> r[i] == xs[i].country
  {
    seq(|xs|, i requires 0 <= i < |xs| => xs[i].country)
  }

  /** `.filter(Boolean)` on strings: only the empty string is falsy. */
  predicate NonEmpty(s: string) {
    s != ""
  }

  /** Filtering a list without repeats keeps it without repeats. */
  lemma FilterKeepsDistinct(xs: seq<string>, keep: string -> bool)
    requires forall i, j :: 0 <= i < j < |xs| ==> xs[i] != xs[j]
    ensures var r := Arrays.Filter(xs, keep);
      forall i, j :: 0 <= i < j < |r| ==> r[i] != r[j]
  {
    Arrays.FilterSelectsKeptPositions(xs, keep);
  }

  /** The sentinel is kept by `.filter(Boolean)` and the rest is filtered on its own. */
  lemma FilterAfterSentinel(sentinel: string, d: seq<string>)
    requires sentinel != ""
    ensures Arrays.Filter([sentinel] + d, NonEmpty) == [sentinel] + Arrays.Filter(d, NonEmpty)
  {
    assert ([sentinel] + d)[1..] == d;
  }

  /** `.filter(Boolean)` keeps exactly the non-empty strings. */
  lemma NonEmptyMembership(d: seq<string>, t: string)
    ensures t in Arrays.Filter(d, NonEmpty) <==> t != "" && t in d
  {
    var r := Arrays.Filter(d, NonEmpty);
    if t in r {
      var k :| 0 <= k < |r| && r[k] == t;
    }
    if t != "" && t in d {
      var i :| 0 <= i < |d| && d[i] == t;
    }
  }

  /** `[sentinel, ...new Set(values)].filter(Boolean)` */
  function OptionList(sentinel: string, values: seq<string>): (r: seq<string>)
    requires sentinel != ""
    ensures |r| >= 1 && r[0] == sentinel
    ensures forall t :: t in r[1..] <==> t != "" && t in values
    ensures forall i, j :: 1 <= i < j < |r| ==> r[i] != r[j]
  {
    var d := Distinct(values);
    var tail := Arrays.Filter(d, NonEmpty);
    FilterAfterSentinel(sentinel, d);
    FilterKeepsDistinct(d, NonEmpty);
    forall t
      ensures t in tail <==> t != "" && t in values
    {
      NonEmptyMembership(d, t);
    }
    var r := Arrays.Filter([sentinel] + d, NonEmpty);
    assert r[1..] == tail;
    r
  }

  /** The Location drop-down: the sentinel, then every distinct non-empty country once. */
  function LocationOptions(xs: seq<Investor>): (r: seq<string>)
    ensures |r| >= 1 && r[0] == Filter.AllLocations
    ensures forall t :: t in r[1..] <==> t != "" && exists i :: 0 <= i < |xs| && xs[i].country == t
    ensures forall i, j :: 1 <= i < j < |r| ==> r[i] != r[j]
  {
    var countries := Countries(xs);
    assert forall t :: t in countries <==> exists i :: 0 <= i < |xs| && xs[i].country == t;
    OptionList(Filter.AllLocations, countries)
  }

  /** The Sector drop-down: the sentinel, then every distinct non-empty keyword tag once. */
  function SectorOptions(xs: seq<Investor>): (r: seq<string>)
    ensures |r| >= 1 && r[0] == Filter.AllSectors
    ensures forall t :: t in r[1..] <==> t != "" && exists i :: 0 <= i < |xs| && t in Tags(xs[i].keywords)
    ensures forall i, j :: 1 <= i < j < |r| ==> r[i] != r[j]
  {
    OptionList(Filter.AllSectors, AllTags(xs))
  }

  /**
   * Choosing any offered location other than the sentinel, with the other
   * criteria at their defaults, leaves at least one investor.
   */
  lemma OfferedLocationSelectsSomeone(xs: seq<Investor>, t: string)
    requires t in LocationOptions(xs)[1..] && t != Filter.AllLocations
    ensures Filter.FilterInvestors(xs, Filter.Unfiltered.(location := t)) != []
  {
    var c := Filter.Unfiltered.(location := t);
    var i :| 0 <= i < |xs| && xs[i].country == t;
    Filter.UnfilteredMatchesEverything(xs[i]);
    assert Filter.Matches(xs[i], c);
  }

  /**
   * Choosing any tag of some investor as the sector (every offered sector
   * is one), with the other criteria at their defaults, leaves at least one
   * investor: a tag is cut out of the keywords, so it occurs in them
   * ignoring case.
   */
  lemma OfferedSectorSelectsSomeone(xs: seq<Investor>, t: string)
    requires exists i :: 0 <= i < |xs| && t in Tags(xs[i].keywords)
    ensures Filter.FilterInvestors(xs, Filter.Unfiltered.(sector := t)) != []
  {
    var c := Filter.Unfiltered.(sector := t);
    var i :| 0 <= i < |xs| && t in Tags(xs[i].keywords);
    LowerKeepsOccurrence(t, xs[i].keywords);
    assert Filter.IncludesIgnoringCase(xs[i].keywords, t);
    Filter.UnfilteredMatchesEverything(xs[i]);
    assert Filter.Matches(xs[i], c);
  }
}
